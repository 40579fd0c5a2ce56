# WebSocket presence demo — a Dafny model of its core

The backend of this demo is a small WebSocket server. Every connected browser
reports the position of its cursor and its clicks. The server keeps a user
registry and a click queue. Sixty times a second it runs a tick:

- It broadcasts the other users' positions, but only when the registry has
  changed since the last broadcast.
- It forwards the queued clicks to everyone but their authors.
- It empties the queue.

Two small helpers from the code base are modelled beside the server:

- `ColorUtils.hex2rgb` turns a hex colour string or a number into red, green
  and blue channels. It returns either CSS text or an RGB object.
- `MathUtils.isPowerOfTwo` is the `v & (v - 1)` bit trick under JavaScript's
  32-bit integer conversion.

The project has five files:

- `Presence.dfy` (module `Presence`) holds the server.
  - Connections are abstract ids (`ConnId`).
  - A decoded client frame is a `ClientMessage`: a position change, a click,
    or a frame of any other type.
  - Sending is modelled as appending a `Send(connection, message)` to the
    server's `outbox`.
  - The class `WebServer` keeps the fields the handlers update in place:
    `users`, `clicks`, the baseline of the last broadcast, and the outbox.
  - Its methods `OnMessage`, `OnClose` and `Tick` are proved against
    specification functions (`Upserted`, `WithoutSocket`, `TickSends`). The
    lemmas beside those functions state what the server promises.
  - The class invariant `Valid` says that ids in the registry are pairwise
    distinct. Every handler preserves it.
- `ColorUtils.dfy` (module `ColorUtils`) holds `Hex2Rgb` and its parts.
  - The string branch: the '#' strip, the three-character expansion, and the
    pairwise base-16 parse.
  - The numeric branch: shift and mask.
  - The two return forms, and the decimal text a template literal prints for a channel.
- `MathUtils.dfy` (module `MathUtils`) holds `IsPowerOfTwo` and its
  characterisation.
- `Int32.dfy` (module `Int32`) defines JavaScript's `ToInt32`, `&` and `>>` on
  integers, following sections 7.1.6, 13.9.2 and 13.12 of ECMA-262. Bit
  patterns are naturals below 2^32.
- `Prelude.dfy` (module `Prelude`) defines `Option` and `Filter`, which is
  `Array.prototype.filter`, together with the filter's lemmas: membership,
  order, counts and concatenation.

Decisions the code leaves open:

- The baseline starts as the empty string, which no serialised registry
  equals. The model uses `None` for it, so the first tick always broadcasts.
- The baseline is `JSON.stringify(this._users)`, and each record includes its
  socket. The model therefore compares whole records, sockets included.
- The x and y coordinates, click coordinates and the opacity are only
  compared and passed through. They are `real` values.
- The opacity also carries the text that a template literal prints for it.

## Model

| member | source | states |
|---|---|---|
| Presence.IndexOfId | backend/src/ts/WebServer.ts:95 | `find` by id: yields the first record carrying the id, or nothing when no record carries it |
| Presence.UpsertExisting | backend/src/ts/WebServer.ts:95-100 | a positionChange for a known id overwrites only that record's x and y; its id, name, color and socket, every other record and the registry's length stay as they were |
| Presence.UpsertNew | backend/src/ts/WebServer.ts:101-107 | a positionChange for an unseen id appends exactly one record at the end, carrying the payload's fields and the receiving socket; the existing records stay in place |
| Presence.UpsertKeepsIdsDistinct | backend/src/ts/WebServer.ts:95-107 | after an upsert the ids are still pairwise distinct, and the set of ids gains exactly the payload's id |
| Presence.WithoutSocket | backend/src/ts/WebServer.ts:118 | the registry after a close holds exactly the records whose socket is a different one |
| Presence.WithoutSocketInOrder | backend/src/ts/WebServer.ts:118 | closing keeps the surviving records in their original order |
| Presence.WithoutUnknownSocket | backend/src/ts/WebServer.ts:118 | closing a socket that owns no record leaves the registry unchanged |
| Presence.CloseKeepsIdsDistinct | backend/src/ts/WebServer.ts:118 | closing keeps the ids pairwise distinct |
| Presence.VisibleToExactly | backend/src/ts/WebServer.ts:148-156 | the positionChange payload for a user never holds that user or a record without both coordinates; it holds only registry records, and it holds every other record that has both coordinates |
| Presence.VisibleToInOrder | backend/src/ts/WebServer.ts:148-156 | the payload lists the users in registry order: each record contributes itself, stripped and in place, or nothing |
| Presence.ClicksFor | backend/src/ts/WebServer.ts:171-172 | a user's click payload holds exactly the queued clicks whose id differs from the user's |
| Presence.ClicksForExactlyOnce | backend/src/ts/WebServer.ts:171-172 | each click by someone else appears in the payload as often as it was queued; the user's own clicks never appear |
| Presence.ClicksForInOrder | backend/src/ts/WebServer.ts:171-172 | the click payload keeps queue order |
| Presence.PositionFanOutAt | backend/src/ts/WebServer.ts:146-164 | the broadcast loop sends one message per user; the i-th goes to user i's socket and carries that user's payload |
| Presence.ClickFanOutAt | backend/src/ts/WebServer.ts:169-180 | the click loop sends one message per user; the i-th goes to user i's socket and carries that user's clicks |
| Presence.PositionSendsArePositionChanges | backend/src/ts/WebServer.ts:158-163 | every message of the broadcast phase is a positionChange |
| Presence.ClickSendsAreClicks | backend/src/ts/WebServer.ts:174-179 | every message of the click phase is a click |
| Presence.PositionSendsLength | backend/src/ts/WebServer.ts:141-164 | the broadcast phase sends one message per user when the registry differs from the baseline, and none when it equals it |
| Presence.ClickSendsAt | backend/src/ts/WebServer.ts:167-183 | with clicks queued, each user is sent one click message, even when it is empty; with no clicks queued, nothing is sent |
| Presence.TickPositionPhase | backend/src/ts/WebServer.ts:141-164 | a changed registry makes the tick's first messages one positionChange per user, in order; an unchanged registry makes the tick send no positionChange at all |
| Presence.TickClickPhase | backend/src/ts/WebServer.ts:167-183 | a tick's total number of messages; with clicks queued, user i's click message comes right after all positionChange messages; an empty queue means only positionChange messages |
| Presence.TickPositionsBeforeClicks | backend/src/ts/WebServer.ts:146-183 | no click message of a tick precedes one of its positionChange messages |
| Presence.IdleTickIsSilent | backend/src/ts/WebServer.ts:141-142 | a tick that follows another with no message or close in between sends nothing, so positions go out at most once |
| Presence.WebServer.constructor | backend/src/ts/WebServer.ts:57-59 | the server starts with no users, no clicks, no baseline and nothing sent |
| Presence.WebServer.OnMessage | backend/src/ts/WebServer.ts:89-113 | a positionChange upserts the registry; a click is appended unchanged to the queue; any other frame changes nothing; ids stay distinct |
| Presence.WebServer.OnClose | backend/src/ts/WebServer.ts:115-119 | a close removes the records of that socket and touches nothing else; ids stay distinct |
| Presence.WebServer.Tick | backend/src/ts/WebServer.ts:139-186 | a tick leaves the registry unchanged, empties the queue, makes the registry the new baseline, and appends exactly `TickSends` of the old state to the outbox |
| Presence.WebServer.TickTwice | backend/src/ts/WebServer.ts:139-186 | two ticks with nothing in between append exactly what the first one sends: the second tick adds nothing to the outbox |
| Presence.WebServer.BroadcastPositions | backend/src/ts/WebServer.ts:141-165 | the broadcast loop appends exactly the broadcast-phase messages and records the baseline |
| Presence.WebServer.ForwardClicks | backend/src/ts/WebServer.ts:167-183 | the click loop appends exactly the click-phase messages and leaves the queue empty |
| ColorUtils.Hex2Rgb | frontend/src/ts/utils/ColorUtils.ts:15-57 | the result is an RGBObject exactly when `"RGBObject"` is asked for, and its `a` is the opacity unchanged; the defaults are opacity 1 and the string form |
| ColorUtils.Hex2RgbFormsAgree | frontend/src/ts/utils/ColorUtils.ts:45-56 | for the same colour and opacity, the string form is the CSS text of the object form's r, g, b and a |
| ColorUtils.Hex2RgbHashIsOptional | frontend/src/ts/utils/ColorUtils.ts:23-26 | "#" + t and t give the same result, in either form |
| ColorUtils.Hex2RgbSixDigits | frontend/src/ts/utils/ColorUtils.ts:31-53 | six hex digits give the object (16·d0 + d1, 16·d2 + d3, 16·d4 + d5) with the opacity as `a` |
| ColorUtils.Hex2RgbNumeric | frontend/src/ts/utils/ColorUtils.ts:40-53 | a number n gives the object ((n / 65536) mod 256, (n / 256) mod 256, n mod 256) with the opacity as `a` |
| ColorUtils.Hex2RgbShortObject | frontend/src/ts/utils/ColorUtils.ts:23-53 | "#abc" as an object gives (170, 188, 188) with `a` = 1 |
| ColorUtils.Hex2RgbShortText | frontend/src/ts/utils/ColorUtils.ts:15-56 | "abc" with the default arguments gives "rgb(170, 188, 188)" |
| ColorUtils.Hex2RgbNumericText | frontend/src/ts/utils/ColorUtils.ts:40-56 | 0x336699 with opacity 0.5 gives "rgba(51, 102, 153, 0.5)" |
| ColorUtils.CssColorForms | frontend/src/ts/utils/ColorUtils.ts:56 | the text is "rgb(" + r, g, b + ")" when the opacity is exactly 1 and "rgba(" + r, g, b + ", " + opacity + ")" otherwise, where the middle is the three channel texts joined by ", " |
| ColorUtils.DecimalRoundTrip | frontend/src/ts/utils/ColorUtils.ts:56 | the digits a template literal prints for a non-negative integer read back as that integer, and begin with '0' only for 0 |
| ColorUtils.ShortDecimalText | frontend/src/ts/utils/ColorUtils.ts:56 | a channel byte prints as its one, two or three decimal digits, most significant first |
| ColorUtils.ChannelTextReadsBack | frontend/src/ts/utils/ColorUtils.ts:56 | a non-negative channel prints as digits only, which read back as the channel |
| ColorUtils.HashIsOptional | frontend/src/ts/utils/ColorUtils.ts:23-26 | a leading '#' is dropped, so "#" + s and s give the same channels |
| ColorUtils.TwoDigits | frontend/src/ts/utils/ColorUtils.ts:34-36 | base-16 parsing of two hex digits gives 16·d0 + d1, which lies in 0..255 |
| ColorUtils.SixDigits | frontend/src/ts/utils/ColorUtils.ts:31-36 | six hex digits give r, g and b as the values of characters 0-1, 2-3 and 4-5 |
| ColorUtils.ExpandThree | frontend/src/ts/utils/ColorUtils.ts:27-30 | the three-character expansion as written produces c0 c0 c1 c2 c1 c2 c2 c2 |
| ColorUtils.ThreeDigits | frontend/src/ts/utils/ColorUtils.ts:27-36 | three hex digits give r = c0c0 and g = b = c1c2, which is not CSS shorthand |
| ColorUtils.LowByte | frontend/src/ts/utils/ColorUtils.ts:42 | `x & 255` is x modulo 256, for every integer x |
| ColorUtils.ShiftedByte | frontend/src/ts/utils/ColorUtils.ts:40-41 | `(x >> 16) & 255` and `(x >> 8) & 255` are bytes 2 and 1 of x |
| ColorUtils.NumericBytes | frontend/src/ts/utils/ColorUtils.ts:40-42 | a numeric colour n gives r = (n / 65536) mod 256, g = (n / 256) mod 256 and b = n mod 256 |
| ColorUtils.NumericRoundTrip | frontend/src/ts/utils/ColorUtils.ts:40-42 | numeric channels always lie in 0..255, and for 0 ≤ n < 2^24, r·65536 + g·256 + b = n |
| ColorUtils.ShorthandQuirk | frontend/src/ts/utils/ColorUtils.ts:29 | as written, "abc" gives the channels (170, 188, 188), not those of "aabbcc" (170, 187, 204) |
| ColorUtils.CorrectedShorthand | frontend/src/ts/utils/ColorUtils.ts:27-36 | with the CSS expansion, c0 c1 c2 gives 17·d0, 17·d1 and 17·d2, and six-digit colours read exactly as before |
| Int32.AndPredecessor | backend/src/ts/utils/MathUtils.ts:21 | for a nonzero n-bit pattern x, x & (x − 1) is zero exactly when x is a power of two |
| MathUtils.OneBitSet | backend/src/ts/utils/MathUtils.ts:21 | for a 32-bit integer, isPowerOfTwo holds exactly when one bit of its two's complement pattern is set; so isPowerOfTwo(0) is false |
| MathUtils.PositivePowers | backend/src/ts/utils/MathUtils.ts:21 | for 1 ≤ v < 2^31, isPowerOfTwo(v) holds exactly when v = 2^k for some k in 0..30 |
| MathUtils.NegativeInputs | backend/src/ts/utils/MathUtils.ts:21 | a negative 32-bit input gives false, except −2^31, whose only set bit is the sign bit |

## Left out

- JSON encoding and decoding (`JSON.parse` and `JSON.stringify`).
  - Frames arrive already decoded as `ClientMessage`.
  - A malformed frame throws inside the handler, and that path is not modelled.
  - Messages are sent as `ServerMessage` values, not as text.
- The `userData` placeholder held per connection. It is only used for the log line on close.
- Logging.
- The Express and http servers, static files, the favicon and the listen calls. These are I/O.
- The rescheduling of `tick` with `setTimeout`. One call of `Tick` is one tick.
- The tick's method is split in two: `BroadcastPositions`, then `ForwardClicks`. `Tick` runs them in that order.
- The browser client, DOM helpers, file helpers and the frontend `MathUtils`. They are DOM work, timers, file I/O and random numbers, and are not part of this model.
- `MathUtils.isValidNumber` and `MathUtils.floorPowerOfTwo`. Both work on floating point.
- Presence.WebServer.OnMessage: a positionChange payload's extra fields, copied by the spread into a new record, are not modelled. A record has exactly the fields of `IUser` plus its socket.
- Presence.WebServer.Tick: the baseline compares records by value, and a record's socket by its connection's identity (`ConnId`). `JSON.stringify` instead writes out the socket object's own enumerable fields, so a socket whose internal state changes between ticks would count as a change there and not here.
- Presence.WebServer.Tick: a coordinate that is absent and one that is `null` are both `None`. Stringify tells them apart (the key is dropped, or written as `null`), so a change between the two triggers a broadcast in the source and not here. Stringify also writes -0 as 0, and NaN as `null`, though `JSON.parse` never produces NaN. A Dafny real holds neither value, so the model cannot tell them apart either.
- Presence.IdleTickIsSilent and Presence.WebServer.TickTwice: hold under this comparison. With stringify and unchanged records they hold too, unless a socket's serialised state changes between the two ticks.
- Presence.WebServer.OnMessage: a click payload is queued as `ClickData`, which keeps only its id, x and y. Any other field the client sends is forwarded by the source and dropped here.
- Presence.WebServer.Tick: a record whose socket is missing cannot be expressed. Every record here has a connection, so the guard `user.socket?.send` never skips.
- ColorUtils.Hex2Rgb: requires the string argument to be hex digits after an optional '#'. Non-hex characters make `parseInt` return a partial parse or NaN, and that is not modelled. Parts of the string that are empty do give NaN (`None`).
- ColorUtils.Hex2Rgb: takes a numeric colour as an integer. `ToInt32` of a fractional or non-finite number is not modelled.
- ColorUtils.Hex2Rgb: the defaults `opacity = 1` and `returnType = "string"` are Dafny default parameter values. A caller that passes `undefined` explicitly is not modelled.
- ColorUtils.Hex2Rgb: takes the opacity as a real number with the text it prints as. NaN, -0 and the exact decimal rendering of floats are not modelled.
- MathUtils.IsPowerOfTwo: is defined for every integer through `ToInt32`, but its properties are stated for 32-bit inputs. Fractional and non-finite inputs are not modelled.

## Findings

| source | as written | input that shows it | evidently intended | confidence | as-written member | corrected member |
|---|---|---|---|---|---|---|
| frontend/src/ts/utils/ColorUtils.ts:29 | `substr(1, 2)` and `substr(2, 3)` take two and one characters, so a three-character colour c0c1c2 becomes c0 c0 c1c2 c1c2 c2 c2 | "abc" (or "#abc") yields (170, 188, 188) | CSS shorthand doubles each digit: "abc" means "aabbcc", i.e. (170, 187, 204) | not executed | ColorUtils.ShorthandQuirk | ColorUtils.CorrectedShorthand |

`Hex2Rgb` itself follows the code as written. The corrected reading is
`CssHexChannels`, built on `CssExpand`, and `CorrectedShorthand` states its
property.
