/** The presence synchronisation server of backend/src/ts/WebServer.ts: the user
    registry that positionChange frames update and socket closes prune, the click
    queue that click frames fill, and the tick that fans both out to every user.

    Frames arrive already decoded (JSON parsing is not modelled), a socket is an
    opaque connection id, and `send` appends a (connection, message) pair to the
    server's outbox. */
module Presence {
  import opened Prelude

  /** An open socket, identified by its identity. */
  type ConnId = nat

  /** A JavaScript number that is only compared and passed through. */
  type Number = real

  /** A user as a positionChange frame carries it and as the server sends it back (IUser). */
  datatype UserData = UserData(id: string, name: string, color: string, x: Option<Number>, y: Option<Number>)

  /** A user as the registry stores it: the frame's fields plus the socket it came from (IUserWithSocket). */
  datatype User = User(id: string, name: string, color: string, x: Option<Number>, y: Option<Number>, socket: ConnId)
  {
    /** The record with its socket field deleted, as it is put on the wire. */
    function Data(): UserData
    {
      UserData(id, name, color, x, y)
    }

    /** Whether the user has reported a position: neither coordinate is null. */
    predicate HasPosition()
    {
      x.Some? && y.Some?
    }
  }

  /** A click as a client reports it and as the server forwards it (IClickData). */
  datatype ClickData = ClickData(id: string, x: Number, y: Number)

  /** A decoded client frame; OtherFrame is a frame whose type is neither of the two kinds. */
  datatype ClientMessage =
    | PositionChangeFrame(user: UserData)
    | ClickFrame(click: ClickData)
    | OtherFrame(kind: string)

  /** A server frame (IServerMessage). */
  datatype ServerMessage =
    | PositionChange(users: seq<UserData>)
    | Click(clicks: seq<ClickData>)

  /** One call of socket.send: the connection written to and the message written. */
  datatype Send = Send(to: ConnId, message: ServerMessage)

  /** No two records of the registry share an id. */
  ghost predicate DistinctIds(users: seq<User>)
  {
    forall i, j :: 0 <= i < j < |users| ==> users[i].id != users[j].id
  }

  /** The ids present in the registry. */
  ghost function Ids(users: seq<User>): set<string>
  {
    set u | u in users :: u.id
  }

  // ---------------------------------------------------------------------------
  // Event intake: the onmessage and onclose handlers
  // ---------------------------------------------------------------------------

  /** Array.find by id: the position of the first record with that id, if any. */
  function IndexOfId(users: seq<User>, id: string): (r: Option<nat>)
    ensures r.Some? ==> r.value < |users| && users[r.value].id == id
    ensures r.Some? ==> forall j :: 0 <= j < r.value ==> users[j].id != id
    ensures r.None? ==> forall j :: 0 <= j < |users| ==> users[j].id != id
  {
    if |users| == 0 then None
    else if users[0].id == id then Some(0)
    else match IndexOfId(users[1..], id)
      case Some(i) => Some(i + 1)
      case None => None
  }

  /** The registry after a positionChange frame from `socket`: a record with the
      frame's id gets the new coordinates, otherwise the frame becomes a new record. */
  function Upserted(users: seq<User>, data: UserData, socket: ConnId): seq<User>
  {
    match IndexOfId(users, data.id)
    case Some(i) => users[i := users[i].(x := data.x, y := data.y)]
    case None => users + [User(data.id, data.name, data.color, data.x, data.y, socket)]
  }

  /** A frame for a known id overwrites that record's x and y and nothing else. */
  lemma UpsertExisting(users: seq<User>, data: UserData, socket: ConnId, i: nat)
    requires i < |users| && users[i].id == data.id
    requires forall j :: 0 <= j < i ==> users[j].id != data.id
    ensures |Upserted(users, data, socket)| == |users|
    ensures Upserted(users, data, socket)[i].x == data.x && Upserted(users, data, socket)[i].y == data.y
    ensures Upserted(users, data, socket)[i].id == users[i].id
    ensures Upserted(users, data, socket)[i].name == users[i].name
    ensures Upserted(users, data, socket)[i].color == users[i].color
    ensures Upserted(users, data, socket)[i].socket == users[i].socket
    ensures forall j :: 0 <= j < |users| && j != i ==> Upserted(users, data, socket)[j] == users[j]
  {
  }

  /** A frame for an unseen id appends one record carrying the frame and the socket. */
  lemma UpsertNew(users: seq<User>, data: UserData, socket: ConnId)
    requires forall j :: 0 <= j < |users| ==> users[j].id != data.id
    ensures Upserted(users, data, socket)[..|users|] == users
    ensures |Upserted(users, data, socket)| == |users| + 1
    ensures Upserted(users, data, socket)[|users|].Data() == data
    ensures Upserted(users, data, socket)[|users|].socket == socket
  {
  }

  /** Upserting keeps ids pairwise distinct, and afterwards the frame's id is present. */
  lemma {:induction false} UpsertKeepsIdsDistinct(users: seq<User>, data: UserData, socket: ConnId)
    requires DistinctIds(users)
    ensures DistinctIds(Upserted(users, data, socket))
    ensures Ids(Upserted(users, data, socket)) == Ids(users) + {data.id}
  {
    var r := Upserted(users, data, socket);
    match IndexOfId(users, data.id)
    case Some(i) =>
      forall id | id in Ids(r) ensures id in Ids(users) + {data.id} {
        var u :| u in r && u.id == id;
        var k :| 0 <= k < |r| && r[k] == u;
        assert id == users[k].id;
      }
      forall id | id in Ids(users) + {data.id} ensures id in Ids(r) {
        if id == data.id {
          assert r[i] in r;
        } else {
          var u :| u in users && u.id == id;
          var k :| 0 <= k < |users| && users[k] == u;
          assert r[k] in r && r[k].id == id;
        }
      }
    case None =>
      forall id | id in Ids(r) ensures id in Ids(users) + {data.id} {
        var u :| u in r && u.id == id;
        var k :| 0 <= k < |r| && r[k] == u;
        if k < |users| {
          assert r[k] == users[k];
        }
      }
      forall id | id in Ids(users) + {data.id} ensures id in Ids(r) {
        if id == data.id {
          assert r[|users|] in r;
        } else {
          var u :| u in users && u.id == id;
          var k :| 0 <= k < |users| && users[k] == u;
          assert r[k] in r;
        }
      }
  }

  /** The registry after `socket` closes: every record whose socket is another one. */
  function WithoutSocket(users: seq<User>, socket: ConnId): (r: seq<User>)
    ensures forall u :: u in r <==> u in users && u.socket != socket
  {
    FilterMembers(users, (u: User) => u.socket != socket);
    Filter(users, (u: User) => u.socket != socket)
  }

  /** Closing keeps the surviving records in their original order: each record
      of a registry a + [u] + b contributes itself, in place, or nothing. */
  lemma WithoutSocketInOrder(a: seq<User>, u: User, b: seq<User>, socket: ConnId)
    ensures WithoutSocket(a + [u] + b, socket)
         == WithoutSocket(a, socket) + (if u.socket == socket then [] else [u]) + WithoutSocket(b, socket)
  {
    var p := (v: User) => v.socket != socket;
    FilterAppend(a + [u], b, p);
    FilterAppend(a, [u], p);
    assert Filter([u], p) == (if u.socket == socket then [] else [u]) by {
      assert [u][1..] == [];
    }
  }

  /** Closing a socket that owns no record leaves the registry as it was. */
  lemma WithoutUnknownSocket(users: seq<User>, socket: ConnId)
    requires forall i :: 0 <= i < |users| ==> users[i].socket != socket
    ensures WithoutSocket(users, socket) == users
  {
    FilterKeepsAll(users, (u: User) => u.socket != socket);
  }

  /** Dropping records never makes two ids equal. */
  lemma {:induction false} FilterKeepsIdsDistinct(users: seq<User>, p: User -> bool)
    requires DistinctIds(users)
    ensures DistinctIds(Filter(users, p))
  {
    if |users| > 0 {
      var tail := Filter(users[1..], p);
      FilterKeepsIdsDistinct(users[1..], p);
      FilterMembers(users[1..], p);
      if p(users[0]) {
        var r := [users[0]] + tail;
        assert Filter(users, p) == r;
        forall i, j | 0 <= i < j < |r| ensures r[i].id != r[j].id {
          if i == 0 {
            assert r[j] == tail[j - 1] && tail[j - 1] in users[1..];
            var k :| 0 <= k < |users[1..]| && users[1..][k] == r[j];
            assert users[k + 1] == r[j];
          }
        }
      }
    }
  }

  /** Closing a socket keeps the ids distinct. */
  lemma CloseKeepsIdsDistinct(users: seq<User>, socket: ConnId)
    requires DistinctIds(users)
    ensures DistinctIds(WithoutSocket(users, socket))
  {
    FilterKeepsIdsDistinct(users, (u: User) => u.socket != socket);
  }

  // ---------------------------------------------------------------------------
  // The tick: per-recipient payloads and the fan-out
  // ---------------------------------------------------------------------------

  /** The records without their sockets, as they are put on the wire. */
  function StripSockets(users: seq<User>): seq<UserData>
  {
    seq(|users|, i requires 0 <= i < |users| => users[i].Data())
  }

  /** The positionChange payload for the user `id`: every other user with a
      position, in registry order, without its socket. */
  function VisibleTo(users: seq<User>, id: string): seq<UserData>
  {
    StripSockets(Filter(users, (u: User) => u.id != id && u.HasPosition()))
  }

  /** The payload for `id` never holds `id` itself nor a user without a position,
      holds only records of the registry, and holds every other positioned user. */
  lemma VisibleToExactly(users: seq<User>, id: string)
    ensures |VisibleTo(users, id)| <= |users|
    ensures forall d :: d in VisibleTo(users, id) ==> d.id != id && d.x.Some? && d.y.Some?
    ensures forall d :: d in VisibleTo(users, id) ==> d in StripSockets(users)
    ensures forall u :: u in users && u.id != id && u.HasPosition() ==> u.Data() in VisibleTo(users, id)
  {
    var shown := Filter(users, (u: User) => u.id != id && u.HasPosition());
    FilterMembers(users, (u: User) => u.id != id && u.HasPosition());
    var r := StripSockets(shown);
    forall u | u in users && u.id != id && u.HasPosition() ensures u.Data() in r {
      var k :| 0 <= k < |users| && users[k] == u;
      var j :| 0 <= j < |shown| && shown[j] == u;
      assert r[j] == u.Data();
    }
    forall d | d in r ensures d.id != id && d.x.Some? && d.y.Some? && d in StripSockets(users) {
      var j :| 0 <= j < |r| && r[j] == d;
      assert shown[j] in shown;
      var k :| 0 <= k < |users| && users[k] == shown[j];
      assert StripSockets(users)[k] == d;
    }
  }

  /** The payload lists the users in registry order: each record of a + [u] + b
      contributes its stripped self, in place, or nothing. */
  lemma VisibleToInOrder(a: seq<User>, u: User, b: seq<User>, id: string)
    ensures VisibleTo(a + [u] + b, id)
         == VisibleTo(a, id) + (if u.id != id && u.HasPosition() then [u.Data()] else []) + VisibleTo(b, id)
  {
    var p := (v: User) => v.id != id && v.HasPosition();
    var fa, fu, fb := Filter(a, p), Filter([u], p), Filter(b, p);
    FilterAppend(a + [u], b, p);
    FilterAppend(a, [u], p);
    assert Filter(a + [u] + b, p) == fa + fu + fb;
    assert fu == (if p(u) then [u] else []) by {
      assert [u][1..] == [];
    }
    StripAppend(fa + fu, fb);
    StripAppend(fa, fu);
    assert StripSockets(fu) == (if p(u) then [u.Data()] else []);
  }

  lemma StripAppend(a: seq<User>, b: seq<User>)
    ensures StripSockets(a + b) == StripSockets(a) + StripSockets(b)
  {
  }

  /** The click payload for the user `id`: every queued click made by someone else, in queue order. */
  function ClicksFor(clicks: seq<ClickData>, id: string): (r: seq<ClickData>)
    ensures forall c :: c in r <==> c in clicks && c.id != id
  {
    FilterMembers(clicks, (c: ClickData) => c.id != id);
    Filter(clicks, (c: ClickData) => c.id != id)
  }

  /** A recipient gets none of its own clicks and every other click exactly as often as it was queued. */
  lemma ClicksForExactlyOnce(clicks: seq<ClickData>, id: string, c: ClickData)
    ensures multiset(ClicksFor(clicks, id))[c] == if c.id == id then 0 else multiset(clicks)[c]
  {
    FilterCount(clicks, (d: ClickData) => d.id != id, c);
  }

  /** The click payload keeps queue order: each click of a + [c] + b contributes itself, in place, or nothing. */
  lemma ClicksForInOrder(a: seq<ClickData>, c: ClickData, b: seq<ClickData>, id: string)
    ensures ClicksFor(a + [c] + b, id)
         == ClicksFor(a, id) + (if c.id != id then [c] else []) + ClicksFor(b, id)
  {
    var p := (d: ClickData) => d.id != id;
    FilterAppend(a + [c], b, p);
    FilterAppend(a, [c], p);
    assert Filter([c], p) == (if p(c) then [c] else []) by {
      assert [c][1..] == [];
    }
  }

  /** The positionChange sends to `recipients`, one each, in order. */
  function PositionFanOut(recipients: seq<User>, users: seq<User>): seq<Send>
  {
    if |recipients| == 0 then []
    else
      var last := recipients[|recipients| - 1];
      PositionFanOut(recipients[..|recipients| - 1], users)
        + [Send(last.socket, PositionChange(VisibleTo(users, last.id)))]
  }

  /** The i-th position send goes to the i-th recipient and carries what that recipient may see. */
  lemma {:induction false} PositionFanOutAt(recipients: seq<User>, users: seq<User>)
    ensures |PositionFanOut(recipients, users)| == |recipients|
    ensures forall i :: 0 <= i < |recipients| ==>
      PositionFanOut(recipients, users)[i] == Send(recipients[i].socket, PositionChange(VisibleTo(users, recipients[i].id)))
  {
    if |recipients| > 0 {
      PositionFanOutAt(recipients[..|recipients| - 1], users);
    }
  }

  /** The click sends to `recipients`, one each, in order. */
  function ClickFanOut(recipients: seq<User>, clicks: seq<ClickData>): seq<Send>
  {
    if |recipients| == 0 then []
    else
      var last := recipients[|recipients| - 1];
      ClickFanOut(recipients[..|recipients| - 1], clicks)
        + [Send(last.socket, Click(ClicksFor(clicks, last.id)))]
  }

  /** The i-th click send goes to the i-th recipient and carries the clicks of the others. */
  lemma {:induction false} ClickFanOutAt(recipients: seq<User>, clicks: seq<ClickData>)
    ensures |ClickFanOut(recipients, clicks)| == |recipients|
    ensures forall i :: 0 <= i < |recipients| ==>
      ClickFanOut(recipients, clicks)[i] == Send(recipients[i].socket, Click(ClicksFor(clicks, recipients[i].id)))
  {
    if |recipients| > 0 {
      ClickFanOutAt(recipients[..|recipients| - 1], clicks);
    }
  }

  /** Extending the recipients by one user extends the position sends by that user's message. */
  lemma PositionFanOutSnoc(recipients: seq<User>, u: User, users: seq<User>)
    ensures PositionFanOut(recipients + [u], users)
         == PositionFanOut(recipients, users) + [Send(u.socket, PositionChange(VisibleTo(users, u.id)))]
  {
    assert (recipients + [u])[..|recipients|] == recipients;
  }

  /** The position sends to the first i + 1 users extend those to the first i by user i's message. */
  lemma PositionFanOutStep(users: seq<User>, i: nat)
    requires i < |users|
    ensures PositionFanOut(users[..i + 1], users)
         == PositionFanOut(users[..i], users) + [Send(users[i].socket, PositionChange(VisibleTo(users, users[i].id)))]
  {
    TakeOneMore(users, i);
    PositionFanOutSnoc(users[..i], users[i], users);
  }

  /** Extending the recipients by one user extends the click sends by that user's message. */
  lemma ClickFanOutSnoc(recipients: seq<User>, u: User, clicks: seq<ClickData>)
    ensures ClickFanOut(recipients + [u], clicks)
         == ClickFanOut(recipients, clicks) + [Send(u.socket, Click(ClicksFor(clicks, u.id)))]
  {
    assert (recipients + [u])[..|recipients|] == recipients;
  }

  /** Everything one tick sends, given the registry, the baseline left by the
      previous broadcast (None before the first one) and the click queue. */
  function TickSends(users: seq<User>, baseline: Option<seq<User>>, clicks: seq<ClickData>): seq<Send>
  {
    PositionSends(users, baseline) + ClickSends(users, clicks)
  }

  /** The position broadcast of a tick: one message per user, or none when the
      registry equals the baseline. */
  function PositionSends(users: seq<User>, baseline: Option<seq<User>>): seq<Send>
  {
    if baseline == Some(users) then [] else PositionFanOut(users, users)
  }

  /** The click forwarding of a tick: one message per user, or none when no click is queued. */
  function ClickSends(users: seq<User>, clicks: seq<ClickData>): seq<Send>
  {
    if |clicks| == 0 then [] else ClickFanOut(users, clicks)
  }

  /** Every position send of a tick carries a positionChange message. */
  lemma PositionSendsArePositionChanges(users: seq<User>, baseline: Option<seq<User>>)
    ensures forall i :: 0 <= i < |PositionSends(users, baseline)| ==> PositionSends(users, baseline)[i].message.PositionChange?
  {
    PositionFanOutAt(users, users);
  }

  /** Every click send of a tick carries a click message. */
  lemma ClickSendsAreClicks(users: seq<User>, clicks: seq<ClickData>)
    ensures forall i :: 0 <= i < |ClickSends(users, clicks)| ==> ClickSends(users, clicks)[i].message.Click?
  {
    ClickFanOutAt(users, clicks);
  }

  /** The position phase of a tick: when the registry differs from the baseline,
      user i is sent exactly the other positioned users, first; otherwise no
      positionChange is sent at all. */
  lemma TickPositionPhase(users: seq<User>, baseline: Option<seq<User>>, clicks: seq<ClickData>)
    ensures baseline != Some(users) ==>
      |TickSends(users, baseline, clicks)| >= |users|
      && forall i :: 0 <= i < |users| ==>
        TickSends(users, baseline, clicks)[i] == Send(users[i].socket, PositionChange(VisibleTo(users, users[i].id)))
    ensures baseline == Some(users) ==>
      forall i :: 0 <= i < |TickSends(users, baseline, clicks)| ==> TickSends(users, baseline, clicks)[i].message.Click?
  {
    var p, c := PositionSends(users, baseline), ClickSends(users, clicks);
    assert TickSends(users, baseline, clicks) == p + c;
    if baseline == Some(users) {
      ClickSendsAreClicks(users, clicks);
      assert p + c == c;
    } else {
      PositionFanOutAt(users, users);
      forall i | 0 <= i < |users| ensures (p + c)[i] == p[i] { }
    }
  }

  /** A tick's position broadcast has one send per user, or none. */
  lemma PositionSendsLength(users: seq<User>, baseline: Option<seq<User>>)
    ensures |PositionSends(users, baseline)| == if baseline == Some(users) then 0 else |users|
  {
    PositionFanOutAt(users, users);
  }

  /** A tick's click forwarding: user i's message is i-th, or nothing is sent when the queue is empty. */
  lemma ClickSendsAt(users: seq<User>, clicks: seq<ClickData>)
    ensures |clicks| == 0 ==> ClickSends(users, clicks) == []
    ensures |clicks| > 0 ==>
      |ClickSends(users, clicks)| == |users|
      && forall i :: 0 <= i < |users| ==>
        ClickSends(users, clicks)[i] == Send(users[i].socket, Click(ClicksFor(clicks, users[i].id)))
  {
    ClickFanOutAt(users, clicks);
  }

  /** With clicks queued, user i's click message follows all position sends. */
  lemma QueuedClickPhase(users: seq<User>, baseline: Option<seq<User>>, clicks: seq<ClickData>)
    requires |clicks| > 0
    ensures var k := if baseline == Some(users) then 0 else |users|;
      |TickSends(users, baseline, clicks)| == k + |users|
      && forall i :: 0 <= i < |users| ==>
        TickSends(users, baseline, clicks)[k + i] == Send(users[i].socket, Click(ClicksFor(clicks, users[i].id)))
  {
    var p, c := PositionSends(users, baseline), ClickSends(users, clicks);
    var k := if baseline == Some(users) then 0 else |users|;
    PositionSendsLength(users, baseline);
    ClickSendsAt(users, clicks);
    assert TickSends(users, baseline, clicks) == p + c;
    forall i | 0 <= i < |users|
      ensures (p + c)[k + i] == Send(users[i].socket, Click(ClicksFor(clicks, users[i].id)))
    {
      assert (p + c)[k + i] == c[i];
    }
  }

  /** With no click queued, a tick sends only its position broadcast. */
  lemma EmptyClickPhase(users: seq<User>, baseline: Option<seq<User>>, clicks: seq<ClickData>)
    requires |clicks| == 0
    ensures |TickSends(users, baseline, clicks)| == if baseline == Some(users) then 0 else |users|
    ensures forall i :: 0 <= i < |TickSends(users, baseline, clicks)| ==> TickSends(users, baseline, clicks)[i].message.PositionChange?
  {
    var p := PositionSends(users, baseline);
    PositionSendsLength(users, baseline);
    PositionSendsArePositionChanges(users, baseline);
    assert TickSends(users, baseline, clicks) == p + [];
    assert p + [] == p;
  }

  /** The click phase of a tick: with clicks queued, user i is sent exactly the
      clicks not made by that user (possibly none), after all position sends;
      with an empty queue no click message is sent. */
  lemma TickClickPhase(users: seq<User>, baseline: Option<seq<User>>, clicks: seq<ClickData>)
    ensures var k := if baseline == Some(users) then 0 else |users|;
      |TickSends(users, baseline, clicks)| == k + (if |clicks| == 0 then 0 else |users|)
      && (|clicks| > 0 ==>
        forall i :: 0 <= i < |users| ==>
          TickSends(users, baseline, clicks)[k + i] == Send(users[i].socket, Click(ClicksFor(clicks, users[i].id))))
    ensures |clicks| == 0 ==>
      forall i :: 0 <= i < |TickSends(users, baseline, clicks)| ==> TickSends(users, baseline, clicks)[i].message.PositionChange?
  {
    if |clicks| > 0 {
      QueuedClickPhase(users, baseline, clicks);
    } else {
      EmptyClickPhase(users, baseline, clicks);
    }
  }

  /** No click message of a tick comes before one of its positionChange messages. */
  lemma TickPositionsBeforeClicks(users: seq<User>, baseline: Option<seq<User>>, clicks: seq<ClickData>)
    ensures var r := TickSends(users, baseline, clicks);
      forall i, j :: 0 <= i < j < |r| && r[i].message.Click? ==> r[j].message.Click?
  {
    var p, c := PositionSends(users, baseline), ClickSends(users, clicks);
    PositionSendsArePositionChanges(users, baseline);
    ClickSendsAreClicks(users, clicks);
    var r := p + c;
    assert TickSends(users, baseline, clicks) == r;
    forall i, j | 0 <= i < j < |r| && r[i].message.Click? ensures r[j].message.Click? {
      assert i >= |p|;
      assert r[j] == c[j - |p|];
    }
  }

  /** A tick right after another, with no message or close in between, finds
      the registry equal to its baseline and the queue empty: it sends nothing. */
  lemma IdleTickIsSilent(users: seq<User>)
    ensures TickSends(users, Some(users), []) == []
  {
  }

  /** The server: the user registry, the click queue, the baseline of the last
      position broadcast and everything sent so far. */
  class WebServer {
    var users: seq<User>
    var clicks: seq<ClickData>
    /** The registry as of the last position broadcast; None stands for the
        initial empty string, which no serialised registry equals. */
    var baseline: Option<seq<User>>
    var outbox: seq<Send>

    /** At most one record per id. */
    ghost predicate Valid()
      reads this
    {
      DistinctIds(users)
    }

    constructor ()
      ensures Valid()
      ensures users == [] && clicks == [] && baseline == None && outbox == []
    {
      users, clicks, baseline, outbox := [], [], None, [];
    }

    /** The onmessage handler of the connection `socket`. */
    method OnMessage(socket: ConnId, message: ClientMessage)
      requires Valid()
      modifies this
      ensures Valid()
      ensures message.PositionChangeFrame? ==>
        users == Upserted(old(users), message.user, socket) && clicks == old(clicks)
      ensures message.ClickFrame? ==> users == old(users) && clicks == old(clicks) + [message.click]
      ensures message.OtherFrame? ==> users == old(users) && clicks == old(clicks)
      ensures baseline == old(baseline) && outbox == old(outbox)
    {
      match message
      case PositionChangeFrame(data) =>
        UpsertKeepsIdsDistinct(users, data, socket);
        var existing := IndexOfId(users, data.id);
        if existing.Some? {
          var i := existing.value;
          users := users[i := users[i].(x := data.x, y := data.y)];
        } else {
          users := users + [User(data.id, data.name, data.color, data.x, data.y, socket)];
        }
      case ClickFrame(click) =>
        clicks := clicks + [click];
      case OtherFrame(_) =>
    }

    /** The onclose handler of the connection `socket`. */
    method OnClose(socket: ConnId)
      requires Valid()
      modifies this
      ensures Valid()
      ensures users == WithoutSocket(old(users), socket)
      ensures clicks == old(clicks) && baseline == old(baseline) && outbox == old(outbox)
    {
      CloseKeepsIdsDistinct(users, socket);
      users := WithoutSocket(users, socket);
    }

    /** One tick: broadcast positions if the registry changed since the last
        broadcast, then forward the queued clicks and empty the queue. */
    method Tick()
      requires Valid()
      modifies this
      ensures Valid()
      ensures users == old(users) && clicks == [] && baseline == Some(old(users))
      ensures outbox == old(outbox) + TickSends(old(users), old(baseline), old(clicks))
    {
      ghost var sent, positions, clickSends := outbox, PositionSends(users, baseline), ClickSends(users, clicks);
      BroadcastPositions();
      assert outbox == sent + positions;
      ForwardClicks();
      assert outbox == (sent + positions) + clickSends;
    }

    /** Two ticks with no message or close between them: the second finds the
        registry equal to the baseline and no click queued, and sends nothing. */
    method TickTwice()
      requires Valid()
      modifies this
      ensures Valid()
      ensures users == old(users) && clicks == [] && baseline == Some(old(users))
      ensures outbox == old(outbox) + TickSends(old(users), old(baseline), old(clicks))
    {
      Tick();
      ghost var afterFirst := outbox;
      IdleTickIsSilent(users);
      Tick();
      assert outbox == afterFirst + [];
    }

    /** The first half of a tick: when the registry differs from the baseline,
        it becomes the baseline and every user is sent the others' positions. */
    method BroadcastPositions()
      modifies this
      ensures users == old(users) && clicks == old(clicks) && baseline == Some(old(users))
      ensures outbox == old(outbox) + PositionSends(old(users), old(baseline))
    {
      var snapshot := users;
      if baseline != Some(snapshot) {
        baseline := Some(snapshot);
        var i := 0;
        while i < |snapshot|
          invariant 0 <= i <= |snapshot|
          invariant users == snapshot && clicks == old(clicks) && baseline == Some(snapshot)
          invariant outbox == old(outbox) + PositionFanOut(snapshot[..i], snapshot)
        {
          var user := snapshot[i];
          var send := Send(user.socket, PositionChange(VisibleTo(snapshot, user.id)));
          PositionFanOutStep(snapshot, i);
          outbox := outbox + [send];
          i := i + 1;
        }
        assert snapshot[..|snapshot|] == snapshot;
      }
    }

    /** The second half of a tick: when clicks are queued, every user is sent the
        clicks of the others, and the queue is emptied. */
    method ForwardClicks()
      modifies this
      ensures users == old(users) && clicks == [] && baseline == old(baseline)
      ensures outbox == old(outbox) + ClickSends(old(users), old(clicks))
    {
      if |clicks| > 0 {
        var snapshot, queued := users, clicks;
        var i := 0;
        while i < |snapshot|
          invariant 0 <= i <= |snapshot|
          invariant users == snapshot && clicks == queued && baseline == old(baseline)
          invariant outbox == old(outbox) + ClickFanOut(snapshot[..i], queued)
        {
          var user := snapshot[i];
          outbox := outbox + [Send(user.socket, Click(ClicksFor(queued, user.id)))];
          TakeOneMore(snapshot, i);
          ClickFanOutSnoc(snapshot[..i], user, queued);
          i := i + 1;
        }
        assert snapshot[..|snapshot|] == snapshot;
        clicks := [];
      }
    }
  }
}
