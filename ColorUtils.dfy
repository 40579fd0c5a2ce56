/** ColorUtils.hex2rgb of frontend/src/ts/utils/ColorUtils.ts: a colour given as
    a hex string or as a number becomes red, green and blue channels, returned
    either as CSS text or as an object with an alpha value. */
module ColorUtils {
  import opened Prelude
  import opened Int32

  /** The colour argument: a string or a number (an integer here). */
  datatype ColorArg = HexText(text: string) | Numeric(n: int)

  /** The returnType argument; every value other than "RGBObject" selects the string form. */
  datatype ReturnType = StringType | RGBObjectType

  /** The opacity argument: its numeric value and the text `${opacity}` renders it as. */
  datatype Opacity = Opacity(value: real, text: string)

  /** A channel value as parseInt or the bit operators produce it; None is NaN. */
  type Channel = Option<int>

  datatype Channels = Channels(r: Channel, g: Channel, b: Channel)

  /** The result: CSS text, or an IRGBObject. */
  datatype Color =
    | CssText(css: string)
    | RGBObject(r: Channel, g: Channel, b: Channel, a: Opacity)

  predicate IsHexDigit(c: char)
  {
    '0' <= c <= '9' || 'a' <= c <= 'f' || 'A' <= c <= 'F'
  }

  function HexDigitValue(c: char): (v: nat)
    requires IsHexDigit(c)
    ensures v < 16
  {
    if '0' <= c <= '9' then c as int - '0' as int
    else if 'a' <= c <= 'f' then c as int - 'a' as int + 10
    else c as int - 'A' as int + 10
  }

  predicate AllHexDigits(s: string)
  {
    forall i :: 0 <= i < |s| ==> IsHexDigit(s[i])
  }

  /** The base-16 value of a string of hex digits, most significant digit first. */
  function HexValue(s: string): nat
    requires AllHexDigits(s)
  {
    if |s| == 0 then 0 else 16 * HexValue(s[..|s| - 1]) + HexDigitValue(s[|s| - 1])
  }

  /** parseInt(s, 16) on a string of hex digits: NaN for the empty string. */
  function ParseHex(s: string): Channel
    requires AllHexDigits(s)
  {
    if |s| == 0 then None else Some(HexValue(s))
  }

  /** String.prototype.charAt: the character at i as a string, or "" past the end. */
  function CharAt(s: string, i: nat): (r: string)
    ensures |r| <= 1
    ensures forall j :: 0 <= j < |r| ==> r[j] in s
  {
    if i < |s| then [s[i]] else ""
  }

  /** String.prototype.substr(start, length), for a non-negative start and length. */
  function Substr(s: string, start: nat, length: nat): (r: string)
    ensures forall j :: 0 <= j < |r| ==> r[j] in s
  {
    if start >= |s| then ""
    else s[start..if start + length <= |s| then start + length else |s|]
  }

  /** A leading '#' is dropped. */
  function StripHash(color: string): string
  {
    if CharAt(color, 0) == "#" then Substr(color, 1, |color|) else color
  }

  /** The strings hex2rgb's string branch handles here: hex digits after an optional '#'. */
  predicate IsHexColor(color: string)
  {
    AllHexDigits(StripHash(color))
  }

  /** The three-character expansion as written: substr(1, 2) takes two
      characters, so c0 c1 c2 becomes c0 c0 c1 c2 c1 c2 c2 c2. */
  function Expand(color: string): (r: string)
    ensures forall j :: 0 <= j < |r| ==> r[j] in color
  {
    if |color| == 3 then
      Substr(color, 0, 1) + Substr(color, 0, 1) + Substr(color, 1, 2)
        + Substr(color, 1, 2) + Substr(color, 2, 3) + Substr(color, 2, 3)
    else color
  }

  /** The channels read from characters 0-1, 2-3 and 4-5. */
  function PairChannels(c: string): Channels
    requires AllHexDigits(c)
  {
    var r, g, b := CharAt(c, 0) + CharAt(c, 1), CharAt(c, 2) + CharAt(c, 3), CharAt(c, 4) + CharAt(c, 5);
    assert AllHexDigits(r) && AllHexDigits(g) && AllHexDigits(b) by {
      forall j | 0 <= j < |r| ensures IsHexDigit(r[j]) { assert r[j] in c; }
      forall j | 0 <= j < |g| ensures IsHexDigit(g[j]) { assert g[j] in c; }
      forall j | 0 <= j < |b| ensures IsHexDigit(b[j]) { assert b[j] in c; }
    }
    Channels(ParseHex(r), ParseHex(g), ParseHex(b))
  }

  /** The string branch of hex2rgb. */
  function HexChannels(color: string): Channels
    requires IsHexColor(color)
  {
    var c := Expand(StripHash(color));
    assert AllHexDigits(c) by {
      forall j | 0 <= j < |c| ensures IsHexDigit(c[j]) { assert c[j] in StripHash(color); }
    }
    PairChannels(c)
  }

  /** The numeric branch of hex2rgb: (n >> 16) & 255, (n >> 8) & 255 and n & 255. */
  function NumericChannels(n: int): Channels
  {
    Channels(Some(BitAnd(ShiftRight(n, 16), 255)), Some(BitAnd(ShiftRight(n, 8), 255)), Some(BitAnd(n, 255)))
  }

  function ChannelsOf(color: ColorArg): Channels
    requires color.HexText? ==> IsHexColor(color.text)
  {
    match color
    case HexText(text) => HexChannels(text)
    case Numeric(n) => NumericChannels(n)
  }

  predicate AllDecimalDigits(s: string)
  {
    forall j :: 0 <= j < |s| ==> '0' <= s[j] <= '9'
  }

  /** The character of decimal digit d. */
  function Digit(d: nat): (c: char)
    requires d < 10
    ensures '0' <= c <= '9' && c as int - '0' as int == d
  {
    '0' + (d as char)
  }

  /** The ten digit characters, in order. */
  lemma DigitChars()
    ensures Digit(0) == '0' && Digit(1) == '1' && Digit(2) == '2' && Digit(3) == '3' && Digit(4) == '4'
    ensures Digit(5) == '5' && Digit(6) == '6' && Digit(7) == '7' && Digit(8) == '8' && Digit(9) == '9'
  {
  }

  /** The decimal digits of n, as a template literal prints an integer. */
  function DecimalText(n: nat): (r: string)
    ensures |r| >= 1
    ensures AllDecimalDigits(r)
  {
    var last := [Digit(n % 10)];
    if n < 10 then last else DecimalText(n / 10) + last
  }

  /** The value of a decimal numeral, most significant digit first. */
  function DecimalValue(s: string): nat
    requires AllDecimalDigits(s)
  {
    if |s| == 0 then 0 else 10 * DecimalValue(s[..|s| - 1]) + (s[|s| - 1] as int - '0' as int)
  }

  /** How `${channel}` prints a channel. */
  function ChannelText(c: Channel): string
  {
    match c
    case None => "NaN"
    case Some(v) => if v < 0 then "-" + DecimalText(-v) else DecimalText(v)
  }

  /** The three channels as `${r}, ${g}, ${b}` prints them. */
  function ChannelList(ch: Channels): string
  {
    ChannelText(ch.r) + ", " + ChannelText(ch.g) + ", " + ChannelText(ch.b)
  }

  /** The string form: rgb(r, g, b) when the opacity is exactly 1, rgba(r, g, b, opacity) otherwise. */
  function CssColor(ch: Channels, opacity: Opacity): string
  {
    if opacity.value == 1.0 then "rgb(" + ChannelList(ch) + ")"
    else "rgba(" + ChannelList(ch) + ", " + opacity.text + ")"
  }

  /** hex2rgb(color, opacity = 1, returnType = "string"). */
  function Hex2Rgb(color: ColorArg, opacity: Opacity := Opacity(1.0, "1"), returnType: ReturnType := StringType): (r: Color)
    requires color.HexText? ==> IsHexColor(color.text)
    ensures r.RGBObject? <==> returnType == RGBObjectType
    ensures r.RGBObject? ==> r.a == opacity
  {
    var ch := ChannelsOf(color);
    if returnType == RGBObjectType then RGBObject(ch.r, ch.g, ch.b, opacity)
    else CssText(CssColor(ch, opacity))
  }

  // ---------------------------------------------------------------------------
  // Properties of the printed text
  // ---------------------------------------------------------------------------

  /** A printed integer reads back as itself, and has no leading zero. */
  lemma {:induction false} DecimalRoundTrip(n: nat)
    ensures DecimalValue(DecimalText(n)) == n
    ensures DecimalText(n)[0] == '0' ==> n == 0
  {
    var s := DecimalText(n);
    var d := Digit(n % 10);
    if n < 10 {
      assert s == [d] && s[..0] == [];
    } else {
      DecimalRoundTrip(n / 10);
      var p := DecimalText(n / 10);
      assert s == p + [d];
      assert s[..|s| - 1] == p && s[0] == p[0];
    }
  }

  /** A number below 1000, such as a channel byte, prints as its one, two or three digits. */
  lemma ShortDecimalText(n: nat)
    requires n < 1000
    ensures n < 10 ==> DecimalText(n) == [Digit(n)]
    ensures 10 <= n < 100 ==> DecimalText(n) == [Digit(n / 10), Digit(n % 10)]
    ensures 100 <= n ==> DecimalText(n) == [Digit(n / 100), Digit(n / 10 % 10), Digit(n % 10)]
  {
    if 100 <= n {
      var q := n / 10;
      DivModUnique(n, 100, q / 10, 10 * (q % 10) + n % 10);
      assert DecimalText(q) == DecimalText(q / 10) + [Digit(q % 10)];
      assert DecimalText(q / 10) == [Digit(n / 100)];
    }
  }

  /** The string form is "rgb(" r, g, b ")" when the opacity is exactly 1, and
      "rgba(" r, g, b ", " opacity ")" otherwise, where r, g, b is ChannelList. */
  lemma CssColorForms(ch: Channels, opacity: Opacity)
    ensures var css, rgb := CssColor(ch, opacity), ChannelList(ch);
      opacity.value == 1.0 ==>
        |css| == |rgb| + 5 && css[..4] == "rgb(" && css[4..|css| - 1] == rgb && css[|css| - 1] == ')'
    ensures var css, rgb := CssColor(ch, opacity), ChannelList(ch);
      opacity.value != 1.0 ==>
        |css| == |rgb| + |opacity.text| + 8 && css[..5] == "rgba(" && css[5..5 + |rgb|] == rgb
        && css[5 + |rgb|..] == ", " + opacity.text + ")"
  {
    var rgb := ChannelList(ch);
    var tail := ", " + opacity.text + ")";
    if opacity.value == 1.0 {
      assert CssColor(ch, opacity) == "rgb(" + rgb + ")";
    } else {
      assert CssColor(ch, opacity) == "rgba(" + rgb + tail;
    }
  }

  /** A channel in 0..255 prints as its decimal numeral, which reads back as the channel. */
  lemma ChannelTextReadsBack(v: int)
    requires 0 <= v
    ensures AllDecimalDigits(ChannelText(Some(v))) && DecimalValue(ChannelText(Some(v))) == v
  {
    DecimalRoundTrip(v);
  }

  // ---------------------------------------------------------------------------
  // Properties of the string branch
  // ---------------------------------------------------------------------------

  /** Two hex digits are a byte. */
  lemma TwoDigits(s: string)
    requires |s| == 2 && AllHexDigits(s)
    ensures ParseHex(s) == Some(16 * HexDigitValue(s[0]) + HexDigitValue(s[1]))
    ensures 0 <= 16 * HexDigitValue(s[0]) + HexDigitValue(s[1]) < 256
  {
    var first := s[..1];
    assert first[..0] == [] && first[0] == s[0];
    assert HexValue(first) == HexDigitValue(s[0]);
    assert s[..|s| - 1] == first;
  }

  /** A leading '#' makes no difference: "#" + t and t give the same channels. */
  lemma HashIsOptional(t: string)
    requires AllHexDigits(t)
    ensures IsHexColor("#" + t) && IsHexColor(t)
    ensures HexChannels("#" + t) == HexChannels(t)
  {
    assert ("#" + t)[1..] == t;
    assert StripHash("#" + t) == t;
    if |t| > 0 {
      assert IsHexDigit(t[0]);
    }
  }

  /** The pairwise parse of at least six hex digits reads characters 0-1, 2-3 and 4-5 as bytes. */
  lemma PairValues(c: string)
    requires |c| >= 6 && AllHexDigits(c)
    ensures PairChannels(c) == Channels(
      Some(16 * HexDigitValue(c[0]) + HexDigitValue(c[1])),
      Some(16 * HexDigitValue(c[2]) + HexDigitValue(c[3])),
      Some(16 * HexDigitValue(c[4]) + HexDigitValue(c[5])))
  {
    assert CharAt(c, 0) + CharAt(c, 1) == [c[0], c[1]];
    assert CharAt(c, 2) + CharAt(c, 3) == [c[2], c[3]];
    assert CharAt(c, 4) + CharAt(c, 5) == [c[4], c[5]];
    TwoDigits([c[0], c[1]]);
    TwoDigits([c[2], c[3]]);
    TwoDigits([c[4], c[5]]);
  }

  /** A string of hex digits has no '#' to strip. */
  lemma NoHash(t: string)
    requires AllHexDigits(t)
    ensures StripHash(t) == t && IsHexColor(t)
  {
    if |t| > 0 {
      assert IsHexDigit(t[0]);
    }
  }

  /** Six hex digits: r, g and b are the bytes written by characters 0-1, 2-3 and 4-5. */
  lemma SixDigits(t: string)
    requires |t| == 6 && AllHexDigits(t)
    ensures IsHexColor(t)
    ensures HexChannels(t) == Channels(
      Some(16 * HexDigitValue(t[0]) + HexDigitValue(t[1])),
      Some(16 * HexDigitValue(t[2]) + HexDigitValue(t[3])),
      Some(16 * HexDigitValue(t[4]) + HexDigitValue(t[5])))
  {
    NoHash(t);
    assert HexChannels(t) == PairChannels(t);
    PairValues(t);
  }

  /** The expansion of c0 c1 c2 as written: c0 c0 c1 c2 c1 c2 c2 c2. */
  lemma ExpandThree(t: string)
    requires |t| == 3
    ensures Expand(t) == [t[0], t[0], t[1], t[2], t[1], t[2], t[2], t[2]]
  {
    assert Substr(t, 0, 1) == [t[0]];
    assert Substr(t, 1, 2) == [t[1], t[2]];
    assert Substr(t, 2, 3) == [t[2]];
  }

  /** The string branch parses the expansion of its argument pairwise. */
  lemma ExpandedPairs(t: string)
    requires AllHexDigits(t)
    ensures IsHexColor(t) && AllHexDigits(Expand(t))
    ensures HexChannels(t) == PairChannels(Expand(t))
  {
    NoHash(t);
    var c := Expand(t);
    forall j | 0 <= j < |c| ensures IsHexDigit(c[j]) {
      assert c[j] in t;
    }
  }

  /** The pairwise parse of the expansion of c0 c1 c2 reads c0c0, c1c2 and c1c2. */
  lemma ExpandedValues(t: string)
    requires |t| == 3 && AllHexDigits(Expand(t))
    ensures PairChannels(Expand(t)) == Channels(
      Some(17 * HexDigitValue(t[0])),
      Some(16 * HexDigitValue(t[1]) + HexDigitValue(t[2])),
      Some(16 * HexDigitValue(t[1]) + HexDigitValue(t[2])))
  {
    ExpandThree(t);
    var c := Expand(t);
    assert c[0] == c[1] == t[0] && c[2] == c[4] == t[1] && c[3] == c[5] == t[2];
    PairValues(c);
  }

  /** Three hex digits c0 c1 c2 give r = c0c0 and g = b = c1c2 (not CSS shorthand). */
  lemma ThreeDigits(t: string)
    requires |t| == 3 && AllHexDigits(t)
    ensures IsHexColor(t)
    ensures HexChannels(t) == Channels(
      Some(17 * HexDigitValue(t[0])),
      Some(16 * HexDigitValue(t[1]) + HexDigitValue(t[2])),
      Some(16 * HexDigitValue(t[1]) + HexDigitValue(t[2])))
  {
    ExpandedPairs(t);
    ExpandedValues(t);
  }

  // ---------------------------------------------------------------------------
  // Properties of the numeric branch
  // ---------------------------------------------------------------------------

  /** Adding a multiple of m changes neither the remainder nor more than the quotient. */
  lemma ModAddMultiple(a: int, m: int, c: int)
    requires m > 0
    ensures (a + c * m) % m == a % m && (a + c * m) / m == a / m + c
  {
    DivModUnique(a + c * m, m, a / m + c, a % m);
  }

  /** x & 255 is x modulo 256. */
  lemma LowByte(x: int)
    ensures BitAnd(x, 255) == x % 256
  {
    Pow2Values();
    var bits := Bits32(x);
    AndLowMask(bits, 8, 32);
    assert Bits32(255) == 255;
    ModAddMultiple(x, 256, -(x / TwoTo32) * 0x100_0000);
    assert bits == x + (-(x / TwoTo32) * 0x100_0000) * 256;
    DivModUnique(bits % 256, TwoTo32, 0, bits % 256);
  }

  /** (x >> s) & 255 is byte s/8 of x, for the shifts hex2rgb uses. */
  lemma ShiftedByte(x: int, s: nat)
    requires s == 8 || s == 16
    ensures BitAnd(ShiftRight(x, s), 255) == (x / Pow2(s)) % 256
  {
    Pow2Values();
    var d := Pow2(s);
    var t := ToInt32(x);
    var c := if Bits32(x) < TwoTo31 then -(x / TwoTo32) else -(x / TwoTo32) - 1;
    assert t == x + c * TwoTo32;
    var per := TwoTo32 / d;
    assert TwoTo32 == per * d;
    ModAddMultiple(x, d, c * per);
    assert t / d == x / d + c * per;
    ModAddMultiple(x / d, 256, c * (per / 256));
    LowByte(t / d);
  }

  /** For a numeric colour, the channels are bytes 2, 1 and 0 of the number. */
  lemma NumericBytes(n: int)
    ensures NumericChannels(n) == Channels(Some((n / 65536) % 256), Some((n / 256) % 256), Some(n % 256))
  {
    Pow2Values();
    ShiftedByte(n, 16);
    ShiftedByte(n, 8);
    LowByte(n);
  }

  /** Every channel of a numeric colour is in 0..255, and a number below 2^24
      is recovered as r * 65536 + g * 256 + b. */
  lemma NumericRoundTrip(n: int)
    ensures var ch := NumericChannels(n);
      ch.r.Some? && ch.g.Some? && ch.b.Some?
      && 0 <= ch.r.value < 256 && 0 <= ch.g.value < 256 && 0 <= ch.b.value < 256
    ensures 0 <= n < 0x100_0000 ==>
      var ch := NumericChannels(n);
      ch.r.value * 65536 + ch.g.value * 256 + ch.b.value == n
  {
    NumericBytes(n);
    if 0 <= n < 0x100_0000 {
      var q1, b := n / 256, n % 256;
      var q2, g := q1 / 256, q1 % 256;
      assert n == 256 * q1 + b;
      assert q1 == 256 * q2 + g;
      assert n == 65536 * q2 + (256 * g + b);
      DivModUnique(n, 65536, q2, 256 * g + b);
      DivModUnique(q2, 256, 0, q2);
    }
  }

  // ---------------------------------------------------------------------------
  // Properties of hex2rgb as a whole
  // ---------------------------------------------------------------------------

  /** The two return forms agree: the text is the CSS rendering of the
      object form's channels and alpha. */
  lemma Hex2RgbFormsAgree(color: ColorArg, opacity: Opacity)
    requires color.HexText? ==> IsHexColor(color.text)
    ensures var obj := Hex2Rgb(color, opacity, RGBObjectType);
      obj.RGBObject? && obj.a == opacity
      && Hex2Rgb(color, opacity, StringType) == CssText(CssColor(Channels(obj.r, obj.g, obj.b), obj.a))
  {
  }

  /** A leading '#' makes no difference to the result, in either form. */
  lemma Hex2RgbHashIsOptional(t: string, opacity: Opacity, returnType: ReturnType)
    requires AllHexDigits(t)
    ensures IsHexColor("#" + t) && IsHexColor(t)
    ensures Hex2Rgb(HexText("#" + t), opacity, returnType) == Hex2Rgb(HexText(t), opacity, returnType)
  {
    HashIsOptional(t);
  }

  /** Six hex digits give the object of the three bytes they write, with the opacity as alpha. */
  lemma Hex2RgbSixDigits(t: string, opacity: Opacity)
    requires |t| == 6 && AllHexDigits(t)
    ensures IsHexColor(t)
    ensures Hex2Rgb(HexText(t), opacity, RGBObjectType) == RGBObject(
      Some(16 * HexDigitValue(t[0]) + HexDigitValue(t[1])),
      Some(16 * HexDigitValue(t[2]) + HexDigitValue(t[3])),
      Some(16 * HexDigitValue(t[4]) + HexDigitValue(t[5])),
      opacity)
  {
    SixDigits(t);
  }

  /** A number gives the object of its bytes 2, 1 and 0, with the opacity as alpha. */
  lemma Hex2RgbNumeric(n: int, opacity: Opacity)
    ensures Hex2Rgb(Numeric(n), opacity, RGBObjectType)
         == RGBObject(Some((n / 65536) % 256), Some((n / 256) % 256), Some(n % 256), opacity)
  {
    NumericBytes(n);
  }

  /** "#abc" as written gives the object (170, 188, 188). */
  lemma Hex2RgbShortObject()
    ensures IsHexColor("#abc")
    ensures Hex2Rgb(HexText("#abc"), Opacity(1.0, "1"), RGBObjectType)
         == RGBObject(Some(170), Some(188), Some(188), Opacity(1.0, "1"))
  {
    assert "#abc" == "#" + "abc";
    assert AllHexDigits("abc") by {
      assert "abc" == ['a', 'b', 'c'];
    }
    Hex2RgbHashIsOptional("abc", Opacity(1.0, "1"), RGBObjectType);
    ShortAbc();
  }

  /** 51 prints as "51". */
  lemma PrintsAs51()
    ensures ChannelText(Some(51)) == "51"
  {
    DigitChars();
    ShortDecimalText(51);
  }

  /** 102 prints as "102". */
  lemma PrintsAs102()
    ensures ChannelText(Some(102)) == "102"
  {
    DigitChars();
    ShortDecimalText(102);
  }

  /** 153 prints as "153". */
  lemma PrintsAs153()
    ensures ChannelText(Some(153)) == "153"
  {
    DigitChars();
    ShortDecimalText(153);
  }

  /** 170 prints as "170". */
  lemma PrintsAs170()
    ensures ChannelText(Some(170)) == "170"
  {
    DigitChars();
    ShortDecimalText(170);
  }

  /** 188 prints as "188". */
  lemma PrintsAs188()
    ensures ChannelText(Some(188)) == "188"
  {
    DigitChars();
    ShortDecimalText(188);
  }

  /** The channels of "abc" print as "170, 188, 188". */
  lemma ShortAbcList()
    ensures ChannelList(Channels(Some(170), Some(188), Some(188))) == "170, 188, 188"
  {
    PrintsAs170();
    PrintsAs188();
    assert ChannelList(Channels(Some(170), Some(188), Some(188))) == "170" + ", " + "188" + ", " + "188";
  }

  /** The channels of "abc" at full opacity print as "rgb(170, 188, 188)". */
  lemma ShortAbcCss()
    ensures CssColor(Channels(Some(170), Some(188), Some(188)), Opacity(1.0, "1")) == "rgb(170, 188, 188)"
  {
    ShortAbcList();
    assert "rgb(" + "170, 188, 188" + ")" == "rgb(170, 188, 188)";
  }

  /** "abc" with the default arguments gives the text "rgb(170, 188, 188)". */
  lemma Hex2RgbShortText()
    ensures IsHexColor("abc")
    ensures Hex2Rgb(HexText("abc")) == CssText("rgb(170, 188, 188)")
  {
    ShortAbc();
    ShortAbcCss();
  }

  /** The bytes of 0x336699 print as "51, 102, 153". */
  lemma NumericExampleList()
    ensures ChannelList(Channels(Some(51), Some(102), Some(153))) == "51, 102, 153"
  {
    PrintsAs51();
    PrintsAs102();
    PrintsAs153();
    assert ChannelList(Channels(Some(51), Some(102), Some(153))) == "51" + ", " + "102" + ", " + "153";
  }

  /** The bytes of 0x336699 at opacity 0.5 print as "rgba(51, 102, 153, 0.5)". */
  lemma NumericExampleCss()
    ensures CssColor(Channels(Some(51), Some(102), Some(153)), Opacity(0.5, "0.5")) == "rgba(51, 102, 153, 0.5)"
  {
    NumericExampleList();
    assert "rgba(" + "51, 102, 153" + ", " + "0.5" + ")" == "rgba(51, 102, 153, 0.5)";
  }

  /** 0x336699 with opacity 0.5 gives the text "rgba(51, 102, 153, 0.5)". */
  lemma Hex2RgbNumericText()
    ensures Hex2Rgb(Numeric(0x336699), Opacity(0.5, "0.5")) == CssText("rgba(51, 102, 153, 0.5)")
  {
    var n := 0x336699;
    assert (n / 65536) % 256 == 51 && (n / 256) % 256 == 102 && n % 256 == 153;
    Hex2RgbNumeric(n, Opacity(0.5, "0.5"));
    Hex2RgbFormsAgree(Numeric(n), Opacity(0.5, "0.5"));
    NumericExampleCss();
  }

  // ---------------------------------------------------------------------------
  // The three-character expansion, corrected
  // ---------------------------------------------------------------------------

  /** "abc" as written reads as aa, bc, bc. */
  lemma ShortAbc()
    ensures IsHexColor("abc")
    ensures HexChannels("abc") == Channels(Some(170), Some(188), Some(188))
  {
    var t := "abc";
    assert t == ['a', 'b', 'c'];
    assert HexDigitValue('a') == 10 && HexDigitValue('b') == 11 && HexDigitValue('c') == 12;
    ThreeDigits(t);
  }

  /** "aabbcc" reads as aa, bb, cc. */
  lemma LongAabbcc()
    ensures IsHexColor("aabbcc")
    ensures HexChannels("aabbcc") == Channels(Some(170), Some(187), Some(204))
  {
    var t := "aabbcc";
    assert t == ['a', 'a', 'b', 'b', 'c', 'c'];
    assert HexDigitValue('a') == 10 && HexDigitValue('b') == 11 && HexDigitValue('c') == 12;
    SixDigits(t);
  }

  /** The shorthand "abc" as written does not give the colour "aabbcc". */
  lemma ShorthandQuirk()
    ensures IsHexColor("abc") && IsHexColor("aabbcc")
    ensures HexChannels("abc") != HexChannels("aabbcc")
    ensures HexChannels("abc").g == Some(188) && HexChannels("aabbcc").g == Some(187)
  {
    ShortAbc();
    LongAabbcc();
  }

  /** The CSS expansion of a three-character string: each character doubled. */
  function CssExpand(color: string): (r: string)
    ensures forall j :: 0 <= j < |r| ==> r[j] in color
  {
    if |color| == 3 then [color[0], color[0], color[1], color[1], color[2], color[2]] else color
  }

  /** The string branch with the CSS expansion. */
  function CssHexChannels(color: string): Channels
    requires IsHexColor(color)
  {
    var c := CssExpand(StripHash(color));
    assert AllHexDigits(c) by {
      forall j | 0 <= j < |c| ensures IsHexDigit(c[j]) { assert c[j] in StripHash(color); }
    }
    PairChannels(c)
  }

  /** With the CSS expansion, c0 c1 c2 reads as c0 c0 c1 c1 c2 c2, and every
      six-digit colour reads as before. */
  lemma CorrectedShorthand(t: string)
    requires (|t| == 3 || |t| == 6) && AllHexDigits(t)
    ensures IsHexColor(t)
    ensures |t| == 3 ==> CssHexChannels(t) == Channels(
      Some(17 * HexDigitValue(t[0])), Some(17 * HexDigitValue(t[1])), Some(17 * HexDigitValue(t[2])))
    ensures |t| == 6 ==> CssHexChannels(t) == HexChannels(t)
  {
    NoHash(t);
    if |t| == 3 {
      var c := [t[0], t[0], t[1], t[1], t[2], t[2]];
      assert CssHexChannels(t) == PairChannels(c);
      PairValues(c);
    } else {
      assert CssHexChannels(t) == PairChannels(t) == HexChannels(t);
    }
  }
}
