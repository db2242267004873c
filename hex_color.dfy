/** The colour decoder of the particle field (`hexToRgb`): a CSS-style hex
    colour such as "#ffffff" or "#abc" becomes a red/green/blue triple.
    The decoder removes the first '#', doubles every character of a
    three-character string, reads the result with `parseInt(_, 16)` and
    cuts the number into bytes with 32-bit shifts and `& 255`. */
module HexColor {
  import opened JsString

  /** A JavaScript number as `parseInt` can produce it here: an integer or NaN. */
  datatype Number = NaN | Int(value: int)

  /** `s.replace("#", "")`: removes the first '#', wherever it is. */
  function StripHash(s: string): (r: string)
    ensures '#' !in s ==> r == s
    ensures '#' in s ==> |r| == |s| - 1
  {
    if s == [] then []
    else if s[0] == '#' then s[1..]
    else [s[0]] + StripHash(s[1..])
  }

  /** The '#' removed is the first one: what precedes it and what follows
      it are kept in order. */
  lemma {:induction false} StripHashAt(s: string, k: nat)
    requires k < |s| && s[k] == '#' && '#' !in s[..k]
    ensures StripHash(s) == s[..k] + s[k + 1..]
  {
    if k > 0 {
      assert s[0] in s[..k];
      assert s[1..][..k - 1] == s[1..k];
      StripHashAt(s[1..], k - 1);
      assert s[..k] == [s[0]] + s[1..k];
    }
  }

  /** `s.split("").map(c => c + c).join("")`: every character twice. */
  function Doubled(s: string): (r: string)
    ensures |r| == 2 * |s|
    ensures forall i :: 0 <= i < |s| ==> r[2 * i] == s[i] && r[2 * i + 1] == s[i]
  {
    if s == [] then []
    else
      var rest := Doubled(s[1..]);
      assert forall i :: 1 <= i < |s| ==> rest[2 * (i - 1)] == s[i] && rest[2 * (i - 1) + 1] == s[i];
      [s[0], s[0]] + rest
  }

  predicate IsHexDigit(c: char) {
    '0' <= c <= '9' || 'a' <= c <= 'f' || 'A' <= c <= 'F'
  }

  predicate AllHexDigits(s: string) {
    forall i :: 0 <= i < |s| ==> IsHexDigit(s[i])
  }

  /** The value of one hex digit, in either case. */
  function DigitValue(c: char): (v: nat)
    requires IsHexDigit(c)
    ensures v < 16
  {
    if '0' <= c <= '9' then c as int - '0' as int
    else if 'a' <= c <= 'f' then c as int - 'a' as int + 10
    else c as int - 'A' as int + 10
  }

  /** The longest prefix of `s` made of hex digits: what `parseInt` reads. */
  function HexPrefix(s: string): (r: string)
    ensures |r| <= |s| && r == s[..|r|]
    ensures AllHexDigits(r)
    ensures |r| < |s| ==> !IsHexDigit(s[|r|])
  {
    if s != [] && IsHexDigit(s[0]) then [s[0]] + HexPrefix(s[1..]) else []
  }

  /** The value of a string of hex digits, most significant digit first. */
  function HexValue(d: string): (v: nat)
    requires AllHexDigits(d)
  {
    if d == [] then 0 else HexValue(d[..|d| - 1]) * 16 + DigitValue(d[|d| - 1])
  }

  /** `parseInt(s, 16)`: skips leading white space, takes one sign, drops a
      "0x"/"0X" prefix, reads the longest run of hex digits, and is NaN when
      that run is empty. */
  function ParseIntHex(s: string): (n: Number)
  {
    var t := TrimStart(s);
    var digits := HexPrefix(DropRadixPrefix(DropSign(t)));
    if digits == [] then NaN
    else if IsNegative(t) then Int(-(HexValue(digits) as int))
    else Int(HexValue(digits))
  }

  predicate IsNegative(t: string) {
    |t| > 0 && t[0] == '-'
  }

  /** Removes one leading '+' or '-'. */
  function DropSign(t: string): (u: string) {
    if |t| > 0 && (t[0] == '-' || t[0] == '+') then t[1..] else t
  }

  /** Removes a leading "0x" or "0X", as `parseInt` does with radix 16. */
  function DropRadixPrefix(u: string): (d: string) {
    if |u| >= 2 && u[0] == '0' && (u[1] == 'x' || u[1] == 'X') then u[2..] else u
  }

  /** ECMAScript ToInt32, applied by the bitwise operators: NaN becomes 0,
      an integer is reduced modulo 2^32 into the signed 32-bit range. */
  function ToInt32(n: Number): (r: int)
    ensures -0x8000_0000 <= r < 0x8000_0000
    ensures n.NaN? ==> r == 0
    ensures n.Int? ==> (n.value - r) % 0x1_0000_0000 == 0
  {
    match n
    case NaN => 0
    case Int(v) =>
      var w := v % 0x1_0000_0000;
      if w >= 0x8000_0000 then w - 0x1_0000_0000 else w
  }

  /** `x & 255` on a signed 32-bit value: its low eight bits. */
  function LowByte(x: int): (b: int)
    ensures 0 <= b < 256
  {
    x % 256
  }

  /** `hexToRgb`: strip the first '#', expand three characters to six,
      parse as base 16, and take bits 16..23, 8..15 and 0..7. */
  function HexToRgb(hex: string): (rgb: seq<int>)
    ensures |rgb| == 3
    ensures forall i :: 0 <= i < 3 ==> 0 <= rgb[i] <= 255
  {
    var s := StripHash(hex);
    var t := if |s| == 3 then Doubled(s) else s;
    Channels(ParseIntHex(t))
  }

  /** `[(hexInt >> 16) & 255, (hexInt >> 8) & 255, hexInt & 255]`. The
      operands are first reduced by ToInt32; `>>` is then an arithmetic
      shift, which is division by 2^16 or 2^8 rounded towards minus
      infinity, as Dafny's `/` by a positive divisor is. */
  function Channels(hexInt: Number): (rgb: seq<int>)
    ensures |rgb| == 3
    ensures forall i :: 0 <= i < 3 ==> 0 <= rgb[i] <= 255
  {
    var bits := ToInt32(hexInt);
    [LowByte(bits / 0x1_0000), LowByte(bits / 0x100), LowByte(bits)]
  }

  /** The 32-bit reduction does not disturb the three low bytes: the
      channels are bytes 2, 1 and 0 of the parsed integer itself, whatever
      its size or sign; NaN gives black. */
  lemma ChannelsOfNumber(hexInt: Number)
    ensures hexInt.NaN? ==> Channels(hexInt) == [0, 0, 0]
    ensures hexInt.Int? ==> Channels(hexInt) == [(hexInt.value / 0x1_0000) % 256, (hexInt.value / 0x100) % 256, hexInt.value % 256]
  {
    if hexInt.Int? {
      var v := hexInt.value;
      var r := ToInt32(hexInt);
      var m := (v - r) / 0x1_0000_0000;
      assert r == v + 0x1_0000_0000 * -m;
      DivAddMultiple(v, 0x1_0000, -0x1_0000 * m);
      DivAddMultiple(v / 0x1_0000, 0x100, -0x100 * m);
      DivAddMultiple(v, 0x100, -0x100_0000 * m);
      DivAddMultiple(v / 0x100, 0x100, -0x1_0000 * m);
      DivAddMultiple(v, 0x100, -0x100_0000 * m);
    }
  }

  lemma DivUnique(x: int, d: int, q: int, r: int)
    requires d > 0 && 0 <= r < d && x == d * q + r
    ensures x / d == q && x % d == r
  {
    var q', r' := x / d, x % d;
    assert d * (q - q') == r' - r;
    if q > q' {
      MulAtLeast(d, q - q');
      assert false;
    } else if q < q' {
      MulAtLeast(d, q' - q);
      assert false;
    }
  }

  lemma MulAtLeast(d: int, k: int)
    requires d > 0 && k >= 1
    ensures d * k >= d
  {
  }

  lemma DivAddMultiple(x: int, d: int, k: int)
    requires d > 0
    ensures (x + d * k) / d == x / d + k && (x + d * k) % d == x % d
  {
    assert x + d * k == d * (x / d + k) + x % d;
    DivUnique(x + d * k, d, x / d + k, x % d);
  }

  /** `parseInt` reads a non-empty run of hex digits as its plain value. */
  lemma ParseHexDigits(s: string)
    requires |s| > 0 && AllHexDigits(s)
    ensures ParseIntHex(s) == Int(HexValue(s))
  {
    assert IsHexDigit(s[0]) && !IsWhitespace(s[0]);
    assert TrimStart(s) == s;
    assert DropSign(s) == s;
    assert |s| >= 2 ==> IsHexDigit(s[1]);
    assert DropRadixPrefix(s) == s;
    HexPrefixOfDigits(s);
  }

  lemma {:induction false} HexPrefixOfDigits(s: string)
    requires AllHexDigits(s)
    ensures HexPrefix(s) == s
  {
    if s != [] {
      assert IsHexDigit(s[0]);
      HexPrefixOfDigits(s[1..]);
    }
  }

  /** Appending two digits shifts the value left by one byte. */
  lemma HexValueAppendByte(a: string, b: string)
    requires AllHexDigits(a) && AllHexDigits(b) && |b| == 2
    ensures AllHexDigits(a + b)
    ensures HexValue(a + b) == HexValue(a) * 256 + HexValue(b)
  {
    var ab := a + b;
    var a0 := a + [b[0]];
    assert ab[..|ab| - 1] == a0 && ab[|ab| - 1] == b[1];
    assert a0[..|a0| - 1] == a && a0[|a0| - 1] == b[0];
    assert HexValue(a0) == HexValue(a) * 16 + DigitValue(b[0]);
    assert HexValue(ab) == HexValue(a0) * 16 + DigitValue(b[1]);
    assert b[..1] == [b[0]] && [b[0]][..0] == [];
    assert HexValue([b[0]]) == DigitValue(b[0]);
    assert HexValue(b) == DigitValue(b[0]) * 16 + DigitValue(b[1]);
  }

  /** Three characters after the '#' decode exactly like each of them
      written twice: "#abc" is "#aabbcc". */
  lemma ShorthandIsDoubled(s: string)
    requires |s| == 3
    ensures HexToRgb("#" + s) == HexToRgb("#" + Doubled(s))
  {
    assert ("#" + s)[1..] == s && ("#" + Doubled(s))[1..] == Doubled(s);
  }

  /** So for three hex digits each channel is 17 times its digit. */
  lemma ShorthandChannels(s: string)
    requires |s| == 3 && AllHexDigits(s)
    ensures HexToRgb("#" + s) == [17 * DigitValue(s[0]), 17 * DigitValue(s[1]), 17 * DigitValue(s[2])]
  {
    var d := Doubled(s);
    assert d[..2] == [s[0], s[0]] && d[2..4] == [s[1], s[1]] && d[4..] == [s[2], s[2]];
    assert AllHexDigits(d);
    var red, green, blue := 17 * DigitValue(s[0]), 17 * DigitValue(s[1]), 17 * DigitValue(s[2]);
    assert HexValue(d[..2]) == red && HexValue(d[2..4]) == green && HexValue(d[4..]) == blue by {
      ByteValue(d[..2]);
      ByteValue(d[2..4]);
      ByteValue(d[4..]);
    }
    SixDigitChannels(d);
    ShorthandIsDoubled(s);
  }

  /** For six hex digits, with or without the '#', red, green and blue are
      the values of digit pairs 1-2, 3-4 and 5-6. */
  lemma SixDigitChannels(s: string)
    requires |s| == 6 && AllHexDigits(s)
    ensures HexToRgb("#" + s) == [HexValue(s[..2]), HexValue(s[2..4]), HexValue(s[4..])]
    ensures HexToRgb(s) == HexToRgb("#" + s)
  {
    var red, green, blue := HexValue(s[..2]), HexValue(s[2..4]), HexValue(s[4..]);
    assert Channels(Int(HexValue(s))) == [red, green, blue] by {
      SixDigitValue(s);
      var n := Int(HexValue(s));
      assert n == Int(red * 0x1_0000 + green * 0x100 + blue);
      ChannelsOfBytes(red, green, blue);
    }
    DecodeDigits(s);
  }

  /** A run of hex digits that is not three long, with or without a
      leading '#', is parsed whole. */
  lemma DecodeDigits(s: string)
    requires |s| > 0 && |s| != 3 && AllHexDigits(s)
    ensures HexToRgb(s) == Channels(Int(HexValue(s)))
    ensures HexToRgb("#" + s) == Channels(Int(HexValue(s)))
  {
    assert StripHash("#" + s) == s by {
      assert ("#" + s)[1..] == s;
    }
    assert StripHash(s) == s by {
      forall i | 0 <= i < |s| ensures s[i] != '#' { assert IsHexDigit(s[i]); }
    }
    ParseHexDigits(s);
  }

  /** Six digits are three bytes, most significant first. */
  lemma SixDigitValue(s: string)
    requires |s| == 6 && AllHexDigits(s)
    ensures HexValue(s) == HexValue(s[..2]) * 0x1_0000 + HexValue(s[2..4]) * 0x100 + HexValue(s[4..])
    ensures HexValue(s[..2]) < 256 && HexValue(s[2..4]) < 256 && HexValue(s[4..]) < 256
  {
    HexValueAppendByte(s[..2], s[2..4]);
    assert s[..2] + s[2..4] == s[..4];
    HexValueAppendByte(s[..4], s[4..]);
    assert s[..4] + s[4..] == s;
    ByteValue(s[..2]);
    ByteValue(s[2..4]);
    ByteValue(s[4..]);
  }

  lemma ByteValue(d: string)
    requires |d| == 2 && AllHexDigits(d)
    ensures HexValue(d) == DigitValue(d[0]) * 16 + DigitValue(d[1]) < 256
  {
    assert d[..1] == [d[0]] && [d[0]][..0] == [];
    assert HexValue([d[0]]) == DigitValue(d[0]);
  }

  /** Three bytes packed into one integer come back out as the channels. */
  lemma ChannelsOfBytes(red: int, green: int, blue: int)
    requires 0 <= red < 256 && 0 <= green < 256 && 0 <= blue < 256
    ensures Channels(Int(red * 0x1_0000 + green * 0x100 + blue)) == [red, green, blue]
  {
    var v := red * 0x1_0000 + green * 0x100 + blue;
    ChannelsOfNumber(Int(v));
    DivUnique(v, 0x1_0000, red, green * 0x100 + blue);
    DivUnique(v, 0x100, red * 0x100 + green, blue);
    DivUnique(red * 0x100 + green, 0x100, red, green);
    DivUnique(red, 0x100, 0, red);
  }

  /** The hex digit, lower case, for a value below 16. */
  function DigitChar(v: nat): (c: char)
    requires v < 16
    ensures IsHexDigit(c) && DigitValue(c) == v
    ensures !('A' <= c <= 'Z')
  {
    if v < 10 then ('0' as int + v) as char else ('a' as int + v - 10) as char
  }

  /** Two lower-case hex digits for a byte. */
  function ByteToHex(x: int): (d: string)
    requires 0 <= x < 256
    ensures |d| == 2 && AllHexDigits(d)
  {
    [DigitChar(x / 16), DigitChar(x % 16)]
  }

  /** The encoder that `hexToRgb` inverts: "#" and six lower-case digits. */
  function RgbToHex(red: int, green: int, blue: int): (hex: string)
    requires 0 <= red < 256 && 0 <= green < 256 && 0 <= blue < 256
    ensures |hex| == 7 && hex[0] == '#' && AllHexDigits(hex[1..])
  {
    "#" + ByteToHex(red) + ByteToHex(green) + ByteToHex(blue)
  }

  lemma ByteToHexValue(x: int)
    requires 0 <= x < 256
    ensures HexValue(ByteToHex(x)) == x
  {
    ByteValue(ByteToHex(x));
  }

  /** Encoding a colour and decoding it gives the colour back. */
  lemma RoundTrip(red: int, green: int, blue: int)
    requires 0 <= red < 256 && 0 <= green < 256 && 0 <= blue < 256
    ensures HexToRgb(RgbToHex(red, green, blue)) == [red, green, blue]
  {
    var s := ByteToHex(red) + ByteToHex(green) + ByteToHex(blue);
    assert RgbToHex(red, green, blue) == "#" + s;
    assert AllHexDigits(s);
    assert HexValue(s[..2]) == red && HexValue(s[2..4]) == green && HexValue(s[4..]) == blue by {
      assert s[..2] == ByteToHex(red) && s[2..4] == ByteToHex(green) && s[4..] == ByteToHex(blue);
      ByteToHexValue(red);
      ByteToHexValue(green);
      ByteToHexValue(blue);
    }
    SixDigitChannels(s);
  }

  /** Decoding six digits and encoding again gives them back in lower case. */
  lemma RoundTripDigits(s: string)
    requires |s| == 6 && AllHexDigits(s)
    ensures var rgb := HexToRgb("#" + s); RgbToHex(rgb[0], rgb[1], rgb[2]) == "#" + ToLowerCase(s)
  {
    SixDigitValue(s);
    EncodeDigitBytes(s);
    SixDigitChannels(s);
  }

  lemma EncodeDigitBytes(s: string)
    requires |s| == 6 && AllHexDigits(s)
    ensures HexValue(s[..2]) < 256 && HexValue(s[2..4]) < 256 && HexValue(s[4..]) < 256
    ensures RgbToHex(HexValue(s[..2]), HexValue(s[2..4]), HexValue(s[4..])) == "#" + ToLowerCase(s)
  {
    var red, green, blue := s[..2], s[2..4], s[4..];
    ByteToHexOfDigits(red);
    ByteToHexOfDigits(green);
    ByteToHexOfDigits(blue);
    assert ToLowerCase(s) == ToLowerCase(red) + ToLowerCase(green) + ToLowerCase(blue) by {
      assert red + green + blue == s;
      ToLowerCaseConcat(red, green);
      ToLowerCaseConcat(red + green, blue);
    }
  }

  lemma ByteToHexOfDigits(d: string)
    requires |d| == 2 && AllHexDigits(d)
    ensures HexValue(d) < 256 && ByteToHex(HexValue(d)) == ToLowerCase(d)
  {
    ByteValue(d);
    var hi, lo := DigitValue(d[0]), DigitValue(d[1]);
    DivUnique(HexValue(d), 16, hi, lo);
    DigitCharOfValue(d[0]);
    DigitCharOfValue(d[1]);
  }

  lemma DigitCharOfValue(c: char)
    requires IsHexDigit(c)
    ensures DigitChar(DigitValue(c)) == LowerChar(c)
  {
  }

  /** The component's default colour is white. */
  lemma DefaultColourIsWhite()
    ensures HexToRgb("#ffffff") == [255, 255, 255]
  {
    assert RgbToHex(255, 255, 255) == "#ffffff";
    RoundTrip(255, 255, 255);
  }

  /** A string that `parseInt` cannot start reading (after the '#', its
      first character is no hex digit, sign or white space) is NaN, and
      NaN decodes to black; so does the empty colour. */
  lemma UnreadableIsBlack(s: string)
    requires '#' !in s
    requires s == [] || (!IsHexDigit(s[0]) && !IsWhitespace(s[0]) && s[0] != '+' && s[0] != '-')
    ensures HexToRgb(s) == [0, 0, 0] && HexToRgb("#" + s) == [0, 0, 0]
  {
    assert StripHash("#" + s) == s;
    var t := if |s| == 3 then Doubled(s) else s;
    assert t == [] || t[0] == s[0];
    assert TrimStart(t) == t;
    assert HexPrefix(DropRadixPrefix(DropSign(t))) == [];
    ChannelsOfNumber(NaN);
  }

  /** Hex digits are read in either case, so upper-casing or lower-casing a
      colour never changes what it decodes to: "#FFF" is "#fff". */
  lemma DecodeIgnoresCase(hex: string)
    ensures HexToRgb(ToLowerCase(hex)) == HexToRgb(hex)
  {
    var s := StripHash(hex);
    StripHashLower(hex);
    var t := if |s| == 3 then Doubled(s) else s;
    if |s| == 3 {
      DoubledLower(s);
    }
    ParseIntHexLower(t);
  }

  lemma {:induction false} StripHashLower(s: string)
    ensures StripHash(ToLowerCase(s)) == ToLowerCase(StripHash(s))
  {
    if s != [] {
      var l := ToLowerCase(s);
      assert l[1..] == ToLowerCase(s[1..]);
      if s[0] != '#' {
        StripHashLower(s[1..]);
        assert l == [LowerChar(s[0])] + ToLowerCase(s[1..]);
        ToLowerCaseConcat([s[0]], StripHash(s[1..]));
      }
    }
  }

  lemma {:induction false} DoubledLower(s: string)
    ensures Doubled(ToLowerCase(s)) == ToLowerCase(Doubled(s))
  {
    if s != [] {
      var l := ToLowerCase(s);
      assert l[1..] == ToLowerCase(s[1..]);
      DoubledLower(s[1..]);
      ToLowerCaseConcat([s[0], s[0]], Doubled(s[1..]));
    }
  }

  lemma ParseIntHexLower(t: string)
    ensures ParseIntHex(ToLowerCase(t)) == ParseIntHex(t)
  {
    var t0 := TrimStart(t);
    TrimStartLower(t);
    var u := DropSign(t0);
    DropSignLower(t0);
    var v := DropRadixPrefix(u);
    DropRadixPrefixLower(u);
    var digits := HexPrefix(v);
    HexPrefixLower(v);
    if digits != [] {
      HexValueLower(digits);
    }
  }

  lemma DropSignLower(t: string)
    ensures DropSign(ToLowerCase(t)) == ToLowerCase(DropSign(t))
    ensures IsNegative(ToLowerCase(t)) == IsNegative(t)
  {
    var l := ToLowerCase(t);
    if |t| > 0 {
      assert (l[0] == '-' || l[0] == '+') == (t[0] == '-' || t[0] == '+');
      ToLowerCaseSlice(t, 1, |t|);
    }
  }

  lemma DropRadixPrefixLower(u: string)
    ensures DropRadixPrefix(ToLowerCase(u)) == ToLowerCase(DropRadixPrefix(u))
  {
    var l := ToLowerCase(u);
    if |u| >= 2 {
      assert (l[0] == '0') == (u[0] == '0');
      assert (l[1] == 'x' || l[1] == 'X') == (u[1] == 'x' || u[1] == 'X');
      ToLowerCaseSlice(u, 2, |u|);
    }
  }

  lemma {:induction false} TrimStartLower(s: string)
    ensures TrimStart(ToLowerCase(s)) == ToLowerCase(TrimStart(s))
  {
    if s != [] {
      var l := ToLowerCase(s);
      assert l[1..] == ToLowerCase(s[1..]);
      assert IsWhitespace(l[0]) == IsWhitespace(s[0]);
      if IsWhitespace(s[0]) {
        TrimStartLower(s[1..]);
      }
    }
  }

  lemma {:induction false} HexPrefixLower(s: string)
    ensures HexPrefix(ToLowerCase(s)) == ToLowerCase(HexPrefix(s))
  {
    if s != [] {
      var l := ToLowerCase(s);
      assert l[1..] == ToLowerCase(s[1..]);
      assert IsHexDigit(l[0]) == IsHexDigit(s[0]);
      if IsHexDigit(s[0]) {
        HexPrefixLower(s[1..]);
        ToLowerCaseConcat([s[0]], HexPrefix(s[1..]));
      }
    }
  }

  lemma {:induction false} HexValueLower(d: string)
    requires AllHexDigits(d)
    ensures AllHexDigits(ToLowerCase(d)) && HexValue(ToLowerCase(d)) == HexValue(d)
  {
    var l := ToLowerCase(d);
    assert AllHexDigits(l) by {
      forall i | 0 <= i < |l| ensures IsHexDigit(l[i]) { assert IsHexDigit(d[i]); }
    }
    if d != [] {
      ToLowerCaseSlice(d, 0, |d| - 1);
      assert l[..|l| - 1] == ToLowerCase(d[..|d| - 1]);
      HexValueLower(d[..|d| - 1]);
      assert DigitValue(l[|l| - 1]) == DigitValue(d[|d| - 1]);
    }
  }
}
