/**
 `hexToRgba(hex, alpha)`: strip the first '#', read the rest with JavaScript's
 `parseInt(…, 16)`, split the number into its red, green and blue bytes with
 `>>` and `& 255`, and render the CSS text `rgba(r, g, b, alpha)`. The alpha is
 a floating-point number in the application; here it arrives already rendered
 as text.
 */
module Colour {
  import opened Text
  import opened Wrappers
  import opened Arith

  datatype Rgb = Rgb(r: int, g: int, b: int)

  /** `s.indexOf(ch)` for a character that occurs in `s`: its first position. */
  function FirstIndexOf(s: string, ch: char): (i: nat)
    requires ch in s
    ensures i < |s| && s[i] == ch && ch !in s[..i]
  {
    if s[0] == ch then 0
    else
      var j := FirstIndexOf(s[1..], ch);
      assert s[..j + 1] == [s[0]] + s[1..][..j];
      j + 1
  }

  /** `s.replace('#', '')`: a string pattern replaces its first occurrence only. */
  function RemoveFirstHash(s: string): (t: string)
    ensures '#' in s ==> |t| == |s| - 1
    ensures '#' in s ==> exists i :: 0 <= i < |s| && s[i] == '#' && '#' !in s[..i] && t == s[..i] + s[i + 1..]
    ensures '#' !in s ==> t == s
  {
    if '#' in s then
      var i := FirstIndexOf(s, '#');
      s[..i] + s[i + 1..]
    else s
  }

  /** The WhiteSpace and LineTerminator code points of ECMA-262, which parseInt skips first. */
  predicate IsJsSpace(ch: char) {
    var u := ch as int;
    u == 0x09 || u == 0x0A || u == 0x0B || u == 0x0C || u == 0x0D || u == 0x20 ||
    u == 0xA0 || u == 0x1680 || (0x2000 <= u <= 0x200A) || u == 0x2028 || u == 0x2029 ||
    u == 0x202F || u == 0x205F || u == 0x3000 || u == 0xFEFF
  }

  function TrimStart(s: string): (t: string)
    ensures |t| <= |s|
    ensures t == s[|s| - |t|..]
    ensures t == [] || !IsJsSpace(t[0])
    ensures forall i :: 0 <= i < |s| - |t| ==> IsJsSpace(s[i])
  {
    if s != [] && IsJsSpace(s[0]) then TrimStart(s[1..]) else s
  }

  function HexDigitValue(ch: char): (v: Option<nat>)
    ensures v.Some? ==> v.value < 16
  {
    if '0' <= ch <= '9' then Some(ch as int - '0' as int)
    else if 'a' <= ch <= 'f' then Some(ch as int - 'a' as int + 10)
    else if 'A' <= ch <= 'F' then Some(ch as int - 'A' as int + 10)
    else None
  }

  predicate IsHexDigit(ch: char) {
    HexDigitValue(ch).Some?
  }

  /** Length of the longest prefix of `s` made of hexadecimal digits. */
  function HexRun(s: string): (n: nat)
    ensures n <= |s|
    ensures forall i :: 0 <= i < n ==> IsHexDigit(s[i])
    ensures n < |s| ==> !IsHexDigit(s[n])
  {
    if s != [] && IsHexDigit(s[0]) then 1 + HexRun(s[1..]) else 0
  }

  /** The value of a string of hexadecimal digits (most significant first). */
  function HexValue(s: string): (v: nat)
    requires forall i :: 0 <= i < |s| ==> IsHexDigit(s[i])
  {
    if s == [] then 0
    else
      assert IsHexDigit(s[|s| - 1]);
      HexValue(s[..|s| - 1]) * 16 + HexDigitValue(s[|s| - 1]).value
  }

  /** The text parseInt reads digits from: after white space, one sign and a `0x`/`0X` prefix. */
  function DigitsPart(s: string): (w: string)
    ensures |w| <= |s|
  {
    var t := TrimStart(s);
    var u := if t != [] && (t[0] == '-' || t[0] == '+') then t[1..] else t;
    if |u| >= 2 && u[0] == '0' && (u[1] == 'x' || u[1] == 'X') then u[2..] else u
  }

  /** Whether parseInt reads a minus sign (after the leading white space). */
  predicate Negative(s: string) {
    var t := TrimStart(s);
    t != [] && t[0] == '-'
  }

  /**
   `parseInt(s, 16)`: skip leading white space, take an optional sign and an
   optional `0x`/`0X` prefix, then read the longest run of hexadecimal digits.
   `None` stands for NaN, the result when that run is empty.
   */
  function ParseHex(s: string): Option<int> {
    var w := DigitsPart(s);
    var n := HexRun(w);
    if n == 0 then None
    else
      var magnitude := HexValue(w[..n]);
      var signed: int := if Negative(s) then -(magnitude as int) else magnitude;
      Some(signed)
  }

  /** parseInt gives NaN exactly when no hexadecimal digit follows the sign and prefix. */
  lemma ParseHexNaN(s: string)
    ensures ParseHex(s).None? <==> (DigitsPart(s) == [] || !IsHexDigit(DigitsPart(s)[0]))
  {
  }

  /**
   A string made only of hexadecimal digits (the usual colour text without
   its '#') parses to its value.
   */
  lemma ParseHexOfDigits(w: string)
    requires w != [] && forall i :: 0 <= i < |w| ==> IsHexDigit(w[i])
    ensures ParseHex(w) == Some(HexValue(w))
  {
    DigitsPartOfDigits(w);
    HexRunAll(w);
    assert w[..|w|] == w;
  }

  /** Hexadecimal digits are neither white space, nor a sign, nor an 'x'. */
  lemma DigitsPartOfDigits(w: string)
    requires w != [] && forall i :: 0 <= i < |w| ==> IsHexDigit(w[i])
    ensures DigitsPart(w) == w && !Negative(w)
  {
    var c := w[0];
    assert IsHexDigit(c);
    assert !IsJsSpace(c) && c != '-' && c != '+';
    assert TrimStart(w) == w;
    if |w| >= 2 {
      assert IsHexDigit(w[1]);
      assert w[1] != 'x' && w[1] != 'X';
    }
  }

  lemma {:induction false} HexRunAll(w: string)
    requires forall i :: 0 <= i < |w| ==> IsHexDigit(w[i])
    ensures HexRun(w) == |w|
    ensures HexValue(w[..HexRun(w)]) == HexValue(w)
  {
    if w != [] {
      HexRunAll(w[1..]);
    }
    assert w[..|w|] == w;
  }

  const TWO_32: int := 0x1_0000_0000
  const TWO_31: int := 0x8000_0000

  /** ECMAScript ToInt32, applied by `>>` to its left operand; NaN becomes 0. */
  function ToInt32(v: Option<int>): (x: int)
    ensures -TWO_31 <= x < TWO_31
    ensures v.None? ==> x == 0
    ensures v.Some? ==> (x - v.value) % TWO_32 == 0
  {
    match v
    case None => 0
    case Some(n) =>
      var m := n % TWO_32;
      if m >= TWO_31 then m - TWO_32 else m
  }

  /** `x >> k` on a 32-bit signed value: arithmetic shift, i.e. floor division by 2^k. */
  function ShiftRight(x: int, k: nat): int {
    x / Pow2(k)
  }

  function Pow2(k: nat): (p: nat)
    ensures p >= 1
  {
    if k == 0 then 1 else 2 * Pow2(k - 1)
  }

  /** `x & 255` on a 32-bit signed value: the low eight bits of its two's complement. */
  function LowByte(x: int): int {
    x % 256
  }

  /** The three channels `hexToRgba` extracts from its hex argument. */
  function Channels(hex: string): Rgb {
    var bigint := ParseHex(RemoveFirstHash(hex));
    var x := ToInt32(bigint);
    Rgb(LowByte(ShiftRight(x, 16)), LowByte(ShiftRight(x, 8)), LowByte(x))
  }

  /** `hexToRgba(hex, alpha)` with the alpha already rendered as text. */
  function HexToRgba(hex: string, alpha: string): string {
    RgbaText(Channels(hex), alpha)
  }

  /** The CSS text `rgba(${r}, ${g}, ${b}, ${alpha})`. */
  function RgbaText(c: Rgb, alpha: string): (t: string)
    requires 0 <= c.r && 0 <= c.g && 0 <= c.b
    ensures |t| > 5 + |alpha| && t[..5] == "rgba(" && t[|t| - |alpha| - 1..] == alpha + ")"
  {
    "rgba(" + NatToString(c.r) + ", " + NatToString(c.g) + ", " + NatToString(c.b) + ", " + alpha + ")"
  }

  /** The parsed number, with NaN read as 0 (which is what `>>` makes of it). */
  function ParsedOrZero(hex: string): int {
    OrZero(ParseHex(RemoveFirstHash(hex)))
  }

  function OrZero(p: Option<int>): int {
    match p
    case None => 0
    case Some(n) => n
  }

  /**
   Each channel is a byte, and the three are bits 16-23, 8-15 and 0-7 of the
   parsed value; put back together they give the low 24 bits of that value.
   */
  lemma ChannelsAreBytes(hex: string)
    ensures var c := Channels(hex); var v := ParsedOrZero(hex);
      && 0 <= c.r < 256 && 0 <= c.g < 256 && 0 <= c.b < 256
      && c.r == (v / 0x1_0000) % 256
      && c.g == (v / 0x100) % 256
      && c.b == v % 256
      && c.r * 0x1_0000 + c.g * 0x100 + c.b == v % 0x100_0000
  {
    var parsed := ParseHex(RemoveFirstHash(hex));
    ToInt32Congruent(parsed);
    ChannelsOfInt32(ToInt32(parsed), OrZero(parsed));
  }

  /** A leading '#' is the one `replace('#', '')` removes, whatever follows it. */
  lemma StripLeadingHash(w: string)
    ensures RemoveFirstHash("#" + w) == w
  {
    assert ("#" + w)[0] == '#';
  }

  /**
   A colour written as '#' followed by hexadecimal digits: the '#' goes, the
   digits are parsed, and the channels are the bytes of their value.
   */
  lemma HashColourChannels(w: string)
    requires w != [] && forall i :: 0 <= i < |w| ==> IsHexDigit(w[i])
    ensures ParsedOrZero("#" + w) == HexValue(w)
    ensures var c := Channels("#" + w); var v := HexValue(w);
      && c.r == (v / 0x1_0000) % 256
      && c.g == (v / 0x100) % 256
      && c.b == v % 256
  {
    StripLeadingHash(w);
    ParseHexOfDigits(w);
    ChannelsAreBytes("#" + w);
  }

  lemma ToInt32Congruent(p: Option<int>)
    ensures (ToInt32(p) - OrZero(p)) % TWO_32 == 0
  {
  }

  /** The byte split of a 32-bit value congruent to `v` reads the low three bytes of `v`. */
  lemma ChannelsOfInt32(x: int, v: int)
    requires (x - v) % TWO_32 == 0
    ensures var c := Rgb(LowByte(ShiftRight(x, 16)), LowByte(ShiftRight(x, 8)), LowByte(x));
      && 0 <= c.r < 256 && 0 <= c.g < 256 && 0 <= c.b < 256
      && c.r == (v / 0x1_0000) % 256
      && c.g == (v / 0x100) % 256
      && c.b == v % 256
      && c.r * 0x1_0000 + c.g * 0x100 + c.b == v % 0x100_0000
  {
    Pow2Bytes();
    var k := (x - v) / TWO_32;
    assert x == v + k * TWO_32;
    ShiftIgnoresHighBits(v, k);
    Reassemble(v);
  }

  lemma Pow2Bytes()
    ensures Pow2(8) == 0x100 && Pow2(16) == 0x1_0000
  {
    assert Pow2(4) == 16;
    assert Pow2(8) == 16 * Pow2(4);
    assert Pow2(12) == 16 * Pow2(8);
    assert Pow2(16) == 16 * Pow2(12);
  }

  /** Adding a multiple of 2^32 (what ToInt32 does) leaves the low three bytes alone. */
  lemma ShiftIgnoresHighBits(v: int, k: int)
    ensures ((v + k * TWO_32) / 0x1_0000) % 256 == (v / 0x1_0000) % 256
    ensures ((v + k * TWO_32) / 0x100) % 256 == (v / 0x100) % 256
    ensures (v + k * TWO_32) % 256 == v % 256
  {
    assert k * TWO_32 == (k * 0x1_0000) * 0x1_0000;
    DivAddMultiple(v, k * 0x1_0000, 0x1_0000);
    DivAddMultiple(v / 0x1_0000, k * 0x100, 256);
    assert k * TWO_32 == (k * 0x100_0000) * 0x100;
    DivAddMultiple(v, k * 0x100_0000, 0x100);
    DivAddMultiple(v / 0x100, k * 0x1_0000, 256);
    assert k * TWO_32 == (k * 0x100_0000) * 256;
    DivAddMultiple(v, k * 0x100_0000, 256);
  }

  lemma Reassemble(v: int)
    ensures ((v / 0x1_0000) % 256) * 0x1_0000 + ((v / 0x100) % 256) * 0x100 + v % 256 == v % 0x100_0000
  {
    var q, lo := v / 0x100_0000, v % 0x100_0000;
    var h, rest := lo / 0x1_0000, lo % 0x1_0000;
    var m, l := rest / 0x100, rest % 0x100;
    assert lo == h * 0x1_0000 + m * 0x100 + l;
    MulSign(h - 255, 0x1_0000);
    assert (h - 255) * 0x1_0000 == h * 0x1_0000 - 255 * 0x1_0000;
    MulSign(m - 255, 0x100);
    assert (m - 255) * 0x100 == m * 0x100 - 255 * 0x100;
    DivModOf(v, 0x1_0000, q * 256 + h, m * 0x100 + l);
    DivModOf(q * 256 + h, 256, q, h);
    DivModOf(v, 0x100, q * 0x1_0000 + h * 0x100 + m, l);
    DivModOf(q * 0x1_0000 + h * 0x100 + m, 256, q * 0x100 + h, m);
    DivModOf(v, 256, q * 0x1_0000 + h * 0x100 + m, l);
  }

  /** The accent colour the ripple flashes in (ACCENT_COLOR). */
  const ACCENT_COLOR: string := "#ff2aa1"

  lemma AccentDigits()
    ensures HexValue("ff2aa1") == 0xff2aa1
  {
    assert HexDigitValue('f') == Some(15) && HexDigitValue('2') == Some(2);
    assert HexDigitValue('a') == Some(10) && HexDigitValue('1') == Some(1);
    assert HexValue("f") == 15;
    assert "ff"[..1] == "f";
    assert HexValue("ff") == 0xff;
    assert "ff2"[..2] == "ff";
    assert HexValue("ff2") == 0xff2;
    assert "ff2a"[..3] == "ff2";
    assert HexValue("ff2a") == 0xff2a;
    assert "ff2aa"[..4] == "ff2a";
    assert HexValue("ff2aa") == 0xff2aa;
    assert "ff2aa1"[..5] == "ff2aa";
  }

  lemma AccentParse()
    ensures ParseHex(RemoveFirstHash(ACCENT_COLOR)) == Some(0xff2aa1)
  {
    var w := "ff2aa1";
    assert RemoveFirstHash(ACCENT_COLOR) == w by {
      assert ACCENT_COLOR[0] == '#' && ACCENT_COLOR[1..] == w;
    }
    assert forall i :: 0 <= i < |w| ==> IsHexDigit(w[i]);
    ParseHexOfDigits(w);
    AccentDigits();
  }

  lemma AccentBytes()
    ensures Channels(ACCENT_COLOR) == Rgb(255, 42, 161)
  {
    AccentParse();
    Pow2Bytes();
    var x := ToInt32(ParseHex(RemoveFirstHash(ACCENT_COLOR)));
    assert x == 0xff2aa1;
    assert ShiftRight(x, 16) == 255;
    assert ShiftRight(x, 8) == 0xff2a;
    assert LowByte(0xff2a) == 42;
    assert LowByte(x) == 161;
  }

  lemma AccentTexts()
    ensures NatToString(255) == "255" && NatToString(42) == "42" && NatToString(161) == "161"
  {
    assert NatToString(25) == "25";
    assert NatToString(16) == "16";
  }

  lemma AccentText(alpha: string)
    ensures RgbaText(Rgb(255, 42, 161), alpha) == "rgba(255, 42, 161, " + alpha + ")"
  {
    AccentTexts();
  }

  /** The accent colour reads as red 255, green 42, blue 161. */
  lemma AccentChannels(alpha: string)
    ensures Channels(ACCENT_COLOR) == Rgb(255, 42, 161)
    ensures HexToRgba(ACCENT_COLOR, alpha) == "rgba(255, 42, 161, " + alpha + ")"
  {
    AccentBytes();
    AccentText(alpha);
  }
}
