/**
 * The canvas's `hexToRgb`: the pattern `^#?([a-f\d]{2})([a-f\d]{2})([a-f\d]{2})$`
 * matched case-insensitively, each pair read as a base-16 byte, and white
 * whenever the pattern does not match.
 */
module HexColor {
  import opened Wrappers
  import Text

  datatype Rgb = Rgb(r: int, g: int, b: int)

  const White: Rgb := Rgb(255, 255, 255)

  predicate InRange(c: Rgb) {
    0 <= c.r <= 255 && 0 <= c.g <= 255 && 0 <= c.b <= 255
  }

  /** `[a-f\d]` under the `i` flag: ASCII digits and ASCII letters a-f in
      either case (the non-Unicode `i` flag never folds a non-ASCII code
      point onto an ASCII one). */
  predicate IsHexDigit(c: char) {
    '0' <= c <= '9' || 'a' <= c <= 'f' || 'A' <= c <= 'F'
  }

  function DigitValue(c: char): (v: int)
    requires IsHexDigit(c)
    ensures 0 <= v < 16
  {
    if '0' <= c <= '9' then c as int - '0' as int
    else if 'a' <= c <= 'f' then c as int - 'a' as int + 10
    else c as int - 'A' as int + 10
  }

  predicate AllHex(d: string) {
    forall k :: 0 <= k < |d| ==> IsHexDigit(d[k])
  }

  /** The strings the pattern accepts: six hex digits, optionally preceded
      by `#`, and nothing else. */
  predicate Matches(s: string) {
    || (|s| == 6 && AllHex(s))
    || (|s| == 7 && s[0] == '#' && AllHex(s[1..]))
  }

  /** `parseInt(pair, 16)` for the pair of digits at `d[i]`, `d[i + 1]`. */
  function PairValue(d: string, i: nat): (v: int)
    requires i + 1 < |d| && IsHexDigit(d[i]) && IsHexDigit(d[i + 1])
    ensures 0 <= v <= 255
  {
    16 * DigitValue(d[i]) + DigitValue(d[i + 1])
  }

  /** The six digits the pattern captures: the input without its leading
      `#` when it has one. */
  function Digits(s: string): string {
    if |s| == 7 && s[0] == '#' then s[1..] else s
  }

  function Decode(d: string): (r: Option<Rgb>)
    ensures r.Some? <==> |d| == 6 && AllHex(d)
    ensures r.Some? ==> InRange(r.value)
  {
    if |d| == 6 && AllHex(d) then
      Some(Rgb(PairValue(d, 0), PairValue(d, 2), PairValue(d, 4)))
    else None
  }

  /** The three channels when the pattern matches, nothing otherwise. */
  function Parse(s: string): (r: Option<Rgb>)
    ensures r.Some? <==> Matches(s)
    ensures r.Some? ==> InRange(r.value)
  {
    Decode(Digits(s))
  }

  /** `hexToRgb(s)`: always a colour with channels in [0, 255], and white for
      every string the pattern rejects. */
  function HexToRgb(s: string): (c: Rgb)
    ensures InRange(c)
    ensures !Matches(s) ==> c == White
  {
    Parse(s).GetOr(White)
  }

  /** The lower-case hex digit of `n`. */
  function HexChar(n: int): (c: char)
    requires 0 <= n < 16
    ensures IsHexDigit(c) && DigitValue(c) == n
  {
    if n < 10 then ('0' as int + n) as char else ('a' as int + n - 10) as char
  }

  function Pair(v: int): (p: string)
    requires 0 <= v <= 255
    ensures |p| == 2 && AllHex(p) && PairValue(p, 0) == v
  {
    [HexChar(v / 16), HexChar(v % 16)]
  }

  /** The `#rrggbb` spelling of a colour, in lower case. */
  function Format(c: Rgb): (s: string)
    requires InRange(c)
    ensures |s| == 7
  {
    "#" + Pair(c.r) + Pair(c.g) + Pair(c.b)
  }

  /** Parsing the spelling of a colour gives the colour back. */
  lemma ParseFormat(c: Rgb)
    requires InRange(c)
    ensures Parse(Format(c)) == Some(c)
  {
    var s := Format(c);
    var d := s[1..];
    assert d == Pair(c.r) + Pair(c.g) + Pair(c.b);
    assert d[0..2] == Pair(c.r) && d[2..4] == Pair(c.g) && d[4..6] == Pair(c.b);
    assert PairValue(d, 0) == PairValue(Pair(c.r), 0);
    assert PairValue(d, 2) == PairValue(Pair(c.g), 0);
    assert PairValue(d, 4) == PairValue(Pair(c.b), 0);
  }

  /** The pattern's `i` flag: lower-casing the input changes nothing. */
  lemma ParseIgnoresCase(s: string)
    ensures Parse(Text.Lower(s)) == Parse(s)
  {
    DigitsOfLower(s);
    DecodeOfLower(Digits(s));
  }

  lemma DigitsOfLower(s: string)
    ensures Digits(Text.Lower(s)) == Text.Lower(Digits(s))
  {
    var t := Text.Lower(s);
    if |s| == 7 {
      assert t[0] == '#' <==> s[0] == '#';
      if s[0] == '#' {
        assert t[1..] == Text.Lower(s[1..]);
      }
    }
  }

  lemma DecodeOfLower(d: string)
    ensures Decode(Text.Lower(d)) == Decode(d)
  {
    var t := Text.Lower(d);
    forall k | 0 <= k < |d|
      ensures IsHexDigit(t[k]) <==> IsHexDigit(d[k])
      ensures IsHexDigit(d[k]) ==> DigitValue(t[k]) == DigitValue(d[k])
    {
      LowerCharHex(d[k]);
    }
    assert AllHex(t) <==> AllHex(d);
  }

  lemma LowerCharHex(c: char)
    ensures IsHexDigit(Text.LowerChar(c)) <==> IsHexDigit(c)
    ensures IsHexDigit(c) ==> DigitValue(Text.LowerChar(c)) == DigitValue(c)
  {
  }

  /** Every colour the parser accepts is spelt, up to case, exactly as the
      input spelt it. */
  lemma FormatParse(s: string)
    requires Matches(s)
    ensures Format(Parse(s).value) == "#" + Text.Lower(Digits(s))
  {
    var d := Digits(s);
    var l := Text.Lower(d);
    assert |d| == 6 && AllHex(d);
    PairOfLower(d, 0);
    PairOfLower(d, 2);
    PairOfLower(d, 4);
    assert l == l[0..2] + l[2..4] + l[4..6];
  }

  /** The spelling of one parsed pair is the pair in lower case. */
  lemma PairOfLower(d: string, j: nat)
    requires j + 1 < |d| && IsHexDigit(d[j]) && IsHexDigit(d[j + 1])
    ensures Pair(PairValue(d, j)) == Text.Lower(d)[j..j + 2]
  {
    var a, b := d[j], d[j + 1];
    var v := PairValue(d, j);
    assert v == 16 * DigitValue(a) + DigitValue(b);
    PairOfDigitChars(a, b);
    assert Pair(v) == [Text.LowerChar(a), Text.LowerChar(b)];
    LowerSlice(d, j);
  }

  /** Printing the byte two digits spell gives the digits in lower case. */
  lemma PairOfDigitChars(a: char, b: char)
    requires IsHexDigit(a) && IsHexDigit(b)
    ensures Pair(16 * DigitValue(a) + DigitValue(b)) == [Text.LowerChar(a), Text.LowerChar(b)]
  {
    SplitByte(DigitValue(a), DigitValue(b));
    HexCharOfDigit(a);
    HexCharOfDigit(b);
  }

  lemma LowerSlice(d: string, j: nat)
    requires j + 1 < |d|
    ensures Text.Lower(d)[j..j + 2] == [Text.LowerChar(d[j]), Text.LowerChar(d[j + 1])]
  {
    var l := Text.Lower(d);
    PairSlice(l, j);
  }

  lemma PairSlice(l: string, j: nat)
    requires j + 1 < |l|
    ensures l[j..j + 2] == [l[j], l[j + 1]]
  {
  }

  lemma SplitByte(hi: int, lo: int)
    requires 0 <= hi < 16 && 0 <= lo < 16
    ensures (16 * hi + lo) / 16 == hi && (16 * hi + lo) % 16 == lo
  {
  }

  lemma HexCharOfDigit(c: char)
    requires IsHexDigit(c)
    ensures HexChar(DigitValue(c)) == Text.LowerChar(c)
  {
  }

  /** The reveal's tint colour `#06B6D4` is cyan (6, 182, 212). */
  lemma RevealTint(s: string)
    requires s == "#06B6D4"
    ensures HexToRgb(s) == Rgb(6, 182, 212)
  {
    assert AllHex(s[1..]);
  }
}
