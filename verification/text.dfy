/**
 * The two JavaScript string operations the terminal uses to normalise what
 * the user typed: `String.prototype.trim` and `String.prototype.toLowerCase`.
 */
module Text {

  /** A code point that `trim` strips: the WhiteSpace and LineTerminator
      productions of ECMA-262 (tab, vertical tab, form feed, space, no-break
      space, the byte order mark, every space separator of category Zs, and
      the four line terminators). */
  predicate IsSpace(c: char) {
    var n := c as int;
    || n == 0x09 || n == 0x0A || n == 0x0B || n == 0x0C || n == 0x0D
    || n == 0x20 || n == 0xA0 || n == 0x1680
    || (0x2000 <= n <= 0x200A)
    || n == 0x2028 || n == 0x2029 || n == 0x202F || n == 0x205F
    || n == 0x3000 || n == 0xFEFF
  }

  predicate AllSpace(s: string) {
    forall k :: 0 <= k < |s| ==> IsSpace(s[k])
  }

  /** Drops leading white space; what remains is a suffix of `s`. */
  function TrimStart(s: string): (r: string)
    ensures |r| <= |s| && r == s[|s| - |r|..]
    ensures AllSpace(s[..|s| - |r|])
    ensures r == [] || !IsSpace(r[0])
  {
    if |s| > 0 && IsSpace(s[0]) then
      var r := TrimStart(s[1..]);
      assert s[1..][|s| - 1 - |r|..] == s[|s| - |r|..];
      assert forall k :: 0 <= k < |s| - |r| ==> IsSpace(s[k]) by {
        forall k | 0 < k < |s| - |r| ensures IsSpace(s[k]) {
          assert s[1..][..|s| - 1 - |r|][k - 1] == s[k];
        }
      }
      r
    else s
  }

  /** Drops trailing white space; what remains is a prefix of `s`. */
  function TrimEnd(s: string): (r: string)
    ensures |r| <= |s| && r == s[..|r|]
    ensures AllSpace(s[|r|..])
    ensures r == [] || !IsSpace(r[|r| - 1])
  {
    if |s| > 0 && IsSpace(s[|s| - 1]) then
      var r := TrimEnd(s[..|s| - 1]);
      assert s[..|s| - 1][..|r|] == s[..|r|];
      assert forall k :: |r| <= k < |s| ==> IsSpace(s[k]) by {
        forall k | |r| <= k < |s| - 1 ensures IsSpace(s[k]) {
          assert s[..|s| - 1][|r|..][k - |r|] == s[k];
        }
      }
      r
    else s
  }

  /** `s.trim()`: no white space is left at either end. */
  function Trim(s: string): (r: string)
    ensures r == [] || (!IsSpace(r[0]) && !IsSpace(r[|r| - 1]))
  {
    TrimEnd(TrimStart(s))
  }

  /** Only a blank line trims to nothing. */
  lemma TrimEmptyIffBlank(s: string)
    ensures Trim(s) == [] <==> AllSpace(s)
  {
    var t := TrimStart(s);
    if t != [] {
      assert !IsSpace(s[|s| - |t|]);
    }
  }

  /** Trimming is characterised by where it cuts: if `s[..i]` and `s[j..]`
      are white space and `s[i..j]` neither starts nor ends with it, then
      `s[i..j]` is exactly what `trim` keeps. */
  lemma {:induction false} TrimIsInfix(s: string, i: nat, j: nat)
    requires i <= j <= |s|
    requires AllSpace(s[..i]) && AllSpace(s[j..])
    requires i == j || (!IsSpace(s[i]) && !IsSpace(s[j - 1]))
    ensures Trim(s) == s[i..j]
  {
    if i == j {
      forall k | 0 <= k < |s| ensures IsSpace(s[k]) {
        if k < i { assert s[..i][k] == s[k]; } else { assert s[j..][k - j] == s[k]; }
      }
      TrimEmptyIffBlank(s);
    } else {
      TrimStartAt(s, i);
      TrimEndOfSuffix(s, i, j);
    }
  }

  lemma TrimEndOfSuffix(s: string, i: nat, j: nat)
    requires i < j <= |s| && AllSpace(s[j..]) && !IsSpace(s[j - 1])
    ensures TrimEnd(s[i..]) == s[i..j]
  {
    var u := s[i..];
    assert u[j - i..] == s[j..];
    assert u[j - i - 1] == s[j - 1];
    TrimEndAt(u, j - i);
    assert u[..j - i] == s[i..j];
  }

  lemma {:induction false} TrimStartAt(s: string, i: nat)
    requires i < |s| && AllSpace(s[..i]) && !IsSpace(s[i])
    ensures TrimStart(s) == s[i..]
  {
    if i > 0 {
      assert s[..i][0] == s[0];
      assert s[1..][..i - 1] == s[..i][1..];
      TrimStartAt(s[1..], i - 1);
      assert s[1..][i - 1..] == s[i..];
    }
  }

  lemma {:induction false} TrimEndAt(s: string, j: nat)
    requires 0 < j <= |s| && AllSpace(s[j..]) && !IsSpace(s[j - 1])
    ensures TrimEnd(s) == s[..j]
  {
    if j < |s| {
      assert s[j..][|s| - 1 - j] == s[|s| - 1];
      assert s[..|s| - 1][j..] == s[j..][..|s| - 1 - j];
      TrimEndAt(s[..|s| - 1], j);
      assert s[..|s| - 1][..j] == s[..j];
    }
  }

  /** `toLowerCase` on one code point: ASCII capitals, and KELVIN SIGN
      (U+212A), the one non-ASCII code point whose lower case is ASCII. */
  function LowerChar(c: char): (r: char)
    ensures !('A' <= r <= 'Z')
    ensures 'a' <= c <= 'z' ==> r == c
  {
    if 'A' <= c <= 'Z' then (c as int + 32) as char
    else if c as int == 0x212A then 'k'
    else c
  }

  /** `s.toLowerCase()`, code point by code point. */
  function Lower(s: string): (r: string)
    ensures |r| == |s|
    ensures forall k :: 0 <= k < |s| ==> r[k] == LowerChar(s[k])
  {
    if s == [] then [] else [LowerChar(s[0])] + Lower(s[1..])
  }

  /** Lowering leaves a string of lower-case ASCII letters unchanged. */
  lemma LowerOfLowercase(s: string)
    requires forall k :: 0 <= k < |s| ==> 'a' <= s[k] <= 'z'
    ensures Lower(s) == s
  {
  }

  /** Lowering a character never changes whether it is white space. */
  lemma LowerKeepsSpace(c: char)
    ensures IsSpace(LowerChar(c)) <==> IsSpace(c)
  {
  }

  /** The terminal's normal form of an input line: `cmd.trim().toLowerCase()`.
      It has no white space at either end. */
  function Normalise(raw: string): (r: string)
    ensures |r| <= |raw|
    ensures r == [] || (!IsSpace(r[0]) && !IsSpace(r[|r| - 1]))
  {
    var t := Trim(raw);
    var r := Lower(t);
    assert r != [] ==> (!IsSpace(r[0]) && !IsSpace(r[|r| - 1])) by {
      if r != [] {
        LowerKeepsSpace(t[0]);
        LowerKeepsSpace(t[|t| - 1]);
      }
    }
    r
  }

  /** The normal form holds no ASCII capital letter. */
  lemma NormaliseHasNoCapitals(raw: string)
    ensures forall k :: 0 <= k < |Normalise(raw)| ==> !('A' <= Normalise(raw)[k] <= 'Z')
  {
  }

  /** An input normalises to the empty string exactly when it is blank. */
  lemma NormaliseEmptyIffBlank(raw: string)
    ensures Normalise(raw) == [] <==> AllSpace(raw)
  {
    TrimEmptyIffBlank(raw);
  }

  /** Normalising an already normal line changes nothing. */
  lemma NormaliseIdempotent(raw: string)
    ensures Normalise(Normalise(raw)) == Normalise(raw)
  {
    var n := Normalise(raw);
    if n == [] {
      assert Normalise(n) == [];
    } else {
      assert AllSpace(n[..0]);
      assert AllSpace(n[|n|..]);
      TrimIsInfix(n, 0, |n|);
      assert n[0..|n|] == n;
      LowerOfLower(Trim(raw));
    }
  }

  /** Lowering is idempotent. */
  lemma LowerOfLower(s: string)
    ensures Lower(Lower(s)) == Lower(s)
  {
  }

  /** A word of lower-case ASCII letters is its own normal form. */
  lemma NormaliseOfPlainWord(c: string)
    requires |c| > 0 && forall k :: 0 <= k < |c| ==> 'a' <= c[k] <= 'z'
    ensures Normalise(c) == c && !AllSpace(c)
  {
    LowerOfLowercase(c);
    assert AllSpace(c[..0]) && AllSpace(c[|c|..]);
    TrimIsInfix(c, 0, |c|);
    assert c[0..|c|] == c;
  }
}
