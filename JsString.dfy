/**
 * The JavaScript string built-ins the site relies on, modelled on sequences of
 * characters: `toLowerCase` (ASCII letters only), `replace` with a global
 * one-character pattern and with a plain one-character pattern (first
 * occurrence only), `includes`, `padStart` and `String(n)` for a natural
 * number, with `IndexOf` as the reference definition of a first occurrence.
 */
module JsString {

  predicate IsAsciiUpper(c: char) { 'A' <= c <= 'Z' }

  /** `toLowerCase` on one character: A-Z become a-z, everything else is kept. */
  function LowerChar(c: char): char
  {
    if IsAsciiUpper(c) then (c as int + 32) as char else c
  }

  /** `s.toLowerCase()`: the same length, each character lower-cased on its own. */
  function Lower(s: string): (r: string)
    ensures |r| == |s|
    ensures forall i :: 0 <= i < |s| ==> r[i] == LowerChar(s[i])
  {
    seq(|s|, i requires 0 <= i < |s| => LowerChar(s[i]))
  }

  /** Lower-casing leaves no ASCII capital, changes exactly the capitals, and is idempotent. */
  lemma LowerFacts(s: string)
    ensures forall c :: c in Lower(s) ==> !IsAsciiUpper(c)
    ensures forall i :: 0 <= i < |s| ==> (Lower(s)[i] == s[i] <==> !IsAsciiUpper(s[i]))
    ensures Lower(Lower(s)) == Lower(s)
  {
  }

  /** `s.replace(/x/g, y)` for a one-character pattern: every `x` becomes `y`. */
  function ReplaceAll(s: string, x: char, y: char): (r: string)
    ensures |r| == |s|
    ensures forall i :: 0 <= i < |s| ==> r[i] == (if s[i] == x then y else s[i])
    ensures x != y ==> x !in r
  {
    seq(|s|, i requires 0 <= i < |s| => if s[i] == x then y else s[i])
  }

  /**
   * The first position of `x` in `s`, or -1 when `x` does not occur (as
   * `s.indexOf(x)` would give): the position a plain-pattern `replace` rewrites.
   */
  function IndexOf(s: string, x: char): (k: int)
    ensures k == -1 <==> x !in s
    ensures k != -1 ==> 0 <= k < |s| && s[k] == x && x !in s[..k]
  {
    if s == [] then -1
    else if s[0] == x then 0
    else
      var k := IndexOf(s[1..], x);
      if k == -1 then -1 else k + 1
  }

  /** `IndexOf` finds the first occurrence. */
  lemma IndexOfFirst(s: string, x: char, i: int)
    requires 0 <= i < |s| && s[i] == x && x !in s[..i]
    ensures IndexOf(s, x) == i
  {
    assert s[..i + 1][i] == x;
    var k := IndexOf(s, x);
    assert forall j :: 0 <= j < i ==> s[j] != x by {
      forall j | 0 <= j < i ensures s[j] != x { assert s[..i][j] == s[j]; }
    }
    assert forall j :: 0 <= j < k ==> s[j] != x by {
      forall j | 0 <= j < k ensures s[j] != x { assert s[..k][j] == s[j]; }
    }
  }

  /** Lower-casing commutes with taking a slice. */
  lemma LowerSlice(s: string, i: int, j: int)
    requires 0 <= i <= j <= |s|
    ensures Lower(s)[i..j] == Lower(s[i..j])
  {
  }

  /**
   * `s.replace(x, y)` with a plain-string pattern: only the first occurrence
   * of `x` is replaced.
   */
  function ReplaceFirst(s: string, x: char, y: char): (r: string)
    ensures |r| == |s|
  {
    if s == [] then []
    else if s[0] == x then [y] + s[1..]
    else [s[0]] + ReplaceFirst(s[1..], x, y)
  }

  /** The occurrence replaced is the one `IndexOf` finds; without one, nothing changes. */
  lemma {:induction false} ReplaceFirstAtIndexOf(s: string, x: char, y: char)
    ensures IndexOf(s, x) == -1 ==> ReplaceFirst(s, x, y) == s
    ensures IndexOf(s, x) != -1 ==>
      ReplaceFirst(s, x, y) == s[..IndexOf(s, x)] + [y] + s[IndexOf(s, x) + 1..]
    decreases |s|
  {
    if s != [] && s[0] != x {
      var tail := s[1..];
      ReplaceFirstAtIndexOf(tail, x, y);
      var k := IndexOf(tail, x);
      assert ReplaceFirst(s, x, y) == [s[0]] + ReplaceFirst(tail, x, y);
      if k != -1 {
        assert IndexOf(s, x) == k + 1;
        ShiftSplit(s, k, y);
      } else {
        assert s == [s[0]] + tail;
      }
    }
  }

  /** Splitting `s` around position `k + 1` is splitting its tail around `k`. */
  lemma ShiftSplit(s: string, k: int, y: char)
    requires 0 <= k < |s| - 1
    ensures [s[0]] + (s[1..][..k] + [y] + s[1..][k + 1..]) == s[..k + 1] + [y] + s[k + 2..]
  {
    assert s[..k + 1] == [s[0]] + s[1..][..k];
    assert s[k + 2..] == s[1..][k + 1..];
  }

  /** Replacing the first occurrence brings in no character but the replacement. */
  lemma {:induction false} ReplaceFirstChars(s: string, x: char, y: char)
    ensures forall c :: c in ReplaceFirst(s, x, y) ==> c in s || c == y
    decreases |s|
  {
    if s != [] && s[0] != x {
      ReplaceFirstChars(s[1..], x, y);
      assert forall c :: c in s[1..] ==> c in s;
    }
  }

  /** `p` occurs in `s` starting at position `i`. */
  predicate OccursAt(s: string, p: string, i: int)
  {
    0 <= i && i + |p| <= |s| && s[i..i + |p|] == p
  }

  /**
   * `s.includes(p)`: `p` occurs in `s` at some position. The empty pattern is
   * included in every string; a pattern longer than `s` never is.
   */
  predicate Includes(s: string, p: string): (r: bool)
    ensures p == [] ==> r
    ensures r ==> |p| <= |s|
  {
    assert p == [] ==> OccursAt(s, p, 0);
    exists i | 0 <= i <= |s| - |p| :: OccursAt(s, p, i)
  }

  /** Every string includes itself. */
  lemma IncludesSelf(s: string)
    ensures Includes(s, s)
  {
    assert OccursAt(s, s, 0);
  }

  /** Every character of an included string occurs in the including string. */
  lemma IncludesHasChar(s: string, p: string, k: int)
    requires Includes(s, p) && 0 <= k < |p|
    ensures p[k] in s
  {
    var i :| 0 <= i <= |s| - |p| && OccursAt(s, p, i);
    assert s[i..i + |p|][k] == s[i + k];
  }

  /** `c` repeated `n` times. */
  function Repeat(c: char, n: nat): (r: string)
    ensures |r| == n && forall i :: 0 <= i < n ==> r[i] == c
  {
    if n == 0 then [] else [c] + Repeat(c, n - 1)
  }

  /** `s.padStart(width, fill)` with a one-character fill string. */
  function PadStart(s: string, width: nat, fill: char): (r: string)
    ensures |r| == if |s| >= width then |s| else width
    ensures r[|r| - |s|..] == s
    ensures forall i :: 0 <= i < |r| - |s| ==> r[i] == fill
  {
    if |s| >= width then s else Repeat(fill, width - |s|) + s
  }

  predicate IsDigit(c: char) { '0' <= c <= '9' }

  predicate IsDigits(s: string) { forall i :: 0 <= i < |s| ==> IsDigit(s[i]) }

  function DigitChar(d: int): (c: char)
    requires 0 <= d < 10
    ensures IsDigit(c) && c as int - '0' as int == d
  {
    ('0' as int + d) as char
  }

  /** The number a string of decimal digits denotes; leading zeros add nothing. */
  function DigitsValue(s: string): nat
    requires IsDigits(s)
  {
    if s == [] then 0
    else DigitsValue(s[..|s| - 1]) * 10 + (s[|s| - 1] as int - '0' as int)
  }

  /**
   * `String(n)` for a natural number: its decimal digits, without leading
   * zeros, denoting `n`.
   */
  function Decimal(n: nat): (r: string)
    ensures IsDigits(r) && DigitsValue(r) == n
    ensures 1 <= |r| && (|r| > 1 ==> r[0] != '0')
    ensures n < 10 <==> |r| == 1
    ensures n >= 100 ==> |r| >= 3
  {
    if n < 10 then [DigitChar(n)]
    else
      var r := Decimal(n / 10) + [DigitChar(n % 10)];
      assert r[..|r| - 1] == Decimal(n / 10);
      r
  }

  /** Leading zeros do not change the value of a digit string. */
  lemma {:induction false} LeadingZerosValue(k: nat, s: string)
    requires IsDigits(s)
    ensures IsDigits(Repeat('0', k) + s) && DigitsValue(Repeat('0', k) + s) == DigitsValue(s)
    decreases k
  {
    if k > 0 {
      var t := Repeat('0', k - 1) + s;
      LeadingZerosValue(k - 1, s);
      LeadingZeroValue(t);
      assert Repeat('0', k) + s == ['0'] + t;
    } else {
      assert Repeat('0', k) + s == s;
    }
  }

  /** One leading zero does not change the value of a digit string. */
  lemma {:induction false} LeadingZeroValue(s: string)
    requires IsDigits(s)
    ensures IsDigits(['0'] + s) && DigitsValue(['0'] + s) == DigitsValue(s)
    decreases |s|
  {
    if s != [] {
      var t := ['0'] + s;
      assert t[..|t| - 1] == ['0'] + s[..|s| - 1];
      LeadingZeroValue(s[..|s| - 1]);
    }
  }
}
