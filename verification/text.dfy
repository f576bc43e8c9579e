/** Character and string helpers: ASCII case folding, substring search and
    the decimal text JavaScript gives a non-negative integer. */
module Text {

  predicate IsDigit(c: char) {
    '0' <= c <= '9'
  }

  predicate IsUpper(c: char) {
    'A' <= c <= 'Z'
  }

  predicate AllDigits(s: string) {
    forall i :: 0 <= i < |s| ==> IsDigit(s[i])
  }

  predicate NoDigits(s: string) {
    forall i :: 0 <= i < |s| ==> !IsDigit(s[i])
  }

  /** No upper-case ASCII letter occurs in `s`. */
  predicate IsLowerCase(s: string) {
    forall i :: 0 <= i < |s| ==> !IsUpper(s[i])
  }

  function LowerChar(c: char): (d: char)
    ensures !IsUpper(d)
    ensures IsUpper(c) ==> d as int == c as int + 32
    ensures !IsUpper(c) ==> d == c
  {
    if IsUpper(c) then (c as int + 32) as char else c
  }

  /** `toLowerCase` on ASCII letters; every other character is kept. */
  function Lower(s: string): (r: string)
    ensures |r| == |s|
    ensures IsLowerCase(r)
    ensures forall i :: 0 <= i < |s| ==> r[i] == LowerChar(s[i])
  {
    seq(|s|, i requires 0 <= i < |s| => LowerChar(s[i]))
  }

  /** Lower-casing changes nothing in a string without upper-case letters;
      in particular it is idempotent. */
  lemma LowerKeepsLowerCase(s: string)
    requires IsLowerCase(s)
    ensures Lower(s) == s
  {
  }

  predicate StartsWith(s: string, p: string) {
    |p| <= |s| && s[..|p|] == p
  }

  /** `p` occurs in `s` starting at index `i`. */
  predicate OccursAt(s: string, p: string, i: int) {
    0 <= i <= |s| - |p| && s[i..i + |p|] == p
  }

  predicate Contains(s: string, p: string) {
    exists i :: 0 <= i <= |s| - |p| && OccursAt(s, p, i)
  }

  /** A JavaScript test `/p/i.test(s)` for a lower-case ASCII pattern `p`:
      a character of `s` outside ASCII never folds onto an ASCII letter,
      so comparing against `Lower(s)` is exact. */
  predicate ContainsIgnoringCase(s: string, p: string) {
    Contains(Lower(s), p)
  }

  function Digit(d: nat): (c: char)
    requires d < 10
    ensures IsDigit(c)
  {
    ('0' as int + d) as char
  }

  function DigitValue(c: char): (d: nat)
    requires IsDigit(c)
    ensures d < 10 && Digit(d) == c
  {
    c as int - '0' as int
  }

  /** The decimal text of `n`, as JavaScript's string concatenation writes a
      non-negative integer. */
  function NatText(n: nat): (r: string)
    ensures |r| > 0
    ensures AllDigits(r)
  {
    if n < 10 then [Digit(n)] else NatText(n / 10) + [Digit(n % 10)]
  }

  /** The number a string of decimal digits denotes. */
  function DecimalValue(s: string): nat
    requires AllDigits(s)
  {
    if s == [] then 0 else DecimalValue(s[..|s| - 1]) * 10 + DigitValue(s[|s| - 1])
  }

  /** Reading the decimal text of `n` back gives `n`. */
  lemma {:induction false} NatTextRoundTrip(n: nat)
    ensures DecimalValue(NatText(n)) == n
  {
    var r := NatText(n);
    if n < 10 {
      assert r[..|r| - 1] == [];
    } else {
      NatTextRoundTrip(n / 10);
      assert r[..|r| - 1] == NatText(n / 10);
      assert DigitValue(r[|r| - 1]) == n % 10;
    }
  }

  /** The length of the run of digits `s` starts with. */
  function LeadingDigits(s: string): (k: nat)
    ensures k <= |s|
    ensures AllDigits(s[..k])
    ensures k < |s| ==> !IsDigit(s[k])
  {
    if s == [] || !IsDigit(s[0]) then 0
    else
      var k := 1 + LeadingDigits(s[1..]);
      assert s[..k] == [s[0]] + s[1..][..k - 1];
      k
  }

  /** The number written by the digits `s` starts with, 0 if there are none. */
  function LeadingValue(s: string): nat {
    DecimalValue(s[..LeadingDigits(s)])
  }

  /** A digit block followed by nothing or by a non-digit is exactly the
      leading run. */
  lemma {:induction false} LeadingDigitsOf(d: string, b: string)
    requires AllDigits(d)
    requires b == [] || !IsDigit(b[0])
    ensures LeadingDigits(d + b) == |d|
    decreases |d|
  {
    if d == [] {
      assert d + b == b;
    } else {
      assert (d + b)[0] == d[0];
      assert (d + b)[1..] == d[1..] + b;
      LeadingDigitsOf(d[1..], b);
    }
  }

  /** The decimal text of `n`, followed by nothing or by a non-digit, reads
      back as `n`. */
  lemma ReadNatText(n: nat, b: string)
    requires b == [] || !IsDigit(b[0])
    ensures LeadingValue(NatText(n) + b) == n
  {
    var d := NatText(n);
    LeadingDigitsOf(d, b);
    assert (d + b)[..|d|] == d;
    NatTextRoundTrip(n);
  }

  /** An occurrence of `p` in `a + d + b` that avoids the non-empty digit block
      `d` lies inside `a` or inside `b`; when `p` has no digit it cannot meet
      `d`, so absence from both `a` and `b` is absence from the whole. */
  lemma AbsentAroundDigits(a: string, d: string, b: string, p: string)
    requires |d| > 0 && AllDigits(d)
    requires |p| > 0 && NoDigits(p)
    requires !Contains(a, p) && !Contains(b, p)
    ensures !Contains(a + d + b, p)
  {
    var s := a + d + b;
    if i :| OccursAt(s, p, i) {
      if i + |p| <= |a| {
        assert s[i..i + |p|] == a[i..i + |p|];
        assert OccursAt(a, p, i);
      } else if i >= |a| + |d| {
        var j := i - |a| - |d|;
        assert s[i..i + |p|] == b[j..j + |p|];
        assert OccursAt(b, p, j);
      } else {
        var k := if i < |a| then |a| else i;
        assert s[k] == d[k - |a|];
        assert p[k - i] == s[k];
      }
    }
  }

  /** `p` does not occur in `s` when no position of `s` that could start an
      occurrence holds the first character of `p`. */
  lemma AbsentByFirstChar(s: string, p: string)
    requires |p| > 0
    requires forall i :: 0 <= i <= |s| - |p| ==> s[i] != p[0]
    ensures !Contains(s, p)
  {
    forall i | 0 <= i <= |s| - |p|
      ensures !OccursAt(s, p, i)
    {
      assert s[i..i + |p|][0] == s[i];
    }
  }

  /** `p` is a prefix of `w`, decided character by character. */
  predicate PrefixOf(p: string, w: string) {
    |p| == 0 || (|w| > 0 && p[0] == w[0] && PrefixOf(p[1..], w[1..]))
  }

  lemma {:induction false} PrefixOfIff(p: string, w: string)
    ensures PrefixOf(p, w) <==> StartsWith(w, p)
  {
    if |p| > 0 && |w| > 0 {
      PrefixOfIff(p[1..], w[1..]);
      if StartsWith(w, p) {
        assert w[1..][..|p| - 1] == w[..|p|][1..];
      }
    }
  }
}
