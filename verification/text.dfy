/**
 The string operations the source relies on: `str.lower()`, the substring test
 `p in s`, and `str(n)` for a non-negative integer, with the decimal reading that
 inverts it.
 */
module Text {

  /** `str.lower()` on one character; only the ASCII letters are mapped. */
  function LowerChar(c: char): char
  {
    if 'A' <= c <= 'Z' then (c as int - 'A' as int + 'a' as int) as char else c
  }

  predicate IsUpper(c: char)
  {
    'A' <= c <= 'Z'
  }

  /** `s.lower()`: the same length, every character lowered in place. */
  function Lower(s: string): string
  {
    seq(|s|, i requires 0 <= i < |s| => LowerChar(s[i]))
  }

  /**
   `s.lower()` on ASCII: the same length, no upper-case letter left, every
   upper-case letter replaced in place by its lower-case partner (32 code points
   on), every other character kept.
   */
  lemma LowerInPlace(s: string)
    ensures |Lower(s)| == |s|
    ensures forall i :: 0 <= i < |s| ==> !IsUpper(Lower(s)[i])
    ensures forall i :: 0 <= i < |s| && !IsUpper(s[i]) ==> Lower(s)[i] == s[i]
    ensures forall i :: 0 <= i < |s| && IsUpper(s[i]) ==> Lower(s)[i] as int == s[i] as int + 32
  {
  }

  /** Lower-casing leaves no upper-case letter behind, so it is idempotent. */
  lemma LowerIdempotent(s: string)
    ensures forall i :: 0 <= i < |Lower(s)| ==> !IsUpper(Lower(s)[i])
    ensures Lower(Lower(s)) == Lower(s)
  {
  }

  /** A string with no upper-case letter is already lower-case. */
  lemma LowerFixed(s: string)
    requires forall c :: c in s ==> !IsUpper(c)
    ensures Lower(s) == s
  {
    assert forall i :: 0 <= i < |s| ==> s[i] in s;
  }

  lemma LowerAppend(a: string, b: string)
    ensures Lower(a + b) == Lower(a) + Lower(b)
  {
  }

  /** `p` occurs in `s` starting at index `j`. */
  ghost predicate OccursAt(p: string, s: string, j: int)
  {
    0 <= j && j + |p| <= |s| && s[j..j + |p|] == p
  }

  ghost predicate Occurs(p: string, s: string)
  {
    exists j :: OccursAt(p, s, j)
  }

  /** Python's `p in s` on strings, scanning left to right. */
  function Contains(s: string, p: string): (r: bool)
    ensures r <==> Occurs(p, s)
    decreases |s|
  {
    if |s| < |p| then
      false
    else if s[..|p|] == p then
      assert OccursAt(p, s, 0);
      true
    else
      OccursShift(s, p);
      Contains(s[1..], p)
  }

  /** When `p` is not a prefix of `s`, its occurrences in `s` are those in `s[1..]`. */
  lemma OccursShift(s: string, p: string)
    requires |s| >= |p| && s[..|p|] != p
    ensures Occurs(p, s) <==> Occurs(p, s[1..])
  {
    if Occurs(p, s) {
      var j :| OccursAt(p, s, j);
      assert j != 0;
      assert s[1..][j - 1..j - 1 + |p|] == s[j..j + |p|];
      assert OccursAt(p, s[1..], j - 1);
    }
    if Occurs(p, s[1..]) {
      var j :| OccursAt(p, s[1..], j);
      assert s[1..][j..j + |p|] == s[j + 1..j + 1 + |p|];
      assert OccursAt(p, s, j + 1);
    }
  }

  predicate IsDigit(c: char)
  {
    '0' <= c <= '9'
  }

  predicate AllDigits(s: string)
  {
    forall i :: 0 <= i < |s| ==> IsDigit(s[i])
  }

  function DigitChar(d: nat): char
    requires d < 10
  {
    ('0' as int + d) as char
  }

  function DigitValue(c: char): nat
    requires IsDigit(c)
  {
    c as int - '0' as int
  }

  /**
   `str(n)` for a non-negative integer: a non-empty run of digits with no
   leading zero (a lone "0" for zero).
   */
  function NatToString(n: nat): (r: string)
    ensures |r| > 0 && AllDigits(r)
    ensures r[0] == '0' <==> n == 0
    decreases n
  {
    (if n < 10 then "" else NatToString(n / 10)) + [DigitChar(n % 10)]
  }

  /**
   The value of a run of decimal digits. A decoder of this model, defined to show
   that the decimal text of a flag is unambiguous.
   */
  function DecimalValue(s: string): nat
    requires AllDigits(s)
    decreases |s|
  {
    if s == [] then 0 else DecimalValue(s[..|s| - 1]) * 10 + DigitValue(s[|s| - 1])
  }

  /** Reading back the decimal text of `n` gives `n`. */
  lemma {:induction false} DecimalRoundTrip(n: nat)
    ensures DecimalValue(NatToString(n)) == n
    decreases n
  {
    var s := NatToString(n);
    var d := DigitChar(n % 10);
    assert DigitValue(d) == n % 10;
    if n < 10 {
      assert s == [d];
      assert s[..0] == [];
    } else {
      var t := NatToString(n / 10);
      assert s == t + [d];
      assert s[..|s| - 1] == t;
      DecimalRoundTrip(n / 10);
      assert DecimalValue(s) == DecimalValue(t) * 10 + n % 10;
      assert (n / 10) * 10 + n % 10 == n;
    }
  }

  /** Distinct numbers have distinct decimal texts. */
  lemma NatToStringInjective(m: nat, n: nat)
    ensures NatToString(m) == NatToString(n) ==> m == n
  {
    DecimalRoundTrip(m);
    DecimalRoundTrip(n);
  }
}
