/** Character-level helpers shared by the parsers: ASCII digits, ASCII
    upper-casing and the case-insensitive comparison of the `i` regex flag. */
module Text {

  predicate IsDigit(c: char) { '0' <= c <= '9' }

  predicate AllDigits(s: string) { forall i :: 0 <= i < |s| ==> IsDigit(s[i]) }

  function DigitValue(c: char): (d: nat)
    requires IsDigit(c)
    ensures d < 10
  {
    c as int - '0' as int
  }

  function DigitChar(d: nat): (c: char)
    requires d < 10
    ensures IsDigit(c) && DigitValue(c) == d
  {
    ('0' as int + d) as char
  }

  function Pow10(n: nat): (p: nat)
    ensures p >= 1
  {
    if n == 0 then 1 else 10 * Pow10(n - 1)
  }

  /** The base-10 value of a string of digits, most significant digit first;
      n digits denote less than 10^n. */
  function DigitsValue(s: string): (v: nat)
    requires AllDigits(s)
    ensures v < Pow10(|s|)
  {
    if s == [] then 0 else 10 * DigitsValue(s[..|s| - 1]) + DigitValue(s[|s| - 1])
  }

  /** Reading the digits of `a` then those of `b` shifts `a` left by |b| places. */
  lemma {:induction false} DigitsValueConcat(a: string, b: string)
    requires AllDigits(a) && AllDigits(b)
    ensures AllDigits(a + b)
    ensures DigitsValue(a + b) == DigitsValue(a) * Pow10(|b|) + DigitsValue(b)
  {
    if b != [] {
      var b', c := b[..|b| - 1], b[|b| - 1];
      assert (a + b)[..|a + b| - 1] == a + b';
      assert (a + b)[|a + b| - 1] == c;
      DigitsValueConcat(a, b');
      var x, y, p := DigitsValue(a), DigitsValue(b'), Pow10(|b'|);
      assert DigitsValue(a + b) == 10 * (x * p + y) + DigitValue(c);
      assert DigitsValue(b) == 10 * y + DigitValue(c);
      assert Pow10(|b|) == 10 * p;
      ShiftDigit(x, p, y, DigitValue(c));
    } else {
      assert a + b == a;
    }
  }

  /** Reading one more digit multiplies by ten and adds it. */
  lemma DigitsValuePrefix(s: string, k: nat)
    requires 0 < k <= |s| && AllDigits(s)
    ensures AllDigits(s[..k]) && DigitsValue(s[..k]) == 10 * DigitsValue(s[..k - 1]) + DigitValue(s[k - 1])
  {
    assert s[..k][..k - 1] == s[..k - 1];
  }

  /** The positional value of three, four, five and six digits. */
  lemma Digits3(d: string)
    requires |d| == 3 && AllDigits(d)
    ensures DigitsValue(d) == 100 * DigitValue(d[0]) + 10 * DigitValue(d[1]) + DigitValue(d[2])
  {
    assert d[..0] == [] && d[..3] == d;
    DigitsValuePrefix(d, 1);
    DigitsValuePrefix(d, 2);
    DigitsValuePrefix(d, 3);
  }

  lemma Digits4(d: string)
    requires |d| == 4 && AllDigits(d)
    ensures DigitsValue(d) == 1000 * DigitValue(d[0]) + 100 * DigitValue(d[1]) + 10 * DigitValue(d[2]) + DigitValue(d[3])
  {
    assert d[..4] == d;
    Digits3(d[..3]);
    DigitsValuePrefix(d, 4);
  }

  lemma Digits5(d: string)
    requires |d| == 5 && AllDigits(d)
    ensures DigitsValue(d) == 10000 * DigitValue(d[0]) + 1000 * DigitValue(d[1]) + 100 * DigitValue(d[2])
                            + 10 * DigitValue(d[3]) + DigitValue(d[4])
  {
    assert d[..5] == d;
    Digits4(d[..4]);
    DigitsValuePrefix(d, 5);
  }

  lemma Digits6(d: string)
    requires |d| == 6 && AllDigits(d)
    ensures DigitsValue(d) == 100000 * DigitValue(d[0]) + 10000 * DigitValue(d[1]) + 1000 * DigitValue(d[2])
                            + 100 * DigitValue(d[3]) + 10 * DigitValue(d[4]) + DigitValue(d[5])
  {
    assert d[..6] == d;
    Digits5(d[..5]);
    DigitsValuePrefix(d, 6);
  }

  /** The arithmetic step of DigitsValueConcat. */
  lemma ShiftDigit(x: int, p: int, y: int, d: int)
    ensures 10 * (x * p + y) + d == x * (10 * p) + (10 * y + d)
  {
  }

  /** `String.prototype.toUpperCase` on one character, for the ASCII letters. */
  function UpperChar(c: char): (u: char)
  {
    if 'a' <= c <= 'z' then (c as int - 32) as char else c
  }

  function Upper(s: string): (r: string)
    ensures |r| == |s|
    ensures forall i :: 0 <= i < |s| ==> r[i] == UpperChar(s[i])
  {
    if s == [] then [] else [UpperChar(s[0])] + Upper(s[1..])
  }

  /** Upper-casing distributes over concatenation. */
  lemma {:induction false} UpperConcat(a: string, b: string)
    ensures Upper(a + b) == Upper(a) + Upper(b)
  {
    var l, r := Upper(a + b), Upper(a) + Upper(b);
    assert |l| == |r|;
    forall i | 0 <= i < |l| ensures l[i] == r[i] {
      if i < |a| {
        assert (a + b)[i] == a[i];
        assert r[i] == Upper(a)[i];
      } else {
        assert (a + b)[i] == b[i - |a|];
        assert r[i] == Upper(b)[i - |a|];
      }
    }
  }

  /** Upper-casing twice is upper-casing once. */
  lemma UpperIdempotent(a: string)
    ensures Upper(Upper(a)) == Upper(a)
  {
    var u := Upper(a);
    assert forall i :: 0 <= i < |u| ==> UpperChar(u[i]) == u[i];
  }

  /** Two characters are equal under the `i` flag. The patterns here are all
      ASCII, and a JavaScript case-insensitive regex never maps a non-ASCII
      character onto an ASCII one, so ASCII folding decides these matches exactly. */
  predicate EqualCI(c: char, p: char) { UpperChar(c) == UpperChar(p) }

  /** `w` occurs in `s` at position `i`, ignoring case. */
  predicate OccursAt(s: string, w: string, i: int)
  {
    0 <= i && i + |w| <= |s| && forall j :: 0 <= j < |w| ==> EqualCI(s[i + j], w[j])
  }

  predicate StartsWithCI(s: string, w: string) { OccursAt(s, w, 0) }

  predicate EndsWithCI(s: string, w: string) { |w| <= |s| && OccursAt(s, w, |s| - |w|) }

  /** An unanchored regex alternative: `w` occurs somewhere in `s`. */
  ghost predicate Occurs(s: string, w: string)
  {
    exists i :: OccursAt(s, w, i)
  }

  lemma OccursShift(s: string, w: string)
    requires |s| > 0
    ensures forall i :: 0 <= i ==> (OccursAt(s[1..], w, i) <==> OccursAt(s, w, i + 1))
  {
    var t := s[1..];
    assert forall k :: 0 <= k < |t| ==> t[k] == s[k + 1];
    forall i | 0 <= i && i + |w| <= |t|
      ensures OccursAt(t, w, i) <==> OccursAt(s, w, i + 1)
    {
      assert forall j :: 0 <= j < |w| ==> EqualCI(t[i + j], w[j]) == EqualCI(s[i + 1 + j], w[j]);
    }
  }

  /** The left-to-right search a regex engine performs for an unanchored word. */
  function ContainsCI(s: string, w: string): (b: bool)
    ensures b <==> Occurs(s, w)
    decreases |s|
  {
    if |s| < |w| then
      assert forall i :: !OccursAt(s, w, i);
      false
    else if OccursAt(s, w, 0) then
      true
    else
      OccursShift(s, w);
      assert Occurs(s, w) ==> Occurs(s[1..], w) by {
        if Occurs(s, w) {
          var i :| OccursAt(s, w, i);
          assert i != 0;
          assert OccursAt(s[1..], w, i - 1);
        }
      }
      ContainsCI(s[1..], w)
  }

  /** An occurrence of a word also gives an occurrence of each of its prefixes. */
  lemma OccursPrefix(s: string, w: string, k: nat)
    requires k <= |w| && Occurs(s, w)
    ensures Occurs(s, w[..k])
  {
    var i :| OccursAt(s, w, i);
    assert OccursAt(s, w[..k], i);
  }

  /** A word whose first letter does not appear in `s`, in either case, does
      not occur in `s`. */
  lemma LetterAbsent(s: string, w: string)
    requires |w| > 0
    requires forall i :: 0 <= i < |s| ==> !EqualCI(s[i], w[0])
    ensures !Occurs(s, w)
  {
    forall i ensures !OccursAt(s, w, i) {
      if 0 <= i < |s| {
        MismatchAt(s, w, i, 0);
      }
    }
  }

  /** One mismatching character rules out an occurrence at `i`. */
  lemma MismatchAt(s: string, w: string, i: int, j: int)
    requires 0 <= j < |w| && 0 <= i + j < |s| && !EqualCI(s[i + j], w[j])
    ensures !OccursAt(s, w, i)
  {
  }
}
