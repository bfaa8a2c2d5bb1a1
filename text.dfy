/**
 * String primitives used by the uploader: Swift's `hasPrefix`, Foundation's
 * `contains`, and the decimal rendering `String(Int)` used for Content-Length.
 * Each executable operation is tied to an independent, declarative definition.
 */
module Text {

  /** `p` is a prefix of `s` (declarative). */
  predicate IsPrefix(p: string, s: string) {
    |p| <= |s| && s[..|p|] == p
  }

  /** `t` occurs in `s` starting at index `i` (declarative). */
  predicate OccursAt(t: string, s: string, i: int) {
    0 <= i && i + |t| <= |s| && s[i..i + |t|] == t
  }

  /** `t` occurs somewhere in `s` (declarative). */
  ghost predicate Occurs(t: string, s: string) {
    exists i :: OccursAt(t, s, i)
  }

  /** `s.hasPrefix(p)`, compared character by character. */
  function HasPrefix(s: string, p: string): (r: bool)
    ensures r <==> IsPrefix(p, s)
  {
    if |p| == 0 then true
    else if |s| == 0 then false
    else
      assert IsPrefix(p, s) <==> s[0] == p[0] && IsPrefix(p[1..], s[1..]) by {
        if s[0] == p[0] && IsPrefix(p[1..], s[1..]) {
          assert s[..|p|] == [s[0]] + s[1..][..|p| - 1];
          assert p == [p[0]] + p[1..];
        }
      }
      s[0] == p[0] && HasPrefix(s[1..], p[1..])
  }

  lemma ShiftOccurrence(t: string, s: string, i: int)
    requires |s| > 0 && i >= 0
    ensures OccursAt(t, s[1..], i) <==> OccursAt(t, s, i + 1)
  {
    if 0 <= i && i + |t| <= |s| - 1 {
      assert s[1..][i..i + |t|] == s[i + 1..i + 1 + |t|];
    }
  }

  /** `s.contains(t)`: scans `s` for the first position where `t` starts. */
  function Contains(s: string, t: string): (r: bool)
    ensures r <==> Occurs(t, s)
    decreases |s|
  {
    if HasPrefix(s, t) then
      assert OccursAt(t, s, 0);
      true
    else if |s| == 0 then
      assert forall i :: !OccursAt(t, s, i);
      false
    else
      var r := Contains(s[1..], t);
      assert r ==> Occurs(t, s) by {
        if r {
          var i :| OccursAt(t, s[1..], i);
          ShiftOccurrence(t, s, i);
        }
      }
      assert Occurs(t, s) ==> r by {
        if Occurs(t, s) {
          var i :| OccursAt(t, s, i);
          assert i != 0;
          ShiftOccurrence(t, s, i - 1);
        }
      }
      r
  }

  predicate IsDigit(c: char) {
    '0' <= c <= '9'
  }

  predicate AllDigits(s: string) {
    forall i | 0 <= i < |s| :: IsDigit(s[i])
  }

  function DigitChar(d: nat): (c: char)
    requires d < 10
    ensures IsDigit(c) && c as int - '0' as int == d
  {
    ('0' as int + d) as char
  }

  /** `String(n)` for a non-negative `Int`: base ten, most significant digit first. */
  function Decimal(n: nat): (r: string)
    ensures |r| > 0 && AllDigits(r)
    ensures |r| > 1 ==> r[0] != '0'
    decreases n
  {
    if n < 10 then [DigitChar(n)] else Decimal(n / 10) + [DigitChar(n % 10)]
  }

  /** Reads a string of decimal digits back as a number (what a server does with Content-Length). */
  function ParseDecimal(s: string): nat
    requires AllDigits(s)
    decreases |s|
  {
    if s == [] then 0
    else ParseDecimal(s[..|s| - 1]) * 10 + (s[|s| - 1] as int - '0' as int)
  }

  lemma {:induction false} DecimalRoundTrip(n: nat)
    ensures ParseDecimal(Decimal(n)) == n
    decreases n
  {
    if n >= 10 {
      var d := Decimal(n);
      assert d[..|d| - 1] == Decimal(n / 10);
      DecimalRoundTrip(n / 10);
    }
  }
}
