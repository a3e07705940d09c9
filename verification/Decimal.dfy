/**
  Decimal rendering of integers as Python's f-strings produce it, and the two facts the
  repository relies on without saying so: rendering is injective, and appending
  `-k` to a slug can be undone.
*/
module Decimal {

  function Digit(d: nat): char
    requires d < 10
  {
    "0123456789"[d]
  }

  predicate IsDigit(c: char) {
    '0' <= c <= '9'
  }

  function DigitValue(c: char): nat {
    if IsDigit(c) then c as int - '0' as int else 0
  }

  /** The text of a non-negative integer. */
  function Dec(n: nat): (s: string)
    ensures |s| > 0
  {
    if n < 10 then [Digit(n)] else Dec(n / 10) + [Digit(n % 10)]
  }

  /** The text of any integer, with a leading minus sign when negative. */
  function Text(n: int): string {
    if n < 0 then "-" + Dec(-n) else Dec(n)
  }

  /** No leading zero, so that the text is the usual one. */
  lemma {:induction false} NoLeadingZero(n: nat)
    ensures n == 0 ==> Dec(n) == "0"
    ensures n > 0 ==> Dec(n)[0] != '0'
  {
    if n < 10 {
    } else {
      NoLeadingZero(n / 10);
    }
  }

  /** The digits are the ASCII ones, in order, the highest place first; a minus sign precedes a negative number. */
  lemma SomeTexts()
    ensures Text(0) == "0" && Text(7) == "7" && Text(1024) == "1024" && Text(3569) == "3569" && Text(-86) == "-86"
  {
    assert Dec(10) == "10" && Dec(102) == "102" && Dec(35) == "35" && Dec(356) == "356";
  }

  /** Reads a digit string back. */
  function Value(s: string): nat {
    if s == [] then 0 else 10 * Value(s[..|s| - 1]) + DigitValue(s[|s| - 1])
  }

  lemma {:induction false} DecIsDigits(n: nat)
    ensures forall i :: 0 <= i < |Dec(n)| ==> IsDigit(Dec(n)[i])
  {
    if n >= 10 {
      DecIsDigits(n / 10);
    }
  }

  lemma {:induction false} ValueOfDec(n: nat)
    ensures Value(Dec(n)) == n
  {
    if n >= 10 {
      ValueOfDec(n / 10);
      assert Dec(n)[..|Dec(n)| - 1] == Dec(n / 10);
    } else {
      assert Dec(n)[..0] == [];
    }
  }

  lemma TextInjective(a: int, b: int)
    requires Text(a) == Text(b)
    ensures a == b
  {
    DecIsDigits(if a < 0 then -a else a);
    DecIsDigits(if b < 0 then -b else b);
    ValueOfDec(if a < 0 then -a else a);
    ValueOfDec(if b < 0 then -b else b);
    assert Text(a)[0] == Text(b)[0];
    if a < 0 && b < 0 {
      assert Text(a)[1..] == Dec(-a);
      assert Text(b)[1..] == Dec(-b);
    }
  }

  /** `f"{slug}-{k}"`. */
  function Suffixed(slug: string, k: nat): string {
    slug + "-" + Dec(k)
  }

  /** The numbered form determines both the slug and the number. */
  lemma SuffixedInjective(s: string, k: nat, t: string, m: nat)
    requires Suffixed(s, k) == Suffixed(t, m)
    ensures s == t && k == m
  {
    DecIsDigits(k);
    DecIsDigits(m);
    DashPosition(s, Dec(k), t, Dec(m));
    DashPosition(t, Dec(m), s, Dec(k));
    var u, v := Suffixed(s, k), Suffixed(t, m);
    assert |s| == |t|;
    assert s == u[..|s|] && t == v[..|t|];
    assert Dec(k) == u[|s| + 1..] && Dec(m) == v[|t| + 1..];
    ValueOfDec(k);
    ValueOfDec(m);
  }

  /** The last dash cannot lie inside the digits that follow the other one. */
  lemma DashPosition(s: string, a: string, t: string, b: string)
    requires s + "-" + a == t + "-" + b
    requires forall i :: 0 <= i < |b| ==> IsDigit(b[i])
    ensures |a| >= |b|
  {
    var u, v := s + "-" + a, t + "-" + b;
    assert u[|s|] == '-';
    assert forall i :: |t| < i < |v| ==> v[i] == b[i - |t| - 1];
  }
}
