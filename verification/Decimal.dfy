/** Decimal notation of natural numbers. */
module Decimal {
  predicate IsDigit(c: char) { '0' <= c <= '9' }

  predicate AllDigits(s: string) { forall i :: 0 <= i < |s| ==> IsDigit(s[i]) }

  function DigitOf(n: nat): (c: char)
    requires n < 10
    ensures IsDigit(c) && c as int - '0' as int == n
  {
    '0' + n as char
  }

  /* n * 10 + c - '0' */
  function Push(n: int, c: char): int {
    n * 10 + c as int - '0' as int
  }

  /* Appends the digits of s to the number n. */
  function Accumulate(n: int, s: string): (r: int)
    ensures |s| == 1 ==> r == Push(n, s[0])
    decreases |s|
  {
    if |s| == 0 then n else Accumulate(Push(n, s[0]), s[1..])
  }

  function Print(n: nat): (s: string)
    ensures |s| > 0 && AllDigits(s)
  {
    if n < 10 then [DigitOf(n)] else Print(n / 10) + [DigitOf(n % 10)]
  }

  /** The digits by their characters, and what printing does, digit by digit from the right. */
  lemma PrintMeans(n: nat, c: char)
    ensures IsDigit(c) <==> c in "0123456789"
    ensures n < 10 ==> Print(n) == ["0123456789"[n]]
    ensures n >= 10 ==> Print(n) == Print(n / 10) + ["0123456789"[n % 10]]
  {
    var digits := "0123456789";
    assert forall i :: 0 <= i < 10 ==> digits[i] == DigitOf(i);
    if IsDigit(c) {
      assert c == digits[c as int - '0' as int];
    }
  }

  /** Reading goes on from what was read before by ten times that plus the place of the character. */
  lemma ReadMeans(n: int, s: string, i: nat)
    requires i < 10
    ensures Accumulate(n, s + ["0123456789"[i]]) == 10 * Accumulate(n, s) + i && Accumulate(n, "") == n
  {
    var digits := "0123456789";
    assert digits[i] == DigitOf(i);
    AccumulateSnoc(n, s, digits[i]);
  }

  lemma {:induction false} AccumulateSnoc(n: int, s: string, c: char)
    ensures Accumulate(n, s + [c]) == Push(Accumulate(n, s), c)
    decreases |s|
  {
    if |s| == 0 {
      assert Accumulate(n, [c]) == Accumulate(Push(n, c), []);
    } else {
      assert (s + [c])[1..] == s[1..] + [c];
      AccumulateSnoc(Push(n, s[0]), s[1..], c);
    }
  }

  /** Reading a printed number gives the number back. */
  lemma {:induction false} PrintRoundTrip(n: nat)
    ensures Accumulate(0, Print(n)) == n
  {
    if n < 10 {
      AccumulateSnoc(0, [], DigitOf(n));
      assert [] + [DigitOf(n)] == [DigitOf(n)];
    } else {
      PrintRoundTrip(n / 10);
      AccumulateSnoc(0, Print(n / 10), DigitOf(n % 10));
    }
  }

  /* A decimal numeral without superfluous zeros. */
  predicate Canonical(s: string) {
    |s| > 0 && AllDigits(s) && (|s| > 1 ==> s[0] != '0')
  }

  lemma {:induction false} AccumulateMonotone(n: int, s: string)
    requires n >= 0 && AllDigits(s)
    ensures Accumulate(n, s) >= n
    decreases |s|
  {
    if |s| == 0 {
    } else {
      AccumulateMonotone(Push(n, s[0]), s[1..]);
    }
  }

  /** Printing the value of a canonical numeral gives the numeral back. */
  lemma {:induction false} CanonicalRoundTrip(s: string)
    requires Canonical(s)
    ensures Accumulate(0, s) >= 0 && Print(Accumulate(0, s)) == s
    decreases |s|
  {
    var n := |s| - 1;
    var c := s[n];
    assert s == s[..n] + [c];
    AccumulateSnoc(0, s[..n], c);
    if n == 0 {
    } else {
      CanonicalRoundTrip(s[..n]);
      AccumulateMonotone(Push(0, s[0]), s[1..n]);
      assert s[..n][1..] == s[1..n];
    }
  }
}
