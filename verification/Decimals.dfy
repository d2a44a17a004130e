/** Decimal numerals. */
module Decimals {

  predicate IsDigit(c: char) {
    '0' <= c <= '9'
  }

  predicate AllDigits(s: string) {
    forall i :: 0 <= i < |s| ==> IsDigit(s[i])
  }

  function DigitChar(d: nat): (c: char)
    requires d < 10
    ensures IsDigit(c) && DigitValue(c) == d
  {
    '0' + d as char
  }

  function DigitValue(c: char): (d: nat)
    requires IsDigit(c)
    ensures d < 10
  {
    (c - '0') as nat
  }

  /** Integer.toString of a non-negative number. */
  function ToString(n: nat): (s: string)
    ensures |s| >= 1 && AllDigits(s)
    decreases n
  {
    if n < 10 then [DigitChar(n)] else ToString(n / 10) + [DigitChar(n % 10)]
  }

  /** Integer.toString of any number. */
  function IntText(n: int): string {
    if n < 0 then "-" + ToString(-n) else ToString(n)
  }

  function ValueOf(s: string): nat
    requires AllDigits(s)
  {
    if s == [] then 0 else 10 * ValueOf(s[..|s| - 1]) + DigitValue(s[|s| - 1])
  }

  function Pow10(k: nat): (p: nat)
    ensures p >= 1
  {
    if k == 0 then 1 else 10 * Pow10(k - 1)
  }

  function Zeros(k: nat): (s: string)
    ensures |s| == k && AllDigits(s)
  {
    seq(k, i => '0')
  }

  lemma ValueSnoc(s: string, c: char)
    requires AllDigits(s) && IsDigit(c)
    ensures AllDigits(s + [c]) && ValueOf(s + [c]) == 10 * ValueOf(s) + DigitValue(c)
    ensures ValueOf([]) == 0
  {
    assert (s + [c])[..|s|] == s;
  }

  /** A numeral is read back as the number it was made from. */
  lemma {:induction false} ValueOfToString(n: nat)
    ensures ValueOf(ToString(n)) == n
  {
    if n < 10 {
      ValueSnoc([], DigitChar(n));
      assert [] + [DigitChar(n)] == [DigitChar(n)];
    } else {
      ValueOfToString(n / 10);
      ValueSnoc(ToString(n / 10), DigitChar(n % 10));
    }
  }

  lemma {:induction false} LengthOfToString(n: nat, k: nat)
    requires k >= 1
    ensures |ToString(n)| <= k <==> n < Pow10(k)
    decreases k
  {
    if k == 1 {
      assert Pow10(1) == 10 * Pow10(0) == 10;
      if n >= 10 {
        assert |ToString(n / 10)| >= 1;
      }
    } else if n >= 10 {
      LengthOfToString(n / 10, k - 1);
    } else {
      assert Pow10(k) == 10 * Pow10(k - 1);
    }
  }

  lemma {:induction false} ValueOfZeros(k: nat, s: string)
    requires AllDigits(s)
    ensures AllDigits(Zeros(k) + s) && ValueOf(Zeros(k) + s) == ValueOf(s)
    decreases |s|, k
  {
    if s == [] {
      assert Zeros(k) + s == Zeros(k);
      if k > 0 {
        ValueOfZeros(k - 1, []);
        assert Zeros(k - 1) + [] == Zeros(k - 1);
        ValueSnoc(Zeros(k - 1), '0');
        assert Zeros(k) == Zeros(k - 1) + ['0'];
      }
    } else {
      var t, c := s[..|s| - 1], s[|s| - 1];
      ValueOfZeros(k, t);
      ValueSnoc(Zeros(k) + t, c);
      assert Zeros(k) + s == Zeros(k) + t + [c];
    }
  }

  lemma {:induction false} ValueBound(s: string)
    requires AllDigits(s)
    ensures ValueOf(s) < Pow10(|s|)
  {
    if s != [] {
      ValueBound(s[..|s| - 1]);
    }
  }

  lemma {:induction false} ValueConcat(s: string, t: string)
    requires AllDigits(s) && AllDigits(t)
    ensures AllDigits(s + t) && ValueOf(s + t) == ValueOf(s) * Pow10(|t|) + ValueOf(t)
  {
    hide DigitValue;
    if t == "" {
      assert s + t == s;
    } else {
      var u, c := t[..|t| - 1], t[|t| - 1];
      ValueConcat(s, u);
      ValueSnoc(s + u, c);
      assert s + t == s + u + [c];
      Tenfold(ValueOf(s), Pow10(|u|), ValueOf(u));
    }
  }

  lemma Tenfold(a: nat, p: nat, b: nat)
    ensures 10 * (a * p + b) == a * (10 * p) + 10 * b
  {
  }
}
