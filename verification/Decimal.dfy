/** Decimal text of natural numbers: Python's `str` and `int` on ASCII digits. */
module Decimal {

  function Pow10(k: nat): (p: nat)
    ensures p >= 1
  {
    if k == 0 then 1 else 10 * Pow10(k - 1)
  }

  predicate IsDigit(c: char) {
    '0' <= c <= '9'
  }

  predicate AllDigits(s: string) {
    forall i :: 0 <= i < |s| ==> IsDigit(s[i])
  }

  function DigitChar(d: nat): (c: char)
    requires d < 10
    ensures IsDigit(c) && DigitValue(c) == d
  {
    '0' + d as char
  }

  function DigitValue(c: char): (d: nat)
    requires IsDigit(c)
    ensures d < 10
  {
    c as int - '0' as int
  }

  /** `str(n)`. */
  function Text(n: nat): (s: string)
    ensures s != "" && AllDigits(s)
  {
    if n < 10 then [DigitChar(n)] else Text(n / 10) + [DigitChar(n % 10)]
  }

  /** `int(s)`; like Python's, it accepts leading zeros. */
  function Value(s: string): nat
    requires AllDigits(s)
  {
    if s == "" then 0 else 10 * Value(s[..|s| - 1]) + DigitValue(s[|s| - 1])
  }

  /** The `k` low decimal digits of `n`, padded with zeros on the left. */
  function LowDigits(n: nat, k: nat): (s: string)
    ensures |s| == k && AllDigits(s)
  {
    if k == 0 then "" else LowDigits(n / 10, k - 1) + [DigitChar(n % 10)]
  }

  function Repeated(c: char, k: nat): (s: string)
    ensures |s| == k && forall i :: 0 <= i < k ==> s[i] == c
  {
    if k == 0 then "" else Repeated(c, k - 1) + [c]
  }

  /** A text with no superfluous leading zero. */
  predicate Canonical(s: string) {
    s != "" && AllDigits(s) && (s[0] == '0' ==> |s| == 1)
  }

  // ---- str and int are inverse --------------------------------------------

  lemma {:induction false} ValueOfText(n: nat)
    ensures Value(Text(n)) == n
  {
    if n < 10 {
      assert Text(n)[..0] == "";
    } else {
      ValueOfText(n / 10);
      assert Text(n)[..|Text(n)| - 1] == Text(n / 10);
    }
  }

  lemma {:induction false} TextIsCanonical(n: nat)
    ensures Canonical(Text(n))
    ensures n > 0 ==> Text(n)[0] != '0'
  {
    if n >= 10 {
      TextIsCanonical(n / 10);
      assert Text(n)[0] == Text(n / 10)[0];
    }
  }

  lemma {:induction false} TextOfValue(s: string)
    requires Canonical(s)
    ensures Text(Value(s)) == s
  {
    var front, last := s[..|s| - 1], s[|s| - 1];
    if |s| == 1 {
      assert front == "";
    } else {
      TextOfValue(front);
      assert Text(0)[0] == '0';
      assert s == front + [last];
      var v := Value(s);
      assert v / 10 == Value(front) && v % 10 == DigitValue(last);
    }
  }

  // ---- splitting off the low digits -----------------------------------------

  /** `m` followed by `k` zeros. */
  function Scale(m: nat, k: nat): (r: nat)
    ensures r >= m
  {
    if k == 0 then m else 10 * Scale(m, k - 1)
  }

  /** `n` without its `k` low digits. */
  function Drop(n: nat, k: nat): (r: nat)
    ensures r <= n
  {
    if k == 0 then n else Drop(n / 10, k - 1)
  }

  lemma {:induction false} DropScale(n: nat, m: nat, k: nat)
    ensures Scale(m, k) <= n <==> m <= Drop(n, k)
  {
    if k > 0 {
      DropScale(n / 10, m, k - 1);
    }
  }

  lemma {:induction false} TextSplit(n: nat, k: nat)
    requires k == 0 || Drop(n, k) > 0
    ensures Text(n) == Text(Drop(n, k)) + LowDigits(n, k)
  {
    if k == 0 {
      assert Text(n) + "" == Text(n);
    } else {
      TextSplit(n / 10, k - 1);
      assert Text(n) == Text(n / 10) + [DigitChar(n % 10)];
    }
  }

  lemma {:induction false} DropOfValue(s: string, k: nat)
    requires AllDigits(s) && k <= |s|
    ensures Drop(Value(s), k) == Value(s[..|s| - k])
  {
    if k == 0 {
      assert s[..|s|] == s;
    } else {
      var front := s[..|s| - 1];
      DropOfValue(front, k - 1);
      assert front[..|front| - (k - 1)] == s[..|s| - k];
    }
  }

  lemma {:induction false} LowDigitsZeros(m: nat, k: nat)
    ensures LowDigits(Scale(m, k), k) == Repeated('0', k) && Drop(Scale(m, k), k) == m
  {
    if k > 0 {
      LowDigitsZeros(m, k - 1);
      assert DigitChar(0) == '0';
    }
  }

  lemma {:induction false} LowDigitsNines(m: nat, k: nat)
    ensures LowDigits(Scale(m + 1, k) - 1, k) == Repeated('9', k) && Drop(Scale(m + 1, k) - 1, k) == m
  {
    if k > 0 {
      LowDigitsNines(m, k - 1);
      var n := Scale(m + 1, k) - 1;
      assert n / 10 == Scale(m + 1, k - 1) - 1 && n % 10 == 9;
      assert DigitChar(9) == '9';
    }
  }

  /** The number of decimal digits of `n`, bounded by powers of ten. */
  lemma {:induction false} TextLength(n: nat)
    ensures n < Pow10(|Text(n)|)
    ensures n > 0 ==> Pow10(|Text(n)| - 1) <= n
  {
    if n < 10 {
      assert Pow10(1) == 10 * Pow10(0);
    } else {
      TextLength(n / 10);
      assert |Text(n)| == |Text(n / 10)| + 1;
    }
  }

  // ---- powers of ten -------------------------------------------------------------

  lemma {:induction false} Pow10Monotone(i: nat, j: nat)
    requires i <= j
    ensures Pow10(i) <= Pow10(j)
    ensures i < j ==> 10 * Pow10(i) <= Pow10(j)
    decreases j
  {
    if i < j {
      Pow10Monotone(i, j - 1);
    }
  }

  lemma {:induction false} Pow10Grows(k: nat)
    ensures Pow10(k) > k
  {
    if k > 0 {
      Pow10Grows(k - 1);
    }
  }
}
