/** ASCII decimal digits and the exact numbers strings of them denote. */
module Digits {

  /** `\d`, restricted to the ASCII digits. */
  predicate IsDigit(c: char)
  {
    '0' <= c <= '9'
  }

  predicate AllDigits(s: string)
  {
    forall i :: 0 <= i < |s| ==> IsDigit(s[i])
  }

  function DigitValue(c: char): (d: nat)
    requires IsDigit(c)
    ensures d < 10
  {
    (c as int) - ('0' as int)
  }

  function Pow10(n: nat): (p: nat)
    ensures p > 0
  {
    if n == 0 then 1 else 10 * Pow10(n - 1)
  }

  /** The natural number a string of digits denotes, read left to right. */
  function Numeral(ds: string): nat
    requires AllDigits(ds)
    decreases |ds|
  {
    if ds == [] then 0 else Numeral(ds[..|ds| - 1]) * 10 + DigitValue(ds[|ds| - 1])
  }

  /** The value of fraction digits read positionally: `0.d1 d2 ...`. */
  function FracValue(ds: string): (f: real)
    requires AllDigits(ds)
    ensures 0.0 <= f < 1.0
    decreases |ds|
  {
    if ds == [] then 0.0 else (DigitValue(ds[0]) as real + FracValue(ds[1..])) / 10.0
  }

  lemma AllDigitsConcat(a: string, b: string)
    requires AllDigits(a) && AllDigits(b)
    ensures AllDigits(a + b)
  {
    forall i | 0 <= i < |a + b| ensures IsDigit((a + b)[i]) {
      if i < |a| { assert (a + b)[i] == a[i]; } else { assert (a + b)[i] == b[i - |a|]; }
    }
  }

  lemma ShiftStep(x: int, q: int, y: int, d: int)
    ensures (x * q + y) * 10 + d == x * (10 * q) + (y * 10 + d)
  {
  }

  /** Digits written after a numeral shift it left by their count. */
  lemma {:induction false} NumeralAppend(a: string, b: string)
    requires AllDigits(a) && AllDigits(b)
    ensures AllDigits(a + b)
    ensures Numeral(a + b) == Numeral(a) * Pow10(|b|) + Numeral(b)
    decreases |b|
  {
    AllDigitsConcat(a, b);
    if b == [] {
      assert a + b == a;
    } else {
      var b' := b[..|b| - 1];
      var d := DigitValue(b[|b| - 1]);
      assert (a + b)[..|a + b| - 1] == a + b';
      assert (a + b)[|a + b| - 1] == b[|b| - 1];
      NumeralAppend(a, b');
      ShiftStep(Numeral(a), Pow10(|b'|), Numeral(b'), d);
    }
  }

  /** One step of the positional reading, as arithmetic on the numbers involved. */
  lemma FracStep(d: nat, p: nat, rest: nat, whole: nat, restFrac: real)
    requires p > 0 && whole == d * p + rest
    requires restFrac == rest as real / p as real
    ensures (d as real + restFrac) / 10.0 == whole as real / (10 * p) as real
  {
    var dr, pr, nr := d as real, p as real, rest as real;
    assert whole as real == dr * pr + nr;
    assert (10 * p) as real == 10.0 * pr;
    assert dr + nr / pr == (dr * pr + nr) / pr;
  }

  /** The split of a scaled numeral, as arithmetic on the numbers involved. */
  lemma SplitStep(i: nat, f: nat, p: nat, whole: nat)
    requires p > 0 && whole == i * p + f
    ensures whole as real / p as real == i as real + f as real / p as real
  {
    var ir, fr, pr := i as real, f as real, p as real;
    assert whole as real == ir * pr + fr;
  }

  /** Reading fraction digits positionally is reading them as one numeral and
      scaling it down by their count. */
  lemma {:induction false} FracValueIsScaledNumeral(ds: string)
    requires AllDigits(ds)
    ensures FracValue(ds) == Numeral(ds) as real / Pow10(|ds|) as real
    decreases |ds|
  {
    if ds != [] {
      var rest := ds[1..];
      var d := DigitValue(ds[0]);
      FracValueIsScaledNumeral(rest);
      assert [ds[0]] + rest == ds;
      NumeralAppend([ds[0]], rest);
      assert Numeral([ds[0]]) == d by { assert [ds[0]][..0] == []; }
      FracStep(d, Pow10(|rest|), Numeral(rest), Numeral(ds), FracValue(rest));
    }
  }

  /** A numeral with a decimal point: reading all the digits as one numeral
      and scaling by the count of fraction digits gives the integer part plus
      the positional fraction. */
  lemma {:induction false} ScaledNumeralSplits(i: string, f: string)
    requires AllDigits(i) && AllDigits(f)
    ensures AllDigits(i + f)
    ensures Numeral(i + f) as real / Pow10(|f|) as real == Numeral(i) as real + FracValue(f)
  {
    NumeralAppend(i, f);
    FracValueIsScaledNumeral(f);
    SplitStep(Numeral(i), Numeral(f), Pow10(|f|), Numeral(i + f));
  }
}
