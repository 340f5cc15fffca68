/** Decimal digits of natural numbers: the text Java's String.valueOf prints for a
    non-negative int, and the digits of a stored position. */
module Numerals {

  type Digit = d: int | 0 <= d < 10

  /** The decimal digits of n, most significant first, with no leading zero. */
  function Digits(n: nat): (ds: seq<Digit>)
    ensures 1 <= |ds|
    ensures |ds| > 1 ==> ds[0] != 0
    decreases n
  {
    if n < 10 then [n] else Digits(n / 10) + [n % 10]
  }

  /** The number a digit sequence denotes (most significant first). */
  function Value(ds: seq<Digit>): nat
    decreases |ds|
  {
    if ds == [] then 0 else 10 * Value(ds[..|ds| - 1]) + ds[|ds| - 1]
  }

  /** Reading back the digits of n gives n. */
  lemma {:induction false} ValueOfDigits(n: nat)
    ensures Value(Digits(n)) == n
    decreases n
  {
    if n >= 10 {
      var ds := Digits(n);
      assert ds[..|ds| - 1] == Digits(n / 10);
      ValueOfDigits(n / 10);
    }
  }

  function DigitChar(d: Digit): char
  {
    ('0' as int + d) as char
  }

  /** Java's String.valueOf(n) for a non-negative n. */
  function DecimalString(n: nat): string
  {
    var ds := Digits(n);
    seq(|ds|, i requires 0 <= i < |ds| => DigitChar(ds[i]))
  }

  /** Different numbers print differently, so a bucket name determines its bucket. */
  lemma DecimalStringInjective(a: nat, b: nat)
    requires DecimalString(a) == DecimalString(b)
    ensures a == b
  {
    var da, db := Digits(a), Digits(b);
    assert |da| == |DecimalString(a)| == |DecimalString(b)| == |db|;
    forall i | 0 <= i < |da|
      ensures da[i] == db[i]
    {
      assert DecimalString(a)[i] == DigitChar(da[i]);
      assert DecimalString(b)[i] == DigitChar(db[i]);
    }
    assert da == db;
    ValueOfDigits(a);
    ValueOfDigits(b);
  }
}
