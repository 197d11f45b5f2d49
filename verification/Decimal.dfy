/** Decimal notation of integers of any size, as printed and parsed by the big-integer library. */
module Decimal {

  predicate Digit(d: int) { 0 <= d < 10 }

  /** The digits of a number, most significant first, without leading zeros. */
  function Digits(n: nat): (ds: seq<int>)
    ensures ds != [] && forall d :: d in ds ==> Digit(d)
    ensures ds[0] == 0 <==> n == 0
    ensures n == 0 ==> ds == [0]
  {
    if n < 10 then [n] else Digits(n / 10) + [n % 10]
  }

  function FromDigits(ds: seq<int>): int {
    if ds == [] then 0 else FromDigits(ds[..|ds| - 1]) * 10 + ds[|ds| - 1]
  }

  lemma {:induction false} DigitsRoundTrip(n: nat)
    ensures FromDigits(Digits(n)) == n
  {
    if n < 10 {
      assert Digits(n)[..0] == [];
    } else {
      DigitsRoundTrip(n / 10);
      var ds := Digits(n);
      assert ds[..|ds| - 1] == Digits(n / 10);
    }
  }
}
