/** Converting an amount in afghani to dollars with the current daily rate,
    as both car lists display it (`CarItem` in ManagementScreen.tsx and
    CarsCard.tsx). */
module Rates {

  /** `dollarRate > 0 ? total_tax / dollarRate : 0`: never divides by a
      non-positive rate; with a positive rate it is the exact inverse of
      multiplying by the rate. */
  function DollarAmount(totalTax: real, dollarRate: real): (r: real)
    ensures dollarRate > 0.0 ==> r * dollarRate == totalTax
    ensures dollarRate <= 0.0 ==> r == 0.0
  {
    if dollarRate > 0.0 then totalTax / dollarRate else 0.0
  }

  /** With a positive rate the conversion keeps the sign of the amount and
      grows with it. */
  lemma DollarAmountMonotone(a: real, b: real, dollarRate: real)
    requires dollarRate > 0.0 && a <= b
    ensures DollarAmount(a, dollarRate) <= DollarAmount(b, dollarRate)
    ensures a >= 0.0 ==> DollarAmount(a, dollarRate) >= 0.0
  {
    var x := DollarAmount(a, dollarRate);
    var y := DollarAmount(b, dollarRate);
    assert x * dollarRate <= y * dollarRate;
  }
}
