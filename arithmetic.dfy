/** Natural-number helpers shared by the paginator and the decoder. */
module Arithmetic {

  /** std::min on counts. */
  function Min(a: nat, b: nat): nat
  {
    if a <= b then a else b
  }

  lemma MulAtLeast(k: int, d: int)
    requires k > 0 && d > 0
    ensures k * d >= k
  {
  }

  lemma DivStep(x: nat, k: nat)
    requires k > 0
    ensures (x + k) / k == x / k + 1
  {
    var y := x + k;
    var d := y / k - (x / k + 1);
    assert x == k * (x / k) + x % k;
    assert y == k * (y / k) + y % k;
    assert k * d == k * (y / k) - k * (x / k) - k;
    if d > 0 {
      MulAtLeast(k, d);
    } else if d < 0 {
      MulAtLeast(k, -d);
    }
  }

  lemma DivOne(x: nat, k: nat)
    requires k <= x < 2 * k
    ensures x / k == 1
  {
    DivStep(x - k, k);
  }
}
