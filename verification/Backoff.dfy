/** Exponential growth under a cap, over the reals. */
module ExponentialBackoff {
  function Times(a: real, b: real): real {
    a * b
  }

  function Power(x: real, k: nat): real {
    if k == 0 then 1.0 else Times(x, Power(x, k - 1))
  }

  function MinReal(a: real, b: real): real {
    if a < b then a else b
  }

  lemma GrowsBy(x: real, factor: real)
    requires factor >= 1.0 && x >= 0.0
    ensures Times(x, factor) >= x
  {
    assert x * factor == x + x * (factor - 1.0);
  }

  lemma Reassociate(base: real, factor: real, p: real)
    ensures Times(Times(base, p), factor) == Times(base, Times(factor, p))
  {
  }

  /** One more growth step after a capped or uncapped one. */
  lemma GrowStep(b: real, p: real, factor: real, maximum: real)
    requires factor >= 1.0 && maximum >= 0.0
    requires b == MinReal(p, maximum)
    ensures MinReal(Times(b, factor), maximum) == MinReal(Times(p, factor), maximum)
  {
    if p >= maximum {
      GrowsBy(maximum, factor);
      GrowsBy(p, factor);
    }
  }

  lemma {:induction false} PowerPositive(x: real, k: nat)
    requires x > 0.0
    ensures Power(x, k) > 0.0
  {
    if k > 0 {
      PowerPositive(x, k - 1);
      assert x * Power(x, k - 1) > 0.0;
    }
  }
}
