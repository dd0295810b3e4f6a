/** What the duel arithmetic needs of log2: it turns products into sums and is strictly increasing. */
module Logarithm {

  ghost predicate Additive(L: real -> real, x: real, y: real) {
    x > 0.0 && y > 0.0 ==> L(x * y) == L(x) + L(y)
  }

  ghost predicate Rising(L: real -> real, x: real, y: real) {
    0.0 < x < y ==> L(x) < L(y)
  }

  ghost predicate IsLog(L: real -> real) {
    && (forall x, y {:trigger Additive(L, x, y)} :: Additive(L, x, y))
    && (forall x, y {:trigger Rising(L, x, y)} :: Rising(L, x, y))
  }

  function Power(b: nat, n: nat): nat {
    if n == 0 then 1 else b * Power(b, n - 1)
  }

  lemma LogOfOne(L: real -> real)
    requires IsLog(L)
    ensures L(1.0) == 0.0
  {
    assert Additive(L, 1.0, 1.0);
  }

  lemma LogOfProduct(L: real -> real, x: nat, y: nat)
    requires IsLog(L) && x > 0 && y > 0
    ensures x * y > 0 && L((x * y) as real) == L(x as real) + L(y as real)
  {
    var a, b := x as real, y as real;
    assert x * y > 0 && (x * y) as real == a * b;
    assert Additive(L, a, b);
  }

  lemma LogIsMonotone(L: real -> real, x: real, y: real)
    requires IsLog(L) && 0.0 < x <= y
    ensures L(x) <= L(y)
  {
    assert Rising(L, x, y);
  }

  lemma LogComparesNumbers(L: real -> real, x: nat, y: nat)
    requires IsLog(L) && x > 0 && y > 0
    ensures L(x as real) > L(y as real) <==> x > y
  {
    assert Rising(L, x as real, y as real) && Rising(L, y as real, x as real);
  }

  lemma LogIsNonNegative(L: real -> real, x: real)
    requires IsLog(L) && 1.0 <= x
    ensures L(x) >= 0.0
  {
    LogOfOne(L);
    LogIsMonotone(L, 1.0, x);
  }

  lemma {:induction false} LogOfPower(L: real -> real, b: nat, n: nat)
    requires IsLog(L) && b > 0
    ensures Power(b, n) > 0 && L(Power(b, n) as real) == n as real * L(b as real)
  {
    if n == 0 {
      LogOfOne(L);
    } else {
      LogOfPower(L, b, n - 1);
      LogOfProduct(L, b, Power(b, n - 1));
      assert (n - 1) as real * L(b as real) + L(b as real) == n as real * L(b as real);
    }
  }
}
