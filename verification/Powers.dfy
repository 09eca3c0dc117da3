/** Natural powers. */
module NaturalPowers {
  function Pow(base: nat, exponent: nat): nat {
    if exponent == 0 then 1 else base * Pow(base, exponent - 1)
  }

  lemma {:induction false} PowPositive(base: nat, exponent: nat)
    requires base >= 1
    ensures Pow(base, exponent) >= 1
  {
    if exponent > 0 {
      PowPositive(base, exponent - 1);
      ProductMonotone(1, base, 1, Pow(base, exponent - 1));
    }
  }

  lemma {:induction false} PowAtLeastBase(base: nat, exponent: nat)
    requires base >= 1 && exponent >= 1
    ensures Pow(base, exponent) >= base
  {
    PowPositive(base, exponent - 1);
    ProductMonotone(base, base, 1, Pow(base, exponent - 1));
  }

  lemma ProductMonotone(a: nat, b: nat, x: nat, y: nat)
    requires a <= b && x <= y
    ensures a * x <= b * y
  {
    assert a * x <= a * y <= b * y;
  }

  lemma {:induction false} PowMonotone(a: nat, b: nat, exponent: nat)
    requires a <= b
    ensures Pow(a, exponent) <= Pow(b, exponent)
  {
    if exponent > 0 {
      PowMonotone(a, b, exponent - 1);
      ProductMonotone(a, b, Pow(a, exponent - 1), Pow(b, exponent - 1));
    }
  }

  lemma PowGrowsWithExponent(base: nat, exponent: nat)
    requires base >= 1
    ensures Pow(base, exponent) <= Pow(base, exponent + 1)
  {
    ProductMonotone(1, base, Pow(base, exponent), Pow(base, exponent));
  }

  lemma {:induction false} StrictlyLargerBase(base: nat, exponent: nat)
    requires exponent >= 1
    ensures Pow(base + 1, exponent) > Pow(base, exponent)
  {
    PowMonotone(base, base + 1, exponent - 1);
    PowPositive(base + 1, exponent - 1);
    var large := Pow(base + 1, exponent - 1);
    ProductMonotone(base, base, Pow(base, exponent - 1), large);
    assert (base + 1) * large == base * large + large;
  }
}
