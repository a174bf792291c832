/** Multiples of a unit, by repeated addition: the sizes of equal objects laid side by side. */
module Scaling {

  function Scaled(unit: int, k: nat): int { if k == 0 then 0 else unit + Scaled(unit, k - 1) }

  lemma {:induction false} ScaledIsProduct(unit: int, k: nat)
    ensures Scaled(unit, k) == unit * k
  {
    if k > 0 { ScaledIsProduct(unit, k - 1); }
  }

  lemma {:induction false} ScaledNonNegative(unit: int, k: nat)
    requires unit >= 0
    ensures Scaled(unit, k) >= 0
  {
    if k > 0 { ScaledNonNegative(unit, k - 1); }
  }

  lemma {:induction false} ScaledAdd(unit: int, a: nat, b: nat)
    ensures Scaled(unit, a + b) == Scaled(unit, a) + Scaled(unit, b)
  {
    if a > 0 { ScaledAdd(unit, a - 1, b); }
  }

  lemma {:induction false} ScaledSub(unit: int, a: int, b: nat)
    requires 0 <= a - b
    ensures Scaled(unit, a - b) == Scaled(unit, a) - Scaled(unit, b)
  {
    ScaledAdd(unit, a - b, b);
  }

  /** Different multiples of a unit are at least a unit apart. */
  lemma {:induction false} ScaledOrder(unit: nat, a: nat, b: nat)
    requires a < b
    ensures Scaled(unit, a) + unit <= Scaled(unit, b)
  {
    ScaledAdd(unit, a + 1, b - a - 1);
    ScaledNonNegative(unit, b - a - 1);
  }

  /** Positions below `count` units fall into exactly one unit. */
  lemma {:induction false} UnitOf(x: nat, unit: nat, count: nat) returns (a: nat)
    requires x < Scaled(unit, count)
    ensures a < count && Scaled(unit, a) <= x < Scaled(unit, a) + unit
    ensures forall b: nat :: Scaled(unit, b) <= x < Scaled(unit, b) + unit ==> b == a
  {
    if x < Scaled(unit, count - 1) {
      a := UnitOf(x, unit, count - 1);
    } else {
      a := count - 1;
      forall b: nat | Scaled(unit, b) <= x < Scaled(unit, b) + unit ensures b == a {
        if b < a { ScaledOrder(unit, b, a); } else if a < b { ScaledOrder(unit, a, b); }
      }
    }
  }
}
