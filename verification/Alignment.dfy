/** Rounding sizes up with a bit mask, on unbounded two's-complement integers. */
module Alignment {
  import opened Basics

  /** Bitwise "not" and "and". Division by two rounds down, as an arithmetic shift does. */
  function Not(x: int): int { -x - 1 }

  function And(x: int, y: int): int
    decreases if x >= 0 then x else -x - 1
  {
    if x == 0 then 0
    else if x == -1 then y
    else 2 * And(x / 2, y / 2) + (x % 2) * (y % 2)
  }

  predicate IsPowerOfTwo(n: int) {
    n == 1 || (n > 1 && n % 2 == 0 && IsPowerOfTwo(n / 2))
  }

  type PowerOfTwo = n: int | n > 0 && IsPowerOfTwo(n) witness 1

  function ComputeAlignedSize(raw: int, align: int): int { And(raw + align - 1, Not(align - 1)) }

  /** The size actually reserved: the mask is applied only when it is needed. */
  function PhysicalSize(raw: int, align: int): int
    requires align > 0
  {
    if raw % align != 0 then ComputeAlignedSize(raw, align) else raw
  }

  /** `x` is a non-negative multiple of `d`. */
  ghost predicate Multiple(x: int, d: int)
    requires d > 0
    decreases if x < 0 then 0 else x
  {
    x == 0 || (x >= d && Multiple(x - d, d))
  }

  ghost predicate LeastMultiple(raw: int, align: int, r: int)
    requires align > 0
  {
    Multiple(r, align) && raw <= r < raw + align
  }

  lemma {:induction false} MultipleIsMod(x: int, d: int)
    requires d > 0
    ensures Multiple(x, d) <==> x >= 0 && x % d == 0
    decreases if x < 0 then 0 else x
  {
    if x >= d {
      MultipleIsMod(x - d, d);
      assert x == d * (x / d) + x % d && x - d == d * (x / d - 1) + x % d;
      DivModUnique(x - d, d, x / d - 1, x % d);
    }
  }

  lemma {:induction false} AndOnes(x: int)
    ensures And(x, -1) == x
    decreases if x >= 0 then x else -x - 1
  {
    if x != 0 && x != -1 { AndOnes(x / 2); }
  }

  lemma {:induction false} AndNot(x: int)
    ensures And(x, Not(x)) == 0
    decreases if x >= 0 then x else -x - 1
  {
    if x != 0 && x != -1 { AndNot(x / 2); assert Not(x) / 2 == Not(x / 2); }
  }

  lemma AndEven(x: int, h: int)
    requires x != -1
    ensures And(x, -(2 * h)) == 2 * And(x / 2, -h)
  {
    assert (-(2 * h)) / 2 == -h && (-(2 * h)) % 2 == 0;
  }

  lemma MaskStep(x: int, h: int, q: int, r: int)
    requires x / 2 == h * q + r && 0 <= r < h
    ensures x == 2 * h * q + (2 * r + x % 2) && 0 <= 2 * r + x % 2 < 2 * h
  {
    var p := h * q;
    assert 2 * h * q == 2 * p;
  }

  /** Masking with a power of two drops the remainder. */
  lemma {:induction false} AndMask(x: int, a: int) returns (q: int, r: int)
    requires IsPowerOfTwo(a)
    ensures x == a * q + r && 0 <= r < a
    ensures And(x, -a) == x - r
    decreases a
  {
    if a == 1 {
      AndOnes(x);
      q, r := x, 0;
    } else if x == -1 {
      q, r := -1, a - 1;
    } else {
      q, r := AndMask(x / 2, a / 2);
      MaskStep(x, a / 2, q, r);
      AndEven(x, a / 2);
      r := 2 * r + x % 2;
    }
  }

  lemma {:induction false} SelfMask(a: int)
    requires a > 0
    ensures And(a, -a) == a <==> IsPowerOfTwo(a)
    decreases a
  {
    if a % 2 == 0 {
      SelfMask(a / 2);
    } else {
      assert (-a) / 2 == Not(a / 2);
      AndNot(a / 2);
    }
  }

  /** The mask rounds up to the least multiple of the alignment. */
  lemma AlignedSizeIsLeast(raw: nat, align: int)
    requires IsPowerOfTwo(align)
    ensures LeastMultiple(raw, align, ComputeAlignedSize(raw, align))
  {
    var q, r := AndMask(raw + align - 1, align);
    DivModUnique(raw + align - 1 - r, align, q, 0);
    MultipleIsMod(raw + align - 1 - r, align);
  }

  /** The mask is right for every size exactly when the alignment is a power of two. */
  lemma MaskNeedsPowerOfTwo(align: int)
    requires align > 0
    ensures (forall raw: nat :: LeastMultiple(raw, align, ComputeAlignedSize(raw, align))) <==> IsPowerOfTwo(align)
  {
    if IsPowerOfTwo(align) {
      forall raw: nat ensures LeastMultiple(raw, align, ComputeAlignedSize(raw, align)) {
        AlignedSizeIsLeast(raw, align);
      }
    } else {
      SelfMask(align);
      assert ComputeAlignedSize(1, align) == And(align, -align);
      assert !LeastMultiple(1, align, ComputeAlignedSize(1, align));
    }
  }

  lemma PhysicalSizeIsLeast(raw: nat, align: int)
    requires IsPowerOfTwo(align)
    ensures LeastMultiple(raw, align, PhysicalSize(raw, align))
  {
    AlignedSizeIsLeast(raw, align);
    MultipleIsMod(raw, align);
  }

  lemma {:induction false} MultiplesAdd(a: int, b: int, d: int)
    requires d > 0 && Multiple(a, d) && Multiple(b, d)
    ensures Multiple(a + b, d)
    decreases if a < 0 then 0 else a
  {
    if a != 0 { MultiplesAdd(a - d, b, d); }
  }
}
