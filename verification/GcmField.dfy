/** The block product of section 6.3 of NIST SP 800-38D on bit strings, and that it is a commutative product. */
module GcmField {
  /** 128 bits, the first one being the coefficient of 1. */
  type Block = s: seq<bool> | |s| == 128 witness NoBits()

  function NoBits(): (s: seq<bool>)
    ensures |s| == 128 && forall i :: 0 <= i < 128 ==> !s[i]
  {
    seq(128, i => false)
  }

  const ZERO: Block := NoBits()

  function Xor(a: Block, b: Block): (r: Block)
  {
    seq(128, i requires 0 <= i < 128 => a[i] != b[i])
  }

  /** The bits of the reduction constant 11100001 || 0^120. */
  predicate Tap(i: nat) { i == 0 || i == 1 || i == 2 || i == 7 }

  /** Times x: one place to the right, and the reduction constant when a one falls out. */
  function Shift(v: Block): (r: Block)
  {
    seq(128, i requires 0 <= i < 128 => (i > 0 && v[i - 1]) != (v[127] && Tap(i)))
  }

  /** v times x^n. */
  function ShiftBy(v: Block, n: nat): Block
  {
    if n == 0 then v else Shift(ShiftBy(v, n - 1))
  }

  function When(b: bool, v: Block): Block { if b then v else ZERO }

  /** The sum of x_i y x^i over the first n bits of x. */
  function MulTo(x: Block, y: Block, n: nat): Block
    requires n <= 128
  {
    if n == 0 then ZERO else Xor(MulTo(x, y, n - 1), When(x[n - 1], ShiftBy(y, n - 1)))
  }

  function Mul(x: Block, y: Block): Block { MulTo(x, y, 128) }

  // ----- addition

  lemma XorLaws(a: Block, b: Block, c: Block)
    ensures Xor(a, b) == Xor(b, a) && Xor(Xor(a, b), c) == Xor(a, Xor(b, c))
    ensures Xor(a, ZERO) == a && Xor(ZERO, a) == a && Xor(a, a) == ZERO
  {
  }

  lemma XorPairs(a: Block, b: Block, c: Block, d: Block)
    ensures Xor(Xor(a, b), Xor(c, d)) == Xor(Xor(a, c), Xor(b, d))
  {
  }

  // ----- linearity

  lemma ShiftXor(a: Block, b: Block)
    ensures Shift(Xor(a, b)) == Xor(Shift(a), Shift(b))
    ensures Shift(ZERO) == ZERO
  {
  }

  lemma {:induction false} ShiftByXor(a: Block, b: Block, n: nat)
    ensures ShiftBy(Xor(a, b), n) == Xor(ShiftBy(a, n), ShiftBy(b, n))
    ensures ShiftBy(ZERO, n) == ZERO
  {
    hide Shift, Xor;
    if n > 0 {
      ShiftByXor(a, b, n - 1);
      ShiftXor(ShiftBy(a, n - 1), ShiftBy(b, n - 1));
    }
  }

  lemma WhenXor(a: bool, b: bool, v: Block, w: Block)
    ensures When(a != b, v) == Xor(When(a, v), When(b, v))
    ensures When(a, Xor(v, w)) == Xor(When(a, v), When(a, w))
  {
    XorLaws(v, v, v);
    XorLaws(v, ZERO, ZERO);
  }

  lemma {:induction false} MulToLeft(a: Block, b: Block, y: Block, n: nat)
    requires n <= 128
    ensures MulTo(Xor(a, b), y, n) == Xor(MulTo(a, y, n), MulTo(b, y, n))
  {
    if n == 0 {
      XorLaws(ZERO, ZERO, ZERO);
    } else {
      MulToLeft(a, b, y, n - 1);
      var s := ShiftBy(y, n - 1);
      assert Xor(a, b)[n - 1] == (a[n - 1] != b[n - 1]);
      hide Xor, ShiftBy;
      WhenXor(a[n - 1], b[n - 1], s, s);
      XorPairs(MulTo(a, y, n - 1), MulTo(b, y, n - 1), When(a[n - 1], s), When(b[n - 1], s));
    }
  }

  lemma {:induction false} MulToRight(x: Block, a: Block, b: Block, n: nat)
    requires n <= 128
    ensures MulTo(x, Xor(a, b), n) == Xor(MulTo(x, a, n), MulTo(x, b, n))
  {
    hide Xor, ShiftBy;
    if n == 0 {
      XorLaws(ZERO, ZERO, ZERO);
    } else {
      MulToRight(x, a, b, n - 1);
      var s, t := ShiftBy(a, n - 1), ShiftBy(b, n - 1);
      ShiftByXor(a, b, n - 1);
      WhenXor(x[n - 1], x[n - 1], s, t);
      XorPairs(MulTo(x, a, n - 1), MulTo(x, b, n - 1), When(x[n - 1], s), When(x[n - 1], t));
    }
  }

  /** The product distributes over addition on both sides. */
  lemma MulXor(a: Block, b: Block, y: Block)
    ensures Mul(Xor(a, b), y) == Xor(Mul(a, y), Mul(b, y))
    ensures Mul(y, Xor(a, b)) == Xor(Mul(y, a), Mul(y, b))
  {
    MulToLeft(a, b, y, 128);
    MulToRight(y, a, b, 128);
  }

  lemma {:induction false} MulToZero(y: Block, n: nat)
    requires n <= 128
    ensures MulTo(ZERO, y, n) == ZERO && MulTo(y, ZERO, n) == ZERO
  {
    if n > 0 {
      MulToZero(y, n - 1);
      ShiftByXor(ZERO, ZERO, n - 1);
      XorLaws(ZERO, ZERO, ZERO);
    }
  }

  // ----- powers of x

  /** x^j, for j below 128. */
  function Unit(j: nat): Block
    requires j < 128
  {
    seq(128, i requires 0 <= i < 128 => i == j)
  }

  lemma {:induction false} ShiftAdd(v: Block, m: nat, n: nat)
    ensures ShiftBy(ShiftBy(v, n), m) == ShiftBy(v, m + n)
  {
    if m > 0 {
      ShiftAdd(v, m - 1, n);
    }
  }

  lemma {:induction false} UnitIsPower(j: nat)
    requires j < 128
    ensures ShiftBy(Unit(0), j) == Unit(j)
  {
    if j > 0 {
      UnitIsPower(j - 1);
      assert Shift(Unit(j - 1)) == Unit(j);
    }
  }

  /** The first n bits of y, as a sum of powers of x. */
  function Part(y: Block, n: nat): Block
    requires n <= 128
  {
    seq(128, i requires 0 <= i < 128 => i < n && y[i])
  }

  lemma PartNext(y: Block, n: nat)
    requires n < 128
    ensures Part(y, n + 1) == Xor(Part(y, n), When(y[n], Unit(n)))
  {
  }

  lemma PartEnds(y: Block)
    ensures Part(y, 0) == ZERO && Part(y, 128) == y
  {
  }

  // ----- commutativity

  lemma {:induction false} MulUnitTo(y: Block, i: nat, n: nat)
    requires i < 128 && n <= 128
    ensures MulTo(Unit(i), y, n) == if i < n then ShiftBy(y, i) else ZERO
  {
    if n > 0 {
      MulUnitTo(y, i, n - 1);
      XorLaws(ShiftBy(y, i), ShiftBy(y, n - 1), ZERO);
      XorLaws(ZERO, ZERO, ZERO);
    }
  }

  /** x^i times y is y shifted i times. */
  lemma MulUnit(y: Block, i: nat)
    requires i < 128
    ensures Mul(Unit(i), y) == ShiftBy(y, i)
  {
    MulUnitTo(y, i, 128);
  }

  /** y times x^i is y shifted i times as well: one power of y at a time. */
  lemma {:induction false} MulByUnit(y: Block, i: nat, n: nat)
    requires i < 128 && n <= 128
    ensures Mul(Part(y, n), Unit(i)) == ShiftBy(Part(y, n), i)
  {
    hide Xor, Unit, Part, ShiftBy, MulTo;
    if n == 0 {
      PartEnds(y);
      MulToZero(Unit(i), 128);
      ShiftByXor(ZERO, ZERO, i);
    } else {
      MulByUnit(y, i, n - 1);
      PartNext(y, n - 1);
      var p, u := Part(y, n - 1), When(y[n - 1], Unit(n - 1));
      MulXor(p, u, Unit(i));
      ShiftByXor(p, u, i);
      OneByOne(y[n - 1], n - 1, i);
    }
  }

  /** x^j x^i, either way round. */
  lemma OneByOne(b: bool, j: nat, i: nat)
    requires i < 128 && j < 128
    ensures Mul(When(b, Unit(j)), Unit(i)) == ShiftBy(When(b, Unit(j)), i)
  {
    hide Xor, Unit, ShiftBy, MulTo;
    if b {
      MulUnit(Unit(i), j);
      UnitIsPower(i);
      UnitIsPower(j);
      ShiftAdd(Unit(0), j, i);
      ShiftAdd(Unit(0), i, j);
    } else {
      MulToZero(Unit(i), 128);
      ShiftByXor(ZERO, ZERO, i);
    }
  }

  lemma {:induction false} MulCommutesTo(x: Block, y: Block, n: nat)
    requires n <= 128
    ensures Mul(Part(x, n), y) == Mul(y, Part(x, n))
  {
    hide Xor, Unit, Part, ShiftBy, MulTo;
    if n == 0 {
      PartEnds(x);
      MulToZero(y, 128);
    } else {
      MulCommutesTo(x, y, n - 1);
      PartNext(x, n - 1);
      var p, u := Part(x, n - 1), When(x[n - 1], Unit(n - 1));
      MulXor(p, u, y);
      if x[n - 1] {
        MulUnit(y, n - 1);
        PartEnds(y);
        MulByUnit(y, n - 1, 128);
      } else {
        MulToZero(y, 128);
      }
    }
  }

  lemma MulCommutes(x: Block, y: Block)
    ensures Mul(x, y) == Mul(y, x)
  {
    PartEnds(x);
    MulCommutesTo(x, y, 128);
  }

  // ----- associativity

  lemma {:induction false} ShiftMul(x: Block, y: Block, n: nat)
    ensures ShiftBy(Mul(x, y), n) == Mul(ShiftBy(x, n), y)
  {
    hide Xor, Unit, Part, Shift, MulTo;
    if n > 0 {
      ShiftMul(x, y, n - 1);
      ShiftMulOne(ShiftBy(x, n - 1), y);
    }
  }

  /** x (a y) = (x a) y for the single power x. */
  lemma ShiftMulOne(a: Block, y: Block)
    ensures Shift(Mul(a, y)) == Mul(Shift(a), y)
  {
    PartEnds(a);
    ShiftMulTo(a, y, 128);
  }

  lemma {:induction false} ShiftMulTo(a: Block, y: Block, n: nat)
    requires n <= 128
    ensures Shift(Mul(Part(a, n), y)) == Mul(Shift(Part(a, n)), y)
  {
    hide Xor, Unit, Part, Shift, MulTo;
    if n == 0 {
      PartEnds(a);
      MulToZero(y, 128);
      ShiftXor(ZERO, ZERO);
    } else {
      ShiftMulTo(a, y, n - 1);
      PartNext(a, n - 1);
      var p, u := Part(a, n - 1), When(a[n - 1], Unit(n - 1));
      MulXor(p, u, y);
      ShiftXor(Mul(p, y), Mul(u, y));
      ShiftXor(p, u);
      MulXor(Shift(p), Shift(u), y);
      if a[n - 1] {
        ShiftUnitMul(y, n - 1);
      } else {
        MulToZero(y, 128);
        ShiftXor(ZERO, ZERO);
      }
    }
  }

  lemma ShiftUnitMul(y: Block, j: nat)
    requires j < 128
    ensures Shift(Mul(Unit(j), y)) == Mul(Shift(Unit(j)), y)
  {
    hide Xor, Unit, Part, Shift, MulTo;
    MulUnit(y, j);
    MulCommutes(Shift(Unit(j)), y);
    UnitIsPower(j);
    PartEnds(y);
    MulByShift(y, j);
  }

  /** y (x x^j) = x (y x^j). */
  lemma MulByShift(y: Block, j: nat)
    requires j < 128
    ensures Mul(y, Shift(Unit(j))) == ShiftBy(y, j + 1)
  {
    hide Xor, Unit, Part, MulTo, Shift;
    PartEnds(y);
    MulByShiftTo(y, j, 128);
  }

  lemma {:induction false} MulByShiftTo(y: Block, j: nat, n: nat)
    requires j < 128 && n <= 128
    ensures Mul(Part(y, n), Shift(Unit(j))) == ShiftBy(Part(y, n), j + 1)
  {
    hide Xor, Unit, Part, ShiftBy, MulTo, Shift;
    if n == 0 {
      PartEnds(y);
      MulToZero(Shift(Unit(j)), 128);
      ShiftByXor(ZERO, ZERO, j + 1);
    } else {
      MulByShiftTo(y, j, n - 1);
      PartNext(y, n - 1);
      var p, u := Part(y, n - 1), When(y[n - 1], Unit(n - 1));
      MulXor(p, u, Shift(Unit(j)));
      ShiftByXor(p, u, j + 1);
      if y[n - 1] {
        MulUnit(Shift(Unit(j)), n - 1);
        UnitIsPower(j);
        UnitIsPower(n - 1);
        PowerStep(j);
        ShiftAdd(Unit(0), n - 1, j + 1);
        ShiftAdd(Unit(0), j + 1, n - 1);
      } else {
        MulToZero(Shift(Unit(j)), 128);
        ShiftByXor(ZERO, ZERO, j + 1);
      }
    }
  }

  lemma PowerStep(j: nat)
    ensures Shift(ShiftBy(Unit(0), j)) == ShiftBy(Unit(0), j + 1)
  {
  }

  lemma {:induction false} MulAssocTo(x: Block, y: Block, z: Block, n: nat)
    requires n <= 128
    ensures Mul(Mul(Part(x, n), y), z) == Mul(Part(x, n), Mul(y, z))
  {
    hide Xor, Unit, Part, ShiftBy, MulTo, Shift;
    if n == 0 {
      PartEnds(x);
      MulToZero(y, 128);
      MulToZero(z, 128);
      MulToZero(Mul(y, z), 128);
    } else {
      MulAssocTo(x, y, z, n - 1);
      PartNext(x, n - 1);
      var p, u := Part(x, n - 1), When(x[n - 1], Unit(n - 1));
      MulXor(p, u, y);
      MulXor(Mul(p, y), Mul(u, y), z);
      MulXor(p, u, Mul(y, z));
      if x[n - 1] {
        MulUnit(y, n - 1);
        MulUnit(Mul(y, z), n - 1);
        ShiftMul(y, z, n - 1);
      } else {
        MulToZero(y, 128);
        MulToZero(z, 128);
        MulToZero(Mul(y, z), 128);
      }
    }
  }

  lemma MulAssociates(x: Block, y: Block, z: Block)
    ensures Mul(Mul(x, y), z) == Mul(x, Mul(y, z))
  {
    PartEnds(x);
    MulAssocTo(x, y, z, 128);
  }

  /** The block that starts with a one is the identity. */
  lemma MulIdentity(y: Block)
    ensures Mul(Unit(0), y) == y && Mul(y, Unit(0)) == y
  {
    MulUnit(y, 0);
    MulCommutes(Unit(0), y);
  }

  // ----- the field

  /** Powers of x multiply by adding their exponents. */
  lemma PowersMultiply(i: nat, j: nat)
    requires i + j < 128
    ensures Mul(Unit(i), Unit(j)) == Unit(i + j)
  {
    hide Xor, Unit, MulTo;
    MulUnit(Unit(j), i);
    UnitIsPower(j);
    UnitIsPower(i + j);
    ShiftAdd(Unit(0), i, j);
  }

  /** And x^128 is x^7 + x^2 + x + 1. */
  lemma Reduction()
    ensures Mul(Unit(1), Unit(127)) == Xor(Xor(Unit(7), Unit(2)), Xor(Unit(1), Unit(0)))
  {
    MulUnit(Unit(127), 1);
    assert ShiftBy(Unit(127), 1) == Shift(ShiftBy(Unit(127), 0)) == Shift(Unit(127));
    ReductionBits();
  }

  lemma ReductionBits()
    ensures Shift(Unit(127)) == Xor(Xor(Unit(7), Unit(2)), Xor(Unit(1), Unit(0)))
  {
    var a, b := Shift(Unit(127)), Xor(Xor(Unit(7), Unit(2)), Xor(Unit(1), Unit(0)));
    forall i | 0 <= i < 128
      ensures a[i] == b[i]
    {
    }
  }
}
