/** NIST P-256 in Jacobian coordinates: (X : Y : Z) is the affine point (X/Z^2, Y/Z^3), Z = 0 is infinity. */
module Jacobian {
  import opened Arith
  import opened Limbs
  import Fe25519
  import opened Edwards

  /** 2^256 - 2^224 + 2^192 + 2^96 - 1. */
  const Q: Modulus := (QLimbs(); Val(Q_LIMBS))

  /** b in y^2 = x^3 - 3x + b. */
  const CURVE_B: int := Val(B_LIMBS)

  const Q_LIMBS: seq<u32> := [
    0xffff_ffff, 0xffff_ffff, 0xffff_ffff, 0x0000_0000,
    0x0000_0000, 0x0000_0000, 0x0000_0001, 0xffff_ffff]
  const B_LIMBS: seq<u32> := [
    0x27d2_604b, 0x3bce_3c3e, 0xcc53_b0f6, 0x651d_06b0,
    0x7698_86bc, 0xb3eb_bd55, 0xaa3a_93e7, 0x5ac6_35d8]

  lemma QLimbs()
    ensures Val(Q_LIMBS) == 0xffff_ffff_0000_0001_0000_0000_0000_0000_0000_0000_ffff_ffff_ffff_ffff_ffff_ffff
  {
    Fe25519.Val8(Q_LIMBS);
    Fe25519.Weights();
  }

  lemma QIs()
    ensures Q == 0xffff_ffff_0000_0001_0000_0000_0000_0000_0000_0000_ffff_ffff_ffff_ffff_ffff_ffff
  {
    QLimbs();
  }

  lemma QOdd()
    ensures Q % 2 == 1
  {
    QIs();
  }

  lemma BIs()
    ensures CURVE_B == 0x5ac6_35d8_aa3a_93e7_b3eb_bd55_7698_86bc_651d_06b0_cc53_b0f6_3bce_3c3e_27d2_604b
  {
    Fe25519.Val8(B_LIMBS);
    Fe25519.Weights();
  }

  function QAdd(a: int, b: int): (r: int) ensures 0 <= r < Q { (a + b) % Q }
  function QSub(a: int, b: int): (r: int) ensures 0 <= r < Q { (a - b) % Q }
  function QMul(a: int, b: int): (r: int) ensures 0 <= r < Q { (a * b) % Q }

  ghost predicate Same(a: int, b: int) { Cong(a, b, Q) }

  lemma SameRefl(a: int)
    ensures Same(a, a)
  {
    CongRefl(a, Q);
  }

  lemma SameAdd(a: int, b: int, x: int, y: int)
    requires Same(a, x) && Same(b, y)
    ensures Same(QAdd(a, b), x + y) && Same(QSub(a, b), x - y) && Same(QMul(a, b), x * y)
  {
    CongMod(a + b, Q);
    CongMod(a - b, Q);
    CongMod(a * b, Q);
    hide Cong;
    CongAdd(a, x, b, y, Q);
    CongMul(a, x, b, y, Q);
    CongTrans(QAdd(a, b), a + b, x + y, Q);
    CongTrans(QSub(a, b), a - b, x - y, Q);
    CongTrans(QMul(a, b), a * b, x * y, Q);
  }

  lemma SameOps(a: int, b: int, x: int, y: int)
    requires Same(a, x) && Same(b, y)
    ensures Same(a + b, x + y) && Same(a - b, x - y) && Same(a * b, x * y)
  {
    hide Cong;
    CongAdd(a, x, b, y, Q);
    CongMul(a, x, b, y, Q);
  }

  lemma SameTrans(a: int, b: int, c: int)
    requires Same(a, b) && Same(b, c)
    ensures Same(a, c) && Same(c, a)
  {
    hide Cong;
    CongTrans(a, b, c, Q);
    CongSym(a, c, Q);
  }

  lemma SameZero(a: int, b: int)
    ensures Same(a, b) <==> Same(a - b, 0)
  {
    CongModZero(a, b, Q);
    CongModZero(a - b, 0, Q);
  }

  /** A multiple of zero is zero. */
  lemma SameNone(k: int, e: int)
    requires Same(e, 0)
    ensures Same(k * e, 0)
  {
    SameRefl(k);
    hide Same;
    SameOps(k, e, k, 0);
  }

  datatype Jac = Jac(x: int, y: int, z: int)

  const INFINITY := Jac(0, 0, 0)

  /** x^3 - 3 x z^4 + b z^6, with zz = z^2. */
  function Cubic(x: int, zz: int): int
  {
    (x * x) * x - 3 * (x * (zz * zz)) + CURVE_B * ((zz * zz) * zz)
  }

  ghost predicate OnCurve(p: Jac)
  {
    Same(p.z, 0) || Same(p.y * p.y, Cubic(p.x, p.z * p.z))
  }

  // ----- p256_point_double

  function Double(p: Jac): (r: Jac)
  {
    if p.z == 0 then INFINITY
    else
      var delta := QMul(p.z, p.z);
      var gamma := QMul(p.y, p.y);
      var beta := QMul(p.x, gamma);
      var a0 := QMul(QSub(p.x, delta), QAdd(p.x, delta));
      var alpha := QAdd(QAdd(a0, a0), a0);
      var b2 := QAdd(beta, beta);
      var b4 := QAdd(b2, b2);
      var x3 := QSub(QSub(QMul(alpha, alpha), b4), b4);
      var yz := QAdd(p.y, p.z);
      var z3 := QSub(QSub(QMul(yz, yz), gamma), delta);
      var g2 := QMul(gamma, gamma);
      var g4 := QAdd(g2, g2);
      var g8 := QAdd(g4, g4);
      var g16 := QAdd(g8, g8);
      Jac(x3, QSub(QMul(alpha, QSub(b4, x3)), g16), z3)
  }

  /** What doubling computes, as polynomials: alpha = 3(X^2 - Z^4), X' = alpha^2 - 8XY^2, Z' = 2YZ,
      Y' = alpha (4XY^2 - X') - 8Y^4. */
  lemma DoubleParts(p: Jac)
    requires p.z != 0
    ensures var d, g := p.z * p.z, p.y * p.y;
            var a := 3 * (p.x * p.x - d * d);
            var x3 := a * a - 8 * (p.x * g);
            var r := Double(p);
            Same(r.x, x3) && Same(r.z, 2 * (p.y * p.z)) && Same(r.y, a * (4 * (p.x * g) - x3) - 8 * (g * g))
  {
    hide Cong, QAdd, QSub, QMul, Same;
    var x, y, z := p.x, p.y, p.z;
    SameRefl(x);
    SameRefl(y);
    SameRefl(z);
    var d, g := z * z, y * y;
    var delta, gamma := QMul(z, z), QMul(y, y);
    SameAdd(z, z, z, z);
    SameAdd(y, y, y, y);
    var beta := QMul(x, gamma);
    SameAdd(x, gamma, x, g);
    SameAdd(x, delta, x, d);
    var a0 := QMul(QSub(x, delta), QAdd(x, delta));
    SameAdd(QSub(x, delta), QAdd(x, delta), x - d, x + d);
    var a0' := x * x - d * d;
    assert (x - d) * (x + d) == a0';
    SameAdd(a0, a0, a0', a0');
    SameAdd(QAdd(a0, a0), a0, 2 * a0', a0');
    var alpha, a := QAdd(QAdd(a0, a0), a0), 3 * a0';
    var b, b2 := x * g, QAdd(beta, beta);
    SameAdd(beta, beta, b, b);
    SameAdd(b2, b2, 2 * b, 2 * b);
    var b4 := QAdd(b2, b2);
    SameAdd(alpha, alpha, a, a);
    SameAdd(QMul(alpha, alpha), b4, a * a, 4 * b);
    SameAdd(QSub(QMul(alpha, alpha), b4), b4, a * a - 4 * b, 4 * b);
    DoubleZ(y, z, gamma, delta);
    var x3 := QSub(QSub(QMul(alpha, alpha), b4), b4);
    var g2 := QMul(gamma, gamma);
    SameAdd(gamma, gamma, g, g);
    SameAdd(g2, g2, g * g, g * g);
    var g4 := QAdd(g2, g2);
    SameAdd(g4, g4, 2 * (g * g), 2 * (g * g));
    var g8 := QAdd(g4, g4);
    SameAdd(g8, g8, 4 * (g * g), 4 * (g * g));
    SameAdd(b4, x3, 4 * b, a * a - 8 * b);
    SameAdd(alpha, QSub(b4, x3), a, 4 * b - (a * a - 8 * b));
    SameAdd(QMul(alpha, QSub(b4, x3)), QAdd(g8, g8), a * (4 * b - (a * a - 8 * b)), 8 * (g * g));
  }

  lemma DoubleZ(y: int, z: int, gamma: int, delta: int)
    requires Same(gamma, y * y) && Same(delta, z * z)
    ensures var yz := QAdd(y, z); Same(QSub(QSub(QMul(yz, yz), gamma), delta), 2 * (y * z))
  {
    hide Cong, QAdd, QSub, QMul, Same;
    SameRefl(y);
    SameRefl(z);
    var yz := QAdd(y, z);
    SameAdd(y, z, y, z);
    SameAdd(yz, yz, y + z, y + z);
    SameAdd(QMul(yz, yz), gamma, (y + z) * (y + z), y * y);
    SameAdd(QSub(QMul(yz, yz), gamma), delta, (y + z) * (y + z) - y * y, z * z);
    assert (y + z) * (y + z) == y * y + 2 * (y * z) + z * z;
  }

  // ----- doubling stays on the curve

  lemma DoubleExpand(a: int, b: int, g: int)
    ensures var x, y := a * a - 8 * b, a * (12 * b - a * a) - 8 * (g * g);
            y * y - x * x * x == -48 * a * a * b * b + 64 * g * g * g * g - 192 * a * b * g * g +
              16 * a * a * a * g * g + 512 * b * b * b
  {
  }

  /** With alpha = 3(X^2 - d^2), the doubled point misses the curve by 64 g^3 times what the point missed it by. */
  lemma DoubleIdentity(x: int, d: int, g: int, k: int)
    ensures var a := 3 * (x * x - d * d);
            var b := x * g;
            var x3, y3 := a * a - 8 * b, a * (12 * b - a * a) - 8 * (g * g);
            y3 * y3 - (x3 * x3 * x3 - 3 * (x3 * (16 * (g * g) * (d * d))) + k * (64 * (g * g * g) * (d * d * d))) ==
            64 * (g * g * g) * (g - (x * x * x - 3 * (x * (d * d)) + k * (d * d * d)))
  {
    var a := 3 * (x * x - d * d);
    DoubleExpand(a, x * g, g);
    DoubleInner(x, d, g, k, a);
  }

  // The terms of the expansion, and what they are once g^2 is taken out; each is a name of its own so that they
  // can be added up as they stand.

  ghost function Term1(x: int, g: int, a: int): int { -48 * a * a * (x * g) * (x * g) }
  ghost function Term2(g: int): int { 64 * g * g * g * g }
  ghost function Term3(x: int, g: int, a: int): int { -192 * a * (x * g) * g * g }
  ghost function Term4(g: int, a: int): int { 16 * a * a * a * g * g }
  ghost function Term5(x: int, g: int): int { 512 * (x * g) * (x * g) * (x * g) }
  ghost function Term6(x: int, d: int, g: int, a: int): int { 3 * ((a * a - 8 * (x * g)) * (16 * (g * g) * (d * d))) }
  ghost function Term7(d: int, g: int, k: int): int { k * (64 * (g * g * g) * (d * d * d)) }

  ghost function Missed(x: int, d: int, g: int, k: int): int { g - (Cube(x) - 3 * Mixed(x, d) + k * Cube(d)) }

  ghost function Cube(x: int): int { x * x * x }
  ghost function Mixed(x: int, d: int): int { x * (d * d) }

  /** g^2 s and g^3 s. */
  ghost function Sq(g: int, s: int): int { (g * g) * s }
  ghost function Cu(g: int, s: int): int { (g * g) * (s * g) }

  lemma DoubleInner(x: int, d: int, g: int, k: int, a: int)
    requires a == 3 * (x * x - d * d)
    ensures Term1(x, g, a) + Term2(g) + Term3(x, g, a) + Term4(g, a) + Term5(x, g) + Term6(x, d, g, a) -
            Term7(d, g, k) ==
            64 * (g * g * g) * Missed(x, d, g, k)
  {
    hide Term1, Term2, Term3, Term4, Term5, Term6, Term7, Sq, Cu, Cube, Mixed, Missed;
    Regroup(x, d, g, k, a);
    InnerRelations(x, d, a);
    InnerSum(g, a * a * (x * x), a * x, Cube(a), Cube(x), (a * a) * (d * d), Mixed(x, d), k * Cube(d));
    MissedIs(x, d, g, k);
  }

  lemma MissedIs(x: int, d: int, g: int, k: int)
    ensures Missed(x, d, g, k) == g - (Cube(x) - 3 * Mixed(x, d) + k * Cube(d))
    ensures 64 * (g * g * g) * Missed(x, d, g, k) == 64 * Cu(g, Missed(x, d, g, k))
  {
    hide Missed, Cube, Mixed;
    CubeOut(g, Missed(x, d, g, k));
    MissedSum(x, d, g, k);
  }

  lemma MissedSum(x: int, d: int, g: int, k: int)
    ensures Missed(x, d, g, k) == g - (Cube(x) - 3 * Mixed(x, d) + k * Cube(d))
  {
  }

  lemma CubeOut(g: int, e: int)
    ensures 64 * (g * g * g) * e == 64 * Cu(g, e)
  {
  }

  lemma InnerRelations(x: int, d: int, a: int)
    requires a == 3 * (x * x - d * d)
    ensures a * x == 3 * Cube(x) - 3 * Mixed(x, d)
    ensures Cube(a) == 3 * (a * a * (x * x)) - 3 * ((a * a) * (d * d))
  {
    MulEq(x, a, 3 * (x * x - d * d));
    MulEq(a * a, a, 3 * (x * x - d * d));
    MulDist(a * a, x * x, d * d);
  }

  lemma Regroup(x: int, d: int, g: int, k: int, a: int)
    ensures Term1(x, g, a) == -48 * Sq(g, a * a * (x * x))
    ensures Term2(g) == 64 * Cu(g, g)
    ensures Term3(x, g, a) == -192 * Cu(g, a * x)
    ensures Term4(g, a) == 16 * Sq(g, Cube(a))
    ensures Term5(x, g) == 512 * Cu(g, Cube(x))
    ensures Term6(x, d, g, a) == 48 * Sq(g, (a * a) * (d * d)) - 384 * Cu(g, Mixed(x, d))
    ensures Term7(d, g, k) == 64 * Cu(g, k * Cube(d))
  {
    hide Term1, Term2, Term3, Term4, Term5, Term6, Term7, Sq, Cu, Cube, Mixed;
    RegroupSquare(x, g, a);
    RegroupFour(g);
    RegroupMixed(x, g, a);
    RegroupPair(a, g);
    RegroupCube(x, g);
    RegroupSum(x, d, g, a);
    RegroupLast(d, g, k);
  }

  lemma RegroupSquare(x: int, g: int, a: int)
    ensures Term1(x, g, a) == -48 * Sq(g, a * a * (x * x))
  {
    Shuffle(x, g, x, g);
  }

  lemma RegroupFour(g: int)
    ensures Term2(g) == 64 * Cu(g, g)
  {
  }

  lemma RegroupMixed(x: int, g: int, a: int)
    ensures Term3(x, g, a) == -192 * Cu(g, a * x)
  {
  }

  lemma RegroupPair(a: int, g: int)
    ensures Term4(g, a) == 16 * Sq(g, Cube(a))
  {
  }

  lemma RegroupCube(x: int, g: int)
    ensures Term5(x, g) == 512 * Cu(g, Cube(x))
  {
    Shuffle(x, g, x, g);
    Shuffle(x * x, g * g, x, g);
  }

  lemma RegroupSum(x: int, d: int, g: int, a: int)
    ensures Term6(x, d, g, a) == 48 * Sq(g, (a * a) * (d * d)) - 384 * Cu(g, Mixed(x, d))
  {
  }

  lemma RegroupLast(d: int, g: int, k: int)
    ensures Term7(d, g, k) == 64 * Cu(g, k * Cube(d))
  {
  }

  lemma InnerSum(g: int, s: int, ax: int, a3: int, x3: int, t: int, xd: int, kd: int)
    requires ax == 3 * x3 - 3 * xd && a3 == 3 * s - 3 * t
    ensures -48 * Sq(g, s) + 64 * Cu(g, g) - 192 * Cu(g, ax) + 16 * Sq(g, a3) + 512 * Cu(g, x3) + 48 * Sq(g, t)
            - 384 * Cu(g, xd) - 64 * Cu(g, kd) == 64 * Cu(g, g - (x3 - 3 * xd + kd))
  {
    hide Sq, Cu;
    SqDifference(g, s, t);
    CuDifference(g, x3, xd, ax);
    CuSum(g, x3, xd, kd);
  }

  lemma SqDifference(g: int, s: int, t: int)
    ensures Sq(g, 3 * s - 3 * t) == 3 * Sq(g, s) - 3 * Sq(g, t)
  {
    MulDist(g * g, 3 * s, -3 * t);
  }

  lemma CuDifference(g: int, x3: int, xd: int, ax: int)
    requires ax == 3 * x3 - 3 * xd
    ensures Cu(g, ax) == 3 * Cu(g, x3) - 3 * Cu(g, xd)
  {
    MulEq(g, ax, 3 * x3 - 3 * xd);
    MulDist(g * g, 3 * (x3 * g), -3 * (xd * g));
  }

  lemma CuSum(g: int, x3: int, xd: int, kd: int)
    ensures Cu(g, g - (x3 - 3 * xd + kd)) == Cu(g, g) - Cu(g, x3) + 3 * Cu(g, xd) - Cu(g, kd)
  {
    var e := g - (x3 - 3 * xd + kd);
    assert e * g == g * g - x3 * g + 3 * (xd * g) - kd * g;
    MulEq(g * g, e * g, g * g - x3 * g + 3 * (xd * g) - kd * g);
    FourWay(g * g, g * g, x3 * g, xd * g, kd * g);
  }

  lemma FourWay(c: int, p: int, q: int, r: int, s: int)
    ensures c * (p - q + 3 * r - s) == c * p - c * q + 3 * (c * r) - c * s
  {
  }

  lemma CubicSame(x: int, x': int, zz: int, zz': int)
    requires Same(x, x') && Same(zz, zz')
    ensures Same(Cubic(x, zz), Cubic(x', zz'))
  {
    hide Same, CURVE_B;
    SameOps(x, x, x', x');
    SameOps(x * x, x, x' * x', x');
    SameOps(zz, zz, zz', zz');
    SameOps(zz * zz, zz, zz' * zz', zz');
    SameOps(x, zz * zz, x', zz' * zz');
    SameRefl(3);
    SameRefl(CURVE_B);
    SameOps(3, x * (zz * zz), 3, x' * (zz' * zz'));
    SameOps(CURVE_B, (zz * zz) * zz, CURVE_B, (zz' * zz') * zz');
    SameOps((x * x) * x, 3 * (x * (zz * zz)), (x' * x') * x', 3 * (x' * (zz' * zz')));
    SameOps((x * x) * x - 3 * (x * (zz * zz)), CURVE_B * ((zz * zz) * zz), (x' * x') * x' - 3 * (x' * (zz' * zz')),
      CURVE_B * ((zz' * zz') * zz'));
  }

  /** The left side of the curve equation less its right side. */
  ghost function Miss(x: int, y: int, zz: int): int { y * y - Cubic(x, zz) }

  lemma MissSame(p: Jac, x: int, y: int, z: int)
    requires Same(p.x, x) && Same(p.y, y) && Same(p.z, z) && Same(Miss(x, y, z * z), 0)
    ensures OnCurve(p)
  {
    hide Same, Cubic;
    SameOps(p.y, p.y, y, y);
    SameOps(p.z, p.z, z, z);
    CubicSame(p.x, x, p.z * p.z, z * z);
    SameZero(y * y, Cubic(x, z * z));
    SameTrans(p.y * p.y, y * y, Cubic(x, z * z));
    SameRefl(Cubic(p.x, p.z * p.z));
    SameTrans(Cubic(p.x, p.z * p.z), Cubic(p.x, p.z * p.z), Cubic(x, z * z));
    SameTrans(p.y * p.y, Cubic(x, z * z), Cubic(p.x, p.z * p.z));
  }

  lemma Squares(y: int, z: int)
    ensures var d, g, zz := z * z, y * y, (2 * (y * z)) * (2 * (y * z));
            zz == 4 * (g * d) && zz * zz == 16 * (g * g) * (d * d) && (zz * zz) * zz == 64 * (g * g * g) * (d * d * d)
  {
    var d, g := z * z, y * y;
    Shuffle(y, z, y, z);
    Shuffle(g, d, g, d);
    Shuffle(g * g, d * d, g, d);
  }

  /** Doubling a point of the curve gives a point of the curve. */
  lemma DoubleOnCurve(p: Jac)
    requires OnCurve(p)
    ensures OnCurve(Double(p))
  {
    hide Same, CURVE_B;
    var x, y, z := p.x, p.y, p.z;
    var r := Double(p);
    if z == 0 {
      SameRefl(0);
    } else {
      hide Double;
      DoubleParts(p);
      if Same(z, 0) {
        SameNone(2 * y, z);
        assert (2 * y) * z == 2 * (y * z);
        SameTrans(r.z, 2 * (y * z), 0);
      } else {
        var d, g := z * z, y * y;
        var a := 3 * (x * x - d * d);
        var x3, y3 := a * a - 8 * (x * g), a * (4 * (x * g) - (a * a - 8 * (x * g))) - 8 * (g * g);
        DoubleMisses(x, y, z, a, x3, y3);
        MissSame(r, x3, y3, 2 * (y * z));
      }
    }
  }

  lemma DoubleMisses(x: int, y: int, z: int, a: int, x3: int, y3: int)
    requires Same(y * y, Cubic(x, z * z)) && a == 3 * (x * x - (z * z) * (z * z)) && x3 == a * a - 8 * (x * (y * y))
    requires y3 == a * (4 * (x * (y * y)) - x3) - 8 * ((y * y) * (y * y))
    ensures Same(Miss(x3, y3, (2 * (y * z)) * (2 * (y * z))), 0)
  {
    hide Same, CURVE_B, Miss;
    var d, g := z * z, y * y;
    SameZero(g, Cubic(x, d));
    SameNone(64 * (g * g * g), g - Cubic(x, d));
    Squares(y, z);
    DoubleIdentity(x, d, g, CURVE_B);
    DoubleMiss(x, d, g, x3, y3, (2 * (y * z)) * (2 * (y * z)));
  }

  lemma DoubleMiss(x: int, d: int, g: int, x3: int, y3: int, zz: int)
    requires zz * zz == 16 * (g * g) * (d * d) && (zz * zz) * zz == 64 * (g * g * g) * (d * d * d)
    requires y3 * y3 -
             (x3 * x3 * x3 - 3 * (x3 * (16 * (g * g) * (d * d))) + CURVE_B * (64 * (g * g * g) * (d * d * d))) ==
             64 * (g * g * g) * (g - (x * x * x - 3 * (x * (d * d)) + CURVE_B * (d * d * d)))
    ensures Miss(x3, y3, zz) == 64 * (g * g * g) * (g - Cubic(x, d))
  {
    hide CURVE_B;
    MulEq(x3, zz * zz, 16 * (g * g) * (d * d));
    MulEq(CURVE_B, (zz * zz) * zz, 64 * (g * g * g) * (d * d * d));
  }
}
