/** P-256 points held in limb arrays: doubling, addition and the joint scalar multiplication. */
module P256 {
  import opened Arith
  import opened Limbs
  import opened Digits
  import opened Jacobian
  import opened JacobianAdd
  import opened JacobianGroup
  import opened P256Field

  class Point {
    const x: array<u32>
    const y: array<u32>
    const z: array<u32>

    ghost predicate Valid()
      reads x, y, z
    {
      Elem(x, Q) && Elem(y, Q) && Elem(z, Q) && x != y && x != z && y != z
    }

    ghost function Abs(): Jac
      reads x, y, z
    {
      Jac(Num(x, Q), Num(y, Q), Num(z, Q))
    }

    /** The point at infinity. */
    constructor ()
      ensures Valid() && Abs() == INFINITY && fresh(x) && fresh(y) && fresh(z)
    {
      hide Val;
      x, y, z := new u32[8](_ => 0), new u32[8](_ => 0), new u32[8](_ => 0);
      new;
      ZeroLimbs(x[..]);
      ZeroLimbs(y[..]);
      ZeroLimbs(z[..]);
    }

    /** Whether c's arrays are apart from this point's. */
    ghost predicate Apart(c: Mod)
    {
      {x, y, z} !! {c.m, c.rr, c.one}
    }
  }

  lemma ZeroLimbs(s: seq<u32>)
    requires |s| == 8 && forall k :: 0 <= k < 8 ==> s[k] == 0
    ensures Val(s) == 0 && Dec(0, Q) == 0
  {
    hide Val, Dec;
    ValZeros(s);
    QOdd();
    DecZero(0, Q);
  }

  method NewAdd(c: Mod, a: array<u32>, b: array<u32>) returns (r: array<u32>)
    requires c.For(Q) && Elem(a, Q) && Elem(b, Q)
    ensures fresh(r) && Elem(r, Q) && Num(r, Q) == QAdd(Num(a, Q), Num(b, Q))
  {
    hide Dec, Val;
    r := new u32[8];
    ModAdd(c, r, a, b, Q);
  }

  method NewSub(c: Mod, a: array<u32>, b: array<u32>) returns (r: array<u32>)
    requires c.For(Q) && Elem(a, Q) && Elem(b, Q)
    ensures fresh(r) && Elem(r, Q) && Num(r, Q) == QSub(Num(a, Q), Num(b, Q))
  {
    hide Dec, Val;
    r := new u32[8];
    ModSub(c, r, a, b, Q);
  }

  method NewMul(c: Mod, a: array<u32>, b: array<u32>) returns (r: array<u32>)
    requires c.For(Q) && Elem(a, Q) && Elem(b, Q)
    ensures fresh(r) && Elem(r, Q) && Num(r, Q) == QMul(Num(a, Q), Num(b, Q))
  {
    hide Dec, Val;
    r := new u32[8];
    MontMul(c, r, a, b, Q);
  }

  method NumIsZero(a: array<u32>) returns (zero: bool)
    requires Elem(a, Q)
    ensures zero <==> Num(a, Q) == 0
  {
    hide Dec, Val;
    zero := IsZero(a, 8);
    QOdd();
    DecZero(Val(a[..]), Q);
  }

  method SetInfinity(r: Point)
    requires r.Valid()
    modifies r.x, r.y, r.z
    ensures r.Valid() && r.Abs() == INFINITY
  {
    hide Dec, Val;
    forall k | 0 <= k < 8 { r.x[k] := 0; }
    forall k | 0 <= k < 8 { r.y[k] := 0; }
    forall k | 0 <= k < 8 { r.z[k] := 0; }
    ZeroLimbs(r.x[..]);
    ZeroLimbs(r.y[..]);
    ZeroLimbs(r.z[..]);
  }

  method CopyPoint(r: Point, a: Point)
    requires r.Valid() && a.Valid() && (r == a || {r.x, r.y, r.z} !! {a.x, a.y, a.z})
    modifies r.x, r.y, r.z
    ensures r.Valid() && r.Abs() == old(a.Abs())
  {
    hide Dec, Val;
    CopyLimbs(r.x, a.x);
    CopyLimbs(r.y, a.y);
    CopyLimbs(r.z, a.z);
  }

  // ----- p256_point_double

  method Alpha(c: Mod, x: array<u32>, delta: array<u32>) returns (alpha: array<u32>)
    requires c.For(Q) && Elem(x, Q) && Elem(delta, Q)
    ensures fresh(alpha) && Elem(alpha, Q)
    ensures var a0 := QMul(QSub(Num(x, Q), Num(delta, Q)), QAdd(Num(x, Q), Num(delta, Q)));
            Num(alpha, Q) == QAdd(QAdd(a0, a0), a0)
  {
    hide Dec, Val, QAdd, QSub, QMul, Mod.For;
    var t0 := NewSub(c, x, delta);
    var t1 := NewAdd(c, x, delta);
    alpha := NewMul(c, t0, t1);
    t0 := NewAdd(c, alpha, alpha);
    alpha := NewAdd(c, t0, alpha);
  }

  /** alpha^2 - 8 beta, and 4 beta. */
  method DoubleX(c: Mod, alpha: array<u32>, beta: array<u32>) returns (x3: array<u32>, b4: array<u32>)
    requires c.For(Q) && Elem(alpha, Q) && Elem(beta, Q)
    ensures fresh(x3) && Elem(x3, Q) && fresh(b4) && Elem(b4, Q)
    ensures var b2 := QAdd(Num(beta, Q), Num(beta, Q)); Num(b4, Q) == QAdd(b2, b2)
    ensures Num(x3, Q) == QSub(QSub(QMul(Num(alpha, Q), Num(alpha, Q)), Num(b4, Q)), Num(b4, Q))
  {
    hide Dec, Val, QAdd, QSub, QMul, Mod.For;
    var t0 := NewMul(c, alpha, alpha);
    b4 := NewAdd(c, beta, beta);
    b4 := NewAdd(c, b4, b4);
    t0 := NewSub(c, t0, b4);
    x3 := NewSub(c, t0, b4);
  }

  /** (y + z)^2 - gamma - delta. */
  method CrossZ(c: Mod, y: array<u32>, z: array<u32>, gamma: array<u32>, delta: array<u32>) returns (r: array<u32>)
    requires c.For(Q) && Elem(y, Q) && Elem(z, Q) && Elem(gamma, Q) && Elem(delta, Q)
    ensures fresh(r) && Elem(r, Q)
    ensures var yz := QAdd(Num(y, Q), Num(z, Q)); Num(r, Q) == QSub(QSub(QMul(yz, yz), Num(gamma, Q)), Num(delta, Q))
  {
    hide Dec, Val, QAdd, QSub, QMul, Mod.For;
    r := NewAdd(c, y, z);
    r := NewMul(c, r, r);
    r := NewSub(c, r, gamma);
    r := NewSub(c, r, delta);
  }

  /** alpha (4 beta - X') - 8 gamma^2. */
  method DoubleY(c: Mod, alpha: array<u32>, b4: array<u32>, x3: array<u32>, gamma: array<u32>) returns (r: array<u32>)
    requires c.For(Q) && Elem(alpha, Q) && Elem(b4, Q) && Elem(x3, Q) && Elem(gamma, Q)
    ensures fresh(r) && Elem(r, Q)
    ensures var g2 := QMul(Num(gamma, Q), Num(gamma, Q));
            var g4 := QAdd(g2, g2);
            var g8 := QAdd(g4, g4);
            Num(r, Q) == QSub(QMul(Num(alpha, Q), QSub(Num(b4, Q), Num(x3, Q))), QAdd(g8, g8))
  {
    hide Dec, Val, QAdd, QSub, QMul, Mod.For;
    var t0 := NewSub(c, b4, x3);
    t0 := NewMul(c, alpha, t0);
    var t1 := NewMul(c, gamma, gamma);
    t1 := NewAdd(c, t1, t1);
    t1 := NewAdd(c, t1, t1);
    t1 := NewAdd(c, t1, t1);
    r := NewSub(c, t0, t1);
  }

  /** delta = Z^2, gamma = Y^2, alpha, 4 beta and X'. */
  method DoubleFront(c: Mod, p: Point)
    returns (alpha: array<u32>, b4: array<u32>, x3: array<u32>, gamma: array<u32>, delta: array<u32>)
    requires c.For(Q) && p.Valid()
    ensures fresh(alpha) && fresh(b4) && fresh(x3) && fresh(gamma) && fresh(delta)
    ensures Elem(alpha, Q) && Elem(b4, Q) && Elem(x3, Q) && Elem(gamma, Q) && Elem(delta, Q)
    ensures var a := p.Abs();
            var d, g := QMul(a.z, a.z), QMul(a.y, a.y);
            var a0 := QMul(QSub(a.x, d), QAdd(a.x, d));
            var b2 := QAdd(QMul(a.x, g), QMul(a.x, g));
            Num(delta, Q) == d && Num(gamma, Q) == g && Num(alpha, Q) == QAdd(QAdd(a0, a0), a0) &&
              Num(b4, Q) == QAdd(b2, b2)
    ensures Num(x3, Q) == QSub(QSub(QMul(Num(alpha, Q), Num(alpha, Q)), Num(b4, Q)), Num(b4, Q))
  {
    hide Dec, Val, QAdd, QSub, QMul, Mod.For;
    delta := NewMul(c, p.z, p.z);
    gamma := NewMul(c, p.y, p.y);
    var beta := NewMul(c, p.x, gamma);
    alpha := Alpha(c, p.x, delta);
    x3, b4 := DoubleX(c, alpha, beta);
  }

  /** Points whose arrays are all different, or one and the same point. */
  ghost predicate SameOrApart(p: Point, q: Point)
  {
    p == q || {p.x, p.y, p.z} !! {q.x, q.y, q.z}
  }

  /** r = 2 p. Every coordinate of p is read before the same coordinate of r is written, so r may be p. */
  method PointDouble(c: Mod, r: Point, p: Point)
    requires c.For(Q) && r.Valid() && p.Valid() && r.Apart(c) && SameOrApart(r, p)
    modifies r.x, r.y, r.z
    ensures r.Valid() && r.Abs() == Double(old(p.Abs()))
  {
    hide Dec, Val, QAdd, QSub, QMul, Mod.For;
    var infinite := NumIsZero(p.z);
    if infinite {
      SetInfinity(r);
      return;
    }
    var alpha, t1, x3, gamma, delta := DoubleFront(c, p);
    CopyLimbs(r.x, x3);
    var z3 := CrossZ(c, p.y, p.z, gamma, delta);
    CopyLimbs(r.z, z3);
    var y3 := DoubleY(c, alpha, t1, x3, gamma);
    CopyLimbs(r.y, y3);
  }

  // ----- p256_point_add

  /** X1 Z2^2 and Y1 Z2^3, given Z2^2. */
  method CrossMul(c: Mod, p: Point, z: array<u32>, zz: array<u32>) returns (u: array<u32>, s: array<u32>)
    requires c.For(Q) && p.Valid() && Elem(z, Q) && Elem(zz, Q)
    ensures fresh(u) && fresh(s) && Elem(u, Q) && Elem(s, Q)
    ensures Num(u, Q) == QMul(p.Abs().x, Num(zz, Q)) && Num(s, Q) == QMul(QMul(p.Abs().y, Num(z, Q)), Num(zz, Q))
  {
    hide Dec, Val, QAdd, QSub, QMul, Mod.For;
    u := NewMul(c, p.x, zz);
    s := NewMul(c, p.y, z);
    s := NewMul(c, s, zz);
  }

  method AddFront(c: Mod, p: Point, q: Point)
    returns (u1: array<u32>, s1: array<u32>, h: array<u32>, rr: array<u32>, z1z1: array<u32>, z2z2: array<u32>)
    requires c.For(Q) && p.Valid() && q.Valid()
    ensures fresh(u1) && fresh(s1) && fresh(h) && fresh(rr) && fresh(z1z1) && fresh(z2z2)
    ensures Elem(u1, Q) && Elem(s1, Q) && Elem(h, Q) && Elem(rr, Q) && Elem(z1z1, Q) && Elem(z2z2, Q)
    ensures var a, b := p.Abs(), q.Abs();
            Num(z1z1, Q) == QMul(a.z, a.z) && Num(z2z2, Q) == QMul(b.z, b.z) &&
            Num(u1, Q) == QMul(a.x, QMul(b.z, b.z)) && Num(s1, Q) == QMul(QMul(a.y, b.z), QMul(b.z, b.z)) &&
            Num(h, Q) == ComputedH(a, b) && Num(rr, Q) == ComputedR(a, b)
  {
    hide Dec, Val, QAdd, QSub, QMul, Mod.For;
    z1z1 := NewMul(c, p.z, p.z);
    z2z2 := NewMul(c, q.z, q.z);
    var u2, s2;
    u1, s1 := CrossMul(c, p, q.z, z2z2);
    u2, s2 := CrossMul(c, q, p.z, z1z1);
    h := NewSub(c, u2, u1);
    rr := NewSub(c, s2, s1);
  }

  /** J = H I, V = U1 I and r = 2(S2 - S1), with I = (2H)^2. */
  method AddMiddle(c: Mod, u1: array<u32>, h: array<u32>, rr: array<u32>)
    returns (j: array<u32>, v: array<u32>, r2: array<u32>)
    requires c.For(Q) && Elem(u1, Q) && Elem(h, Q) && Elem(rr, Q)
    ensures fresh(j) && fresh(v) && fresh(r2) && Elem(j, Q) && Elem(v, Q) && Elem(r2, Q)
    ensures var hh := QAdd(Num(h, Q), Num(h, Q));
            Num(j, Q) == QMul(Num(h, Q), QMul(hh, hh)) && Num(v, Q) == QMul(Num(u1, Q), QMul(hh, hh))
    ensures Num(r2, Q) == QAdd(Num(rr, Q), Num(rr, Q))
  {
    hide Dec, Val, QAdd, QSub, QMul, Mod.For;
    var i := NewAdd(c, h, h);
    i := NewMul(c, i, i);
    j := NewMul(c, h, i);
    r2 := NewAdd(c, rr, rr);
    v := NewMul(c, u1, i);
  }

  /** X3 = r^2 - J - 2V. */
  method AddX3(c: Mod, r2: array<u32>, j: array<u32>, v: array<u32>) returns (x3: array<u32>)
    requires c.For(Q) && Elem(r2, Q) && Elem(j, Q) && Elem(v, Q)
    ensures fresh(x3) && Elem(x3, Q)
    ensures Num(x3, Q) == QSub(QSub(QSub(QMul(Num(r2, Q), Num(r2, Q)), Num(j, Q)), Num(v, Q)), Num(v, Q))
  {
    hide Dec, Val, QAdd, QSub, QMul, Mod.For;
    x3 := NewMul(c, r2, r2);
    x3 := NewSub(c, x3, j);
    x3 := NewSub(c, x3, v);
    x3 := NewSub(c, x3, v);
  }

  /** Y3 = r (V - X3) - 2 S1 J. */
  method AddY3(c: Mod, r2: array<u32>, v: array<u32>, x3: array<u32>, s1: array<u32>, j: array<u32>)
    returns (y3: array<u32>)
    requires c.For(Q) && Elem(r2, Q) && Elem(v, Q) && Elem(x3, Q) && Elem(s1, Q) && Elem(j, Q)
    ensures fresh(y3) && Elem(y3, Q)
    ensures var sj := QMul(Num(s1, Q), Num(j, Q));
            Num(y3, Q) == QSub(QMul(Num(r2, Q), QSub(Num(v, Q), Num(x3, Q))), QAdd(sj, sj))
  {
    hide Dec, Val, QAdd, QSub, QMul, Mod.For;
    var t0 := NewSub(c, v, x3);
    t0 := NewMul(c, r2, t0);
    var sj := NewMul(c, s1, j);
    sj := NewAdd(c, sj, sj);
    y3 := NewSub(c, t0, sj);
  }

  /** X3 and Y3 from U1, S1, H and S2 - S1. */
  method AddXY3(c: Mod, u1: array<u32>, s1: array<u32>, h: array<u32>, rr: array<u32>)
    returns (x3: array<u32>, y3: array<u32>)
    requires c.For(Q) && Elem(u1, Q) && Elem(s1, Q) && Elem(h, Q) && Elem(rr, Q)
    ensures fresh(x3) && fresh(y3) && Elem(x3, Q) && Elem(y3, Q)
    ensures var hh, r2 := QAdd(Num(h, Q), Num(h, Q)), QAdd(Num(rr, Q), Num(rr, Q));
            var j, v := QMul(Num(h, Q), QMul(hh, hh)), QMul(Num(u1, Q), QMul(hh, hh));
            var sj := QMul(Num(s1, Q), j);
            Num(x3, Q) == QSub(QSub(QSub(QMul(r2, r2), j), v), v) &&
            Num(y3, Q) == QSub(QMul(r2, QSub(v, Num(x3, Q))), QAdd(sj, sj))
  {
    hide Dec, Val, QAdd, QSub, QMul, Mod.For;
    var j, v, r2 := AddMiddle(c, u1, h, rr);
    x3 := AddX3(c, r2, j, v);
    y3 := AddY3(c, r2, v, x3, s1, j);
  }

  /** Writes X3 and Y3, then Z3 = ((Z1 + Z2)^2 - Z1Z1 - Z2Z2) H, which still reads both Z. */
  method AddWrite(c: Mod, r: Point, p: Point, q: Point, x3: array<u32>, y3: array<u32>, z1z1: array<u32>,
                  z2z2: array<u32>, h: array<u32>,
                  ghost sum: Jac)
    requires c.For(Q) && r.Valid() && p.Valid() && q.Valid() && r.Apart(c) && SameOrApart(r, p) && SameOrApart(r, q)
    requires Elem(x3, Q) && Elem(y3, Q) && Elem(z1z1, Q) && Elem(z2z2, Q) && Elem(h, Q) &&
             {r.x, r.y, r.z} !! {x3, y3, z1z1, z2z2, h}
    requires sum.x == Num(x3, Q) && sum.y == Num(y3, Q)
    requires var zs := QAdd(Num(p.z, Q), Num(q.z, Q));
             sum.z == QMul(QSub(QSub(QMul(zs, zs), Num(z1z1, Q)), Num(z2z2, Q)), Num(h, Q))
    modifies r.x, r.y, r.z
    ensures r.Valid() && r.Abs() == sum
  {
    hide Dec, Val, QAdd, QSub, QMul, Mod.For;
    CopyLimbs(r.x, x3);
    CopyLimbs(r.y, y3);
    var z3 := CrossZ(c, p.z, q.z, z1z1, z2z2);
    z3 := NewMul(c, z3, h);
    CopyLimbs(r.z, z3);
  }

  /** The sum of two points that are not infinite: doubled when equal, infinite when opposite. */
  method AddFinite(c: Mod, r: Point, p: Point, q: Point)
    requires c.For(Q) && r.Valid() && p.Valid() && q.Valid() && r.Apart(c) && SameOrApart(r, p) && SameOrApart(r, q)
    requires p.Abs().z != 0 && q.Abs().z != 0
    modifies r.x, r.y, r.z
    ensures r.Valid() && r.Abs() == JacobianAdd.Add(old(p.Abs()), old(q.Abs()))
  {
    hide Dec, Val, QAdd, QSub, QMul, Mod.For, Double;
    var u1, s1, h, rr, z1z1, z2z2 := AddFront(c, p, q);
    var zero := NumIsZero(h);
    if zero {
      zero := NumIsZero(rr);
      if zero {
        PointDouble(c, r, p);
      } else {
        SetInfinity(r);
      }
      return;
    }
    var x3, y3 := AddXY3(c, u1, s1, h, rr);
    AddWrite(c, r, p, q, x3, y3, z1z1, z2z2, h, JacobianAdd.Add(p.Abs(), q.Abs()));
  }

  /** r = p + q, with the infinity, equal and opposite cases. r may be p or q. */
  method PointAdd(c: Mod, r: Point, p: Point, q: Point)
    requires c.For(Q) && r.Valid() && p.Valid() && q.Valid() && r.Apart(c) && SameOrApart(r, p) && SameOrApart(r, q)
    modifies r.x, r.y, r.z
    ensures r.Valid() && r.Abs() == JacobianAdd.Add(old(p.Abs()), old(q.Abs()))
  {
    hide Dec, Val, QAdd, QSub, QMul, Mod.For, Double;
    var infinite := NumIsZero(p.z);
    if infinite {
      CopyPoint(r, q);
      return;
    }
    infinite := NumIsZero(q.z);
    if infinite {
      CopyPoint(r, p);
      return;
    }
    AddFinite(c, r, p, q);
  }

  // ----- p256_double_scalar_mul

  /** One round: double, then add the point, or the sum of both, that the two bits call for. */
  method Round(c: Mod, acc: Point, b1: int, p1: Point, b2: int, p2: Point, sum: Point)
    requires c.For(Q) && acc.Valid() && p1.Valid() && p2.Valid() && sum.Valid()
    requires acc.Apart(c) && SameOrApart(acc, p1) && SameOrApart(acc, p2) && SameOrApart(acc, sum) && acc != p1 &&
             acc != p2 && acc != sum
    modifies acc.x, acc.y, acc.z
    ensures acc.Valid()
    ensures var twice := Double(old(acc.Abs()));
            acc.Abs() == if b1 != 0 && b2 != 0 then JacobianAdd.Add(twice, old(sum.Abs()))
                         else if b1 != 0 then JacobianAdd.Add(twice, old(p1.Abs()))
                         else if b2 != 0 then JacobianAdd.Add(twice, old(p2.Abs()))
                         else twice
  {
    hide Dec, Val, Mod.For, Double, JacobianAdd.Add;
    PointDouble(c, acc, acc);
    if b1 != 0 && b2 != 0 {
      PointAdd(c, acc, acc, sum);
    } else if b1 != 0 {
      PointAdd(c, acc, acc, p1);
    } else if b2 != 0 {
      PointAdd(c, acc, acc, p2);
    }
  }

  method ShamirLoop(c: Mod, acc: Point, k1: array<u32>, p1: Point, k2: array<u32>, p2: Point, sum: Point)
    requires c.For(Q) && acc.Valid() && p1.Valid() && p2.Valid() && sum.Valid() && k1.Length == 8 && k2.Length == 8
    requires acc.Apart(c) && SameOrApart(acc, p1) && SameOrApart(acc, p2) && SameOrApart(acc, sum)
    requires acc != p1 && acc != p2 && acc != sum && {acc.x, acc.y, acc.z} !! {k1, k2}
    requires acc.Abs() == INFINITY && sum.Abs() == JacobianAdd.Add(p1.Abs(), p2.Abs())
    modifies acc.x, acc.y, acc.z
    ensures acc.Valid()
    ensures acc.Abs() == Shamir(old(p1.Abs()), old(p2.Abs()), old(Val(k1[..])), old(Val(k2[..])), 0)
  {
    hide Dec, Val, Mod.For, Double, JacobianAdd.Add, Bit, Num, Elem, Point.Valid;
    ghost var P1, P2, e1, e2 := p1.Abs(), p2.Abs(), k1[..], k2[..];
    var bit := 256;
    while bit > 0
      invariant 0 <= bit <= 256 && k1[..] == e1 && k2[..] == e2
      invariant c.For(Q) && p1.Valid() && p2.Valid() && sum.Valid()
      invariant p1.Abs() == P1 && p2.Abs() == P2 && sum.Abs() == JacobianAdd.Add(P1, P2)
      invariant acc.Valid() && acc.Abs() == Shamir(P1, P2, Val(e1), Val(e2), bit)
    {
      bit := bit - 1;
      LimbBit(e1, bit);
      LimbBit(e2, bit);
      Round(c, acc, Bit(k1[bit / 32], bit % 32), p1, Bit(k2[bit / 32], bit % 32), p2, sum);
    }
  }

  /** Shamir's trick over the 256 bits of both scalars, the copy last. */
  method DoubleScalarMul(c: Mod, out: Point, k1: array<u32>, p1: Point, k2: array<u32>, p2: Point)
    requires c.For(Q) && out.Valid() && p1.Valid() && p2.Valid() && k1.Length == 8 && k2.Length == 8
    modifies out.x, out.y, out.z
    ensures out.Valid()
    ensures out.Abs() == Shamir(old(p1.Abs()), old(p2.Abs()), old(Val(k1[..])), old(Val(k2[..])), 0)
  {
    hide Dec, Val, Mod.For, Double, JacobianAdd.Add, Bit, Num, Elem, Shamir, Point.Valid, Point.Abs;
    var acc := new Point();
    var sum := new Point();
    PointAdd(c, sum, p1, p2);
    ShamirLoop(c, acc, k1, p1, k2, p2, sum);
    CopyPoint(out, acc);
  }
}
