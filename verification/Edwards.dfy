/** The curve -x^2 + y^2 = 1 + d x^2 y^2 over 2^255 - 19: what unified addition computes, and that it stays
    on the curve. */
module Edwards {
  import opened Arith
  import opened Limbs
  import opened Fe25519

  /** -121665/121666. */
  const D: int := Val(D_LIMBS)

  const D_LIMBS: seq<u32> := [
    0x1359_78a3, 0x75eb_4dca, 0x4141_d8ab, 0x0070_0a4d,
    0x7779_e898, 0x8cc7_4079, 0x2b6f_fe73, 0x5203_6cee]

  lemma DIs()
    ensures D == 0x5203_6cee_2b6f_fe73_8cc7_4079_7779_e898_0070_0a4d_4141_d8ab_75eb_4dca_1359_78a3
  {
    Val8(D_LIMBS);
    Weights();
  }

  lemma DValue()
    ensures Cong(121666 * D, -121665, P)
  {
    DIs();
    PIs();
    CongIntro(121666 * D, -121665, 77955, P);
  }

  ghost predicate Eq(a: int, b: int) { Cong(a, b, P) }

  lemma AddEq(a: int, b: int, x: int, y: int)
    requires Eq(a, x) && Eq(b, y)
    ensures Eq(FAdd(a, b), x + y)
  {
    CongMod(a + b, P);
    hide Cong;
    CongAdd(a, x, b, y, P);
    CongTrans(FAdd(a, b), a + b, x + y, P);
  }

  lemma SubEq(a: int, b: int, x: int, y: int)
    requires Eq(a, x) && Eq(b, y)
    ensures Eq(FSub(a, b), x - y)
  {
    CongMod(a - b, P);
    hide Cong;
    CongAdd(a, x, b, y, P);
    CongTrans(FSub(a, b), a - b, x - y, P);
  }

  lemma MulEqv(a: int, b: int, x: int, y: int)
    requires Eq(a, x) && Eq(b, y)
    ensures Eq(FMul(a, b), x * y)
  {
    CongMod(a * b, P);
    hide Cong;
    CongMul(a, x, b, y, P);
    CongTrans(FMul(a, b), a * b, x * y, P);
  }

  lemma Refl(a: int)
    ensures Eq(a, a)
  {
    CongRefl(a, P);
  }

  // ----- points

  /** Extended coordinates: x = X/Z, y = Y/Z, xy = T/Z. */
  datatype Ge = Ge(x: int, y: int, z: int, t: int)

  ghost predicate OnCurve(g: Ge)
  {
    Eq(g.x * g.y, g.z * g.t) && Eq(g.y * g.y - g.x * g.x, g.z * g.z + D * (g.t * g.t))
  }

  const IDENTITY := Ge(0, 1, 1, 0)

  /** tamga_ge_add, step by step. */
  function Sum(p: Ge, q: Ge): (r: Ge)
  {
    var twoD := FAdd(D, D);
    var a := FMul(FSub(p.y, p.x), FSub(q.y, q.x));
    var b := FMul(FAdd(p.y, p.x), FAdd(q.y, q.x));
    var c := FMul(FMul(p.t, q.t), twoD);
    var zz := FMul(p.z, q.z);
    var d := FAdd(zz, zz);
    var e, f, g, h := FSub(b, a), FSub(d, c), FAdd(d, c), FAdd(b, a);
    Ge(FMul(e, f), FMul(g, h), FMul(f, g), FMul(e, h))
  }

  /** The four products the sum is made of, without their common factor 2. */
  function PartE(p: Ge, q: Ge): int { p.x * q.y + p.y * q.x }
  function PartF(p: Ge, q: Ge): int { p.z * q.z - D * (p.t * q.t) }
  function PartG(p: Ge, q: Ge): int { p.z * q.z + D * (p.t * q.t) }
  function PartH(p: Ge, q: Ge): int { p.y * q.y + p.x * q.x }

  lemma CrossAB(x1: int, y1: int, x2: int, y2: int)
    ensures (y1 + x1) * (y2 + x2) - (y1 - x1) * (y2 - x2) == 2 * (x1 * y2 + y1 * x2)
    ensures (y1 + x1) * (y2 + x2) + (y1 - x1) * (y2 - x2) == 2 * (y1 * y2 + x1 * x2)
  {
    assert (y1 + x1) * (y2 + x2) == y1 * y2 + y1 * x2 + x1 * y2 + x1 * x2;
    assert (y1 - x1) * (y2 - x2) == y1 * y2 - y1 * x2 - x1 * y2 + x1 * x2;
  }

  lemma SumEH(p: Ge, q: Ge)
    ensures var a := FMul(FSub(p.y, p.x), FSub(q.y, q.x));
            var b := FMul(FAdd(p.y, p.x), FAdd(q.y, q.x));
            Eq(FSub(b, a), 2 * PartE(p, q)) && Eq(FAdd(b, a), 2 * PartH(p, q))
  {
    hide Eq, FAdd, FSub, FMul;
    Refl(p.x);
    Refl(p.y);
    Refl(q.x);
    Refl(q.y);
    SubEq(p.y, p.x, p.y, p.x);
    SubEq(q.y, q.x, q.y, q.x);
    AddEq(p.y, p.x, p.y, p.x);
    AddEq(q.y, q.x, q.y, q.x);
    MulEqv(FSub(p.y, p.x), FSub(q.y, q.x), p.y - p.x, q.y - q.x);
    MulEqv(FAdd(p.y, p.x), FAdd(q.y, q.x), p.y + p.x, q.y + q.x);
    var a := FMul(FSub(p.y, p.x), FSub(q.y, q.x));
    var b := FMul(FAdd(p.y, p.x), FAdd(q.y, q.x));
    SubEq(b, a, (p.y + p.x) * (q.y + q.x), (p.y - p.x) * (q.y - q.x));
    AddEq(b, a, (p.y + p.x) * (q.y + q.x), (p.y - p.x) * (q.y - q.x));
    CrossAB(p.x, p.y, q.x, q.y);
  }

  lemma SumFG(p: Ge, q: Ge)
    ensures var c := FMul(FMul(p.t, q.t), FAdd(D, D));
            var zz := FMul(p.z, q.z);
            var d := FAdd(zz, zz);
            Eq(FSub(d, c), 2 * PartF(p, q)) && Eq(FAdd(d, c), 2 * PartG(p, q))
  {
    hide Eq, FAdd, FSub, FMul, D;
    Refl(p.t);
    Refl(q.t);
    Refl(p.z);
    Refl(q.z);
    Refl(D);
    AddEq(D, D, D, D);
    MulEqv(p.t, q.t, p.t, q.t);
    MulEqv(FMul(p.t, q.t), FAdd(D, D), p.t * q.t, D + D);
    MulEqv(p.z, q.z, p.z, q.z);
    var c, zz := FMul(FMul(p.t, q.t), FAdd(D, D)), FMul(p.z, q.z);
    AddEq(zz, zz, p.z * q.z, p.z * q.z);
    var t := p.t * q.t;
    assert t * (D + D) == 2 * (D * t);
    SubEq(FAdd(zz, zz), c, p.z * q.z + p.z * q.z, t * (D + D));
    AddEq(FAdd(zz, zz), c, p.z * q.z + p.z * q.z, t * (D + D));
  }

  lemma Twice(a: int, b: int)
    ensures (2 * a) * (2 * b) == 4 * (a * b)
  {
  }

  /** The sum's coordinates, up to the common factor 4. */
  lemma SumParts(p: Ge, q: Ge)
    ensures var r := Sum(p, q);
            var e, f, g, h := PartE(p, q), PartF(p, q), PartG(p, q), PartH(p, q);
            Eq(r.x, 4 * (e * f)) && Eq(r.y, 4 * (g * h)) && Eq(r.z, 4 * (f * g)) && Eq(r.t, 4 * (e * h))
  {
    hide Eq, FAdd, FSub, FMul, PartE, PartF, PartG, PartH, D;
    SumEH(p, q);
    SumFG(p, q);
    var a := FMul(FSub(p.y, p.x), FSub(q.y, q.x));
    var b := FMul(FAdd(p.y, p.x), FAdd(q.y, q.x));
    var c := FMul(FMul(p.t, q.t), FAdd(D, D));
    var zz := FMul(p.z, q.z);
    var d := FAdd(zz, zz);
    var e, f, g, h := FSub(b, a), FSub(d, c), FAdd(d, c), FAdd(b, a);
    var e', f', g', h' := PartE(p, q), PartF(p, q), PartG(p, q), PartH(p, q);
    MulEqv(e, f, 2 * e', 2 * f');
    MulEqv(g, h, 2 * g', 2 * h');
    MulEqv(f, g, 2 * f', 2 * g');
    MulEqv(e, h, 2 * e', 2 * h');
    Twice(e', f');
    Twice(g', h');
    Twice(f', g');
    Twice(e', h');
  }

  // ----- the sum is on the curve

  /** h^2 = e^2 + a1 a2, for e = x1 y2 + y1 x2 and h = y1 y2 + x1 x2. */
  lemma SquaresEH(x1: int, y1: int, x2: int, y2: int)
    ensures var e, h := x1 * y2 + y1 * x2, y1 * y2 + x1 * x2;
            h * h == e * e + (y1 * y1 - x1 * x1) * (y2 * y2 - x2 * x2)
  {
    var u, v, s, t := x1 * y2, y1 * x2, y1 * y2, x1 * x2;
    assert (s + t) * (s + t) == s * s + 2 * (s * t) + t * t;
    assert (u + v) * (u + v) == u * u + 2 * (u * v) + v * v;
    assert s * t == u * v by { Shuffle(y1, y2, x1, x2); }
    Shuffle(y1, y2, y1, y2);
    Shuffle(x1, x2, x1, x2);
    Shuffle(x1, y2, x1, y2);
    Shuffle(y1, x2, y1, x2);
    var a, b, c, d := y1 * y1, x1 * x1, y2 * y2, x2 * x2;
    assert (a - b) * (c - d) == a * c - a * d - b * c + b * d;
  }

  lemma Shuffle(a: int, b: int, c: int, d: int)
    ensures (a * b) * (c * d) == (a * c) * (b * d)
    ensures (a * b) * (c * d) == (a * d) * (c * b)
  {
    MulAssoc(a, b, c * d);
    MulSwap(b, c, d);
    MulAssoc(a, c, b * d);
    MulAssoc(a, d, c * b);
    assert b * (c * d) == d * (c * b);
  }

  /** e h = p1 b2 + p2 b1 and 2 e^2 = b1 b2 - a1 a2 + 4 p1 p2, with p = xy, a = y^2 - x^2, b = y^2 + x^2. */
  lemma ProductsEH(x1: int, y1: int, x2: int, y2: int)
    ensures var e, h := x1 * y2 + y1 * x2, y1 * y2 + x1 * x2;
            var p1, p2 := x1 * y1, x2 * y2;
            var b1, b2 := y1 * y1 + x1 * x1, y2 * y2 + x2 * x2;
            var a1, a2 := y1 * y1 - x1 * x1, y2 * y2 - x2 * x2;
            e * h == p1 * b2 + p2 * b1 && 2 * (e * e) == b1 * b2 - a1 * a2 + 4 * (p1 * p2)
  {
    var u, v, s, t := x1 * y2, y1 * x2, y1 * y2, x1 * x2;
    assert (u + v) * (s + t) == u * s + u * t + v * s + v * t;
    Shuffle(x1, y2, y1, y2);
    Shuffle(x1, y2, x1, x2);
    Shuffle(y1, x2, y1, y2);
    Shuffle(y1, x2, x1, x2);
    var a, b, c, d := y1 * y1, x1 * x1, y2 * y2, x2 * x2;
    var p1, p2 := x1 * y1, x2 * y2;
    MulDist(p1, c, d);
    MulDist(p2, a, b);
    assert (u + v) * (u + v) == u * u + 2 * (u * v) + v * v;
    Shuffle(x1, y2, y1, x2);
    Shuffle(x1, y2, x1, y2);
    Shuffle(y1, x2, y1, x2);
    assert (a + b) * (c + d) == a * c + a * d + b * c + b * d;
    assert (a - b) * (c - d) == a * c - a * d - b * c + b * d;
  }

  /** b^2 = a^2 + 4 p^2. */
  lemma SumDifference(x: int, y: int)
    ensures var a, b, p := y * y - x * x, y * y + x * x, x * y;
            b * b == a * a + 4 * (p * p)
  {
    var s, t := y * y, x * x;
    assert (s + t) * (s + t) == (s - t) * (s - t) + 4 * (s * t);
    Shuffle(x, y, x, y);
  }

  /** (e h)^2 - 4 p1 p2 e^2 = (p1 a2 + p2 a1)^2, from the three facts above. */
  lemma KeySquare(p1: int, p2: int, a1: int, a2: int, b1: int, b2: int, e2: int, eh: int)
    requires eh == p1 * b2 + p2 * b1 && 2 * e2 == b1 * b2 - a1 * a2 + 4 * (p1 * p2)
    requires b1 * b1 == a1 * a1 + 4 * (p1 * p1) && b2 * b2 == a2 * a2 + 4 * (p2 * p2)
    ensures eh * eh - 4 * (p1 * p2) * e2 == (p1 * a2 + p2 * a1) * (p1 * a2 + p2 * a1)
  {
    var m := p1 * p2;
    SquareOfSum(p1, b2, p2, b1);
    MulEq(eh, eh, p1 * b2 + p2 * b1);
    MulEq(p1 * b2 + p2 * b1, eh, p1 * b2 + p2 * b1);
    Replace(p1, p2, a2 * a2, b2 * b2);
    Replace(p2, p1, a1 * a1, b1 * b1);
    FourTimes(m, e2, b1 * b2, a1 * a2);
    SquareOfSum(p1, a2, p2, a1);
    KeySum(eh * eh, 4 * m * e2, (p1 * p1) * (b2 * b2), (p2 * p2) * (b1 * b1), m * (b1 * b2), m * (a1 * a2), m * m,
           (p1 * p1) * (a2 * a2), (p2 * p2) * (a1 * a1), (p1 * a2 + p2 * a1) * (p1 * a2 + p2 * a1));
  }

  lemma FourTimes(m: int, e2: int, b: int, a: int)
    requires 2 * e2 == b - a + 4 * m
    ensures 4 * m * e2 == 2 * (m * b) - 2 * (m * a) + 8 * (m * m)
  {
    MulEq(m, 2 * e2, b - a + 4 * m);
    MulDist(m, b - a, 4 * m);
    MulDist(m, b, -a);
  }

  lemma KeySum(eh2: int, me: int, pb: int, qb: int, mb: int, ma: int, mm: int, pa: int, qa: int, right: int)
    requires eh2 == pb + 2 * mb + qb && me == 2 * mb - 2 * ma + 8 * mm && pb == pa + 4 * mm && qb == qa + 4 * mm
    requires right == pa + 2 * ma + qa
    ensures eh2 - me == right
  {
  }

  lemma SquareOfSum(p: int, b: int, q: int, c: int)
    ensures (p * b + q * c) * (p * b + q * c) == (p * p) * (b * b) + 2 * ((p * q) * (c * b)) + (q * q) * (c * c)
  {
    var u, v := p * b, q * c;
    assert (u + v) * (u + v) == u * u + 2 * (u * v) + v * v;
    Shuffle(p, b, p, b);
    Shuffle(q, c, q, c);
    Shuffle(p, b, q, c);
  }

  lemma Replace(p: int, q: int, a: int, b: int)
    requires b == a + 4 * (q * q)
    ensures (p * p) * b == (p * p) * a + 4 * ((p * q) * (p * q))
  {
    MulEq(p * p, b, a + 4 * (q * q));
    MulDist(p * p, a, 4 * (q * q));
    Shuffle(p, p, q, q);
  }

  /** What is left of the curve equation once h^2 and (e h)^2 are replaced. */
  lemma Defect(e2: int, h2: int, f2: int, g2: int, eh2: int, a12: int, p12: int, zt: int, s: int, d: int)
    requires h2 == e2 + a12 && g2 - f2 == 4 * (d * zt) && eh2 - 4 * p12 * e2 == s
    ensures g2 * h2 - e2 * f2 - f2 * g2 - d * eh2 == 4 * (d * e2) * (zt - p12) + g2 * (a12 - f2) - d * s
  {
    assert g2 * h2 == g2 * e2 + g2 * a12 by { MulEq(g2, h2, e2 + a12); MulDist(g2, e2, a12); }
    assert g2 * e2 - e2 * f2 == 4 * (d * e2) * zt by {
      MulEq(e2, g2 - f2, 4 * (d * zt));
      MulDist(e2, g2, -f2);
      assert e2 * (4 * (d * zt)) == 4 * (d * e2) * zt;
    }
    assert d * eh2 == 4 * (d * e2) * p12 + d * s by {
      MulEq(d, eh2, 4 * p12 * e2 + s);
      MulDist(d, 4 * p12 * e2, s);
      assert d * (4 * p12 * e2) == 4 * (d * e2) * p12;
    }
    MulDist(4 * (d * e2), zt, -p12);
    MulDist(g2, a12, -f2);
  }

  /** (Z1^2 + d T1^2)(Z2^2 + d T2^2) = f^2 + d w^2 and T1 Z1 (..) + T2 Z2 (..) = g w, with w = T1 Z2 + T2 Z1. */
  lemma ProductsFG(z1: int, t1: int, z2: int, t2: int, d: int)
    ensures var f, g, w := z1 * z2 - d * (t1 * t2), z1 * z2 + d * (t1 * t2), t1 * z2 + t2 * z1;
            var a1, a2 := z1 * z1 + d * (t1 * t1), z2 * z2 + d * (t2 * t2);
            a1 * a2 - f * f == d * (w * w) && (z1 * t1) * a2 + (z2 * t2) * a1 == g * w
  {
    var z, t := z1 * z2, t1 * t2;
    var u, v := t1 * z2, t2 * z1;
    assert z * t == u * v by { Shuffle(z1, z2, t1, t2); Shuffle(t1, z2, t2, z1); }
    assert (u + v) * (u + v) == u * u + 2 * (u * v) + v * v;
    assert (z - d * t) * (z - d * t) == z * z - 2 * (d * (z * t)) + (d * t) * (d * t) by {
      assert (z - d * t) * (z - d * t) == z * z - 2 * (z * (d * t)) + (d * t) * (d * t);
      MulSwap(z, d, t);
    }
    var a, b, c, e := z1 * z1, t1 * t1, z2 * z2, t2 * t2;
    assert (a + d * b) * (c + d * e) == a * c + a * (d * e) + (d * b) * c + (d * b) * (d * e);
    Shuffle(z1, z1, z2, z2);
    Shuffle(t1, t1, t2, t2);
    Shuffle(d, b, d, e);
    Shuffle(d, t, d, t);
    assert a * (d * e) == d * (v * v) by { MulSwap(a, d, e); Shuffle(z1, z1, t2, t2); }
    assert (d * b) * c == d * (u * u) by { MulAssoc(d, b, c); Shuffle(t1, t1, z2, z2); }
    MulDist(d, u * u + v * v, 2 * (u * v));
    MulDist(d, u * u, v * v);
    ProductG(z1, t1, z2, t2, d);
  }

  lemma ProductG(z1: int, t1: int, z2: int, t2: int, d: int)
    ensures (z1 * t1) * (z2 * z2 + d * (t2 * t2)) + (z2 * t2) * (z1 * z1 + d * (t1 * t1)) ==
            (z1 * z2 + d * (t1 * t2)) * (t1 * z2 + t2 * z1)
  {
    var z, t := z1 * z2, t1 * t2;
    var u, v := t1 * z2, t2 * z1;
    assert (z + d * t) * (u + v) == z * u + z * v + (d * t) * u + (d * t) * v;
    MulDist(z1 * t1, z2 * z2, d * (t2 * t2));
    MulDist(z2 * t2, z1 * z1, d * (t1 * t1));
    assert (z1 * t1) * (z2 * z2) == z * u by { Shuffle(z1, t1, z2, z2); }
    assert (z2 * t2) * (z1 * z1) == z * v by { Shuffle(z2, t2, z1, z1); }
    assert (z1 * t1) * (d * (t2 * t2)) == (d * t) * v by {
      MulSwap(z1 * t1, d, t2 * t2);
      Shuffle(z1, t1, t2, t2);
      MulAssoc(d, t, v);
    }
    assert (z2 * t2) * (d * (t1 * t1)) == (d * t) * u by {
      MulSwap(z2 * t2, d, t1 * t1);
      Shuffle(z2, t2, t1, t1);
      MulAssoc(d, t, u);
    }
  }

  lemma DefectVanishes(k: int, u: int, v: int, s: int, g2: int, w2: int, d: int)
    requires Eq(u, 0) && Eq(v, d * w2) && Eq(s, g2 * w2)
    ensures Eq(k * u + g2 * v - d * s, 0)
  {
    hide Cong;
    Refl(k);
    Refl(g2);
    Refl(d);
    CongMul(k, k, u, 0, P);
    CongMul(g2, g2, v, d * w2, P);
    CongMul(d, d, s, g2 * w2, P);
    CongAdd(k * u, k * 0, g2 * v, g2 * (d * w2), P);
    CongAdd(k * u + g2 * v, g2 * (d * w2), d * s, d * (g2 * w2), P);
    MulSwap(g2, d, w2);
  }

  /** The curve equation for (4ef : 4gh : 4fg : 4eh), divided by 16. */
  function CurveDefect(e: int, f: int, g: int, h: int): int
  {
    (g * g) * (h * h) - (e * e) * (f * f) - (f * f) * (g * g) - D * ((e * h) * (e * h))
  }

  lemma PartsOnCurve(p: Ge, q: Ge)
    requires OnCurve(p) && OnCurve(q)
    ensures Eq(CurveDefect(PartE(p, q), PartF(p, q), PartG(p, q), PartH(p, q)), 0)
  {
    var e, f, g, h := PartE(p, q), PartF(p, q), PartG(p, q), PartH(p, q);
    var p1, p2 := p.x * p.y, q.x * q.y;
    var a1, a2 := p.y * p.y - p.x * p.x, q.y * q.y - q.x * q.x;
    var b1, b2 := p.y * p.y + p.x * p.x, q.y * q.y + q.x * q.x;
    var z, t, w := p.z * q.z, p.t * q.t, p.t * q.z + q.t * p.z;
    var A1, A2 := p.z * p.z + D * (p.t * p.t), q.z * q.z + D * (q.t * q.t);
    hide Eq, D;
    SquaresEH(p.x, p.y, q.x, q.y);
    ProductsEH(p.x, p.y, q.x, q.y);
    SumDifference(p.x, p.y);
    SumDifference(q.x, q.y);
    KeySquare(p1, p2, a1, a2, b1, b2, e * e, e * h);
    var r := p1 * a2 + p2 * a1;
    assert g * g - f * f == 4 * (D * (z * t)) by {
      assert (z + D * t) * (z + D * t) - (z - D * t) * (z - D * t) == 4 * (z * (D * t));
      MulSwap(z, D, t);
    }
    Defect(e * e, h * h, f * f, g * g, (e * h) * (e * h), a1 * a2, p1 * p2, z * t, r * r, D);
    ProductsFG(p.z, p.t, q.z, q.t, D);
    CurveSubst(p1, p2, a1, a2, A1, A2, p.z * p.t, q.z * q.t, f * f, D * (w * w), g * w);
    Shuffle(p.z, p.t, q.z, q.t);
    Shuffle(g, w, g, w);
    DefectVanishes(4 * (D * (e * e)), z * t - p1 * p2, a1 * a2 - f * f, r * r, g * g, w * w, D);
  }

  /** The curve equations of the two points, carried into the three terms of the defect. */
  lemma CurveSubst(p1: int, p2: int, a1: int, a2: int, A1: int, A2: int, q1: int, q2: int, f2: int, dw: int, gw: int)
    requires Eq(p1, q1) && Eq(p2, q2) && Eq(a1, A1) && Eq(a2, A2)
    requires A1 * A2 - f2 == dw && q1 * A2 + q2 * A1 == gw
    ensures Eq(q1 * q2 - p1 * p2, 0) && Eq(a1 * a2 - f2, dw)
    ensures Eq((p1 * a2 + p2 * a1) * (p1 * a2 + p2 * a1), gw * gw)
  {
    hide Cong;
    CongMul(p1, q1, p2, q2, P);
    Refl(q1 * q2);
    CongAdd(q1 * q2, q1 * q2, p1 * p2, q1 * q2, P);
    CongMul(a1, A1, a2, A2, P);
    Refl(f2);
    CongAdd(a1 * a2, A1 * A2, f2, f2, P);
    CongMul(p1, q1, a2, A2, P);
    CongMul(p2, q2, a1, A1, P);
    CongAdd(p1 * a2, q1 * A2, p2 * a1, q2 * A1, P);
    var r := p1 * a2 + p2 * a1;
    CongMul(r, gw, r, gw, P);
  }

  /** Unified addition takes points of the curve to a point of the curve. */
  lemma SumOnCurve(p: Ge, q: Ge)
    requires OnCurve(p) && OnCurve(q)
    ensures OnCurve(Sum(p, q))
  {
    var e, f, g, h := PartE(p, q), PartF(p, q), PartG(p, q), PartH(p, q);
    hide PartE, PartF, PartG, PartH, Sum, Cong, D;
    SumParts(p, q);
    PartsOnCurve(p, q);
    ScaledOnCurve(Sum(p, q), e, f, g, h);
  }

  lemma ScaledOnCurve(r: Ge, e: int, f: int, g: int, h: int)
    requires Eq(r.x, 4 * (e * f)) && Eq(r.y, 4 * (g * h)) && Eq(r.z, 4 * (f * g)) && Eq(r.t, 4 * (e * h))
    requires Eq(CurveDefect(e, f, g, h), 0)
    ensures OnCurve(r)
  {
    hide Cong, D;
    var ef, gh, fg, eh := e * f, g * h, f * g, e * h;
    CongMul(r.x, 4 * ef, r.y, 4 * gh, P);
    CongMul(r.z, 4 * fg, r.t, 4 * eh, P);
    Scale4(ef, gh);
    Scale4(fg, eh);
    Shuffle(e, f, g, h);
    Shuffle(f, g, e, h);
    assert (4 * ef) * (4 * gh) == (4 * fg) * (4 * eh) by { Shuffle(e, h, f, g); }
    CongSym(r.z * r.t, (4 * fg) * (4 * eh), P);
    CongTrans(r.x * r.y, (4 * ef) * (4 * gh), r.z * r.t, P);
    CongMul(r.x, 4 * ef, r.x, 4 * ef, P);
    CongMul(r.y, 4 * gh, r.y, 4 * gh, P);
    CongMul(r.z, 4 * fg, r.z, 4 * fg, P);
    CongMul(r.t, 4 * eh, r.t, 4 * eh, P);
    Scale4(ef, ef);
    Scale4(gh, gh);
    Scale4(fg, fg);
    Scale4(eh, eh);
    Shuffle(e, f, e, f);
    Shuffle(g, h, g, h);
    Shuffle(f, g, f, g);
    CurveEquation(r, ef * ef, gh * gh, fg * fg, eh * eh);
  }

  lemma Scale4(a: int, b: int)
    ensures (4 * a) * (4 * b) == 16 * (a * b)
  {
  }

  lemma CurveEquation(r: Ge, x2: int, y2: int, z2: int, t2: int)
    requires Eq(r.x * r.x, 16 * x2) && Eq(r.y * r.y, 16 * y2) && Eq(r.z * r.z, 16 * z2) && Eq(r.t * r.t, 16 * t2)
    requires Eq(y2 - x2 - z2 - D * t2, 0)
    ensures Eq(r.y * r.y - r.x * r.x, r.z * r.z + D * (r.t * r.t))
  {
    hide Cong, D;
    Refl(D);
    Refl(16);
    CongAdd(r.y * r.y, 16 * y2, r.x * r.x, 16 * x2, P);
    CongMul(D, D, r.t * r.t, 16 * t2, P);
    CongAdd(r.z * r.z, 16 * z2, D * (r.t * r.t), D * (16 * t2), P);
    CongMul(16, 16, y2 - x2 - z2 - D * t2, 0, P);
    MulSwap(D, 16, t2);
    var lhs, rhs := 16 * y2 - 16 * x2, 16 * z2 + D * (16 * t2);
    assert 16 * (y2 - x2 - z2 - D * t2) == lhs - rhs;
    Refl(rhs);
    CongAdd(lhs - rhs, 0, rhs, rhs, P);
    CongTrans(r.y * r.y - r.x * r.x, lhs, rhs, P);
    CongSym(r.z * r.z + D * (r.t * r.t), rhs, P);
    CongTrans(r.y * r.y - r.x * r.x, rhs, r.z * r.z + D * (r.t * r.t), P);
  }

  // ----- the sum is the Edwards addition law

  /** g stands for the affine point (x, y). */
  ghost predicate StandsFor(g: Ge, x: int, y: int)
  {
    Eq(g.x, x * g.z) && Eq(g.y, y * g.z) && Eq(g.t, (x * y) * g.z)
  }

  lemma ScaledProduct(a: int, b: int, x: int, y: int, z1: int, z2: int)
    requires Eq(a, x * z1) && Eq(b, y * z2)
    ensures Eq(a * b, (x * y) * (z1 * z2))
  {
    hide Cong;
    CongMul(a, x * z1, b, y * z2, P);
    Shuffle(x, z1, y, z2);
  }

  /** x3 = (x1 y2 + y1 x2) / (1 + d x1 x2 y1 y2) and y3 = (y1 y2 + x1 x2) / (1 - d x1 x2 y1 y2), cross-multiplied. */
  lemma SumIsEdwardsLaw(p: Ge, q: Ge, x1: int, y1: int, x2: int, y2: int)
    requires StandsFor(p, x1, y1) && StandsFor(q, x2, y2)
    ensures var r, k := Sum(p, q), D * ((x1 * y1) * (x2 * y2));
            Eq(r.x * (1 + k), r.z * (x1 * y2 + y1 * x2)) && Eq(r.y * (1 - k), r.z * (y1 * y2 + x1 * x2))
  {
    hide Eq, Cong, Sum, D;
    var k, z := D * ((x1 * y1) * (x2 * y2)), p.z * q.z;
    var e, f, g, h := PartE(p, q), PartF(p, q), PartG(p, q), PartH(p, q);
    ScaledProduct(p.x, q.y, x1, y2, p.z, q.z);
    ScaledProduct(p.y, q.x, y1, x2, p.z, q.z);
    ScaledProduct(p.y, q.y, y1, y2, p.z, q.z);
    ScaledProduct(p.x, q.x, x1, x2, p.z, q.z);
    ScaledProduct(p.t, q.t, x1 * y1, x2 * y2, p.z, q.z);
    LawParts(e, h, p.x * q.y, p.y * q.x, p.y * q.y, p.x * q.x, x1 * y2, y1 * x2, y1 * y2, x1 * x2, z);
    LawPartsT(f, g, p.t * q.t, (x1 * y1) * (x2 * y2), z);
    SumParts(p, q);
    Quotient(Sum(p, q).x, Sum(p, q).z, e, f, g, x1 * y2 + y1 * x2, 1 + k, z);
    assert 4 * (f * g) == 4 * (g * f);
    assert 4 * (h * g) == 4 * (g * h);
    Quotient(Sum(p, q).y, Sum(p, q).z, h, g, f, y1 * y2 + x1 * x2, 1 - k, z);
  }

  lemma LawParts(e: int, h: int, xy: int, yx: int, yy: int, xx: int, a: int, b: int, c: int, d: int, z: int)
    requires e == xy + yx && h == yy + xx
    requires Eq(xy, a * z) && Eq(yx, b * z) && Eq(yy, c * z) && Eq(xx, d * z)
    ensures Eq(e, (a + b) * z) && Eq(h, (c + d) * z)
  {
    hide Cong;
    CongAdd(xy, a * z, yx, b * z, P);
    CongAdd(yy, c * z, xx, d * z, P);
    MulDist(z, a, b);
    MulDist(z, c, d);
  }

  lemma LawPartsT(f: int, g: int, t: int, m: int, z: int)
    requires f == z - D * t && g == z + D * t && Eq(t, m * z)
    ensures Eq(f, (1 - D * m) * z) && Eq(g, (1 + D * m) * z)
  {
    hide Cong, D;
    Refl(D);
    Refl(z);
    CongMul(D, D, t, m * z, P);
    CongAdd(z, z, D * t, D * (m * z), P);
    MulAssoc(D, m, z);
    MulDist(z, 1, D * m);
    MulDist(z, 1, -(D * m));
  }

  lemma Quotient(x: int, zr: int, e: int, f: int, g: int, num: int, den: int, z: int)
    requires Eq(x, 4 * (e * f)) && Eq(zr, 4 * (f * g)) && Eq(e, num * z) && Eq(g, den * z)
    ensures Eq(x * den, zr * num)
  {
    hide Cong;
    Refl(den);
    Refl(num);
    Refl(f);
    Refl(4);
    CongMul(e, num * z, f, f, P);
    CongMul(f, f, g, den * z, P);
    CongMul(4, 4, e * f, (num * z) * f, P);
    CongMul(4, 4, f * g, f * (den * z), P);
    CongTrans(x, 4 * (e * f), 4 * ((num * z) * f), P);
    CongTrans(zr, 4 * (f * g), 4 * (f * (den * z)), P);
    CongMul(x, 4 * ((num * z) * f), den, den, P);
    CongMul(zr, 4 * (f * (den * z)), num, num, P);
    assert (4 * ((num * z) * f)) * den == (4 * (f * (den * z))) * num by {
      assert ((num * z) * f) * den == (f * (den * z)) * num;
    }
    CongSym(zr * num, (4 * (f * (den * z))) * num, P);
    CongTrans(x * den, (4 * ((num * z) * f)) * den, zr * num, P);
  }
}
