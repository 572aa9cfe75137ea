/** Jacobian addition on P-256, with its infinity, equal and opposite cases. */
module JacobianAdd {
  import opened Arith
  import Edwards
  import opened Jacobian

  /** p256_point_add, step by step. */
  function Add(p: Jac, q: Jac): (r: Jac)
  {
    if p.z == 0 then q
    else if q.z == 0 then p
    else
      var z1z1, z2z2 := QMul(p.z, p.z), QMul(q.z, q.z);
      var u1, u2 := QMul(p.x, z2z2), QMul(q.x, z1z1);
      var s1, s2 := QMul(QMul(p.y, q.z), z2z2), QMul(QMul(q.y, p.z), z1z1);
      var h, rr := QSub(u2, u1), QSub(s2, s1);
      if h == 0 then
        if rr == 0 then Double(p) else INFINITY
      else
        var hh := QAdd(h, h);
        var i := QMul(hh, hh);
        var j := QMul(h, i);
        var r2 := QAdd(rr, rr);
        var v := QMul(u1, i);
        var x3 := QSub(QSub(QSub(QMul(r2, r2), j), v), v);
        var sj := QMul(s1, j);
        var zs := QAdd(p.z, q.z);
        Jac(x3, QSub(QMul(r2, QSub(v, x3)), QAdd(sj, sj)), QMul(QSub(QSub(QMul(zs, zs), z1z1), z2z2), h))
  }

  // ----- the four numbers addition works with: U = X1 Z2^2, S = Y1 Z2^3, H = U2 - U1, R = S2 - S1

  function U(p: Jac, q: Jac): int { p.x * (q.z * q.z) }
  function S(p: Jac, q: Jac): int { (p.y * q.z) * (q.z * q.z) }
  function H(p: Jac, q: Jac): int { U(q, p) - U(p, q) }
  function R(p: Jac, q: Jac): int { S(q, p) - S(p, q) }

  lemma CrossParts(p: Jac, q: Jac)
    ensures Same(QMul(p.x, QMul(q.z, q.z)), U(p, q)) && Same(QMul(QMul(p.y, q.z), QMul(q.z, q.z)), S(p, q))
  {
    hide Same, QMul;
    SameRefl(p.x);
    SameRefl(p.y);
    SameRefl(q.z);
    SameAdd(q.z, q.z, q.z, q.z);
    SameAdd(p.x, QMul(q.z, q.z), p.x, q.z * q.z);
    SameAdd(p.y, q.z, p.y, q.z);
    SameAdd(QMul(p.y, q.z), QMul(q.z, q.z), p.y * q.z, q.z * q.z);
  }

  function ComputedH(p: Jac, q: Jac): int { QSub(QMul(q.x, QMul(p.z, p.z)), QMul(p.x, QMul(q.z, q.z))) }
  function ComputedR(p: Jac, q: Jac): int
  {
    QSub(QMul(QMul(q.y, p.z), QMul(p.z, p.z)), QMul(QMul(p.y, q.z), QMul(q.z, q.z)))
  }

  lemma Differences(p: Jac, q: Jac)
    ensures Same(ComputedH(p, q), H(p, q)) && Same(ComputedR(p, q), R(p, q))
    ensures ComputedH(p, q) == 0 <==> Same(H(p, q), 0)
    ensures ComputedR(p, q) == 0 <==> Same(R(p, q), 0)
  {
    hide Cong, U, S, QMul;
    CrossParts(p, q);
    CrossParts(q, p);
    SameAdd(QMul(q.x, QMul(p.z, p.z)), QMul(p.x, QMul(q.z, q.z)), U(q, p), U(p, q));
    SameAdd(QMul(QMul(q.y, p.z), QMul(p.z, p.z)), QMul(QMul(p.y, q.z), QMul(q.z, q.z)), S(q, p), S(p, q));
    ZeroIff(ComputedH(p, q), H(p, q));
    ZeroIff(ComputedR(p, q), R(p, q));
  }

  lemma ZeroIff(a: int, b: int)
    requires 0 <= a < Q && Same(a, b)
    ensures a == 0 <==> Same(b, 0)
  {
    hide Cong;
    SameRefl(b);
    SameTrans(b, b, b);
    if a == 0 {
      SameRefl(a);
      SameTrans(a, a, b);
    }
    if Same(b, 0) {
      SameTrans(a, b, 0);
      CongUnique(a, 0, Q);
    }
  }

  /** Addition's general case. */
  ghost predicate General(p: Jac, q: Jac) { p.z != 0 && q.z != 0 && !Same(H(p, q), 0) }

  /** In the general case X3 = 4(R^2 - H^3 - 2 U H^2), Y3 = 8(R (3UH^2 + H^3 - R^2) - S H^3), Z3 = 2 Z1 Z2 H. */
  lemma AddParts(p: Jac, q: Jac)
    requires General(p, q)
    ensures var r, a, c, h, s := Add(p, q), U(p, q), S(p, q), H(p, q), R(p, q);
            Same(r.x, 4 * AddX(a, h, s)) && Same(r.y, 8 * AddY(a, c, h, s)) && Same(r.z, 2 * ((p.z * q.z) * h))
  {
    hide Same, QMul, QAdd, QSub, U, S, H, R, AddX, AddY;
    Differences(p, q);
    CrossParts(p, q);
    var h, rr := ComputedH(p, q), ComputedR(p, q);
    var u1, s1 := QMul(p.x, QMul(q.z, q.z)), QMul(QMul(p.y, q.z), QMul(q.z, q.z));
    AddXY(u1, s1, h, rr, U(p, q), S(p, q), H(p, q), R(p, q));
    AddZ(p.z, q.z, h, H(p, q));
  }

  function AddX(a: int, h: int, s: int): int { s * s - h * (h * h) - 2 * (a * (h * h)) }
  function AddM(a: int, h: int, s: int): int { 3 * (a * (h * h)) + h * (h * h) - s * s }
  function AddY(a: int, c: int, h: int, s: int): int { s * AddM(a, h, s) - c * (h * (h * h)) }

  lemma AddXY(u1: int, s1: int, h: int, rr: int, a: int, c: int, h': int, s: int)
    requires Same(u1, a) && Same(s1, c) && Same(h, h') && Same(rr, s)
    ensures var hh := QAdd(h, h);
            var i := QMul(hh, hh);
            var j := QMul(h, i);
            var r2 := QAdd(rr, rr);
            var v := QMul(u1, i);
            var x3 := QSub(QSub(QSub(QMul(r2, r2), j), v), v);
            var sj := QMul(s1, j);
            Same(x3, 4 * AddX(a, h', s)) && Same(QSub(QMul(r2, QSub(v, x3)), QAdd(sj, sj)), 8 * AddY(a, c, h', s))
  {
    hide Same, QMul, QAdd, QSub, AddX, AddM;
    var hh, r2 := QAdd(h, h), QAdd(rr, rr);
    var i := QMul(hh, hh);
    var j, v := QMul(h, i), QMul(u1, i);
    var sj := QMul(s1, j);
    var x3 := QSub(QSub(QSub(QMul(r2, r2), j), v), v);
    AddScaled(u1, s1, h, rr, a, c, h', s);
    AddXOnly(r2, j, v, a, h', s);
    SameAdd(v, x3, 4 * (a * (h' * h')), 4 * AddX(a, h', s));
    AddVLessX(a, h', s);
    var m, C := AddM(a, h', s), h' * (h' * h');
    SameAdd(r2, QSub(v, x3), 2 * s, 4 * m);
    Factors(s, m);
    SameAdd(sj, sj, 4 * (c * C), 4 * (c * C));
    SameAdd(QMul(r2, QSub(v, x3)), QAdd(sj, sj), 8 * (s * m), 8 * (c * C));
  }

  lemma Factors(a: int, b: int)
    ensures (2 * a) * (2 * b) == 4 * (a * b) && a * (4 * b) == 4 * (a * b) && (2 * a) * (4 * b) == 8 * (a * b)
  {
  }

  lemma AddVLessX(a: int, h: int, s: int)
    ensures 4 * (a * (h * h)) - 4 * AddX(a, h, s) == 4 * AddM(a, h, s)
  {
  }

  /** I = 4 H^2, J = 4 H^3, r = 2 R, V = 4 U H^2 and S J = 4 S H^3. */
  lemma AddScaled(u1: int, s1: int, h: int, rr: int, a: int, c: int, h': int, s: int)
    requires Same(u1, a) && Same(s1, c) && Same(h, h') && Same(rr, s)
    ensures var i := QMul(QAdd(h, h), QAdd(h, h));
            Same(QMul(h, i), 4 * (h' * (h' * h'))) && Same(QAdd(rr, rr), 2 * s) &&
              Same(QMul(u1, i), 4 * (a * (h' * h'))) &&
            Same(QMul(s1, QMul(h, i)), 4 * (c * (h' * (h' * h'))))
  {
    hide Same, QMul, QAdd;
    var hh := QAdd(h, h);
    var i := QMul(hh, hh);
    SameAdd(h, h, h', h');
    SameAdd(hh, hh, 2 * h', 2 * h');
    Factors(h', h');
    SameAdd(h, i, h', 4 * (h' * h'));
    Factors(h', h' * h');
    SameAdd(rr, rr, s, s);
    SameAdd(u1, i, a, 4 * (h' * h'));
    Factors(a, h' * h');
    SameAdd(s1, QMul(h, i), c, 4 * (h' * (h' * h')));
    Factors(c, h' * (h' * h'));
  }

  lemma AddXOnly(r2: int, j: int, v: int, a: int, h: int, s: int)
    requires Same(r2, 2 * s) && Same(j, 4 * (h * (h * h))) && Same(v, 4 * (a * (h * h)))
    ensures Same(QSub(QSub(QSub(QMul(r2, r2), j), v), v), 4 * AddX(a, h, s))
  {
    hide Same, QMul, QSub;
    var C, V := 4 * (h * (h * h)), 4 * (a * (h * h));
    SameAdd(r2, r2, 2 * s, 2 * s);
    Factors(s, s);
    SameAdd(QMul(r2, r2), j, 4 * (s * s), C);
    SameAdd(QSub(QMul(r2, r2), j), v, 4 * (s * s) - C, V);
    SameAdd(QSub(QSub(QMul(r2, r2), j), v), v, 4 * (s * s) - C - V, V);
  }

  lemma AddZ(z1: int, z2: int, h: int, h': int)
    requires Same(h, h')
    ensures var zs := QAdd(z1, z2);
            Same(QMul(QSub(QSub(QMul(zs, zs), QMul(z1, z1)), QMul(z2, z2)), h), 2 * ((z1 * z2) * h'))
  {
    hide Same, QMul, QAdd, QSub;
    SameRefl(z1);
    SameRefl(z2);
    SameAdd(z1, z1, z1, z1);
    SameAdd(z2, z2, z2, z2);
    DoubleZ(z1, z2, QMul(z1, z1), QMul(z2, z2));
    var zs := QAdd(z1, z2);
    SameAdd(QSub(QSub(QMul(zs, zs), QMul(z1, z1)), QMul(z2, z2)), h, 2 * (z1 * z2), h');
    assert (2 * (z1 * z2)) * h' == 2 * ((z1 * z2) * h');
  }

  // ----- the sum is on the curve

  /** The curve equation of p, scaled by Z2^6: S^2 = U^3 - 3 U w^4 + b w^6 with w = Z1 Z2. */
  lemma ScaledCurve(p: Jac, q: Jac)
    requires Same(p.y * p.y, Cubic(p.x, p.z * p.z))
    ensures Same(Miss(U(p, q), S(p, q), (p.z * p.z) * (q.z * q.z)), 0)
  {
    hide Same, Cubic, Miss;
    ScaledMiss(p.x, p.y, p.z * p.z, q.z);
    SameZero(p.y * p.y, Cubic(p.x, p.z * p.z));
    SameNone(((q.z * q.z) * (q.z * q.z)) * (q.z * q.z), p.y * p.y - Cubic(p.x, p.z * p.z));
  }

  lemma ScaledMiss(x: int, y: int, zz: int, z: int)
    ensures var k := z * z; Miss(x * k, (y * z) * k, zz * k) == ((k * k) * k) * (y * y - Cubic(x, zz))
  {
    hide Cubic;
    CubicScale(x, zz, z * z);
    SquareScale(y, z);
    TakeAway(((z * z) * (z * z)) * (z * z), y * y, Cubic(x, zz));
  }

  lemma TakeAway(k: int, a: int, b: int)
    ensures k * (a - b) == k * a - k * b
  {
  }

  lemma CubicScale(x: int, zz: int, k: int)
    ensures Cubic(x * k, zz * k) == ((k * k) * k) * Cubic(x, zz)
  {
    hide CURVE_B;
    var k3 := (k * k) * k;
    Edwards.Shuffle(x, k, x, k);
    Edwards.Shuffle(x * x, k * k, x, k);
    Edwards.Shuffle(zz, k, zz, k);
    Edwards.Shuffle(zz * zz, k * k, zz, k);
    Edwards.Shuffle(x, k, zz * zz, k * k);
    Distribute(k3, (x * x) * x, x * (zz * zz), (zz * zz) * zz, CURVE_B);
  }

  lemma Distribute(k: int, a: int, b: int, c: int, e: int)
    ensures k * (a - 3 * b + e * c) == a * k - 3 * (b * k) + e * (c * k)
  {
  }

  lemma SquareScale(y: int, z: int)
    ensures ((y * z) * (z * z)) * ((y * z) * (z * z)) == (((z * z) * (z * z)) * (z * z)) * (y * y)
  {
    var k := z * z;
    Edwards.Shuffle(y * z, k, y * z, k);
    Edwards.Shuffle(y, z, y, z);
  }

  /** y3^2 - (x3^3 + A x3 h^4 + B h^6) = h^6 E1 - m h^3 T, where E1 is what (a, c) misses the curve by and
      T the difference of what (a + h, c + s) and (a, c) miss it by. */
  lemma AddIdentity(a: int, c: int, h: int, s: int, A: int, B: int)
    ensures var m, x3, y3, C := AddM(a, h, s), AddX(a, h, s), AddY(a, c, h, s), h * (h * h);
            y3 * y3 - ((x3 * x3) * x3 + A * (x3 * (h * C)) + B * (C * C)) ==
            (C * C) * (c * c - (a * a) * a - A * a - B) -
              (m * C) * (s * s + 2 * (c * s) - (3 * ((a * a) * h) + 3 * (a * (h * h)) + C) - A * h)
  {
    var m, x3, y3, C := AddM(a, h, s), AddX(a, h, s), AddY(a, c, h, s), h * (h * h);
    var u, v := a * (h * h), c * C;
    assert x3 == u - m && y3 == s * m - v;
    Expand(s, m, v, u, A * (h * C));
    assert A * (x3 * (h * C)) == (u - m) * (A * (h * C)) by { MulSwap(A, x3, h * C); }
    Collect(a, c, h, s, A, m);
    Bring(a, c, h, A, B);
    assert m * (C * (m - 2 * (s * c) + 3 * ((a * a) * h) + A * h)) ==
      (m * C) * (m - 2 * (s * c) + 3 * ((a * a) * h) + A * h) by {
      MulAssoc(m, C, m - 2 * (s * c) + 3 * ((a * a) * h) + A * h);
    }
    NegFactor(m * C, m - 2 * (s * c) + 3 * ((a * a) * h) + A * h,
      s * s + 2 * (c * s) - (3 * ((a * a) * h) + 3 * (a * (h * h)) + C) - A * h);
  }

  lemma NegFactor(k: int, e: int, f: int)
    requires e == -f
    ensures k * e == -(k * f)
  {
  }

  lemma Expand(s: int, m: int, v: int, u: int, w: int)
    ensures (s * m - v) * (s * m - v) - (((u - m) * (u - m)) * (u - m) + (u - m) * w) ==
            v * v - (u * u) * u - u * w + m * (s * (s * m) - 2 * (s * v) + 3 * (u * u) - 3 * (u * m) + m * m + w)
  {
  }

  /** The factor of m, once m^2 is replaced using m = 3 a h^2 + h^3 - s^2. */
  lemma Collect(a: int, c: int, h: int, s: int, A: int, m: int)
    requires m == AddM(a, h, s)
    ensures var C, u, v := h * (h * h), a * (h * h), c * (h * (h * h));
            s * (s * m) - 2 * (s * v) + 3 * (u * u) - 3 * (u * m) + m * m + A * (h * C) ==
              C * (m - 2 * (s * c) + 3 * ((a * a) * h) + A * h)
  {
    var C, u, v := h * (h * h), a * (h * h), c * (h * (h * h));
    assert m * m == m * (3 * u) + m * C - m * (s * s)
      by { MulEq(m, m, 3 * u + C - s * s); MulDist(m, 3 * u, C - s * s); MulDist(m, C, -(s * s)); }
    assert u * u == ((a * a) * h) * C by { Edwards.Shuffle(a, h * h, a, h * h); CubeSquare(h); MulAssoc(a * a, h, C); }
    assert s * v == C * (s * c) by { MulSwap(s, c, C); }
    FourTerms(C, m, s * c, (a * a) * h, A * h);
    assert A * (h * C) == C * (A * h) by { MulAssoc(A, h, C); }
  }

  lemma CubeSquare(h: int)
    ensures (h * h) * (h * h) == h * (h * (h * h))
  {
  }

  lemma FourTerms(k: int, a: int, b: int, c: int, d: int)
    ensures k * (a - 2 * b + 3 * c + d) == k * a - 2 * (k * b) + 3 * (k * c) + k * d
  {
  }

  lemma Bring(a: int, c: int, h: int, A: int, B: int)
    ensures var C, u, v := h * (h * h), a * (h * h), c * (h * (h * h));
            v * v - (u * u) * u - u * (A * (h * C)) - B * (C * C) == (C * C) * (c * c - (a * a) * a - A * a - B)
  {
    var C, I := h * (h * h), h * h;
    Edwards.Shuffle(c, C, c, C);
    Edwards.Shuffle(a, I, a, I);
    Edwards.Shuffle(a * a, I * I, a, I);
    SixthPower(h);
    assert (a * I) * (A * (h * C)) == (A * a) * (C * C) by {
      MulSwap(a * I, A, h * C);
      Edwards.Shuffle(a, I, h, C);
      BringPower(a, h);
      MulAssoc(A, a, C * C);
    }
    FourTerms2(C * C, c * c, (a * a) * a, A * a, B);
  }

  lemma BringPower(a: int, h: int)
    ensures (a * (h * h)) * (h * (h * (h * h))) == a * ((h * (h * h)) * (h * (h * h)))
  {
    var C := h * (h * h);
    MulAssoc(a, h * h, h * C);
    assert (h * h) * (h * C) == C * C by { MulAssoc(h * h, h, C); }
  }

  lemma SixthPower(h: int)
    ensures ((h * h) * (h * h)) * (h * h) == (h * (h * h)) * (h * (h * h))
  {
    Edwards.Shuffle(h, h * h, h, h * h);
  }

  lemma FourTerms2(k: int, a: int, b: int, c: int, d: int)
    ensures k * (a - b - c - d) == a * k - b * k - c * k - d * k
  {
  }

  /** What (a + h, c + s) misses the curve by, less what (a, c) does. */
  lemma MissDifference(a: int, c: int, h: int, s: int, w: int)
    ensures Miss(a + h, c + s, w) - Miss(a, c, w) ==
            s * s + 2 * (c * s) - (3 * ((a * a) * h) + 3 * (a * (h * h)) + h * (h * h)) + 3 * ((w * w) * h)
  {
    hide CURVE_B;
    assert (c + s) * (c + s) == c * c + 2 * (c * s) + s * s;
    CubeOfSum(a, h);
    MulDist(w * w, a, h);
  }

  lemma CubeOfSum(a: int, h: int)
    ensures ((a + h) * (a + h)) * (a + h) == (a * a) * a + 3 * ((a * a) * h) + 3 * (a * (h * h)) + h * (h * h)
  {
  }

  /** The curve equation at (x, y) with Z^2 = w h^2, in the terms of AddIdentity. */
  lemma MissAt(x: int, y: int, w: int, h: int)
    ensures var C := h * (h * h);
            Miss(x, y, w * (h * h)) ==
              y * y - ((x * x) * x + (-3 * (w * w)) * (x * (h * C)) + (CURVE_B * ((w * w) * w)) * (C * C))
  {
    hide CURVE_B;
    var I, C := h * h, h * (h * h);
    Edwards.Shuffle(w, I, w, I);
    Edwards.Shuffle(w * w, I * I, w, I);
    CubeSquare(h);
    SixthPower(h);
    assert x * ((w * w) * (h * C)) == (w * w) * (x * (h * C)) by { MulSwap(x, w * w, h * C); }
    MulAssoc(CURVE_B, (w * w) * w, C * C);
  }

  lemma MissOf(a: int, c: int, w: int)
    ensures Miss(a, c, w) == c * c - (a * a) * a - (-3 * (w * w)) * a - CURVE_B * ((w * w) * w)
  {
  }

  /** What the sum misses the curve by, as a combination of what the two points miss it by. */
  lemma AddMiss(a: int, c: int, h: int, s: int, w: int)
    ensures var m, C := AddM(a, h, s), h * (h * h);
            Miss(AddX(a, h, s), AddY(a, c, h, s), w * (h * h)) ==
            (C * C) * Miss(a, c, w) - (m * C) * (Miss(a + h, c + s, w) - Miss(a, c, w))
  {
    hide CURVE_B, AddX, AddY, AddM, Miss;
    MissAt(AddX(a, h, s), AddY(a, c, h, s), w, h);
    AddIdentity(a, c, h, s, -3 * (w * w), CURVE_B * ((w * w) * w));
    MissOf(a, c, w);
    MissDifference(a, c, h, s, w);
    assert (-3 * (w * w)) * h == -3 * ((w * w) * h);
  }

  lemma MissScale(x: int, y: int, w: int)
    ensures Miss(4 * x, 8 * y, 4 * w) == 64 * Miss(x, y, w)
  {
    CubicScale(x, w, 4);
    hide Cubic;
    assert (8 * y) * (8 * y) == 64 * (y * y);
  }

  /** Adding two points of the curve gives a point of the curve. */
  lemma AddOnCurve(p: Jac, q: Jac)
    requires OnCurve(p) && OnCurve(q)
    ensures OnCurve(Add(p, q))
  {
    if p.z != 0 && q.z != 0 {
      Differences(p, q);
      if !Same(H(p, q), 0) {
        GeneralOnCurve(p, q);
      } else if Same(R(p, q), 0) {
        DoubleOnCurve(p);
      } else {
        SameRefl(0);
      }
    }
  }

  lemma GeneralOnCurve(p: Jac, q: Jac)
    requires OnCurve(p) && OnCurve(q) && General(p, q)
    ensures OnCurve(Add(p, q))
  {
    hide Same, Add, U, S, Cubic, Miss, AddX, AddY, AddM;
    AddParts(p, q);
    var r, a, c, h, s := Add(p, q), U(p, q), S(p, q), H(p, q), R(p, q);
    var z := 2 * ((p.z * q.z) * h);
    if Same(p.z, 0) || Same(q.z, 0) {
      ThreeFactors(p.z, q.z, h);
      SameTrans(r.z, z, 0);
    } else {
      var w := (p.z * p.z) * (q.z * q.z);
      ScaledCurve(p, q);
      ScaledCurve(q, p);
      var m, C := AddM(a, h, s), h * (h * h);
      AddMiss(a, c, h, s, w);
      SameOps(Miss(a + h, c + s, w), Miss(a, c, w), 0, 0);
      SameNone(C * C, Miss(a, c, w));
      SameNone(m * C, Miss(a + h, c + s, w) - Miss(a, c, w));
      SameOps((C * C) * Miss(a, c, w), (m * C) * (Miss(a + h, c + s, w) - Miss(a, c, w)), 0, 0);
      MissScale(AddX(a, h, s), AddY(a, c, h, s), w * (h * h));
      SameNone(64, Miss(AddX(a, h, s), AddY(a, c, h, s), w * (h * h)));
      SquareZ(p.z, q.z, h);
      MissSame(r, 4 * AddX(a, h, s), 8 * AddY(a, c, h, s), z);
    }
  }

  lemma ThreeFactors(z1: int, z2: int, h: int)
    requires Same(z1, 0) || Same(z2, 0)
    ensures Same(2 * ((z1 * z2) * h), 0)
  {
    hide Same;
    if Same(z1, 0) {
      SameNone(2 * (z2 * h), z1);
      assert (2 * (z2 * h)) * z1 == 2 * ((z1 * z2) * h);
    } else {
      SameNone(2 * (z1 * h), z2);
      assert (2 * (z1 * h)) * z2 == 2 * ((z1 * z2) * h);
    }
  }

  lemma SquareZ(z1: int, z2: int, h: int)
    ensures var z := 2 * ((z1 * z2) * h); z * z == 4 * (((z1 * z1) * (z2 * z2)) * (h * h))
  {
    var w := z1 * z2;
    Edwards.Twice(w * h, w * h);
    Edwards.Shuffle(w, h, w, h);
    Edwards.Shuffle(z1, z2, z1, z2);
  }
}
