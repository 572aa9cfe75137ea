/** What the Jacobian formulas mean for affine points: the chord and tangent rules, and when each case of
    addition is taken. */
module JacobianLaw {
  import opened Arith
  import Edwards
  import opened Jacobian
  import opened JacobianAdd

  /** inv inverts every number that is not zero modulo the field prime. */
  ghost predicate Inverts(inv: int -> int)
  {
    forall a: int {:trigger inv(a)} :: !Same(a, 0) ==> Same(a * inv(a), 1)
  }

  /** p stands for the affine point (x, y). */
  ghost predicate StandsFor(p: Jac, x: int, y: int)
  {
    !Same(p.z, 0) && Same(p.x, x * (p.z * p.z)) && Same(p.y, y * ((p.z * p.z) * p.z))
  }

  lemma Cancel(k: int, e: int, inv: int -> int)
    requires Inverts(inv) && !Same(k, 0) && Same(k * e, 0)
    ensures Same(e, 0)
  {
    hide Same;
    var i := inv(k);
    SameNone(i, k * e);
    SameRefl(e);
    SameOps(k * i, e, 1, e);
    assert (k * i) * e == i * (k * e);
    SameTrans(i * (k * e), 1 * e, e);
    SameTrans(e, i * (k * e), 0);
  }

  lemma NonZero(a: int, b: int, inv: int -> int)
    requires Inverts(inv) && !Same(a, 0) && !Same(b, 0)
    ensures !Same(a * b, 0)
  {
    if Same(a * b, 0) {
      Cancel(a, b, inv);
    }
  }

  lemma SmallNonZero(a: int)
    requires 0 < a < Q
    ensures !Same(a, 0)
  {
    if Same(a, 0) {
      CongUnique(a, 0, Q);
    }
  }

  lemma SameMinus(a: int, b: int, k: int, e: int, inv: int -> int)
    requires Inverts(inv) && !Same(k, 0) && Same(a, b) && a - b == k * e
    ensures Same(e, 0)
  {
    SameZero(a, b);
    Cancel(k, e, inv);
  }

  // ----- the numbers addition works with, for affine points

  function Scale(p: Jac, q: Jac): int { (p.z * p.z) * (q.z * q.z) }
  function Cube(p: Jac, q: Jac): int { ((p.z * p.z) * p.z) * ((q.z * q.z) * q.z) }

  lemma ScaleCube(p: Jac, q: Jac)
    ensures Cube(p, q) * Cube(p, q) == (Scale(p, q) * Scale(p, q)) * Scale(p, q)
    ensures Scale(p, q) == Scale(q, p) && Cube(p, q) == Cube(q, p)
    ensures (p.z * q.z) * (p.z * q.z) == Scale(p, q) && Scale(p, q) * (p.z * q.z) == Cube(p, q)
  {
    var d, e := p.z * p.z, q.z * q.z;
    Edwards.Shuffle(d * p.z, e * q.z, d * p.z, e * q.z);
    Edwards.Shuffle(d, p.z, d, p.z);
    Edwards.Shuffle(e, q.z, e, q.z);
    Edwards.Shuffle(d, e, d, e);
    Edwards.Shuffle(d * d, e * e, d, e);
    Edwards.Shuffle(p.z, q.z, p.z, q.z);
    Edwards.Shuffle(d, e, p.z, q.z);
  }

  lemma AffineParts(p: Jac, q: Jac, x: int, y: int)
    requires StandsFor(p, x, y)
    ensures Same(U(p, q), x * Scale(p, q)) && Same(S(p, q), y * Cube(p, q))
  {
    hide Same;
    var d, e := p.z * p.z, q.z * q.z;
    SameRefl(e);
    SameOps(p.x, e, x * d, e);
    MulAssoc(x, d, e);
    SameRefl(q.z * e);
    SameOps(p.y, q.z * e, y * (d * p.z), q.z * e);
    MulAssoc(y, d * p.z, q.z * e);
    MulAssoc(p.y, q.z, e);
  }

  lemma AffineDifferences(p: Jac, q: Jac, x1: int, y1: int, x2: int, y2: int)
    requires StandsFor(p, x1, y1) && StandsFor(q, x2, y2)
    ensures Same(H(p, q), (x2 - x1) * Scale(p, q)) && Same(R(p, q), (y2 - y1) * Cube(p, q))
  {
    hide Same, U, S, Scale, Cube;
    AffineParts(p, q, x1, y1);
    AffineParts(q, p, x2, y2);
    ScaleCube(p, q);
    var w, k := Scale(p, q), Cube(p, q);
    SameOps(U(q, p), U(p, q), x2 * w, x1 * w);
    SameOps(S(q, p), S(p, q), y2 * k, y1 * k);
    Minus(x2, x1, w);
    Minus(y2, y1, k);
  }

  lemma Minus(a: int, b: int, k: int)
    ensures (a - b) * k == a * k - b * k
  {
  }

  lemma ScaleNonZero(p: Jac, q: Jac, inv: int -> int)
    requires !Same(p.z, 0) && !Same(q.z, 0) && Inverts(inv)
    ensures !Same(Scale(p, q), 0) && !Same(Cube(p, q), 0)
  {
    hide Same;
    var d, e := p.z * p.z, q.z * q.z;
    NonZero(p.z, p.z, inv);
    NonZero(q.z, q.z, inv);
    NonZero(d, e, inv);
    NonZero(d, p.z, inv);
    NonZero(e, q.z, inv);
    NonZero(d * p.z, e * q.z, inv);
  }

  lemma ProductZero(a: int, k: int, h: int, inv: int -> int)
    requires Inverts(inv) && !Same(k, 0) && Same(h, a * k)
    ensures Same(h, 0) <==> Same(a, 0)
  {
    hide Same;
    SameRefl(a * k);
    SameRefl(h);
    SameTrans(h, h, a * k);
    if Same(h, 0) {
      SameTrans(a * k, h, 0);
      assert a * k == k * a;
      Cancel(k, a, inv);
    }
    if Same(a, 0) {
      SameNone(k, a);
      SameTrans(h, a * k, 0);
    }
  }

  /** Which case addition takes, in terms of the affine points: chord when the x differ, tangent when the
      points are equal, and infinity when they are opposite, in which case y1 = -y2. */
  lemma AddCases(p: Jac, q: Jac, x1: int, y1: int, x2: int, y2: int, inv: int -> int)
    requires StandsFor(p, x1, y1) && StandsFor(q, x2, y2) && OnCurve(p) && OnCurve(q) && Inverts(inv)
    ensures General(p, q) <==> !Same(x1, x2)
    ensures General(p, q) ==> !Same(Add(p, q).z, 0)
    ensures Same(x1, x2) && Same(y1, y2) ==> Add(p, q) == Double(p)
    ensures Same(x1, x2) && !Same(y1, y2) ==> Add(p, q) == INFINITY && Same(y1 + y2, 0)
  {
    hide Cong, U, S, H, R, Scale, Cube, Double, Add;
    SameRefl(0);
    AffineDifferences(p, q, x1, y1, x2, y2);
    ScaleNonZero(p, q, inv);
    ProductZero(x2 - x1, Scale(p, q), H(p, q), inv);
    ProductZero(y2 - y1, Cube(p, q), R(p, q), inv);
    SameFlip(x1, x2);
    SameFlip(y1, y2);
    if General(p, q) {
      AddParts(p, q);
      NonZero(p.z, q.z, inv);
      NonZero(p.z * q.z, H(p, q), inv);
      SmallNonZero(2);
      NonZero(2, (p.z * q.z) * H(p, q), inv);
      if Same(Add(p, q).z, 0) {
        SameRefl(Add(p, q).z);
        SameTrans(Add(p, q).z, Add(p, q).z, 2 * ((p.z * q.z) * H(p, q)));
        SameTrans(2 * ((p.z * q.z) * H(p, q)), Add(p, q).z, 0);
      }
    } else {
      AddSpecial(p, q);
      if !Same(y1, y2) {
        Opposite(p, q, x1, y1, x2, y2, inv);
      }
    }
  }

  lemma SameFlip(a: int, b: int)
    ensures Same(a, b) <==> Same(b - a, 0)
  {
    hide Cong;
    SameZero(b, a);
    SameRefl(a);
    SameRefl(b);
    if Same(a, b) {
      SameTrans(a, a, b);
    }
    if Same(b, a) {
      SameTrans(b, b, a);
    }
  }

  lemma AddSpecial(p: Jac, q: Jac)
    requires p.z != 0 && q.z != 0 && Same(H(p, q), 0)
    ensures Add(p, q) == if Same(R(p, q), 0) then Double(p) else INFINITY
  {
    hide Same, H, R, QAdd, QSub, QMul, Double;
    Differences(p, q);
  }

  /** A curve point that stands for (x, y) has y^2 = x^3 - 3x + b, and conversely. */
  lemma AffineCurve(p: Jac, x: int, y: int, inv: int -> int)
    requires StandsFor(p, x, y) && Inverts(inv)
    ensures OnCurve(p) <==> Same(y * y, Cubic(x, 1))
  {
    hide Same, Cubic, Miss;
    var z, k := p.z, p.z * p.z;
    var k3 := (k * k) * k;
    ScaledMiss(x, y, 1, z);
    assert y * (k * z) == (y * z) * k;
    MissCong(p.x, x * k, p.y, (y * z) * k, k);
    NonZero(z, z, inv);
    NonZero(k, k, inv);
    NonZero(k * k, k, inv);
    SameZero(p.y * p.y, Cubic(p.x, k));
    SameZero(y * y, Cubic(x, 1));
    MissIs(p.x, p.y, k);
    if OnCurve(p) {
      SameTrans(k3 * (y * y - Cubic(x, 1)), Miss(p.x, p.y, k), 0);
      Cancel(k3, y * y - Cubic(x, 1), inv);
    }
    if Same(y * y, Cubic(x, 1)) {
      SameNone(k3, y * y - Cubic(x, 1));
      SameTrans(Miss(p.x, p.y, k), k3 * (y * y - Cubic(x, 1)), 0);
    }
  }

  lemma MissIs(x: int, y: int, zz: int)
    ensures Miss(x, y, zz) == y * y - Cubic(x, zz)
  {
  }

  lemma MissCong(x: int, x': int, y: int, y': int, zz: int)
    requires Same(x, x') && Same(y, y')
    ensures Same(Miss(x, y, zz), Miss(x', y', zz)) && Same(Miss(x', y', zz), Miss(x, y, zz))
  {
    hide Same, Cubic;
    SameRefl(zz);
    CubicSame(x, x', zz, zz);
    SameOps(y, y, y', y');
    SameOps(y * y, Cubic(x, zz), y' * y', Cubic(x', zz));
    SameRefl(Miss(x, y, zz));
    SameTrans(Miss(x, y, zz), Miss(x, y, zz), Miss(x', y', zz));
  }

  lemma Opposite(p: Jac, q: Jac, x1: int, y1: int, x2: int, y2: int, inv: int -> int)
    requires StandsFor(p, x1, y1) && StandsFor(q, x2, y2) && OnCurve(p) && OnCurve(q) && Inverts(inv)
    requires Same(x1, x2) && !Same(y1, y2)
    ensures Same(y1 + y2, 0)
  {
    hide Same, Cubic;
    AffineCurve(p, x1, y1, inv);
    AffineCurve(q, x2, y2, inv);
    SameRefl(1);
    CubicSame(x1, x2, 1, 1);
    SameTrans(y1 * y1, Cubic(x1, 1), Cubic(x2, 1));
    SameRefl(y2 * y2);
    SameTrans(y2 * y2, y2 * y2, Cubic(x2, 1));
    SameTrans(y1 * y1, Cubic(x2, 1), y2 * y2);
    SameZero(y1 * y1, y2 * y2);
    SameZero(y1, y2);
    assert (y1 - y2) * (y1 + y2) == y1 * y1 - y2 * y2;
    Cancel(y1 - y2, y1 + y2, inv);
  }

  // ----- the chord rule

  lemma AddXSame(a: int, h: int, s: int, a': int, h': int, s': int)
    requires Same(a, a') && Same(h, h') && Same(s, s')
    ensures Same(AddX(a, h, s), AddX(a', h', s')) && Same(h * h, h' * h') && Same(h * (h * h), h' * (h' * h'))
  {
    hide Same;
    SameOps(h, h, h', h');
    SameOps(h, h * h, h', h' * h');
    SameOps(s, s, s', s');
    SameOps(a, h * h, a', h' * h');
    SameRefl(2);
    SameOps(2, a * (h * h), 2, a' * (h' * h'));
    SameOps(s * s, h * (h * h), s' * s', h' * (h' * h'));
    SameOps(s * s - h * (h * h), 2 * (a * (h * h)), s' * s' - h' * (h' * h'), 2 * (a' * (h' * h')));
  }

  lemma ChordX(x1: int, dx: int, dy: int, w: int, k: int, x3: int)
    requires k * k == (w * w) * w
    ensures var h := dx * w;
            AddX(x1 * w, h, dy * k) - x3 * (w * (h * h)) == ((w * w) * w) * (dy * dy - (x3 + 2 * x1 + dx) * (dx * dx))
  {
    var h, w3 := dx * w, (w * w) * w;
    Edwards.Shuffle(dx, w, dx, w);
    assert (dy * k) * (dy * k) == (dy * dy) * w3 by { Edwards.Shuffle(dy, k, dy, k); }
    assert h * (h * h) == (dx * (dx * dx)) * w3 by { Edwards.Shuffle(dx, w, dx * dx, w * w); }
    assert (x1 * w) * (h * h) == (x1 * (dx * dx)) * w3 by { Edwards.Shuffle(x1, w, dx * dx, w * w); }
    assert x3 * (w * (h * h)) == (x3 * (dx * dx)) * w3
      by { MulAssoc(x3, w, h * h); Edwards.Shuffle(x3, w, dx * dx, w * w); }
    Spread(w3, dy * dy, x3, x1, dx);
  }

  lemma Spread(k: int, e: int, x3: int, x1: int, dx: int)
    ensures k * (e - (x3 + 2 * x1 + dx) * (dx * dx)) ==
            e * k - (dx * (dx * dx)) * k - 2 * ((x1 * (dx * dx)) * k) - (x3 * (dx * dx)) * k
  {
    var d := dx * dx;
    ThreeTerms(x3, x1, dx, d);
    MulEq(k, (x3 + 2 * x1 + dx) * d, x3 * d + 2 * (x1 * d) + dx * d);
    SpreadParts(k, e, (x3 + 2 * x1 + dx) * d, dx * d, x1 * d, x3 * d);
  }

  lemma ThreeTerms(a: int, b: int, c: int, d: int)
    ensures (a + 2 * b + c) * d == a * d + 2 * (b * d) + c * d
  {
  }

  lemma SpreadParts(k: int, a: int, sum: int, b: int, c: int, d: int)
    requires sum == d + 2 * c + b
    ensures k * (a - sum) == a * k - b * k - 2 * (c * k) - d * k
  {
    FourParts(k, a, b, c, d);
  }

  lemma FourParts(k: int, a: int, b: int, c: int, d: int)
    ensures k * (a - (d + 2 * c + b)) == a * k - b * k - 2 * (c * k) - d * k
  {
  }

  lemma ChordY(x1: int, y1: int, dx: int, dy: int, w: int, k: int, x3: int, y3: int)
    ensures var h := dx * w;
            (dy * k) * ((x1 - x3) * (w * (h * h))) - (y1 * k) * (h * (h * h)) - y3 * (k * (h * (h * h))) ==
            (k * (w * (h * h))) * (dy * (x1 - x3) - (y3 + y1) * dx)
  {
    var h := dx * w;
    var n := w * (h * h);
    assert h * (h * h) == dx * n by { MulAssoc(dx, w, h * h); }
    assert (dy * k) * ((x1 - x3) * n) == (dy * (x1 - x3)) * (k * n) by { Edwards.Shuffle(dy, k, x1 - x3, n); }
    assert (y1 * k) * (dx * n) == (y1 * dx) * (k * n) by { Edwards.Shuffle(y1, k, dx, n); }
    assert y3 * (k * (dx * n)) == (y3 * dx) * (k * n) by { MulAssoc(y3, k, dx * n); Edwards.Shuffle(y3, k, dx, n); }
    ThreeParts(k * n, dy * (x1 - x3), y3, y1, dx);
  }

  lemma ThreeParts(k: int, e: int, y3: int, y1: int, dx: int)
    ensures k * (e - (y3 + y1) * dx) == e * k - (y1 * dx) * k - (y3 * dx) * k
  {
  }

  /** Z3 = 2 Z1 Z2 H, so Z3^2 = 4 w H^2 and Z3^3 = 8 k H^3. */
  lemma SumZ(p: Jac, q: Jac, h: int, z: int)
    requires Same(z, 2 * ((p.z * q.z) * h))
    ensures Same(z * z, 4 * (Scale(p, q) * (h * h))) && Same((z * z) * z, 8 * (Cube(p, q) * (h * (h * h))))
  {
    hide Same, Scale, Cube;
    var v := p.z * q.z;
    ScaleCube(p, q);
    SameOps(z, z, 2 * (v * h), 2 * (v * h));
    Edwards.Twice(v * h, v * h);
    Edwards.Shuffle(v, h, v, h);
    SameOps(z * z, z, 4 * (Scale(p, q) * (h * h)), 2 * (v * h));
    Edwards.Shuffle(Scale(p, q), h * h, v, h);
    var c, d := Scale(p, q) * (h * h), v * h;
    assert (4 * c) * (2 * d) == 8 * (c * d);
  }

  /** The sum of two affine points with different x lies on their chord: with slope m = dy/dx,
      x3 = m^2 - x1 - x2 and y3 = m (x1 - x3) - y1. */
  lemma AddIsChord(p: Jac, q: Jac, x1: int, y1: int, x2: int, y2: int, x3: int, y3: int, inv: int -> int)
    requires StandsFor(p, x1, y1) && StandsFor(q, x2, y2) && StandsFor(Add(p, q), x3, y3)
    requires Inverts(inv) && General(p, q)
    ensures var dx, dy := x2 - x1, y2 - y1;
            Same((x3 + x1 + x2) * (dx * dx), dy * dy) && Same((y3 + y1) * dx, dy * (x1 - x3))
  {
    hide Same, U, S, H, R, Scale, Cube, Add, AddX, AddM;
    var dx, dy, r, w, k := x2 - x1, y2 - y1, Add(p, q), Scale(p, q), Cube(p, q);
    var h, a, s, c := dx * w, x1 * w, dy * k, y1 * k;
    AddParts(p, q);
    AffineParts(p, q, x1, y1);
    AffineDifferences(p, q, x1, y1, x2, y2);
    ScaleNonZero(p, q, inv);
    ScaleCube(p, q);
    AddXSame(U(p, q), H(p, q), R(p, q), a, h, s);
    SumZ(p, q, H(p, q), r.z);
    ZFollows(r.z, w, k, H(p, q), h);
    GeneralNonZero(p, q, dx, w);
    XEquation(r.x, r.z, AddX(U(p, q), H(p, q), R(p, q)), AddX(a, h, s), x3, w * (h * h), inv);
    ChordX(x1, dx, dy, w, k, x3);
    NonZero(w, w, inv);
    NonZero(w * w, w, inv);
    SameMinus(AddX(a, h, s), x3 * (w * (h * h)), (w * w) * w, dy * dy - (x3 + 2 * x1 + dx) * (dx * dx), inv);
    Turn(dy * dy, (x3 + 2 * x1 + dx) * (dx * dx));
    YEquation(r.y, r.z, U(p, q), S(p, q), H(p, q), R(p, q), a, c, h, s, x1, x3, y3, w, k, inv);
    ChordY(x1, y1, dx, dy, w, k, x3, y3);
    NonZero(h, h, inv);
    NonZero(w, h * h, inv);
    NonZero(k, w * (h * h), inv);
    SameMinus(s * ((x1 - x3) * (w * (h * h))) - c * (h * (h * h)), y3 * (k * (h * (h * h))), k * (w * (h * h)),
      dy * (x1 - x3) - (y3 + y1) * dx, inv);
    Turn(dy * (x1 - x3), (y3 + y1) * dx);
  }

  lemma Turn(a: int, b: int)
    requires Same(a - b, 0)
    ensures Same(b, a) && Same(a, b)
  {
    hide Same;
    SameZero(a, b);
    SameRefl(b);
    SameTrans(a, b, b);
  }

  lemma GeneralNonZero(p: Jac, q: Jac, dx: int, w: int)
    requires General(p, q) && Same(H(p, q), dx * w)
    ensures !Same(dx * w, 0)
  {
    hide Same, H;
    if Same(dx * w, 0) {
      SameTrans(H(p, q), dx * w, 0);
    }
  }

  lemma ZFollows(z: int, w: int, k: int, h: int, h': int)
    requires Same(h, h') && Same(z * z, 4 * (w * (h * h))) && Same((z * z) * z, 8 * (k * (h * (h * h))))
    ensures Same(z * z, 4 * (w * (h' * h'))) && Same((z * z) * z, 8 * (k * (h' * (h' * h'))))
  {
    hide Same;
    SameOps(h, h, h', h');
    SameOps(h, h * h, h', h' * h');
    SameRefl(w);
    SameRefl(k);
    SameRefl(4);
    SameRefl(8);
    SameOps(w, h * h, w, h' * h');
    SameOps(k, h * (h * h), k, h' * (h' * h'));
    SameOps(4, w * (h * h), 4, w * (h' * h'));
    SameOps(8, k * (h * (h * h)), 8, k * (h' * (h' * h')));
    SameTrans(z * z, 4 * (w * (h * h)), 4 * (w * (h' * h')));
    SameTrans((z * z) * z, 8 * (k * (h * (h * h))), 8 * (k * (h' * (h' * h'))));
  }

  /** 4 X = x3 Z3^2 with Z3^2 = 4 n gives X = x3 n. */
  lemma XEquation(x: int, z: int, f: int, f': int, x3: int, n: int, inv: int -> int)
    requires Inverts(inv) && Same(x, 4 * f) && Same(f, f') && Same(x, x3 * (z * z)) && Same(z * z, 4 * n)
    ensures Same(f', x3 * n) && Same(f, x3 * n)
  {
    ScaledEquation(4, x, z * z, f, x3, n, inv);
    hide Same;
    SameRefl(f);
    SameTrans(f, f, f');
    SameTrans(f', f, x3 * n);
  }

  lemma ScaledEquation(c: int, x: int, zz: int, f: int, t: int, n: int, inv: int -> int)
    requires Inverts(inv) && 0 < c < Q && Same(x, c * f) && Same(x, t * zz) && Same(zz, c * n)
    ensures Same(f, t * n)
  {
    SmallNonZero(c);
    hide Same;
    SameRefl(t);
    SameOps(t, zz, t, c * n);
    SameTrans(x, t * zz, t * (c * n));
    SameRefl(x);
    SameTrans(x, x, c * f);
    SameTrans(c * f, x, t * (c * n));
    MulSwap(t, c, n);
    TakeAway(c, f, t * n);
    SameZero(c * f, c * (t * n));
    Cancel(c, f - t * n, inv);
    SameZero(f, t * n);
  }

  /** 8 Y = y3 Z3^3, with m replaced by (x1 - x3) w h^2. */
  lemma YEquation(y: int, z: int, a: int, c: int, h: int, s: int, a': int, c': int, h': int, s': int,
                  x1: int, x3: int, y3: int, w: int, k: int, inv: int -> int)
    requires Inverts(inv) && Same(a, a') && Same(c, c') && Same(h, h') && Same(s, s') && a' == x1 * w
    requires Same(y, 8 * AddY(a, c, h, s)) && Same(y, y3 * ((z * z) * z)) &&
             Same((z * z) * z, 8 * (k * (h' * (h' * h'))))
    requires Same(AddX(a', h', s'), x3 * (w * (h' * h')))
    ensures Same(s' * ((x1 - x3) * (w * (h' * h'))) - c' * (h' * (h' * h')), y3 * (k * (h' * (h' * h'))))
  {
    hide Same, AddX, AddM;
    ScaledEquation(8, y, (z * z) * z, AddY(a, c, h, s), y3, k * (h' * (h' * h')), inv);
    AddXSame(a, h, s, a', h', s');
    var n := w * (h' * h');
    MEquation(a, h, s, x1, x3, w, h', AddX(a', h', s'));
    SameOps(s, AddM(a, h, s), s', (x1 - x3) * n);
    SameOps(c, h * (h * h), c', h' * (h' * h'));
    SameOps(s * AddM(a, h, s), c * (h * (h * h)), s' * ((x1 - x3) * n), c' * (h' * (h' * h')));
    SameRefl(AddY(a, c, h, s));
    SameTrans(AddY(a, c, h, s), AddY(a, c, h, s), s' * ((x1 - x3) * n) - c' * (h' * (h' * h')));
    SameTrans(s' * ((x1 - x3) * n) - c' * (h' * (h' * h')), AddY(a, c, h, s), y3 * (k * (h' * (h' * h'))));
  }

  lemma MEquation(a: int, h: int, s: int, x1: int, x3: int, w: int, h': int, f: int)
    requires Same(a, x1 * w) && Same(h, h') && Same(AddX(a, h, s), f) && Same(f, x3 * (w * (h' * h')))
    ensures Same(AddM(a, h, s), (x1 - x3) * (w * (h' * h')))
  {
    var n := w * (h' * h');
    MIs(a, h, s);
    hide Same, AddX, AddM;
    SameOps(h, h, h', h');
    SameOps(a, h * h, x1 * w, h' * h');
    MulAssoc(x1, w, h' * h');
    SameTrans(AddX(a, h, s), f, x3 * n);
    SameOps(a * (h * h), AddX(a, h, s), x1 * n, x3 * n);
    Minus(x1, x3, n);
  }

  lemma MIs(a: int, h: int, s: int)
    ensures AddM(a, h, s) == a * (h * h) - AddX(a, h, s)
  {
  }

  // ----- the tangent rule

  /** alpha, Y^2 and X Y^2 of a point that stands for (x, y), with d = Z^2. */
  lemma TangentParts(p: Jac, x: int, y: int)
    requires StandsFor(p, x, y)
    ensures var d := p.z * p.z;
            var d2 := d * d;
            Same(3 * (p.x * p.x - d2), (3 * (x * x) - 3) * d2) && Same(p.y * p.y, (y * y) * (d2 * d)) &&
            Same(p.x * (p.y * p.y), (x * (y * y)) * (d2 * d2)) && Same(p.y * p.z, y * d2)
  {
    hide Same;
    var d := p.z * p.z;
    var d2 := d * d;
    SameOps(p.x, p.x, x * d, x * d);
    Edwards.Shuffle(x, d, x, d);
    SameRefl(d2);
    SameOps(p.x * p.x, d2, (x * x) * d2, d2);
    SameRefl(3);
    SameOps(3, p.x * p.x - d2, 3, (x * x) * d2 - d2);
    ThreeTimes(x * x, d2);
    var t := d * p.z;
    SameOps(p.y, p.y, y * t, y * t);
    Edwards.Shuffle(y, t, y, t);
    Edwards.Shuffle(d, p.z, d, p.z);
    SameOps(p.x, p.y * p.y, x * d, (y * y) * (d2 * d));
    Edwards.Shuffle(x, d, y * y, d2 * d);
    MulSwap(d, d2, d);
    SameRefl(p.z);
    SameOps(p.y, p.z, y * t, p.z);
    MulAssoc(y, t, p.z);
    MulAssoc(d, p.z, p.z);
  }

  lemma ThreeTimes(a: int, d: int)
    ensures 3 * (a * d - d) == (3 * a - 3) * d
  {
  }

  /** The double of an affine point lies on its tangent: with slope m = (3x^2 - 3)/2y, x3 = m^2 - 2x and
      y3 = m (x - x3) - y. */
  lemma DoubleIsTangent(p: Jac, x: int, y: int, x3: int, y3: int, inv: int -> int)
    requires StandsFor(p, x, y) && StandsFor(Double(p), x3, y3) && Inverts(inv)
    ensures var n := 3 * (x * x) - 3;
            Same((x3 + x + x) * ((2 * y) * (2 * y)), n * n) && Same((y3 + y) * (2 * y), n * (x - x3))
  {
    hide Cong, Double;
    var d, r, n := p.z * p.z, Double(p), 3 * (x * x) - 3;
    var d2, g := d * d, p.y * p.y;
    var a := 3 * (p.x * p.x - d2);
    assert p.z != 0 by { SameRefl(0); }
    hide Same;
    DoubleParts(p);
    TangentParts(p, x, y);
    TangentZ(p, x, y, r.z);
    YNonZero(y, d2, r.z);
    NonZero(p.z, p.z, inv);
    NonZero(d, d, inv);
    NonZero(d2, d2, inv);
    NonZero(d2, d, inv);
    NonZero(d2, d2 * d, inv);
    var X, b := a * a - 8 * (p.x * g), p.x * g;
    TangentX(a, b, n, x, y, d2);
    Follows(r.x, x3, r.z * r.z, (4 * (y * y)) * (d2 * d2), X, (n * n - 8 * (x * (y * y))) * (d2 * d2));
    Minus(n * n - 8 * (x * (y * y)), x3 * (4 * (y * y)), d2 * d2);
    MulAssoc(x3, 4 * (y * y), d2 * d2);
    SameMinus((n * n - 8 * (x * (y * y))) * (d2 * d2), x3 * ((4 * (y * y)) * (d2 * d2)), d2 * d2,
      n * n - 8 * (x * (y * y)) - x3 * (4 * (y * y)), inv);
    FourSquares(n, x, y, x3);
    Turn(n * n, (x3 + x + x) * ((2 * y) * (2 * y)));
    TangentY(r, a, b, g, n, x, y, x3, y3, d, X, inv);
  }

  lemma FourSquares(n: int, x: int, y: int, x3: int)
    ensures n * n - 8 * (x * (y * y)) - x3 * (4 * (y * y)) == n * n - (x3 + x + x) * ((2 * y) * (2 * y))
  {
    Edwards.Twice(y, y);
    var t := 4 * (y * y);
    assert (x3 + x + x) * t == x3 * t + x * t + x * t;
    assert x * t == 4 * (x * (y * y));
  }

  lemma TangentZ(p: Jac, x: int, y: int, z: int)
    requires StandsFor(p, x, y) && Same(z, 2 * (p.y * p.z))
    ensures var d := p.z * p.z;
            var d2 := d * d;
            Same(z, 2 * (y * d2)) && Same(z * z, (4 * (y * y)) * (d2 * d2)) &&
              Same((z * z) * z, (8 * ((y * y) * y)) * (d2 * (d2 * d2)))
  {
    hide Same;
    var d := p.z * p.z;
    var d2 := d * d;
    TangentParts(p, x, y);
    SameRefl(2);
    SameOps(2, p.y * p.z, 2, y * d2);
    SameTrans(z, 2 * (p.y * p.z), 2 * (y * d2));
    SameOps(z, z, 2 * (y * d2), 2 * (y * d2));
    Edwards.Twice(y * d2, y * d2);
    Edwards.Shuffle(y, d2, y, d2);
    MulAssoc(4, y * y, d2 * d2);
    SameOps(z * z, z, (4 * (y * y)) * (d2 * d2), 2 * (y * d2));
    CubeParts(y, d2);
  }

  lemma CubeParts(y: int, e: int)
    ensures ((4 * (y * y)) * (e * e)) * (2 * (y * e)) == (8 * ((y * y) * y)) * (e * (e * e))
  {
    var f := e * e;
    Edwards.Shuffle(y * y, f, y, e);
    var u, v := (y * y) * y, f * e;
    assert ((4 * (y * y)) * f) * (2 * (y * e)) == 8 * (((y * y) * f) * (y * e));
    assert 8 * (u * v) == (8 * u) * v;
  }

  lemma YNonZero(y: int, d2: int, z: int)
    requires Same(z, 2 * (y * d2)) && !Same(z, 0)
    ensures !Same(y, 0)
  {
    hide Same;
    if Same(y, 0) {
      SameNone(2 * d2, y);
      assert (2 * d2) * y == 2 * (y * d2);
      SameTrans(z, 2 * (y * d2), 0);
    }
  }

  lemma TangentX(a: int, b: int, n: int, x: int, y: int, d2: int)
    requires Same(a, n * d2) && Same(b, (x * (y * y)) * (d2 * d2))
    ensures Same(a * a - 8 * b, (n * n - 8 * (x * (y * y))) * (d2 * d2))
  {
    hide Same;
    SameOps(a, a, n * d2, n * d2);
    Edwards.Shuffle(n, d2, n, d2);
    SameRefl(8);
    SameOps(8, b, 8, (x * (y * y)) * (d2 * d2));
    SameOps(a * a, 8 * b, (n * n) * (d2 * d2), 8 * ((x * (y * y)) * (d2 * d2)));
    Minus(n * n, 8 * (x * (y * y)), d2 * d2);
    MulAssoc(8, x * (y * y), d2 * d2);
  }

  /** r = f = f' and r = t zz = t zz' give f' = t zz'. */
  lemma Follows(r: int, t: int, zz: int, zz': int, f: int, f': int)
    requires Same(r, f) && Same(f, f') && Same(r, t * zz) && Same(zz, zz')
    ensures Same(f', t * zz') && Same(f, t * zz')
  {
    hide Same;
    SameRefl(t);
    SameOps(t, zz, t, zz');
    SameTrans(r, t * zz, t * zz');
    SameRefl(r);
    SameTrans(r, r, f);
    SameTrans(f, r, t * zz');
    SameRefl(f);
    SameTrans(f, f, f');
    SameTrans(f', f, t * zz');
  }

  lemma TangentY(r: Jac, a: int, b: int, g: int, n: int, x: int, y: int, x3: int, y3: int, d: int, X: int,
                 inv: int -> int)
    requires Inverts(inv) && !Same(y, 0) && !Same(d * d, 0) && !Same((d * d) * d, 0)
    requires Same(a, n * (d * d)) && Same(g, (y * y) * ((d * d) * d)) && Same(b, (x * (y * y)) * ((d * d) * (d * d)))
    requires Same(X, x3 * ((4 * (y * y)) * ((d * d) * (d * d))))
    requires Same(r.y, a * (4 * b - X) - 8 * (g * g)) && Same(r.y, y3 * ((r.z * r.z) * r.z))
    requires Same((r.z * r.z) * r.z, (8 * ((y * y) * y)) * ((d * d) * ((d * d) * (d * d))))
    ensures Same((y3 + y) * (2 * y), n * (x - x3))
  {
    hide Same;
    var d2 := d * d;
    var e, yy := d2 * (d2 * d2), y * y;
    SameRefl(4);
    SameOps(4, b, 4, (x * yy) * (d2 * d2));
    SameOps(4 * b, X, 4 * ((x * yy) * (d2 * d2)), x3 * ((4 * yy) * (d2 * d2)));
    SameOps(a, 4 * b - X, n * d2, 4 * ((x * yy) * (d2 * d2)) - x3 * ((4 * yy) * (d2 * d2)));
    SameOps(g, g, yy * (d2 * d), yy * (d2 * d));
    SameRefl(8);
    SameOps(8, g * g, 8, (yy * (d2 * d)) * (yy * (d2 * d)));
    var f := a * (4 * b - X) - 8 * (g * g);
    var f' := (n * d2) * (4 * ((x * yy) * (d2 * d2)) - x3 * ((4 * yy) * (d2 * d2))) -
      8 * ((yy * (d2 * d)) * (yy * (d2 * d)));
    SameOps(a * (4 * b - X), 8 * (g * g), (n * d2) * (4 * ((x * yy) * (d2 * d2)) - x3 * ((4 * yy) * (d2 * d2))),
      8 * ((yy * (d2 * d)) * (yy * (d2 * d))));
    Follows(r.y, y3, (r.z * r.z) * r.z, (8 * (yy * y)) * e, f, f');
    TangentYSum(n, x, y, x3, y3, d);
    NonZero(y, y, inv);
    NonZero(d2, d2, inv);
    NonZero(d2, d2 * d2, inv);
    NonZero(yy, e, inv);
    SmallNonZero(4);
    NonZero(4, yy * e, inv);
    SameMinus(f', y3 * ((8 * (yy * y)) * e), 4 * (yy * e), n * (x - x3) - (y3 + y) * (2 * y), inv);
    Turn(n * (x - x3), (y3 + y) * (2 * y));
  }

  lemma TangentYSum(n: int, x: int, y: int, x3: int, y3: int, d: int)
    ensures var d2, yy := d * d, y * y;
            var e := d2 * (d2 * d2);
            (n * d2) * (4 * ((x * yy) * (d2 * d2)) - x3 * ((4 * yy) * (d2 * d2))) -
              8 * ((yy * (d2 * d)) * (yy * (d2 * d))) - y3 * ((8 * (yy * y)) * e) ==
            (4 * (yy * e)) * (n * (x - x3) - (y3 + y) * (2 * y))
  {
    var d2, yy := d * d, y * y;
    var e, t := d2 * (d2 * d2), yy * (d2 * d2);
    assert 4 * ((x * yy) * (d2 * d2)) - x3 * ((4 * yy) * (d2 * d2)) == 4 * ((x - x3) * t) by {
      MulAssoc(x, yy, d2 * d2);
      MulAssoc(4, yy, d2 * d2);
      assert x3 * (4 * t) == 4 * (x3 * t);
      Minus(x, x3, t);
    }
    assert (n * d2) * (4 * ((x - x3) * t)) == 4 * ((n * (x - x3)) * (yy * e)) by {
      Edwards.Shuffle(n, d2, x - x3, t);
      MulSwap(d2, yy, d2 * d2);
    }
    assert (yy * (d2 * d)) * (yy * (d2 * d)) == (yy * yy) * e by {
      Edwards.Shuffle(yy, d2 * d, yy, d2 * d);
      Edwards.Shuffle(d2, d, d2, d);
      MulAssoc(d2, d2, d2);
    }
    TangentLast(n * (x - x3), y, y3, e);
  }

  lemma TangentLast(u: int, y: int, y3: int, e: int)
    ensures var yy := y * y;
            4 * (u * (yy * e)) - 8 * ((yy * yy) * e) - y3 * ((8 * (yy * y)) * e) ==
              (4 * (yy * e)) * (u - (y3 + y) * (2 * y))
  {
    var yy := y * y;
    var k := yy * e;
    assert (yy * yy) * e == (y * y) * k;
    assert y3 * ((8 * (yy * y)) * e) == 8 * ((y3 * y) * k);
    assert (y3 + y) * (2 * y) == 2 * (y3 * y) + 2 * (y * y);
    LastSum(k, u, y3 * y, y * y);
  }

  lemma LastSum(k: int, u: int, a: int, b: int)
    ensures 4 * (u * k) - 8 * (b * k) - 8 * (a * k) == (4 * k) * (u - (2 * a + 2 * b))
  {
  }
}
