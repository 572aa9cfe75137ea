/** Unified addition never divides by zero: with d not a square, the sum of two curve points always has
    a Z that can be inverted. This is why the verifier needs no exceptional branch. */
module EdwardsComplete {
  import opened Arith
  import opened Limbs
  import opened Edwards
  import opened Fe25519

  /** A square root of -1. */
  const I: int := Val(SQRTM1_LIMBS)

  const SQRTM1_LIMBS: seq<u32> := [
    0x4a0e_a0b0, 0xc4ee_1b27, 0xad2f_e478, 0x2f43_1806,
    0x3dfb_d7a7, 0x2b4d_0099, 0x4fc1_df0b, 0x2b83_2480]

  lemma IIs()
    ensures I == 0x2b83_2480_4fc1_df0b_2b4d_0099_3dfb_d7a7_2f43_1806_ad2f_e478_c4ee_1b27_4a0e_a0b0
  {
    Val8(SQRTM1_LIMBS);
    Weights();
  }

  lemma ISquared()
    ensures Eq(I * I, -1)
  {
    IIs();
    PIs();
    CongIntro(I * I, -1, 0xecaa_2e2f_6a23_02cc_edb3_1ac0_5720_6882_38ce_d207_8f3e_b0ec_9f22_e8f6_2197_2e5, P);
  }

  /** inv inverts every number that is not zero modulo p: p is prime. */
  ghost predicate Inverts(inv: int -> int)
  {
    forall a: int {:trigger inv(a)} :: !Eq(a, 0) ==> Eq(a * inv(a), 1)
  }

  ghost predicate IsRoot(r: int, d: int) { Eq(r * r, d) }

  lemma NonZeroProduct(a: int, b: int, inv: int -> int)
    requires Inverts(inv) && !Eq(a, 0) && !Eq(b, 0)
    ensures !Eq(a * b, 0)
  {
    if Eq(a * b, 0) {
      hide Cong;
      var k := inv(a);
      Refl(k);
      Refl(b);
      CongMul(k, k, a * b, 0, P);
      CongMul(a * k, 1, b, b, P);
      assert (a * k) * b == k * (a * b) by { MulAssoc(k, a, b); }
      CongSym((a * k) * b, 1 * b, P);
      CongTrans(b, k * (a * b), 0, P);
    }
  }

  /** The point with its x and t turned by a square root of -1: the curve becomes u^2 + y^2 = z^2 - d t^2. */
  lemma Twist(g: Ge)
    requires OnCurve(g)
    ensures Eq((I * g.x) * g.y, g.z * (I * g.t))
    ensures Eq((I * g.x) * (I * g.x) + g.y * g.y, g.z * g.z + (-D) * ((I * g.t) * (I * g.t)))
  {
    hide Cong, D, I;
    Refl(I);
    CongMul(I, I, g.x * g.y, g.z * g.t, P);
    MulAssoc(I, g.x, g.y);
    MulSwap(I, g.z, g.t);
    ISquare(g.x);
    ISquare(g.t);
    Refl(g.y * g.y);
    CongAdd((I * g.x) * (I * g.x), -(g.x * g.x), g.y * g.y, g.y * g.y, P);
    Refl(-D);
    CongMul(-D, -D, (I * g.t) * (I * g.t), -(g.t * g.t), P);
    assert (-D) * (-(g.t * g.t)) == D * (g.t * g.t);
    Refl(g.z * g.z);
    CongAdd(g.z * g.z, g.z * g.z, (-D) * ((I * g.t) * (I * g.t)), D * (g.t * g.t), P);
    CongSym(g.z * g.z + (-D) * ((I * g.t) * (I * g.t)), g.z * g.z + D * (g.t * g.t), P);
    CongTrans((I * g.x) * (I * g.x) + g.y * g.y, g.y * g.y - g.x * g.x, g.z * g.z + D * (g.t * g.t), P);
    CongTrans((I * g.x) * (I * g.x) + g.y * g.y, g.z * g.z + D * (g.t * g.t),
              g.z * g.z + (-D) * ((I * g.t) * (I * g.t)), P);
  }

  lemma ISquare(x: int)
    ensures Eq((I * x) * (I * x), -(x * x))
  {
    hide Cong, I;
    ISquared();
    Refl(x * x);
    Shuffle(I, x, I, x);
    CongMul(I * I, -1, x * x, x * x, P);
    assert (-1) * (x * x) == -(x * x);
  }

  /** If Z1 Z2 = s d T1 T2 then ((u1 + s o y1) Z2)^2 = d (T1 (u2 + o y2))^2, for signs s and o. */
  lemma SquareRelation(u1: int, y1: int, z1: int, t1: int, u2: int, y2: int, z2: int, t2: int, d: int, s: int, o: int)
    requires (s == 1 || s == -1) && (o == 1 || o == -1)
    requires Eq(u1 * y1, z1 * t1) && Eq(u1 * u1 + y1 * y1, z1 * z1 + d * (t1 * t1))
    requires Eq(u2 * y2, z2 * t2) && Eq(u2 * u2 + y2 * y2, z2 * z2 + d * (t2 * t2))
    requires Eq(z1 * z2, s * (d * (t1 * t2)))
    ensures var l, m := (u1 + s * o * y1) * z2, t1 * (u2 + o * y2); Eq(l * l, d * (m * m))
  {
    hide Cong;
    var c := s * o;
    var l, m := (u1 + c * y1) * z2, t1 * (u2 + o * y2);
    var z, t := z1 * z2, t1 * t2;
    var n1, n2 := z1 * z1 + d * (t1 * t1) + 2 * (c * (z1 * t1)), z2 * z2 + d * (t2 * t2) + 2 * (o * (z2 * t2));
    CurveSquare(u1, y1, z1, t1, d, c);
    CurveSquare(u2, y2, z2, t2, d, o);
    var v1, v2 := u1 + c * y1, u2 + o * y2;
    Refl(z2 * z2);
    CongMul(v1 * v1, n1, z2 * z2, z2 * z2, P);
    Shuffle(v1, z2, v1, z2);
    Refl(d * (t1 * t1));
    CongMul(d * (t1 * t1), d * (t1 * t1), v2 * v2, n2, P);
    assert d * (m * m) == (d * (t1 * t1)) * (v2 * v2) by {
      Shuffle(t1, v2, t1, v2);
      MulAssoc(d, t1 * t1, v2 * v2);
    }
    Middle(z1, t1, z2, t2, d, s, o);
    CongTrans(l * l, n1 * (z2 * z2), (d * (t1 * t1)) * n2, P);
    CongSym(d * (m * m), (d * (t1 * t1)) * n2, P);
    CongTrans(l * l, (d * (t1 * t1)) * n2, d * (m * m), P);
  }

  lemma CurveSquare(u: int, y: int, z: int, t: int, d: int, c: int)
    requires c == 1 || c == -1
    requires Eq(u * y, z * t) && Eq(u * u + y * y, z * z + d * (t * t))
    ensures Eq((u + c * y) * (u + c * y), z * z + d * (t * t) + 2 * (c * (z * t)))
  {
    hide Cong;
    assert (u + c * y) * (u + c * y) == u * u + y * y + 2 * (c * (u * y)) by {
      if c == 1 {
        assert (u + y) * (u + y) == u * u + y * y + 2 * (u * y);
      } else {
        assert (u - y) * (u - y) == u * u + y * y - 2 * (u * y);
      }
    }
    Refl(2 * c);
    CongMul(2 * c, 2 * c, u * y, z * t, P);
    MulAssoc(2, c, u * y);
    MulAssoc(2, c, z * t);
    CongAdd(u * u + y * y, z * z + d * (t * t), 2 * (c * (u * y)), 2 * (c * (z * t)), P);
  }

  lemma Middle(z1: int, t1: int, z2: int, t2: int, d: int, s: int, o: int)
    requires (s == 1 || s == -1) && (o == 1 || o == -1)
    requires Eq(z1 * z2, s * (d * (t1 * t2)))
    ensures var c := s * o;
            Eq((z1 * z1 + d * (t1 * t1) + 2 * (c * (z1 * t1))) * (z2 * z2),
               (d * (t1 * t1)) * (z2 * z2 + d * (t2 * t2) + 2 * (o * (z2 * t2))))
  {
    hide Cong;
    var c := s * o;
    var z, q, w := z1 * z2, d * (t1 * t2), t1 * z2;
    var k := (d * (t1 * t1)) * (z2 * z2);
    MiddleLeft(z1, t1, z2, d, c);
    MiddleRight(t1, t2, z2, d, o);
    MiddleStep(z, q, w, s, o, k);
  }

  lemma MiddleStep(z: int, q: int, w: int, s: int, o: int, k: int)
    requires (s == 1 || s == -1) && Eq(z, s * q)
    ensures Eq(z * z + z * (2 * ((s * o) * w)) + k, q * q + 2 * (o * (q * w)) + k)
  {
    hide Cong;
    var c := s * o;
    Refl(2 * (c * w));
    Refl(k);
    CongMul(z, s * q, z, s * q, P);
    CongMul(z, s * q, 2 * (c * w), 2 * (c * w), P);
    SignSquares(q, w, s, o);
    CongAdd(z * z, q * q, z * (2 * (c * w)), 2 * (o * (q * w)), P);
    CongAdd(z * z + z * (2 * (c * w)), q * q + 2 * (o * (q * w)), k, k, P);
  }

  lemma SignSquares(q: int, w: int, s: int, o: int)
    requires s == 1 || s == -1
    ensures (s * q) * (s * q) == q * q && (s * q) * (2 * ((s * o) * w)) == 2 * (o * (q * w))
  {
    if s == 1 {
      assert q * (2 * (o * w)) == 2 * (o * (q * w)) by { MulSwap(q, o, w); }
    } else {
      assert (-q) * (2 * ((-o) * w)) == 2 * (o * (q * w)) by { MulSwap(q, o, w); }
    }
  }

  lemma MiddleLeft(z1: int, t1: int, z2: int, d: int, c: int)
    ensures (z1 * z1 + d * (t1 * t1) + 2 * (c * (z1 * t1))) * (z2 * z2) ==
            (z1 * z2) * (z1 * z2) + (z1 * z2) * (2 * (c * (t1 * z2))) + (d * (t1 * t1)) * (z2 * z2)
  {
    var s, z, w := z2 * z2, z1 * z2, t1 * z2;
    MulDist(s, z1 * z1 + d * (t1 * t1), 2 * (c * (z1 * t1)));
    MulDist(s, z1 * z1, d * (t1 * t1));
    Shuffle(z1, z2, z1, z2);
    assert (2 * (c * (z1 * t1))) * s == z * (2 * (c * w)) by {
      Shuffle(z1, t1, z2, z2);
      MulSwap(z, c, w);
      MulAssoc(c, z1 * t1, s);
    }
  }

  lemma MiddleRight(t1: int, t2: int, z2: int, d: int, o: int)
    ensures var q, w := d * (t1 * t2), t1 * z2;
            (d * (t1 * t1)) * (z2 * z2 + d * (t2 * t2) + 2 * (o * (z2 * t2))) ==
            q * q + 2 * (o * (q * w)) + (d * (t1 * t1)) * (z2 * z2)
  {
    var q, w, e := d * (t1 * t2), t1 * z2, d * (t1 * t1);
    MulDist(e, z2 * z2 + d * (t2 * t2), 2 * (o * (z2 * t2)));
    MulDist(e, z2 * z2, d * (t2 * t2));
    assert e * (d * (t2 * t2)) == q * q by {
      Shuffle(d, t1 * t1, d, t2 * t2);
      Shuffle(d, t1 * t2, d, t1 * t2);
      Shuffle(t1, t1, t2, t2);
    }
    assert e * (2 * (o * (z2 * t2))) == 2 * (o * (q * w)) by {
      MulSwap(e, o, z2 * t2);
      MulAssoc(d, t1 * t1, z2 * t2);
      Shuffle(t1, t1, z2, t2);
      MulAssoc(d, t1 * t2, w);
      assert (t1 * z2) * (t1 * t2) == (t1 * t2) * w;
    }
  }

  /** u = y = 0 would force Z to be zero. */
  lemma OriginNotOnCurve(u: int, y: int, z: int, t: int, d: int)
    requires Eq(u + y, 0) && Eq(u - y, 0)
    requires Eq(u * y, z * t) && Eq(u * u + y * y, z * z + d * (t * t))
    ensures Eq(4 * ((z * z) * (z * z)), 0)
  {
    hide Cong;
    DoubledZero(u, y);
    Refl(2);
    CongMul(2, 2, u * y, z * t, P);
    CongMul(2, 2, u * u + y * y, z * z + d * (t * t), P);
    var g, h := 2 * (z * t), 2 * (z * z + d * (t * t));
    CongSym(2 * (u * y), g, P);
    CongTrans(g, 2 * (u * y), 0, P);
    CongSym(2 * (u * u + y * y), h, P);
    CongTrans(h, 2 * (u * u + y * y), 0, P);
    Refl(2 * (z * z));
    CongMul(2 * (z * z), 2 * (z * z), h, 0, P);
    Refl(2 * (d * (z * t)));
    CongMul(2 * (d * (z * t)), 2 * (d * (z * t)), g, 0, P);
    CongAdd((2 * (z * z)) * h, 0, (2 * (d * (z * t))) * g, 0, P);
    FourthPower(z, t, d);
  }

  lemma DoubledZero(u: int, y: int)
    requires Eq(u + y, 0) && Eq(u - y, 0)
    ensures Eq(2 * (u * y), 0) && Eq(2 * (u * u + y * y), 0)
  {
    hide Cong;
    CongAdd(u + y, 0, u - y, 0, P);
    var a, b := 2 * u, 2 * y;
    assert a == (u + y) + (u - y) && b == (u + y) - (u - y);
    Refl(y);
    Refl(u);
    CongMul(a, 0, y, y, P);
    CongMul(a, 0, u, u, P);
    CongMul(b, 0, y, y, P);
    assert a * y == 2 * (u * y) && a * u == 2 * (u * u) && b * y == 2 * (y * y);
    CongAdd(a * u, 0, b * y, 0, P);
  }

  lemma FourthPower(z: int, t: int, d: int)
    ensures (2 * (z * z)) * (2 * (z * z + d * (t * t))) - (2 * (d * (z * t))) * (2 * (z * t)) == 4 * ((z * z) * (z * z))
  {
    var s, p, q := z * z, z * t, t * t;
    assert (2 * s) * (2 * (s + d * q)) == 4 * (s * s) + 4 * (s * (d * q));
    assert (2 * (d * p)) * (2 * p) == 4 * ((d * p) * p);
    MulAssoc(d, p, p);
    MulSwap(s, d, q);
    Shuffle(z, z, t, t);
  }

  /** A root of d from an exceptional pair, when the chosen sign does not cancel. */
  lemma RootFrom(l: int, m: int, d: int, inv: int -> int) returns (r: int)
    requires Inverts(inv) && !Eq(m, 0) && Eq(l * l, d * (m * m))
    ensures Eq(r * r, d)
  {
    hide Cong;
    var k := inv(m);
    r := l * k;
    Refl(k * k);
    Refl(d);
    CongMul(l * l, d * (m * m), k * k, k * k, P);
    Shuffle(l, k, l, k);
    CongMul(m * k, 1, m * k, 1, P);
    CongMul(d, d, (m * k) * (m * k), 1, P);
    assert (d * (m * m)) * (k * k) == d * ((m * k) * (m * k)) by {
      MulAssoc(d, m * m, k * k);
      Shuffle(m, k, m, k);
    }
    CongTrans(r * r, d * ((m * k) * (m * k)), d, P);
  }

  /** If Z1 Z2 = s d T1 T2 for a sign s, then d has a square root. */
  lemma ExceptionalRoot(p: Ge, q: Ge, s: int, inv: int -> int) returns (r: int)
    requires OnCurve(p) && OnCurve(q) && !Eq(p.z, 0) && !Eq(q.z, 0) && Inverts(inv)
    requires (s == 1 || s == -1) && Eq(p.z * q.z, s * (D * (p.t * q.t)))
    ensures IsRoot(r, D)
  {
    hide Cong, D, I, Eq, OnCurve, Inverts;
    var u1, t1, u2, t2 := I * p.x, I * p.t, I * q.x, I * q.t;
    Twist(p);
    Twist(q);
    TwistedPair(p, q, s);
    TNonZero(p, q, s, inv);
    NonOrigin(u2, q.y, q.z, t2, -D, inv);
    var o := if !Eq(u2 + q.y, 0) then 1 else -1;
    SquareRelation(u1, p.y, p.z, t1, u2, q.y, q.z, t2, -D, s, o);
    NonZeroProduct(t1, u2 + o * q.y, inv);
    var r0 := RootFrom((u1 + s * o * p.y) * q.z, t1 * (u2 + o * q.y), -D, inv);
    r := I * r0;
    RootTwist(r0);
  }

  lemma RootTwist(r: int)
    requires Eq(r * r, -D)
    ensures Eq((I * r) * (I * r), D)
  {
    hide Cong, D, I;
    ISquare(r);
    Refl(-1);
    CongMul(-1, -1, r * r, -D, P);
    assert (-1) * (r * r) == -(r * r) && (-1) * (-D) == D;
    CongTrans((I * r) * (I * r), -(r * r), D, P);
  }

  lemma TwistedPair(p: Ge, q: Ge, s: int)
    requires Eq(p.z * q.z, s * (D * (p.t * q.t)))
    ensures Eq(p.z * q.z, s * ((-D) * ((I * p.t) * (I * q.t))))
  {
    hide Cong, D, I;
    var t := p.t * q.t;
    ISquared();
    Shuffle(I, p.t, I, q.t);
    Refl(s * (-D) * t);
    CongMul(s * (-D) * t, s * (-D) * t, I * I, -1, P);
    assert (s * (-D) * t) * (-1) == s * (D * t);
    assert (s * (-D) * t) * (I * I) == s * ((-D) * ((I * I) * t)) by {
      MulAssoc(s, -D, t);
      MulAssoc(s, (-D) * t, I * I);
      MulAssoc(-D, t, I * I);
    }
    CongSym(s * ((-D) * ((I * I) * t)), s * (D * t), P);
    CongTrans(p.z * q.z, s * (D * t), s * ((-D) * ((I * I) * t)), P);
  }

  lemma TNonZero(p: Ge, q: Ge, s: int, inv: int -> int)
    requires !Eq(p.z, 0) && !Eq(q.z, 0) && Inverts(inv)
    requires Eq(p.z * q.z, s * (D * (p.t * q.t)))
    ensures !Eq(I * p.t, 0)
  {
    hide Cong, D, I, Inverts;
    NonZeroProduct(p.z, q.z, inv);
    if Eq(I * p.t, 0) {
      TwistedPair(p, q, s);
      Refl(I * q.t);
      Refl(s * (-D));
      CongMul(I * p.t, 0, I * q.t, I * q.t, P);
      CongMul(s * (-D), s * (-D), (I * p.t) * (I * q.t), 0, P);
      MulAssoc(s, -D, (I * p.t) * (I * q.t));
      CongTrans(p.z * q.z, (s * (-D)) * ((I * p.t) * (I * q.t)), 0, P);
    }
  }

  lemma NonOrigin(u: int, y: int, z: int, t: int, d: int, inv: int -> int)
    requires Inverts(inv) && !Eq(z, 0)
    requires Eq(u * y, z * t) && Eq(u * u + y * y, z * z + d * (t * t))
    ensures !Eq(u + y, 0) || !Eq(u - y, 0)
  {
    assert !Eq(4, 0);
    hide Cong, Inverts, Eq;
    NonZeroProduct(z, z, inv);
    NonZeroProduct(z * z, z * z, inv);
    NonZeroProduct(4, (z * z) * (z * z), inv);
    if Eq(u + y, 0) && Eq(u - y, 0) {
      OriginNotOnCurve(u, y, z, t, d);
    }
  }

  /** Addition is complete: over a prime p and with d not a square, the sum of any two curve points
      with invertible Z has an invertible Z. */
  lemma SumIsComplete(p: Ge, q: Ge, inv: int -> int)
    requires OnCurve(p) && OnCurve(q) && !Eq(p.z, 0) && !Eq(q.z, 0)
    requires Inverts(inv) && forall r: int :: !IsRoot(r, D)
    ensures !Eq(Sum(p, q).z, 0)
  {
    hide Cong, D, Eq, Sum, Inverts, OnCurve, PartF, PartG, IsRoot;
    var f, g := PartF(p, q), PartG(p, q);
    FNonZero(p, q, inv);
    GNonZero(p, q, inv);
    FourNonZero();
    NonZeroProduct(f, g, inv);
    NonZeroProduct(4, f * g, inv);
    SumParts(p, q);
    NotZeroEq(Sum(p, q).z, 4 * (f * g));
  }

  lemma FourNonZero()
    ensures !Eq(4, 0)
  {
    PIs();
    if Eq(4, 0) {
      CongUnique(4, 0, P);
    }
  }

  lemma FNonZero(p: Ge, q: Ge, inv: int -> int)
    requires OnCurve(p) && OnCurve(q) && !Eq(p.z, 0) && !Eq(q.z, 0)
    requires Inverts(inv) && forall r: int :: !IsRoot(r, D)
    ensures !Eq(PartF(p, q), 0)
  {
    hide Cong, D, Eq, Inverts, OnCurve, IsRoot;
    if Eq(PartF(p, q), 0) {
      Shifted(p.z * q.z, D * (p.t * q.t));
      var r := ExceptionalRoot(p, q, 1, inv);
      assert false;
    }
  }

  lemma GNonZero(p: Ge, q: Ge, inv: int -> int)
    requires OnCurve(p) && OnCurve(q) && !Eq(p.z, 0) && !Eq(q.z, 0)
    requires Inverts(inv) && forall r: int :: !IsRoot(r, D)
    ensures !Eq(PartG(p, q), 0)
  {
    hide Cong, D, Eq, Inverts, OnCurve, IsRoot;
    var dt := D * (p.t * q.t);
    if Eq(PartG(p, q), 0) {
      Shifted(p.z * q.z, (-1) * dt);
      var r := ExceptionalRoot(p, q, -1, inv);
      assert false;
    }
  }

  lemma Shifted(a: int, b: int)
    requires Eq(a - b, 0)
    ensures Eq(a, b)
  {
    hide Cong;
    Refl(b);
    CongAdd(a - b, 0, b, b, P);
  }

  lemma NotZeroEq(a: int, b: int)
    requires Eq(a, b) && !Eq(b, 0)
    ensures !Eq(a, 0)
  {
    hide Cong;
    if Eq(a, 0) {
      CongSym(a, b, P);
      CongTrans(b, a, 0, P);
    }
  }
}
