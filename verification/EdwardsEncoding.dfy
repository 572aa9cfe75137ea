/** Compressed Ed25519 points: y with the parity of x. Which encodings name a point, and which point. */
module EdwardsEncoding {
  import opened Arith
  import opened Buf
  import opened Edwards
  import opened Fe25519
  import opened EdwardsComplete

  /** (p - 5) / 8. */
  const E58: nat := 0xfff_ffff_ffff_ffff_ffff_ffff_ffff_ffff_ffff_ffff_ffff_ffff_ffff_ffff_ffff_fffd

  // x^2 = u / v
  function NumU(y: int): int { FSub(FMul(y, y), 1) }
  function DenV(y: int): int { FAdd(FMul(FMul(y, y), D), 1) }

  /** u v^3 (u v^7)^((p-5)/8). */
  function Candidate(u: int, v: int): (r: int) ensures 0 <= r < P
  {
    var v3 := FMul(FMul(v, v), v);
    var w := FMul(FMul(FMul(v3, v3), v), u);
    FMul(FMul(FPow(w, E58), v3), u)
  }

  /** A root of u / v: the candidate, or the candidate times a root of -1, or none. */
  function RootOf(u: int, v: int): (r: Option<int>)
    ensures r.Some? ==> 0 <= r.value < P
  {
    var x := Candidate(u, v);
    var vxx := FMul(FMul(x, x), v);
    if FSub(vxx, u) == 0 then Some(x)
    else if FAdd(vxx, u) == 0 then Some(FMul(x, I))
    else None
  }

  /** The point that y and a sign bit name, if there is one. */
  function Decompress(y: int, sign: int): (r: Option<Ge>)
  {
    match RootOf(NumU(y), DenV(y))
    case None => None
    case Some(x) =>
      if x == 0 && sign != 0 then None
      else
        var x' := if x % 2 != sign then FSub(0, x) else x;
        Some(Ge(x', y, 1, FMul(x', y)))
  }

  ghost predicate OnAffine(x: int, y: int)
  {
    Eq(y * y - x * x, 1 + D * ((x * x) * (y * y)))
  }

  /** v x^2 = u is the curve equation solved for x. */
  lemma RootMeansCurve(x: int, y: int)
    ensures Eq(DenV(y) * (x * x), NumU(y)) <==> OnAffine(x, y)
  {
    hide Cong, D;
    var s, q := x * x, y * y;
    var u, v := NumU(y), DenV(y);
    Refl(y);
    Refl(1);
    Refl(D);
    MulEqv(y, y, y, y);
    SubEq(FMul(y, y), 1, q, 1);
    MulEqv(FMul(y, y), D, q, D);
    AddEq(FMul(FMul(y, y), D), 1, q * D, 1);
    Refl(s);
    CongMul(v, q * D + 1, s, s, P);
    assert (q * D + 1) * s == D * (s * q) + s
      by { MulDist(s, q * D, 1); MulAssoc(D, s, q); assert (q * D) * s == D * (s * q); }
    RootSides(v * s, u, D * (s * q), s, q);
  }

  lemma RootSides(a: int, u: int, m: int, s: int, q: int)
    requires Eq(a, m + s) && Eq(u, q - 1)
    ensures Eq(a, u) <==> Eq(q - s, 1 + m)
  {
    hide Cong;
    Refl(1 - s);
    Refl(s - 1);
    if Eq(a, u) {
      CongSym(a, m + s, P);
      CongTrans(m + s, a, u, P);
      CongTrans(m + s, u, q - 1, P);
      CongAdd(m + s, q - 1, 1 - s, 1 - s, P);
      CongSym(m + 1, q - s, P);
    }
    if Eq(q - s, 1 + m) {
      CongAdd(q - s, 1 + m, s - 1, s - 1, P);
      CongSym(q - 1, m + s, P);
      CongTrans(a, m + s, q - 1, P);
      CongSym(u, q - 1, P);
      CongTrans(a, q - 1, u, P);
    }
  }

  lemma ZeroDifference(a: int, b: int)
    ensures FSub(a, b) == 0 <==> Eq(a, b)
    ensures FAdd(a, b) == 0 <==> Eq(a, -b)
  {
    CongModZero(a, b, P);
    CongModZero(a, -b, P);
  }

  /** Whatever root comes back is one. */
  lemma RootIsRoot(u: int, v: int)
    requires RootOf(u, v).Some?
    ensures Eq(v * (RootOf(u, v).value * RootOf(u, v).value), u)
  {
    var x := Candidate(u, v);
    var vxx := FMul(FMul(x, x), v);
    ZeroDifference(vxx, u);
    hide Cong, Candidate, I;
    Refl(x);
    Refl(v);
    MulEqv(x, x, x, x);
    MulEqv(FMul(x, x), v, x * x, v);
    CongSym(vxx, (x * x) * v, P);
    if FSub(vxx, u) == 0 {
      CongTrans(v * (x * x), vxx, u, P);
    } else {
      CongTrans(v * (x * x), vxx, -u, P);
      ISquare(x);
      Refl(I);
      MulEqv(x, I, x, I);
      var r := FMul(x, I);
      CongMul(r, x * I, r, x * I, P);
      assert (x * I) * (x * I) == (I * x) * (I * x);
      CongTrans(r * r, (I * x) * (I * x), -(x * x), P);
      CongMul(v, v, r * r, -(x * x), P);
      Refl(-1);
      CongMul(-1, -1, v * (x * x), -u, P);
      assert v * (-(x * x)) == (-1) * (v * (x * x));
      CongTrans(v * (r * r), (-1) * (v * (x * x)), u, P);
    }
  }

  lemma NegRoot(x: int)
    ensures Eq(FSub(0, x) * FSub(0, x), x * x)
  {
    hide Cong;
    Refl(0);
    Refl(x);
    SubEq(0, x, 0, x);
    CongMul(FSub(0, x), 0 - x, FSub(0, x), 0 - x, P);
    assert (0 - x) * (0 - x) == x * x;
  }

  /** Every accepted encoding names a point of the curve with the right y and sign. */
  lemma DecompressSound(y: int, sign: int)
    requires 0 <= y < P && 0 <= sign <= 1 && Decompress(y, sign).Some?
    ensures var g := Decompress(y, sign).value;
            OnCurve(g) && g.z == 1 && g.y == y && 0 <= g.x < P && g.x % 2 == sign && OnAffine(g.x, y)
  {
    var u, v := NumU(y), DenV(y);
    var x := RootOf(u, v).value;
    var g := Decompress(y, sign).value;
    RootIsRoot(u, v);
    NegParity(x);
    NegRoot(x);
    hide Cong, D, RootOf, NumU, DenV;
    if x % 2 != sign {
      Refl(v);
      CongMul(v, v, g.x * g.x, x * x, P);
      CongTrans(v * (g.x * g.x), v * (x * x), u, P);
    }
    RootMeansCurve(g.x, y);
    AffineOnCurve(g);
  }

  lemma NegParity(x: int)
    requires 0 <= x < P
    ensures x > 0 ==> FSub(0, x) == P - x && FSub(0, x) % 2 != x % 2
  {
    PIs();
    if x > 0 {
      DivModUnique(0 - x, -1, P - x, P);
    }
  }

  lemma AffineOnCurve(g: Ge)
    requires OnAffine(g.x, g.y) && g.z == 1 && g.t == FMul(g.x, g.y)
    ensures OnCurve(g)
  {
    hide Cong, D;
    Refl(g.x);
    Refl(g.y);
    MulEqv(g.x, g.y, g.x, g.y);
    CongSym(g.t, g.x * g.y, P);
    CongMul(g.t, g.x * g.y, g.t, g.x * g.y, P);
    Shuffle(g.x, g.y, g.x, g.y);
    Refl(D);
    CongMul(D, D, g.t * g.t, (g.x * g.x) * (g.y * g.y), P);
    Refl(1);
    CongAdd(1, 1, D * (g.t * g.t), D * ((g.x * g.x) * (g.y * g.y)), P);
    CongSym(1 + D * (g.t * g.t), 1 + D * ((g.x * g.x) * (g.y * g.y)), P);
    CongTrans(g.y * g.y - g.x * g.x, 1 + D * ((g.x * g.x) * (g.y * g.y)), 1 + D * (g.t * g.t), P);
  }

  // ----- over a prime field nothing that names a point is refused

  ghost predicate Fermat()
  {
    forall a: int {:trigger Pow(a, P - 1)} :: !Eq(a, 0) ==> Eq(Pow(a, P - 1), 1)
  }

  lemma {:induction false} PowProduct(a: int, b: int, k: nat)
    ensures Pow(a * b, k) == Pow(a, k) * Pow(b, k)
  {
    if k > 0 {
      PowProduct(a, b, k - 1);
      Shuffle(a, b, Pow(a, k - 1), Pow(b, k - 1));
    }
  }

  lemma SmallPowers(v: int)
    ensures Pow(v, 1) == v && Pow(v, 2) == v * v && Pow(v, 3) == (v * v) * v
  {
    assert Pow(v, 1) == v * Pow(v, 0);
    assert Pow(v, 2) == v * Pow(v, 1);
    assert Pow(v, 3) == v * Pow(v, 2);
  }

  /** u v^7, with u = v w^2, is (v^4)^2 w^2. */
  lemma RadicandEq(u: int, v: int, w: int)
    requires Eq(u, v * (w * w))
    ensures var v3 := FMul(FMul(v, v), v);
            Eq(v3, Pow(v, 3)) && Eq(FMul(FMul(FMul(v3, v3), v), u), Pow(v, 8) * Pow(w, 2))
  {
    SmallPowers(v);
    SmallPowers(w);
    PowAdd(v, 3, 3);
    PowAdd(v, 6, 1);
    PowAdd(v, 7, 1);
    hide Cong, Pow, FMul;
    var v3 := FMul(FMul(v, v), v);
    Refl(v);
    MulEqv(v, v, v, v);
    MulEqv(FMul(v, v), v, v * v, v);
    MulEqv(v3, v3, Pow(v, 3), Pow(v, 3));
    MulEqv(FMul(v3, v3), v, Pow(v, 6), v);
    MulEqv(FMul(FMul(v3, v3), v), u, Pow(v, 7), v * (w * w));
    MulAssoc(Pow(v, 7), v, w * w);
  }

  lemma Exponents()
    ensures 8 * E58 + 4 == P - 1 && 4 * E58 + 4 == (P - 1) / 2 + 2 && 2 * ((P - 1) / 2) == P - 1
  {
    PIs();
  }

  /** The candidate is w^(2k+2), for k = (p-5)/8. */
  lemma CandidateEq(u: int, v: int, w: int)
    requires Fermat() && !Eq(v, 0) && Eq(u, v * (w * w))
    ensures Eq(Candidate(u, v), Pow(w, 2 * E58 + 2))
  {
    Exponents();
    hide Cong, Pow, FMul, E58;
    var v3 := FMul(FMul(v, v), v);
    var rad := FMul(FMul(FMul(v3, v3), v), u);
    var k := E58;
    RadicandEq(u, v, w);
    CongPow(rad, Pow(v, 8) * Pow(w, 2), k, P);
    PowProduct(Pow(v, 8), Pow(w, 2), k);
    PowMul(v, 8, k);
    PowMul(w, 2, k);
    CongMod(Pow(rad, k), P);
    CongTrans(FPow(rad, k), Pow(rad, k), Pow(v, 8 * k) * Pow(w, 2 * k), P);
    var a, b := Pow(v, 8 * k), Pow(w, 2 * k);
    MulEqv(FPow(rad, k), v3, a * b, Pow(v, 3));
    MulEqv(FMul(FPow(rad, k), v3), u, (a * b) * Pow(v, 3), v * (w * w));
    PowAdd(v, 8 * k, 3);
    PowAdd(v, 8 * k + 3, 1);
    PowAdd(w, 2 * k, 2);
    SmallPowers(v);
    SmallPowers(w);
    Gather(a, b, Pow(v, 3), v, w * w);
    Refl(Pow(w, 2 * k + 2));
    CongMul(Pow(v, P - 1), 1, Pow(w, 2 * k + 2), Pow(w, 2 * k + 2), P);
    CongTrans(Candidate(u, v), Pow(v, P - 1) * Pow(w, 2 * k + 2), Pow(w, 2 * k + 2), P);
  }

  lemma Gather(a: int, b: int, c: int, d: int, e: int)
    ensures ((a * b) * c) * (d * e) == ((a * c) * d) * (b * e)
  {
    assert (a * b) * c == (a * c) * b;
    Shuffle(a * c, b, d, e);
  }

  /** w^((p-1)/2) is 1 or -1. */
  lemma Euler(w: int, inv: int -> int)
    requires Fermat() && Inverts(inv) && !Eq(w, 0)
    ensures var s := Pow(w, (P - 1) / 2); Eq(s, 1) || Eq(s, -1)
  {
    Exponents();
    hide Cong, Pow, Inverts;
    var s := Pow(w, (P - 1) / 2);
    PowAdd(w, (P - 1) / 2, (P - 1) / 2);
    Refl(1);
    CongAdd(s * s, 1, 1, 1, P);
    assert (s - 1) * (s + 1) == s * s - 1;
    if !Eq(s - 1, 0) && !Eq(s + 1, 0) {
      NonZeroProduct(s - 1, s + 1, inv);
    }
    if Eq(s - 1, 0) {
      Shifted(s, 1);
    }
    if Eq(s + 1, 0) {
      Shifted(s, -1);
    }
  }

  /** If u / v has a root at all, one is found. */
  lemma RootFound(u: int, v: int, w: int, inv: int -> int)
    requires Fermat() && Inverts(inv) && !Eq(v, 0) && Eq(u, v * (w * w))
    ensures RootOf(u, v).Some?
  {
    var x := Candidate(u, v);
    var vxx := FMul(FMul(x, x), v);
    ZeroDifference(vxx, u);
    Exponents();
    hide Cong, Pow, FMul, FAdd, FSub, Candidate, Inverts, Fermat, E58;
    CandidateEq(u, v, w);
    var c := Pow(w, 2 * E58 + 2);
    Refl(v);
    MulEqv(x, x, c, c);
    MulEqv(FMul(x, x), v, c * c, v);
    PowAdd(w, 2 * E58 + 2, 2 * E58 + 2);
    PowAdd(w, (P - 1) / 2, 2);
    SmallPowers(w);
    var s := Pow(w, (P - 1) / 2);
    assert (c * c) * v == s * (v * (w * w)) by { MulAssoc(s, v, w * w); assert (s * (w * w)) * v == s * (v * (w * w)); }
    Refl(s);
    CongSym(u, v * (w * w), P);
    CongMul(s, s, v * (w * w), u, P);
    CongTrans(vxx, s * (v * (w * w)), s * u, P);
    if Eq(w, 0) {
      ZeroRoot(u, v, w, s);
      CongTrans(vxx, s * u, 0, P);
      CongSym(u, 0, P);
      CongTrans(vxx, 0, u, P);
    } else {
      Euler(w, inv);
      Refl(u);
      var sign := if Eq(s, 1) then 1 else -1;
      CongMul(s, sign, u, u, P);
      assert sign * u == if sign == 1 then u else -u;
      CongTrans(vxx, s * u, sign * u, P);
    }
  }

  lemma ZeroRoot(u: int, v: int, w: int, s: int)
    requires Eq(w, 0) && Eq(u, v * (w * w))
    ensures Eq(u, 0) && Eq(s * u, 0)
  {
    hide Cong;
    Refl(v);
    Refl(s);
    CongMul(w, 0, w, 0, P);
    CongMul(v, v, w * w, 0, P);
    CongTrans(u, v * (w * w), 0, P);
    CongMul(s, s, u, 0, P);
  }

  /** 1 + d y^2 is never zero, because d is not a square. */
  lemma DenNonZero(y: int, inv: int -> int)
    requires Inverts(inv) && forall r: int :: !IsRoot(r, D)
    ensures !Eq(DenV(y), 0)
  {
    hide Cong, D, I, FMul, FAdd;
    var v := DenV(y);
    Refl(y);
    Refl(1);
    Refl(D);
    MulEqv(y, y, y, y);
    MulEqv(FMul(y, y), D, y * y, D);
    AddEq(FMul(FMul(y, y), D), 1, (y * y) * D, 1);
    if Eq(v, 0) {
      CongSym(v, (y * y) * D + 1, P);
      CongTrans((y * y) * D + 1, v, 0, P);
      Shifted((y * y) * D, -1);
      YNonZero(y);
      var r := MinusInverseRoot(y, inv);
      assert false;
    }
  }

  lemma YNonZero(y: int)
    requires Eq((y * y) * D, -1)
    ensures !Eq(y, 0)
  {
    assert !Eq(-1, 0) by { DivModUnique(-1, -1, P - 1, P); }
    if Eq(y, 0) {
      hide Cong, D, Eq;
      YZero(y);
      CongChain(y);
    }
  }

  lemma YZero(y: int)
    requires Eq(y, 0)
    ensures Eq((y * y) * D, 0)
  {
    hide Cong, D;
    Refl(D);
    CongMul(y, 0, y, 0, P);
    CongMul(y * y, 0, D, D, P);
  }

  lemma CongChain(y: int)
    requires Eq((y * y) * D, -1) && Eq((y * y) * D, 0)
    ensures Eq(-1, 0)
  {
    hide Cong, D;
    CongSym((y * y) * D, -1, P);
    CongTrans(-1, (y * y) * D, 0, P);
  }

  lemma MinusInverseRoot(y: int, inv: int -> int) returns (r: int)
    requires Inverts(inv) && !Eq(y, 0) && Eq((y * y) * D, -1)
    ensures IsRoot(r, D)
  {
    hide Cong, D, I;
    var k := inv(y);
    r := I * k;
    ISquare(k);
    CongMul(y * k, 1, y * k, 1, P);
    Shuffle(y, k, y, k);
    Refl(D);
    Refl(k * k);
    CongMul((y * y) * D, -1, k * k, k * k, P);
    CongMul((y * k) * (y * k), 1, D, D, P);
    assert ((y * y) * D) * (k * k) == ((y * k) * (y * k)) * D;
    CongSym(((y * k) * (y * k)) * D, -(k * k), P);
    CongTrans(-(k * k), ((y * k) * (y * k)) * D, D, P);
    CongTrans(r * r, -(k * k), D, P);
  }

  /** Two roots of the same square are equal or opposite. */
  lemma RootsOpposite(v: int, r: int, x: int, inv: int -> int)
    requires Inverts(inv) && !Eq(v, 0) && 0 <= r < P && 0 <= x < P && Eq(v * (r * r), v * (x * x))
    ensures r == x || r == P - x
  {
    hide Cong, Inverts;
    CongSym(v * (r * r), v * (x * x), P);
    Refl(v * (x * x));
    CongAdd(v * (r * r), v * (x * x), v * (x * x), v * (x * x), P);
    assert v * (r * r) - v * (x * x) == v * ((r - x) * (r + x)) by {
      assert (r - x) * (r + x) == r * r - x * x;
      MulDist(v, r * r, -(x * x));
    }
    if !Eq(r - x, 0) && !Eq(r + x, 0) {
      NonZeroProduct(r - x, r + x, inv);
      NonZeroProduct(v, (r - x) * (r + x), inv);
    }
    if Eq(r - x, 0) {
      Shifted(r, x);
      CongUnique(r, x, P);
    } else {
      OppositeRoot(r, x);
    }
  }

  lemma OppositeRoot(r: int, x: int)
    requires 0 <= r < P && 0 <= x < P && Eq(r + x, 0) && !Eq(r - x, 0)
    ensures r == P - x
  {
    var k := CongBy(r + x, 0, P);
    if k >= 2 {
      MulMono(2, k, P);
      assert false;
    } else if k <= 0 {
      MulMono(k, 0, P);
      assert r == x == 0;
      Refl(0);
      assert false;
    }
    assert k == 1;
  }

  /** Any affine curve point is what its own encoding decompresses to. */
  lemma DecompressComplete(x: int, y: int, inv: int -> int)
    requires 0 <= x < P && 0 <= y < P && OnAffine(x, y)
    requires Fermat() && Inverts(inv) && forall r: int :: !IsRoot(r, D)
    ensures Decompress(y, x % 2) == Some(Ge(x, y, 1, FMul(x, y)))
  {
    var u, v := NumU(y), DenV(y);
    RootMeansCurve(x, y);
    DenNonZero(y, inv);
    assert Eq(u, v * (x * x)) by { CongSym(v * (x * x), u, P); }
    RootFound(u, v, x, inv);
    RootIsRoot(u, v);
    var r := RootOf(u, v).value;
    assert Eq(v * (r * r), v * (x * x)) by { CongTrans(v * (r * r), u, v * (x * x), P); }
    RootsOpposite(v, r, x, inv);
    NegParity(r);
    NegParity(x);
  }

  // ----- compression

  function Inverse(z: int): int { FPow(z, P - 2) }

  /** The affine coordinates that are encoded. */
  function AffineX(g: Ge): (r: int) ensures 0 <= r < P { FMul(g.x, Inverse(g.z)) }
  function AffineY(g: Ge): (r: int) ensures 0 <= r < P { FMul(g.y, Inverse(g.z)) }

  lemma InverseEq(z: int)
    requires Fermat() && !Eq(z, 0)
    ensures Eq(z * Inverse(z), 1)
  {
    assert Pow(z, P - 1) == z * Pow(z, P - 2);
    hide Cong, Pow;
    CongMod(Pow(z, P - 2), P);
    Refl(z);
    CongMul(z, z, Inverse(z), Pow(z, P - 2), P);
    CongTrans(z * Inverse(z), Pow(z, P - 1), 1, P);
  }

  /** The affine coordinates satisfy the curve equation and g stands for them. */
  lemma AffineOf(g: Ge, k: int, x: int, y: int)
    requires OnCurve(g) && Eq(g.z * k, 1) && Eq(x, g.x * k) && Eq(y, g.y * k)
    ensures OnAffine(x, y) && StandsFor(g, x, y)
  {
    hide Cong, D;
    ScaleBack(x, g.x, k, g.z);
    ScaleBack(y, g.y, k, g.z);
    CongMul(x, g.x * k, y, g.y * k, P);
    Shuffle(g.x, k, g.y, k);
    Refl(k * k);
    CongMul(g.x * g.y, g.z * g.t, k * k, k * k, P);
    CongTrans(x * y, (g.x * g.y) * (k * k), (g.z * g.t) * (k * k), P);
    Refl(g.t * k);
    CongMul(g.z * k, 1, g.t * k, g.t * k, P);
    Shuffle(g.z, k, g.t, k);
    CongTrans(x * y, (g.z * g.t) * (k * k), g.t * k, P);
    ScaleBack(x * y, g.t, k, g.z);
    AffineEquation(g, k, x, y);
  }

  lemma ScaleBack(x: int, a: int, k: int, z: int)
    requires Eq(x, a * k) && Eq(z * k, 1)
    ensures Eq(a, x * z)
  {
    hide Cong;
    Refl(z);
    Refl(a);
    CongMul(x, a * k, z, z, P);
    CongMul(a, a, z * k, 1, P);
    assert (a * k) * z == a * (z * k);
    CongTrans(x * z, a * (z * k), a, P);
    CongSym(x * z, a, P);
  }

  lemma AffineEquation(g: Ge, k: int, x: int, y: int)
    requires OnCurve(g) && Eq(g.z * k, 1) && Eq(x, g.x * k) && Eq(y, g.y * k) && Eq(x * y, g.t * k)
    ensures OnAffine(x, y)
  {
    hide Cong, D, Eq;
    var kk := k * k;
    SquareScaled(x, g.x, k);
    SquareScaled(y, g.y, k);
    LeftScaled(x * x, y * y, g.x * g.x, g.y * g.y, kk);
    SquareScaled(x * y, g.t, k);
    Shuffle(x, y, x, y);
    SquareIsOne(g.z, k);
    RightScaled(g.z * g.z, g.t * g.t, kk, (x * x) * (y * y), D);
    EquationScaled(y * y - x * x, g.y * g.y - g.x * g.x, g.z * g.z + D * (g.t * g.t), kk, 1 + D * ((x * x) * (y * y)));
  }

  lemma SquareScaled(x: int, a: int, k: int)
    requires Eq(x, a * k)
    ensures Eq(x * x, (a * a) * (k * k))
  {
    hide Cong;
    CongMul(x, a * k, x, a * k, P);
    Shuffle(a, k, a, k);
  }

  lemma SquareIsOne(z: int, k: int)
    requires Eq(z * k, 1)
    ensures Eq((z * z) * (k * k), 1)
  {
    hide Cong;
    CongMul(z * k, 1, z * k, 1, P);
    Shuffle(z, k, z, k);
  }

  lemma LeftScaled(xx: int, yy: int, aa: int, bb: int, kk: int)
    requires Eq(xx, aa * kk) && Eq(yy, bb * kk)
    ensures Eq(yy - xx, (bb - aa) * kk)
  {
    hide Cong;
    CongAdd(yy, bb * kk, xx, aa * kk, P);
    MulDist(kk, bb, -aa);
  }

  lemma RightScaled(zz: int, tt: int, kk: int, s: int, d: int)
    requires Eq(zz * kk, 1) && Eq(s, tt * kk)
    ensures Eq((zz + d * tt) * kk, 1 + d * s)
  {
    hide Cong;
    MulDist(kk, zz, d * tt);
    Refl(d);
    CongMul(d, d, s, tt * kk, P);
    MulAssoc(d, tt, kk);
    CongSym(d * s, d * (tt * kk), P);
    CongAdd(zz * kk, 1, (d * tt) * kk, d * s, P);
  }

  lemma EquationScaled(l: int, a: int, b: int, kk: int, r: int)
    requires Eq(l, a * kk) && Eq(a, b) && Eq(b * kk, r)
    ensures Eq(l, r)
  {
    hide Cong;
    Refl(kk);
    CongMul(a, b, kk, kk, P);
    CongTrans(l, a * kk, b * kk, P);
    CongTrans(l, b * kk, r, P);
  }

  /** Compressing a curve point and decompressing the result gives the same point with Z = 1. */
  lemma CompressRoundTrip(g: Ge, inv: int -> int)
    requires OnCurve(g) && !Eq(g.z, 0)
    requires Fermat() && Inverts(inv) && forall r: int :: !IsRoot(r, D)
    ensures StandsFor(g, AffineX(g), AffineY(g))
    ensures Decompress(AffineY(g), AffineX(g) % 2) ==
            Some(Ge(AffineX(g), AffineY(g), 1, FMul(AffineX(g), AffineY(g))))
  {
    hide Cong, D, Decompress, Inverts, Fermat, Inverse;
    var k := Inverse(g.z);
    InverseEq(g.z);
    Refl(g.x);
    Refl(g.y);
    Refl(k);
    MulEqv(g.x, k, g.x, k);
    MulEqv(g.y, k, g.y, k);
    AffineOf(g, k, AffineX(g), AffineY(g));
    DecompressComplete(AffineX(g), AffineY(g), inv);
  }
}
