/** The verifier accepts what a signer makes: with r = x(kG) mod n and s k = e + r d mod n, under the key dG. */
module P256Signature {
  import opened Arith
  import opened Groups
  import opened Jacobian
  import opened JacobianGroup
  import opened JacobianLaw
  import opened P256Constants
  import opened P256Verify
  import Limbs
  import Fe25519

  ghost function FieldInverse(a: int): int { Pow(a, Q - 2) }

  /** n is prime: a^(n-2) inverts a. */
  ghost predicate OrderFermat()
  {
    forall a: int {:trigger Pow(a, N - 2)} :: !Cong(a, 0, N) ==> Cong(a * Pow(a, N - 2), 1, N)
  }

  /** Points that stand for the same group element have the same affine x. */
  ghost predicate Faithful<G(!new)>(phi: Jac -> G)
  {
    forall p, q :: Valid(p) && Valid(q) && phi(p) == phi(q) && q.z != 0 ==>
      p.z != 0 && Same(p.x * (q.z * q.z), q.x * (p.z * p.z))
  }

  // ----- the scalars

  /** (e/s) + (r/s) d = k when s k = e + r d. */
  lemma ScalarsMeet(e: nat, r: nat, s: nat, d: nat, k: nat, w: nat)
    requires Cong(s * w, 1, N) && Cong(s * k, e + r * d, N)
    ensures Cong(((e % N) * w) % N + ((r * w) % N) * d, k, N)
  {
    hide Cong;
    var u1, u2 := ((e % N) * w) % N, (r * w) % N;
    CongMod(e, N);
    CongRefl(w, N);
    CongRefl(d, N);
    CongRefl(k, N);
    CongMul(e % N, e, w, w, N);
    CongMod((e % N) * w, N);
    CongTrans(u1, (e % N) * w, e * w, N);
    CongMod(r * w, N);
    CongMul(u2, r * w, d, d, N);
    CongAdd(u1, e * w, u2 * d, (r * w) * d, N);
    Gather(e, r, d, w);
    CongSym(s * k, e + r * d, N);
    CongMul(e + r * d, s * k, w, w, N);
    CongTrans(u1 + u2 * d, (e + r * d) * w, (s * k) * w, N);
    CongMul(s * w, 1, k, k, N);
    assert (s * k) * w == (s * w) * k;
    CongTrans((s * k) * w, 1 * k, k, N);
    CongTrans(u1 + u2 * d, (s * k) * w, k, N);
  }

  lemma Gather(e: int, r: int, d: int, w: int)
    ensures e * w + (r * w) * d == (e + r * d) * w
  {
    assert (r * w) * d == (r * d) * w;
  }

  lemma InverseOf(s: nat)
    requires OrderFermat() && 0 < s < N
    ensures Cong(s * (Pow(s, N - 2) % N), 1, N)
  {
    hide Pow;
    if Cong(s, 0, N) {
      CongUnique(s, 0, N);
    }
    hide Cong;
    var t := Pow(s, N - 2);
    CongMod(t, N);
    CongRefl(s, N);
    CongMul(s, s, t % N, t, N);
    CongTrans(s * (t % N), s * t, 1, N);
  }

  // ----- the point

  /** X (Z^2)^(p-2) is x when X = x Z^2. */
  lemma AffineXIs(p: Jac, x: int)
    requires Inverts(FieldInverse) && 0 <= x < Q && 0 <= p.z < Q && p.z != 0 && Same(p.x, x * (p.z * p.z))
    ensures QMul(p.x, Pow(QMul(p.z, p.z), Q - 2) % Q) == x
  {
    hide Cong, Pow;
    var t := QMul(p.z, p.z);
    var i := Pow(t, Q - 2);
    SmallNonZero(p.z);
    NonZero(p.z, p.z, FieldInverse);
    SameRefl(p.z);
    SameAdd(p.z, p.z, p.z, p.z);
    if Same(t, 0) {
      SameRefl(t);
      SameTrans(t, t, p.z * p.z);
      SameTrans(p.z * p.z, t, 0);
    }
    assert FieldInverse(t) == i;
    hide QMul;
    CongMod(i, Q);
    SameAdd(p.x, i % Q, x * (p.z * p.z), i);
    SameRefl(i);
    SameOps(t, i, p.z * p.z, i);
    SameRefl(t * i);
    SameTrans(t * i, t * i, (p.z * p.z) * i);
    SameTrans((p.z * p.z) * i, t * i, 1);
    SameRefl(x);
    SameOps(x, (p.z * p.z) * i, x, 1);
    MulAssoc(x, p.z * p.z, i);
    SameTrans(QMul(p.x, i % Q), x * ((p.z * p.z) * i), x * 1);
    CongUnique(QMul(p.x, i % Q), x, Q);
  }

  /** Two points with the same affine x. */
  lemma SameX(p: Jac, q: Jac, x: int)
    requires Inverts(FieldInverse) && 0 < q.z < Q && Same(p.x * (q.z * q.z), q.x * (p.z * p.z)) &&
             Same(q.x, x * (q.z * q.z))
    ensures Same(p.x, x * (p.z * p.z))
  {
    SmallNonZero(q.z);
    hide Same;
    var c, d := q.z * q.z, p.z * p.z;
    NonZero(q.z, q.z, FieldInverse);
    SameRefl(d);
    SameOps(q.x, d, x * c, d);
    SameTrans(p.x * c, q.x * d, (x * c) * d);
    assert (x * c) * d == c * (x * d);
    SameZero(p.x * c, c * (x * d));
    TakeAway(c, p.x, x * d);
    Cancel(c, p.x - x * d, FieldInverse);
    SameZero(p.x, x * d);
  }

  lemma TakeAway(k: int, a: int, b: int)
    ensures a * k - k * b == k * (a - b)
  {
  }

  /** (0, 0) is not on the curve, so the verifier's test for it never decides anything. */
  lemma OriginNotOnCurve()
    ensures !Same(0 * 0, Cubic(0, 1))
  {
    Ranges();
    if Same(0, CURVE_B) {
      CongUnique(0, CURVE_B, Q);
    }
  }

  /** Every honest signature is accepted, for every key d, nonce k and digest e. */
  lemma HonestSignature<G(!new)>(x: nat, y: nat, d: nat, k: nat, e: nat, point: Jac, xr: nat, r: nat, s: nat,
                                 phi: Jac -> G, add: (G, G) -> G, zero: G)
    requires Group(add, zero) && Represents(phi, add, zero) && Faithful(phi)
    requires Inverts(FieldInverse) && OrderFermat() && Times(N, phi(BASE), add, zero) == zero
    requires x < Q && y < Q && Same(y * y, Cubic(x, 1)) && phi(Jac(x, y, 1)) == Times(d, phi(BASE), add, zero)
    requires Valid(point) && point.z != 0 && phi(point) == Times(k, phi(BASE), add, zero)
    requires xr < Q && Same(point.x, xr * (point.z * point.z)) && r == xr % N && 0 < r
    requires 0 < s < N && Cong(s * k, e + r * d, N)
    ensures Accepts(x, y, e, r, s)
  {
    hide Group, Represents, Times, Pow, Cong, Shamir, QMul, Cubic, OrderFermat, Inverts, Same, Faithful, Valid;
    var u1, u2 := Multipliers(e, r, s, d, k);
    HonestPoint(x, y, d, k, u1, u2, point, xr, phi, add, zero);
    OriginNotOnCurve();
  }

  /** The point that the verifier recomputes has the x-coordinate of the signer's. */
  lemma HonestPoint<G(!new)>(x: nat, y: nat, d: nat, k: nat, u1: nat, u2: nat, point: Jac, xr: nat,
                             phi: Jac -> G, add: (G, G) -> G, zero: G)
    requires Group(add, zero) && Represents(phi, add, zero) && Faithful(phi)
    requires Inverts(FieldInverse) && Times(N, phi(BASE), add, zero) == zero
    requires x < Q && y < Q && Same(y * y, Cubic(x, 1)) && phi(Jac(x, y, 1)) == Times(d, phi(BASE), add, zero)
    requires Valid(point) && point.z != 0 && phi(point) == Times(k, phi(BASE), add, zero)
    requires xr < Q && Same(point.x, xr * (point.z * point.z))
    requires u1 < Pow(2, 256) && u2 < Pow(2, 256) && Cong(u1 + u2 * d, k, N)
    ensures var p := Shamir(BASE, Jac(x, y, 1), u1, u2, 0);
            p.z != 0 && QMul(p.x, Pow(QMul(p.z, p.z), Q - 2) % Q) == xr
  {
    hide Group, Represents, Times, Pow, Cong, Shamir, QMul, Cubic, Inverts, Same;
    KeyValid(x, y);
    BaseValid();
    var g := phi(BASE);
    ShamirComputes(BASE, Jac(x, y, 1), u1, u2, phi, add, zero);
    TimesTimes(u2, d, g, add, zero);
    TimesAdd(u1, u2 * d, g, add, zero);
    TimesSame(u1 + u2 * d, k, N, g, add, zero);
    var p := Shamir(BASE, Jac(x, y, 1), u1, u2, 0);
    SameX(p, point, xr);
    AffineXIs(p, xr);
  }

  lemma Multipliers(e: nat, r: nat, s: nat, d: nat, k: nat) returns (u1: nat, u2: nat)
    requires OrderFermat() && 0 < s < N && Cong(s * k, e + r * d, N)
    ensures var w := Pow(s, N - 2) % N; u1 == ((e % N) * w) % N && u2 == (r * w) % N
    ensures u1 < Pow(2, 256) && u2 < Pow(2, 256) && Cong(u1 + u2 * d, k, N)
  {
    hide OrderFermat, Pow, Cong;
    var w := Pow(s, N - 2) % N;
    u1, u2 := ((e % N) * w) % N, (r * w) % N;
    InverseOf(s);
    ScalarsMeet(e, r, s, d, k, w);
    Small(u1);
    Small(u2);
  }

  lemma Small(u: nat)
    requires u < N
    ensures u < Pow(2, 256)
  {
    hide Pow;
    NIs();
    Limbs.BIsPow2(8);
    Fe25519.Weights();
  }

  lemma KeyValid(x: nat, y: nat)
    requires x < Q && y < Q && Same(y * y, Cubic(x, 1))
    ensures Valid(Jac(x, y, 1))
  {
    hide Same;
    assert 1 * 1 == 1;
  }

  lemma BaseValid()
    ensures Valid(BASE)
  {
    hide Same;
    BasePoint();
    Ranges();
  }

  // ----- what is accepted, and nothing else

  /** u = e/s modulo n, both ways. */
  lemma Quotient(e: nat, s: nat, w: nat, u: nat)
    requires Cong(s * w, 1, N) && u < N
    ensures Cong(s * u, e, N) <==> u == ((e % N) * w) % N
  {
    hide Cong;
    var v := ((e % N) * w) % N;
    QuotientMeets(e, s, w);
    CongMod((e % N) * w, N);
    if Cong(s * u, e, N) {
      CongSym(s * v, e, N);
      CongTrans(s * u, e, s * v, N);
      CongCancel(u, v, s, w, N);
      CongUnique(u, v, N);
    }
  }

  lemma QuotientMeets(e: nat, s: nat, w: nat)
    requires Cong(s * w, 1, N)
    ensures Cong(s * (((e % N) * w) % N), e, N)
  {
    hide Cong;
    var f := e % N;
    CongMod(e, N);
    CongMod(f * w, N);
    CongRefl(s, N);
    CongRefl(f, N);
    CongMul(s, s, (f * w) % N, f * w, N);
    CongMul(f, f, s * w, 1, N);
    Regroup(s, f, w);
    CongTrans(s * ((f * w) % N), s * (f * w), f * 1, N);
    CongTrans(s * ((f * w) % N), f, e, N);
  }

  lemma Regroup(s: int, f: int, w: int)
    ensures s * (f * w) == f * (s * w)
  {
  }

  /** The two scalars that the verifier computes are the quotients e/s and r/s. */
  lemma ScalarsExact(e: nat, r: nat, s: nat, u1: nat, u2: nat)
    requires OrderFermat() && 0 < r < N && 0 < s < N && u1 < N && u2 < N
    ensures var w := Pow(s, N - 2) % N;
            (Cong(s * u1, e, N) && Cong(s * u2, r, N)) <==> (u1 == ((e % N) * w) % N && u2 == (r * w) % N)
  {
    hide OrderFermat, Pow, Cong;
    var w := Pow(s, N - 2) % N;
    InverseOf(s);
    Quotient(e, s, w, u1);
    Quotient(r, s, w, u2);
    DivModUnique(r, 0, r, N);
  }

  lemma Scalars(e: nat, r: nat, s: nat) returns (u1: nat, u2: nat)
    requires OrderFermat() && 0 < r < N && 0 < s < N
    ensures u1 < N && u2 < N && Cong(s * u1, e, N) && Cong(s * u2, r, N)
    ensures var w := Pow(s, N - 2) % N; u1 == ((e % N) * w) % N && u2 == (r * w) % N
  {
    hide OrderFermat, Pow, Cong;
    var w := Pow(s, N - 2) % N;
    u1, u2 := ((e % N) * w) % N, (r * w) % N;
    ScalarsExact(e, r, s, u1, u2);
  }

  /** X (Z^2)^(p-2) times Z^2 is X. */
  lemma AffineXMeets(p: Jac)
    requires Inverts(FieldInverse) && 0 < p.z < Q
    ensures Same(p.x, QMul(p.x, Pow(QMul(p.z, p.z), Q - 2) % Q) * (p.z * p.z))
  {
    hide Cong, Pow;
    var t, d := QMul(p.z, p.z), p.z * p.z;
    var i := Pow(t, Q - 2);
    SmallNonZero(p.z);
    NonZero(p.z, p.z, FieldInverse);
    SameRefl(p.z);
    SameRefl(p.x);
    SameRefl(t);
    SameAdd(p.z, p.z, p.z, p.z);
    SameTrans(t, t, d);
    if Same(t, 0) {
      SameTrans(d, t, 0);
    }
    assert FieldInverse(t) == i;
    hide QMul;
    CongMod(i, Q);
    SameRefl(i);
    SameOps(d, i, t, i);
    SameTrans(d * i, t * i, 1);
    SameOps(p.x, d * i, p.x, 1);
    SameAdd(p.x, i % Q, p.x, i);
    SameRefl(d);
    SameOps(QMul(p.x, i % Q), d, p.x * i, d);
    Regroup(p.x, d, i);
    Spread(p.x, i, d);
    SameTrans(QMul(p.x, i % Q) * d, p.x * (d * i), p.x);
  }

  lemma Spread(a: int, b: int, c: int)
    ensures (a * b) * c == a * (c * b)
  {
  }

  /** The verification equation of section 6.4.2 of FIPS 186-5: R = u1 G + u2 Q is finite and its x is r, for
      u1 = e/s and u2 = r/s modulo n. */
  ghost predicate Equation<G>(x: nat, y: nat, e: nat, r: nat, s: nat, u1: nat, u2: nat, point: Jac, xr: nat,
                              phi: Jac -> G, add: (G, G) -> G, zero: G)
  {
    u1 < N && u2 < N && Cong(s * u1, e, N) && Cong(s * u2, r, N) &&
    Valid(point) && point.z != 0 &&
    phi(point) == add(Times(u1, phi(Jac(GX, GY, 1)), add, zero), Times(u2, phi(Jac(x, y, 1)), add, zero)) &&
    xr < Q && Same(point.x, xr * (point.z * point.z)) && xr % N == r
  }

  /** The verdict is the verification equation: a key on the curve, r and s in range and R = u1 G + u2 Q with x(R)
      congruent to r. */
  lemma AcceptsExact<G(!new)>(x: nat, y: nat, e: nat, r: nat, s: nat, phi: Jac -> G, add: (G, G) -> G, zero: G)
    requires Group(add, zero) && Represents(phi, add, zero) && Faithful(phi)
    requires Inverts(FieldInverse) && OrderFermat()
    ensures Accepts(x, y, e, r, s) <==>
            x < Q && y < Q && Same(y * y, x * x * x - 3 * x + CURVE_B) && 0 < r < N && 0 < s < N &&
            exists u1: nat, u2: nat, point: Jac, xr: nat :: Equation(x, y, e, r, s, u1, u2, point, xr, phi, add, zero)
  {
    hide Group, Represents, Pow, Same, Cong, Inverts, OrderFermat, Faithful, Equation, Shamir, QMul, Times;
    CubicIs(x);
    if x < Q && y < Q && Same(y * y, Cubic(x, 1)) && 0 < r < N && 0 < s < N {
      OriginNotOnCurve();
      if Accepts(x, y, e, r, s) {
        AcceptedSolves(x, y, e, r, s, phi, add, zero);
      }
      forall u1: nat, u2: nat, point: Jac, xr: nat | Equation(x, y, e, r, s, u1, u2, point, xr, phi, add, zero)
        ensures Accepts(x, y, e, r, s)
      {
        SolvedAccepted(x, y, e, r, s, u1, u2, point, xr, phi, add, zero);
      }
    }
  }

  lemma CubicIs(x: int)
    ensures Cubic(x, 1) == x * x * x - 3 * x + CURVE_B
  {
  }

  lemma AcceptedSolves<G(!new)>(x: nat, y: nat, e: nat, r: nat, s: nat, phi: Jac -> G, add: (G, G) -> G, zero: G)
    requires Group(add, zero) && Represents(phi, add, zero) && Inverts(FieldInverse) && OrderFermat()
    requires Accepts(x, y, e, r, s)
    ensures exists u1: nat, u2: nat, point: Jac, xr: nat ::
      Equation(x, y, e, r, s, u1, u2, point, xr, phi, add, zero)
  {
    hide Group, Represents, Times, Pow, Cong, Shamir, QMul, Cubic, OrderFermat, Inverts, Same, Valid;
    var u1, u2 := Scalars(e, r, s);
    var p := Recomputed(x, y, u1, u2, phi, add, zero);
    AffineXMeets(p);
    var xr := QMul(p.x, Pow(QMul(p.z, p.z), Q - 2) % Q);
    QMulRange(p.x, Pow(QMul(p.z, p.z), Q - 2) % Q);
    assert Equation(x, y, e, r, s, u1, u2, p, xr, phi, add, zero);
  }

  lemma QMulRange(a: int, b: int)
    ensures 0 <= QMul(a, b) < Q
  {
  }

  /** The point that Shamir's trick leaves, and what it stands for. */
  lemma Recomputed<G(!new)>(x: nat, y: nat, u1: nat, u2: nat, phi: Jac -> G, add: (G, G) -> G, zero: G) returns (p: Jac)
    requires Group(add, zero) && Represents(phi, add, zero) && u1 < N && u2 < N
    requires x < Q && y < Q && Same(y * y, Cubic(x, 1))
    ensures p == Shamir(BASE, Jac(x, y, 1), u1, u2, 0) && Valid(p) && 0 <= p.z < Q
    ensures phi(p) == add(Times(u1, phi(BASE), add, zero), Times(u2, phi(Jac(x, y, 1)), add, zero))
  {
    hide Group, Represents, Times, Pow, Shamir, Cubic, Same;
    p := Shamir(BASE, Jac(x, y, 1), u1, u2, 0);
    KeyValid(x, y);
    BaseValid();
    Small(u1);
    Small(u2);
    ShamirComputes(BASE, Jac(x, y, 1), u1, u2, phi, add, zero);
  }

  lemma SolvedAccepted<G(!new)>(x: nat, y: nat, e: nat, r: nat, s: nat, u1: nat, u2: nat, point: Jac, xr: nat,
                                phi: Jac -> G, add: (G, G) -> G, zero: G)
    requires Group(add, zero) && Represents(phi, add, zero) && Faithful(phi) && Inverts(FieldInverse) && OrderFermat()
    requires x < Q && y < Q && Same(y * y, Cubic(x, 1)) && 0 < r < N && 0 < s < N
    requires Equation(x, y, e, r, s, u1, u2, point, xr, phi, add, zero)
    ensures Accepts(x, y, e, r, s)
  {
    hide Group, Represents, Times, Pow, Cong, Shamir, QMul, Cubic, OrderFermat, Inverts, Same;
    ScalarsExact(e, r, s, u1, u2);
    var p := Recomputed(x, y, u1, u2, phi, add, zero);
    SameX(p, point, xr);
    AffineXIs(p, xr);
    OriginNotOnCurve();
  }
}
