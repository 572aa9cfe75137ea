/** ECDSA verification over P-256, from byte strings to a verdict. */
module P256Verify {
  import opened Arith
  import opened Limbs
  import opened Digits
  import opened Bn
  import opened Montgomery
  import opened Jacobian
  import opened JacobianGroup
  import opened P256Field
  import opened P256
  import opened P256Constants

  const BASE := Jac(GX, GY, 1)

  /** The equation of section 6.4.2 of FIPS 186-5 on numbers, with inverses as powers. */
  ghost predicate Accepts(x: nat, y: nat, e: nat, r: nat, s: nat)
  {
    x < Q && y < Q && Same(y * y, Cubic(x, 1)) && !(x == 0 && y == 0) && 0 < r < N && 0 < s < N &&
    var w := Pow(s, N - 2) % N;
    var p := Shamir(BASE, Jac(x, y, 1), ((e % N) * w) % N, (r * w) % N, 0);
    p.z != 0 && QMul(p.x, Pow(QMul(p.z, p.z), Q - 2) % Q) % N == r
  }

  // ----- p256_point_is_on_curve

  /** x^3 - 3x + b, as the field operations compute it. */
  function RightSide(x: int): int
  {
    QAdd(QSub(QMul(QMul(x, x), x), QAdd(QAdd(x, x), x)), CURVE_B)
  }

  lemma CurveCheck(x: int, y: int)
    requires 0 <= x < Q && 0 <= y < Q
    ensures QMul(y, y) == RightSide(x) <==> Same(y * y, Cubic(x, 1))
  {
    hide Cong, QAdd, QSub, QMul, CURVE_B;
    SameRefl(x);
    SameRefl(y);
    SameRefl(CURVE_B);
    SameAdd(y, y, y, y);
    SameAdd(x, x, x, x);
    SameAdd(QMul(x, x), x, x * x, x);
    SameAdd(QAdd(x, x), x, x + x, x);
    SameAdd(QMul(QMul(x, x), x), QAdd(QAdd(x, x), x), (x * x) * x, x + x + x);
    SameAdd(QSub(QMul(QMul(x, x), x), QAdd(QAdd(x, x), x)), CURVE_B, (x * x) * x - (x + x + x), CURVE_B);
    assert Cubic(x, 1) == (x * x) * x - (x + x + x) + CURVE_B;
    EqualIff(QMul(y, y), RightSide(x), y * y, Cubic(x, 1));
  }

  lemma EqualIff(a: int, b: int, c: int, d: int)
    requires 0 <= a < Q && 0 <= b < Q && Same(a, c) && Same(b, d)
    ensures a == b <==> Same(c, d)
  {
    hide Cong;
    SameRefl(a);
    SameRefl(b);
    SameTrans(a, a, c);
    SameTrans(b, b, d);
    if a == b {
      SameTrans(c, a, d);
    }
    if Same(c, d) {
      SameTrans(a, c, d);
      SameTrans(a, d, b);
      CongUnique(a, b, Q);
    }
  }

  method LoadField(c: Mod, bytes: seq<u8>) returns (r: array<u32>)
    requires c.For(Q) && |bytes| == 32 && BeVal(bytes) < Q
    ensures fresh(r) && Elem(r, Q) && Num(r, Q) == BeVal(bytes)
  {
    hide Dec, Val, BeVal, Mod.For;
    var plain := new u32[8];
    FromBe(bytes, plain);
    r := new u32[8];
    ToMont(c, r, plain, Q);
  }

  method IsOnCurve(c: Mod, x: array<u32>, y: array<u32>) returns (ok: bool)
    requires c.For(Q) && Elem(x, Q) && Elem(y, Q)
    ensures ok <==> Same(Num(y, Q) * Num(y, Q), Cubic(Num(x, Q), 1))
  {
    hide Dec, Val, BeVal, Mod.For, QAdd, QSub, QMul, B_BYTES, Same, Cubic;
    Tables();
    Ranges();
    var b := LoadField(c, B_BYTES);
    var left := NewMul(c, y, y);
    var right := NewMul(c, x, x);
    right := NewMul(c, right, x);
    var threeX := NewAdd(c, x, x);
    threeX := NewAdd(c, threeX, x);
    right := NewSub(c, right, threeX);
    right := NewAdd(c, right, b);
    assert Num(right, Q) == RightSide(Num(x, Q));
    var cmp := Cmp(left, right, 8);
    assert left[..8] == left[..] && right[..8] == right[..];
    CompareResidues(Val(left[..]), Val(right[..]));
    CurveCheck(Num(x, Q), Num(y, Q));
    return cmp == 0;
  }

  lemma CompareResidues(a: int, b: int)
    requires 0 <= a < Q && 0 <= b < Q
    ensures a == b <==> Dec(a, Q) == Dec(b, Q)
  {
    QOdd();
    if Dec(a, Q) == Dec(b, Q) {
      DecInjective(a, b, Q);
    }
  }

  // ----- tamga_p256_verify

  method NewMod(bytes: seq<u8>, ghost m: int) returns (c: Mod)
    requires |bytes| == 32 && bytes[0] >= 0x80 && bytes[31] % 2 == 1 && BeVal(bytes) == m
    ensures fresh(c) && fresh(c.m) && fresh(c.rr) && fresh(c.one) && c.For(m)
  {
    hide Mod.For, BeVal;
    c := new Mod(bytes);
  }

  method NewPoint(c: Mod, x: array<u32>, y: array<u32>) returns (p: Point)
    requires c.For(Q) && Elem(x, Q) && Elem(y, Q)
    ensures fresh(p) && fresh(p.x) && fresh(p.y) && fresh(p.z) && p.Valid()
    ensures p.Abs() == Jac(Num(x, Q), Num(y, Q), 1)
  {
    hide Dec, Val, B, IsN0Inv, Cong;
    QOdd();
    p := new Point();
    CopyLimbs(p.x, x);
    CopyLimbs(p.y, y);
    CopyLimbs(p.z, c.one);
    DecOf(Val(c.one[..]), 1, Q);
    DivModUnique(1, 0, 1, Q);
  }

  method Below(c: Mod, v: array<u32>, ghost m: int) returns (below: bool)
    requires c.For(m) && v.Length == 8
    ensures below <==> Val(v[..]) < m
  {
    hide Val, B, IsN0Inv, Cong, MontForm;
    assert v[..8] == v[..] && c.m[..8] == c.m[..];
    var cmp := Cmp(v, c.m, 8);
    return cmp < 0;
  }

  /** The point (x, y) and whether it is on the curve. */
  method LoadPoint(c: Mod, publicX: seq<u8>, publicY: seq<u8>) returns (ok: bool, q: Point)
    requires c.For(Q) && |publicX| == |publicY| == 32 && BeVal(publicX) < Q && BeVal(publicY) < Q
    ensures var x, y := BeVal(publicX), BeVal(publicY);
            (ok <==> Same(y * y, Cubic(x, 1))) && q.Abs() == Jac(x, y, 1)
    ensures fresh(q) && fresh(q.x) && fresh(q.y) && fresh(q.z) && q.Valid()
  {
    hide Dec, Val, BeVal, Same, Cubic, Mod.For;
    var x := LoadField(c, publicX);
    var y := LoadField(c, publicY);
    q := NewPoint(c, x, y);
    ok := IsOnCurve(c, q.x, q.y);
  }

  /** The public key, when both coordinates are field elements of a point that is not (0, 0). */
  method LoadPublic(c: Mod, publicX: seq<u8>, publicY: seq<u8>) returns (ok: bool, q: Point)
    requires c.For(Q) && |publicX| == |publicY| == 32
    ensures var x, y := BeVal(publicX), BeVal(publicY);
            ok <==> x < Q && y < Q && Same(y * y, Cubic(x, 1)) && !(x == 0 && y == 0)
    ensures fresh(q) && fresh(q.x) && fresh(q.y) && fresh(q.z) && q.Valid()
    ensures ok ==> q.Abs() == Jac(BeVal(publicX), BeVal(publicY), 1)
  {
    hide Val, BeVal, Same, Cubic, Mod.For, Num, Point.Valid, Point.Abs;
    var qx, qy := new u32[8], new u32[8];
    FromBe(publicX, qx);
    FromBe(publicY, qy);
    var belowX := Below(c, qx, Q);
    var belowY := Below(c, qy, Q);
    if !belowX || !belowY {
      q := new Point();
      return false, q;
    }
    ok, q := LoadPoint(c, publicX, publicY);
    if ok {
      var zx := IsZero(qx, 8);
      var zy := IsZero(qy, 8);
      ok := !(zx && zy);
    }
  }

  /** A signature half: a number in [1, n-1]. */
  method LoadScalar(c: Mod, bytes: seq<u8>) returns (ok: bool, v: array<u32>)
    requires c.For(N) && |bytes| == 32
    ensures fresh(v) && v.Length == 8 && Val(v[..]) == BeVal(bytes)
    ensures ok <==> 0 < BeVal(bytes) < N
  {
    hide Val, BeVal, Mod.For;
    v := new u32[8];
    FromBe(bytes, v);
    var zero := IsZero(v, 8);
    var below := Below(c, v, N);
    ok := !zero && below;
  }

  /** v mod n, for any v below 2^256: one subtraction is enough because n has its top bit set. */
  method ReduceOnce(c: Mod, v: array<u32>)
    requires c.For(N) && v.Length == 8 && v != c.m
    modifies v
    ensures Val(v[..]) == old(Val(v[..])) % N
  {
    hide Val, B, IsN0Inv, Cong, MontForm;
    ghost var x := Val(v[..]);
    ValBound(v[..]);
    ghost var M := c.m[..];
    assert v[..8] == v[..] && c.m[..8] == M;
    var cmp := Cmp(v, c.m, 8);
    if cmp >= 0 {
      var borrow := Sub(v, v, c.m, 8);
      assert v[..8] == v[..];
      ValBound(v[..]);
      WrapSub(x - N, Val(v[..]), borrow, B(8));
      DivModUnique(x, 1, x - N, N);
    } else {
      DivModUnique(x, 0, x, N);
    }
  }

  /** (v w) mod n, for w in Montgomery form. */
  method Multiplier(c: Mod, v: array<u32>, w: array<u32>) returns (u: array<u32>)
    requires c.For(N) && Elem(v, N) && Elem(w, N)
    ensures fresh(u) && u.Length == 8 && Val(u[..]) == (Val(v[..]) * Num(w, N)) % N
  {
    hide Dec, Val, Mod.For;
    u := new u32[8];
    ToMont(c, u, v, N);
    P256Field.MontMul(c, u, u, w, N);
    FromMont(c, u, u, N);
  }

  /** u1 = e/s and u2 = r/s modulo n. */
  method Multipliers(c: Mod, e: array<u32>, r: array<u32>, s: array<u32>) returns (u1: array<u32>, u2: array<u32>)
    requires c.For(N) && Elem(e, N) && Elem(r, N) && Elem(s, N)
    ensures fresh(u1) && fresh(u2) && u1.Length == 8 && u2.Length == 8
    ensures var w := Pow(Val(s[..]), N - 2) % N;
            Val(u1[..]) == (Val(e[..]) * w) % N && Val(u2[..]) == (Val(r[..]) * w) % N
  {
    hide Dec, Val, Pow, Mod.For;
    var w := new u32[8];
    ToMont(c, w, s, N);
    P256Field.MontInv(c, w, w, N);
    u1 := Multiplier(c, e, w);
    u2 := Multiplier(c, r, w);
  }

  /** X / Z^2, out of Montgomery form. */
  method AffineX(c: Mod, p: Point) returns (x: array<u32>)
    requires c.For(Q) && p.Valid()
    ensures fresh(x) && x.Length == 8
    ensures Val(x[..]) == QMul(p.Abs().x, Pow(QMul(p.Abs().z, p.Abs().z), Q - 2) % Q)
  {
    hide Dec, Val, Pow, Mod.For, QMul;
    var zInv := NewMul(c, p.z, p.z);
    P256Field.MontInv(c, zInv, zInv, Q);
    x := NewMul(c, p.x, zInv);
    FromMont(c, x, x, Q);
  }

  method BasePointOf(c: Mod) returns (g: Point)
    requires c.For(Q)
    ensures fresh(g) && fresh(g.x) && fresh(g.y) && fresh(g.z) && g.Valid() && g.Abs() == BASE
  {
    hide Dec, Val, BeVal, Mod.For, GX_BYTES, GY_BYTES;
    Tables();
    Ranges();
    var x := LoadField(c, GX_BYTES);
    var y := LoadField(c, GY_BYTES);
    g := NewPoint(c, x, y);
  }

  /** u1 G + u2 Q, and whether its x-coordinate modulo n is r. */
  method CheckPoint(fp: Mod, fn: Mod, q: Point, u1: array<u32>, u2: array<u32>, r: array<u32>) returns (ok: bool)
    requires fp.For(Q) && fn.For(N) && q.Valid() && u1.Length == u2.Length == r.Length == 8
    ensures var p := Shamir(BASE, q.Abs(), Val(u1[..]), Val(u2[..]), 0);
            ok <==> p.z != 0 && QMul(p.x, Pow(QMul(p.z, p.z), Q - 2) % Q) % N == Val(r[..])
  {
    hide Dec, Val, Pow, Mod.For, QMul, Shamir, Num, Point.Abs;
    var g := BasePointOf(fp);
    var point := new Point();
    DoubleScalarMul(fp, point, u1, g, u2, q);
    ok := XMatches(fp, fn, point, r);
  }

  /** Whether the point is finite and its x-coordinate modulo n is r. */
  method XMatches(fp: Mod, fn: Mod, point: Point, r: array<u32>) returns (ok: bool)
    requires fp.For(Q) && fn.For(N) && point.Valid() && r.Length == 8
    ensures var p := point.Abs(); ok <==> p.z != 0 && QMul(p.x, Pow(QMul(p.z, p.z), Q - 2) % Q) % N == Val(r[..])
  {
    hide Dec, Val, Pow, Mod.For, QMul, Num;
    var infinite := NumIsZero(point.z);
    if infinite {
      return false;
    }
    var x := AffineX(fp, point);
    ReduceOnce(fn, x);
    assert x[..8] == x[..] && r[..8] == r[..];
    var cmp := Cmp(x, r, 8);
    return cmp == 0;
  }

  /** The verdict on 32-byte big-endian inputs. */
  method Verify(publicX: seq<u8>, publicY: seq<u8>, digest: seq<u8>, r: seq<u8>, s: seq<u8>) returns (ok: bool)
    requires |publicX| == |publicY| == |digest| == |r| == |s| == 32
    ensures ok <==> Accepts(BeVal(publicX), BeVal(publicY), BeVal(digest), BeVal(r), BeVal(s))
  {
    hide Dec, Val, BeVal, Pow, Mod.For, QMul, Shamir, Same, Cubic, P_BYTES, N_BYTES, Point.Valid, Point.Abs, Num;
    Tables();
    TableEnds();
    var fp := NewMod(P_BYTES, Q);
    var fn := NewMod(N_BYTES, N);
    var q;
    ok, q := LoadPublic(fp, publicX, publicY);
    if !ok {
      return false;
    }
    var rv, sv;
    ok, rv := LoadScalar(fn, r);
    if !ok {
      return false;
    }
    ok, sv := LoadScalar(fn, s);
    if !ok {
      return false;
    }
    var e := new u32[8];
    FromBe(digest, e);
    ReduceOnce(fn, e);
    var u1, u2 := Multipliers(fn, e, rv, sv);
    ok := CheckPoint(fp, fn, q, u1, u2, rv);
  }

  lemma TableEnds()
    ensures P_BYTES[0] >= 0x80 && P_BYTES[31] % 2 == 1 && N_BYTES[0] >= 0x80 && N_BYTES[31] % 2 == 1
  {
  }
}
