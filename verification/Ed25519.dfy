/** Ed25519 points held in limb arrays: addition, scalar multiplication, compression and decompression. */
module Ed25519 {
  import opened Arith
  import opened Limbs
  import opened Digits
  import opened Fe25519
  import opened Edwards
  import opened EdwardsComplete
  import opened EdwardsEncoding
  import opened EdwardsGroup
  import Scalar25519
  import Bn
  import ModExp

  // ----- bytes and field elements

  method FeFromBytes(r: array<u32>, input: seq<u8>)
    requires r.Length == 8 && |input| == 32
    modifies r
    ensures Val(r[..]) == (LeVal(input) % TWO255) % P
  {
    hide Val, B, LeVal;
    Scalar25519.LoadLe(input, r);
    ghost var x := r[..];
    TopBit(x);
    r[7] := r[7] % 0x8000_0000;
    assert r[..] == x[7 := x[7] % 0x8000_0000];
    ClearTop(x);
    Reduce(r);
  }

  lemma ClearTop(s: seq<u32>)
    requires |s| == 8
    ensures Val(s) % TWO255 == Val(s) - s[7] / 0x8000_0000 * TWO255
  {
    hide Val, B;
    TopBit(s);
    ValBound(s[7 := s[7] % 0x8000_0000]);
    TopBit(s[7 := s[7] % 0x8000_0000]);
    DivModUnique(Val(s), s[7] / 0x8000_0000, Val(s[7 := s[7] % 0x8000_0000]), TWO255);
  }

  /** The canonical encoding: 32 bytes of the reduced value. */
  method FeToBytes(a: array<u32>) returns (out: seq<u8>)
    requires a.Length == 8
    ensures |out| == 32 && LeVal(out) == Val(a[..]) % P
  {
    hide Val, LeVal;
    var v := new u32[8];
    forall k | 0 <= k < 8 { v[k] := a[k]; }
    assert v[..] == a[..];
    Reduce(v);
    out := Scalar25519.StoreLe(v);
  }

  const D_BYTES: seq<u8> := [
    0xa3, 0x78, 0x59, 0x13, 0xca, 0x4d, 0xeb, 0x75, 0xab, 0xd8, 0x41, 0x41, 0x4d, 0x0a, 0x70, 0x00,
    0x98, 0xe8, 0x79, 0x77, 0x79, 0x40, 0xc7, 0x8c, 0x73, 0xfe, 0x6f, 0x2b, 0xee, 0x6c, 0x03, 0x52]

  const SQRTM1_BYTES: seq<u8> := [
    0xb0, 0xa0, 0x0e, 0x4a, 0x27, 0x1b, 0xee, 0xc4, 0x78, 0xe4, 0x2f, 0xad, 0x06, 0x18, 0x43, 0x2f,
    0xa7, 0xd7, 0xfb, 0x3d, 0x99, 0x00, 0x4d, 0x2b, 0x0b, 0xdf, 0xc1, 0x4f, 0x80, 0x24, 0x83, 0x2b]

  const P58_BYTES: seq<u8> := [
    0xfd, 0xff, 0xff, 0xff, 0xff, 0xff, 0xff, 0xff, 0xff, 0xff, 0xff, 0xff, 0xff, 0xff, 0xff, 0xff,
    0xff, 0xff, 0xff, 0xff, 0xff, 0xff, 0xff, 0xff, 0xff, 0xff, 0xff, 0xff, 0xff, 0xff, 0xff, 0x0f]

  const P2_BYTES: seq<u8> := [
    0xeb, 0xff, 0xff, 0xff, 0xff, 0xff, 0xff, 0xff, 0xff, 0xff, 0xff, 0xff, 0xff, 0xff, 0xff, 0xff,
    0xff, 0xff, 0xff, 0xff, 0xff, 0xff, 0xff, 0xff, 0xff, 0xff, 0xff, 0xff, 0xff, 0xff, 0xff, 0x7f]

  const P58_LIMBS: seq<u32> := [
    0xffff_fffd, 0xffff_ffff, 0xffff_ffff, 0xffff_ffff,
    0xffff_ffff, 0xffff_ffff, 0xffff_ffff, 0x0fff_ffff]
  const P2_LIMBS: seq<u32> := [
    0xffff_ffeb, 0xffff_ffff, 0xffff_ffff, 0xffff_ffff,
    0xffff_ffff, 0xffff_ffff, 0xffff_ffff, 0x7fff_ffff]

  lemma DBytes()
    ensures |D_BYTES| == 32 && LeVal(D_BYTES) == Val(D_LIMBS)
  {
    hide LeVal, Val;
    forall i | 0 <= i < 8
      ensures Scalar25519.Quad(D_BYTES, 4 * i) == D_LIMBS[i]
    {
      if i < 4 {
        assert i == 0 || i == 1 || i == 2 || i == 3;
      } else {
        assert i == 4 || i == 5 || i == 6 || i == 7;
      }
    }
    Scalar25519.Le32(D_BYTES, D_LIMBS);
  }

  lemma Sqrtm1Bytes()
    ensures |SQRTM1_BYTES| == 32 && LeVal(SQRTM1_BYTES) == Val(SQRTM1_LIMBS)
  {
    hide LeVal, Val;
    forall i | 0 <= i < 8
      ensures Scalar25519.Quad(SQRTM1_BYTES, 4 * i) == SQRTM1_LIMBS[i]
    {
      if i < 4 {
        assert i == 0 || i == 1 || i == 2 || i == 3;
      } else {
        assert i == 4 || i == 5 || i == 6 || i == 7;
      }
    }
    Scalar25519.Le32(SQRTM1_BYTES, SQRTM1_LIMBS);
  }

  lemma P58Bytes()
    ensures |P58_BYTES| == 32 && LeVal(P58_BYTES) == Val(P58_LIMBS)
  {
    hide LeVal, Val;
    forall i | 0 <= i < 8
      ensures Scalar25519.Quad(P58_BYTES, 4 * i) == P58_LIMBS[i]
    {
      if i < 4 {
        assert i == 0 || i == 1 || i == 2 || i == 3;
      } else {
        assert i == 4 || i == 5 || i == 6 || i == 7;
      }
    }
    Scalar25519.Le32(P58_BYTES, P58_LIMBS);
  }

  lemma P2Bytes()
    ensures |P2_BYTES| == 32 && LeVal(P2_BYTES) == Val(P2_LIMBS)
  {
    hide LeVal, Val;
    forall i | 0 <= i < 8
      ensures Scalar25519.Quad(P2_BYTES, 4 * i) == P2_LIMBS[i]
    {
      if i < 4 {
        assert i == 0 || i == 1 || i == 2 || i == 3;
      } else {
        assert i == 4 || i == 5 || i == 6 || i == 7;
      }
    }
    Scalar25519.Le32(P2_BYTES, P2_LIMBS);
  }

  /** The constant byte tables hold d, a root of -1, (p-5)/8 and p-2. */
  lemma Constants()
    ensures Val(D_LIMBS) == D && Val(SQRTM1_LIMBS) == I && Val(P58_LIMBS) == E58 && Val(P2_LIMBS) == P - 2
  {
    hide Val, B;
    Weights();
    Val8(D_LIMBS);
    Val8(SQRTM1_LIMBS);
    Val8(P58_LIMBS);
    Val8(P2_LIMBS);
    PIs();
  }

  // ----- points

  class Point {
    const x: array<u32>
    const y: array<u32>
    const z: array<u32>
    const t: array<u32>

    /** Four separate field elements. */
    ghost predicate Valid()
    {
      x.Length == 8 && y.Length == 8 && z.Length == 8 && t.Length == 8 &&
      x != y && x != z && x != t && y != z && y != t && z != t
    }

    ghost function Abs(): Ge
      reads x, y, z, t
    {
      Ge(Val(x[..]), Val(y[..]), Val(z[..]), Val(t[..]))
    }

    ghost predicate Reduced()
      reads x, y, z, t
    {
      Val(x[..]) < P && Val(y[..]) < P && Val(z[..]) < P && Val(t[..]) < P
    }

    /** The identity (0 : 1 : 1 : 0). */
    constructor ()
      ensures Valid() && fresh(x) && fresh(y) && fresh(z) && fresh(t)
      ensures Abs() == IDENTITY && Reduced()
    {
      x := new u32[8](_ => 0);
      t := new u32[8](_ => 0);
      y := new u32[8](i => if i == 0 then 1 else 0);
      z := new u32[8](i => if i == 0 then 1 else 0);
      new;
      ValZeros(x[..]);
      ValZeros(t[..]);
      ModExp.OneValue(y[..]);
      ModExp.OneValue(z[..]);
    }
  }

  // Small steps of the formulas, each leaving its result in a fresh element.

  method NewSub(a: array<u32>, b: array<u32>) returns (r: array<u32>)
    requires a.Length == 8 && b.Length == 8 && Val(b[..]) < P
    ensures fresh(r) && r.Length == 8 && Val(r[..]) == FSub(Val(a[..]), Val(b[..]))
  {
    hide *;
    r := new u32[8];
    FeSub(r, a, b);
  }

  method NewAdd(a: array<u32>, b: array<u32>) returns (r: array<u32>)
    requires a.Length == 8 && b.Length == 8
    ensures fresh(r) && r.Length == 8 && Val(r[..]) == FAdd(Val(a[..]), Val(b[..]))
  {
    hide *;
    r := new u32[8];
    FeAdd(r, a, b);
  }

  method NewMul(a: array<u32>, b: array<u32>) returns (r: array<u32>)
    requires a.Length == 8 && b.Length == 8
    ensures fresh(r) && r.Length == 8 && Val(r[..]) == FMul(Val(a[..]), Val(b[..]))
  {
    hide *;
    r := new u32[8];
    FeMul(r, a, b);
  }

  /** A and B of unified addition: (Y1 - X1)(Y2 - X2) and (Y1 + X1)(Y2 + X2). */
  method AddAB(p: Point, q: Point) returns (a: array<u32>, b: array<u32>)
    requires p.Valid() && q.Valid() && p.Reduced() && q.Reduced()
    ensures fresh(a) && fresh(b) && a.Length == 8 && b.Length == 8
    ensures Val(a[..]) == FMul(FSub(p.Abs().y, p.Abs().x), FSub(q.Abs().y, q.Abs().x))
    ensures Val(b[..]) == FMul(FAdd(p.Abs().y, p.Abs().x), FAdd(q.Abs().y, q.Abs().x))
  {
    hide Val, FAdd, FSub, FMul;
    a := NewSub(p.y, p.x);
    var tmp := NewSub(q.y, q.x);
    a := NewMul(a, tmp);
    b := NewAdd(p.y, p.x);
    tmp := NewAdd(q.y, q.x);
    b := NewMul(b, tmp);
  }

  /** C and D of unified addition: 2 d T1 T2 and 2 Z1 Z2. */
  method AddCD(p: Point, q: Point) returns (c: array<u32>, d: array<u32>)
    requires p.Valid() && q.Valid()
    ensures fresh(c) && fresh(d) && c.Length == 8 && d.Length == 8
    ensures Val(c[..]) == FMul(FMul(p.Abs().t, q.Abs().t), FAdd(D, D))
    ensures var zz := FMul(p.Abs().z, q.Abs().z); Val(d[..]) == FAdd(zz, zz)
  {
    hide Val, FAdd, FSub, FMul, D;
    var twoD := new u32[8];
    LoadD(twoD);
    twoD := NewAdd(twoD, twoD);
    c := NewMul(p.t, q.t);
    c := NewMul(c, twoD);
    d := NewMul(p.z, q.z);
    d := NewAdd(d, d);
  }

  method LoadD(r: array<u32>)
    requires r.Length == 8
    modifies r
    ensures Val(r[..]) == D
  {
    hide Val, LeVal, D_BYTES, D_LIMBS;
    DBytes();
    Constants();
    FeFromBytes(r, D_BYTES);
    DIs();
    PIs();
    DivModUnique(D, 0, D, TWO255);
    DivModUnique(D, 0, D, P);
  }

  /** r = p + q. All of p and q is read before r is written, so r may be either. */
  method GeAdd(r: Point, p: Point, q: Point)
    requires r.Valid() && p.Valid() && q.Valid() && p.Reduced() && q.Reduced()
    modifies r.x, r.y, r.z, r.t
    ensures r.Abs() == Sum(old(p.Abs()), old(q.Abs())) && r.Reduced()
  {
    hide Val, FAdd, FSub, FMul, D;
    var a, b := AddAB(p, q);
    var c, d := AddCD(p, q);
    var e, f, g, h := AddParts(a, b, c, d);
    WriteProducts(r, e, f, g, h);
  }

  method AddParts(a: array<u32>, b: array<u32>, c: array<u32>, d: array<u32>)
    returns (e: array<u32>, f: array<u32>, g: array<u32>, h: array<u32>)
    requires a.Length == 8 && b.Length == 8 && c.Length == 8 && d.Length == 8 && Val(a[..]) < P && Val(c[..]) < P
    ensures fresh(e) && fresh(f) && fresh(g) && fresh(h)
    ensures e.Length == 8 && f.Length == 8 && g.Length == 8 && h.Length == 8
    ensures Val(e[..]) == FSub(Val(b[..]), Val(a[..])) && Val(f[..]) == FSub(Val(d[..]), Val(c[..]))
    ensures Val(g[..]) == FAdd(Val(d[..]), Val(c[..])) && Val(h[..]) == FAdd(Val(b[..]), Val(a[..]))
  {
    hide Val, FAdd, FSub, FMul;
    e := NewSub(b, a);
    f := NewSub(d, c);
    g := NewAdd(d, c);
    h := NewAdd(b, a);
  }

  /** (X3 : Y3 : Z3 : T3) = (EF : GH : FG : EH). */
  method WriteProducts(r: Point, e: array<u32>, f: array<u32>, g: array<u32>, h: array<u32>)
    requires r.Valid() && e.Length == 8 && f.Length == 8 && g.Length == 8 && h.Length == 8
    requires {r.x, r.y, r.z, r.t} !! {e, f, g, h}
    modifies r.x, r.y, r.z, r.t
    ensures r.Abs() == old(Ge(FMul(Val(e[..]), Val(f[..])), FMul(Val(g[..]), Val(h[..])),
                              FMul(Val(f[..]), Val(g[..])), FMul(Val(e[..]), Val(h[..]))))
    ensures r.Reduced()
  {
    hide Val, FMul;
    ghost var E, F, G, H := e[..], f[..], g[..], h[..];
    FeMul(r.x, e, f);
    ghost var X := r.x[..];
    assert e[..] == E && f[..] == F && g[..] == G && h[..] == H;
    FeMul(r.y, g, h);
    ghost var Y := r.y[..];
    assert e[..] == E && f[..] == F && g[..] == G && h[..] == H && r.x[..] == X;
    FeMul(r.t, e, h);
    ghost var T := r.t[..];
    assert f[..] == F && g[..] == G && r.x[..] == X && r.y[..] == Y;
    FeMul(r.z, f, g);
    assert r.x[..] == X && r.y[..] == Y && r.t[..] == T;
  }

  method CopyFe(r: array<u32>, a: array<u32>)
    requires r.Length == 8 && a.Length == 8
    modifies r
    ensures r[..] == old(a[..])
  {
    ghost var s := a[..];
    forall k | 0 <= k < 8 { r[k] := a[k]; }
    assert r[..] == s;
  }

  /** r = scalar * p, double-and-add from the top bit. The copy comes last, so r may be p. */
  method GeScalarMul(r: Point, p: Point, scalar: seq<u8>)
    requires r.Valid() && p.Valid() && p.Reduced() && |scalar| == 32
    modifies r.x, r.y, r.z, r.t
    ensures r.Abs() == Accumulate(old(p.Abs()), LeVal(scalar), 0) && r.Reduced()
  {
    hide Val, LeVal, Bit, Sum;
    ghost var P0, e := p.Abs(), LeVal(scalar);
    var acc := new Point();
    var bit := 256;
    while bit > 0
      invariant 0 <= bit <= 256
      invariant acc.Valid() && acc.Reduced() && acc.Abs() == Accumulate(P0, e, bit)
      invariant p.Abs() == P0
      modifies acc.x, acc.y, acc.z, acc.t
    {
      bit := bit - 1;
      LeBit(scalar, bit);
      GeAdd(acc, acc, acc);
      if Bit(scalar[bit / 8], bit % 8) != 0 {
        GeAdd(acc, acc, p);
      }
    }
    CopyPoint(r, acc);
  }

  method CopyPoint(r: Point, a: Point)
    requires r.Valid() && a.Valid() && a.Reduced()
    requires {r.x, r.y, r.z, r.t} !! {a.x, a.y, a.z, a.t}
    modifies r.x, r.y, r.z, r.t
    ensures r.Abs() == old(a.Abs()) && r.Reduced()
  {
    hide Val;
    CopyFe(r.x, a.x);
    CopyFe(r.y, a.y);
    CopyFe(r.z, a.z);
    CopyFe(r.t, a.t);
  }

  // ----- tamga_ge_decompress

  /** u = y^2 - 1 and v = d y^2 + 1. */
  method Fraction(y: array<u32>) returns (u: array<u32>, v: array<u32>)
    requires y.Length == 8
    ensures fresh(u) && fresh(v) && u.Length == 8 && v.Length == 8
    ensures Val(u[..]) == NumU(Val(y[..])) && Val(v[..]) == DenV(Val(y[..]))
  {
    hide Val, FAdd, FSub, FMul, D;
    var one, d := new u32[8](i => if i == 0 then 1 else 0), new u32[8];
    ModExp.OneValue(one[..]);
    LoadD(d);
    u := NewMul(y, y);
    v := NewMul(u, d);
    u := NewSub(u, one);
    v := NewAdd(v, one);
  }

  /** u v^3 (u v^7)^((p-5)/8). */
  method RootCandidate(u: array<u32>, v: array<u32>) returns (x: array<u32>)
    requires u.Length == 8 && v.Length == 8
    ensures fresh(x) && x.Length == 8 && Val(x[..]) == Candidate(Val(u[..]), Val(v[..]))
  {
    hide Val, FMul, FPow, LeVal, P58_BYTES, P58_LIMBS, E58;
    P58Bytes();
    Constants();
    var v3 := NewMul(v, v);
    v3 := NewMul(v3, v);
    var w := NewMul(v3, v3);
    w := NewMul(w, v);
    w := NewMul(w, u);
    x := new u32[8];
    FePow(x, w, P58_BYTES);
    x := NewMul(x, v3);
    x := NewMul(x, u);
  }

  /** The candidate, corrected by a root of -1 when its square has the wrong sign. */
  method Root(u: array<u32>, v: array<u32>) returns (found: bool, x: array<u32>)
    requires u.Length == 8 && v.Length == 8 && Val(u[..]) < P
    ensures fresh(x) && x.Length == 8
    ensures found <==> RootOf(Val(u[..]), Val(v[..])).Some?
    ensures found ==> Val(x[..]) == RootOf(Val(u[..]), Val(v[..])).value
  {
    hide Val, FAdd, FSub, FMul, FPow, Candidate, LeVal, SQRTM1_BYTES, SQRTM1_LIMBS, I;
    x := RootCandidate(u, v);
    var vxx := NewMul(x, x);
    vxx := NewMul(vxx, v);
    var check := NewSub(vxx, u);
    var zero := IsZero(check, 8);
    if !zero {
      check := NewAdd(vxx, u);
      zero := IsZero(check, 8);
      if !zero {
        return false, x;
      }
      var sqrtm1 := LoadSqrtm1();
      x := NewMul(x, sqrtm1);
    }
    return true, x;
  }

  method LoadSqrtm1() returns (r: array<u32>)
    ensures fresh(r) && r.Length == 8 && Val(r[..]) == I
  {
    hide Val, LeVal, SQRTM1_BYTES, SQRTM1_LIMBS;
    r := new u32[8];
    Sqrtm1Bytes();
    Constants();
    FeFromBytes(r, SQRTM1_BYTES);
    IIs();
    PIs();
    DivModUnique(I, 0, I, TWO255);
    DivModUnique(I, 0, I, P);
  }

  /** The encoded y, and the sign bit above it. */
  ghost function EncodedY(input: seq<u8>): int { (LeVal(input) % TWO255) % P }

  /** A 32-byte encoding to a point, or false when it names none. */
  method GeDecompress(r: Point, input: seq<u8>) returns (ok: bool)
    requires r.Valid() && |input| == 32
    modifies r.x, r.y, r.z, r.t
    ensures ok <==> Decompress(EncodedY(input), input[31] / 0x80).Some?
    ensures ok ==> r.Abs() == Decompress(EncodedY(input), input[31] / 0x80).value && r.Reduced()
  {
    hide Val, LeVal, NumU, DenV, FMul, FSub, RootOf;
    var sign := input[31] / 0x80;
    FeFromBytes(r.y, input);
    ghost var y := Val(r.y[..]);
    assert y == EncodedY(input);
    var u, v := Fraction(r.y);
    UReduced(y);
    var found, x := Root(u, v);
    if !found {
      return false;
    }
    var zero := IsZero(x, 8);
    if zero && sign != 0 {
      return false;
    }
    ParityOf(x[..]);
    RootReduced(y);
    if x[0] % 2 != sign {
      FeNeg(x, x);
    }
    FinishPoint(r, x);
    return true;
  }

  lemma UReduced(y: int)
    ensures 0 <= NumU(y) < P
  {
  }

  lemma RootReduced(y: int)
    ensures RootOf(NumU(y), DenV(y)).Some? ==> 0 <= RootOf(NumU(y), DenV(y)).value < P
  {
    hide NumU, DenV;
  }

  lemma ParityOf(s: seq<u32>)
    requires |s| == 8
    ensures s[0] % 2 == Val(s) % 2
  {
    hide Val, B;
    ValSplit(s, 1);
    Bn.FirstLimb(s);
    BNext(0);
    ModExp.BZero();
    DivModUnique(Val(s), s[0] / 2 + 0x8000_0000 * Val(s[1..]), s[0] % 2, 2);
  }

  /** (x : y : 1 : xy). */
  method FinishPoint(r: Point, x: array<u32>)
    requires r.Valid() && x.Length == 8 && Val(x[..]) < P && Val(r.y[..]) < P
    requires x !in {r.x, r.y, r.z, r.t}
    modifies r.x, r.z, r.t
    ensures r.Abs() == old(Ge(Val(x[..]), Val(r.y[..]), 1, FMul(Val(x[..]), Val(r.y[..])))) && r.Reduced()
  {
    hide Val, FMul;
    ghost var X, Y := x[..], r.y[..];
    CopyFe(r.x, x);
    var one := new u32[8](i => if i == 0 then 1 else 0);
    ModExp.OneValue(one[..]);
    CopyFe(r.z, one);
    ghost var Z := r.z[..];
    assert r.x[..] == X && r.y[..] == Y;
    FeMul(r.t, r.x, r.y);
    assert r.x[..] == X && r.y[..] == Y && r.z[..] == Z;
  }

  // ----- tamga_ge_compress

  /** y in little-endian with x's parity in the top bit. */
  method GeCompress(p: Point) returns (out: seq<u8>)
    requires p.Valid()
    ensures |out| == 32 && LeVal(out) == AffineY(p.Abs()) + (AffineX(p.Abs()) % 2) * TWO255
    ensures EncodedY(out) == AffineY(p.Abs()) && out[31] / 0x80 == AffineX(p.Abs()) % 2
  {
    hide Val, LeVal, FMul, FPow, P2_BYTES, P2_LIMBS;
    var zInv := new u32[8];
    P2Bytes();
    Constants();
    FePow(zInv, p.z, P2_BYTES);
    var x := NewMul(p.x, zInv);
    var y := NewMul(p.y, zInv);
    out := FeToBytes(y);
    ghost var g := p.Abs();
    DivModUnique(AffineY(g), 0, AffineY(g), P);
    ParityOf(x[..]);
    SignBit(out, AffineY(g), AffineX(g) % 2);
    out := out[31 := out[31] + (if x[0] % 2 != 0 then 0x80 else 0x00)];
  }

  /** OR-ing the sign into the clear top bit adds 2^255. */
  lemma SignBit(s: seq<u8>, y: int, b: int)
    requires |s| == 32 && LeVal(s) == y && 0 <= y < P && 0 <= b <= 1
    ensures s[31] < 0x80
    ensures var r := s[31 := s[31] + 0x80 * b];
            LeVal(r) == y + b * TWO255 && EncodedY(r) == y && r[31] / 0x80 == b
  {
    hide LeVal, Val, Pow;
    PIs();
    LastByte(s);
    Top256();
    MulMono(s[31], 0x80, Pow(256, 31));
    if s[31] >= 0x80 {
      MulMono(0x80, s[31], Pow(256, 31));
      assert false;
    }
    var r := s[31 := s[31] + 0x80 * b];
    LastByte(r);
    assert r[..31] == s[..31];
    assert r[31] * Pow(256, 31) == s[31] * Pow(256, 31) + b * TWO255 by {
      MulDist(Pow(256, 31), s[31], 0x80 * b);
    }
    DivModUnique(LeVal(r), b, y, TWO255);
    DivModUnique(y, 0, y, P);
  }

  lemma LastByte(s: seq<u8>)
    requires |s| == 32
    ensures LeVal(s) == LeVal(s[..31]) + s[31] * Pow(256, 31)
    ensures 0 <= LeVal(s[..31])
  {
    hide LeVal, Pow;
    LeSplit(s, 31);
    assert s[31..] == [s[31]];
    OneByte(s[31]);
  }

  lemma OneByte(x: u8)
    ensures LeVal([x]) == x
  {
  }

  lemma Top256()
    ensures 0x80 * Pow(256, 31) == TWO255
  {
    hide Pow;
    ByteWeight(28);
    Weights();
    PowAdd(256, 28, 3);
    ModExp.PowZero(256);
    ModExp.PowNext(256, 0);
    ModExp.PowNext(256, 1);
    ModExp.PowNext(256, 2);
  }
}
