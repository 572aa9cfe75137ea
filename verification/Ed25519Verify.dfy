/** Ed25519 verification on byte strings: the verdict is the verification equation. */
module Ed25519Verify {
  import opened Buf
  import opened Limbs
  import opened Digits
  import opened Fe25519
  import opened Edwards
  import opened EdwardsEncoding
  import opened EdwardsGroup
  import opened Ed25519
  import Scalar25519

  const BASE_BYTES: seq<u8> := [
    0x58, 0x66, 0x66, 0x66, 0x66, 0x66, 0x66, 0x66, 0x66, 0x66, 0x66, 0x66, 0x66, 0x66, 0x66, 0x66,
    0x66, 0x66, 0x66, 0x66, 0x66, 0x66, 0x66, 0x66, 0x66, 0x66, 0x66, 0x66, 0x66, 0x66, 0x66, 0x66]

  /** The point a 32-byte encoding names. */
  ghost function PointOf(b: seq<u8>): Option<Ge>
    requires |b| == 32
  {
    Decompress(EncodedY(b), b[31] / 0x80)
  }

  ghost function Neg(g: Ge): Ge { Ge(FSub(0, g.x), g.y, g.z, FSub(0, g.t)) }

  /** SB - kA. */
  ghost function Recomputed(base: Ge, a: Ge, s: nat, k: nat): Ge
  {
    Sum(Accumulate(base, s, 0), Accumulate(Neg(a), k, 0))
  }

  /** The 255 bits of y and the sign of x above them, as one number. */
  ghost function Encoding(g: Ge): int { AffineY(g) + (AffineX(g) % 2) * TWO255 }

  ghost function Challenge(hash: seq<u8> -> seq<u8>, key: seq<u8>, message: seq<u8>, r: seq<u8>): nat
  {
    LeVal(hash(r + key + message)) % Scalar25519.L
  }

  /** Section 5.1.7 of RFC 8032: S below the group order, A a point, and R = SB - kA. */
  ghost predicate Accepts(hash: seq<u8> -> seq<u8>, key: seq<u8>, message: seq<u8>, signature: seq<u8>)
    requires |key| == 32 && |signature| == 64
  {
    var r, s := signature[..32], LeVal(signature[32..]);
    s < Scalar25519.L && PointOf(key).Some? && PointOf(BASE_BYTES).Some? &&
    LeVal(r) == Encoding(Recomputed(PointOf(BASE_BYTES).value, PointOf(key).value, s, Challenge(hash, key, message, r)))
  }

  method GeNeg(r: Point, a: Point)
    requires r.Valid() && a.Valid() && a.Reduced() && (r == a || {r.x, r.y, r.z, r.t} !! {a.x, a.y, a.z, a.t})
    modifies r.x, r.y, r.z, r.t
    ensures r.Abs() == Neg(old(a.Abs())) && r.Reduced()
  {
    hide Val, FSub;
    FeNeg(r.x, a.x);
    CopyFe(r.y, a.y);
    CopyFe(r.z, a.z);
    FeNeg(r.t, a.t);
  }

  /** Byte-wise comparison that looks at every byte. */
  method SameBytes(a: seq<u8>, b: seq<u8>) returns (same: bool)
    requires |a| == |b| == 32
    ensures same <==> LeVal(a) == LeVal(b)
  {
    hide LeVal;
    var difference := false;
    var i := 0;
    while i < 32
      invariant 0 <= i <= 32
      invariant difference <==> a[..i] != b[..i]
    {
      assert a[..i + 1] == a[..i] + [a[i]] && b[..i + 1] == b[..i] + [b[i]];
      difference := difference || a[i] != b[i];
      i := i + 1;
    }
    assert a[..32] == a && b[..32] == b;
    if LeVal(a) == LeVal(b) {
      LeUnique(a, b);
    }
    return !difference;
  }

  method NewMultiple(p: Point, s: seq<u8>) returns (r: Point)
    requires p.Valid() && p.Reduced() && |s| == 32
    ensures r.Valid() && r.Reduced() && fresh(r.x) && fresh(r.y) && fresh(r.z) && fresh(r.t)
    ensures r.Abs() == Accumulate(p.Abs(), LeVal(s), 0)
  {
    hide Val, LeVal, Accumulate;
    r := new Point();
    GeScalarMul(r, p, s);
  }

  /** SB - kA, compressed. */
  method Recompute(base: Point, a: Point, s: seq<u8>, k: seq<u8>) returns (out: seq<u8>)
    requires base.Valid() && base.Reduced() && a.Valid() && a.Reduced() && |s| == |k| == 32
    requires {base.x, base.y, base.z, base.t} !! {a.x, a.y, a.z, a.t}
    modifies a.x, a.y, a.z, a.t
    ensures |out| == 32 && LeVal(out) == old(Encoding(Recomputed(base.Abs(), a.Abs(), LeVal(s), LeVal(k))))
  {
    hide Val, LeVal, Sum, Neg, Accumulate, AffineX, AffineY, EncodedY, Point.Abs, Point.Reduced;
    var sb := NewMultiple(base, s);
    GeNeg(a, a);
    var ka := NewMultiple(a, k);
    var computed := new Point();
    GeAdd(computed, sb, ka);
    out := GeCompress(computed);
  }

  /** tamga_ed25519_verify, SHA-512 being any function to 64 bytes. */
  method Verify(hash: seq<u8> -> seq<u8>, key: seq<u8>, message: seq<u8>, signature: seq<u8>) returns (ok: bool)
    requires |key| == 32 && |signature| == 64 && forall m: seq<u8> :: |hash(m)| == 64
    ensures ok <==> Accepts(hash, key, message, signature)
  {
    hide Val, LeVal, EncodedY, Decompress, Recomputed, Encoding, Point.Abs, Point.Reduced;
    ok := Scalar25519.IsCanonical(signature[32..]);
    if !ok {
      return;
    }
    var a := new Point();
    ok := GeDecompress(a, key);
    if !ok {
      return;
    }
    var base := new Point();
    ok := GeDecompress(base, BASE_BYTES);
    if !ok {
      return;
    }
    var digest := hash(signature[..32] + key + message);
    var k := Scalar25519.Reduce512(digest);
    var r := Recompute(base, a, signature[32..], k);
    ok := SameBytes(r, signature[..32]);
  }
}
