/** For one key, message and R there is at most one S the verifier accepts; and what a signer makes is accepted. */
module Ed25519Signature {
  import opened Arith
  import opened Digits
  import opened Fe25519
  import opened Edwards
  import opened EdwardsComplete
  import opened EdwardsEncoding
  import opened EdwardsGroup
  import opened Groups
  import opened Ed25519
  import opened Ed25519Verify
  import Scalar25519
  import opened Buf
  import opened Limbs

  /** Points stand for the same group element exactly when their affine coordinates agree. */
  ghost predicate Faithful<G(!new)>(phi: Ge -> G)
  {
    forall p, q :: Proper(p) && Proper(q) ==>
        (phi(p) == phi(q) <==> AffineX(p) == AffineX(q) && AffineY(p) == AffineY(q))
  }

  /** p is prime and d has no root. */
  ghost predicate Field(inv: int -> int)
  {
    Inverts(inv) && Fermat() && forall r: int :: !IsRoot(r, D)
  }

  // ----- the points

  const BASE_X: int := 0x2169_36d3_cd6e_53fe_c0a4_e231_fdd6_dc5c_692c_c760_9525_a7b2_c956_2d60_8f25_d51a
  const BASE_Y: int := 0x6666_6666_6666_6666_6666_6666_6666_6666_6666_6666_6666_6666_6666_6666_6666_6658

  lemma DecodedProper(b: seq<u8>)
    requires |b| == 32 && PointOf(b).Some?
    ensures Proper(PointOf(b).value)
  {
    hide LeVal, Decompress;
    DecompressSound(EncodedY(b), b[31] / 0x80);
    OneNotZero();
  }

  lemma OneNotZero()
    ensures !Eq(1, 0)
  {
    if Eq(1, 0) {
      CongUnique(1, 0, P);
    }
  }

  lemma NegProper(g: Ge)
    requires Proper(g)
    ensures Proper(Neg(g))
  {
    hide Cong, D, FSub;
    NegRoot(g.x);
    NegRoot(g.t);
    Refl(0);
    Refl(g.x);
    Refl(g.t);
    Refl(g.y);
    Refl(g.z);
    Refl(D);
    SubEq(0, g.x, 0, g.x);
    SubEq(0, g.t, 0, g.t);
    var x, t := FSub(0, g.x), FSub(0, g.t);
    NegProducts(g, x, t);
    NegCurve(g, x, t);
  }

  lemma NegProducts(g: Ge, x: int, t: int)
    requires Eq(x, 0 - g.x) && Eq(t, 0 - g.t) && Eq(g.x * g.y, g.z * g.t)
    ensures Eq(x * g.y, g.z * t)
  {
    hide Cong;
    Refl(g.y);
    Refl(g.z);
    Refl(-1);
    CongMul(x, 0 - g.x, g.y, g.y, P);
    CongMul(g.z, g.z, t, 0 - g.t, P);
    CongMul(-1, -1, g.x * g.y, g.z * g.t, P);
    assert (0 - g.x) * g.y == (-1) * (g.x * g.y) && g.z * (0 - g.t) == (-1) * (g.z * g.t);
    CongTrans(x * g.y, (-1) * (g.x * g.y), (-1) * (g.z * g.t), P);
    CongSym(g.z * t, (-1) * (g.z * g.t), P);
    CongTrans(x * g.y, (-1) * (g.z * g.t), g.z * t, P);
  }

  lemma NegCurve(g: Ge, x: int, t: int)
    requires Eq(x * x, g.x * g.x) && Eq(t * t, g.t * g.t) && OnCurve(g)
    ensures Eq(g.y * g.y - x * x, g.z * g.z + D * (t * t))
  {
    hide Cong, D;
    Refl(g.y * g.y);
    Refl(g.z * g.z);
    Refl(D);
    CongAdd(g.y * g.y, g.y * g.y, x * x, g.x * g.x, P);
    CongMul(D, D, t * t, g.t * g.t, P);
    CongAdd(g.z * g.z, g.z * g.z, D * (t * t), D * (g.t * g.t), P);
    CongTrans(g.y * g.y - x * x, g.y * g.y - g.x * g.x, g.z * g.z + D * (g.t * g.t), P);
    CongSym(g.z * g.z + D * (t * t), g.z * g.z + D * (g.t * g.t), P);
    CongTrans(g.y * g.y - x * x, g.z * g.z + D * (g.t * g.t), g.z * g.z + D * (t * t), P);
  }

  /** The compressed form determines the affine point. */
  lemma SameEncoding(p: Ge, q: Ge, inv: int -> int)
    requires Proper(p) && Proper(q) && Field(inv) && Encoding(p) == Encoding(q)
    ensures AffineX(p) == AffineX(q) && AffineY(p) == AffineY(q)
  {
    hide Cong, Decompress, AffineX, AffineY, Inverts, Fermat, D;
    PIs();
    DivModUnique(Encoding(p), AffineX(p) % 2, AffineY(p), TWO255);
    DivModUnique(Encoding(q), AffineX(q) % 2, AffineY(q), TWO255);
    CompressRoundTrip(p, inv);
    CompressRoundTrip(q, inv);
  }

  /** What SB - kA stands for. */
  lemma RecomputedIs<G(!new)>(base: Ge, a: Ge, s: nat, k: nat, phi: Ge -> G, add: (G, G) -> G, zero: G, inv: int -> int)
    requires Proper(base) && Proper(a) && Field(inv) && Group(add, zero) && Represents(phi, add, zero)
    requires s < Scalar25519.L && k < Scalar25519.L
    ensures Proper(Recomputed(base, a, s, k))
    ensures phi(Recomputed(base, a, s, k)) == add(Times(s, phi(base), add, zero), Times(k, phi(Neg(a)), add, zero))
  {
    hide Proper, Sum, Group, Times, Inverts, Fermat, D, Neg, Pow, Accumulate;
    NegProper(a);
    SmallOrder();
    AccumulateIsMultiple(base, s, 0, phi, add, zero, inv);
    AccumulateIsMultiple(Neg(a), k, 0, phi, add, zero, inv);
    ScalarMulIsMultiple(base, s, phi, add, zero, inv);
    ScalarMulIsMultiple(Neg(a), k, phi, add, zero, inv);
    ProperSum(Accumulate(base, s, 0), Accumulate(Neg(a), k, 0), inv);
  }

  lemma SmallOrder()
    ensures Scalar25519.L < Pow(2, 256)
  {
    hide Pow;
    Limbs.BIsPow2(8);
    Weights();
  }

  // ----- no second spelling

  lemma TimesInjective<G(!new)>(s: nat, s': nat, b: G, neg: G -> G, add: (G, G) -> G, zero: G)
    requires Group(add, zero) && Invertible(neg, add, zero) && s' <= s < Scalar25519.L
    requires forall n: nat :: Times(n, b, add, zero) == zero ==> n % Scalar25519.L == 0
    requires Times(s, b, add, zero) == Times(s', b, add, zero)
    ensures s == s'
  {
    hide Group, Invertible, Times;
    var d := s - s';
    TimesAdd(d, s', b, add, zero);
    var t := Times(s', b, add, zero);
    Zeros(t, add, zero);
    CancelRight(Times(d, b, add, zero), zero, t, neg, add, zero);
    DivModUnique(d, 0, d, Scalar25519.L);
  }

  /** Two signatures that are accepted for the same key and message and that carry the same R are the same
      64 bytes: the test that S is below the group order leaves no room for S + L. */
  lemma SignatureUnique<G(!new)>(hash: seq<u8> -> seq<u8>, key: seq<u8>, message: seq<u8>, sig: seq<u8>, sig': seq<u8>,
                                 phi: Ge -> G, neg: G -> G, add: (G, G) -> G, zero: G, inv: int -> int)
    requires |key| == 32 && |sig| == |sig'| == 64 && sig[..32] == sig'[..32]
    requires Field(inv) && Group(add, zero) && Invertible(neg, add, zero) && Represents(phi, add, zero) && Faithful(phi)
    requires Accepts(hash, key, message, sig) && Accepts(hash, key, message, sig')
    requires forall n: nat :: Times(n, phi(PointOf(BASE_BYTES).value), add, zero) == zero ==> n % Scalar25519.L == 0
    ensures sig == sig'
  {
    hide LeVal, PointOf, Recomputed, Encoding, Group, Represents, Invertible, Times, Proper, Field;
    var base, a := PointOf(BASE_BYTES).value, PointOf(key).value;
    var s, s', k := LeVal(sig[32..]), LeVal(sig'[32..]), Challenge(hash, key, message, sig[..32]);
    DecodedProper(BASE_BYTES);
    DecodedProper(key);
    RecomputedIs(base, a, s, k, phi, add, zero, inv);
    RecomputedIs(base, a, s', k, phi, add, zero, inv);
    SameEncoding(Recomputed(base, a, s, k), Recomputed(base, a, s', k), inv);
    var b := phi(base);
    CancelRight(Times(s, b, add, zero), Times(s', b, add, zero), Times(k, phi(Neg(a)), add, zero), neg, add, zero);
    if s' <= s {
      TimesInjective(s, s', b, neg, add, zero);
    } else {
      TimesInjective(s', s, b, neg, add, zero);
    }
    LeUnique(sig[32..], sig'[32..]);
    assert sig == sig[..32] + sig[32..] && sig' == sig'[..32] + sig'[32..];
  }

  // ----- honest signatures

  const BASE_LIMBS: seq<u32> := [
    0x6666_6658, 0x6666_6666, 0x6666_6666, 0x6666_6666,
    0x6666_6666, 0x6666_6666, 0x6666_6666, 0x6666_6666]

  lemma BaseQuads()
    ensures |BASE_BYTES| == 32 && LeVal(BASE_BYTES) == Val(BASE_LIMBS)
  {
    hide LeVal, Val;
    forall i | 0 <= i < 8
      ensures Scalar25519.Quad(BASE_BYTES, 4 * i) == BASE_LIMBS[i]
    {
      if i < 4 {
        assert i == 0 || i == 1 || i == 2 || i == 3;
      } else {
        assert i == 4 || i == 5 || i == 6 || i == 7;
      }
    }
    Scalar25519.Le32(BASE_BYTES, BASE_LIMBS);
  }

  lemma BaseBytes()
    ensures |BASE_BYTES| == 32 && EncodedY(BASE_BYTES) == BASE_Y && BASE_BYTES[31] / 0x80 == 0
  {
    hide LeVal, Val, B;
    BaseQuads();
    Weights();
    PIs();
    Val8(BASE_LIMBS);
    DivModUnique(BASE_Y, 0, BASE_Y, TWO255);
    DivModUnique(BASE_Y, 0, BASE_Y, P);
  }

  /** The compiled-in base point always decompresses. */
  lemma BaseIsPoint(inv: int -> int)
    requires Field(inv)
    ensures PointOf(BASE_BYTES) == Some(Ge(BASE_X, BASE_Y, 1, FMul(BASE_X, BASE_Y)))
  {
    hide Decompress, LeVal, OnAffine, BASE_BYTES, D;
    BaseBytes();
    BaseOnCurve();
    DecompressComplete(BASE_X, BASE_Y, inv);
  }

  lemma BaseOnCurve()
    ensures OnAffine(BASE_X, BASE_Y)
  {
    DIs();
    PIs();
    CongIntro(BASE_Y * BASE_Y - BASE_X * BASE_X, 1 + D * ((BASE_X * BASE_X) * (BASE_Y * BASE_Y)),
      -313912869351021175552095638354475319435719866822403256103793839727111434695402522007437748672709022944181123840026140012976076642505601989877288187536393899427418215919658923821043034718165221043996317890960162518762831745378375357102403309936170782468110973434315685750709096189645234905588967493870803545, P);
  }

  /** Negating a point negates what it stands for. */
  ghost predicate NegRepresents<G(!new)>(phi: Ge -> G, neg: G -> G)
  {
    forall p :: Proper(p) ==> phi(Neg(p)) == neg(phi(p))
  }

  /** Times(r + k a) - k (a b) = Times(r). */
  lemma SignerEquation<G(!new)>(r: nat, k: nat, a: nat, s: nat, b: G, neg: G -> G, add: (G, G) -> G, zero: G)
    requires Group(add, zero) && Invertible(neg, add, zero) && Times(Scalar25519.L, b, add, zero) == zero
    requires s == (r + k * a) % Scalar25519.L
    ensures add(Times(s, b, add, zero), Times(k, neg(Times(a, b, add, zero)), add, zero)) == Times(r, b, add, zero)
  {
    hide Group, Invertible, Times;
    var A := Times(a, b, add, zero);
    TimesMod(r + k * a, Scalar25519.L, b, add, zero);
    TimesAdd(r, k * a, b, add, zero);
    TimesTimes(k, a, b, add, zero);
    TimesNeg(k, A, neg, add, zero);
    var R, K, M := Times(r, b, add, zero), Times(k, A, add, zero), Times(k, neg(A), add, zero);
    Associate(R, K, M, add, zero);
    Zeros(R, add, zero);
  }

  lemma Associate<G(!new)>(a: G, b: G, c: G, add: (G, G) -> G, zero: G)
    requires Group(add, zero)
    ensures add(add(a, b), c) == add(a, add(b, c))
  {
  }

  /** With A = aB, R = rB and S = r + k a mod L for k = H(R || A || M) mod L, the signature is accepted. */
  lemma HonestSignature<G(!new)>(hash: seq<u8> -> seq<u8>, key: seq<u8>, message: seq<u8>, sig: seq<u8>, a: nat,
                                 r: nat, point: Ge,
                                 phi: Ge -> G, neg: G -> G, add: (G, G) -> G, zero: G, inv: int -> int)
    requires |key| == 32 && |sig| == 64 && PointOf(key).Some?
    requires Field(inv) && Group(add, zero) && Invertible(neg, add, zero) && Represents(phi, add, zero) &&
             Faithful(phi) && NegRepresents(phi, neg)
    requires var b := phi(Ge(BASE_X, BASE_Y, 1, FMul(BASE_X, BASE_Y)));
             Times(Scalar25519.L, b, add, zero) == zero && phi(PointOf(key).value) == Times(a, b, add, zero) &&
               phi(point) == Times(r, b, add, zero)
    requires Proper(point) && LeVal(sig[..32]) == Encoding(point)
    requires LeVal(sig[32..]) ==
             (r + (LeVal(hash(sig[..32] + key + message)) % Scalar25519.L) * a) % Scalar25519.L
    ensures Accepts(hash, key, message, sig)
  {
    hide LeVal, PointOf, Recomputed, AffineX, AffineY, Group, Represents, Invertible, Times, Proper, Field, Neg;
    BaseIsPoint(inv);
    BaseBytes();
    DecodedProper(BASE_BYTES);
    DecodedProper(key);
    var base, A := PointOf(BASE_BYTES).value, PointOf(key).value;
    var s, k := LeVal(sig[32..]), Challenge(hash, key, message, sig[..32]);
    RecomputedIs(base, A, s, k, phi, add, zero, inv);
    SignerEquation(r, k, a, s, phi(base), neg, add, zero);
    assert phi(Recomputed(base, A, s, k)) == phi(point);
  }

  // ----- what is accepted, and nothing else

  /** The top bit of the last byte stands above the other 255. */
  lemma TopBitSplit(b: seq<u8>)
    requires |b| == 32
    ensures LeVal(b) == LeVal(b) % TWO255 + (b[31] / 0x80) * TWO255
  {
    hide LeVal, Pow;
    LastByte(b);
    Top256();
    LeBound(b[..31]);
    var h, l, w := b[31] / 0x80, b[31] % 0x80, Pow(256, 31);
    HighLow(b[31], w);
    MulMono(l, 0x7f, w);
    DivModUnique(LeVal(b), h, LeVal(b[..31]) + l * w, TWO255);
  }

  lemma HighLow(x: u8, w: int)
    ensures x * w == (x / 0x80) * (0x80 * w) + (x % 0x80) * w
  {
    MulDist(w, (x / 0x80) * 0x80, x % 0x80);
    MulAssoc(x / 0x80, 0x80, w);
  }

  /** The affine coordinates of a point with Z = 1 are its own. */
  lemma AffineOfOne(g: Ge, inv: int -> int)
    requires Proper(g) && Field(inv) && g.z == 1 && 0 <= g.x < P && 0 <= g.y < P
    ensures AffineX(g) == g.x && AffineY(g) == g.y
  {
    CompressRoundTrip(g, inv);
    hide Cong, AffineX, AffineY, D;
    CongUnique(g.x, AffineX(g), P);
    CongUnique(g.y, AffineY(g), P);
  }

  /** Decompressing and compressing gives the same bytes exactly when the 255 bits of y are below p. */
  lemma ReEncoded(b: seq<u8>, inv: int -> int)
    requires |b| == 32 && PointOf(b).Some? && Field(inv)
    ensures Encoding(PointOf(b).value) == LeVal(b) <==> LeVal(b) % TWO255 < P
  {
    hide LeVal, Decompress, D, Fermat, Inverts, OnAffine, AffineX, AffineY;
    var g := PointOf(b).value;
    var y := LeVal(b) % TWO255;
    DecompressSound(EncodedY(b), b[31] / 0x80);
    DecodedProper(b);
    AffineOfOne(g, inv);
    TopBitSplit(b);
    if y < P {
      DivModUnique(y, 0, y, P);
    }
  }

  /** The encoding of a point names that point. */
  lemma Encoded(b: seq<u8>, q: Ge, inv: int -> int)
    requires |b| == 32 && Proper(q) && Field(inv) && LeVal(b) == Encoding(q)
    ensures PointOf(b).Some? && LeVal(b) % TWO255 < P
    ensures AffineX(PointOf(b).value) == AffineX(q) && AffineY(PointOf(b).value) == AffineY(q)
  {
    hide LeVal, Decompress, D, Fermat, Inverts, AffineX, AffineY;
    var y := AffineY(q);
    PIs();
    TopBitSplit(b);
    DivModUnique(LeVal(b), AffineX(q) % 2, y, TWO255);
    DivModUnique(LeVal(b), b[31] / 0x80, LeVal(b) % TWO255, TWO255);
    DivModUnique(y, 0, y, P);
    CompressRoundTrip(q, inv);
    DecodedProper(b);
    AffineOfOne(PointOf(b).value, inv);
  }

  /** x = s - k a is x + k a = s. */
  lemma Balance<G(!new)>(x: G, s: G, k: nat, a: G, neg: G -> G, add: (G, G) -> G, zero: G)
    requires Group(add, zero) && Invertible(neg, add, zero)
    ensures x == add(s, Times(k, neg(a), add, zero)) <==> add(x, Times(k, a, add, zero)) == s
  {
    hide Group, Invertible, Times;
    var K, M := Times(k, a, add, zero), Times(k, neg(a), add, zero);
    TimesNeg(k, a, neg, add, zero);
    Commute(K, M, add, zero);
    Associate(s, M, K, add, zero);
    Zeros(s, add, zero);
    if add(x, K) == s {
      CancelRight(x, add(s, M), K, neg, add, zero);
    }
  }

  lemma Commute<G(!new)>(a: G, b: G, add: (G, G) -> G, zero: G)
    requires Group(add, zero)
    ensures add(a, b) == add(b, a)
  {
  }

  /** The verdict is the verification equation of section 5.1.7 of RFC 8032, without cofactor: S is below the group
      order, the key names a point, R names one in the one way there is, and R + k A = S B for
      k = H(R || A || M) mod L. */
  lemma AcceptsExact<G(!new)>(hash: seq<u8> -> seq<u8>, key: seq<u8>, message: seq<u8>, sig: seq<u8>,
                              phi: Ge -> G, neg: G -> G, add: (G, G) -> G, zero: G, inv: int -> int)
    requires |key| == 32 && |sig| == 64
    requires Field(inv) && Group(add, zero) && Invertible(neg, add, zero) && Represents(phi, add, zero) &&
             Faithful(phi) && NegRepresents(phi, neg)
    ensures Accepts(hash, key, message, sig) <==>
            var r, s := sig[..32], LeVal(sig[32..]);
            var k := LeVal(hash(sig[..32] + key + message)) % Scalar25519.L;
            s < Scalar25519.L && PointOf(key).Some? && PointOf(r).Some? && LeVal(r) % TWO255 < P &&
            add(phi(PointOf(r).value), Times(k, phi(PointOf(key).value), add, zero)) ==
            Times(s, phi(Ge(BASE_X, BASE_Y, 1, FMul(BASE_X, BASE_Y))), add, zero)
  {
    hide LeVal, PointOf, Recomputed, Encoding, AffineX, AffineY, Group, Represents, Invertible, Times, Proper, Field,
         Neg, Faithful;
    var r, s := sig[..32], LeVal(sig[32..]);
    if s < Scalar25519.L && PointOf(key).Some? {
      var q := Equated(hash, key, message, sig, phi, neg, add, zero, inv);
      if LeVal(r) == Encoding(q) {
        Encoded(r, q, inv);
        DecodedProper(r);
        SamePoint(PointOf(r).value, q, phi);
      } else if PointOf(r).Some? && LeVal(r) % TWO255 < P {
        ReEncoded(r, inv);
        DecodedProper(r);
        SamePoint(PointOf(r).value, q, phi);
      }
    }
  }

  /** The verifier's point and the equation that it stands for. */
  lemma Equated<G(!new)>(hash: seq<u8> -> seq<u8>, key: seq<u8>, message: seq<u8>, sig: seq<u8>,
                         phi: Ge -> G, neg: G -> G, add: (G, G) -> G, zero: G, inv: int -> int) returns (q: Ge)
    requires |key| == 32 && |sig| == 64 && PointOf(key).Some? && LeVal(sig[32..]) < Scalar25519.L
    requires Field(inv) && Group(add, zero) && Invertible(neg, add, zero) && Represents(phi, add, zero) &&
             NegRepresents(phi, neg)
    ensures Proper(q) && (Accepts(hash, key, message, sig) <==> LeVal(sig[..32]) == Encoding(q))
    ensures var k := LeVal(hash(sig[..32] + key + message)) % Scalar25519.L;
            forall p: Ge :: phi(p) == phi(q) <==>
              add(phi(p), Times(k, phi(PointOf(key).value), add, zero)) ==
              Times(LeVal(sig[32..]), phi(Ge(BASE_X, BASE_Y, 1, FMul(BASE_X, BASE_Y))), add, zero)
  {
    hide LeVal, PointOf, Recomputed, Encoding, Group, Represents, Invertible, Times, Proper, Field, Neg;
    BaseIsPoint(inv);
    BaseBytes();
    DecodedProper(BASE_BYTES);
    DecodedProper(key);
    var base, a := PointOf(BASE_BYTES).value, PointOf(key).value;
    var s, k := LeVal(sig[32..]), LeVal(hash(sig[..32] + key + message)) % Scalar25519.L;
    q := Recomputed(base, a, s, k);
    RecomputedIs(base, a, s, k, phi, add, zero, inv);
    forall p: Ge
      ensures phi(p) == phi(q) <==> add(phi(p), Times(k, phi(a), add, zero)) == Times(s, phi(base), add, zero)
    {
      Balance(phi(p), Times(s, phi(base), add, zero), k, phi(a), neg, add, zero);
    }
  }

  lemma SamePoint<G(!new)>(p: Ge, q: Ge, phi: Ge -> G)
    requires Proper(p) && Proper(q) && Faithful(phi)
    ensures phi(p) == phi(q) ==> Encoding(p) == Encoding(q)
    ensures AffineX(p) == AffineX(q) && AffineY(p) == AffineY(q) ==> phi(p) == phi(q)
  {
    hide Proper, AffineX, AffineY;
  }
}
