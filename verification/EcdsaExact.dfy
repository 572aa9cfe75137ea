/** The byte strings that are keys and signatures, written out, and what it means that one verifies under the other. */
module EcdsaExact {
  import opened Arith
  import opened Limbs
  import opened Digits
  import opened Utf8
  import opened Der
  import opened Ecdsa
  import EcdsaVerify
  import P256Constants
  import P256Signature
  import P256Verify
  import Sha
  import opened Jacobian
  import opened JacobianGroup

  // ----- keys

  /** An uncompressed point, bare. */
  function BareKey(x: Bytes, y: Bytes): Bytes { [0x04] + x + y }

  /** The same point as a SubjectPublicKeyInfo for id-ecPublicKey and prime256v1, section 2 of RFC 5480. */
  function InfoKey(x: Bytes, y: Bytes): Bytes
  {
    [0x30, 0x59, 0x30, 0x13, 0x06, 0x07, 0x2A, 0x86, 0x48, 0xCE, 0x3D, 0x02, 0x01,
     0x06, 0x08, 0x2A, 0x86, 0x48, 0xCE, 0x3D, 0x03, 0x01, 0x07, 0x03, 0x42, 0x00, 0x04] + x + y
  }

  lemma TlvShort(tag: u8, content: Bytes)
    requires |content| < 0x80
    ensures Tlv(tag, content) == [tag, |content|] + content
  {
  }

  lemma AlgorithmIs()
    ensures AlgorithmBytes() ==
            [0x06, 0x07, 0x2A, 0x86, 0x48, 0xCE, 0x3D, 0x02, 0x01,
             0x06, 0x08, 0x2A, 0x86, 0x48, 0xCE, 0x3D, 0x03, 0x01, 0x07]
  {
    hide Tlv;
    TlvShort(OID, EC_PUBLIC_KEY);
    TlvShort(OID, PRIME256V1);
  }

  lemma InfoKeyIs(x: Bytes, y: Bytes)
    requires |x| == |y| == 32
    ensures InfoPoint(PublicPoint(x, y)) == InfoKey(x, y) && RawPoint(PublicPoint(x, y)) == BareKey(x, y)
  {
    hide Tlv, AlgorithmBytes;
    var bits := [0] + RawPoint(PublicPoint(x, y));
    AlgorithmIs();
    TlvShort(SEQUENCE, AlgorithmBytes());
    TlvShort(BIT_STRING, bits);
    TlvShort(SEQUENCE, Tlv(SEQUENCE, AlgorithmBytes()) + Tlv(BIT_STRING, bits));
    Spliced(AlgorithmBytes(), x, y);
    HeadIs();
  }

  lemma Spliced(algorithm: Bytes, x: Bytes, y: Bytes)
    ensures [0x30, 0x59] + (([0x30, 0x13] + algorithm) + ([0x03, 0x42] + ([0x00] + ([0x04] + x + y)))) ==
            [0x30, 0x59, 0x30, 0x13] + algorithm + [0x03, 0x42, 0x00, 0x04] + x + y
  {
  }

  lemma HeadIs()
    ensures [0x30, 0x59, 0x30, 0x13] +
            [0x06, 0x07, 0x2A, 0x86, 0x48, 0xCE, 0x3D, 0x02, 0x01,
             0x06, 0x08, 0x2A, 0x86, 0x48, 0xCE, 0x3D, 0x03, 0x01, 0x07] + [0x03, 0x42, 0x00, 0x04] ==
            [0x30, 0x59, 0x30, 0x13, 0x06, 0x07, 0x2A, 0x86, 0x48, 0xCE, 0x3D, 0x02, 0x01,
             0x06, 0x08, 0x2A, 0x86, 0x48, 0xCE, 0x3D, 0x03, 0x01, 0x07, 0x03, 0x42, 0x00, 0x04]
  {
  }

  // ----- signatures

  /** The shortest two's-complement content of an INTEGER that is not negative. */
  ghost predicate Shortest(c: Bytes, v: nat)
  {
    c != [] && c[0] < 0x80 && (|c| > 1 && c[0] == 0 ==> c[1] >= 0x80) && BeVal(c) == v
  }

  /** A SEQUENCE of the two INTEGERs. */
  predicate SignatureIs(blob: Bytes, a: Bytes, b: Bytes)
  {
    |a| <= 33 && |b| <= 33 && blob == [0x30, 4 + |a| + |b|, 0x02, |a|] + a + [0x02, |b|] + b
  }

  lemma LeadingZeros(k: nat, s: Bytes)
    ensures BeVal(Sha.Zeros(k) + s) == BeVal(s)
  {
    hide BeVal, Pow;
    var z := Sha.Zeros(k);
    BeSplit(z + s, k);
    assert (z + s)[..k] == z && (z + s)[k..] == s;
    ZeroValue(k);
  }

  lemma {:induction false} ZeroValue(k: nat)
    ensures BeVal(Sha.Zeros(k)) == 0
  {
    if k > 0 {
      ZeroValue(k - 1);
      assert Sha.Zeros(k)[..k - 1] == Sha.Zeros(k - 1);
    }
  }

  /** The content for a 32-byte scalar. */
  lemma ScalarContent(s: Bytes)
    requires |s| == 32
    ensures var c := IntegerContent(Strip(s)); |c| <= 33 && Shortest(c, BeVal(s))
  {
    hide BeVal, Strip;
    StripMinimal(s);
    StripPads(s);
    var m := Strip(s);
    LeadingZeros(|s| - |m|, m);
    if m[0] >= 0x80 {
      LeadingZeros(1, m);
      assert Sha.Zeros(1) == [0];
    }
  }

  lemma SignatureForm(sig: Signature)
    requires |sig.r| == |sig.s| == 32
    ensures var a, b := IntegerContent(Strip(sig.r)), IntegerContent(Strip(sig.s));
            SignatureIs(EncodeSignature(sig), a, b) && Shortest(a, BeVal(sig.r)) && Shortest(b, BeVal(sig.s))
  {
    hide Tlv, BeVal, Strip, IntegerContent, Shortest;
    var a, b := IntegerContent(Strip(sig.r)), IntegerContent(Strip(sig.s));
    ScalarContent(sig.r);
    ScalarContent(sig.s);
    TlvShort(INTEGER, a);
    TlvShort(INTEGER, b);
    TlvShort(SEQUENCE, IntegerOf(sig.r) + IntegerOf(sig.s));
  }

  /** A number has one shortest content. */
  lemma ShortestUnique(c: Bytes, d: Bytes, v: nat)
    requires Shortest(c, v) && Shortest(d, v)
    ensures c == d
  {
    hide BeVal;
    var m, n := Magnitude(c).value, Magnitude(d).value;
    MagnitudeExact(c, m);
    MagnitudeExact(d, n);
    SameValue(c, m);
    SameValue(d, n);
    MinimalUnique(m, n);
  }

  lemma SameValue(c: Bytes, m: Bytes)
    requires m != [] && c == IntegerContent(m)
    ensures BeVal(c) == BeVal(m)
  {
    hide BeVal;
    if m[0] >= 0x80 {
      LeadingZeros(1, m);
      assert Sha.Zeros(1) == [0];
    }
  }

  lemma MinimalUnique(m: Bytes, n: Bytes)
    requires Minimal(m) && Minimal(n) && BeVal(m) == BeVal(n)
    ensures m == n
  {
    hide BeVal, Pow;
    if |m| < |n| {
      Longer(m, n);
    } else if |n| < |m| {
      Longer(n, m);
    }
    BeUnique(m, n);
  }

  lemma Longer(m: Bytes, n: Bytes)
    requires Minimal(m) && Minimal(n) && |m| < |n|
    ensures BeVal(m) < BeVal(n)
  {
    hide BeVal, Pow;
    FirstByte(n);
    BeBound(m);
    PowMono(|m|, |n| - 1);
  }

  lemma {:induction false} PowMono(a: nat, b: nat)
    requires a <= b
    ensures Pow(256, a) <= Pow(256, b)
  {
    if a < b {
      PowMono(a, b - 1);
      assert Pow(256, b) == 256 * Pow(256, b - 1);
    }
  }

  // ----- verification

  /** The key and the blob spell a point and two numbers that satisfy the verification equation. */
  ghost predicate Verifies(key: Bytes, blob: Bytes, digest: Bytes, x: Bytes, y: Bytes, a: Bytes, b: Bytes)
  {
    && |x| == |y| == 32 && (key == BareKey(x, y) || key == InfoKey(x, y))
    && SignatureIs(blob, a, b) && Shortest(a, BeVal(a)) && Shortest(b, BeVal(b))
    && P256Verify.Accepts(BeVal(x), BeVal(y), BeVal(digest), BeVal(a), BeVal(b))
  }

  /** A signature verifies exactly when its bytes and the key's are of that form. */
  lemma VerifiesExact(key: Bytes, blob: Bytes, digest: Bytes)
    ensures (exists p, sig :: EcdsaVerify.Valid(key, blob, digest, p, sig)) <==>
            exists x, y, a, b :: Verifies(key, blob, digest, x, y, a, b)
  {
    hide P256Verify.Accepts, EncodeSignature, InfoPoint, RawPoint, BareKey, InfoKey, SignatureIs, Shortest, Strip,
      BeVal,
         IntegerContent;
    if p, sig :| EcdsaVerify.Valid(key, blob, digest, p, sig) {
      var a, b := IntegerContent(Strip(sig.r)), IntegerContent(Strip(sig.s));
      SignatureForm(sig);
      InfoKeyIs(p.x, p.y);
      ValueOf(a, BeVal(sig.r));
      ValueOf(b, BeVal(sig.s));
      assert Verifies(key, blob, digest, p.x, p.y, a, b);
    }
    if x, y, a, b :| Verifies(key, blob, digest, x, y, a, b) {
      InfoKeyIs(x, y);
      var r := ScalarFor(key, digest, x, y, a, b, a);
      var s := ScalarFor(key, digest, x, y, a, b, b);
      SignatureForm(Signature(r, s));
      ShortestUnique(IntegerContent(Strip(r)), a, BeVal(a));
      ShortestUnique(IntegerContent(Strip(s)), b, BeVal(b));
      SameBlob(blob, EncodeSignature(Signature(r, s)), a, b);
      assert EcdsaVerify.Valid(key, blob, digest, PublicPoint(x, y), Signature(r, s));
    }
  }

  lemma ValueOf(c: Bytes, v: nat)
    requires Shortest(c, v)
    ensures BeVal(c) == v
  {
  }

  lemma SameBlob(blob: Bytes, other: Bytes, a: Bytes, b: Bytes)
    requires SignatureIs(blob, a, b) && SignatureIs(other, a, b)
    ensures blob == other
  {
  }

  /** An accepted scalar fits 32 bytes. */
  lemma ScalarFor(key: Bytes, digest: Bytes, x: Bytes, y: Bytes, a: Bytes, b: Bytes, c: Bytes) returns (s: Bytes)
    requires P256Verify.Accepts(BeVal(x), BeVal(y), BeVal(digest), BeVal(a), BeVal(b)) && (c == a || c == b)
    ensures |s| == 32 && BeVal(s) == BeVal(c)
  {
    hide P256Verify.Accepts, BeVal, Pow, Sha.BeBytes;
    InRange(x, y, digest, a, b);
    P256Signature.Small(BeVal(c));
    TwoTo256();
    s := Sha.BeBytes(BeVal(c), 32);
    Sha.BeBytesValue(BeVal(c), 32);
  }

  lemma InRange(x: Bytes, y: Bytes, digest: Bytes, a: Bytes, b: Bytes)
    requires P256Verify.Accepts(BeVal(x), BeVal(y), BeVal(digest), BeVal(a), BeVal(b))
    ensures BeVal(a) < P256Constants.N && BeVal(b) < P256Constants.N
  {
    hide BeVal, Pow, Same, Cubic, Shamir, QMul;
  }

  lemma TwoTo256()
    ensures Pow(256, 32) == Pow(2, 256)
  {
    hide Pow;
    Pow256Is(32);
  }
}
