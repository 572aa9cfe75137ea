/** tamga_ecdsa_p256_verify: the key and signature encodings joined with the P-256 verifier. */
module EcdsaVerify {
  import opened Digits
  import opened Utf8
  import opened Buf
  import opened Der
  import opened Ecdsa
  import P256Verify

  /** The two object identifiers, with nothing after them. */
  method ReadAlgorithm(content: Bytes) returns (ok: bool)
    ensures ok <==> AlgorithmIs(content)
  {
    hide Read, Reader.Left;
    var reader := new Reader(content);
    var first := reader.Expect(OID);
    if first.None? || first.value != EC_PUBLIC_KEY { return false; }
    var second := reader.Expect(OID);
    if second.None? || second.value != PRIME256V1 { return false; }
    reader.EndIsEmpty();
    return reader.AtEnd();
  }

  /** tamga_ecdsa_extract_point. */
  method ReadPoint(key: Bytes) returns (r: Option<PublicPoint>)
    ensures r == ExtractPoint(key)
  {
    hide Read, AlgorithmIs, PointBytes, Reader.Left;
    var raw := PointBytes(key);
    if raw.Some? { return raw; }
    var outer := new Reader(key);
    var sequence := outer.Expect(SEQUENCE);
    if sequence.None? { return None; }
    outer.EndIsEmpty();
    if !outer.AtEnd() { return None; }
    var inner := new Reader(sequence.value);
    var algorithm := inner.Expect(SEQUENCE);
    if algorithm.None? { return None; }
    var known := ReadAlgorithm(algorithm.value);
    if !known { return None; }
    var bits := inner.Expect(BIT_STRING);
    if bits.None? || |bits.value| < 1 || bits.value[0] != 0 { return None; }
    inner.EndIsEmpty();
    if !inner.AtEnd() { return None; }
    r := PointBytes(bits.value[1..]);
  }

  /** The key spells p, the blob spells sig, and the pair is a valid P-256 signature of the digest under p. */
  ghost predicate Valid(key: Bytes, blob: Bytes, digest: Bytes, p: PublicPoint, sig: Signature)
  {
    && |p.x| == |p.y| == |sig.r| == |sig.s| == 32
    && (key == RawPoint(p) || key == InfoPoint(p)) && blob == EncodeSignature(sig)
    && P256Verify.Accepts(BeVal(p.x), BeVal(p.y), BeVal(digest), BeVal(sig.r), BeVal(sig.s))
  }

  /** Accepted exactly when key and blob are the encodings of a point and a signature that verify. */
  method Verify(sha256: Bytes -> Bytes, key: Bytes, message: Bytes, blob: Bytes) returns (ok: bool)
    requires forall m: Bytes :: |sha256(m)| == 32
    ensures ok <==> exists p, sig :: Valid(key, blob, sha256(message), p, sig)
  {
    hide ExtractPoint, ParseSignature, BeVal, P256Verify.Accepts, RawPoint, InfoPoint, EncodeSignature;
    var point := ReadPoint(key);
    if point.None? {
      NoPoint(key, blob, sha256(message));
      return false;
    }
    var pair := ReadSignature(blob);
    if pair.None? {
      NoSignature(key, blob, sha256(message));
      return false;
    }
    var p, sig := point.value, pair.value;
    PointWidth(key);
    ParsedWidth(blob);
    KeyExact(key, p);
    SignatureExact(blob, sig);
    ok := P256Verify.Verify(p.x, p.y, sha256(message), sig.r, sig.s);
    if ok {
      assert Valid(key, blob, sha256(message), p, sig);
    }
    forall q, other | Valid(key, blob, sha256(message), q, other)
      ensures q == p && other == sig
    {
      KeyExact(key, q);
      SignatureExact(blob, other);
    }
  }

  lemma NoPoint(key: Bytes, blob: Bytes, digest: Bytes)
    requires ExtractPoint(key).None?
    ensures !exists p, sig :: Valid(key, blob, digest, p, sig)
  {
    hide ExtractPoint, RawPoint, InfoPoint, EncodeSignature, P256Verify.Accepts;
    forall p, sig ensures !Valid(key, blob, digest, p, sig) {
      if |p.x| == |p.y| == 32 {
        KeyExact(key, p);
      }
    }
  }

  lemma NoSignature(key: Bytes, blob: Bytes, digest: Bytes)
    requires ParseSignature(blob).None?
    ensures !exists p, sig :: Valid(key, blob, digest, p, sig)
  {
    hide ParseSignature, RawPoint, InfoPoint, EncodeSignature, P256Verify.Accepts;
    forall p, sig ensures !Valid(key, blob, digest, p, sig) {
      if |sig.r| == |sig.s| == 32 {
        SignatureExact(blob, sig);
      }
    }
  }

  lemma PointWidth(key: Bytes)
    requires ExtractPoint(key).Some?
    ensures |ExtractPoint(key).value.x| == |ExtractPoint(key).value.y| == 32
  {
    hide Read, AlgorithmIs;
  }
}
