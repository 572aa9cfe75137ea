/** ECDSA signature and key encodings: one byte string per (r, s), and two per public point. */
module Ecdsa {
  import opened Limbs
  import opened Utf8
  import opened Buf
  import opened Der
  import Sha

  // ----- scalars

  /** The magnitude in 32 bytes, filled up with zeros on the left. */
  function PadScalar(value: Bytes): (r: Option<Bytes>)
    ensures r.Some? ==> |r.value| == 32
  {
    if |value| == 0 || |value| > 32 then None else Some(Sha.Zeros(32 - |value|) + value)
  }

  /** The magnitude of a padded scalar. */
  function Strip(s: Bytes): (r: Bytes)
    ensures |r| <= |s|
    decreases |s|
  {
    if |s| > 1 && s[0] == 0 then Strip(s[1..]) else s
  }

  lemma {:induction false} StripMinimal(s: Bytes)
    requires s != []
    ensures Minimal(Strip(s)) && Strip(s) != []
    decreases |s|
  {
    if |s| > 1 && s[0] == 0 {
      StripMinimal(s[1..]);
    } else if |s| == 1 {
      assert s == [s[0]];
    }
  }

  lemma {:induction false} StripPads(s: Bytes)
    requires s != []
    ensures Sha.Zeros(|s| - |Strip(s)|) + Strip(s) == s
    decreases |s|
  {
    if |s| > 1 && s[0] == 0 {
      StripPads(s[1..]);
      var k := |s[1..]| - |Strip(s[1..])|;
      assert Sha.Zeros(k + 1) == [0] + Sha.Zeros(k);
      assert s == [0] + s[1..];
    } else {
      assert Sha.Zeros(0) + s == s;
    }
  }

  lemma {:induction false} StripOfPadded(k: nat, value: Bytes)
    requires Minimal(value)
    ensures Strip(Sha.Zeros(k) + value) == value
  {
    var t := Sha.Zeros(k) + value;
    if k == 0 {
      assert t == value;
    } else {
      assert t[1..] == Sha.Zeros(k - 1) + value;
      StripOfPadded(k - 1, value);
    }
  }

  /** A minimal magnitude pads to s exactly when it is what s strips to. */
  lemma PadExact(value: Bytes, s: Bytes)
    requires |s| == 32 && Minimal(value)
    ensures PadScalar(value) == Some(s) <==> value == Strip(s)
  {
    hide Strip;
    StripMinimal(s);
    StripPads(s);
    if PadScalar(value) == Some(s) {
      StripOfPadded(32 - |value|, value);
    }
  }

  // ----- tamga_ecdsa_parse_signature

  datatype Signature = Signature(r: Bytes, s: Bytes)

  /** Two INTEGERs with nothing after them. */
  function ParsePair(content: Bytes): Option<Signature>
  {
    match Read(content)
    case None => None
    case Some(first) =>
      if first.tag != INTEGER || Magnitude(first.content).None? then None
      else
        match Read(first.rest)
        case None => None
        case Some(second) =>
          if second.tag != INTEGER || Magnitude(second.content).None? || second.rest != [] then None
          else
            var r, s := PadScalar(Magnitude(first.content).value), PadScalar(Magnitude(second.content).value);
            if r.None? || s.None? then None else Some(Signature(r.value, s.value))
  }

  /** The pair in a SEQUENCE with nothing after it. */
  function ParseSignature(blob: Bytes): Option<Signature>
  {
    match Read(blob)
    case None => None
    case Some(outer) => if outer.tag != SEQUENCE || outer.rest != [] then None else ParsePair(outer.content)
  }

  /** One scalar as an INTEGER. */
  function IntegerOf(s: Bytes): (r: Bytes)
    requires |s| == 32
    ensures |r| <= 64
  {
    hide Strip;
    Tlv(INTEGER, IntegerContent(Strip(s)))
  }

  /** The encoding of (r, s). */
  function EncodeSignature(sig: Signature): Bytes
    requires |sig.r| == |sig.s| == 32
  {
    Tlv(SEQUENCE, IntegerOf(sig.r) + IntegerOf(sig.s))
  }

  /** One INTEGER that pads to s comes first, and rest is left. */
  ghost predicate ReadsScalar(t: Bytes, s: Bytes, rest: Bytes)
  {
    var e := Read(t);
    e.Some? && e.value.tag == INTEGER && e.value.rest == rest && Magnitude(e.value.content).Some? &&
    PadScalar(Magnitude(e.value.content).value) == Some(s)
  }

  lemma IntegerExact(t: Bytes, s: Bytes, rest: Bytes)
    requires |s| == 32
    ensures ReadsScalar(t, s, rest) <==> t == IntegerOf(s) + rest
  {
    hide Read, Magnitude, Tlv, PadScalar, Strip;
    var e := Read(t);
    StripMinimal(s);
    var c := IntegerContent(Strip(s));
    MagnitudeExact(c, Strip(s));
    PadExact(Strip(s), s);
    ReadExact(t, INTEGER, c, rest);
    if ReadsScalar(t, s, rest) {
      var v := Magnitude(e.value.content).value;
      MagnitudeExact(e.value.content, v);
      PadExact(v, s);
      ReadExact(t, INTEGER, e.value.content, rest);
    }
  }

  /** A blob is accepted for (r, s) if and only if it is the encoding of (r, s). */
  lemma SignatureExact(blob: Bytes, sig: Signature)
    requires |sig.r| == |sig.s| == 32
    ensures ParseSignature(blob) == Some(sig) <==> blob == EncodeSignature(sig)
  {
    hide Read, Magnitude, Tlv, PadScalar, IntegerOf;
    var inner := IntegerOf(sig.r) + IntegerOf(sig.s);
    if ParseSignature(blob) == Some(sig) {
      var outer := Read(blob).value;
      var first := Read(outer.content).value;
      ReadExact(blob, SEQUENCE, outer.content, []);
      assert ReadsScalar(outer.content, sig.r, first.rest) && ReadsScalar(first.rest, sig.s, []);
      IntegerExact(outer.content, sig.r, first.rest);
      IntegerExact(first.rest, sig.s, []);
      assert IntegerOf(sig.s) + [] == IntegerOf(sig.s);
      assert Tlv(SEQUENCE, outer.content) + [] == Tlv(SEQUENCE, outer.content);
    }
    if blob == EncodeSignature(sig) {
      assert Tlv(SEQUENCE, inner) + [] == Tlv(SEQUENCE, inner) && IntegerOf(sig.s) + [] == IntegerOf(sig.s);
      ReadExact(blob, SEQUENCE, inner, []);
      IntegerExact(inner, sig.r, IntegerOf(sig.s));
      IntegerExact(IntegerOf(sig.s), sig.s, []);
    }
  }

  /** Two accepted blobs that yield the same padded (r, s) are the same bytes. */
  lemma SignatureBlobUnique(a: Bytes, b: Bytes)
    requires ParseSignature(a).Some? && ParseSignature(a) == ParseSignature(b)
    ensures a == b
  {
    hide EncodeSignature;
    var sig := ParseSignature(a).value;
    ParsedWidth(a);
    SignatureExact(a, sig);
    SignatureExact(b, sig);
  }

  lemma ParsedWidth(a: Bytes)
    requires ParseSignature(a).Some?
    ensures |ParseSignature(a).value.r| == |ParseSignature(a).value.s| == 32
  {
    hide Read, Magnitude;
  }

  method ReadPair(content: Bytes) returns (r: Option<Signature>)
    ensures r == ParsePair(content)
  {
    hide Read, Magnitude, PadScalar, Reader.Left;
    var inner := new Reader(content);
    var rValue := inner.ReadUnsigned();
    if rValue.None? {
      return None;
    }
    var sValue := inner.ReadUnsigned();
    if sValue.None? {
      return None;
    }
    inner.EndIsEmpty();
    if !inner.AtEnd() {
      return None;
    }
    var rPadded, sPadded := PadScalar(rValue.value), PadScalar(sValue.value);
    if rPadded.None? || sPadded.None? {
      return None;
    }
    return Some(Signature(rPadded.value, sPadded.value));
  }

  /** tamga_ecdsa_parse_signature, driving one reader inside the other's content. */
  method ReadSignature(blob: Bytes) returns (r: Option<Signature>)
    ensures r == ParseSignature(blob)
  {
    hide Read, ParsePair, Reader.Left;
    var outer := new Reader(blob);
    var sequence := outer.Expect(SEQUENCE);
    if sequence.None? {
      return None;
    }
    outer.EndIsEmpty();
    if !outer.AtEnd() {
      return None;
    }
    r := ReadPair(sequence.value);
  }

  // ----- tamga_ecdsa_extract_point

  const EC_PUBLIC_KEY: Bytes := [0x2A, 0x86, 0x48, 0xCE, 0x3D, 0x02, 0x01]
  const PRIME256V1: Bytes := [0x2A, 0x86, 0x48, 0xCE, 0x3D, 0x03, 0x01, 0x07]

  datatype PublicPoint = PublicPoint(x: Bytes, y: Bytes)

  /** The coordinates in an uncompressed point. */
  function PointBytes(p: Bytes): Option<PublicPoint>
  {
    if |p| == 65 && p[0] == 4 then Some(PublicPoint(p[1..33], p[33..65])) else None
  }

  /** The content of the first element, when it has this tag. */
  function Content(t: Bytes, tag: u8): Option<(Bytes, Bytes)>
  {
    match Read(t)
    case None => None
    case Some(e) => if e.tag == tag then Some((e.content, e.rest)) else None
  }

  lemma ContentExact(t: Bytes, tag: u8, content: Bytes, rest: Bytes)
    requires LowTag(tag)
    ensures Content(t, tag) == Some((content, rest)) <==> |content| < 0x1_0000_0000 && t == Tlv(tag, content) + rest
  {
    hide Read, Tlv;
    ReadExact(t, tag, content, rest);
  }

  /** id-ecPublicKey with prime256v1, and nothing else. */
  ghost predicate AlgorithmIs(t: Bytes)
  {
    var a := Content(t, OID);
    a.Some? && a.value.0 == EC_PUBLIC_KEY &&
    var b := Content(a.value.1, OID);
    b.Some? && b.value.0 == PRIME256V1 && b.value.1 == []
  }

  /** The point of a public key in either accepted form. */
  ghost function ExtractPoint(key: Bytes): Option<PublicPoint>
  {
    if PointBytes(key).Some? then PointBytes(key)
    else
      var outer := Content(key, SEQUENCE);
      if outer.None? || outer.value.1 != [] then None
      else
        var algorithm := Content(outer.value.0, SEQUENCE);
        if algorithm.None? || !AlgorithmIs(algorithm.value.0) then None
        else
          var bits := Content(algorithm.value.1, BIT_STRING);
          if bits.None? || bits.value.1 != [] || |bits.value.0| < 1 || bits.value.0[0] != 0 then None
          else PointBytes(bits.value.0[1..])
  }

  function RawPoint(p: PublicPoint): Bytes { [4] + p.x + p.y }

  function AlgorithmBytes(): (r: Bytes)
    ensures |r| < 64
  {
    Tlv(OID, EC_PUBLIC_KEY) + Tlv(OID, PRIME256V1)
  }

  /** The key as a SubjectPublicKeyInfo. */
  function InfoPoint(p: PublicPoint): Bytes
    requires |p.x| == |p.y| == 32
  {
    Tlv(SEQUENCE, Tlv(SEQUENCE, AlgorithmBytes()) + Tlv(BIT_STRING, [0] + RawPoint(p)))
  }

  lemma PointExact(b: Bytes, p: PublicPoint)
    requires |p.x| == |p.y| == 32
    ensures PointBytes(b) == Some(p) <==> b == RawPoint(p)
  {
    var r := RawPoint(p);
    assert r[1..33] == p.x && r[33..65] == p.y;
    if |b| == 65 && b[0] == 4 {
      assert b == [b[0]] + b[1..33] + b[33..65];
    }
  }

  lemma AlgorithmExact(t: Bytes)
    ensures AlgorithmIs(t) <==> t == AlgorithmBytes()
  {
    hide Read, Content, Tlv, EC_PUBLIC_KEY, PRIME256V1;
    OidLengths();
    var second := Tlv(OID, PRIME256V1);
    ContentExact(t, OID, EC_PUBLIC_KEY, second);
    ContentExact(second, OID, PRIME256V1, []);
    assert second + [] == second;
    if AlgorithmIs(t) {
      var a := Content(t, OID).value;
      ContentExact(t, OID, EC_PUBLIC_KEY, a.1);
      ContentExact(a.1, OID, PRIME256V1, []);
    }
  }

  lemma OidLengths()
    ensures |EC_PUBLIC_KEY| == 7 && |PRIME256V1| == 8
  {
  }

  /** A key is accepted for (x, y) if and only if it is the raw point or the one SubjectPublicKeyInfo of it: the
      curve cannot be another one, and no padding or trailing byte gets through. */
  lemma KeyExact(key: Bytes, p: PublicPoint)
    requires |p.x| == |p.y| == 32
    ensures ExtractPoint(key) == Some(p) <==> key == RawPoint(p) || key == InfoPoint(p)
  {
    hide Read, Content, Tlv, AlgorithmIs, PointBytes, RawPoint, AlgorithmBytes;
    PointExact(key, p);
    if ExtractPoint(key) == Some(p) && PointBytes(key).None? {
      InfoRead(key, p);
    }
    if key == InfoPoint(p) {
      InfoNotRaw(key, p);
      InfoWritten(p);
    }
  }

  lemma InfoRead(key: Bytes, p: PublicPoint)
    requires |p.x| == |p.y| == 32 && PointBytes(key).None? && ExtractPoint(key) == Some(p)
    ensures key == InfoPoint(p)
  {
    hide Read, Content, Tlv, AlgorithmIs, PointBytes, RawPoint, AlgorithmBytes;
    var outer := Content(key, SEQUENCE).value;
    var algorithm := Content(outer.0, SEQUENCE).value;
    var bits := Content(algorithm.1, BIT_STRING).value;
    ContentExact(key, SEQUENCE, outer.0, []);
    ContentExact(outer.0, SEQUENCE, algorithm.0, algorithm.1);
    AlgorithmExact(algorithm.0);
    ContentExact(algorithm.1, BIT_STRING, bits.0, []);
    PointExact(bits.0[1..], p);
    assert bits.0 == [0] + bits.0[1..];
    NothingAfter(Tlv(BIT_STRING, bits.0));
    NothingAfter(Tlv(SEQUENCE, outer.0));
  }

  lemma NothingAfter(s: Bytes)
    ensures s + [] == s
  {
  }

  lemma InfoWritten(p: PublicPoint)
    requires |p.x| == |p.y| == 32 && PointBytes(InfoPoint(p)).None?
    ensures ExtractPoint(InfoPoint(p)) == Some(p)
  {
    RawLength(p);
    hide Read, Content, Tlv, AlgorithmIs, PointBytes, RawPoint, AlgorithmBytes;
    var bits := [0] + RawPoint(p);
    var third := Tlv(BIT_STRING, bits);
    var body := Tlv(SEQUENCE, AlgorithmBytes()) + third;
    NothingAfter(Tlv(SEQUENCE, body));
    NothingAfter(third);
    ContentExact(InfoPoint(p), SEQUENCE, body, []);
    ContentExact(body, SEQUENCE, AlgorithmBytes(), third);
    AlgorithmExact(AlgorithmBytes());
    ContentExact(third, BIT_STRING, bits, []);
    assert bits[1..] == RawPoint(p);
    PointExact(RawPoint(p), p);
  }

  lemma RawLength(p: PublicPoint)
    requires |p.x| == |p.y| == 32
    ensures |RawPoint(p)| == 65
  {
  }

  lemma InfoNotRaw(key: Bytes, p: PublicPoint)
    requires |p.x| == |p.y| == 32 && key == InfoPoint(p)
    ensures PointBytes(key).None?
  {
    assert key[0] == SEQUENCE;
  }
}
