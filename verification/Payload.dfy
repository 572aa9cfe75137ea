/** The payload of an offline file: from the undecoded enc string to the signed text and its JSON value. */
module Payload {
  import opened Limbs
  import opened Utf8
  import opened Json
  import opened Buf
  import opened KeySet
  import Base64
  import Gcm
  import GcmSeal
  import JsonParse
  import JsonParser
  import Octet

  /** A licence file seals its payload in one blob, a machine file in two halves. */
  datatype Kind = Licence | Machine(scheme: nat)

  const DOT: u8 := 0x2E

  type Cipher = GcmSeal.Bytes -> GcmSeal.Bytes

  // ----- bytes as numbers and as bit-vectors

  function Octets(b: GcmSeal.Bytes): (r: Bytes)
    ensures |r| == |b|
  {
    seq(|b|, i requires 0 <= i < |b| => b[i] as int)
  }

  function Words(b: Bytes): (r: GcmSeal.Bytes)
    ensures |r| == |b|
  {
    seq(|b|, i requires 0 <= i < |b| => Octet.Word(b[i]))
  }

  lemma OctetsOfWords(b: Bytes)
    ensures Octets(Words(b)) == b
  {
  }

  lemma WordsOfOctets(b: GcmSeal.Bytes)
    ensures Words(Octets(b)) == b
  {
    forall i | 0 <= i < |b| ensures Words(Octets(b))[i] == b[i] {
      Octet.WordBack(b[i]);
    }
  }

  // ----- a machine file: nonce and ciphertext in base64 with a dot between

  /** Where c first stands in s, or |s|. */
  function FirstOf(s: Bytes, c: u8): (i: nat)
    ensures i <= |s| && (forall k :: 0 <= k < i ==> s[k] != c) && (i < |s| ==> s[i] == c)
  {
    if s == [] || s[0] == c then 0 else 1 + FirstOf(s[1..], c)
  }

  ghost predicate Decodes(s: Bytes) { exists b :: Base64.Spells(s, b) }

  /** tamga_machine_open_encrypted, under the block cipher of the derived key. */
  ghost function OpenEncrypted(e: Cipher, enc: Bytes): Outcome<Bytes>
    requires GcmSeal.Cipher(e)
  {
    var dot := FirstOf(enc, DOT);
    if dot == |enc| then Bad(DecryptionFailed)
    else
      var left, right := enc[..dot], enc[dot + 1..];
      if left == [] || right == [] || DOT in right then Bad(DecryptionFailed)
      else if !Decodes(left) then Bad(InvalidBase64)
      else
        var nonce :| Base64.Spells(left, nonce);
        if |nonce| != 12 then Bad(DecryptionFailed)
        else if !Decodes(right) then Bad(InvalidBase64)
        else
          var message :| Base64.Spells(right, message);
          if |message| <= 16 || !GcmSeal.Opens(e, Words(nonce), [], Words(message)) then Bad(DecryptionFailed)
          else Good(Octets(GcmSeal.Opened(e, Words(nonce), Words(message))))
  }

  /** enc carries the nonce and the sealed text, each in a base64 spelling of its own. */
  ghost predicate CarriesPair(e: Cipher, enc: Bytes, text: Bytes)
    requires GcmSeal.Cipher(e)
  {
    text != [] && exists nonce, message :: PairIs(e, enc, nonce, message, text)
  }

  ghost predicate PairIs(e: Cipher, enc: Bytes, nonce: Bytes, message: Bytes, text: Bytes)
    requires GcmSeal.Cipher(e)
  {
    && |nonce| == 12 && GcmSeal.Sealed(e, Words(nonce), [], Words(text), Words(message))
    && exists left, right :: enc == left + [DOT] + right && Base64.Spells(left, nonce) && Base64.Spells(right, message)
  }

  lemma NoDot(b: Bytes)
    ensures DOT !in Base64.Bare(b)
  {
    Base64.BareValue(b);
    hide Base64.Bare;
    var s := Base64.Bare(b);
    assert Base64.Sextet(DOT) == -1;
    assert forall i :: 0 <= i < |s| ==> Base64.Sextet(s[i]) >= 0;
  }

  lemma SpellingHasNoDot(s: Bytes, b: Bytes)
    requires Base64.Spells(s, b)
    ensures DOT !in s && (b != [] ==> s != [])
  {
    NoDot(b);
    Base64.BareLength(b);
    hide Base64.Bare;
    assert DOT !in Base64.Padding(|b|);
  }

  lemma SplitAtDot(left: Bytes, right: Bytes)
    requires DOT !in left
    ensures FirstOf(left + [DOT] + right, DOT) == |left|
  {
    var s := left + [DOT] + right;
    assert s[|left|] == DOT;
    assert forall k :: 0 <= k < |left| ==> s[k] == left[k] != DOT;
  }

  lemma OneSpelling(s: Bytes, b: Bytes)
    requires Base64.Spells(s, b)
    ensures Decodes(s) && forall c :: Base64.Spells(s, c) ==> c == b
  {
    hide Base64.Spells;
    forall c | Base64.Spells(s, c) ensures c == b {
      Base64.SpellsUnique(s, b, c);
    }
  }

  lemma OpenPair(e: Cipher, enc: Bytes, nonce: Bytes, message: Bytes, text: Bytes)
    requires GcmSeal.Cipher(e) && text != [] && PairIs(e, enc, nonce, message, text)
    ensures OpenEncrypted(e, enc) == Good(text)
  {
    hide GcmSeal.Opens, GcmSeal.Opened, GcmSeal.Stream, GcmSeal.TagBits, Base64.Spells, FirstOf;
    var left, right :| enc == left + [DOT] + right && Base64.Spells(left, nonce) && Base64.Spells(right, message);
    SpellingHasNoDot(left, nonce);
    SpellingHasNoDot(right, message);
    SplitAtDot(left, right);
    assert enc[..|left|] == left && enc[|left| + 1..] == right;
    OneSpelling(left, nonce);
    OneSpelling(right, message);
    GcmSeal.OpenSealed(e, Words(nonce), [], Words(text), Words(message));
    OctetsOfWords(text);
  }

  lemma PairOpened(e: Cipher, enc: Bytes)
    requires GcmSeal.Cipher(e) && OpenEncrypted(e, enc).Good?
    ensures CarriesPair(e, enc, OpenEncrypted(e, enc).value)
  {
    hide GcmSeal.Opens, GcmSeal.Opened, GcmSeal.Stream, GcmSeal.TagBits, GcmSeal.Sealed, Base64.Spells, FirstOf;
    var dot := FirstOf(enc, DOT);
    var left, right := enc[..dot], enc[dot + 1..];
    var nonce :| Base64.Spells(left, nonce);
    var message :| Base64.Spells(right, message);
    OneSpelling(left, nonce);
    OneSpelling(right, message);
    assert enc == left + [DOT] + right;
    var clear := GcmSeal.Opened(e, Words(nonce), Words(message));
    GcmSeal.OpenedIsSealed(e, Words(nonce), [], clear, Words(message));
    WordsOfOctets(clear);
    SealedLength(e, Words(nonce), clear, Words(message));
    assert PairIs(e, enc, nonce, message, Octets(clear));
  }

  /** What comes out of a machine file is exactly what was sealed into it, whichever base64 spellings were used. */
  lemma PairExact(e: Cipher, enc: Bytes, text: Bytes)
    requires GcmSeal.Cipher(e)
    ensures OpenEncrypted(e, enc) == Good(text) <==> CarriesPair(e, enc, text)
  {
    hide OpenEncrypted, PairIs;
    if CarriesPair(e, enc, text) {
      var nonce, message :| PairIs(e, enc, nonce, message, text);
      OpenPair(e, enc, nonce, message, text);
    }
    if OpenEncrypted(e, enc).Good? {
      PairOpened(e, enc);
    }
  }

  lemma SealedLength(e: Cipher, nonce: GcmSeal.Bytes, plaintext: GcmSeal.Bytes, message: GcmSeal.Bytes)
    requires GcmSeal.Cipher(e) && |nonce| == 12 && GcmSeal.Sealed(e, nonce, [], plaintext, message)
    ensures |message| == |plaintext| + 16
  {
  }

  // ----- a licence file: nonce, ciphertext and tag in one blob

  /** The encrypted branch of tamga_license_decode_payload, once enc has been decoded. */
  ghost function OpenBlob(e: Cipher, blob: Bytes): Outcome<Bytes>
    requires GcmSeal.Cipher(e)
  {
    if |blob| < 28 || !GcmSeal.Opens(e, Words(blob[..12]), [], Words(blob[12..])) then Bad(DecryptionFailed)
    else Good(Octets(GcmSeal.Opened(e, Words(blob[..12]), Words(blob[12..]))))
  }

  ghost predicate CarriesBlob(e: Cipher, enc: Bytes, text: Bytes)
    requires GcmSeal.Cipher(e)
  {
    exists nonce, message :: BlobIs(e, enc, nonce, message, text)
  }

  ghost predicate BlobIs(e: Cipher, enc: Bytes, nonce: Bytes, message: Bytes, text: Bytes)
    requires GcmSeal.Cipher(e)
  {
    && |nonce| == 12 && Base64.Spells(enc, nonce + message)
    && GcmSeal.Sealed(e, Words(nonce), [], Words(text), Words(message))
  }

  /** What comes out of a blob is exactly what was sealed into it. */
  lemma BlobExact(e: Cipher, enc: Bytes, blob: Bytes, text: Bytes)
    requires GcmSeal.Cipher(e) && Base64.Spells(enc, blob)
    ensures OpenBlob(e, blob) == Good(text) <==> CarriesBlob(e, enc, text)
  {
    hide GcmSeal.Opens, GcmSeal.Opened, GcmSeal.Sealed, Base64.Spells;
    if |blob| >= 28 {
      var nonce, message := blob[..12], blob[12..];
      assert blob == nonce + message;
      var clear := GcmSeal.Opened(e, Words(nonce), Words(message));
      GcmSeal.OpenedIsSealed(e, Words(nonce), [], clear, Words(message));
      WordsOfOctets(clear);
      if OpenBlob(e, blob) == Good(text) {
        assert BlobIs(e, enc, nonce, message, text);
      }
    }
    if CarriesBlob(e, enc, text) {
      var nonce, message :| BlobIs(e, enc, nonce, message, text);
      Base64.SpellsUnique(enc, blob, nonce + message);
      assert blob[..12] == nonce && blob[12..] == message;
      SealedLength(e, Words(nonce), Words(text), Words(message));
      GcmSeal.OpenedIsSealed(e, Words(nonce), [], Words(text), Words(message));
      OctetsOfWords(text);
    }
  }

  // ----- both kinds, plain and encrypted

  ghost predicate Ready(cipher: Option<Cipher>) { cipher.Some? ==> GcmSeal.Cipher(cipher.value) }

  /** tamga_license_decode_payload and tamga_machine_decode_payload. The cipher is missing when the caller gave no
      licence key (or, for a machine file, no fingerprint). */
  ghost function Decoded(kind: Kind, encrypted: bool, cipher: Option<Cipher>, enc: Bytes): Outcome<Bytes>
    requires Ready(cipher)
  {
    if encrypted && kind.Machine? then
      if cipher.None? then Bad(NullArgument) else OpenEncrypted(cipher.value, enc)
    else if !Decodes(enc) then Bad(InvalidBase64)
    else
      var bytes :| Base64.Spells(enc, bytes);
      if !encrypted then Good(bytes) else if cipher.None? then Bad(NullArgument) else OpenBlob(cipher.value, bytes)
  }

  /** What it means that enc carries a text. */
  ghost predicate Carries(kind: Kind, encrypted: bool, cipher: Option<Cipher>, enc: Bytes, text: Bytes)
    requires Ready(cipher)
  {
    if !encrypted then Base64.Spells(enc, text)
    else cipher.Some? && if kind.Licence? then CarriesBlob(cipher.value, enc, text)
      else CarriesPair(cipher.value, enc, text)
  }

  /** Decoding gives a text exactly when enc carries that text. */
  lemma DecodedExact(kind: Kind, encrypted: bool, cipher: Option<Cipher>, enc: Bytes, text: Bytes)
    requires Ready(cipher)
    ensures Decoded(kind, encrypted, cipher, enc) == Good(text) <==> Carries(kind, encrypted, cipher, enc, text)
  {
    hide Base64.Spells, OpenBlob, OpenEncrypted, CarriesPair, BlobIs;
    if encrypted && kind.Machine? {
      if cipher.Some? {
        PairExact(cipher.value, enc, text);
      }
    } else if Decodes(enc) {
      var bytes :| Base64.Spells(enc, bytes);
      OneSpelling(enc, bytes);
      if encrypted && cipher.Some? {
        BlobExact(cipher.value, enc, bytes, text);
      }
    } else if encrypted && cipher.Some? && CarriesBlob(cipher.value, enc, text) {
      var nonce, message :| BlobIs(cipher.value, enc, nonce, message, text);
      BlobDecodes(cipher.value, enc, nonce, message, text);
      assert false;
    }
  }

  lemma BlobDecodes(e: Cipher, enc: Bytes, nonce: Bytes, message: Bytes, text: Bytes)
    requires GcmSeal.Cipher(e) && BlobIs(e, enc, nonce, message, text)
    ensures Decodes(enc)
  {
  }

  /** The JSON value of the payload. */
  ghost function PayloadOf(kind: Kind, encrypted: bool, cipher: Option<Cipher>, enc: Bytes): Outcome<Value>
    requires Ready(cipher)
  {
    match Decoded(kind, encrypted, cipher, enc)
    case Bad(s) => Bad(s)
    case Good(text) =>
      match JsonParse.Parse(text)
      case Ok(v, _) => Good(v)
      case Err(_) => Bad(InvalidJson)
  }

  // ----- the stepwise form

  method FindDot(enc: Bytes) returns (dot: nat)
    ensures dot == FirstOf(enc, DOT)
  {
    dot := 0;
    assert enc[0..] == enc;
    while dot < |enc| && enc[dot] != DOT
      invariant dot <= |enc| && dot + FirstOf(enc[dot..], DOT) == FirstOf(enc, DOT)
    {
      assert enc[dot..][1..] == enc[dot + 1..];
      dot := dot + 1;
    }
  }

  method DecodeHalf(s: Bytes) returns (r: Option<Bytes>)
    ensures r.Some? ==> Base64.Spells(s, r.value)
    ensures r.None? ==> !Decodes(s)
  {
    hide Base64.Spells;
    var out := new u8[Base64.Capacity(|s|)];
    var ok, n := Base64.Decode(s, out);
    r := if ok then Some(out[..n]) else None;
  }

  /** The search, both decodings and the opening, into buffers of their own. */
  method OpenPairInto(e: Cipher, enc: Bytes) returns (r: Outcome<Bytes>)
    requires GcmSeal.Cipher(e)
    ensures r == OpenEncrypted(e, enc)
  {
    hide GcmSeal.Opens, GcmSeal.Opened, Base64.Spells, FirstOf, Base64.Capacity;
    var dot := FindDot(enc);
    if dot == |enc| { return Bad(DecryptionFailed); }
    var left, right := enc[..dot], enc[dot + 1..];
    if left == [] || right == [] { return Bad(DecryptionFailed); }
    if DOT in right { return Bad(DecryptionFailed); }
    var nonce := DecodeHalf(left);
    if nonce.None? { return Bad(InvalidBase64); }
    OneSpelling(left, nonce.value);
    if |nonce.value| != 12 { return Bad(DecryptionFailed); }
    var message := DecodeHalf(right);
    if message.None? { return Bad(InvalidBase64); }
    OneSpelling(right, message.value);
    if |message.value| <= 16 { return Bad(DecryptionFailed); }
    var out := new Gcm.Byte[|message.value| - 16];
    var ok, n := GcmSeal.Open(e, Words(nonce.value), [], Words(message.value), out);
    if !ok { return Bad(DecryptionFailed); }
    r := Good(Octets(out[..n]));
  }

  method OpenBlobInto(e: Cipher, blob: Bytes) returns (r: Outcome<Bytes>)
    requires GcmSeal.Cipher(e)
    ensures r == OpenBlob(e, blob)
  {
    hide GcmSeal.Opens, GcmSeal.Opened;
    if |blob| < 28 { return Bad(DecryptionFailed); }
    var out := new Gcm.Byte[|blob| - 12];
    var ok, n := GcmSeal.Open(e, Words(blob[..12]), [], Words(blob[12..]), out);
    if !ok { return Bad(DecryptionFailed); }
    r := Good(Octets(out[..n]));
  }

  /** Decodes payloads under one derived key, and counts how often. */
  class Decoder {
    const cipher: Option<Cipher>
    var uses: nat

    constructor (cipher: Option<Cipher>)
      ensures this.cipher == cipher && uses == 0
    {
      this.cipher, uses := cipher, 0;
    }

    method Decode(kind: Kind, encrypted: bool, enc: Bytes) returns (r: Outcome<Bytes>)
      requires Ready(cipher)
      modifies this
      ensures uses == old(uses) + 1 && r == Decoded(kind, encrypted, cipher, enc)
    {
      hide OpenBlob, OpenEncrypted, Base64.Spells;
      uses := uses + 1;
      if encrypted && kind.Machine? {
        if cipher.None? { return Bad(NullArgument); }
        r := OpenPairInto(cipher.value, enc);
        return;
      }
      var bytes := DecodeHalf(enc);
      if bytes.None? { return Bad(InvalidBase64); }
      OneSpelling(enc, bytes.value);
      if !encrypted { return Good(bytes.value); }
      if cipher.None? { return Bad(NullArgument); }
      r := OpenBlobInto(cipher.value, bytes.value);
    }

    method Payload(kind: Kind, encrypted: bool, enc: Bytes) returns (r: Outcome<Value>)
      requires Ready(cipher)
      modifies this
      ensures uses == old(uses) + 1 && r == PayloadOf(kind, encrypted, cipher, enc)
    {
      hide Decoded, JsonParse.Parse;
      var text := Decode(kind, encrypted, enc);
      if text.Bad? { return Bad(text.status); }
      var memory := new Memory(true, false);
      var value, error := JsonParser.ParseText(text.value, memory, memory);
      r := if value.Some? then Good(value.value) else Bad(InvalidJson);
    }
  }
}
