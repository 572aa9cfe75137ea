/** Verifying licence and machine files offline, from the parsed certificate to the accepted resource, over any
    signature check and any block cipher. */
module OfflineFile {
  import opened Utf8
  import opened Json
  import opened Buf
  import opened KeySet
  import opened MachineAlg
  import opened Payload
  import Base64
  import JsonParse
  import JsonRoundTrip
  import JsonWrite

  /** The three fields of a certificate, none of them decoded. */
  datatype Cert = Cert(alg: string, enc: Bytes, sig: Bytes)

  datatype Claims = Claims(issuedAt: int, expiry: Option<int>)

  datatype Accepted = Accepted(resource: Value, claims: Claims)

  const SKEW: int := 60

  /** The id of an account that has published no key. */
  const UNPUBLISHED: string := "e3b0c44298fc1c14"

  // ----- claims

  /** An integer literal, or a double that is integral; what a double is worth is left to integral. */
  function AsInt(v: Option<Value>, integral: Bytes -> Option<int>): Option<int>
  {
    if v.None? then None
    else
      match v.value
      case Int(i) => Some(i)
      case Real(token) => integral(token)
      case _ => None
  }

  /** tamga_claims_read. */
  function ReadClaims(meta: Option<Value>, integral: Bytes -> Option<int>): Outcome<Claims>
  {
    if meta.None? || !meta.value.Object? then Bad(InvalidJson)
    else
      var iat := AsInt(Field(meta, Ascii("iat")), integral);
      var issued := if iat.Some? then iat.value else 0;
      var exp := Field(meta, Ascii("exp"));
      if exp.None? || exp.value.Null? then Good(Claims(issued, None))
      else if AsInt(exp, integral).None? then Bad(InvalidJson)
      else Good(Claims(issued, AsInt(exp, integral)))
  }

  /** tamga_claims_are_expired. */
  predicate Expired(c: Claims, now: int)
  {
    if c.expiry.None? then false else if now < SKEW then false else now - SKEW > c.expiry.value
  }

  /** A file that has expired stays expired as the clock goes on. */
  lemma ExpiryMonotone(c: Claims, now: int, later: int)
    requires now <= later && Expired(c, now)
    ensures Expired(c, later)
  {
  }

  /** The guard against a small clock reading is harmless at every clock reading exactly when the claim does not
      expire two or more seconds before 1970. */
  lemma ExpiryExact(c: Claims)
    requires c.expiry.Some?
    ensures (forall now: int :: Expired(c, now) <==> now - SKEW > c.expiry.value) <==> c.expiry.value >= -1
  {
    assert Expired(c, SKEW - 1) <==> false;
    if c.expiry.value >= -1 {
      forall now: int ensures Expired(c, now) <==> now - SKEW > c.expiry.value {
      }
    }
  }

  /** A clock reading and an expiry where they differ. */
  lemma ExpiryDiffers()
    ensures !Expired(Claims(0, Some(-100)), 0) && 0 - SKEW > -100
  {
  }

  /** tamga_license_finish, tamga_machine_finish: claims, expiry, then the resource. */
  function Finish(payload: Value, now: int, integral: Bytes -> Option<int>): Outcome<Accepted>
  {
    match ReadClaims(Field(Some(payload), Ascii("meta")), integral)
    case Bad(s) => Bad(s)
    case Good(claims) =>
      if Expired(claims, now) then Bad(Status.Expired)
      else
        var data := Field(Some(payload), Ascii("data"));
        if data.None? || !data.value.Object? then Bad(InvalidJson) else Good(Accepted(data.value, claims))
  }

  /** What a payload must say for its resource to be handed out. */
  ghost predicate Grants(payload: Value, now: int, integral: Bytes -> Option<int>, a: Accepted)
  {
    var meta, data := Field(Some(payload), Ascii("meta")), Field(Some(payload), Ascii("data"));
    var iat, exp := AsInt(Field(meta, Ascii("iat")), integral), Field(meta, Ascii("exp"));
    && meta.Some? && meta.value.Object? && data == Some(a.resource) && a.resource.Object?
    && a.claims.issuedAt == (if iat.Some? then iat.value else 0)
    && (if exp.None? || exp.value.Null? then a.claims.expiry.None?
        else a.claims.expiry.Some? && AsInt(exp, integral) == a.claims.expiry)
    && !Expired(a.claims, now)
  }

  lemma FinishExact(payload: Value, now: int, integral: Bytes -> Option<int>, a: Accepted)
    ensures Finish(payload, now, integral) == Good(a) <==> Grants(payload, now, integral, a)
  {
    hide Find, Ascii, AsInt, Expired;
  }

  // ----- labelling a failure

  function KidOf(payload: Value): Option<Bytes> { TextOf(Field(Field(Some(payload), Ascii("meta")), Ascii("kid"))) }

  /** tamga_key_set_select. */
  function Select(entries: seq<Entry>, kid: Option<Bytes>): Status
  {
    if kid.None? || CString(kid.value) == [] then InvalidJson
    else if FirstKey(entries, CString(kid.value)).Some? then Success
    else if CString(kid.value) == Ascii(UNPUBLISHED) then SigningKeyNotPublished
    else UnknownSigningKey
  }

  /** tamga_key_set_label_failure. */
  function LabelFailure(entries: seq<Entry>, payload: Outcome<Value>): Status
  {
    match payload
    case Bad(s) => if s == OutOfMemory || s == NullArgument then s else SignatureInvalid
    case Good(p) =>
      var selected := Select(entries, KidOf(p));
      if selected == Success || selected == InvalidJson then SignatureInvalid else selected
  }

  // ----- opening the certificate

  /** Whether the payload is encrypted, or that the alg string is not one of the two that fit. */
  function Mode(kind: Kind, alg: string): Option<bool>
  {
    var suffix := if kind.Licence? then Suffix(ED25519) else Suffix(kind.scheme);
    if suffix.None? then None
    else if alg == Join(Split(PLAIN, suffix.value)) then Some(false)
    else if alg == Join(Split(ENCRYPTED, suffix.value)) then Some(true)
    else None
  }

  /** The alg checks of tamga_license_open and tamga_machine_open. */
  method OpenMode(kind: Kind, alg: string) returns (r: Option<bool>)
    ensures r == Mode(kind, alg)
  {
    hide Join, Suffix;
    if kind.Licence? {
      LicenceSuffix();
      if alg == Join(Split(PLAIN, "ed25519")) { return Some(false); }
      if alg == Join(Split(ENCRYPTED, "ed25519")) { return Some(true); }
      return None;
    }
    var ok, encrypted := OpenAlg(kind.scheme, alg);
    r := if ok then Some(encrypted) else None;
  }

  lemma LicenceSuffix()
    ensures Suffix(ED25519) == Some("ed25519")
  {
  }

  /** The signature's bytes; a licence file's must be the 64 of Ed25519. */
  ghost function SignatureOf(kind: Kind, sig: Bytes): Outcome<Bytes>
  {
    if !Decodes(sig) then Bad(InvalidBase64)
    else
      var bytes :| Base64.Spells(sig, bytes);
      if kind.Licence? && |bytes| != 64 then Bad(SignatureInvalid) else Good(bytes)
  }

  method DecodeSignature(kind: Kind, sig: Bytes) returns (r: Outcome<Bytes>)
    ensures r == SignatureOf(kind, sig)
  {
    hide Base64.Spells;
    var bytes := DecodeHalf(sig);
    if bytes.None? { return Bad(InvalidBase64); }
    OneSpelling(sig, bytes.value);
    if kind.Licence? && |bytes.value| != 64 { return Bad(SignatureInvalid); }
    r := Good(bytes.value);
  }

  lemma SignatureSpells(kind: Kind, sig: Bytes, bytes: Bytes)
    ensures SignatureOf(kind, sig) == Good(bytes) <==> Base64.Spells(sig, bytes) && (kind.Licence? ==> |bytes| == 64)
  {
    hide Base64.Spells;
    if c: Bytes :| Base64.Spells(sig, c) {
      OneSpelling(sig, c);
    }
  }

  // ----- the two ways to verify

  /** Why a key set cannot be used for this kind of file, if it cannot. */
  function Refusal(kind: Kind): Option<Status>
  {
    if kind.Licence? || kind.scheme == ED25519 then None
    else if Suffix(kind.scheme).None? then Some(UnsupportedScheme)
    else Some(KeyIdNotApplicable)
  }

  predicate BadKeyLength(kind: Kind, key: Bytes) { kind.Machine? && (|key| == 0 || |key| > JsonParse.MAX_INPUT) }

  /** What comes after a signature that verified. */
  function AfterVerified(payload: Outcome<Value>, now: int, integral: Bytes -> Option<int>): Outcome<Accepted>
  {
    match payload
    case Bad(s) => Bad(s)
    case Good(p) => Finish(p, now, integral)
  }

  /** With one key. */
  ghost function VerifyWithKey(kind: Kind, cert: Cert, key: Bytes, verify: (Bytes, Bytes, Bytes) -> bool,
                               cipher: Option<Cipher>, now: int, integral: Bytes -> Option<int>): Outcome<Accepted>
    requires Ready(cipher)
  {
    if BadKeyLength(kind, key) then Bad(LengthInvalid)
    else if Mode(kind, cert.alg).None? then Bad(UnsupportedScheme)
    else
      match SignatureOf(kind, cert.sig)
      case Bad(s) => Bad(s)
      case Good(signature) =>
        if !verify(key, cert.enc, signature) then Bad(SignatureInvalid)
        else AfterVerified(PayloadOf(kind, Mode(kind, cert.alg).value, cipher, cert.enc), now, integral)
  }

  /** With a set: every held key is tried; the kid is read only to label a failure. */
  ghost function VerifyWithSet(kind: Kind, cert: Cert, entries: seq<Entry>, verify: (Bytes, Bytes, Bytes) -> bool,
                               cipher: Option<Cipher>, now: int, integral: Bytes -> Option<int>): Outcome<Accepted>
    requires Ready(cipher)
  {
    if Refusal(kind).Some? then Bad(Refusal(kind).value)
    else if Mode(kind, cert.alg).None? then Bad(UnsupportedScheme)
    else
      match SignatureOf(kind, cert.sig)
      case Bad(s) => Bad(s)
      case Good(signature) =>
        var payload := PayloadOf(kind, Mode(kind, cert.alg).value, cipher, cert.enc);
        if SomeVerifies(entries, verify, cert.enc, signature) then AfterVerified(payload, now, integral)
        else Bad(LabelFailure(entries, payload))
  }

  /** The key that verifies: the caller's, or one that the set holds. */
  ghost predicate Signed(kind: Kind, cert: Cert, key: Option<Bytes>, entries: seq<Entry>,
                         verify: (Bytes, Bytes, Bytes) -> bool)
  {
    exists signature ::
      && Base64.Spells(cert.sig, signature) && (kind.Licence? ==> |signature| == 64)
      && if key.Some? then verify(key.value, cert.enc, signature)
        else SomeVerifies(entries, verify, cert.enc, signature)
  }

  /** The file is of a kind and form that this way of verifying takes. */
  predicate Applies(kind: Kind, cert: Cert, key: Option<Bytes>)
  {
    Mode(kind, cert.alg).Some? && if key.Some? then !BadKeyLength(kind, key.value) else Refusal(kind).None?
  }

  /** enc carries, under the mode that alg names, a text whose payload grants a. */
  ghost predicate Grantable(kind: Kind, cert: Cert, cipher: Option<Cipher>, now: int, integral: Bytes -> Option<int>,
                            a: Accepted)
    requires Ready(cipher) && Mode(kind, cert.alg).Some?
  {
    exists text :: Carries(kind, Mode(kind, cert.alg).value, cipher, cert.enc, text) && JsonParse.Parse(text).Ok? &&
                   Grants(JsonParse.Parse(text).value, now, integral, a)
  }

  lemma PayloadExact(kind: Kind, cert: Cert, cipher: Option<Cipher>, now: int, integral: Bytes -> Option<int>,
                     a: Accepted)
    requires Ready(cipher) && Mode(kind, cert.alg).Some?
    ensures AfterVerified(PayloadOf(kind, Mode(kind, cert.alg).value, cipher, cert.enc), now, integral) == Good(a) <==>
            Grantable(kind, cert, cipher, now, integral, a)
  {
    hide Decoded, Carries, JsonParse.Parse, Finish, Grants, Mode;
    var encrypted := Mode(kind, cert.alg).value;
    var d := Decoded(kind, encrypted, cipher, cert.enc);
    if d.Good? {
      DecodedExact(kind, encrypted, cipher, cert.enc, d.value);
      if JsonParse.Parse(d.value).Ok? {
        FinishExact(JsonParse.Parse(d.value).value, now, integral, a);
      }
    }
    if text :| Carries(kind, encrypted, cipher, cert.enc, text) && JsonParse.Parse(text).Ok? &&
               Grants(JsonParse.Parse(text).value, now, integral, a)
    {
      DecodedExact(kind, encrypted, cipher, cert.enc, text);
    }
  }

  /** Acceptance with a key set: the undecoded enc is signed under a held key, and what it carries grants the result. */
  lemma SetAccepts(kind: Kind, cert: Cert, entries: seq<Entry>, verify: (Bytes, Bytes, Bytes) -> bool,
                   cipher: Option<Cipher>, now: int, integral: Bytes -> Option<int>, a: Accepted)
    requires Ready(cipher)
    ensures VerifyWithSet(kind, cert, entries, verify, cipher, now, integral) == Good(a) <==>
            Applies(kind, cert, None) && Signed(kind, cert, None, entries, verify) &&
            Grantable(kind, cert, cipher, now, integral, a)
  {
    hide PayloadOf, AfterVerified, LabelFailure, Grantable, Base64.Spells, SomeVerifies, Mode, Refusal;
    if Mode(kind, cert.alg).Some? {
      PayloadExact(kind, cert, cipher, now, integral, a);
    }
    var s := SignatureOf(kind, cert.sig);
    if s.Good? {
      SignatureSpells(kind, cert.sig, s.value);
    }
    if signature :| Base64.Spells(cert.sig, signature) && (kind.Licence? ==> |signature| == 64) {
      SignatureSpells(kind, cert.sig, signature);
      OneSpelling(cert.sig, signature);
    }
  }

  /** Acceptance with one key. */
  lemma KeyAccepts(kind: Kind, cert: Cert, key: Bytes, verify: (Bytes, Bytes, Bytes) -> bool,
                   cipher: Option<Cipher>, now: int, integral: Bytes -> Option<int>, a: Accepted)
    requires Ready(cipher)
    ensures VerifyWithKey(kind, cert, key, verify, cipher, now, integral) == Good(a) <==>
            Applies(kind, cert, Some(key)) && Signed(kind, cert, Some(key), [], verify) &&
            Grantable(kind, cert, cipher, now, integral, a)
  {
    hide PayloadOf, AfterVerified, Grantable, Base64.Spells, Mode;
    if Mode(kind, cert.alg).Some? {
      PayloadExact(kind, cert, cipher, now, integral, a);
    }
    var s := SignatureOf(kind, cert.sig);
    if s.Good? {
      SignatureSpells(kind, cert.sig, s.value);
    }
    if signature :| Base64.Spells(cert.sig, signature) && (kind.Licence? ==> |signature| == 64) {
      SignatureSpells(kind, cert.sig, signature);
      OneSpelling(cert.sig, signature);
    }
  }

  /** tamga_license_file_verify_core and tamga_machine_file_verify_core, with the test that keeps key sets to Ed25519.
      With one key the payload is not decoded unless the signature over the undecoded enc verifies. */
  method VerifyCore(kind: Kind, cert: Cert, key: Option<Bytes>, keys: Keys, decoder: Decoder,
                    verify: (Bytes, Bytes, Bytes) -> bool, now: int, integral: Bytes -> Option<int>)
    returns (r: Outcome<Accepted>)
    requires Ready(decoder.cipher)
    modifies decoder
    ensures forall a :: r == Good(a) <==>
              Applies(kind, cert, key) && Signed(kind, cert, key, keys.entries, verify) &&
              Grantable(kind, cert, decoder.cipher, now, integral, a)
    ensures key.Some? ==> r == VerifyWithKey(kind, cert, key.value, verify, decoder.cipher, now, integral)
    ensures key.None? ==> r == VerifyWithSet(kind, cert, keys.entries, verify, decoder.cipher, now, integral)
    ensures decoder.uses <= old(decoder.uses) + 1
    ensures key.Some? && decoder.uses > old(decoder.uses) ==> Signed(kind, cert, key, keys.entries, verify)
  {
    hide PayloadOf, Grantable, Mode, SomeVerifies, SignatureOf, Finish, Base64.Spells;
    r := VerifyStep(kind, cert, key, keys, decoder, verify, now, integral);
    forall a
      ensures r == Good(a) <==>
              Applies(kind, cert, key) && Signed(kind, cert, key, keys.entries, verify) &&
              Grantable(kind, cert, decoder.cipher, now, integral, a)
    {
      if key.Some? {
        KeyAccepts(kind, cert, key.value, verify, decoder.cipher, now, integral, a);
      } else {
        SetAccepts(kind, cert, keys.entries, verify, decoder.cipher, now, integral, a);
      }
    }
  }

  method VerifyStep(kind: Kind, cert: Cert, key: Option<Bytes>, keys: Keys, decoder: Decoder,
                    verify: (Bytes, Bytes, Bytes) -> bool, now: int, integral: Bytes -> Option<int>)
    returns (r: Outcome<Accepted>)
    requires Ready(decoder.cipher)
    modifies decoder
    ensures key.Some? ==> r == VerifyWithKey(kind, cert, key.value, verify, decoder.cipher, now, integral)
    ensures key.None? ==> r == VerifyWithSet(kind, cert, keys.entries, verify, decoder.cipher, now, integral)
    ensures decoder.uses <= old(decoder.uses) + 1
    ensures key.Some? && decoder.uses > old(decoder.uses) ==> Signed(kind, cert, key, keys.entries, verify)
  {
    hide PayloadOf, Mode, SomeVerifies, Finish, SignatureOf, Base64.Spells;
    if key.None? && Refusal(kind).Some? { return Bad(Refusal(kind).value); }
    if key.Some? && BadKeyLength(kind, key.value) { return Bad(LengthInvalid); }
    var mode := OpenMode(kind, cert.alg);
    if mode.None? { return Bad(UnsupportedScheme); }
    var signature := DecodeSignature(kind, cert.sig);
    if signature.Bad? { return Bad(signature.status); }
    SignatureSpells(kind, cert.sig, signature.value);
    var verified;
    if key.None? {
      verified := keys.FindVerifier(verify, cert.enc, signature.value);
    } else {
      verified := verify(key.value, cert.enc, signature.value);
    }
    if !verified && key.Some? { return Bad(SignatureInvalid); }
    var payload := decoder.Payload(kind, mode.value, cert.enc);
    if !verified { return Bad(LabelFailure(keys.entries, payload)); }
    if payload.Bad? { return Bad(payload.status); }
    r := Finish(payload.value, now, integral);
  }

  // ----- what the key set and the kid can change

  /** Whether a held key verifies depends only on which keys are held. */
  lemma VerifiesBySet(a: seq<Entry>, b: seq<Entry>, verify: (Bytes, Bytes, Bytes) -> bool, message: Bytes,
                      signature: Bytes)
    requires SomeVerifies(a, verify, message, signature) && forall e :: e in a ==> e in b
    ensures SomeVerifies(b, verify, message, signature)
  {
    var i :| 0 <= i < |a| && verify(a[i].publicKey, message, signature);
    assert a[i] in b;
    var j :| 0 <= j < |b| && b[j] == a[i];
  }

  /** An accepted file stays accepted, with the same resource, when keys are added. */
  lemma MoreKeys(kind: Kind, cert: Cert, a: seq<Entry>, b: seq<Entry>, verify: (Bytes, Bytes, Bytes) -> bool,
                 cipher: Option<Cipher>, now: int, integral: Bytes -> Option<int>)
    requires Ready(cipher) && forall e :: e in a ==> e in b
    requires VerifyWithSet(kind, cert, a, verify, cipher, now, integral).Good?
    ensures VerifyWithSet(kind, cert, b, verify, cipher, now, integral) ==
            VerifyWithSet(kind, cert, a, verify, cipher, now, integral)
  {
    hide SomeVerifies, AfterVerified, LabelFailure, PayloadOf, SignatureOf, Mode, Refusal;
    VerifiesBySet(a, b, verify, cert.enc, SignatureOf(kind, cert.sig).value);
  }

  lemma FoundBySet(a: seq<Entry>, b: seq<Entry>, keyId: Bytes)
    requires forall e :: e in a ==> e in b
    ensures FirstKey(a, keyId).Some? ==> FirstKey(b, keyId).Some?
  {
    hide FirstKey;
    FirstKeyIs(a, keyId);
    FirstKeyIs(b, keyId);
    if FirstKey(a, keyId).Some? {
      var i :| 0 <= i < |a| && a[i] == Entry(keyId, FirstKey(a, keyId).value);
      assert a[i] in b;
      var j :| 0 <= j < |b| && b[j] == a[i];
    }
  }

  lemma SameLabel(a: seq<Entry>, b: seq<Entry>, payload: Outcome<Value>)
    requires forall e :: e in a <==> e in b
    ensures LabelFailure(a, payload) == LabelFailure(b, payload)
  {
    hide FirstKey, CString, Ascii, Find;
    if payload.Good? && KidOf(payload.value).Some? {
      FoundBySet(a, b, CString(KidOf(payload.value).value));
      FoundBySet(b, a, CString(KidOf(payload.value).value));
    }
  }

  /** The result, error code included, does not depend on the order of the keys or on repeated ones. */
  lemma KeyOrder(kind: Kind, cert: Cert, a: seq<Entry>, b: seq<Entry>, verify: (Bytes, Bytes, Bytes) -> bool,
                 cipher: Option<Cipher>, now: int, integral: Bytes -> Option<int>)
    requires Ready(cipher) && forall e :: e in a <==> e in b
    ensures VerifyWithSet(kind, cert, a, verify, cipher, now, integral) ==
            VerifyWithSet(kind, cert, b, verify, cipher, now, integral)
  {
    hide SomeVerifies, AfterVerified, LabelFailure, PayloadOf, SignatureOf, Mode, Refusal;
    var signature := SignatureOf(kind, cert.sig);
    if signature.Good? && Mode(kind, cert.alg).Some? {
      SameLabel(a, b, PayloadOf(kind, Mode(kind, cert.alg).value, cipher, cert.enc));
      if SomeVerifies(a, verify, cert.enc, signature.value) {
        VerifiesBySet(a, b, verify, cert.enc, signature.value);
      } else if SomeVerifies(b, verify, cert.enc, signature.value) {
        VerifiesBySet(b, a, verify, cert.enc, signature.value);
        assert false;
      }
    }
  }

  /** An Ed25519 check refuses signatures that are not 64 bytes long. */
  ghost predicate Ed25519Check(verify: (Bytes, Bytes, Bytes) -> bool)
  {
    forall k, m, s :: verify(k, m, s) ==> |s| == 64
  }

  /** A set of one key accepts exactly the files that the key alone accepts, with the same resource and claims. */
  lemma OneKey(kind: Kind, cert: Cert, e: Entry, verify: (Bytes, Bytes, Bytes) -> bool, cipher: Option<Cipher>,
               now: int, integral: Bytes -> Option<int>, a: Accepted)
    requires Ready(cipher) && Ed25519Check(verify) && Refusal(kind).None? && |e.publicKey| == 32
    ensures VerifyWithSet(kind, cert, [e], verify, cipher, now, integral) == Good(a) <==>
            VerifyWithKey(kind, cert, e.publicKey, verify, cipher, now, integral) == Good(a)
  {
    hide Grantable, Mode, Refusal, Base64.Spells;
    SetAccepts(kind, cert, [e], verify, cipher, now, integral, a);
    KeyAccepts(kind, cert, e.publicKey, verify, cipher, now, integral, a);
    forall signature
      ensures SomeVerifies([e], verify, cert.enc, signature) <==> verify(e.publicKey, cert.enc, signature)
    {
      assert [e][0] == e;
    }
  }

  /** The payload with another kid in its claims. */
  function WithKid(payload: Value, kid: Bytes): Value
  {
    var meta := Field(Some(payload), Ascii("meta"));
    if meta.Some? && meta.value.Object?
    then Object(Set(payload.members, Ascii("meta"), Object(Set(meta.value.members, Ascii("kid"), Text(kid)))))
    else payload
  }

  lemma FieldKept(m: seq<Member>, key: Bytes, value: Value, other: Bytes)
    ensures Field(Some(Object(Set(m, key, value))), key) == Some(value)
    ensures other != key ==> Field(Some(Object(Set(m, key, value))), other) == Field(Some(Object(m)), other)
  {
    hide Find, Set;
    SetFound(m, key, value);
    if other != key {
      if Find(m, other) < |m| {
        SetKeepsOthers(m, key, value, other);
      }
    }
  }

  lemma Names()
    ensures Ascii("kid") != Ascii("iat") && Ascii("kid") != Ascii("exp") && Ascii("data") != Ascii("meta")
  {
    assert Ascii("kid")[0] == 0x6B && Ascii("iat")[0] == 0x69 && Ascii("exp")[0] == 0x65;
    assert Ascii("data")[0] == 0x64 && Ascii("meta")[0] == 0x6D;
  }

  /** Whatever kid a payload names, what is made of it once the signature has verified is the same. */
  lemma KidIrrelevant(payload: Value, kid: Bytes, now: int, integral: Bytes -> Option<int>)
    ensures Finish(WithKid(payload, kid), now, integral) == Finish(payload, now, integral)
  {
    hide Find, Set, Ascii, AsInt, Expired;
    Names();
    var meta := Field(Some(payload), Ascii("meta"));
    if meta.Some? && meta.value.Object? {
      var m := meta.value.members;
      var other := Object(Set(m, Ascii("kid"), Text(kid)));
      FieldKept(m, Ascii("kid"), Text(kid), Ascii("iat"));
      FieldKept(m, Ascii("kid"), Text(kid), Ascii("exp"));
      FieldKept(payload.members, Ascii("meta"), other, Ascii("data"));
    }
  }

  /** So the kid never decides acceptance: of two files that are signed or not alike, and whose payloads differ in
      the kid alone, both are accepted with the same result or neither is. */
  lemma KidNeverAccepts(kind: Kind, cert: Cert, other: Cert, v: Value, kid: Bytes, entries: seq<Entry>,
                        verify: (Bytes, Bytes, Bytes) -> bool, cipher: Option<Cipher>, now: int,
                        integral: Bytes -> Option<int>)
    requires Ready(cipher) && cert.alg == other.alg && Mode(kind, cert.alg).Some?
    requires PayloadOf(kind, Mode(kind, cert.alg).value, cipher, cert.enc) == Good(v)
    requires PayloadOf(kind, Mode(kind, cert.alg).value, cipher, other.enc) == Good(WithKid(v, kid))
    requires Signed(kind, cert, None, entries, verify) <==> Signed(kind, other, None, entries, verify)
    ensures var r, s := VerifyWithSet(kind, cert, entries, verify, cipher, now, integral),
                        VerifyWithSet(kind, other, entries, verify, cipher, now, integral);
            (r.Good? <==> s.Good?) && (r.Good? ==> r == s)
  {
    hide SomeVerifies, Finish, LabelFailure, WithKid, PayloadOf, Mode, Refusal, SignatureOf, Signed;
    KidIrrelevant(v, kid, now, integral);
    SetResult(kind, cert, v, entries, verify, cipher, now, integral);
    SetResult(kind, other, WithKid(v, kid), entries, verify, cipher, now, integral);
  }

  lemma SetResult(kind: Kind, cert: Cert, v: Value, entries: seq<Entry>, verify: (Bytes, Bytes, Bytes) -> bool,
                  cipher: Option<Cipher>, now: int, integral: Bytes -> Option<int>)
    requires Ready(cipher) && Mode(kind, cert.alg).Some?
    requires PayloadOf(kind, Mode(kind, cert.alg).value, cipher, cert.enc) == Good(v)
    ensures var r := VerifyWithSet(kind, cert, entries, verify, cipher, now, integral);
            if Refusal(kind).None? && Signed(kind, cert, None, entries, verify) then r == Finish(v, now, integral)
              else r.Bad?
  {
    hide SomeVerifies, Finish, LabelFailure, PayloadOf, Mode, Refusal, SignatureOf, Base64.Spells;
    var s := SignatureOf(kind, cert.sig);
    if s.Good? {
      SignatureSpells(kind, cert.sig, s.value);
    }
    if signature :| Base64.Spells(cert.sig, signature) && (kind.Licence? ==> |signature| == 64) {
      SignatureSpells(kind, cert.sig, signature);
      OneSpelling(cert.sig, signature);
    }
  }

  /** A file accepted at some time was accepted, with the same resource, at every earlier time. */
  lemma AcceptedEarlier(kind: Kind, cert: Cert, entries: seq<Entry>, verify: (Bytes, Bytes, Bytes) -> bool,
                        cipher: Option<Cipher>, now: int, earlier: int, integral: Bytes -> Option<int>, a: Accepted)
    requires Ready(cipher) && earlier <= now
    requires VerifyWithSet(kind, cert, entries, verify, cipher, now, integral) == Good(a)
    ensures VerifyWithSet(kind, cert, entries, verify, cipher, earlier, integral) == Good(a)
  {
    hide Carries, JsonParse.Parse, Signed, Mode, VerifyWithSet, Expired, Find, Ascii;
    SetAccepts(kind, cert, entries, verify, cipher, now, integral, a);
    SetAccepts(kind, cert, entries, verify, cipher, earlier, integral, a);
    if Expired(a.claims, earlier) {
      ExpiryMonotone(a.claims, earlier, now);
      assert false;
    }
  }

  // ----- selecting the key by the kid

  /** The key that the payload's kid names verifies the signature. */
  ghost predicate NamedKeyVerifies(kind: Kind, cert: Cert, entries: seq<Entry>, verify: (Bytes, Bytes, Bytes) -> bool,
                                   cipher: Option<Cipher>)
    requires Ready(cipher) && Mode(kind, cert.alg).Some?
  {
    var signature, payload := SignatureOf(kind, cert.sig),
      PayloadOf(kind, Mode(kind, cert.alg).value, cipher, cert.enc);
    signature.Good? && |signature.value| == 64 && payload.Good? && Select(entries, KidOf(payload.value)) == Success &&
    verify(FirstKey(entries, CString(KidOf(payload.value).value)).value, cert.enc, signature.value)
  }

  /** The order that license_file.h and machine_file.h describe: decode, let the kid select a key, verify with it. */
  ghost function VerifyByKid(kind: Kind, cert: Cert, entries: seq<Entry>, verify: (Bytes, Bytes, Bytes) -> bool,
                             cipher: Option<Cipher>, now: int, integral: Bytes -> Option<int>): Outcome<Accepted>
    requires Ready(cipher)
  {
    if Refusal(kind).Some? then Bad(Refusal(kind).value)
    else if Mode(kind, cert.alg).None? then Bad(UnsupportedScheme)
    else if SignatureOf(kind, cert.sig).Bad? then Bad(SignatureOf(kind, cert.sig).status)
    else
      match PayloadOf(kind, Mode(kind, cert.alg).value, cipher, cert.enc)
      case Bad(s) => Bad(s)
      case Good(p) =>
        if Select(entries, KidOf(p)) != Success then Bad(Select(entries, KidOf(p)))
        else if !NamedKeyVerifies(kind, cert, entries, verify, cipher) then Bad(SignatureInvalid)
        else Finish(p, now, integral)
  }

  /** That order accepts what the code accepts, with the same result, exactly when the named key verifies. */
  lemma KidOrderAccepts(kind: Kind, cert: Cert, entries: seq<Entry>, verify: (Bytes, Bytes, Bytes) -> bool,
                        cipher: Option<Cipher>, now: int, integral: Bytes -> Option<int>, a: Accepted)
    requires Ready(cipher)
    ensures VerifyByKid(kind, cert, entries, verify, cipher, now, integral) == Good(a) <==>
            VerifyWithSet(kind, cert, entries, verify, cipher, now, integral) == Good(a) &&
            NamedKeyVerifies(kind, cert, entries, verify, cipher)
  {
    hide Finish, Mode, Refusal, SignatureOf, PayloadOf, FirstKey, CString, KidOf, LabelFailure;
    if Mode(kind, cert.alg).Some? && NamedKeyVerifies(kind, cert, entries, verify, cipher) {
      var p := PayloadOf(kind, Mode(kind, cert.alg).value, cipher, cert.enc).value;
      FirstKeyIs(entries, CString(KidOf(p).value));
    }
  }

  /** A held key that is published under another id still verifies its files; by the kid it would not be found. */
  lemma RenamedKey(kind: Kind, cert: Cert, key: Bytes, id: Bytes, other: Bytes, verify: (Bytes, Bytes, Bytes) -> bool,
                   cipher: Option<Cipher>, now: int, integral: Bytes -> Option<int>, a: Accepted)
    requires Ready(cipher) && VerifyWithSet(kind, cert, [Entry(id, key)], verify, cipher, now, integral) == Good(a)
    requires var kid := KidOf(PayloadOf(kind, Mode(kind, cert.alg).value, cipher, cert.enc).value);
             kid.None? || CString(kid.value) != other
    ensures VerifyWithSet(kind, cert, [Entry(other, key)], verify, cipher, now, integral) == Good(a)
    ensures VerifyByKid(kind, cert, [Entry(other, key)], verify, cipher, now, integral).Bad?
  {
    hide Finish, Mode, Refusal, SignatureOf, PayloadOf, CString, KidOf, LabelFailure, Select;
    assert [Entry(id, key)][0].publicKey == key && [Entry(other, key)][0].publicKey == key;
    OtherIdMisses(other, key, KidOf(PayloadOf(kind, Mode(kind, cert.alg).value, cipher, cert.enc).value));
  }

  lemma OtherIdMisses(other: Bytes, key: Bytes, kid: Option<Bytes>)
    requires kid.None? || CString(kid.value) != other
    ensures Select([Entry(other, key)], kid) != Success
  {
    hide CString;
    assert [Entry(other, key)][1..] == [];
    if kid.Some? {
      assert FirstKey([], CString(kid.value)).None?;
    }
  }

  // ----- from the issuer to the accepted resource

  /** A payload that is printed, carried and signed is accepted for what it says, unless it has expired. */
  lemma IssuedIsAccepted(kind: Kind, cert: Cert, v: Value, format: Bytes -> Bytes, entries: seq<Entry>,
                         verify: (Bytes, Bytes, Bytes) -> bool, cipher: Option<Cipher>, now: int,
                         integral: Bytes -> Option<int>)
    requires WellFormed(v) && FloatFree(v) && Fits(v, 0) && |JsonWrite.Write(v, format)| <= JsonParse.MAX_INPUT
    requires Ready(cipher) && Applies(kind, cert, None) && Signed(kind, cert, None, entries, verify)
    requires Carries(kind, Mode(kind, cert.alg).value, cipher, cert.enc, JsonWrite.Write(v, format))
    ensures VerifyWithSet(kind, cert, entries, verify, cipher, now, integral) == Finish(v, now, integral)
  {
    hide Carries, Finish, Signed, JsonWrite.Write, JsonParse.Parse, Decoded, VerifyWithSet, Mode, Refusal;
    DecodedExact(kind, Mode(kind, cert.alg).value, cipher, cert.enc, JsonWrite.Write(v, format));
    JsonRoundTrip.ParseWrite(v, format);
    SetResult(kind, cert, v, entries, verify, cipher, now, integral);
  }
}
