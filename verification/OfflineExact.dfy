/** Acceptance of an offline file from end to end, with the alg strings, the claim names and the framings written
    out. */
module OfflineExact {
  import opened Utf8
  import opened Json
  import opened Buf
  import opened KeySet
  import opened KeySetExact
  import opened MachineAlg
  import opened Payload
  import opened OfflineFile
  import Base64
  import GcmSeal
  import JsonParse
  import JsonRoundTrip
  import JsonWrite

  // ----- the alg string

  /** The alg string of a plain payload. */
  predicate PlainAlg(kind: Kind, alg: string)
  {
    match kind
    case Licence => alg == "base64+ed25519+v2"
    case Machine(scheme) =>
      || (scheme == 1 && alg == "base64+ed25519+v2")
      || (scheme == 2 && alg == "base64+rsa-sha256+v2")
      || (scheme == 3 && alg == "base64+rsa-pss-sha256+v2")
      || (scheme == 4 && alg == "base64+ecdsa-p256+v2")
  }

  /** The alg string of an encrypted payload. */
  predicate SealedAlg(kind: Kind, alg: string)
  {
    match kind
    case Licence => alg == "aes-256-gcm+ed25519+v2"
    case Machine(scheme) =>
      || (scheme == 1 && alg == "aes-256-gcm+ed25519+v2")
      || (scheme == 2 && alg == "aes-256-gcm+rsa-sha256+v2")
      || (scheme == 3 && alg == "aes-256-gcm+rsa-pss-sha256+v2")
      || (scheme == 4 && alg == "aes-256-gcm+ecdsa-p256+v2")
  }

  lemma Ed25519Plain()
    ensures Join(Split(PLAIN, "ed25519")) == "base64+ed25519+v2"
  {
  }

  lemma Ed25519Sealed()
    ensures Join(Split(ENCRYPTED, "ed25519")) == "aes-256-gcm+ed25519+v2"
  {
  }

  lemma RsaPlain()
    ensures Join(Split(PLAIN, "rsa-sha256")) == "base64+rsa-sha256+v2"
  {
  }

  lemma RsaSealed()
    ensures Join(Split(ENCRYPTED, "rsa-sha256")) == "aes-256-gcm+rsa-sha256+v2"
  {
  }

  lemma PssPlain()
    ensures Join(Split(PLAIN, "rsa-pss-sha256")) == "base64+rsa-pss-sha256+v2"
  {
  }

  lemma PssSealed()
    ensures Join(Split(ENCRYPTED, "rsa-pss-sha256")) == "aes-256-gcm+rsa-pss-sha256+v2"
  {
  }

  lemma EcdsaPlain()
    ensures Join(Split(PLAIN, "ecdsa-p256")) == "base64+ecdsa-p256+v2"
  {
  }

  lemma EcdsaSealed()
    ensures Join(Split(ENCRYPTED, "ecdsa-p256")) == "aes-256-gcm+ecdsa-p256+v2"
  {
  }

  /** No string is both. */
  lemma Distinct(suffix: string)
    ensures Join(Split(PLAIN, suffix)) != Join(Split(ENCRYPTED, suffix))
  {
    assert Join(Split(PLAIN, suffix))[0] == 'b' && Join(Split(ENCRYPTED, suffix))[0] == 'a';
  }

  /** A file is taken as plain under one string and as encrypted under one other, and under nothing else. */
  lemma ModeExact(kind: Kind, alg: string)
    ensures Mode(kind, alg) == Some(false) <==> PlainAlg(kind, alg)
    ensures Mode(kind, alg) == Some(true) <==> SealedAlg(kind, alg)
  {
    hide Join;
    if kind.Licence? || kind.scheme == 1 {
      Ed25519Plain();
      Ed25519Sealed();
      Distinct("ed25519");
    } else if kind.scheme == 2 {
      RsaPlain();
      RsaSealed();
      Distinct("rsa-sha256");
    } else if kind.scheme == 3 {
      PssPlain();
      PssSealed();
      Distinct("rsa-pss-sha256");
    } else if kind.scheme == 4 {
      EcdsaPlain();
      EcdsaSealed();
      Distinct("ecdsa-p256");
    }
  }

  // ----- the framing

  /** The nonce and the sealed text, as one blob in a licence file and as two halves in a machine file. */
  ghost predicate SealedIn(kind: Kind, e: Cipher, enc: Bytes, text: Bytes, nonce: Bytes, message: Bytes)
    requires GcmSeal.Cipher(e)
  {
    |nonce| == 12 && GcmSeal.Sealed(e, Words(nonce), [], Words(text), Words(message)) &&
    if kind.Licence? then Base64.Spells(enc, nonce + message)
    else
      text != [] && exists left: Bytes, right: Bytes ::
        enc == left + ['.' as int] + right && Base64.Spells(left, nonce) && Base64.Spells(right, message)
  }

  /** enc carries the text in the form that alg names. */
  ghost predicate Framed(kind: Kind, alg: string, cipher: Option<Cipher>, enc: Bytes, text: Bytes)
    requires Ready(cipher)
  {
    || (PlainAlg(kind, alg) && Base64.Spells(enc, text))
    || (SealedAlg(kind, alg) && cipher.Some? &&
        exists nonce, message :: SealedIn(kind, cipher.value, enc, text, nonce, message))
  }

  lemma SealedExact(kind: Kind, cipher: Option<Cipher>, enc: Bytes, text: Bytes)
    requires Ready(cipher)
    ensures Carries(kind, true, cipher, enc, text) <==>
            cipher.Some? && exists nonce, message :: SealedIn(kind, cipher.value, enc, text, nonce, message)
  {
    hide GcmSeal.Sealed, Base64.Spells;
    if cipher.Some? {
      forall nonce, message
        ensures SealedIn(kind, cipher.value, enc, text, nonce, message) <==>
                if kind.Licence? then BlobIs(cipher.value, enc, nonce, message, text)
                  else text != [] && PairIs(cipher.value, enc, nonce, message, text)
      {
      }
    }
  }

  lemma FramedExact(kind: Kind, alg: string, cipher: Option<Cipher>, enc: Bytes, text: Bytes)
    requires Ready(cipher)
    ensures Framed(kind, alg, cipher, enc, text) <==>
            Mode(kind, alg).Some? && Carries(kind, Mode(kind, alg).value, cipher, enc, text)
  {
    hide Mode, PlainAlg, SealedAlg, SealedIn, Base64.Spells;
    ModeExact(kind, alg);
    SealedExact(kind, cipher, enc, text);
  }

  // ----- the claims

  /** An integer, or a double that is one. */
  ghost predicate Whole(w: Value, integral: Bytes -> Option<int>, n: int)
  {
    w == Int(n) || (w.Real? && integral(w.token) == Some(n))
  }

  lemma WholeExact(w: Value, integral: Bytes -> Option<int>, n: int)
    ensures Whole(w, integral, n) <==> AsInt(Some(w), integral) == Some(n)
  {
  }

  /** meta says when the file was issued, 0 if it does not say, and when it expires, never if it does not say. */
  ghost predicate Dated(meta: Value, integral: Bytes -> Option<int>, c: Claims)
  {
    && ((exists w :: Holds(meta, "iat", w) && Whole(w, integral, c.issuedAt)) ||
        (c.issuedAt == 0 && forall w, n :: Holds(meta, "iat", w) ==> !Whole(w, integral, n)))
    && match c.expiry
       case None => forall w :: Holds(meta, "exp", w) ==> w == Null
       case Some(e) => exists w :: Holds(meta, "exp", w) && Whole(w, integral, e)
  }

  /** The payload is an object with dated claims under meta and the resource under data, and a minute has not passed
      since it expired. */
  ghost predicate Permits(payload: Value, now: int, integral: Bytes -> Option<int>, a: Accepted)
  {
    && (exists meta :: Holds(payload, "meta", meta) && meta.Object? && Dated(meta, integral, a.claims))
    && Holds(payload, "data", a.resource) && a.resource.Object?
    && (a.claims.expiry.Some? ==> now < 60 || now - 60 <= a.claims.expiry.value)
  }

  lemma DatedExact(meta: Value, integral: Bytes -> Option<int>, c: Claims)
    requires meta.Object?
    ensures Dated(meta, integral, c) <==>
            var iat, exp := AsInt(Field(Some(meta), Ascii("iat")), integral), Field(Some(meta), Ascii("exp"));
            c.issuedAt == (if iat.Some? then iat.value else 0) &&
            (if exp.None? || exp.value.Null? then c.expiry.None?
             else c.expiry.Some? && AsInt(exp, integral) == c.expiry)
  {
    hide Holds, Find, AsInt, Whole, Ascii;
    IssuedExact(meta, integral, c);
    ExpiryExactly(meta, integral, c);
  }

  lemma IssuedExact(meta: Value, integral: Bytes -> Option<int>, c: Claims)
    ensures ((exists w :: Holds(meta, "iat", w) && Whole(w, integral, c.issuedAt)) ||
             (c.issuedAt == 0 && forall w, n :: Holds(meta, "iat", w) ==> !Whole(w, integral, n))) <==>
            var iat := AsInt(Field(Some(meta), Ascii("iat")), integral);
            c.issuedAt == (if iat.Some? then iat.value else 0)
  {
    hide Holds, Find, Whole, Field;
    var f := Field(Some(meta), Ascii("iat"));
    forall w ensures Holds(meta, "iat", w) <==> f == Some(w) {
      HoldsExact(meta, "iat", w);
    }
    if f.Some? {
      forall n ensures Whole(f.value, integral, n) <==> AsInt(f, integral) == Some(n) {
        WholeExact(f.value, integral, n);
      }
      assert Holds(meta, "iat", f.value);
      if AsInt(f, integral).Some? {
        assert Whole(f.value, integral, AsInt(f, integral).value);
      }
    }
  }

  lemma ExpiryExactly(meta: Value, integral: Bytes -> Option<int>, c: Claims)
    ensures (match c.expiry
             case None => forall w :: Holds(meta, "exp", w) ==> w == Null
             case Some(e) => exists w :: Holds(meta, "exp", w) && Whole(w, integral, e)) <==>
            var exp := Field(Some(meta), Ascii("exp"));
            if exp.None? || exp.value.Null? then c.expiry.None?
            else c.expiry.Some? && AsInt(exp, integral) == c.expiry
  {
    hide Holds, Find, Field;
    var f := Field(Some(meta), Ascii("exp"));
    forall w ensures Holds(meta, "exp", w) <==> f == Some(w) {
      HoldsExact(meta, "exp", w);
    }
    if f.Some? {
      assert Holds(meta, "exp", f.value);
      if c.expiry.Some? {
        WholeExact(f.value, integral, c.expiry.value);
      }
    }
  }

  lemma PermitsExact(payload: Value, now: int, integral: Bytes -> Option<int>, a: Accepted)
    ensures Permits(payload, now, integral, a) <==> Grants(payload, now, integral, a)
  {
    hide Holds, Find, Field, AsInt, Dated, Ascii;
    var f := Field(Some(payload), Ascii("meta"));
    forall w ensures Holds(payload, "meta", w) <==> f == Some(w) {
      HoldsExact(payload, "meta", w);
    }
    HoldsExact(payload, "data", a.resource);
    if f.Some? && f.value.Object? {
      assert Holds(payload, "meta", f.value);
      DatedExact(f.value, integral, a.claims);
    }
  }

  // ----- acceptance

  /** What makes a file acceptable, once it is signed: its enc carries a JSON text that permits the result. */
  ghost predicate Acceptable(kind: Kind, cert: Cert, cipher: Option<Cipher>, now: int, integral: Bytes -> Option<int>,
                             a: Accepted)
    requires Ready(cipher)
  {
    exists text, payload :: Framed(kind, cert.alg, cipher, cert.enc, text) &&
      JsonParse.Parse(text) == JsonParse.Ok(payload, []) &&
      Permits(payload, now, integral, a)
  }

  lemma AcceptableExact(kind: Kind, cert: Cert, cipher: Option<Cipher>, now: int, integral: Bytes -> Option<int>,
                        a: Accepted)
    requires Ready(cipher)
    ensures Acceptable(kind, cert, cipher, now, integral, a) <==>
            Mode(kind, cert.alg).Some? && Grantable(kind, cert, cipher, now, integral, a)
  {
    hide Framed, Mode, Carries, JsonParse.Parse, Permits, Grants;
    forall text
      ensures Framed(kind, cert.alg, cipher, cert.enc, text) <==>
              Mode(kind, cert.alg).Some? && Carries(kind, Mode(kind, cert.alg).value, cipher, cert.enc, text)
      ensures JsonParse.Parse(text).Ok? ==> JsonParse.Parse(text).rest == []
    {
      FramedExact(kind, cert.alg, cipher, cert.enc, text);
      ParseLeavesNothing(text);
    }
    forall payload ensures Permits(payload, now, integral, a) <==> Grants(payload, now, integral, a) {
      PermitsExact(payload, now, integral, a);
    }
    if Mode(kind, cert.alg).Some? && Grantable(kind, cert, cipher, now, integral, a) {
      var text :| Carries(kind, Mode(kind, cert.alg).value, cipher, cert.enc, text) && JsonParse.Parse(text).Ok? &&
        Grants(JsonParse.Parse(text).value, now, integral, a);
      assert JsonParse.Parse(text) == JsonParse.Ok(JsonParse.Parse(text).value, []);
    }
  }

  lemma SignedExact(kind: Kind, cert: Cert, entries: seq<Entry>, verify: (Bytes, Bytes, Bytes) -> bool)
    ensures Signed(kind, cert, None, entries, verify) <==>
            exists signature, i :: Base64.Spells(cert.sig, signature) && |signature| == 64 &&
              0 <= i < |entries| && verify(entries[i].publicKey, cert.enc, signature)
  {
    hide Base64.Spells;
    if Signed(kind, cert, None, entries, verify) {
      var signature :| Base64.Spells(cert.sig, signature) && (kind.Licence? ==> |signature| == 64) &&
        SomeVerifies(entries, verify, cert.enc, signature);
      var i :| 0 <= i < |entries| && verify(entries[i].publicKey, cert.enc, signature);
    }
    if signature, i :| Base64.Spells(cert.sig, signature) && |signature| == 64 &&
                       0 <= i < |entries| && verify(entries[i].publicKey, cert.enc, signature)
    {
      assert SomeVerifies(entries, verify, cert.enc, signature);
    }
  }

  /** With a key set: a licence file, or a machine file under Ed25519, is accepted exactly when a held key verifies a
      spelled-out signature over the undecoded enc, and enc is acceptable. */
  lemma SetAcceptsExactly(kind: Kind, cert: Cert, entries: seq<Entry>, verify: (Bytes, Bytes, Bytes) -> bool,
                          cipher: Option<Cipher>, now: int, integral: Bytes -> Option<int>, a: Accepted)
    requires Ready(cipher)
    ensures VerifyWithSet(kind, cert, entries, verify, cipher, now, integral) == Good(a) <==>
            && (kind.Licence? || kind.scheme == 1)
            && (exists signature, i :: Base64.Spells(cert.sig, signature) && |signature| == 64 &&
                  0 <= i < |entries| && verify(entries[i].publicKey, cert.enc, signature))
            && Acceptable(kind, cert, cipher, now, integral, a)
  {
    hide Mode, Acceptable, Grantable, Base64.Spells, VerifyWithSet;
    AcceptableExact(kind, cert, cipher, now, integral, a);
    SignedExact(kind, cert, entries, verify);
    SetAccepts(kind, cert, entries, verify, cipher, now, integral, a);
  }

  /** With one key: the key of a machine file is 1 byte to 16 MiB long. */
  lemma KeyAcceptsExactly(kind: Kind, cert: Cert, key: Bytes, verify: (Bytes, Bytes, Bytes) -> bool,
                          cipher: Option<Cipher>, now: int, integral: Bytes -> Option<int>, a: Accepted)
    requires Ready(cipher)
    ensures VerifyWithKey(kind, cert, key, verify, cipher, now, integral) == Good(a) <==>
            && (kind.Machine? ==> 1 <= |key| <= 16 * 1024 * 1024)
            && (exists signature :: Base64.Spells(cert.sig, signature) && (kind.Licence? ==> |signature| == 64) &&
                  verify(key, cert.enc, signature))
            && Acceptable(kind, cert, cipher, now, integral, a)
  {
    hide Mode, Acceptable, Grantable, Base64.Spells, VerifyWithKey;
    AcceptableExact(kind, cert, cipher, now, integral, a);
    KeyAccepts(kind, cert, key, verify, cipher, now, integral, a);
  }

  // ----- why a file is refused

  /** The payload's claims name this key id: what stands before the first NUL of meta.kid, and something does. */
  ghost predicate Names(payload: Value, id: Bytes)
  {
    id != [] && exists meta, kid :: Holds(payload, "meta", meta) && Holds(meta, "kid", Text(kid)) && id == CString(kid)
  }

  ghost predicate Held(entries: seq<Entry>, id: Bytes) { exists i :: 0 <= i < |entries| && entries[i].keyId == id }

  ghost predicate NamesUnheld(payload: Value, id: Bytes, entries: seq<Entry>)
  {
    Names(payload, id) && !Held(entries, id)
  }

  lemma NamesExact(payload: Value, id: Bytes)
    ensures Names(payload, id) <==> KidOf(payload).Some? && CString(KidOf(payload).value) == id && id != []
  {
    hide Holds, Find, CString, Ascii;
    var f := Field(Some(payload), Ascii("meta"));
    forall w ensures Holds(payload, "meta", w) <==> f == Some(w) {
      HoldsExact(payload, "meta", w);
    }
    if f.Some? {
      forall kid: Bytes
        ensures Holds(f.value, "kid", Text(kid)) <==> Field(f, Ascii("kid")) == Some(Text(kid))
      {
        HoldsExact(f.value, "kid", Text(kid));
      }
      assert Holds(payload, "meta", f.value);
      if KidOf(payload).Some? {
        assert Holds(f.value, "kid", Text(KidOf(payload).value));
      }
    }
  }

  /** When no held key verifies, the refusal says that the named key is unknown, that it is the id of an account with
      no published key, or that the signature is wrong. */
  lemma LabelExact(entries: seq<Entry>, payload: Outcome<Value>)
    ensures LabelFailure(entries, payload) == SigningKeyNotPublished <==>
            payload.Good? && NamesUnheld(payload.value, Ascii("e3b0c44298fc1c14"), entries)
    ensures LabelFailure(entries, payload) == UnknownSigningKey <==>
            payload.Good? &&
            exists id :: NamesUnheld(payload.value, id, entries) && id != Ascii("e3b0c44298fc1c14")
    ensures payload == Bad(OutOfMemory) || payload == Bad(NullArgument) ==>
              LabelFailure(entries, payload) == payload.status
    ensures payload != Bad(OutOfMemory) && payload != Bad(NullArgument) ==>
              LabelFailure(entries, payload) in {SigningKeyNotPublished, UnknownSigningKey, SignatureInvalid}
  {
    hide Names, KidOf, FirstKey, CString;
    if payload.Good? {
      forall id
        ensures Names(payload.value, id) <==>
                KidOf(payload.value).Some? && CString(KidOf(payload.value).value) == id && id != []
        ensures Held(entries, id) <==> FirstKey(entries, id).Some?
      {
        NamesExact(payload.value, id);
        FirstKeyIs(entries, id);
      }
      assert Ascii("e3b0c44298fc1c14")[0] == 0x65;
      if KidOf(payload.value).Some? {
        var id := CString(KidOf(payload.value).value);
        assert id != [] && FirstKey(entries, id).None? ==> NamesUnheld(payload.value, id, entries);
      }
    }
  }

  lemma ModeNone(kind: Kind, alg: string)
    ensures Mode(kind, alg).None? <==> !PlainAlg(kind, alg) && !SealedAlg(kind, alg)
  {
    hide Mode, PlainAlg, SealedAlg;
    ModeExact(kind, alg);
    if Mode(kind, alg).Some? {
      if Mode(kind, alg).value {
        assert Mode(kind, alg) == Some(true);
      } else {
        assert Mode(kind, alg) == Some(false);
      }
    }
  }

  /** A licence file's signature has 64 bytes, and every signature verifies. */
  predicate Fails(kind: Kind, cert: Cert, key: Bytes, verify: (Bytes, Bytes, Bytes) -> bool, signature: Bytes)
  {
    (kind.Licence? && |signature| != 64) || !verify(key, cert.enc, signature)
  }

  /** The tests that come before the payload, in their order, and the status of each. */
  lemma KeyRefuses(kind: Kind, cert: Cert, key: Bytes, verify: (Bytes, Bytes, Bytes) -> bool, cipher: Option<Cipher>,
                   now: int, integral: Bytes -> Option<int>, signature: Bytes)
    requires Ready(cipher)
    ensures var r := VerifyWithKey(kind, cert, key, verify, cipher, now, integral);
            if kind.Machine? && (|key| == 0 || |key| > 16 * 1024 * 1024) then r == Bad(LengthInvalid)
            else if !PlainAlg(kind, cert.alg) && !SealedAlg(kind, cert.alg) then r == Bad(UnsupportedScheme)
            else if !exists s :: Base64.Spells(cert.sig, s) then r == Bad(InvalidBase64)
            else Base64.Spells(cert.sig, signature) && Fails(kind, cert, key, verify, signature) ==>
              r == Bad(SignatureInvalid)
  {
    hide Mode, PlainAlg, SealedAlg, Base64.Spells, PayloadOf, Finish;
    ModeNone(kind, cert.alg);
    if Base64.Spells(cert.sig, signature) {
      SignatureSpells(kind, cert.sig, signature);
      OneSpelling(cert.sig, signature);
    }
  }

  /** A key set serves Ed25519 alone. */
  lemma SetRefuses(kind: Kind, cert: Cert, entries: seq<Entry>, verify: (Bytes, Bytes, Bytes) -> bool,
                   cipher: Option<Cipher>, now: int, integral: Bytes -> Option<int>)
    requires Ready(cipher)
    ensures var r := VerifyWithSet(kind, cert, entries, verify, cipher, now, integral);
            if kind.Machine? && kind.scheme in {2, 3, 4} then r == Bad(KeyIdNotApplicable)
            else if kind.Machine? && kind.scheme != 1 then r == Bad(UnsupportedScheme)
            else if !PlainAlg(kind, cert.alg) && !SealedAlg(kind, cert.alg) then r == Bad(UnsupportedScheme)
            else !(exists s :: Base64.Spells(cert.sig, s)) ==> r == Bad(InvalidBase64)
  {
    hide Mode, PlainAlg, SealedAlg, Base64.Spells, PayloadOf, Finish, LabelFailure, SomeVerifies;
    ModeNone(kind, cert.alg);
  }

  /** A payload that has expired is called so when its claims can be read; everything else is bad JSON. */
  lemma FinishRefuses(payload: Value, now: int, integral: Bytes -> Option<int>)
    ensures Finish(payload, now, integral) == Bad(Status.Expired) <==>
            exists meta, c :: Holds(payload, "meta", meta) && meta.Object? && Dated(meta, integral, c) &&
              c.expiry.Some? && now >= 60 && now - 60 > c.expiry.value
    ensures Finish(payload, now, integral).Bad? ==>
              Finish(payload, now, integral).status in {Status.Expired, InvalidJson}
  {
    hide Holds, Find, AsInt, Dated, Ascii;
    var f := Field(Some(payload), Ascii("meta"));
    forall w ensures Holds(payload, "meta", w) <==> f == Some(w) {
      HoldsExact(payload, "meta", w);
    }
    if f.Some? && f.value.Object? {
      forall c
        ensures Dated(f.value, integral, c) <==> ReadClaims(f, integral) == Good(c)
      {
        DatedExact(f.value, integral, c);
      }
    }
  }

  // ----- from the issuer to the accepted resource

  /** A signature over enc that some held key verifies. */
  ghost predicate SignedBy(cert: Cert, entries: seq<Entry>, verify: (Bytes, Bytes, Bytes) -> bool, signature: Bytes,
                           i: nat)
  {
    Base64.Spells(cert.sig, signature) && |signature| == 64 && i < |entries| &&
    verify(entries[i].publicKey, cert.enc, signature)
  }

  /** A value that the parser gives back from its printed form. */
  ghost predicate Printable(v: Value, format: Bytes -> Bytes)
  {
    WellFormed(v) && FloatFree(v) && Fits(v, 0) && |JsonWrite.Write(v, format)| <= 16 * 1024 * 1024
  }

  lemma Issued(kind: Kind, cert: Cert, v: Value, format: Bytes -> Bytes, entries: seq<Entry>, signature: Bytes, i: nat,
               verify: (Bytes, Bytes, Bytes) -> bool, cipher: Option<Cipher>, now: int, integral: Bytes -> Option<int>)
    requires Ready(cipher) && Printable(v, format) && (kind.Licence? || kind.scheme == 1)
    requires SignedBy(cert, entries, verify, signature, i)
    requires Framed(kind, cert.alg, cipher, cert.enc, JsonWrite.Write(v, format))
    ensures VerifyWithSet(kind, cert, entries, verify, cipher, now, integral) == Finish(v, now, integral)
    ensures forall a :: VerifyWithSet(kind, cert, entries, verify, cipher, now, integral) == Good(a) <==>
              Permits(v, now, integral, a)
  {
    hide Framed, Mode, Carries, Finish, Permits, Grants, JsonWrite.Write, VerifyWithSet, WellFormed, FloatFree, Fits,
         Base64.Spells;
    FramedExact(kind, cert.alg, cipher, cert.enc, JsonWrite.Write(v, format));
    SignedExact(kind, cert, entries, verify);
    IssuedIsAccepted(kind, cert, v, format, entries, verify, cipher, now, integral);
    forall a
      ensures Finish(v, now, integral) == Good(a) <==> Permits(v, now, integral, a)
    {
      FinishExact(v, now, integral, a);
      PermitsExact(v, now, integral, a);
    }
  }

  /** A plain licence file. */
  lemma IssuedPlainLicence(cert: Cert, v: Value, format: Bytes -> Bytes, entries: seq<Entry>, signature: Bytes, i: nat,
                           verify: (Bytes, Bytes, Bytes) -> bool, cipher: Option<Cipher>, now: int,
                           integral: Bytes -> Option<int>)
    requires Ready(cipher) && Printable(v, format) && SignedBy(cert, entries, verify, signature, i)
    requires cert.alg == "base64+ed25519+v2" && Base64.Spells(cert.enc, JsonWrite.Write(v, format))
    ensures forall a :: VerifyWithSet(Licence, cert, entries, verify, cipher, now, integral) == Good(a) <==>
              Permits(v, now, integral, a)
  {
    hide Printable, SignedBy, VerifyWithSet, Permits, Base64.Spells, JsonWrite.Write;
    Issued(Licence, cert, v, format, entries, signature, i, verify, cipher, now, integral);
  }

  /** An encrypted licence file: nonce, ciphertext and tag in one blob. */
  lemma IssuedSealedLicence(cert: Cert, v: Value, format: Bytes -> Bytes, entries: seq<Entry>, signature: Bytes, i: nat,
                            nonce: Bytes, message: Bytes, verify: (Bytes, Bytes, Bytes) -> bool, e: Cipher, now: int,
                            integral: Bytes -> Option<int>)
    requires GcmSeal.Cipher(e) && Printable(v, format) && SignedBy(cert, entries, verify, signature, i)
    requires cert.alg == "aes-256-gcm+ed25519+v2" && |nonce| == 12 && Base64.Spells(cert.enc, nonce + message)
    requires GcmSeal.Sealed(e, Words(nonce), [], Words(JsonWrite.Write(v, format)), Words(message))
    ensures forall a :: VerifyWithSet(Licence, cert, entries, verify, Some(e), now, integral) == Good(a) <==>
              Permits(v, now, integral, a)
  {
    hide Printable, SignedBy, VerifyWithSet, Permits, Base64.Spells, JsonWrite.Write, GcmSeal.Sealed;
    assert SealedIn(Licence, e, cert.enc, JsonWrite.Write(v, format), nonce, message);
    Issued(Licence, cert, v, format, entries, signature, i, verify, Some(e), now, integral);
  }

  /** A plain machine file. */
  lemma IssuedPlainMachine(cert: Cert, v: Value, format: Bytes -> Bytes, entries: seq<Entry>, signature: Bytes, i: nat,
                           verify: (Bytes, Bytes, Bytes) -> bool, cipher: Option<Cipher>, now: int,
                           integral: Bytes -> Option<int>)
    requires Ready(cipher) && Printable(v, format) && SignedBy(cert, entries, verify, signature, i)
    requires cert.alg == "base64+ed25519+v2" && Base64.Spells(cert.enc, JsonWrite.Write(v, format))
    ensures forall a :: VerifyWithSet(Machine(1), cert, entries, verify, cipher, now, integral) == Good(a) <==>
              Permits(v, now, integral, a)
  {
    hide Printable, SignedBy, VerifyWithSet, Permits, Base64.Spells, JsonWrite.Write;
    Issued(Machine(1), cert, v, format, entries, signature, i, verify, cipher, now, integral);
  }

  /** An encrypted machine file: the nonce, a dot, then ciphertext and tag. */
  lemma IssuedSealedMachine(cert: Cert, v: Value, format: Bytes -> Bytes, entries: seq<Entry>, signature: Bytes, i: nat,
                            left: Bytes, right: Bytes, nonce: Bytes, message: Bytes,
                            verify: (Bytes, Bytes, Bytes) -> bool, e: Cipher, now: int, integral: Bytes -> Option<int>)
    requires GcmSeal.Cipher(e) && Printable(v, format) && SignedBy(cert, entries, verify, signature, i)
    requires cert.alg == "aes-256-gcm+ed25519+v2" && cert.enc == left + ['.' as int] + right
    requires |nonce| == 12 && Base64.Spells(left, nonce) && Base64.Spells(right, message)
    requires GcmSeal.Sealed(e, Words(nonce), [], Words(JsonWrite.Write(v, format)), Words(message))
    ensures forall a :: VerifyWithSet(Machine(1), cert, entries, verify, Some(e), now, integral) == Good(a) <==>
              Permits(v, now, integral, a)
  {
    hide Printable, SignedBy, VerifyWithSet, Permits, Base64.Spells, JsonWrite.Write, GcmSeal.Sealed;
    WrittenSomething(v, format);
    assert SealedIn(Machine(1), e, cert.enc, JsonWrite.Write(v, format), nonce, message);
    Issued(Machine(1), cert, v, format, entries, signature, i, verify, Some(e), now, integral);
  }

  lemma WrittenSomething(v: Value, format: Bytes -> Bytes)
    requires Printable(v, format)
    ensures JsonWrite.Write(v, format) != []
  {
    JsonRoundTrip.WriteHead(v, format, []);
    assert JsonWrite.Write(v, format) + [] == JsonWrite.Write(v, format);
  }
}
