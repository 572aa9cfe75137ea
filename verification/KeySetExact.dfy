/** What a key document adds to the set, with the names of its fields written out. */
module KeySetExact {
  import opened Utf8
  import opened Json
  import opened Buf
  import opened KeySet
  import Base64
  import JsonParse

  ghost predicate FirstAt(m: seq<Member>, i: int, key: Bytes, w: Value)
  {
    0 <= i < |m| && m[i] == Member(key, w) && forall j :: 0 <= j < i ==> m[j].key != key
  }

  /** The first member of that name. */
  ghost predicate Holds(v: Value, name: string, w: Value)
  {
    v.Object? && exists i :: FirstAt(v.members, i, Ascii(name), w)
  }

  lemma HoldsExact(v: Value, name: string, w: Value)
    ensures Holds(v, name, w) <==> Field(Some(v), Ascii(name)) == Some(w)
  {
    hide Find;
    if Holds(v, name, w) {
      var i :| FirstAt(v.members, i, Ascii(name), w);
      FindIs(v.members, Ascii(name), i);
    }
    if Field(Some(v), Ascii(name)) == Some(w) {
      assert FirstAt(v.members, Find(v.members, Ascii(name)), Ascii(name), w);
    }
  }

  /** The letters of ed25519, in either case. */
  predicate NamesEd25519(s: Bytes)
  {
    |s| == 7 && forall i :: 0 <= i < 7 ==> s[i] == "ed25519"[i] as int || s[i] == "ED25519"[i] as int
  }

  lemma EitherCase(c: int, small: int, capital: int)
    requires 0 <= c < 256
    requires (0x61 <= small <= 0x7A && capital == small - 0x20) || 0x30 <= small == capital <= 0x39
    ensures c == small || c == capital <==> Lower(c) == Lower(small)
  {
  }

  lemma NamesExact(s: Bytes)
    ensures NamesEd25519(s) <==> SameIgnoringCase(s, Ascii("ed25519"))
  {
    if |s| == 7 {
      forall i | 0 <= i < 7
        ensures (s[i] == "ed25519"[i] as int || s[i] == "ED25519"[i] as int) <==>
                Lower(s[i]) == Lower(Ascii("ed25519")[i])
      {
        EitherCase(s[i], "ed25519"[i] as int, "ED25519"[i] as int);
      }
    }
  }

  /** A row with a served id, the ed25519 algorithm and a key text that spells 32 bytes. */
  ghost predicate Usable(resource: Value, id: Bytes, attributes: Value, algorithm: Bytes, text: Bytes, key: Bytes)
  {
    && Holds(resource, "id", Text(id)) && CString(id) != [] && Holds(resource, "attributes", attributes)
    && Holds(attributes, "algorithm", Text(algorithm)) && NamesEd25519(CString(algorithm))
    && Holds(attributes, "publicKey", Text(text)) && Base64.Spells(text, key) && |key| == 32
  }

  lemma UsableExact(resource: Value, kid: Bytes -> Bytes, id: Bytes, attributes: Value, algorithm: Bytes, text: Bytes,
                    key: Bytes)
    requires Usable(resource, id, attributes, algorithm, text, key)
    ensures RowOf(resource, kid) == Some(Row(Entry(CString(id), key), kid(text) != CString(id)))
  {
    hide Holds, Find, CString, SameIgnoringCase, NamesEd25519, Base64.Spells, Ascii, KeyBytes;
    HoldsExact(resource, "id", Text(id));
    HoldsExact(resource, "attributes", attributes);
    HoldsExact(attributes, "algorithm", Text(algorithm));
    HoldsExact(attributes, "publicKey", Text(text));
    NamesExact(CString(algorithm));
    KeyBytesIs(text, key);
  }

  lemma RowUsable(resource: Value, kid: Bytes -> Bytes)
    returns (id: Bytes, attributes: Value, algorithm: Bytes, text: Bytes, key: Bytes)
    requires RowOf(resource, kid).Some?
    ensures Usable(resource, id, attributes, algorithm, text, key)
  {
    hide Holds, Find, CString, SameIgnoringCase, NamesEd25519, Base64.Spells, Ascii, KeyBytes;
    id := Field(Some(resource), Ascii("id")).value.bytes;
    attributes := Field(Some(resource), Ascii("attributes")).value;
    algorithm := Field(Some(attributes), Ascii("algorithm")).value.bytes;
    text := Field(Some(attributes), Ascii("publicKey")).value.bytes;
    key := KeyBytes(text).value;
    HoldsExact(resource, "id", Text(id));
    HoldsExact(resource, "attributes", attributes);
    HoldsExact(attributes, "algorithm", Text(algorithm));
    HoldsExact(attributes, "publicKey", Text(text));
    NamesExact(CString(algorithm));
  }

  /** A row adds an entry exactly when it is usable: its key's bytes under the id it serves, and the row counts as
      mismatched when that is not the id computed from the key's text. */
  lemma RowExact(resource: Value, kid: Bytes -> Bytes, row: Row)
    ensures RowOf(resource, kid) == Some(row) <==>
            exists id, attributes, algorithm, text, key :: Usable(resource, id, attributes, algorithm, text, key) &&
              row == Row(Entry(CString(id), key), kid(text) != CString(id))
  {
    hide Usable, RowOf, CString;
    if RowOf(resource, kid) == Some(row) {
      var id, attributes, algorithm, text, key := RowUsable(resource, kid);
      UsableExact(resource, kid, id, attributes, algorithm, text, key);
    }
    forall id, attributes, algorithm, text, key | Usable(resource, id, attributes, algorithm, text, key)
      ensures RowOf(resource, kid) == Some(Row(Entry(CString(id), key), kid(text) != CString(id)))
    {
      UsableExact(resource, kid, id, attributes, algorithm, text, key);
    }
  }

  /** Rows are taken one by one and in order. */
  lemma {:induction false} RowsConcat(a: seq<Value>, b: seq<Value>, n: nat, kid: Bytes -> Bytes)
    requires n <= |b|
    ensures Rows(a + b, |a| + n, kid) == Rows(a, |a|, kid) + Rows(b, n, kid)
    ensures Skipped(a + b, |a| + n, kid) == Skipped(a, |a|, kid) + Skipped(b, n, kid)
    ensures Mismatched(a + b, |a| + n, kid) == Mismatched(a, |a|, kid) + Mismatched(b, n, kid)
  {
    hide RowOf;
    if n == 0 {
      RowsPrefix(a, b, |a|, kid);
    } else {
      RowsConcat(a, b, n - 1, kid);
      assert (a + b)[|a| + n - 1] == b[n - 1];
      var before, now := Rows(a, |a|, kid), Rows(b, n - 1, kid);
      var last := if RowOf(b[n - 1], kid).Some? then [RowOf(b[n - 1], kid).value.entry] else [];
      assert (before + now) + last == before + (now + last);
    }
  }

  lemma {:induction false} RowsPrefix(a: seq<Value>, b: seq<Value>, n: nat, kid: Bytes -> Bytes)
    requires n <= |a|
    ensures Rows(a + b, n, kid) == Rows(a, n, kid) && Skipped(a + b, n, kid) == Skipped(a, n, kid) &&
            Mismatched(a + b, n, kid) == Mismatched(a, n, kid)
  {
    hide RowOf;
    if n > 0 {
      RowsPrefix(a, b, n - 1, kid);
    }
  }

  /** One row adds its entry, or is skipped. */
  lemma OneRow(resource: Value, kid: Bytes -> Bytes)
    ensures match RowOf(resource, kid)
            case None => Rows([resource], 1, kid) == [] && Skipped([resource], 1, kid) == 1
            case Some(row) => Rows([resource], 1, kid) == [row.entry] &&
                              Mismatched([resource], 1, kid) == if row.mismatched then 1 else 0
  {
    hide RowOf;
    assert Rows([resource], 0, kid) == [];
  }

  /** A key document is a JSON object with an array of rows under data. */
  lemma DataExact(json: Bytes, rows: seq<Value>)
    ensures DataOf(json) == Some(rows) <==>
            1 <= |json| <= 16 * 1024 * 1024 &&
            exists document :: JsonParse.Parse(json) == JsonParse.Ok(document, []) &&
              Holds(document, "data", Array(rows))
  {
    hide JsonParse.Parse, Holds, Find, Ascii;
    ParseLeavesNothing(json);
    if JsonParse.Parse(json).Ok? {
      HoldsExact(JsonParse.Parse(json).value, "data", Array(rows));
    }
  }

  lemma ParseLeavesNothing(text: Bytes)
    ensures JsonParse.Parse(text).Ok? ==> JsonParse.Parse(text).rest == []
  {
    hide JsonParse.ParseValue, JsonParse.SkipBlanks;
  }
}
