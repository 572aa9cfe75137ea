/** The set of published signing keys: growth, the atomic merge of a key document, and lookup. */
module KeySet {
  import opened Limbs
  import opened Utf8
  import opened Json
  import opened JsonParse
  import opened JsonParser
  import opened Buf
  import Base64
  import JsonRoundTrip
  import JsonWrite

  datatype Entry = Entry(keyId: Bytes, publicKey: Bytes)

  datatype Status =
    | Success | OutOfMemory | LengthInvalid | InvalidBase64 | InvalidJson | SignatureInvalid
    | UnknownSigningKey | SigningKeyNotPublished | Expired | NullArgument | UnsupportedScheme | KeyIdNotApplicable
    | DecryptionFailed

  datatype Outcome<T> = Good(value: T) | Bad(status: Status)

  function Ascii(s: string): Bytes { seq(|s|, i requires 0 <= i < |s| => s[i] as int % 256) }

  /** The bytes before the first NUL. */
  function CString(s: Bytes): Bytes { if s == [] || s[0] == 0 then [] else [s[0]] + CString(s[1..]) }

  // ----- reading a document

  /** tamga_json_object_get on a value that may be missing or of another kind. */
  function Field(v: Option<Value>, key: Bytes): Option<Value>
  {
    if v.Some? && v.value.Object? && Find(v.value.members, key) < |v.value.members|
    then Some(v.value.members[Find(v.value.members, key)].value)
    else None
  }

  function TextOf(v: Option<Value>): Option<Bytes> { if v.Some? && v.value.Text? then Some(v.value.bytes) else None }

  function Lower(c: u8): u8 { if 0x41 <= c <= 0x5A then c + 0x20 else c }

  predicate SameIgnoringCase(a: Bytes, b: Bytes)
  {
    |a| == |b| && forall i :: 0 <= i < |a| ==> Lower(a[i]) == Lower(b[i])
  }

  /** The 32 bytes a base64 key spells. */
  ghost function KeyBytes(text: Bytes): (r: Option<Bytes>)
    ensures r.Some? ==> Base64.Spells(text, r.value) && |r.value| == 32
  {
    if b: Bytes :| Base64.Spells(text, b) && |b| == 32 then Some(b) else None
  }

  lemma KeyBytesIs(text: Bytes, b: Bytes)
    requires Base64.Spells(text, b)
    ensures KeyBytes(text) == if |b| == 32 then Some(b) else None
  {
    hide Base64.Spells;
    if c: Bytes :| Base64.Spells(text, c) && |c| == 32 {
      Base64.SpellsUnique(text, b, c);
    }
    if KeyBytes(text).Some? {
      Base64.SpellsUnique(text, b, KeyBytes(text).value);
    }
  }

  /** What one resource adds to the set, and whether its id is not the one computed from its key. */
  datatype Row = Row(entry: Entry, mismatched: bool)

  /** A usable row: an object with a served id, the ed25519 algorithm and a 32-byte key. */
  ghost function RowOf(resource: Value, kid: Bytes -> Bytes): Option<Row>
  {
    var id := TextOf(Field(Some(resource), Ascii("id")));
    var attributes := Field(Some(resource), Ascii("attributes"));
    var algorithm := TextOf(Field(attributes, Ascii("algorithm")));
    var key := TextOf(Field(attributes, Ascii("publicKey")));
    if id.None? || CString(id.value) == [] || algorithm.None? || key.None? then None
    else if !SameIgnoringCase(CString(algorithm.value), Ascii("ed25519")) then None
    else if KeyBytes(key.value).None? then None
    else Some(Row(Entry(CString(id.value), KeyBytes(key.value).value), kid(key.value) != CString(id.value)))
  }

  /** The usable rows among the first n, in order. */
  ghost function Rows(data: seq<Value>, n: nat, kid: Bytes -> Bytes): seq<Entry>
    requires n <= |data|
  {
    if n == 0 then []
    else Rows(data, n - 1, kid) + (if RowOf(data[n - 1], kid).Some? then [RowOf(data[n - 1], kid).value.entry] else [])
  }

  /** How many of the first n rows are not usable. */
  ghost function Skipped(data: seq<Value>, n: nat, kid: Bytes -> Bytes): nat
    requires n <= |data|
  {
    if n == 0 then 0 else Skipped(data, n - 1, kid) + (if RowOf(data[n - 1], kid).None? then 1 else 0)
  }

  /** How many of the first n rows carry an id that is not computed from their key. */
  ghost function Mismatched(data: seq<Value>, n: nat, kid: Bytes -> Bytes): nat
    requires n <= |data|
  {
    if n == 0 then 0
    else
      var row := RowOf(data[n - 1], kid);
      Mismatched(data, n - 1, kid) + (if row.Some? && row.value.mismatched then 1 else 0)
  }

  /** Every row is either added or skipped, and only added rows can be mismatched. */
  lemma {:induction false} RowsAccounted(data: seq<Value>, n: nat, kid: Bytes -> Bytes)
    requires n <= |data|
    ensures |Rows(data, n, kid)| + Skipped(data, n, kid) == n && Mismatched(data, n, kid) <= |Rows(data, n, kid)|
  {
    hide RowOf;
    if n > 0 {
      RowsAccounted(data, n - 1, kid);
    }
  }

  method EqualsIgnoringCase(a: Bytes, b: Bytes) returns (same: bool)
    ensures same <==> SameIgnoringCase(a, b)
  {
    hide Lower;
    var i := 0;
    while i < |a| && i < |b|
      invariant 0 <= i <= |a| && i <= |b|
      invariant forall k :: 0 <= k < i ==> Lower(a[k]) == Lower(b[k])
    {
      if Lower(a[i]) != Lower(b[i]) {
        return false;
      }
      i := i + 1;
    }
    return i == |a| && i == |b|;
  }

  /** A published key's 32 bytes. */
  method DecodeKey(text: Bytes, memory: Memory) returns (status: Status, key: Bytes)
    ensures status == Success <==> status != OutOfMemory && KeyBytes(text).Some?
    ensures status == Success ==> key == KeyBytes(text).value
    ensures status == OutOfMemory ==> !memory.reliable
    ensures status == InvalidBase64 ==> forall b :: !Base64.Spells(text, b)
    ensures status == LengthInvalid ==> exists b :: Base64.Spells(text, b) && |b| != 32
    ensures status.Success? || status.OutOfMemory? || status.InvalidBase64? || status.LengthInvalid?
  {
    hide Base64.Spells, KeyBytes, Base64.Capacity;
    key := [];
    var grown := memory.Alloc();
    if !grown {
      return OutOfMemory, [];
    }
    var out := new u8[Base64.Capacity(|text|)];
    var ok, n := Base64.Decode(text, out);
    if !ok {
      assert KeyBytes(text).None?;
      return InvalidBase64, [];
    }
    KeyBytesIs(text, out[..n]);
    if n != 32 {
      return LengthInvalid, [];
    }
    return Success, out[..n];
  }

  /** The parse of a key document, with the error code that is made of a parse error. */
  method ParseDocument(json: Bytes, nodes: Memory, strings: Memory) returns (document: Option<Value>, status: Status)
    ensures document.Some? ==> status == Success && Parse(json).Ok? && document.value == Parse(json).value
    ensures document.None? ==> status == InvalidJson || status == OutOfMemory
    ensures status == OutOfMemory ==> !(nodes.reliable && strings.reliable)
    ensures status == InvalidJson ==> Parse(json).Err? || (!strings.reliable && HoldsFullString(json))
    ensures |json| <= MAX_INPUT && nodes.reliable && strings.spent && !strings.reliable && EmptyKeyFirst(json) ==>
              status == InvalidJson
  {
    hide Parse, HoldsFullString, EmptyKeyFirst;
    var error;
    document, error := ParseText(json, nodes, strings);
    status := if document.Some? then Success else if error == Some(MemoryRefused) then OutOfMemory else InvalidJson;
  }

  // ----- the set

  const ENTRY_SIZE: nat := 40
  const INITIAL_CAPACITY: nat := 4

  /** So many entries that their size in bytes could not be counted. */
  predicate TooMany(n: nat) { n > SIZE_MAX / 80 }

  class Keys {
    var entries: seq<Entry>
    var capacity: nat
    const memory: Memory

    ghost predicate Valid()
      reads this
    {
      |entries| <= capacity && capacity * ENTRY_SIZE <= SIZE_MAX
    }

    constructor (memory: Memory)
      ensures Valid() && entries == [] && this.memory == memory
    {
      entries, capacity := [], 0;
      this.memory := memory;
    }

    /** Room for more entries. What the set holds does not change, whether it succeeds or not. */
    method Reserve(additional: nat) returns (status: Status)
      requires Valid()
      modifies this`capacity
      ensures Valid() && (status == Success || status == OutOfMemory)
      ensures status == Success ==> |entries| + additional <= capacity
      ensures status == OutOfMemory ==>
                capacity == old(capacity) && (!memory.reliable || TooMany(|entries| + additional))
    {
      var needed := |entries| + additional;
      if needed > SIZE_MAX {
        return OutOfMemory;
      }
      if needed <= capacity {
        return Success;
      }
      var grown := if capacity == 0 then INITIAL_CAPACITY else capacity;
      while grown < needed
        invariant 0 < grown && (grown < 2 * needed || grown == INITIAL_CAPACITY || grown == capacity)
        decreases needed - grown
      {
        if grown * 2 > SIZE_MAX {
          return OutOfMemory;
        }
        grown := grown * 2;
      }
      if grown * ENTRY_SIZE > SIZE_MAX {
        return OutOfMemory;
      }
      var ok := memory.Alloc();
      if !ok {
        return OutOfMemory;
      }
      capacity := grown;
      return Success;
    }

    /** One more entry at the end, or no change. */
    method Append(e: Entry) returns (status: Status)
      requires Valid()
      modifies this
      ensures Valid() && (status == Success || status == OutOfMemory)
      ensures entries == if status == Success then old(entries) + [e] else old(entries)
      ensures status == OutOfMemory ==> !memory.reliable || TooMany(|old(entries)| + 1)
    {
      status := Reserve(1);
      if status != Success {
        return;
      }
      var ok := memory.Alloc();
      if !ok {
        return OutOfMemory;
      }
      entries := entries + [e];
    }

    /** tamga_key_set_add_public_key: under the id computed from the key's own text. */
    method AddPublicKey(text: Bytes, kid: Bytes -> Bytes) returns (status: Status)
      requires Valid()
      modifies this
      ensures Valid()
      ensures status == Success ==>
                |text| <= MAX_INPUT && KeyBytes(text).Some? &&
                entries == old(entries) + [Entry(kid(text), KeyBytes(text).value)]
      ensures status != Success ==> entries == old(entries)
      ensures status != Success && status != OutOfMemory ==> |text| > MAX_INPUT || KeyBytes(text).None?
      ensures status == OutOfMemory ==> !memory.reliable || TooMany(|old(entries)| + 1)
    {
      hide KeyBytes, Base64.Spells;
      if |text| > MAX_INPUT {
        return LengthInvalid;
      }
      var key;
      status, key := DecodeKey(text, memory);
      if status != Success {
        return;
      }
      status := Append(Entry(kid(text), key));
    }

    /** tamga_key_set_stage_resource: adds a usable row, or says that it is not one. */
    method Stage(resource: Value, kid: Bytes -> Bytes) returns (status: Status, skipped: nat, mismatched: nat)
      requires Valid()
      modifies this
      ensures Valid() && (status == Success || status == OutOfMemory)
      ensures status == OutOfMemory ==> !memory.reliable || TooMany(|old(entries)| + 1)
      ensures var row := RowOf(resource, kid);
              status == Success ==>
                entries == old(entries) + (if row.Some? then [row.value.entry] else []) &&
                skipped == (if row.None? then 1 else 0) &&
                mismatched == (if row.Some? && row.value.mismatched then 1 else 0)
    {
      hide KeyBytes, Base64.Spells, CString, Ascii, SameIgnoringCase;
      assert entries + [] == entries;
      if !resource.Object? {
        return Success, 1, 0;
      }
      var id := TextOf(Field(Some(resource), Ascii("id")));
      var attributes := Field(Some(resource), Ascii("attributes"));
      var algorithm := TextOf(Field(attributes, Ascii("algorithm")));
      var text := TextOf(Field(attributes, Ascii("publicKey")));
      if id.None? || CString(id.value) == [] || algorithm.None? || text.None? {
        return Success, 1, 0;
      }
      var same := EqualsIgnoringCase(CString(algorithm.value), Ascii("ed25519"));
      if !same {
        return Success, 1, 0;
      }
      var key;
      status, key := DecodeKey(text.value, memory);
      if status == OutOfMemory {
        return OutOfMemory, 0, 0;
      }
      if status != Success {
        return Success, 1, 0;
      }
      mismatched := if kid(text.value) != CString(id.value) then 1 else 0;
      skipped := 0;
      status := Append(Entry(CString(id.value), key));
    }

    /** Stages every row of a document. */
    method StageAll(data: seq<Value>, kid: Bytes -> Bytes) returns (status: Status, skipped: nat, mismatched: nat)
      requires Valid() && entries == []
      modifies this
      ensures Valid() && (status == Success || status == OutOfMemory)
      ensures status == OutOfMemory ==> !memory.reliable || TooMany(|data|)
      ensures status == Success ==>
                entries == Rows(data, |data|, kid) && skipped == Skipped(data, |data|, kid) &&
                  mismatched == Mismatched(data, |data|, kid)
    {
      hide RowOf;
      skipped, mismatched, status := 0, 0, Success;
      var i := 0;
      while i < |data|
        invariant 0 <= i <= |data| && Valid()
        invariant entries == Rows(data, i, kid) && skipped == Skipped(data, i, kid) &&
                  mismatched == Mismatched(data, i, kid)
        invariant status == Success
      {
        RowsAccounted(data, i, kid);
        var s, m;
        status, s, m := Stage(data[i], kid);
        if status != Success {
          return;
        }
        skipped, mismatched := skipped + s, mismatched + m;
        i := i + 1;
      }
    }

    /** tamga_key_set_add_json: all usable rows of the document, in order, or nothing at all. */
    method AddJson(json: Bytes, kid: Bytes -> Bytes) returns (status: Status, added: nat, skipped: nat, mismatched: nat)
      requires Valid()
      modifies this
      ensures Valid()
      ensures status != Success ==> entries == old(entries)
      ensures status == Success ==>
                DataOf(json).Some? &&
                var data := DataOf(json).value;
                entries == old(entries) + Rows(data, |data|, kid) && added == |Rows(data, |data|, kid)| &&
                added + skipped == |data| && mismatched <= added &&
                skipped == Skipped(data, |data|, kid) && mismatched == Mismatched(data, |data|, kid)
      ensures status == LengthInvalid ==> DataOf(json).None?
      ensures status == InvalidJson ==> DataOf(json).None? || (!memory.reliable && HoldsFullString(json))
      ensures status == OutOfMemory && memory.reliable ==>
                DataOf(json).Some? && TooMany(|old(entries)| + |DataOf(json).value|)
      ensures status.Success? || status.OutOfMemory? || status.InvalidJson? || status.LengthInvalid?
    {
      hide Parse, RowOf, Ascii, Rows, Skipped, Mismatched, TooMany, HoldsFullString;
      added, skipped, mismatched := 0, 0, 0;
      if |json| == 0 || |json| > MAX_INPUT {
        return LengthInvalid, 0, 0, 0;
      }
      var document;
      document, status := ParseDocument(json, memory, memory);
      if document.None? {
        return;
      }
      var data := Field(document, Ascii("data"));
      if data.None? || !data.value.Array? {
        return InvalidJson, 0, 0, 0;
      }
      var ok := memory.Alloc();
      if !ok {
        return OutOfMemory, 0, 0, 0;
      }
      var staged := new Keys(memory);
      var rows := data.value.items;
      status, skipped, mismatched := staged.StageAll(rows, kid);
      RowsAccounted(rows, |rows|, kid);
      FewerRows(|entries|, |Rows(rows, |rows|, kid)|, |rows|);
      if status != Success {
        return;
      }
      added := |staged.entries|;
      status := Reserve(added);
      if status != Success {
        return;
      }
      entries := entries + staged.entries;
    }

    /** tamga_key_set_lookup. */
    method Lookup(keyId: Bytes) returns (r: Option<Bytes>)
      ensures r == FirstKey(entries, keyId)
    {
      var i := 0;
      assert entries[0..] == entries;
      while i < |entries|
        invariant 0 <= i <= |entries| && FirstKey(entries, keyId) == FirstKey(entries[i..], keyId)
      {
        if entries[i].keyId == keyId {
          return Some(entries[i].publicKey);
        }
        assert entries[i..][1..] == entries[i + 1..];
        i := i + 1;
      }
      return None;
    }

    /** tamga_key_set_find_verifier: tries every key on the signature over the undecoded message. */
    method FindVerifier(verify: (Bytes, Bytes, Bytes) -> bool, message: Bytes, signature: Bytes) returns (found: bool)
      ensures found <==> SomeVerifies(entries, verify, message, signature)
    {
      if |signature| != 64 {
        return false;
      }
      var i := 0;
      while i < |entries|
        invariant 0 <= i <= |entries|
        invariant forall k :: 0 <= k < i ==> !verify(entries[k].publicKey, message, signature)
      {
        if verify(entries[i].publicKey, message, signature) {
          return true;
        }
        i := i + 1;
      }
      return false;
    }
  }

  predicate EmptyOrLong(n: nat) { n == 0 || n > MAX_INPUT }

  /** The rows of a key document: a JSON object with a data array. */
  ghost function DataOf(json: Bytes): Option<seq<Value>>
  {
    if EmptyOrLong(|json|) || Parse(json).Err? then None
    else
      var data := Field(Some(Parse(json).value), Ascii("data"));
      if data.None? || !data.value.Array? then None else Some(data.value.items)
  }

  /** {"":0,"data":[]} */
  const EMPTY_KEY_DOCUMENT: Bytes := [
    0x7B, 0x22, 0x22, 0x3A, 0x30, 0x2C, 0x22, 0x64, 0x61, 0x74, 0x61, 0x22, 0x3A, 0x5B, 0x5D, 0x7D]

  function EmptyKeyValue(): Value { Object([Member([], Int(0)), Member(DATA_KEY, Array([]))]) }

  /** A good key document without rows, whose first key is empty. */
  lemma EmptyKeyDocument()
    ensures DataOf(EMPTY_KEY_DOCUMENT) == Some([]) && EmptyKeyFirst(EMPTY_KEY_DOCUMENT)
  {
    EmptyKeyParses();
    EmptyKeyIsFirst();
    hide Parse, EmptyKeyFirst;
    assert Ascii("data") == DATA_KEY;
    FindIs(EmptyKeyValue().members, Ascii("data"), 1);
  }

  lemma EmptyKeyParses()
    ensures Parse(EMPTY_KEY_DOCUMENT) == Ok(EmptyKeyValue(), [])
  {
    hide Parse, WellFormed, FloatFree, Fits, JsonWrite.Write;
    var format := (token: Bytes) => token;
    EmptyKeyFormed();
    EmptyKeyWritten(format);
    JsonRoundTrip.ParseWrite(EmptyKeyValue(), format);
  }

  const DATA_KEY: Bytes := [0x64, 0x61, 0x74, 0x61]

  lemma EmptyKeyFormed()
    ensures WellFormed(EmptyKeyValue()) && FloatFree(EmptyKeyValue()) && Fits(EmptyKeyValue(), 0)
  {
    var m := EmptyKeyValue().members;
    assert Valid(DATA_KEY[4..]) && Valid(DATA_KEY[3..]) && Valid(DATA_KEY[2..]) && Valid(DATA_KEY[1..]);
    assert DATA_KEY[1..][1..] == DATA_KEY[2..] && DATA_KEY[2..][1..] == DATA_KEY[3..];
    assert DATA_KEY[3..][1..] == DATA_KEY[4..];
    assert MemberFormed(m[0]) && MemberFormed(m[1]);
  }

  lemma EmptyKeyWritten(format: Bytes -> Bytes)
    ensures JsonWrite.Write(EmptyKeyValue(), format) == EMPTY_KEY_DOCUMENT
  {
    var v := EmptyKeyValue();
    FirstWritten(format);
    SecondWritten(format);
    hide JsonWrite.WriteMember;
    assert JsonWrite.WriteMembers(v, 1, format) == JsonWrite.WriteMember(v.members[1], format);
  }

  lemma FirstWritten(format: Bytes -> Bytes)
    ensures JsonWrite.WriteMember(EmptyKeyValue().members[0], format) == [0x22, 0x22, 0x3A, 0x30]
  {
    assert JsonWrite.Quoted([]) == [0x22, 0x22];
    assert JsonWrite.Decimal(0) == [0x30];
  }

  lemma SecondWritten(format: Bytes -> Bytes)
    ensures JsonWrite.WriteMember(EmptyKeyValue().members[1], format) == [0x22] + DATA_KEY + [0x22, 0x3A, 0x5B, 0x5D]
  {
    PlainEscaped(DATA_KEY);
    hide JsonWrite.Escaped;
    assert JsonWrite.Write(Array([]), format) == [0x5B, 0x5D];
  }

  lemma {:induction false} PlainEscaped(s: Bytes)
    requires forall i :: 0 <= i < |s| ==> 0x61 <= s[i] <= 0x7A
    ensures JsonWrite.Escaped(s) == s
  {
    if s != [] {
      PlainEscaped(s[1..]);
      assert s == [s[0]] + s[1..];
    }
  }

  lemma EmptyKeyIsFirst()
    ensures EmptyKeyFirst(EMPTY_KEY_DOCUMENT)
  {
    var t := EMPTY_KEY_DOCUMENT[1..];
    assert t[0] == 0x22 && t[1..][0] == 0x22;
    assert SkipBlanks(t) == t;
    hide SkipBlanks;
    assert StringBody(t[1..]) == Ok([], t[1..][1..]);
  }

  /** When strings alone are refused, that document is called malformed. */
  method BlameEmptyKey() returns (status: Status)
    ensures status == InvalidJson && DataOf(EMPTY_KEY_DOCUMENT).Some?
  {
    EmptyKeyDocument();
    hide DataOf, EmptyKeyFirst;
    var nodes := new Memory(true, false);
    var strings := new Memory(false, true);
    var document;
    document, status := ParseDocument(EMPTY_KEY_DOCUMENT, nodes, strings);
  }

  lemma FewerRows(held: nat, added: nat, rows: nat)
    requires added <= rows
    ensures TooMany(rows) ==> TooMany(held + rows)
    ensures TooMany(held + added) ==> TooMany(held + rows)
  {
  }

  // ----- lookup

  /** The key of the first entry with this id. */
  function FirstKey(entries: seq<Entry>, keyId: Bytes): Option<Bytes>
  {
    if entries == [] then None
    else if entries[0].keyId == keyId then Some(entries[0].publicKey)
    else FirstKey(entries[1..], keyId)
  }

  ghost predicate SomeVerifies(entries: seq<Entry>, verify: (Bytes, Bytes, Bytes) -> bool, message: Bytes,
                               signature: Bytes)
  {
    |signature| == 64 && exists i :: 0 <= i < |entries| && verify(entries[i].publicKey, message, signature)
  }

  /** The first entry with the id, and there is one exactly when a key is found. */
  lemma {:induction false} FirstKeyIs(entries: seq<Entry>, keyId: Bytes)
    ensures FirstKey(entries, keyId).None? <==> forall i :: 0 <= i < |entries| ==> entries[i].keyId != keyId
    ensures FirstKey(entries, keyId).Some? ==>
              exists i :: 0 <= i < |entries| && entries[i] == Entry(keyId, FirstKey(entries, keyId).value) &&
                          forall j :: 0 <= j < i ==> entries[j].keyId != keyId
  {
    if entries != [] {
      var rest := entries[1..];
      if entries[0].keyId == keyId {
        assert entries[0] == Entry(keyId, entries[0].publicKey);
      } else {
        FirstKeyIs(rest, keyId);
        assert forall i :: 0 <= i < |rest| ==> rest[i] == entries[i + 1];
        if FirstKey(rest, keyId).None? {
          forall i | 0 <= i < |entries|
            ensures entries[i].keyId != keyId
          {
            if i > 0 { assert entries[i] == rest[i - 1]; }
          }
        } else {
          var i :| 0 <= i < |rest| && rest[i] == Entry(keyId, FirstKey(rest, keyId).value) &&
              forall j :: 0 <= j < i ==> rest[j].keyId != keyId;
          assert entries[i + 1] == rest[i];
          forall j | 0 <= j < i + 1
            ensures entries[j].keyId != keyId
          {
            if j > 0 { assert entries[j] == rest[j - 1]; }
          }
        }
      }
    }
  }

  /** A key that is found stays the one that is found, whatever is added afterwards. */
  lemma {:induction false} FirstKeyStable(entries: seq<Entry>, more: seq<Entry>, keyId: Bytes)
    ensures FirstKey(entries, keyId).Some? ==> FirstKey(entries + more, keyId) == FirstKey(entries, keyId)
    ensures FirstKey(entries, keyId).None? ==> FirstKey(entries + more, keyId) == FirstKey(more, keyId)
  {
    if entries == [] {
      assert entries + more == more;
    } else {
      assert (entries + more)[1..] == entries[1..] + more;
      FirstKeyStable(entries[1..], more, keyId);
    }
  }

  // ----- whole runs

  datatype Request = AddKey(text: Bytes) | Merge(json: Bytes)

  /** Whether a request can be met at all. */
  ghost predicate Usable(r: Request)
  {
    match r
    case AddKey(text) => |text| <= MAX_INPUT && KeyBytes(text).Some?
    case Merge(json) => DataOf(json).Some?
  }

  /** The entries that a request stands for. */
  ghost function EntriesOf(r: Request, kid: Bytes -> Bytes): seq<Entry>
  {
    if !Usable(r) then []
    else
      match r
      case AddKey(text) => [Entry(kid(text), KeyBytes(text).value)]
      case Merge(json) => Rows(DataOf(json).value, |DataOf(json).value|, kid)
  }

  /** The entries of the requests that succeeded, in order. */
  ghost function Added(requests: seq<Request>, statuses: seq<Status>, kid: Bytes -> Bytes): seq<Entry>
    requires |requests| == |statuses|
  {
    if requests == [] then []
    else
      var n := |requests| - 1;
      Added(requests[..n], statuses[..n], kid) +
      (if statuses[n] == Success then EntriesOf(requests[n], kid) else [])
  }

  /** One request: all of its entries at the end of the set, or no change. */
  method Perform(keys: Keys, r: Request, kid: Bytes -> Bytes) returns (status: Status)
    requires keys.Valid()
    modifies keys
    ensures keys.Valid()
    ensures keys.entries == old(keys.entries) + (if status == Success then EntriesOf(r, kid) else [])
    ensures status == Success ==> Usable(r)
    ensures keys.memory.reliable && status != OutOfMemory ==> (status == Success <==> Usable(r))
  {
    hide KeyBytes, DataOf, Rows, Skipped, Mismatched;
    match r
    case AddKey(text) =>
      status := keys.AddPublicKey(text, kid);
    case Merge(json) =>
      var added, skipped, mismatched;
      status, added, skipped, mismatched := keys.AddJson(json, kid);
  }

  /** Any run of requests on memory that may be refused at any point: what was held stays in front and in order,
      what comes after it is exactly the entries of the requests that succeeded, and every lookup that had an
      answer keeps it. */
  method Run(keys: Keys, requests: seq<Request>, kid: Bytes -> Bytes) returns (statuses: seq<Status>)
    requires keys.Valid()
    modifies keys
    ensures keys.Valid() && |statuses| == |requests|
    ensures keys.entries == old(keys.entries) + Added(requests, statuses, kid)
    ensures forall i :: 0 <= i < |requests| && statuses[i] == Success ==> Usable(requests[i])
    ensures keys.memory.reliable ==>
              forall i :: 0 <= i < |requests| && statuses[i] != OutOfMemory ==>
                (statuses[i] == Success <==> Usable(requests[i]))
    ensures forall keyId :: FirstKey(old(keys.entries), keyId).Some? ==>
              FirstKey(keys.entries, keyId) == FirstKey(old(keys.entries), keyId)
  {
    hide Usable, EntriesOf, FirstKey;
    ghost var held := keys.entries;
    statuses := [];
    var n := 0;
    while n < |requests|
      invariant n <= |requests| && |statuses| == n && keys.Valid()
      invariant keys.entries == held + Added(requests[..n], statuses, kid)
      invariant forall i :: 0 <= i < n && statuses[i] == Success ==> Usable(requests[i])
      invariant keys.memory.reliable ==>
                  forall i :: 0 <= i < n && statuses[i] != OutOfMemory ==>
                      (statuses[i] == Success <==> Usable(requests[i]))
    {
      ghost var before := statuses;
      var status := Perform(keys, requests[n], kid);
      statuses := statuses + [status];
      assert requests[..n + 1][..n] == requests[..n] && statuses[..n] == before;
      n := n + 1;
    }
    assert requests[..n] == requests;
    forall keyId | FirstKey(held, keyId).Some?
      ensures FirstKey(keys.entries, keyId) == FirstKey(held, keyId)
    {
      FirstKeyStable(held, Added(requests, statuses, kid), keyId);
    }
  }

  /** A request that fails leaves no trace: dropping it from the run changes nothing that was added. */
  lemma {:induction false} FailureLeavesNoTrace(requests: seq<Request>, statuses: seq<Status>, kid: Bytes -> Bytes,
                                                i: nat)
    requires |requests| == |statuses| && i < |requests| && statuses[i] != Success
    ensures Added(requests[..i] + requests[i + 1..], statuses[..i] + statuses[i + 1..], kid) ==
            Added(requests, statuses, kid)
    decreases |requests|
  {
    hide EntriesOf;
    var n := |requests| - 1;
    var r, s := requests[..i] + requests[i + 1..], statuses[..i] + statuses[i + 1..];
    if i == n {
      assert r == requests[..n] && s == statuses[..n];
    } else {
      FailureLeavesNoTrace(requests[..n], statuses[..n], kid, i);
      assert r[..n - 1] == requests[..n][..i] + requests[..n][i + 1..];
      assert s[..n - 1] == statuses[..n][..i] + statuses[..n][i + 1..];
      assert r[n - 1] == requests[n] && s[n - 1] == statuses[n];
    }
  }
}
