/** JSON values, and what the object and array operations keep about them. */
module Json {
  import opened Utf8

  const MIN_INT: int := -0x8000_0000_0000_0000
  const MAX_INT: int := 0x7fff_ffff_ffff_ffff

  /** The deepest nesting accepted. */
  const MAX_DEPTH: nat := 64

  /** A number is an integer literal that fits 64 bits, or a literal held as a double; the double stays spelled. */
  datatype Value =
    | Null
    | Bool(boolean: bool)
    | Int(integer: int)
    | Real(token: Bytes)
    | Text(bytes: Bytes)
    | Array(items: seq<Value>)
    | Object(members: seq<Member>)

  datatype Member = Member(key: Bytes, value: Value)

  // ----- tamga_json_object_get, tamga_json_object_set

  ghost predicate DistinctKeys(m: seq<Member>)
  {
    forall i, j :: 0 <= i < j < |m| ==> m[i].key != m[j].key
  }

  /** The position of the first member with this key, or the number of members. */
  function Find(m: seq<Member>, key: Bytes): (i: nat)
    ensures i <= |m| && (i < |m| ==> m[i].key == key)
    ensures forall j :: 0 <= j < i ==> m[j].key != key
  {
    if m == [] then 0
    else if m[0].key == key then 0
    else
      var i := Find(m[1..], key);
      assert forall j :: 0 <= j < i + 1 ==> m[j].key != key by {
        forall j | 0 <= j < i + 1
          ensures m[j].key != key
        {
          if j > 0 { assert m[j] == m[1..][j - 1]; }
        }
      }
      i + 1
  }

  /** Replaces the value of an existing member in place, or adds a member at the end. */
  function Set(m: seq<Member>, key: Bytes, value: Value): (r: seq<Member>)
    ensures DistinctKeys(m) ==> DistinctKeys(r)
  {
    var i := Find(m, key);
    if i < |m| then m[i := Member(key, value)] else m + [Member(key, value)]
  }

  /** Finding by the defining property. */
  lemma FindIs(m: seq<Member>, key: Bytes, i: nat)
    requires i <= |m| && (i < |m| ==> m[i].key == key) && forall j :: 0 <= j < i ==> m[j].key != key
    ensures Find(m, key) == i
  {
  }

  ghost predicate IsSet(m: seq<Member>, key: Bytes, value: Value, r: seq<Member>)
  {
    var i := Find(m, key);
    r == if i < |m| then m[i := Member(key, value)] else m + [Member(key, value)]
  }

  lemma SetOther(m: seq<Member>, key: Bytes, value: Value, r: seq<Member>, other: Bytes)
    requires IsSet(m, key, value, r) && other != key
    ensures Find(m, other) == Find(r, other) || (Find(m, other) == |m| && Find(r, other) == |r|)
    ensures Find(m, other) < |m| <==> Find(r, other) < |r|
  {
    hide Find;
    var k := Find(m, other);
    FindIs(r, other, if k < |m| then k else |r|);
  }

  lemma SetLookup(m: seq<Member>, key: Bytes, value: Value, r: seq<Member>)
    requires IsSet(m, key, value, r)
    ensures Find(r, key) < |r| && r[Find(r, key)].value == value
    ensures forall other :: other != key ==> (Find(m, other) < |m| <==> Find(r, other) < |r|)
  {
    hide Find;
    FindIs(r, key, Find(m, key));
    forall other | other != key
      ensures Find(m, other) < |m| <==> Find(r, other) < |r|
    {
      SetOther(m, key, value, r, other);
    }
  }

  /** The key is found with the new value, and no other key comes or goes. */
  lemma SetFound(m: seq<Member>, key: Bytes, value: Value)
    ensures var r := Set(m, key, value);
            && Find(r, key) < |r| && r[Find(r, key)].value == value
            && forall other :: other != key ==> (Find(m, other) < |m| <==> Find(r, other) < |r|)
  {
    hide Find;
    SetLookup(m, key, value, Set(m, key, value));
  }

  /** A member with another key is found with the same value as before. */
  lemma SetKeepsOthers(m: seq<Member>, key: Bytes, value: Value, other: Bytes)
    requires other != key && Find(m, other) < |m|
    ensures var r := Set(m, key, value); Find(r, other) == Find(m, other) && r[Find(r, other)] == m[Find(m, other)]
  {
    hide Find;
    SetOther(m, key, value, Set(m, key, value), other);
  }

  /** A key that is not there yet goes to the end. */
  lemma SetFresh(m: seq<Member>, key: Bytes, value: Value)
    requires forall j :: 0 <= j < |m| ==> m[j].key != key
    ensures Set(m, key, value) == m + [Member(key, value)]
  {
    FindIs(m, key, |m|);
  }

  /** Setting the members one after another gives the members, because their keys are distinct. */
  lemma SetNext(m: seq<Member>, i: nat)
    requires DistinctKeys(m) && i < |m|
    ensures Set(m[..i], m[i].key, m[i].value) == m[..i + 1]
  {
    hide Set;
    SetFresh(m[..i], m[i].key, m[i].value);
    assert Member(m[i].key, m[i].value) == m[i];
    assert m[..i] + [m[i]] == m[..i + 1];
  }

  // ----- the values the parser makes and the writer can print

  predicate NoNul(s: Bytes) { 0 !in s }

  /** Strings and keys are UTF-8, keys are distinct and free of NUL, integers fit 64 bits. */
  ghost predicate WellFormed(v: Value)
  {
    match v
    case Int(i) => MIN_INT <= i <= MAX_INT
    case Text(s) => Valid(s)
    case Array(items) => forall i :: 0 <= i < |items| ==> WellFormed(items[i])
    case Object(m) => DistinctKeys(m) && forall i :: 0 <= i < |m| ==> MemberFormed(m[i])
    case _ => true
  }

  ghost predicate MemberFormed(m: Member) { Valid(m.key) && NoNul(m.key) && WellFormed(m.value) }

  /** No number is held as a double. */
  ghost predicate FloatFree(v: Value)
  {
    match v
    case Real(_) => false
    case Array(items) => forall i :: 0 <= i < |items| ==> FloatFree(items[i])
    case Object(m) => forall i :: 0 <= i < |m| ==> FloatFree(m[i].value)
    case _ => true
  }

  /** A value found at this depth stays within the nesting limit. The parser starts at depth zero; a depth below zero
      stands for a higher limit. */
  ghost predicate Fits(v: Value, depth: int)
  {
    depth < MAX_DEPTH &&
    match v
    case Array(items) => forall i :: 0 <= i < |items| ==> Fits(items[i], depth + 1)
    case Object(m) => forall i :: 0 <= i < |m| ==> Fits(m[i].value, depth + 1)
    case _ => true
  }

  lemma {:induction false} FitsBelow(v: Value, depth: int, lower: int)
    requires Fits(v, depth) && lower <= depth
    ensures Fits(v, lower)
    decreases v
  {
    match v {
      case Array(items) =>
        forall i | 0 <= i < |items| ensures Fits(items[i], lower + 1) {
          FitsBelow(items[i], depth + 1, lower + 1);
        }
      case Object(m) =>
        forall i | 0 <= i < |m| ensures Fits(m[i].value, lower + 1) {
          FitsBelow(m[i].value, depth + 1, lower + 1);
        }
      case _ =>
    }
  }

  /** Every value stays within some limit. */
  lemma {:induction false} FitsSomewhere(v: Value) returns (depth: int)
    ensures Fits(v, depth)
    decreases v
  {
    depth := 0;
    match v {
      case Array(items) =>
        for i := 0 to |items|
          invariant depth < MAX_DEPTH && forall k :: 0 <= k < i ==> Fits(items[k], depth + 1)
        {
          var d := FitsSomewhere(items[i]);
          var e := if d - 1 < depth then d - 1 else depth;
          forall k | 0 <= k < i ensures Fits(items[k], e + 1) {
            FitsBelow(items[k], depth + 1, e + 1);
          }
          FitsBelow(items[i], d, e + 1);
          depth := e;
        }
      case Object(m) =>
        for i := 0 to |m|
          invariant depth < MAX_DEPTH && forall k :: 0 <= k < i ==> Fits(m[k].value, depth + 1)
        {
          var d := FitsSomewhere(m[i].value);
          var e := if d - 1 < depth then d - 1 else depth;
          forall k | 0 <= k < i ensures Fits(m[k].value, e + 1) {
            FitsBelow(m[k].value, depth + 1, e + 1);
          }
          FitsBelow(m[i].value, d, e + 1);
          depth := e;
        }
      case _ =>
    }
  }
}
