/** Objects that are built by setting members one at a time. */
module JsonObject {
  import opened Arith
  import opened Utf8
  import opened Json
  import opened Buf
  import JsonParse

  /** An object node: its members and the room allocated for them. */
  class ObjectNode {
    var members: seq<Member>
    var cap: nat
    const memory: Memory

    ghost predicate Valid()
      reads this
    {
      |members| <= cap && DistinctKeys(members)
    }

    constructor (memory: Memory)
      ensures Valid() && members == [] && this.memory == memory
    {
      members, cap := [], 0;
      this.memory := memory;
    }

    /** The position of the first member with this key, or the number of members. */
    method Position(key: Bytes) returns (i: nat)
      ensures i == Find(members, key)
    {
      i := 0;
      while i < |members|
        invariant 0 <= i <= |members|
        invariant forall j :: 0 <= j < i ==> members[j].key != key
      {
        if members[i].key == key {
          break;
        }
        i := i + 1;
      }
      FindIs(members, key, i);
    }

    /** tamga_json_object_get. */
    method Get(key: Bytes) returns (r: Option<Value>)
      ensures r.Some? <==> exists i :: 0 <= i < |members| && members[i].key == key
      ensures r.Some? ==> r == Some(members[Find(members, key)].value)
    {
      var i := Position(key);
      r := if i < |members| then Some(members[i].value) else None;
    }

    /** tamga_json_object_set: replaces in place without allocating, or adds at the end; on failure nothing changes.
        With reliable memory it fails exactly for a new key that is too long or an object that cannot be counted. */
    method SetMember(key: Bytes, item: Value) returns (ok: bool)
      requires Valid()
      modifies this
      ensures Valid()
      ensures ok ==> members == Set(old(members), key, item)
      ensures !ok ==> members == old(members) && Find(members, key) == |members|
      ensures memory.reliable ==>
                (ok <==> Find(old(members), key) < |old(members)| ||
                         (CanGrow(|old(members)|, old(cap), MEMBER_SIZE) && |key| <= JsonParse.MAX_INPUT))
    {
      var i := Position(key);
      if i < |members| {
        members := members[i := Member(key, item)];
        return true;
      }
      ok, cap := Grow(|members|, cap, MEMBER_SIZE, memory);
      if !ok || |key| > JsonParse.MAX_INPUT {
        return false;
      }
      ok := memory.Alloc();
      if !ok {
        return false;
      }
      members := members + [Member(key, item)];
    }
  }

  // ----- tamga_json_grow

  const MEMBER_SIZE: nat := 24
  const POINTER_SIZE: nat := 8

  predicate CanGrow(count: nat, cap: nat, size: nat)
  {
    count < cap || (if cap == 0 then 8 else cap) * 2 * size <= SIZE_MAX
  }

  /** Room for one more element, doubling the capacity when there is none. */
  method Grow(count: nat, cap: nat, size: nat, memory: Memory) returns (ok: bool, newCap: nat)
    requires count <= cap && size > 0
    ensures if ok then CanGrow(count, cap, size) && count < newCap else newCap == cap
    ensures memory.reliable ==> (ok <==> CanGrow(count, cap, size))
  {
    if count < cap {
      return true, cap;
    }
    newCap := (if cap == 0 then 8 else cap) * 2;
    if newCap > SIZE_MAX || newCap * size > SIZE_MAX {
      return false, cap;
    }
    ok := memory.Alloc();
    if !ok {
      newCap := cap;
    }
  }

  /** So few elements that growing never fails for their number. */
  const COUNT_MAX: nat := 0xff_ffff_ffff_ffff

  lemma FewCanGrow(count: nat, cap: nat, size: nat)
    requires count <= cap && count <= COUNT_MAX && size <= MEMBER_SIZE
    ensures CanGrow(count, cap, size)
  {
    if count == cap {
      var c := (if cap == 0 then 8 else cap) * 2;
      MulMono(size, MEMBER_SIZE, c);
    }
  }

  // ----- tamga_json_clone

  /** A copy: children first, members set one at a time. */
  function Clone(v: Value): Value
  {
    match v
    case Array(items) => Array(seq(|items|, i requires 0 <= i < |items| => Clone(items[i])))
    case Object(m) => Object(CloneMembers(v, |m|))
    case _ => v
  }

  function CloneMembers(v: Value, n: nat): seq<Member>
    requires v.Object? && n <= |v.members|
    decreases v, n
  {
    if n == 0 then [] else Set(CloneMembers(v, n - 1), v.members[n - 1].key, Clone(v.members[n - 1].value))
  }

  /** The copy equals the original, because its keys are distinct. */
  lemma {:induction false} CloneIsCopy(v: Value)
    requires WellFormed(v)
    ensures Clone(v) == v
    decreases v
  {
    match v {
      case Array(items) =>
        forall i | 0 <= i < |items|
          ensures Clone(items[i]) == items[i]
        {
          CloneIsCopy(items[i]);
        }
      case Object(m) =>
        CloneMembersAre(v, |m|);
        assert m[..|m|] == m;
      case _ =>
    }
  }

  lemma {:induction false} CloneMembersAre(v: Value, n: nat)
    requires v.Object? && WellFormed(v) && n <= |v.members|
    ensures CloneMembers(v, n) == v.members[..n]
    decreases v, n
  {
    hide Clone, Set, WellFormed, DistinctKeys;
    if n > 0 {
      MemberAt(v, n - 1);
      CloneMembersAre(v, n - 1);
      CloneIsCopy(v.members[n - 1].value);
      SetNext(v.members, n - 1);
    }
  }

  lemma MemberAt(v: Value, i: nat)
    requires v.Object? && WellFormed(v) && i < |v.members|
    ensures WellFormed(v.members[i].value) && DistinctKeys(v.members)
  {
    assert MemberFormed(v.members[i]);
  }

  /** No key is too long to copy, and no array or object has more elements than can be counted. */
  ghost predicate Copyable(v: Value)
  {
    match v
    case Array(items) => |items| <= COUNT_MAX && forall i :: 0 <= i < |items| ==> Copyable(items[i])
    case Object(m) =>
      |m| <= COUNT_MAX &&
      forall i :: 0 <= i < |m| ==> |m[i].key| <= JsonParse.MAX_INPUT && Copyable(m[i].value)
    case _ => true
  }

  /** The whole copy or nothing; nothing only when memory is refused or the value is not copyable. */
  method CloneValue(v: Value, memory: Memory) returns (r: Option<Value>)
    ensures r.Some? ==> r.value == Clone(v)
    ensures r.None? ==> !memory.reliable || !Copyable(v)
    decreases v, 1
  {
    hide Set;
    var granted := memory.Alloc();
    if !granted {
      return None;
    }
    match v {
      case Text(s) =>
        granted := memory.Alloc();
        r := if granted then Some(v) else None;
      case Array(items) =>
        var copies := CloneItems(v, memory);
        r := if copies.Some? then Some(Array(copies.value)) else None;
      case Object(m) =>
        var copies := CloneObject(v, memory);
        r := if copies.Some? then Some(Object(copies.value)) else None;
      case _ =>
        r := Some(v);
    }
  }

  method CloneItems(v: Value, memory: Memory) returns (r: Option<seq<Value>>)
    requires v.Array?
    ensures r.Some? ==> r.value == Clone(v).items
    ensures r.None? ==> !memory.reliable || !Copyable(v)
    decreases v, 0
  {
    var copies, cap := [], 0;
    for i := 0 to |v.items|
      invariant |copies| == i <= cap && forall k :: 0 <= k < i ==> copies[k] == Clone(v.items[k])
    {
      var child := CloneValue(v.items[i], memory);
      if child.None? {
        return None;
      }
      if |v.items| <= COUNT_MAX {
        FewCanGrow(|copies|, cap, POINTER_SIZE);
      }
      var ok;
      ok, cap := Grow(|copies|, cap, POINTER_SIZE, memory);
      if !ok {
        return None;
      }
      copies := copies + [child.value];
    }
    r := Some(copies);
  }

  method CloneObject(v: Value, memory: Memory) returns (r: Option<seq<Member>>)
    requires v.Object?
    ensures r.Some? ==> r.value == CloneMembers(v, |v.members|)
    ensures r.None? ==> !memory.reliable || !Copyable(v)
    decreases v, 0
  {
    hide Clone, Set, CanGrow, Copyable, DistinctKeys;
    var node := new ObjectNode(memory);
    for i := 0 to |v.members|
      invariant node.Valid() && node.memory == memory && fresh(node)
      invariant node.members == CloneMembers(v, i) && |node.members| <= i
    {
      if Copyable(v) {
        CopyableAt(v, i);
      }
      var child := CloneValue(v.members[i].value, memory);
      if child.None? {
        return None;
      }
      if |v.members| <= COUNT_MAX {
        FewCanGrow(|node.members|, node.cap, MEMBER_SIZE);
      }
      SetSize(node.members, v.members[i].key, child.value);
      var ok := node.SetMember(v.members[i].key, child.value);
      if !ok {
        return None;
      }
    }
    r := Some(node.members);
  }

  lemma CopyableAt(v: Value, i: nat)
    requires v.Object? && Copyable(v) && i < |v.members|
    ensures |v.members| <= COUNT_MAX && |v.members[i].key| <= JsonParse.MAX_INPUT && Copyable(v.members[i].value)
  {
  }

  lemma SetSize(m: seq<Member>, key: Bytes, value: Value)
    ensures |Set(m, key, value)| <= |m| + 1
  {
  }
}
