/** The writers: they fill a buffer with exactly the compact or the canonical text, or fail as a whole. */
module JsonWriter {
  import opened Limbs
  import opened Utf8
  import opened Json
  import opened JsonParse
  import opened JsonWrite
  import opened JsonCanonical
  import opened KeySort
  import opened Buf

  // ----- tamga_json_write_escaped

  lemma {:induction false} EscapedLast(s: Bytes, c: u8)
    ensures Escaped(s + [c]) == Escaped(s) + EscapeByte(c)
  {
    if s == [] {
      assert s + [c] == [c] && [c][1..] == [];
    } else {
      assert (s + [c])[1..] == s[1..] + [c];
      EscapedLast(s[1..], c);
    }
  }

  /** Appends and keeps the account of what has been appended so far. */
  method Put(out: Buffer, text: Bytes, ghost data: Bytes, ghost failed: bool, ghost done: Bytes)
    requires out.Valid() && Appended(data, failed, out.data, out.failed, done, out.memory.reliable)
    modifies out
    ensures out.Valid() && Appended(data, failed, out.data, out.failed, done + text, out.memory.reliable)
  {
    hide Appended;
    ghost var b, fb := out.data, out.failed;
    out.Append(text);
    AppendThen(data, failed, b, fb, out.data, out.failed, done, text, out.memory.reliable);
  }

  method WriteEscaped(bytes: Bytes, out: Buffer)
    requires out.Valid()
    modifies out
    ensures out.Valid() &&
            Appended(old(out.data), old(out.failed), out.data, out.failed, Quoted(bytes), out.memory.reliable)
  {
    hide Appended, Escaped;
    ghost var data, failed := out.data, out.failed;
    AppendNothing(data, failed, out.memory.reliable);
    Put(out, [QUOTE], data, failed, []);
    var i := 0;
    assert bytes[..0] == [];
    EscapedNone();
    while i < |bytes|
      invariant 0 <= i <= |bytes| && out.Valid()
      invariant Appended(data, failed, out.data, out.failed, [QUOTE] + Escaped(bytes[..i]), out.memory.reliable)
    {
      EscapedLast(bytes[..i], bytes[i]);
      assert bytes[..i] + [bytes[i]] == bytes[..i + 1];
      Put(out, EscapeByte(bytes[i]), data, failed, [QUOTE] + Escaped(bytes[..i]));
      assert ([QUOTE] + Escaped(bytes[..i])) + EscapeByte(bytes[i]) == [QUOTE] + Escaped(bytes[..i + 1]);
      i := i + 1;
    }
    assert bytes[..|bytes|] == bytes;
    Put(out, [QUOTE], data, failed, [QUOTE] + Escaped(bytes));
  }

  lemma EscapedNone()
    ensures Escaped([]) == [] && [] + [QUOTE] == [QUOTE] + Escaped([])
  {
  }

  // ----- the value whose compact text is written

  ghost function Form(v: Value, canonical: bool): Value { if canonical then Canon(v) else v }

  /** Objects are built by tamga_json_object_set, so keys are distinct and free of NUL. */
  ghost predicate Writable(v: Value)
  {
    match v
    case Array(items) => forall i :: 0 <= i < |items| ==> Writable(items[i])
    case Object(m) => DistinctKeys(m) && forall i :: 0 <= i < |m| ==> NoNul(m[i].key) && Writable(m[i].value)
    case _ => true
  }

  lemma FormArray(v: Value, canonical: bool)
    requires v.Array?
    ensures var f := Form(v, canonical);
            f.Array? && |f.items| == |v.items| &&
                forall i :: 0 <= i < |v.items| ==> f.items[i] == Form(v.items[i], canonical)
  {
  }

  lemma FormScalar(v: Value, canonical: bool)
    requires !v.Array? && !v.Object?
    ensures Form(v, canonical) == v
  {
  }

  function Keys(m: seq<Member>): (k: seq<Bytes>)
    ensures |k| == |m| && forall i :: 0 <= i < |m| ==> k[i] == m[i].key
  {
    seq(|m|, i requires 0 <= i < |m| => m[i].key)
  }

  /** An order in which members are visited. */
  ghost predicate IsOrder(order: seq<nat>, n: nat)
  {
    |order| == n && Indices(order, n) && multiset(order) == multiset(Iota(n))
  }

  lemma OrderDistinct(order: seq<nat>, n: nat, i: nat, j: nat)
    requires IsOrder(order, n) && i < j < n
    ensures order[i] != order[j]
  {
    if order[i] == order[j] {
      var x := order[i];
      CountTwo(order, i, j);
      CountIota(n, x);
      assert false;
    }
  }

  lemma CountTwo(s: seq<nat>, i: nat, j: nat)
    requires i < j < |s| && s[i] == s[j]
    ensures multiset(s)[s[i]] >= 2
  {
    assert s == s[..j] + s[j..];
    assert s[i] in s[..j] && s[j] in s[j..];
  }

  lemma {:induction false} CountIota(n: nat, x: nat)
    ensures multiset(Iota(n))[x] == if x < n then 1 else 0
  {
    if n > 0 {
      assert Iota(n) == Iota(n - 1) + [n - 1];
      CountIota(n - 1, x);
    }
  }

  lemma OrderCovers(order: seq<nat>, n: nat, x: nat) returns (i: nat)
    requires IsOrder(order, n) && x < n
    ensures i < n && order[i] == x
  {
    CountIota(n, x);
    assert x in multiset(order);
    i :| 0 <= i < n && order[i] == x;
  }

  /** Members visited in the order the sort gives are the members of the canonical object. */
  lemma OrderIsCanonical(v: Value, order: seq<nat>)
    requires v.Object? && DistinctKeys(v.members) && IsOrder(order, |v.members|) && Sorted(order, Keys(v.members))
    ensures var c := Canon(v).members;
            |c| == |order| && forall i :: 0 <= i < |order| ==> c[i] == CanonMember(v.members[order[i]])
  {
    var n, m := |order|, v.members;
    var a := seq(n, i requires 0 <= i < n => CanonMember(m[order[i]]));
    var c := CanonMembers(v);
    assert Canon(v).members == SortMembers(c);
    hide SortMembers, CanonMembers, LexLe, Canon;
    forall i, j | 0 <= i < j < n
      ensures LexLe(a[i].key, a[j].key) && a[i].key != a[j].key
    {
      OrderDistinct(order, n, i, j);
    }
    forall y
      ensures y in a <==> y in SortMembers(c)
    {
      SortElements(c, y);
      if y in c {
        var x :| 0 <= x < n && c[x] == y;
        var i := OrderCovers(order, n, x);
        assert a[i] == y;
      }
    }
    CanonDistinct(v);
    SortSorted(c);
    SortedUnique(a, SortMembers(c));
  }

  /** With at most one member there is nothing to sort. */
  lemma ShortIsSorted(m: seq<Member>)
    requires |m| <= 1
    ensures SortMembers(m) == m
  {
    if |m| == 1 {
      assert m[1..] == [];
      assert SortMembers(m) == Insert(m[0], []);
    }
  }

  /** The order the members of v are written in, and what that order makes of the object's text. */
  ghost predicate Visits(v: Value, canonical: bool, order: seq<nat>)
  {
    v.Object? && |order| == |v.members| && Indices(order, |v.members|) &&
    var f := Form(v, canonical);
    f.Object? && |f.members| == |order| &&
    forall i :: 0 <= i < |order| ==>
        f.members[i] == Member(v.members[order[i]].key, Form(v.members[order[i]].value, canonical))
  }

  lemma PlainVisits(v: Value, canonical: bool)
    requires v.Object? && (!canonical || |v.members| <= 1)
    ensures Visits(v, canonical, Iota(|v.members|))
  {
    hide Canon;
    if canonical {
      CanonShort(v);
    }
  }

  lemma CanonShort(v: Value)
    requires v.Object? && |v.members| <= 1
    ensures Canon(v) == Object(CanonMembers(v))
  {
    ShortIsSorted(CanonMembers(v));
  }

  lemma SortedVisits(v: Value, order: seq<nat>)
    requires v.Object? && DistinctKeys(v.members) && IsOrder(order, |v.members|) && Sorted(order, Keys(v.members))
    ensures Visits(v, true, order)
  {
    OrderIsCanonical(v, order);
    assert Canon(v).Object?;
    hide Canon, LexLe, Sorted;
  }

  // ----- tamga_json_write_value, tamga_json_write_object

  /** What is still to be written of an array after its first i items. */
  ghost function ItemsLeft(f: Value, i: nat, format: Bytes -> Bytes): Bytes
    requires f.Array? && i <= |f.items|
  {
    if i == 0 then WriteItems(f, 0, format) else if i < |f.items| then [COMMA] + WriteItems(f, i, format) else []
  }

  lemma ItemsNext(f: Value, i: nat, format: Bytes -> Bytes, done: Bytes)
    requires f.Array? && i < |f.items|
    ensures done + ItemsLeft(f, i, format) ==
            (done + (if i > 0 then [COMMA] else []) + Write(f.items[i], format)) + ItemsLeft(f, i + 1, format)
  {
    hide Write;
    var w := Write(f.items[i], format);
    if i + 1 < |f.items| {
      assert WriteItems(f, i, format) == w + [COMMA] + WriteItems(f, i + 1, format);
    }
  }

  ghost function MembersLeft(f: Value, i: nat, format: Bytes -> Bytes): Bytes
    requires f.Object? && i <= |f.members|
  {
    if i == 0 then WriteMembers(f, 0, format) else if i < |f.members| then [COMMA] + WriteMembers(f, i, format) else []
  }

  lemma MembersNext(f: Value, i: nat, format: Bytes -> Bytes, done: Bytes)
    requires f.Object? && i < |f.members|
    ensures done + MembersLeft(f, i, format) ==
            (done + (if i > 0 then [COMMA] else []) + WriteMember(f.members[i], format)) + MembersLeft(f, i + 1, format)
  {
    hide Write, WriteMember;
    var w := WriteMember(f.members[i], format);
    if i + 1 < |f.members| {
      assert WriteMembers(f, i, format) == w + [COMMA] + WriteMembers(f, i + 1, format);
    }
  }

  /** The comma in front of every item but the first. */
  method Separate(out: Buffer, i: nat, ghost data: Bytes, ghost failed: bool, ghost done: Bytes)
    requires out.Valid() && Appended(data, failed, out.data, out.failed, done, out.memory.reliable)
    modifies out
    ensures out.Valid()
    ensures Appended(data, failed, out.data, out.failed, done + (if i > 0 then [COMMA] else []), out.memory.reliable)
  {
    hide Appended;
    if i > 0 {
      Put(out, [COMMA], data, failed, done);
    } else {
      assert done + [] == done;
    }
  }

  method WriteArray(v: Value, out: Buffer, canonical: bool, format: Bytes -> Bytes)
    requires out.Valid() && v.Array? && Writable(v)
    modifies out
    ensures out.Valid()
    ensures Appended(old(out.data), old(out.failed), out.data, out.failed, Write(Form(v, canonical), format),
            out.memory.reliable)
    decreases v, 1
  {
    hide Appended, Write, WriteItems, Form;
    FormArray(v, canonical);
    ghost var f, data, failed := Form(v, canonical), out.data, out.failed;
    AppendNothing(data, failed, out.memory.reliable);
    Put(out, [OPEN_BRACKET], data, failed, []);
    ghost var done: Bytes := [] + [OPEN_BRACKET];
    ghost var whole := done + ItemsLeft(f, 0, format);
    var i := 0;
    while i < |v.items|
      invariant 0 <= i <= |v.items| && out.Valid()
      invariant Appended(data, failed, out.data, out.failed, done, out.memory.reliable)
      invariant done + ItemsLeft(f, i, format) == whole
    {
      ItemsNext(f, i, format, done);
      Separate(out, i, data, failed, done);
      done := done + (if i > 0 then [COMMA] else []);
      ghost var b, fb := out.data, out.failed;
      assert Writable(v.items[i]);
      WriteValue(v.items[i], out, canonical, format);
      AppendThen(data, failed, b, fb, out.data, out.failed, done, Write(f.items[i], format), out.memory.reliable);
      done := done + Write(f.items[i], format);
      i := i + 1;
    }
    ArrayText(f, format, done, whole);
    Put(out, [CLOSE_BRACKET], data, failed, done);
  }

  lemma ArrayText(f: Value, format: Bytes -> Bytes, done: Bytes, whole: Bytes)
    requires f.Array? && done + ItemsLeft(f, |f.items|, format) == whole &&
             whole == [] + [OPEN_BRACKET] + ItemsLeft(f, 0, format)
    ensures done + [CLOSE_BRACKET] == Write(f, format)
  {
    assert ItemsLeft(f, |f.items|, format) == [];
    assert done == whole == [OPEN_BRACKET] + WriteItems(f, 0, format);
  }

  lemma ObjectText(f: Value, format: Bytes -> Bytes, done: Bytes, whole: Bytes)
    requires f.Object? && done + MembersLeft(f, |f.members|, format) == whole &&
             whole == [] + [OPEN_BRACE] + MembersLeft(f, 0, format)
    ensures done + [CLOSE_BRACE] == Write(f, format)
  {
    assert MembersLeft(f, |f.members|, format) == [];
    assert done == whole == [OPEN_BRACE] + WriteMembers(f, 0, format);
  }

  /** The member's key, a colon and its value. */
  method WriteOne(m: Member, out: Buffer, canonical: bool, format: Bytes -> Bytes, ghost data: Bytes,
                  ghost failed: bool, ghost done: Bytes)
    requires out.Valid() && Writable(m.value) && Appended(data, failed, out.data, out.failed, done, out.memory.reliable)
    modifies out
    ensures out.Valid()
    ensures Appended(data, failed, out.data, out.failed, done +
            WriteMember(Member(m.key, Form(m.value, canonical)), format), out.memory.reliable)
    decreases m
  {
    hide Appended, Write, Form, Quoted, Writable;
    ghost var b, fb := out.data, out.failed;
    WriteEscaped(m.key, out);
    AppendThen(data, failed, b, fb, out.data, out.failed, done, Quoted(m.key), out.memory.reliable);
    Put(out, [COLON], data, failed, done + Quoted(m.key));
    b, fb := out.data, out.failed;
    WriteValue(m.value, out, canonical, format);
    ghost var w := Write(Form(m.value, canonical), format);
    AppendThen(data, failed, b, fb, out.data, out.failed, done + Quoted(m.key) + [COLON], w, out.memory.reliable);
    assert done + Quoted(m.key) + [COLON] + w == done + (Quoted(m.key) + [COLON] + w);
  }

  /** The order to write the members in; none when an allocation for the sort was refused. */
  method MemberOrder(v: Value, out: Buffer, canonical: bool) returns (r: Option<seq<nat>>)
    requires v.Object? && Writable(v)
    ensures r.Some? ==> Visits(v, canonical, r.value)
    ensures r.None? ==> !out.memory.reliable
  {
    hide Form, Canon, LexLe;
    if canonical && |v.members| > 1 {
      var ok := out.memory.Alloc();
      if !ok {
        return None;
      }
      ok := out.memory.Alloc();
      if !ok {
        return None;
      }
      var order := SortKeys(Keys(v.members));
      SortedVisits(v, order[..]);
      return Some(order[..]);
    }
    PlainVisits(v, canonical);
    return Some(Iota(|v.members|));
  }

  method WriteObject(v: Value, out: Buffer, canonical: bool, format: Bytes -> Bytes)
    requires out.Valid() && v.Object? && Writable(v)
    modifies out
    ensures out.Valid()
    ensures Appended(old(out.data), old(out.failed), out.data, out.failed, Write(Form(v, canonical), format),
            out.memory.reliable)
    decreases v, 1
  {
    hide Appended, Write, WriteMembers, WriteMember, Form;
    ghost var f, data, failed := Form(v, canonical), out.data, out.failed;
    AppendNothing(data, failed, out.memory.reliable);
    Put(out, [OPEN_BRACE], data, failed, []);
    var sorted := MemberOrder(v, out, canonical);
    if sorted.None? {
      out.MarkFailed();
      Refused(data, failed, out.data, Write(f, format));
      return;
    }
    var order := sorted.value;
    ghost var done: Bytes := [] + [OPEN_BRACE];
    ghost var whole := done + MembersLeft(f, 0, format);
    var i := 0;
    while i < |v.members|
      invariant 0 <= i <= |v.members| && out.Valid()
      invariant Appended(data, failed, out.data, out.failed, done, out.memory.reliable)
      invariant done + MembersLeft(f, i, format) == whole
    {
      var m := v.members[order[i]];
      MembersNext(f, i, format, done);
      Separate(out, i, data, failed, done);
      done := done + (if i > 0 then [COMMA] else []);
      WriteOne(m, out, canonical, format, data, failed, done);
      done := done + WriteMember(f.members[i], format);
      i := i + 1;
    }
    ObjectText(f, format, done, whole);
    Put(out, [CLOSE_BRACE], data, failed, done);
  }

  lemma Refused(data: Bytes, failed: bool, data': Bytes, text: Bytes)
    ensures Appended(data, failed, data', true, text, false)
  {
  }

  method WriteValue(v: Value, out: Buffer, canonical: bool, format: Bytes -> Bytes)
    requires out.Valid() && Writable(v)
    modifies out
    ensures out.Valid()
    ensures Appended(old(out.data), old(out.failed), out.data, out.failed, Write(Form(v, canonical), format),
            out.memory.reliable)
    decreases v, 2
  {
    hide Appended, Quoted, Form, Decimal, WriteItems, WriteMembers;
    if v.Array? {
      WriteArray(v, out, canonical, format);
      return;
    } else if v.Object? {
      WriteObject(v, out, canonical, format);
      return;
    }
    FormScalar(v, canonical);
    match v {
      case Null => out.Append(NULL);
      case Bool(b) => if b { out.Append(TRUE); } else { out.Append(FALSE); }
      case Int(i) => out.Append(Decimal(i));
      case Real(token) => out.Append(format(token));
      case Text(s) => WriteEscaped(s, out);
    }
  }

  /** The text of v, canonical or in member order. It is refused only when memory is, when the text is past half of
      what can be counted, or when it holds a NUL. */
  method WriteText(v: Value, memory: Memory, canonical: bool, format: Bytes -> Bytes) returns (r: Option<Bytes>)
    requires Writable(v)
    ensures r.Some? ==> r.value == Write(Form(v, canonical), format)
    ensures r.None? ==>
              !memory.reliable || |Write(Form(v, canonical), format)| + 1 > SIZE_MAX / 2 ||
              0 in Write(Form(v, canonical), format)
  {
    hide Write, Form, Writable;
    var buf := new Buffer(memory);
    WriteValue(v, buf, canonical, format);
    assert [] + Write(Form(v, canonical), format) == Write(Form(v, canonical), format);
    r := buf.DetachString();
  }

  // ----- the text never holds a NUL

  lemma {:induction false} EscapedPlain(s: Bytes)
    ensures NoNul(Escaped(s))
  {
    if s != [] {
      EscapedPlain(s[1..]);
      assert NoNul(EscapeByte(s[0]));
    }
  }

  lemma {:induction false} ItemsPlain(f: Value, i: nat, format: Bytes -> Bytes)
    requires f.Array? && i <= |f.items| && FloatFree(f)
    ensures NoNul(WriteItems(f, i, format))
    decreases f, |f.items| - i
  {
    hide Write;
    if i < |f.items| {
      TextPlain(f.items[i], format);
      ItemsPlain(f, i + 1, format);
    }
  }

  lemma {:induction false} MembersPlain(f: Value, i: nat, format: Bytes -> Bytes)
    requires f.Object? && i <= |f.members| && FloatFree(f)
    ensures NoNul(WriteMembers(f, i, format))
    decreases f, |f.members| - i
  {
    hide Write, Escaped;
    if i < |f.members| {
      EscapedPlain(f.members[i].key);
      TextPlain(f.members[i].value, format);
      MembersPlain(f, i + 1, format);
    }
  }

  lemma {:induction false} TextPlain(v: Value, format: Bytes -> Bytes)
    requires FloatFree(v)
    ensures NoNul(Write(v, format))
    decreases v
  {
    match v {
      case Text(s) => EscapedPlain(s);
      case Array(items) => ItemsPlain(v, 0, format);
      case Object(m) => MembersPlain(v, 0, format);
      case Int(i) => DecimalPlain(i);
      case _ =>
    }
  }

  lemma DecimalPlain(i: int)
    ensures NoNul(Decimal(i))
  {
    hide DecimalNat;
  }
}
