/** Building the canonical fingerprint string: validation, sorting, the neighbour check and the join. */
module FingerprintBuild {
  import opened Limbs
  import opened Utf8
  import opened Json
  import opened KeySort
  import opened Buf
  import opened Fingerprint

  datatype Built<T> = Done(value: T) | Invalid | NoMemory

  // ----- tamga_fp_label_is_valid

  method LabelIsValid(name: Bytes) returns (ok: bool)
    ensures ok <==> LabelValid(name)
  {
    var i := 0;
    while i < |name|
      invariant 0 <= i <= |name|
      invariant forall k :: 0 <= k < i ==> LabelByte(name[k])
    {
      if !LabelByte(name[i]) {
        return false;
      }
      i := i + 1;
    }
    return i > 0;
  }

  // ----- trimming

  method TrimStart(value: Bytes) returns (start: nat)
    ensures start <= |value| && value[start..] == TrimLeft(value)
  {
    start := 0;
    assert value[0..] == value;
    while start < |value| && IsSpace(value[start])
      invariant 0 <= start <= |value|
      invariant TrimLeft(value[start..]) == TrimLeft(value)
    {
      assert value[start..][1..] == value[start + 1..];
      start := start + 1;
    }
  }

  method TrimEnd(value: Bytes, start: nat) returns (end: nat)
    requires start <= |value|
    ensures start <= end <= |value| && value[start..end] == TrimRight(value[start..])
  {
    end := |value|;
    ghost var left := value[start..];
    assert value[start..end] == left;
    while end > start && IsSpace(value[end - 1])
      invariant start <= end <= |value|
      invariant TrimRight(value[start..end]) == TrimRight(left)
    {
      ghost var s := value[start..end];
      assert s[..|s| - 1] == value[start..end - 1];
      end := end - 1;
    }
  }

  method TrimBounds(value: Bytes) returns (start: nat, end: nat)
    ensures start <= end <= |value| && value[start..end] == Trim(value)
  {
    hide TrimLeft, TrimRight;
    start := TrimStart(value);
    end := TrimEnd(value, start);
  }

  // ----- tamga_fp_build_component

  ghost predicate TooLong(n: nat) { n + 1 > SIZE_MAX / 2 }

  method BuildComponent(e: Entry, memory: Memory) returns (r: Built<Component>)
    ensures r.Done? ==> EntryValid(e) && r.value == Make(e)
    ensures r.Invalid? ==> !EntryValid(e)
    ensures r.NoMemory? ==> !memory.reliable || TooLong(|Make(e).text|)
  {
    hide Trim, LabelValid;
    var ok := LabelIsValid(e.name);
    if !ok {
      return Invalid;
    }
    var start, end := TrimBounds(e.value);
    var i := start;
    while i < end
      invariant start <= i <= end
      invariant forall k :: start <= k < i ==> !IsControl(e.value[k])
    {
      if IsControl(e.value[i]) {
        ControlAt(e.value, start, end, i);
        return Invalid;
      }
      i := i + 1;
    }
    assert EntryValid(e) by { NoControl(e.value, start, end); }
    var buf := new Buffer(memory);
    buf.Append(e.name);
    ghost var b, f := buf.data, buf.failed;
    buf.Append([EQUALS]);
    AppendThen([], false, b, f, buf.data, buf.failed, e.name, [EQUALS], memory.reliable);
    b, f := buf.data, buf.failed;
    buf.Append(e.value[start..end]);
    AppendThen([], false, b, f, buf.data, buf.failed, e.name + [EQUALS], e.value[start..end], memory.reliable);
    var text := buf.DetachString();
    PlainText(e);
    if text.None? {
      return NoMemory;
    }
    return Done(Component(text.value, |e.name|));
  }

  lemma ControlAt(value: Bytes, start: nat, end: nat, i: nat)
    requires start <= i < end <= |value| && value[start..end] == Trim(value) && IsControl(value[i])
    ensures !ValueValid(value)
  {
    assert Trim(value)[i - start] == value[i];
  }

  lemma NoControl(value: Bytes, start: nat, end: nat)
    requires start <= end <= |value| && value[start..end] == Trim(value) &&
               forall k :: start <= k < end ==> !IsControl(value[k])
    ensures ValueValid(value)
  {
  }

  lemma PlainText(e: Entry)
    requires EntryValid(e)
    ensures NoNul(Make(e).text)
  {
    hide Trim;
  }

  // ----- the sort, known only by what it promises

  function InsertText(x: Component, s: seq<Component>): seq<Component>
  {
    if s == [] then [x] else if LexLe(x.text, s[0].text) then [x] + s else [s[0]] + InsertText(x, s[1..])
  }

  lemma {:induction false} InsertTextSorts(x: Component, s: seq<Component>)
    requires TextSorted(s)
    ensures TextSorted(InsertText(x, s)) && multiset(InsertText(x, s)) == multiset{x} + multiset(s)
  {
    hide LexLe;
    if s != [] {
      assert s == [s[0]] + s[1..];
      if LexLe(x.text, s[0].text) {
        forall j | 0 < j < |s|
          ensures LexLe(x.text, s[j].text)
        {
          LexTrans(x.text, s[0].text, s[j].text);
        }
      } else {
        LexTotal(x.text, s[0].text);
        InsertTextSorts(x, s[1..]);
        var t := InsertText(x, s[1..]);
        forall j | 0 <= j < |t|
          ensures LexLe(s[0].text, t[j].text)
        {
          assert t[j] in multiset(t);
          assert t[j] == x || t[j] in s[1..];
        }
      }
    }
  }

  /** Puts the components in byte order; how is left open. */
  method Sort(a: array<Component>)
    modifies a
    ensures TextSorted(a[..]) && multiset(a[..]) == multiset(old(a[..]))
  {
    hide LexLe, InsertText;
    ghost var s := a[..];
    var sorted: seq<Component> := [];
    var i := 0;
    while i < a.Length
      invariant 0 <= i <= a.Length && a[..] == s
      invariant TextSorted(sorted) && multiset(sorted) == multiset(s[..i]) && |sorted| == i
    {
      InsertTextSorts(a[i], sorted);
      ghost var before := sorted;
      sorted := InsertText(a[i], sorted);
      assert s[..i + 1] == s[..i] + [s[i]];
      assert |multiset(sorted)| == |sorted| && |multiset(before)| == |before|;
      i := i + 1;
    }
    assert s[..i] == s;
    forall k | 0 <= k < a.Length { a[k] := sorted[k]; }
    assert a[..] == sorted;
  }

  // ----- tamga_fp_reject_duplicates

  /** Compares each component with the one before it. */
  method HasDuplicates(s: seq<Component>) returns (found: bool)
    requires TextSorted(s) && AllWellMade(s)
    ensures found <==> exists i, j :: 0 <= i < j < |s| && Name(s[i]) == Name(s[j])
  {
    hide LexLe, WellMade;
    AdjacentExact(s);
    var i := 1;
    while i < |s|
      invariant 1 <= i
      invariant forall k :: 0 < k < i && k < |s| ==> Name(s[k - 1]) != Name(s[k])
    {
      if s[i - 1].nameLen == s[i].nameLen && Name(s[i - 1]) == Name(s[i]) {
        return true;
      }
      SameNameSameLength(s, i);
      i := i + 1;
    }
    return false;
  }

  lemma SameNameSameLength(s: seq<Component>, i: nat)
    requires 0 < i < |s| && AllWellMade(s)
    ensures Name(s[i - 1]) == Name(s[i]) ==> s[i - 1].nameLen == s[i].nameLen
  {
    assert WellMade(s[i - 1]) && WellMade(s[i]);
  }

  // ----- tamga_fingerprint_build_canonical

  /** Every component, or the first failure. */
  method BuildAll(entries: seq<Entry>, memory: Memory) returns (r: Built<array<Component>>)
    ensures r.Done? ==>
              fresh(r.value) && r.value[..] == MakeAll(entries) &&
              forall i :: 0 <= i < |entries| ==> EntryValid(entries[i])
    ensures r.Invalid? ==> !Accepted(entries)
    ensures r.NoMemory? ==> !memory.reliable || exists i :: 0 <= i < |entries| && TooLong(|Make(entries[i]).text|)
  {
    hide Make, EntryValid;
    var ok := memory.Alloc();
    if !ok {
      return NoMemory;
    }
    var a := new Component[|entries|](_ => Component([], 0));
    var i := 0;
    while i < |entries|
      invariant 0 <= i <= |entries|
      invariant forall k :: 0 <= k < i ==> EntryValid(entries[k]) && a[k] == Make(entries[k])
    {
      var c := BuildComponent(entries[i], memory);
      if c.Invalid? {
        return Invalid;
      }
      if c.NoMemory? {
        return NoMemory;
      }
      a[i] := c.value;
      i := i + 1;
    }
    assert a[..] == MakeAll(entries);
    return Done(a);
  }

  lemma {:induction false} JoinLast(s: seq<Bytes>, x: Bytes)
    ensures Join(s + [x]) == Join(s) + ([SEPARATOR] + x)
  {
    if s == [] {
      assert s + [x] == [x] && [x][1..] == [];
      assert Join([x]) == [SEPARATOR] + x + [];
    } else {
      assert (s + [x])[1..] == s[1..] + [x];
      JoinLast(s[1..], x);
    }
  }

  /** The domain, then every text after a separator. */
  method JoinAll(s: seq<Component>, memory: Memory) returns (r: Option<Bytes>)
    requires AllWellMade(s)
    ensures r.Some? ==> r.value == DOMAIN + Join(Texts(s))
    ensures r.None? ==> !memory.reliable || TooLong(|DOMAIN + Join(Texts(s))|)
  {
    hide Join, WellMade, Appended, DOMAIN;
    var buf := new Buffer(memory);
    buf.Append(DOMAIN);
    var i := 0;
    assert Texts(s)[..0] == [];
    JoinNone();
    while i < |s|
      invariant 0 <= i <= |s| && buf.Valid() && buf.memory == memory
      invariant Appended([], false, buf.data, buf.failed, DOMAIN + Join(Texts(s)[..i]), memory.reliable)
    {
      ghost var done, b, f := DOMAIN + Join(Texts(s)[..i]), buf.data, buf.failed;
      buf.Append([SEPARATOR]);
      AppendThen([], false, b, f, buf.data, buf.failed, done, [SEPARATOR], memory.reliable);
      b, f := buf.data, buf.failed;
      buf.Append(s[i].text);
      AppendThen([], false, b, f, buf.data, buf.failed, done + [SEPARATOR], s[i].text, memory.reliable);
      JoinLast(Texts(s)[..i], s[i].text);
      assert Texts(s)[..i + 1] == Texts(s)[..i] + [s[i].text];
      assert done + [SEPARATOR] + s[i].text == DOMAIN + (Join(Texts(s)[..i]) + ([SEPARATOR] + s[i].text));
      i := i + 1;
    }
    assert Texts(s)[..|s|] == Texts(s);
    CanonicalPlain(s);
    JoinedBytes(buf.data, buf.failed, DOMAIN + Join(Texts(s)), memory.reliable);
    r := buf.DetachString();
  }

  lemma JoinNone()
    ensures DOMAIN + Join([]) == DOMAIN
  {
  }

  lemma JoinedBytes(data: Bytes, failed: bool, text: Bytes, reliable: bool)
    requires Appended([], false, data, failed, text, reliable)
    ensures !failed ==> data == text
    ensures failed ==> !reliable || TooLong(|text|)
  {
  }

  lemma {:induction false} JoinPlain(s: seq<Bytes>)
    requires forall i :: 0 <= i < |s| ==> NoNul(s[i])
    ensures NoNul(Join(s))
  {
    if s != [] {
      JoinPlain(s[1..]);
    }
  }

  lemma CanonicalPlain(s: seq<Component>)
    requires AllWellMade(s)
    ensures NoNul(DOMAIN + Join(Texts(s)))
  {
    hide Join;
    forall i | 0 <= i < |s|
      ensures NoNul(Texts(s)[i])
    {
      assert WellMade(s[i]);
      WellMadePlain(s[i]);
    }
    JoinPlain(Texts(s));
    assert NoNul(DOMAIN);
  }

  lemma WellMadePlain(c: Component)
    requires WellMade(c)
    ensures NoNul(c.text)
  {
    forall i | 0 <= i < |c.text|
      ensures c.text[i] != 0
    {
      if i < c.nameLen {
        assert c.text[..c.nameLen][i] == c.text[i];
      }
    }
  }

  /** The canonical string of an accepted list; every other list is refused. */
  method BuildCanonical(entries: seq<Entry>, memory: Memory) returns (r: Built<Bytes>)
    ensures r.Done? ==> Accepted(entries) && IsCanonical(entries, r.value)
    ensures r.Invalid? ==> !Accepted(entries)
    ensures r.NoMemory? && memory.reliable ==>
              (exists i :: 0 <= i < |entries| && TooLong(|Make(entries[i]).text|)) ||
              exists c :: IsCanonical(entries, c) && TooLong(|c|)
  {
    hide EntryValid, Make, LexLe, WellMade, Join, DOMAIN;
    if |entries| == 0 {
      return Invalid;
    }
    var built := BuildAll(entries, memory);
    if built.Invalid? {
      return Invalid;
    }
    if built.NoMemory? {
      return NoMemory;
    }
    var a := built.value;
    Sort(a);
    assert Arranges(a[..], entries);
    ArrangedWellMade(a[..], entries);
    var duplicates := HasDuplicates(a[..]);
    DuplicateIff(a[..], entries);
    if duplicates {
      return Invalid;
    }
    var text := JoinAll(a[..], memory);
    assert IsCanonical(entries, DOMAIN + Join(Texts(a[..])));
    if text.None? {
      return NoMemory;
    }
    return Done(text.value);
  }

  /** The sorted components repeat a label exactly when the entries do. */
  lemma DuplicateIff(s: seq<Component>, entries: seq<Entry>)
    requires Arranges(s, entries) && forall i :: 0 <= i < |entries| ==> EntryValid(entries[i])
    ensures (exists i, j :: 0 <= i < j < |s| && Name(s[i]) == Name(s[j])) <==>
            (exists i, j :: 0 <= i < j < |entries| && entries[i].name == entries[j].name)
  {
    hide EntryValid, Make, LexLe, WellMade, Name, Arranges;
    if i, j :| 0 <= i < j < |s| && Name(s[i]) == Name(s[j]) {
      DuplicateBack(s, entries, i, j);
    }
    if i, j :| 0 <= i < j < |entries| && entries[i].name == entries[j].name {
      DuplicateForth(s, entries, i, j);
    }
  }

  lemma DuplicateBack(s: seq<Component>, entries: seq<Entry>, i: nat, j: nat)
    requires Arranges(s, entries) && (forall i :: 0 <= i < |entries| ==> EntryValid(entries[i])) && i < j < |s| &&
             Name(s[i]) == Name(s[j])
    ensures exists k, l :: 0 <= k < l < |entries| && entries[k].name == entries[l].name
  {
    hide EntryValid, Make, LexLe, Name;
    if s[i] == s[j] {
      TwiceMade(s, entries, i, j);
    } else {
      ArrangedElement(s, entries, s[i]);
      ArrangedElement(s, entries, s[j]);
      var k :| 0 <= k < |entries| && Make(entries[k]) == s[i];
      var l :| 0 <= l < |entries| && Make(entries[l]) == s[j];
      MadeWell(entries[k]);
      MadeWell(entries[l]);
      if k < l {
        assert entries[k].name == entries[l].name;
      } else {
        assert entries[l].name == entries[k].name;
      }
    }
  }

  lemma DuplicateForth(s: seq<Component>, entries: seq<Entry>, i: nat, j: nat)
    requires Arranges(s, entries) && (forall i :: 0 <= i < |entries| ==> EntryValid(entries[i]))
    requires i < j < |entries| && entries[i].name == entries[j].name
    ensures exists k, l :: 0 <= k < l < |s| && Name(s[k]) == Name(s[l])
  {
    hide EntryValid, LexLe, Name, Make;
    var m := MakeAll(entries);
    MadeWell(entries[i]);
    MadeWell(entries[j]);
    if m[i] == m[j] {
      assert multiset(m)[m[i]] >= 2 by {
        assert m == m[..j] + m[j..];
        assert m[i] in m[..j] && m[j] in m[j..];
      }
      var k, l := TwoPlaces(s, m[i]);
      assert Name(s[k]) == Name(s[l]);
    } else {
      ArrangedElement(s, entries, m[i]);
      ArrangedElement(s, entries, m[j]);
      var k :| 0 <= k < |s| && s[k] == m[i];
      var l :| 0 <= l < |s| && s[l] == m[j];
      if k < l {
        assert Name(s[k]) == Name(s[l]);
      } else {
        assert Name(s[l]) == Name(s[k]);
      }
    }
  }
}
