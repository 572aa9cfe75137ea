/** Machine fingerprints: which component lists are accepted, and what their canonical string says about them. */
module Fingerprint {
  import opened Limbs
  import opened Utf8
  import opened KeySort

  /** A label and the value it was given. */
  datatype Entry = Entry(name: Bytes, value: Bytes)

  const EQUALS: u8 := 0x3D
  const SEPARATOR: u8 := 0x1F

  /** "tamga-fingerprint-v1". */
  const DOMAIN: Bytes := [
    0x74, 0x61, 0x6D, 0x67, 0x61, 0x2D, 0x66, 0x69, 0x6E, 0x67, 0x65, 0x72, 0x70, 0x72, 0x69, 0x6E,
    0x74, 0x2D, 0x76, 0x31]

  predicate IsSpace(c: u8) { c == 0x20 || 0x09 <= c <= 0x0D }

  predicate IsControl(c: u8) { c <= 0x1F || c == 0x7F }

  /** Printable ASCII without the equals sign. */
  predicate LabelByte(c: u8) { 0x21 <= c <= 0x7E && c != EQUALS }

  predicate LabelValid(name: Bytes) { name != [] && forall i :: 0 <= i < |name| ==> LabelByte(name[i]) }

  function TrimLeft(s: Bytes): (r: Bytes)
    ensures |r| <= |s|
  {
    if s != [] && IsSpace(s[0]) then TrimLeft(s[1..]) else s
  }

  function TrimRight(s: Bytes): (r: Bytes)
    ensures |r| <= |s|
  {
    if s != [] && IsSpace(s[|s| - 1]) then TrimRight(s[..|s| - 1]) else s
  }

  function Trim(s: Bytes): Bytes { TrimRight(TrimLeft(s)) }

  predicate ValueValid(value: Bytes) { forall i :: 0 <= i < |Trim(value)| ==> !IsControl(Trim(value)[i]) }

  predicate EntryValid(e: Entry) { LabelValid(e.name) && ValueValid(e.value) }

  /** "label=trimmed value", and how long the label is. */
  datatype Component = Component(text: Bytes, nameLen: nat)

  function Make(e: Entry): Component { Component(e.name + [EQUALS] + Trim(e.value), |e.name|) }

  function MakeAll(entries: seq<Entry>): (r: seq<Component>)
    ensures |r| == |entries| && forall i :: 0 <= i < |r| ==> r[i] == Make(entries[i])
  {
    seq(|entries|, i requires 0 <= i < |entries| => Make(entries[i]))
  }

  /** What every component that was built from a valid entry satisfies. */
  ghost predicate WellMade(c: Component)
  {
    c.nameLen < |c.text| && c.text[c.nameLen] == EQUALS && LabelValid(c.text[..c.nameLen]) &&
    forall i :: c.nameLen < i < |c.text| ==> !IsControl(c.text[i])
  }

  function Name(c: Component): Bytes { if c.nameLen <= |c.text| then c.text[..c.nameLen] else [] }

  lemma MadeWell(e: Entry)
    requires EntryValid(e)
    ensures WellMade(Make(e)) && Name(Make(e)) == e.name && Make(e).text[|e.name| + 1..] == Trim(e.value)
  {
    hide Trim;
    var c := Make(e);
    assert c.text[..c.nameLen] == e.name;
  }

  /** At least one component, each of them valid, no label twice. */
  ghost predicate Accepted(entries: seq<Entry>)
  {
    entries != [] && (forall i :: 0 <= i < |entries| ==> EntryValid(entries[i])) &&
    forall i, j :: 0 <= i < j < |entries| ==> entries[i].name != entries[j].name
  }

  // ----- what a text says about its component

  /** The first equals sign is where the label ends, so the text alone determines the component. */
  lemma TextDetermines(a: Component, b: Component)
    requires WellMade(a) && WellMade(b) && a.text == b.text
    ensures a == b
  {
    EqualsFirst(a, b.nameLen);
    EqualsFirst(b, a.nameLen);
  }

  lemma EqualsFirst(c: Component, k: nat)
    requires WellMade(c)
    ensures k < c.nameLen ==> c.text[k] != EQUALS
  {
    if k < c.nameLen {
      assert c.text[..c.nameLen][k] == c.text[k];
    }
  }

  /** A text that starts with a label and an equals sign has that label. */
  lemma LabelOfPrefix(c: Component, name: Bytes)
    requires WellMade(c) && LabelValid(name) && name + [EQUALS] <= c.text
    ensures Name(c) == name
  {
    var t := c.text;
    var d := Component(t, |name|);
    assert t[|name|] == (name + [EQUALS])[|name|] == EQUALS;
    assert t[..|name|] == (name + [EQUALS])[..|name|] == name;
    EqualsFirst(c, |name|);
    if c.nameLen < |name| {
      PrefixByte(c, name);
      assert false;
    }
  }

  lemma PrefixByte(c: Component, name: Bytes)
    requires c.nameLen < |name| && c.nameLen < |c.text| && name + [EQUALS] <= c.text
    ensures c.text[c.nameLen] == name[c.nameLen]
  {
  }

  // ----- sorting brings equal labels together

  /** What lies between two strings with a common prefix has that prefix. */
  lemma {:induction false} PrefixBetween(p: Bytes, a: Bytes, x: Bytes, b: Bytes)
    requires p <= a && p <= b && LexLe(a, x) && LexLe(x, b)
    ensures p <= x
    decreases |p|
  {
    if p != [] {
      assert p[0] == a[0] == b[0];
      assert x[0] == p[0];
      assert p[1..] <= a[1..] && p[1..] <= b[1..];
      PrefixBetween(p[1..], a[1..], x[1..], b[1..]);
    }
  }

  ghost predicate TextSorted(s: seq<Component>) { forall i, j :: 0 <= i < j < |s| ==> LexLe(s[i].text, s[j].text) }

  ghost predicate AllWellMade(s: seq<Component>) { forall i :: 0 <= i < |s| ==> WellMade(s[i]) }

  /** After sorting, looking only at neighbours finds a repeated label exactly when there is one. */
  lemma AdjacentExact(s: seq<Component>)
    requires TextSorted(s) && AllWellMade(s)
    ensures (exists i :: 0 < i < |s| && Name(s[i - 1]) == Name(s[i])) <==>
            (exists i, j :: 0 <= i < j < |s| && Name(s[i]) == Name(s[j]))
  {
    hide LexLe, Name, WellMade;
    if i, j :| 0 <= i < j < |s| && Name(s[i]) == Name(s[j]) {
      NeighbourShares(s, i, j);
      assert Name(s[i + 1 - 1]) == Name(s[i + 1]);
    }
    if i :| 0 < i < |s| && Name(s[i - 1]) == Name(s[i]) {
      var k := i - 1;
      assert Name(s[k]) == Name(s[i]);
    }
  }

  lemma NeighbourShares(s: seq<Component>, i: nat, j: nat)
    requires TextSorted(s) && AllWellMade(s) && i < j < |s| && Name(s[i]) == Name(s[j])
    ensures Name(s[i]) == Name(s[i + 1])
  {
    hide LexLe;
    if i + 1 < j {
      var p := Name(s[i]) + [EQUALS];
      NamePrefix(s[i]);
      NamePrefix(s[j]);
      PrefixBetween(p, s[i].text, s[i + 1].text, s[j].text);
      LabelOfPrefix(s[i + 1], Name(s[i]));
    }
  }

  lemma NamePrefix(c: Component)
    requires WellMade(c)
    ensures Name(c) + [EQUALS] <= c.text && LabelValid(Name(c))
  {
    assert c.text[..c.nameLen + 1] == Name(c) + [EQUALS];
  }

  // ----- joining

  function Join(texts: seq<Bytes>): Bytes
  {
    if texts == [] then [] else [SEPARATOR] + texts[0] + Join(texts[1..])
  }

  ghost predicate NoSeparator(s: Bytes) { forall i :: 0 <= i < |s| ==> s[i] != SEPARATOR }

  /** With no separator inside, the joined string determines the parts. */
  lemma {:induction false} JoinInjective(a: seq<Bytes>, b: seq<Bytes>)
    requires (forall i :: 0 <= i < |a| ==> NoSeparator(a[i])) && (forall i :: 0 <= i < |b| ==> NoSeparator(b[i]))
    requires Join(a) == Join(b)
    ensures a == b
    decreases |a|
  {
    JoinEmpty(a);
    JoinEmpty(b);
    if a != [] {
      var x, y := a[0], b[0];
      var p, q := Join(a[1..]), Join(b[1..]);
      assert Join(a)[1..] == x + p && Join(b)[1..] == y + q;
      HeadsMatch(x, p, y, q, a[1..], b[1..]);
      JoinInjective(a[1..], b[1..]);
      assert a == [x] + a[1..] && b == [y] + b[1..];
    }
  }

  lemma JoinEmpty(a: seq<Bytes>)
    ensures Join(a) == [] <==> a == []
  {
  }

  lemma JoinHead(a: seq<Bytes>)
    ensures Join(a) == [] || Join(a)[0] == SEPARATOR
  {
  }

  lemma Overlap(x: Bytes, p: Bytes, y: Bytes, q: Bytes)
    requires x + p == y + q
    ensures |x| < |y| ==> |p| > 0 && p[0] == y[|x|]
  {
    if |x| < |y| {
      assert (x + p)[|x|] == (y + q)[|x|];
    }
  }

  lemma HeadsMatch(x: Bytes, p: Bytes, y: Bytes, q: Bytes, a: seq<Bytes>, b: seq<Bytes>)
    requires NoSeparator(x) && NoSeparator(y) && x + p == y + q && p == Join(a) && q == Join(b)
    ensures x == y && p == q
  {
    hide Join;
    JoinHead(a);
    JoinHead(b);
    Overlap(x, p, y, q);
    Overlap(y, q, x, p);
    assert (x + p)[..|x|] == x && (y + q)[..|y|] == y;
    assert (x + p)[|x|..] == p && (y + q)[|y|..] == q;
  }

  lemma WellMadeNoSeparator(c: Component)
    requires WellMade(c)
    ensures NoSeparator(c.text)
  {
    forall i | 0 <= i < |c.text|
      ensures c.text[i] != SEPARATOR
    {
      if i < c.nameLen {
        assert c.text[..c.nameLen][i] == c.text[i];
      }
    }
  }

  // ----- the canonical string

  function Texts(s: seq<Component>): (r: seq<Bytes>)
    ensures |r| == |s| && forall i :: 0 <= i < |r| ==> r[i] == s[i].text
  {
    seq(|s|, i requires 0 <= i < |s| => s[i].text)
  }

  /** The domain and the texts in byte order, each after a separator. */
  ghost predicate IsCanonical(entries: seq<Entry>, canonical: Bytes)
  {
    exists s: seq<Component> :: Arranges(s, entries) && canonical == DOMAIN + Join(Texts(s))
  }

  /** The components of the entries, in byte order. */
  ghost predicate Arranges(s: seq<Component>, entries: seq<Entry>)
  {
    TextSorted(s) && multiset(s) == multiset(MakeAll(entries))
  }

  lemma ArrangedElement(s: seq<Component>, entries: seq<Entry>, c: Component)
    requires Arranges(s, entries)
    ensures c in s <==> exists i :: 0 <= i < |entries| && Make(entries[i]) == c
    ensures |s| == |entries|
  {
    hide LexLe, Make;
    var m := MakeAll(entries);
    assert c in s <==> c in multiset(s);
    assert c in m <==> c in multiset(m);
    assert |multiset(s)| == |s| && |multiset(m)| == |m|;
  }

  lemma ArrangedWellMade(s: seq<Component>, entries: seq<Entry>)
    requires Arranges(s, entries) && forall i :: 0 <= i < |entries| ==> EntryValid(entries[i])
    ensures AllWellMade(s)
  {
    hide LexLe, Make, WellMade, EntryValid;
    forall i | 0 <= i < |s|
      ensures WellMade(s[i])
    {
      ArrangedElement(s, entries, s[i]);
      var k :| 0 <= k < |entries| && Make(entries[k]) == s[i];
      MadeWell(entries[k]);
    }
  }

  /** The pairs of a label and a trimmed value. */
  ghost function Pairs(entries: seq<Entry>): set<(Bytes, Bytes)>
  {
    set i | 0 <= i < |entries| :: (entries[i].name, Trim(entries[i].value))
  }

  lemma MakeIsPair(a: Entry, b: Entry)
    requires EntryValid(a) && EntryValid(b)
    ensures Make(a) == Make(b) <==> a.name == b.name && Trim(a.value) == Trim(b.value)
  {
    hide Trim;
    MadeWell(a);
    MadeWell(b);
  }

  lemma SameComponents(a: seq<Entry>, b: seq<Entry>, i: nat)
    requires Pairs(a) == Pairs(b) && i < |a|
    ensures exists j :: 0 <= j < |b| && Make(b[j]) == Make(a[i])
  {
    hide Trim;
    var p := (a[i].name, Trim(a[i].value));
    assert p in Pairs(a);
    assert p in Pairs(b);
    var j :| 0 <= j < |b| && (b[j].name, Trim(b[j].value)) == p;
    assert Make(b[j]) == Make(a[i]);
  }

  // ----- strictly sorted components are determined by their elements

  ghost predicate Strict(s: seq<Component>)
  {
    forall i, j :: 0 <= i < j < |s| ==> LexLe(s[i].text, s[j].text) && s[i].text != s[j].text
  }

  lemma StrictTail(s: seq<Component>, c: Component)
    requires Strict(s) && s != []
    ensures Strict(s[1..]) && (c in s[1..] <==> c in s && c != s[0])
    ensures c in s[1..] ==> LexLe(s[0].text, c.text) && s[0].text != c.text
  {
    hide LexLe;
    assert s == [s[0]] + s[1..];
  }

  lemma {:induction false} StrictUnique(a: seq<Component>, b: seq<Component>)
    requires Strict(a) && Strict(b) && forall c :: c in a <==> c in b
    ensures a == b
  {
    hide LexLe, Strict;
    if a == [] {
      if b != [] {
        FirstIn(b);
        assert false;
      }
    } else {
      FirstIn(a);
      StrictFirst(a, b);
      forall c
        ensures c in a[1..] <==> c in b[1..]
      {
        StrictTail(a, c);
        StrictTail(b, c);
      }
      StrictTail(a, a[0]);
      StrictTail(b, b[0]);
      StrictUnique(a[1..], b[1..]);
      assert a == [a[0]] + a[1..] && b == [b[0]] + b[1..];
    }
  }

  lemma FirstIn(s: seq<Component>)
    requires s != []
    ensures s[0] in s
  {
  }

  lemma StrictFirst(a: seq<Component>, b: seq<Component>)
    requires Strict(a) && Strict(b) && a != [] && b != [] && a[0] in b && b[0] in a
    ensures a[0] == b[0]
  {
    hide LexLe, Strict;
    if a[0] != b[0] {
      StrictTail(a, b[0]);
      StrictTail(b, a[0]);
      LexAntisym(a[0].text, b[0].text);
      assert false;
    }
  }

  lemma ArrangedStrict(s: seq<Component>, entries: seq<Entry>)
    requires Arranges(s, entries) && Accepted(entries)
    ensures Strict(s)
  {
    hide LexLe, WellMade, EntryValid;
    ArrangedWellMade(s, entries);
    forall i, j | 0 <= i < j < |s|
      ensures s[i].text != s[j].text
    {
      if s[i].text == s[j].text {
        TextDetermines(s[i], s[j]);
        TwiceMade(s, entries, i, j);
        assert false;
      }
    }
  }

  /** A component that stands twice would need two entries with its label. */
  lemma TwiceMade(s: seq<Component>, entries: seq<Entry>, i: nat, j: nat)
    requires Arranges(s, entries) && (forall k :: 0 <= k < |entries| ==> EntryValid(entries[k])) && i < j < |s| &&
             s[i] == s[j]
    ensures exists k, l :: 0 <= k < l < |entries| && entries[k].name == entries[l].name
  {
    hide LexLe, EntryValid, Make;
    var m, c := MakeAll(entries), s[i];
    assert multiset(s)[c] >= 2 by {
      assert s == s[..j] + s[j..];
      assert c in s[..j] && c in s[j..];
    }
    var k, l := TwoPlaces(m, c);
    MadeWell(entries[k]);
    MadeWell(entries[l]);
  }

  lemma {:induction false} TwoPlaces(m: seq<Component>, c: Component) returns (k: nat, l: nat)
    requires multiset(m)[c] >= 2
    ensures k < l < |m| && m[k] == m[l] == c
  {
    assert c in m;
    var t := m[1..];
    assert m == [m[0]] + t;
    if m[0] == c {
      assert c in t;
      var x :| 0 <= x < |t| && t[x] == c;
      k, l := 0, x + 1;
    } else {
      k, l := TwoPlaces(t, c);
      k, l := k + 1, l + 1;
    }
  }

  /** Two accepted component lists give the same string if and only if their label-to-value maps are equal. */
  lemma CanonicalIff(a: seq<Entry>, b: seq<Entry>, ca: Bytes, cb: Bytes)
    requires Accepted(a) && Accepted(b) && IsCanonical(a, ca) && IsCanonical(b, cb)
    ensures ca == cb <==> Pairs(a) == Pairs(b)
  {
    hide LexLe, EntryValid, Make, Join, DOMAIN, Arranges, Pairs;
    var s: seq<Component> :| Arranges(s, a) && ca == DOMAIN + Join(Texts(s));
    var t: seq<Component> :| Arranges(t, b) && cb == DOMAIN + Join(Texts(t));
    if Pairs(a) == Pairs(b) {
      SamePairsSameOrder(a, b, s, t);
    }
    if ca == cb {
      assert ca[|DOMAIN|..] == Join(Texts(s)) && cb[|DOMAIN|..] == Join(Texts(t));
      SameStringSamePairs(a, b, s, t);
    }
  }

  lemma SamePairsSameOrder(a: seq<Entry>, b: seq<Entry>, s: seq<Component>, t: seq<Component>)
    requires Accepted(a) && Accepted(b) && Arranges(s, a) && Arranges(t, b) && Pairs(a) == Pairs(b)
    ensures s == t
  {
    hide LexLe, EntryValid, Make, Arranges, Pairs;
    ArrangedStrict(s, a);
    ArrangedStrict(t, b);
    forall c
      ensures c in s <==> c in t
    {
      ArrangedElement(s, a, c);
      ArrangedElement(t, b, c);
      if c in s {
        var i :| 0 <= i < |a| && Make(a[i]) == c;
        SameComponents(a, b, i);
      }
      if c in t {
        var i :| 0 <= i < |b| && Make(b[i]) == c;
        SameComponents(b, a, i);
      }
    }
    StrictUnique(s, t);
  }

  lemma SameStringSamePairs(a: seq<Entry>, b: seq<Entry>, s: seq<Component>, t: seq<Component>)
    requires Accepted(a) && Accepted(b) && Arranges(s, a) && Arranges(t, b) && Join(Texts(s)) == Join(Texts(t))
    ensures Pairs(a) == Pairs(b)
  {
    hide LexLe, EntryValid, Make, Arranges, Join, WellMade, Trim;
    ArrangedWellMade(s, a);
    ArrangedWellMade(t, b);
    SplitBack(s, t);
    HalfPairs(a, b, s);
    HalfPairs(b, a, s);
  }

  lemma SplitBack(s: seq<Component>, t: seq<Component>)
    requires AllWellMade(s) && AllWellMade(t) && Join(Texts(s)) == Join(Texts(t))
    ensures s == t
  {
    hide Join, WellMade;
    forall i | 0 <= i < |s|
      ensures NoSeparator(Texts(s)[i])
    {
      WellMadeNoSeparator(s[i]);
    }
    forall i | 0 <= i < |t|
      ensures NoSeparator(Texts(t)[i])
    {
      WellMadeNoSeparator(t[i]);
    }
    JoinInjective(Texts(s), Texts(t));
    forall i | 0 <= i < |s|
      ensures s[i] == t[i]
    {
      assert Texts(s)[i] == Texts(t)[i];
      TextDetermines(s[i], t[i]);
    }
  }

  lemma HalfPairs(a: seq<Entry>, b: seq<Entry>, s: seq<Component>)
    requires Accepted(a) && Accepted(b) && Arranges(s, a) && Arranges(s, b)
    ensures Pairs(a) <= Pairs(b)
  {
    hide LexLe, EntryValid, Make, Arranges, Trim;
    forall p | p in Pairs(a)
      ensures p in Pairs(b)
    {
      var i :| 0 <= i < |a| && (a[i].name, Trim(a[i].value)) == p;
      ArrangedElement(s, a, Make(a[i]));
      ArrangedElement(s, b, Make(a[i]));
      var j :| 0 <= j < |b| && Make(b[j]) == Make(a[i]);
      MakeIsPair(a[i], b[j]);
    }
  }
}
