/** The canonical fingerprint string character by character: which components are taken, how they are trimmed, and in
    which order they are joined. */
module FingerprintExact {
  import opened Limbs
  import opened Utf8
  import opened KeySort
  import opened KeyOrder
  import opened Fingerprint

  // ----- trimming

  /** A space, or one of the five control characters from tab to carriage return. */
  predicate Space(c: u8) { c == ' ' as int || 9 <= c <= 13 }

  predicate Spaces(s: Bytes) { forall i :: 0 <= i < |s| ==> Space(s[i]) }

  /** core is what is left of the value without the spaces at both ends. */
  ghost predicate Core(value: Bytes, core: Bytes)
  {
    (core != [] ==> !Space(core[0]) && !Space(core[|core| - 1])) &&
    exists left, right :: Spaces(left) && Spaces(right) && value == left + core + right
  }

  lemma {:induction false} LeftOf(s: Bytes) returns (left: Bytes)
    ensures Spaces(left) && s == left + TrimLeft(s) && (TrimLeft(s) == [] || !Space(TrimLeft(s)[0]))
  {
    if s != [] && IsSpace(s[0]) {
      var l := LeftOf(s[1..]);
      left := [s[0]] + l;
    } else {
      left := [];
    }
  }

  lemma RightStep(s: Bytes)
    ensures TrimRight(s) == if s != [] && Space(s[|s| - 1]) then TrimRight(s[..|s| - 1]) else s
  {
  }

  lemma {:induction false} RightOf(s: Bytes) returns (right: Bytes)
    ensures Spaces(right) && s == TrimRight(s) + right &&
            (TrimRight(s) == [] || !Space(TrimRight(s)[|TrimRight(s)| - 1]))
  {
    hide TrimRight, Space;
    RightStep(s);
    if s != [] && Space(s[|s| - 1]) {
      var n := |s| - 1;
      var r := RightOf(s[..n]);
      right := r + [s[n]];
      assert s == s[..n] + [s[n]];
      assert (TrimRight(s) + r) + [s[n]] == TrimRight(s) + right;
    } else {
      right := [];
      assert s == s + right;
    }
  }

  lemma {:induction false} TrimLeftOff(left: Bytes, s: Bytes)
    requires Spaces(left)
    ensures TrimLeft(left + s) == TrimLeft(s)
  {
    if left == [] {
      assert left + s == s;
    } else {
      assert (left + s)[1..] == left[1..] + s;
      TrimLeftOff(left[1..], s);
    }
  }

  lemma {:induction false} TrimRightOff(s: Bytes, right: Bytes)
    requires Spaces(right)
    ensures TrimRight(s + right) == TrimRight(s)
  {
    if right == [] {
      assert s + right == s;
    } else {
      var n := |right| - 1;
      assert (s + right)[..|s| + n] == s + right[..n];
      TrimRightOff(s, right[..n]);
    }
  }

  lemma TrimmedIsCore(value: Bytes)
    ensures Core(value, Trim(value))
  {
    hide TrimLeft, TrimRight, Space;
    var left := LeftOf(value);
    var middle := TrimLeft(value);
    var right := RightOf(middle);
    var core := Trim(value);
    assert value == left + core + right;
    if core != [] {
      assert core[0] == middle[0];
    }
  }

  lemma CoreTrimmed(left: Bytes, core: Bytes, right: Bytes)
    requires Spaces(left) && Spaces(right) && (core != [] ==> !Space(core[0]) && !Space(core[|core| - 1]))
    ensures Trim(left + core + right) == core
  {
    assert left + core + right == left + (core + right);
    TrimLeftOff(left, core + right);
    if core == [] {
      assert core + right == right && right + [] == right;
      TrimLeftOff(right, []);
    } else {
      assert TrimLeft(core + right) == core + right;
      TrimRightOff(core, right);
      assert TrimRight(core) == core;
    }
  }

  /** Trimming finds the core, and there is one. */
  lemma CoreExact(value: Bytes, core: Bytes)
    ensures Core(value, core) <==> core == Trim(value)
  {
    hide TrimLeft, TrimRight, Space, Spaces;
    TrimmedIsCore(value);
    if Core(value, core) {
      var left, right :| Spaces(left) && Spaces(right) && value == left + core + right;
      CoreTrimmed(left, core, right);
    }
  }

  // ----- which components are taken

  /** Labels are visible ASCII without '='; trimmed values hold no control character. */
  ghost predicate Proper(e: Entry)
  {
    e.name != [] && (forall k :: 0 <= k < |e.name| ==>
        '!' as int <= e.name[k] <= '~' as int && e.name[k] != '=' as int) &&
    forall core :: Core(e.value, core) ==> forall k :: 0 <= k < |core| ==> core[k] >= 0x20 && core[k] != 0x7F
  }

  lemma ProperExact(e: Entry)
    ensures Proper(e) <==> EntryValid(e)
  {
    hide Core, Trim;
    forall core ensures Core(e.value, core) <==> core == Trim(e.value) {
      CoreExact(e.value, core);
    }
  }

  lemma AcceptedExact(entries: seq<Entry>)
    ensures Accepted(entries) <==>
            entries != [] && (forall i :: 0 <= i < |entries| ==> Proper(entries[i])) &&
            forall i, j :: 0 <= i < j < |entries| ==> entries[i].name != entries[j].name
  {
    hide Proper, EntryValid;
    forall i | 0 <= i < |entries| ensures Proper(entries[i]) <==> EntryValid(entries[i]) {
      ProperExact(entries[i]);
    }
  }

  // ----- the string

  /** A label, an equals sign and the trimmed value. */
  ghost predicate PartOf(entries: seq<Entry>, part: Bytes)
  {
    exists i, core :: 0 <= i < |entries| && Core(entries[i].value, core) &&
      part == entries[i].name + ['=' as int] + core
  }

  ghost predicate Ordered(parts: seq<Bytes>) { forall i, j :: 0 <= i < j < |parts| ==> Precedes(parts[i], parts[j]) }

  /** The parts one after another, each with a unit separator before it. */
  function Separated(parts: seq<Bytes>): Bytes
  {
    if parts == [] then [] else Separated(parts[..|parts| - 1]) + [0x1F] + parts[|parts| - 1]
  }

  /** tamga-fingerprint-v1 */
  const PREFIX: Bytes := [
    't' as int, 'a' as int, 'm' as int, 'g' as int, 'a' as int, '-' as int, 'f' as int,
    'i' as int, 'n' as int, 'g' as int, 'e' as int, 'r' as int, 'p' as int, 'r' as int,
    'i' as int, 'n' as int, 't' as int, '-' as int, 'v' as int, '1' as int]

  lemma {:induction false} JoinLast(parts: seq<Bytes>, x: Bytes)
    ensures Join(parts + [x]) == Join(parts) + [SEPARATOR] + x
  {
    if parts == [] {
      assert [x][1..] == [] && parts + [x] == [x];
    } else {
      assert (parts + [x])[1..] == parts[1..] + [x];
      JoinLast(parts[1..], x);
    }
  }

  lemma {:induction false} SeparatedIs(parts: seq<Bytes>)
    ensures Separated(parts) == Join(parts)
  {
    hide Join;
    if parts == [] {
      JoinEmpty(parts);
    } else {
      var n := |parts| - 1;
      SeparatedIs(parts[..n]);
      JoinLast(parts[..n], parts[n]);
      assert parts == parts[..n] + [parts[n]];
    }
  }

  /** The canonical string of an accepted list is its prefix and the parts of its entries in byte order. */
  lemma CanonicalIs(entries: seq<Entry>, canonical: Bytes)
    requires Accepted(entries) && IsCanonical(entries, canonical)
    ensures exists parts :: Ordered(parts) && (forall part :: part in parts <==> PartOf(entries, part)) &&
              canonical == PREFIX + Separated(parts)
  {
    hide Make, Join, LexLe, EntryValid, PartOf;
    var s: seq<Component> :| Arranges(s, entries) && canonical == DOMAIN + Join(Texts(s));
    assert PREFIX == DOMAIN;
    SeparatedIs(Texts(s));
    ArrangedStrict(s, entries);
    StrictOrdered(s);
    forall part ensures part in Texts(s) <==> PartOf(entries, part) {
      PartExact(s, entries, part);
    }
  }

  lemma StrictOrdered(s: seq<Component>)
    requires Strict(s)
    ensures Ordered(Texts(s))
  {
    hide LexLe, Precedes;
    forall i, j | 0 <= i < j < |s| ensures Precedes(Texts(s)[i], Texts(s)[j]) {
      PrecedesExact(s[i].text, s[j].text);
    }
  }

  lemma PartExact(s: seq<Component>, entries: seq<Entry>, part: Bytes)
    requires Arranges(s, entries)
    ensures part in Texts(s) <==> PartOf(entries, part)
  {
    hide LexLe, Core, Trim;
    if part in Texts(s) {
      var k :| 0 <= k < |s| && Texts(s)[k] == part;
      ArrangedElement(s, entries, s[k]);
      var i :| 0 <= i < |entries| && Make(entries[i]) == s[k];
      CoreExact(entries[i].value, Trim(entries[i].value));
    }
    if PartOf(entries, part) {
      var i, core :| 0 <= i < |entries| && Core(entries[i].value, core) &&
        part == entries[i].name + ['=' as int] + core;
      CoreExact(entries[i].value, core);
      ArrangedElement(s, entries, Make(entries[i]));
      var k :| 0 <= k < |s| && s[k] == Make(entries[i]);
      assert Texts(s)[k] == part;
    }
  }
}
