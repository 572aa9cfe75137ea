/** The writer prints the one spelling of a value that has no blanks, the shortest escapes and lower-case
    hexadecimal. */
module JsonCompact {
  import opened Limbs
  import opened Utf8
  import opened Json
  import opened JsonParse
  import opened JsonWrite
  import opened JsonRoundTrip
  import opened JsonGrammar
  import opened JsonCanonical
  import opened KeyOrder
  import Strings = JsonStrings
  import Numbers = JsonNumbers

  // ----- strings

  /** No other spelling of the character is shorter, and its hexadecimal digits are in lower case. */
  ghost predicate Terse(p: Strings.Piece)
  {
    Strings.Good(p) &&
    (forall q :: Strings.Good(q) && Strings.Meaning(q) == Strings.Meaning(p) ==>
       |Strings.Spelling(p)| <= |Strings.Spelling(q)|) &&
    (p.Single? ==> forall i :: 0 <= i < |p.unit| ==> !('A' as int <= p.unit[i] <= 'F' as int))
  }

  lemma MeaningOfAscii(q: Strings.Piece, c: int)
    requires Strings.Good(q) && 0 <= c < 0x80 && Strings.Meaning(q) == [c]
    ensures match q
            case Plain(d) => d == c
            case Short(_, byte) => byte == c
            case Single(d, unit) => d == c && |unit| == 4
            case Paired(_, _, _) => false
  {
  }

  lemma AsciiPiece(c: u8) returns (p: Strings.Piece)
    requires c < 0x80
    ensures Terse(p) && Strings.Meaning(p) == [c] && Strings.Spelling(p) == EscapeByte(c)
  {
    hide EscapeByte, Strings.Good, Strings.Meaning, Strings.Spelling;
    p := PieceFor(c);
    forall q | Strings.Good(q) && Strings.Meaning(q) == [c]
      ensures |EscapeByte(c)| <= |Strings.Spelling(q)|
    {
      NoShorter(c, q);
    }
  }

  lemma PieceFor(c: u8) returns (p: Strings.Piece)
    requires c < 0x80
    ensures Strings.Good(p) && Strings.Meaning(p) == [c] && Strings.Spelling(p) == EscapeByte(c)
    ensures p.Single? ==> forall i :: 0 <= i < |p.unit| ==> !('A' as int <= p.unit[i] <= 'F' as int)
  {
    if |EscapeByte(c)| == 2 {
      p := Strings.Short(EscapeByte(c)[1], c);
    } else if c < 0x20 {
      p := ControlPiece(c);
    } else {
      p := Strings.Plain(c);
    }
  }

  lemma ControlPiece(c: u8) returns (p: Strings.Piece)
    requires c < 0x20 && |EscapeByte(c)| != 2
    ensures Strings.Good(p) && Strings.Meaning(p) == [c] && Strings.Spelling(p) == EscapeByte(c)
    ensures p.Single? && forall i :: 0 <= i < |p.unit| ==> !('A' as int <= p.unit[i] <= 'F' as int)
  {
    hide Strings.Unit, HexOf;
    p := Strings.Single(c, [ZERO, ZERO, HexOf(c / 16), HexOf(c % 16)]);
    ControlUnit(c);
  }

  lemma NoShorter(c: u8, q: Strings.Piece)
    requires c < 0x80 && Strings.Good(q) && Strings.Meaning(q) == [c]
    ensures |EscapeByte(c)| <= |Strings.Spelling(q)|
  {
    MeaningOfAscii(q, c);
  }

  lemma ControlUnit(c: int)
    requires 0 <= c < 0x20
    ensures var h: Bytes := [ZERO, ZERO, HexOf(c / 16), HexOf(c % 16)];
            Strings.Unit(h, c) && forall i :: 0 <= i < 4 ==> !('A' as int <= h[i] <= 'F' as int)
  {
    hide HexDigit, Strings.Hex;
    var h: Bytes := [ZERO, ZERO, HexOf(c / 16), HexOf(c % 16)];
    Strings.HexDigitIs(h[0], 0);
    Strings.HexDigitIs(h[1], 0);
    Strings.HexDigitIs(h[2], c / 16);
    Strings.HexDigitIs(h[3], c % 16);
    ZeroDigit();
  }

  lemma ZeroDigit()
    ensures HexDigit(ZERO) == 0
  {
  }

  lemma WidePiece(s: Bytes) returns (p: Strings.Piece)
    requires SequenceLen(s) >= 2
    ensures var n := SequenceLen(s);
            Terse(p) && Strings.Meaning(p) == s[..n] && Strings.Spelling(p) == s[..n]
  {
    var n := SequenceLen(s);
    AcceptedIsEncoding(s);
    HighBytes(s);
    hide SequenceLen, Encode;
    p := Strings.Plain(Decode(s, n));
    LeadByte(Decode(s, n), s[..n]);
    forall q | Strings.Good(q) && Strings.Meaning(q) == s[..n]
      ensures n <= |Strings.Spelling(q)|
    {
      LongEnough(q);
    }
  }

  lemma LeadByte(c: int, s: Bytes)
    requires Scalar(c) && s == Encode(c) && s[0] >= 0x80
    ensures c >= 0x80
  {
  }

  lemma LongEnough(q: Strings.Piece)
    requires Strings.Good(q)
    ensures |Strings.Meaning(q)| <= |Strings.Spelling(q)|
  {
    hide Encode;
  }

  ghost predicate AllTerse(s: seq<Strings.Piece>) { forall i :: 0 <= i < |s| ==> Terse(s[i]) }

  lemma TerseGood(s: seq<Strings.Piece>)
    requires AllTerse(s)
    ensures Strings.AllGood(s)
  {
  }

  /** The pieces of a string as the writer escapes it. */
  lemma {:induction false} PiecesOf(s: Bytes) returns (pieces: seq<Strings.Piece>)
    requires Valid(s)
    ensures AllTerse(pieces) && Strings.AllGood(pieces)
    ensures Strings.Spellings(pieces) == Escaped(s) && Strings.Meanings(pieces) == s
    decreases |s|
  {
    if s == [] {
      pieces := [];
    } else {
      var n := SequenceLen(s);
      hide SequenceLen, Terse, Strings.Good, Strings.Spelling, Strings.Meaning, EscapeByte;
      var head, tail := s[..n], s[n..];
      assert s == head + tail;
      var p := FirstPiece(s);
      var rest := PiecesOf(tail);
      EscapedConcat(head, tail);
      pieces := [p] + rest;
      assert pieces[1..] == rest;
      TerseGood(pieces);
    }
  }

  lemma FirstPiece(s: Bytes) returns (p: Strings.Piece)
    requires SequenceLen(s) > 0
    ensures Terse(p) && Strings.Good(p)
    ensures Strings.Meaning(p) == s[..SequenceLen(s)] && Strings.Spelling(p) == Escaped(s[..SequenceLen(s)])
  {
    var n := SequenceLen(s);
    var head := s[..n];
    if n == 1 {
      OneByte(s);
      assert head == [s[0]] && Escaped(head) == EscapeByte(s[0]) + [];
      p := AsciiPiece(s[0]);
    } else {
      HighBytes(s);
      EscapedHigh(head);
      p := WidePiece(s);
    }
  }

  // ----- numbers

  lemma NumeralFor(i: int) returns (n: Numbers.Numeral)
    requires MIN_INT <= i <= MAX_INT
    ensures Numbers.Good(n) && n.fraction == [] && n.exponent == []
    ensures Numbers.Spelling(n) == Decimal(i) && |Decimal(i)| <= 340 && Numbers.Meaning(n) == Int(i)
  {
    hide DecimalNat, Natural, Numbers.Weighted;
    var m: nat := if i < 0 then -i else i;
    n := Numbers.Numeral(i < 0, DecimalNat(m), [], []);
    DecimalValue(m);
    DecimalToken(i, []);
    Numbers.NaturalIs(n.digits);
    assert Numbers.Spelling(n) == Decimal(i);
  }

  // ----- values

  /** No blanks anywhere, terse strings, no number written otherwise than as an integer. */
  ghost predicate Compact(tree: Tree)
  {
    match tree
    case NumberTree(n) => n.fraction == [] && n.exponent == []
    case TextTree(pieces) => AllTerse(pieces)
    case ArrayTree(inside, items) => inside == [] && forall k :: 0 <= k < |items| ==> CompactItem(items[k])
    case ObjectTree(inside, entries) => inside == [] && forall k :: 0 <= k < |entries| ==> CompactEntry(entries[k])
    case _ => true
  }

  ghost predicate CompactItem(i: Item) { i.before == [] && i.after == [] && Compact(i.tree) }

  ghost predicate CompactEntry(e: Entry)
  {
    e.before == [] && e.between == [] && AllTerse(e.key) && CompactItem(e.item)
  }

  /** What is written is the spelling of a compact tree that means the value. */
  lemma {:induction false} WrittenCompact(v: Value, format: Bytes -> Bytes) returns (tree: Tree)
    requires WellFormed(v) && FloatFree(v)
    ensures Sound(tree) && Compact(tree) && Spelling(tree) == Write(v, format) && Meaning(tree) == v
    decreases v, 2
  {
    match v {
      case Null => tree := NullTree;
      case Bool(b) => tree := BoolTree(b);
      case Int(i) =>
        var n := NumeralFor(i);
        tree := NumberTree(n);
      case Text(s) =>
        var pieces := PiecesOf(s);
        tree := TextTree(pieces);
      case Array(items) => tree := ArrayCompact(v, format);
      case Object(m) => tree := ObjectCompact(v, format);
    }
  }

  lemma {:induction false} ArrayCompact(v: Value, format: Bytes -> Bytes) returns (tree: Tree)
    requires v.Array? && WellFormed(v) && FloatFree(v)
    ensures Sound(tree) && Compact(tree) && Spelling(tree) == Write(v, format) && Meaning(tree) == v
    decreases v, 1
  {
    hide Write, Spelling, Meaning, Sound, WellFormed, FloatFree, ItemsText, ItemsMeaning, SoundItem, CompactItem;
    NoBlanks();
    NothingMeant();
    var items := [];
    if v.items != [] {
      items := ItemsCompact(v, 0, format);
    }
    tree := ArrayTree([], items);
    ArrayIs([], items, 0);
    ArrayWritten(v, format);
    assert v.items[0..] == v.items;
  }

  lemma ArrayWritten(v: Value, format: Bytes -> Bytes)
    requires v.Array?
    ensures Write(v, format) == [OPEN_BRACKET] + WriteItems(v, 0, format) + [CLOSE_BRACKET]
    ensures v.items == [] ==> WriteItems(v, 0, format) == []
  {
  }

  lemma WriteItemsNext(v: Value, i: nat, format: Bytes -> Bytes)
    requires v.Array? && i < |v.items|
    ensures WriteItems(v, i, format) == Write(v.items[i], format) +
              if i + 1 == |v.items| then [] else [COMMA] + WriteItems(v, i + 1, format)
    ensures v.items[i..] == [v.items[i]] + v.items[i + 1..]
  {
    hide Write;
  }

  lemma ItemsNext(item: Item, rest: seq<Item>)
    requires SoundItem(item) && forall k :: 0 <= k < |rest| ==> SoundItem(rest[k])
    ensures ItemsText([item] + rest) == ItemText(item) + if rest == [] then [] else [COMMA] + ItemsText(rest)
    ensures ItemsMeaning([item] + rest) == [ItemMeaning(item)] + ItemsMeaning(rest)
  {
    hide SoundItem, ItemText, ItemMeaning;
    assert ([item] + rest)[1..] == rest;
  }

  lemma {:induction false} ItemCompact(w: Value, format: Bytes -> Bytes) returns (item: Item)
    requires WellFormed(w) && FloatFree(w)
    ensures SoundItem(item) && CompactItem(item) && ItemText(item) == Write(w, format) && ItemMeaning(item) == w
    decreases w, 3
  {
    hide Write, Spelling, Meaning, Sound, Compact, WellFormed, FloatFree;
    var tree := WrittenCompact(w, format);
    item := Item([], tree, []);
    NoBlanks();
  }

  lemma {:induction false} ItemsCompact(v: Value, i: nat, format: Bytes -> Bytes) returns (items: seq<Item>)
    requires v.Array? && i < |v.items| && WellFormed(v) && FloatFree(v)
    ensures items != [] && (forall k :: 0 <= k < |items| ==> SoundItem(items[k]))
    ensures forall k :: 0 <= k < |items| ==> CompactItem(items[k])
    ensures ItemsText(items) == WriteItems(v, i, format) && ItemsMeaning(items) == v.items[i..]
    decreases v, 0, |v.items| - i
  {
    hide Write, WriteItems, ItemsText, ItemsMeaning, ItemText, ItemMeaning, SoundItem, CompactItem, WellFormed,
      FloatFree;
    ItemFacts(v, i);
    WriteItemsNext(v, i, format);
    NothingMeant();
    var item := ItemCompact(v.items[i], format);
    var rest := [];
    if i + 1 < |v.items| {
      rest := ItemsCompact(v, i + 1, format);
    }
    items := [item] + rest;
    ItemsNext(item, rest);
  }

  lemma {:induction false} ObjectCompact(v: Value, format: Bytes -> Bytes) returns (tree: Tree)
    requires v.Object? && WellFormed(v) && FloatFree(v)
    ensures Sound(tree) && Compact(tree) && Spelling(tree) == Write(v, format) && Meaning(tree) == v
    decreases v, 1
  {
    hide Write, Spelling, Meaning, Sound, WellFormed, FloatFree, EntriesText, EntriesMeaning, SoundEntry, CompactEntry;
    NoBlanks();
    NothingMeant();
    var entries := [];
    if v.members != [] {
      entries := EntriesCompact(v, 0, format);
      assert v.members[..0] == [];
    }
    tree := ObjectTree([], entries);
    ObjectIs([], entries, 0);
    ObjectWritten(v, format);
  }

  lemma ObjectWritten(v: Value, format: Bytes -> Bytes)
    requires v.Object?
    ensures Write(v, format) == [OPEN_BRACE] + WriteMembers(v, 0, format) + [CLOSE_BRACE]
    ensures v.members == [] ==> WriteMembers(v, 0, format) == []
  {
  }

  lemma MemberParts(v: Value, i: nat)
    requires v.Object? && i < |v.members| && WellFormed(v) && FloatFree(v)
    ensures var m := v.members[i];
            WellFormed(m.value) && FloatFree(m.value) && Valid(m.key) && NoNul(m.key) &&
            Set(v.members[..i], m.key, m.value) == v.members[..i + 1]
  {
    var m := v.members[i];
    assert MemberFormed(m);
    hide WellFormed, Find, Set, Valid;
    SetFresh(v.members[..i], m.key, m.value);
    assert v.members[..i] + [m] == v.members[..i + 1];
  }

  lemma {:induction false} EntryCompact(v: Value, i: nat, format: Bytes -> Bytes) returns (e: Entry)
    requires v.Object? && i < |v.members| && WellFormed(v) && FloatFree(v)
    ensures SoundEntry(e) && CompactEntry(e) && EntryText(e) == WriteMember(v.members[i], format)
    ensures EntryKey(e) == v.members[i].key && EntryMeaning(e) == v.members[i].value
    decreases v, 0, 0
  {
    hide Write, WriteMember, ItemText, ItemMeaning, SoundItem, CompactItem, WellFormed, FloatFree, AllTerse, Escaped,
      Strings.AllGood,
         Strings.Spellings, Strings.Meanings, Set;
    MemberParts(v, i);
    var m := v.members[i];
    var item := ItemCompact(m.value, format);
    var key := PiecesOf(m.key);
    e := EntryWith(m, key, item, format);
  }

  lemma EntryWith(m: Member, key: seq<Strings.Piece>, item: Item, format: Bytes -> Bytes) returns (e: Entry)
    requires AllTerse(key) && Strings.AllGood(key) && Strings.Spellings(key) == Escaped(m.key)
    requires Strings.Meanings(key) == m.key && NoNul(m.key)
    requires SoundItem(item) && CompactItem(item) && ItemText(item) == Write(m.value, format)
    requires ItemMeaning(item) == m.value
    ensures SoundEntry(e) && CompactEntry(e) && EntryText(e) == WriteMember(m, format)
    ensures EntryKey(e) == m.key && EntryMeaning(e) == m.value
  {
    hide Write, ItemText, ItemMeaning, SoundItem, CompactItem, AllTerse, Escaped, Strings.AllGood, Strings.Spellings,
         Strings.Meanings;
    NoBlanks();
    e := Entry([], key, [], item);
    assert EntryText(e) == JsonGrammar.Quoted(key) + [COLON] + ItemText(item);
  }

  lemma WriteMembersNext(v: Value, i: nat, format: Bytes -> Bytes)
    requires v.Object? && i < |v.members|
    ensures WriteMembers(v, i, format) == WriteMember(v.members[i], format) +
              if i + 1 == |v.members| then [] else [COMMA] + WriteMembers(v, i + 1, format)
  {
    hide WriteMember;
  }

  lemma EntriesNext(e: Entry, rest: seq<Entry>, read: seq<Member>)
    requires SoundEntry(e) && forall k :: 0 <= k < |rest| ==> SoundEntry(rest[k])
    ensures EntriesText([e] + rest) == EntryText(e) + if rest == [] then [] else [COMMA] + EntriesText(rest)
    ensures EntriesMeaning(read, [e] + rest) == EntriesMeaning(Set(read, EntryKey(e), EntryMeaning(e)), rest)
  {
    hide SoundEntry, EntryText, EntryKey, EntryMeaning, Set;
    assert ([e] + rest)[1..] == rest;
  }

  lemma NoEntries(read: seq<Member>)
    ensures EntriesMeaning(read, []) == read
  {
  }

  lemma {:induction false} EntriesCompact(v: Value, i: nat, format: Bytes -> Bytes) returns (entries: seq<Entry>)
    requires v.Object? && i < |v.members| && WellFormed(v) && FloatFree(v)
    ensures entries != [] && (forall k :: 0 <= k < |entries| ==> SoundEntry(entries[k]))
    ensures forall k :: 0 <= k < |entries| ==> CompactEntry(entries[k])
    ensures EntriesText(entries) == WriteMembers(v, i, format)
    ensures EntriesMeaning(v.members[..i], entries) == v.members
    decreases v, 0, |v.members| - i
  {
    hide WriteMember, WriteMembers, SoundEntry, CompactEntry, EntryText, EntriesText, EntryKey, EntryMeaning,
         EntriesMeaning, WellFormed, FloatFree, Set, Valid;
    MemberParts(v, i);
    WriteMembersNext(v, i, format);
    NoEntries(v.members);
    var e := EntryCompact(v, i, format);
    var rest := [];
    if i + 1 < |v.members| {
      rest := EntriesCompact(v, i + 1, format);
    } else {
      assert v.members[..i + 1] == v.members;
    }
    entries := [e] + rest;
    EntriesNext(e, rest, v.members[..i]);
  }

  /** The signed bytes: the compact spelling of an equivalent value whose keys ascend at every depth. */
  lemma CanonicalBytes(v: Value, format: Bytes -> Bytes) returns (tree: Tree)
    requires WellFormed(v) && FloatFree(v)
    ensures Sound(tree) && Compact(tree) && Spelling(tree) == WriteCanonical(v, format)
    ensures Equivalent(v, Meaning(tree)) && Ascending(Meaning(tree))
  {
    hide Canon, Write, WellFormed, FloatFree, Fits, Equivalent, Ascending, Sound, Compact, Spelling, Meaning;
    var depth := FitsSomewhere(v);
    CanonKeeps(v, depth);
    CanonEquivalent(v);
    CanonAscending(v);
    tree := WrittenCompact(Canon(v), format);
  }
}
