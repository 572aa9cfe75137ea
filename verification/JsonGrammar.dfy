/** The JSON grammar of RFC 8259 as derivation trees, apart from any parser: the parser accepts exactly the texts that
    have a tree within its limits, and returns what the tree means. */
module JsonGrammar {
  import opened Limbs
  import opened Utf8
  import opened Json
  import opened JsonParse
  import Strings = JsonStrings
  import Numbers = JsonNumbers

  /** Spaces, tabs and line ends. */
  predicate Blanks(s: Bytes)
  {
    forall i :: 0 <= i < |s| ==>
      s[i] == ' ' as int || s[i] == '\t' as int || s[i] == '\n' as int || s[i] == '\r' as int
  }

  datatype Tree =
    | NullTree
    | BoolTree(boolean: bool)
    | NumberTree(numeral: Numbers.Numeral)
    | TextTree(pieces: seq<Strings.Piece>)
    | ArrayTree(inside: Bytes, items: seq<Item>)
    | ObjectTree(inside: Bytes, entries: seq<Entry>)

  /** A value with the blanks around it. */
  datatype Item = Item(before: Bytes, tree: Tree, after: Bytes)

  /** A key with the blanks around it, and its value. */
  datatype Entry = Entry(before: Bytes, key: seq<Strings.Piece>, between: Bytes, item: Item)

  // ----- which trees

  /** Every part is spelled by the grammar, and no key holds a NUL. */
  predicate Sound(tree: Tree)
  {
    match tree
    case NullTree => true
    case BoolTree(_) => true
    case NumberTree(n) => Numbers.Good(n) && |Numbers.Spelling(n)| <= 340
    case TextTree(pieces) => Strings.AllGood(pieces)
    case ArrayTree(inside, items) => Blanks(inside) && forall k :: 0 <= k < |items| ==> SoundItem(items[k])
    case ObjectTree(inside, entries) => Blanks(inside) && forall k :: 0 <= k < |entries| ==> SoundEntry(entries[k])
  }

  predicate SoundItem(i: Item) { Blanks(i.before) && Blanks(i.after) && Sound(i.tree) }

  predicate SoundEntry(e: Entry)
  {
    Blanks(e.before) && Blanks(e.between) && Strings.AllGood(e.key) && 0 !in Strings.Meanings(e.key) &&
    SoundItem(e.item)
  }

  /** At most this many values inside one another. */
  predicate Nests(tree: Tree, limit: int)
  {
    limit > 0 &&
    match tree
    case ArrayTree(_, items) => forall k :: 0 <= k < |items| ==> Nests(items[k].tree, limit - 1)
    case ObjectTree(_, entries) => forall k :: 0 <= k < |entries| ==> Nests(entries[k].item.tree, limit - 1)
    case _ => true
  }

  // ----- what a tree spells

  function Spelling(tree: Tree): Bytes
    requires Sound(tree)
    decreases tree
  {
    match tree
    case NullTree => ['n' as int, 'u' as int, 'l' as int, 'l' as int]
    case BoolTree(b) =>
      if b then ['t' as int, 'r' as int, 'u' as int, 'e' as int]
      else ['f' as int, 'a' as int, 'l' as int, 's' as int, 'e' as int]
    case NumberTree(n) => Numbers.Spelling(n)
    case TextTree(pieces) => Quoted(pieces)
    case ArrayTree(inside, items) =>
      ['[' as int] + (if items == [] then inside else ItemsText(items)) + [']' as int]
    case ObjectTree(inside, entries) =>
      ['{' as int] + (if entries == [] then inside else EntriesText(entries)) + ['}' as int]
  }

  function Quoted(pieces: seq<Strings.Piece>): Bytes
    requires Strings.AllGood(pieces)
  {
    ['\"' as int] + Strings.Spellings(pieces) + ['\"' as int]
  }

  function ItemText(i: Item): Bytes
    requires SoundItem(i)
    decreases i
  {
    i.before + Spelling(i.tree) + i.after
  }

  /** The items with commas between them. */
  function ItemsText(items: seq<Item>): Bytes
    requires items != [] && forall k :: 0 <= k < |items| ==> SoundItem(items[k])
    decreases items
  {
    ItemText(items[0]) + if |items| == 1 then [] else [',' as int] + ItemsText(items[1..])
  }

  function EntryText(e: Entry): Bytes
    requires SoundEntry(e)
    decreases e
  {
    e.before + Quoted(e.key) + e.between + [':' as int] + ItemText(e.item)
  }

  function EntriesText(entries: seq<Entry>): Bytes
    requires entries != [] && forall k :: 0 <= k < |entries| ==> SoundEntry(entries[k])
    decreases entries
  {
    EntryText(entries[0]) + if |entries| == 1 then [] else [',' as int] + EntriesText(entries[1..])
  }

  // ----- what it means

  /** A key that comes again gives the member that is there its new value. */
  function Meaning(tree: Tree): Value
    requires Sound(tree)
    decreases tree
  {
    match tree
    case NullTree => Null
    case BoolTree(b) => Bool(b)
    case NumberTree(n) => Numbers.Meaning(n)
    case TextTree(pieces) => Text(Strings.Meanings(pieces))
    case ArrayTree(_, items) => Array(ItemsMeaning(items))
    case ObjectTree(_, entries) => Object(EntriesMeaning([], entries))
  }

  function ItemMeaning(i: Item): Value
    requires SoundItem(i)
    decreases i
  {
    Meaning(i.tree)
  }

  function EntryKey(e: Entry): Bytes
    requires SoundEntry(e)
  {
    Strings.Meanings(e.key)
  }

  function EntryMeaning(e: Entry): Value
    requires SoundEntry(e)
    decreases e
  {
    ItemMeaning(e.item)
  }

  function ItemsMeaning(items: seq<Item>): seq<Value>
    requires forall k :: 0 <= k < |items| ==> SoundItem(items[k])
    decreases items
  {
    if items == [] then [] else [ItemMeaning(items[0])] + ItemsMeaning(items[1..])
  }

  function EntriesMeaning(read: seq<Member>, entries: seq<Entry>): seq<Member>
    requires forall k :: 0 <= k < |entries| ==> SoundEntry(entries[k])
    decreases entries
  {
    if entries == [] then read
    else EntriesMeaning(Set(read, EntryKey(entries[0]), EntryMeaning(entries[0])), entries[1..])
  }

  lemma ArrayIs(inside: Bytes, items: seq<Item>, limit: int)
    requires Blanks(inside) && forall k :: 0 <= k < |items| ==> SoundItem(items[k])
    ensures var tree := ArrayTree(inside, items);
            && Sound(tree) && Meaning(tree) == Array(ItemsMeaning(items))
            && (Nests(tree, limit) <==> limit > 0 && forall k :: 0 <= k < |items| ==> Nests(items[k].tree, limit - 1))
            && Spelling(tree) == [OPEN_BRACKET] + (if items == [] then inside else ItemsText(items)) + [CLOSE_BRACKET]
  {
    hide SoundItem, ItemsText, ItemsMeaning;
  }

  lemma ObjectIs(inside: Bytes, entries: seq<Entry>, limit: int)
    requires Blanks(inside) && forall k :: 0 <= k < |entries| ==> SoundEntry(entries[k])
    ensures var tree := ObjectTree(inside, entries);
            && Sound(tree) && Meaning(tree) == Object(EntriesMeaning([], entries))
            && (Nests(tree, limit) <==>
                limit > 0 && forall k :: 0 <= k < |entries| ==> Nests(entries[k].item.tree, limit - 1))
            && Spelling(tree) == [OPEN_BRACE] + (if entries == [] then inside else EntriesText(entries)) + [CLOSE_BRACE]
  {
    hide SoundEntry, EntriesText, EntriesMeaning;
  }

  lemma ArrayParts(tree: Tree, limit: int)
    requires tree.ArrayTree? && Sound(tree) && Nests(tree, limit)
    ensures Blanks(tree.inside) && forall k :: 0 <= k < |tree.items| ==> SoundItem(tree.items[k])
    ensures forall k :: 0 <= k < |tree.items| ==> Nests(tree.items[k].tree, limit - 1)
  {
    hide SoundItem, Blanks;
  }

  lemma ObjectParts(tree: Tree, limit: int)
    requires tree.ObjectTree? && Sound(tree) && Nests(tree, limit)
    ensures Blanks(tree.inside) && forall k :: 0 <= k < |tree.entries| ==> SoundEntry(tree.entries[k])
    ensures forall k :: 0 <= k < |tree.entries| ==> Nests(tree.entries[k].item.tree, limit - 1)
  {
    hide SoundEntry, Blanks;
  }

  lemma NoneBefore(s: seq<Value>)
    ensures [] + s == s
  {
  }

  lemma NothingMeant()
    ensures ItemsMeaning([]) == [] && EntriesMeaning([], []) == []
  {
  }

  // ----- blanks

  lemma {:induction false} SkipRead(s: Bytes, t: Bytes)
    requires Blanks(s) && (t == [] || !Blank(t[0]))
    ensures SkipBlanks(s + t) == t
  {
    if s == [] {
      assert s + t == t;
    } else {
      assert (s + t)[1..] == s[1..] + t;
      SkipRead(s[1..], t);
    }
  }

  lemma {:induction false} BlanksOf(t: Bytes) returns (s: Bytes)
    ensures Blanks(s) && t == s + SkipBlanks(t) && (SkipBlanks(t) == [] || !Blank(SkipBlanks(t)[0]))
  {
    if t != [] && Blank(t[0]) {
      var s' := BlanksOf(t[1..]);
      s := [t[0]] + s';
    } else {
      s := [];
    }
  }

  lemma SkipTwice(t: Bytes)
    ensures SkipBlanks(SkipBlanks(t)) == SkipBlanks(t)
  {
    var s := BlanksOf(t);
  }

  lemma SkipValue(t: Bytes, depth: int)
    ensures ParseValue(SkipBlanks(t), depth) == ParseValue(t, depth)
  {
    hide SkipBlanks, ParseToken;
    SkipTwice(t);
  }

  lemma SkipElements(t: Bytes, depth: int, read: seq<Value>)
    ensures Elements(SkipBlanks(t), depth, read) == Elements(t, depth, read)
  {
    hide SkipBlanks, ParseValue;
    SkipValue(t, depth);
  }

  // ----- arrays and objects from one step to the next

  lemma ArrayCases(t: Bytes, depth: int)
    ensures var u := SkipBlanks(t);
            if Peek(u) == CLOSE_BRACKET then ParseArray(t, depth) == Ok(Array([]), u[1..])
            else if Elements(u, depth, []).Ok? then
              ParseArray(t, depth) == Ok(Array(Elements(u, depth, []).value), Elements(u, depth, []).rest)
            else ParseArray(t, depth).Err?
  {
    hide Elements, SkipBlanks;
  }

  lemma ObjectCases(t: Bytes, depth: int)
    ensures var u := SkipBlanks(t);
            if Peek(u) == CLOSE_BRACE then ParseObject(t, depth) == Ok(Object([]), u[1..])
            else if Members(u, depth, []).Ok? then
              ParseObject(t, depth) == Ok(Object(Members(u, depth, []).value), Members(u, depth, []).rest)
            else ParseObject(t, depth).Err?
  {
    hide Members, SkipBlanks;
  }

  lemma Bracketed(body: Bytes, rest: Bytes, depth: int)
    ensures var t := [OPEN_BRACKET] + body + [CLOSE_BRACKET] + rest;
            !Blank(t[0]) && ParseToken(t, depth) == ParseArray(body + ([CLOSE_BRACKET] + rest), depth)
    ensures var t := [OPEN_BRACE] + body + [CLOSE_BRACE] + rest;
            !Blank(t[0]) && ParseToken(t, depth) == ParseObject(body + ([CLOSE_BRACE] + rest), depth)
  {
    hide ParseArray, ParseObject;
    assert ([OPEN_BRACKET] + body + [CLOSE_BRACKET] + rest)[1..] == body + ([CLOSE_BRACKET] + rest);
    assert ([OPEN_BRACE] + body + [CLOSE_BRACE] + rest)[1..] == body + ([CLOSE_BRACE] + rest);
  }

  // ----- from the tree to the value

  /** What may follow a value: nothing, a blank, a comma or a closing bracket. */
  predicate Follows(rest: Bytes)
  {
    rest == [] || Blank(rest[0]) || rest[0] == COMMA || rest[0] == CLOSE_BRACKET || rest[0] == CLOSE_BRACE
  }

  lemma FollowsStops(rest: Bytes)
    requires Follows(rest)
    ensures Numbers.Stops(rest)
  {
  }

  lemma FollowsBlanks(s: Bytes, rest: Bytes)
    requires Blanks(s) && Follows(rest)
    ensures Follows(s + rest)
  {
    if s == [] {
      assert s + rest == rest;
    }
  }

  lemma QuotedRead(pieces: seq<Strings.Piece>, rest: Bytes)
    requires Strings.AllGood(pieces)
    ensures var t := Quoted(pieces) + rest; Peek(t) == QUOTE && ParseString(t) == Ok(Strings.Meanings(pieces), rest)
  {
    hide StringBody, Strings.Spellings, Strings.Meanings, Strings.AllGood;
    var t := Quoted(pieces) + rest;
    assert t[1..] == Strings.Spellings(pieces) + [0x22] + rest;
    Strings.StringRead(pieces, rest);
  }

  lemma NumberRead(n: Numbers.Numeral, rest: Bytes, depth: int)
    requires Numbers.Good(n) && |Numbers.Spelling(n)| <= 340 && Follows(rest)
    ensures var t := Numbers.Spelling(n) + rest;
            (t[0] == MINUS || IsDigit(t[0])) && ParseToken(t, depth) == Ok(Numbers.Meaning(n), rest)
  {
    hide ParseNumber, Numbers.Meaning, Numbers.Fraction, Numbers.Exponent;
    FollowsStops(rest);
    Numbers.NumeralRead(n, rest);
    var t := Numbers.Spelling(n) + rest;
    assert t[0] == if n.negative then MINUS else n.digits[0];
  }

  lemma LiteralRead(literal: Bytes, value: Value, rest: Bytes)
    requires literal != []
    ensures ParseLiteral(literal + rest, literal, value) == Ok(value, rest)
  {
    assert (literal + rest)[|literal|..] == rest;
  }

  /** A token with blanks before it, inside the depth limit. */
  lemma ValueRead(lead: Bytes, t: Bytes, depth: int)
    requires Blanks(lead) && t != [] && !Blank(t[0]) && depth < 64
    ensures ParseValue(lead + t, depth) == ParseToken(t, depth + 1)
  {
    hide ParseToken, SkipBlanks;
    SkipRead(lead, t);
  }

  lemma NotClosed(t: Bytes, depth: int)
    requires t != [] && ParseToken(t, depth).Ok?
    ensures t[0] != CLOSE_BRACKET
  {
    hide ParseObject, ParseArray, ParseString, ParseNumber;
  }

  lemma LeafRead(tree: Tree, rest: Bytes, depth: int)
    requires Sound(tree) && !tree.ArrayTree? && !tree.ObjectTree? && Follows(rest)
    ensures var t := Spelling(tree) + rest;
            t != [] && !Blank(t[0]) && ParseToken(t, depth) == Ok(Meaning(tree), rest)
  {
    hide ParseArray, ParseObject, ParseString, ParseNumber, Quoted, Strings.AllGood, Strings.Meanings, Numbers.Good,
         Numbers.Spelling, Numbers.Meaning;
    match tree
    case NullTree => LiteralRead(NULL, Null, rest);
    case BoolTree(b) => LiteralRead(if b then TRUE else FALSE, Bool(b), rest);
    case NumberTree(n) => NumberRead(n, rest, depth);
    case TextTree(pieces) => QuotedRead(pieces, rest);
  }

  /** Every tree is read as what it means, at every depth that leaves room for it. */
  lemma {:induction false} TokenRead(tree: Tree, rest: Bytes, depth: int)
    requires Sound(tree) && 0 <= depth && Nests(tree, 64 - depth) && Follows(rest)
    ensures var t := Spelling(tree) + rest;
            t != [] && !Blank(t[0]) && ParseToken(t, depth + 1) == Ok(Meaning(tree), rest)
    decreases tree
  {
    hide ParseToken, Sound, Nests, Follows, Spelling, Meaning;
    match tree
    case ArrayTree(_, _) => ArrayRead(tree, rest, depth);
    case ObjectTree(_, _) => ObjectRead(tree, rest, depth);
    case _ => LeafRead(tree, rest, depth + 1);
  }

  lemma {:induction false} ArrayRead(tree: Tree, rest: Bytes, depth: int)
    requires tree.ArrayTree? && Sound(tree) && 0 <= depth && Nests(tree, 64 - depth)
    ensures var t := Spelling(tree) + rest;
            t != [] && !Blank(t[0]) && ParseToken(t, depth + 1) == Ok(Meaning(tree), rest)
    decreases tree, 0
  {
    hide SkipBlanks, Elements, Sound, SoundItem, ItemsText, ItemsMeaning, Spelling, Nests, Meaning, Blanks, ParseArray,
         ParseToken;
    var items, close := tree.items, [CLOSE_BRACKET] + rest;
    ArrayParts(tree, 64 - depth);
    ArrayIs(tree.inside, items, 64 - depth);
    NothingMeant();
    var body := if items == [] then tree.inside else ItemsText(items);
    Bracketed(body, rest, depth + 1);
    ArrayCases(body + close, depth + 1);
    if items == [] {
      assert close[1..] == rest;
      SkipRead(tree.inside, close);
    } else {
      ItemsRead(items, rest, depth + 1, []);
      SkipElements(body + close, depth + 1, []);
      NoneBefore(ItemsMeaning(items));
    }
  }

  /** One item and what comes after it. */
  lemma {:induction false} ItemRead(i: Item, tail: Bytes, depth: int)
    requires SoundItem(i) && 0 <= depth && Nests(i.tree, 64 - depth)
    requires tail != [] && (tail[0] == COMMA || tail[0] == CLOSE_BRACKET || tail[0] == CLOSE_BRACE)
    ensures var t := ItemText(i) + tail;
            ParseValue(t, depth) == Ok(ItemMeaning(i), i.after + tail) && SkipBlanks(i.after + tail) == tail &&
            Peek(SkipBlanks(t)) != CLOSE_BRACKET
    decreases i
  {
    hide SkipBlanks, ParseToken;
    var more := i.after + tail;
    FollowsBlanks(i.after, tail);
    TokenRead(i.tree, more, depth);
    var u := Spelling(i.tree) + more;
    assert ItemText(i) + tail == i.before + u;
    ValueRead(i.before, u, depth);
    NotClosed(u, depth + 1);
    SkipRead(i.before, u);
    SkipRead(i.after, tail);
  }

  lemma {:induction false} ItemsRead(items: seq<Item>, rest: Bytes, depth: int, read: seq<Value>)
    requires items != [] && 0 <= depth
    requires forall k :: 0 <= k < |items| ==> SoundItem(items[k])
    requires forall k :: 0 <= k < |items| ==> Nests(items[k].tree, 64 - depth)
    ensures var t := ItemsText(items) + ([CLOSE_BRACKET] + rest);
            Elements(t, depth, read) == Ok(read + ItemsMeaning(items), rest) && Peek(SkipBlanks(t)) != CLOSE_BRACKET
    decreases items
  {
    hide SkipBlanks, ParseValue, ItemText, Nests, SoundItem, ItemMeaning;
    var close := [CLOSE_BRACKET] + rest;
    var t := ItemsText(items) + close;
    var i := items[0];
    if |items| == 1 {
      assert t == ItemText(i) + close && close[1..] == rest;
      ItemRead(i, close, depth);
      assert items[1..] == [];
      assert ItemsMeaning(items) == [ItemMeaning(i)];
    } else {
      var next := ItemsText(items[1..]) + close;
      var tail := [COMMA] + next;
      assert t == ItemText(i) + tail && tail[1..] == next;
      ItemRead(i, tail, depth);
      ItemsRead(items[1..], rest, depth, read + [ItemMeaning(i)]);
      SkipElements(next, depth, read + [ItemMeaning(i)]);
      assert read + [ItemMeaning(i)] + ItemsMeaning(items[1..]) == read + ItemsMeaning(items);
    }
  }

  lemma {:induction false} ObjectRead(tree: Tree, rest: Bytes, depth: int)
    requires tree.ObjectTree? && Sound(tree) && 0 <= depth && Nests(tree, 64 - depth)
    ensures var t := Spelling(tree) + rest;
            t != [] && !Blank(t[0]) && ParseToken(t, depth + 1) == Ok(Meaning(tree), rest)
    decreases tree, 0
  {
    hide SkipBlanks, Members, Sound, SoundEntry, EntriesText, EntriesMeaning, Spelling, Nests, Meaning, Blanks,
         ParseObject, ParseToken;
    var entries, close := tree.entries, [CLOSE_BRACE] + rest;
    ObjectParts(tree, 64 - depth);
    ObjectIs(tree.inside, entries, 64 - depth);
    NothingMeant();
    var body := if entries == [] then tree.inside else EntriesText(entries);
    Bracketed(body, rest, depth + 1);
    ObjectCases(body + close, depth + 1);
    if entries == [] {
      assert close[1..] == rest;
      SkipRead(tree.inside, close);
    } else {
      EntriesRead(entries, rest, depth + 1, []);
    }
  }

  lemma {:induction false} EntryRead(e: Entry, tail: Bytes, depth: int)
    requires SoundEntry(e) && 0 <= depth && Nests(e.item.tree, 64 - depth)
    requires tail != [] && (tail[0] == COMMA || tail[0] == CLOSE_BRACE)
    ensures var t := SkipBlanks(EntryText(e) + tail);
            Peek(t) == QUOTE && SkipBlanks(e.item.after + tail) == tail &&
            ParseMember(t, depth) == Ok(Member(EntryKey(e), EntryMeaning(e)), e.item.after + tail)
    decreases e
  {
    hide SkipBlanks, ParseValue, ItemText, Nests, SoundItem, ItemMeaning, ParseString, Quoted, Blanks;
    var value := ItemText(e.item) + tail;
    var colon := [COLON] + value;
    var u := Quoted(e.key) + (e.between + colon);
    assert EntryText(e) + tail == e.before + u;
    QuotedRead(e.key, e.between + colon);
    SkipRead(e.before, u);
    SkipRead(e.between, colon);
    ItemRead(e.item, tail, depth);
    assert colon[1..] == value;
  }

  lemma {:induction false} EntriesRead(entries: seq<Entry>, rest: Bytes, depth: int, read: seq<Member>)
    requires entries != [] && 0 <= depth
    requires forall k :: 0 <= k < |entries| ==> SoundEntry(entries[k])
    requires forall k :: 0 <= k < |entries| ==> Nests(entries[k].item.tree, 64 - depth)
    ensures var t := SkipBlanks(EntriesText(entries) + ([CLOSE_BRACE] + rest));
            Peek(t) == QUOTE && Members(t, depth, read) == Ok(EntriesMeaning(read, entries), rest)
    decreases entries
  {
    hide SkipBlanks, ParseMember, EntryText, Nests, SoundEntry, EntryMeaning, EntryKey, Set;
    var close := [CLOSE_BRACE] + rest;
    var t := EntriesText(entries) + close;
    var e := entries[0];
    var now := Set(read, EntryKey(e), EntryMeaning(e));
    if |entries| == 1 {
      assert t == EntryText(e) + close && close[1..] == rest;
      EntryRead(e, close, depth);
      assert entries[1..] == [];
      assert EntriesMeaning(now, entries[1..]) == now;
    } else {
      var next := EntriesText(entries[1..]) + close;
      var tail := [COMMA] + next;
      assert t == EntryText(e) + tail && tail[1..] == next;
      EntryRead(e, tail, depth);
      EntriesRead(entries[1..], rest, depth, now);
    }
  }

  // ----- from the text to the tree

  lemma QuotedOf(t: Bytes) returns (pieces: seq<Strings.Piece>)
    requires ParseString(t).Ok?
    ensures Strings.AllGood(pieces) && Strings.Meanings(pieces) == ParseString(t).value
    ensures t == Quoted(pieces) + ParseString(t).rest
  {
    hide StringBody, Strings.Spellings, Strings.Meanings, Strings.AllGood;
    pieces := Strings.StringOf(t[1..]);
    assert t == [t[0]] + t[1..];
  }

  lemma LiteralOf(t: Bytes, literal: Bytes, value: Value)
    requires literal != [] && ParseLiteral(t, literal, value).Ok?
    ensures ParseLiteral(t, literal, value).value == value && t == literal + ParseLiteral(t, literal, value).rest
  {
  }

  /** The text between two brackets, put together again. */
  lemma Enclosed(t: Bytes, lead: Bytes, body: Bytes, close: u8, rest: Bytes, whole: Bytes)
    requires t != [] && whole == lead + body
    ensures t[1..] == lead + (body + [close] + rest) ==> t == [t[0]] + whole + [close] + rest
    ensures body == [] && t[1..] == lead + ([close] + rest) ==> t == [t[0]] + whole + [close] + rest
    ensures forall u: Bytes :: u != [] && u[0] == close && u[1..] == rest ==> u == [close] + rest
  {
    assert t == [t[0]] + t[1..];
  }

  /** Whatever the parser takes as a value has a tree that means it. */
  lemma {:induction false} TokenOf(t: Bytes, depth: int) returns (tree: Tree)
    requires 0 <= depth < 64 && ParseToken(t, depth + 1).Ok?
    ensures Sound(tree) && Nests(tree, 64 - depth) && Meaning(tree) == ParseToken(t, depth + 1).value
    ensures t == Spelling(tree) + ParseToken(t, depth + 1).rest
    decreases |t|, 3
  {
    hide ParseNumber, ParseString, ParseArray, ParseObject, Strings.AllGood, Strings.Meanings, Numbers.Good,
         Numbers.Meaning, Numbers.Spelling, Quoted;
    var c := Peek(t);
    if c == OPEN_BRACE {
      tree := ObjectOf(t, depth);
    } else if c == OPEN_BRACKET {
      tree := ArrayOf(t, depth);
    } else if c == QUOTE {
      var pieces := QuotedOf(t);
      tree := TextTree(pieces);
    } else if c == TRUE[0] {
      LiteralOf(t, TRUE, Bool(true));
      tree := BoolTree(true);
    } else if c == FALSE[0] {
      LiteralOf(t, FALSE, Bool(false));
      tree := BoolTree(false);
    } else if c == NULL[0] {
      LiteralOf(t, NULL, Null);
      tree := NullTree;
    } else {
      var n := Numbers.NumeralOf(t);
      tree := NumberTree(n);
    }
  }

  lemma {:induction false} ValueOf(t: Bytes, depth: int) returns (lead: Bytes, tree: Tree)
    requires 0 <= depth && ParseValue(t, depth).Ok?
    ensures Blanks(lead) && Sound(tree) && Nests(tree, 64 - depth) && Meaning(tree) == ParseValue(t, depth).value
    ensures t == lead + Spelling(tree) + ParseValue(t, depth).rest
    decreases |t|, 4
  {
    hide ParseToken, SkipBlanks, Sound, Nests, Blanks;
    lead := BlanksOf(t);
    tree := TokenOf(SkipBlanks(t), depth);
  }

  lemma {:induction false} ArrayOf(t: Bytes, depth: int) returns (tree: Tree)
    requires 0 <= depth < 64 && Peek(t) == OPEN_BRACKET && ParseArray(t[1..], depth + 1).Ok?
    ensures Sound(tree) && Nests(tree, 64 - depth) && Meaning(tree) == ParseArray(t[1..], depth + 1).value
    ensures t == Spelling(tree) + ParseArray(t[1..], depth + 1).rest
    decreases |t|, 2
  {
    hide SkipBlanks, Elements, SoundItem, ItemsText, ItemsMeaning, Sound, Nests, Meaning, Spelling, Blanks, ParseArray;
    NothingMeant();
    ArrayCases(t[1..], depth + 1);
    var lead := BlanksOf(t[1..]);
    var u := SkipBlanks(t[1..]);
    if Peek(u) == CLOSE_BRACKET {
      tree := ArrayTree(lead, []);
      ArrayIs(lead, [], 64 - depth);
      Enclosed(t, lead, [], CLOSE_BRACKET, u[1..], lead);
    } else {
      var items := ItemsOf(u, depth + 1, []);
      var led := ItemsLead(lead, items);
      tree := ArrayTree(lead, led);
      Enclosed(t, lead, ItemsText(items), CLOSE_BRACKET, Elements(u, depth + 1, []).rest, ItemsText(led));
      ArrayIs(lead, led, 64 - depth);
      NoneBefore(ItemsMeaning(items));
    }
  }

  /** Blanks before the first item belong to it. */
  lemma ItemsLead(lead: Bytes, items: seq<Item>) returns (led: seq<Item>)
    requires Blanks(lead) && items != [] && forall k :: 0 <= k < |items| ==> SoundItem(items[k])
    ensures |led| == |items| && forall k :: 0 <= k < |led| ==> SoundItem(led[k]) && led[k].tree == items[k].tree
    ensures ItemsText(led) == lead + ItemsText(items) && ItemsMeaning(led) == ItemsMeaning(items)
  {
    hide Spelling, Sound, Meaning;
    var i := items[0];
    var first := Item(lead + i.before, i.tree, i.after);
    led := [first] + items[1..];
    assert led[1..] == items[1..];
    assert ItemText(first) == lead + ItemText(i);
  }

  lemma {:induction false} ItemOf(t: Bytes, depth: int) returns (i: Item, u: Bytes)
    requires 0 <= depth && ParseValue(t, depth).Ok?
    ensures SoundItem(i) && Nests(i.tree, 64 - depth) && t == ItemText(i) + u
    ensures u == SkipBlanks(ParseValue(t, depth).rest) && ParseValue(t, depth).value == ItemMeaning(i)
    decreases |t|, 5
  {
    hide SkipBlanks, ParseValue, Nests, Sound, Spelling, Meaning, Blanks;
    var lead, tree := ValueOf(t, depth);
    var after := ParseValue(t, depth).rest;
    var trail := BlanksOf(after);
    u := SkipBlanks(after);
    i := Item(lead, tree, trail);
  }

  lemma ElementsCases(t: Bytes, depth: int, read: seq<Value>)
    requires Elements(t, depth, read).Ok?
    ensures ParseValue(t, depth).Ok?
    ensures var u, next := SkipBlanks(ParseValue(t, depth).rest), read + [ParseValue(t, depth).value];
            if Peek(u) == COMMA then Elements(t, depth, read) == Elements(SkipBlanks(u[1..]), depth, next)
            else Peek(u) == CLOSE_BRACKET && Elements(t, depth, read) == Ok(next, u[1..])
  {
    hide ParseValue, SkipBlanks;
  }

  lemma {:induction false} ItemsOf(t: Bytes, depth: int, read: seq<Value>) returns (items: seq<Item>)
    requires 0 <= depth && Elements(t, depth, read).Ok?
    ensures items != [] && forall k :: 0 <= k < |items| ==> SoundItem(items[k])
    ensures forall k :: 0 <= k < |items| ==> Nests(items[k].tree, 64 - depth)
    ensures t == ItemsText(items) + [CLOSE_BRACKET] + Elements(t, depth, read).rest
    ensures Elements(t, depth, read).value == read + ItemsMeaning(items)
    decreases |t|, 6
  {
    hide SkipBlanks, ParseValue, Elements, Nests, SoundItem, ItemText, ItemsText, ItemMeaning, ItemsMeaning, Blanks;
    var rest := Elements(t, depth, read).rest;
    ElementsCases(t, depth, read);
    var i, u := ItemOf(t, depth);
    if Peek(u) == COMMA {
      var gap := BlanksOf(u[1..]);
      var next := ItemsOf(SkipBlanks(u[1..]), depth, read + [ItemMeaning(i)]);
      var led := ItemsLead(gap, next);
      items := ItemsCons(i, led, t, u, rest);
      Regroup(read, ItemMeaning(i), ItemsMeaning(led));
    } else {
      items := ItemsLast(i, t, u);
    }
  }

  lemma Regroup(a: seq<Value>, v: Value, b: seq<Value>)
    ensures a + [v] + b == a + ([v] + b)
  {
  }

  lemma ItemsLast(i: Item, t: Bytes, u: Bytes) returns (items: seq<Item>)
    requires SoundItem(i) && t == ItemText(i) + u && u != [] && u[0] == CLOSE_BRACKET
    ensures items == [i] && t == ItemsText(items) + [CLOSE_BRACKET] + u[1..] && ItemsMeaning(items) == [ItemMeaning(i)]
  {
    hide SoundItem, ItemText, ItemMeaning;
    items := [i];
    assert items[1..] == [];
    assert u == [CLOSE_BRACKET] + u[1..];
  }

  lemma ItemsCons(i: Item, led: seq<Item>, t: Bytes, u: Bytes, rest: Bytes) returns (items: seq<Item>)
    requires SoundItem(i) && led != [] && forall k :: 0 <= k < |led| ==> SoundItem(led[k])
    requires t == ItemText(i) + u && u != [] && u[0] == COMMA && u[1..] == ItemsText(led) + [CLOSE_BRACKET] + rest
    ensures items == [i] + led && (forall k :: 0 <= k < |items| ==> SoundItem(items[k]))
    ensures t == ItemsText(items) + [CLOSE_BRACKET] + rest
    ensures ItemsMeaning(items) == [ItemMeaning(i)] + ItemsMeaning(led)
  {
    hide SoundItem, ItemText, ItemMeaning;
    items := [i] + led;
    assert items[1..] == led;
    assert u == [COMMA] + u[1..];
  }

  lemma {:induction false} ObjectOf(t: Bytes, depth: int) returns (tree: Tree)
    requires 0 <= depth < 64 && Peek(t) == OPEN_BRACE && ParseObject(t[1..], depth + 1).Ok?
    ensures Sound(tree) && Nests(tree, 64 - depth) && Meaning(tree) == ParseObject(t[1..], depth + 1).value
    ensures t == Spelling(tree) + ParseObject(t[1..], depth + 1).rest
    decreases |t|, 2
  {
    hide SkipBlanks, Members, SoundEntry, EntriesText, EntriesMeaning, Sound, Nests, Meaning, Spelling, Blanks,
         ParseObject;
    NothingMeant();
    ObjectCases(t[1..], depth + 1);
    var lead := BlanksOf(t[1..]);
    var u := SkipBlanks(t[1..]);
    if Peek(u) == CLOSE_BRACE {
      tree := ObjectTree(lead, []);
      ObjectIs(lead, [], 64 - depth);
      Enclosed(t, lead, [], CLOSE_BRACE, u[1..], lead);
    } else {
      var entries := EntriesOf(u, depth + 1, []);
      var led := EntriesLead(lead, entries, []);
      tree := ObjectTree(lead, led);
      Enclosed(t, lead, EntriesText(entries), CLOSE_BRACE, Members(u, depth + 1, []).rest, EntriesText(led));
      ObjectIs(lead, led, 64 - depth);
    }
  }

  /** Blanks before the first key belong to it. */
  lemma EntriesLead(lead: Bytes, entries: seq<Entry>, read: seq<Member>) returns (led: seq<Entry>)
    requires Blanks(lead) && entries != [] && forall k :: 0 <= k < |entries| ==> SoundEntry(entries[k])
    ensures |led| == |entries|
    ensures forall k :: 0 <= k < |led| ==> SoundEntry(led[k]) && led[k].item.tree == entries[k].item.tree
    ensures EntriesText(led) == lead + EntriesText(entries)
    ensures EntriesMeaning(read, led) == EntriesMeaning(read, entries)
  {
    hide SoundItem, ItemText, ItemMeaning, Strings.AllGood, Strings.Meanings, Quoted, Set;
    var e := entries[0];
    var first := Entry(lead + e.before, e.key, e.between, e.item);
    led := [first] + entries[1..];
    assert led[1..] == entries[1..];
    assert EntryText(first) == lead + EntryText(e);
  }

  lemma {:induction false} EntryOf(t: Bytes, depth: int) returns (e: Entry, u: Bytes)
    requires 0 <= depth && ParseMember(t, depth).Ok?
    ensures SoundEntry(e) && Nests(e.item.tree, 64 - depth) && t == EntryText(e) + u
    ensures u == SkipBlanks(ParseMember(t, depth).rest)
    ensures ParseMember(t, depth).value == Member(EntryKey(e), EntryMeaning(e))
    decreases |t|, 5
  {
    hide SkipBlanks, ParseValue, ParseString, Nests, Sound, Spelling, Meaning, Strings.AllGood, Strings.Meanings,
      Quoted,
         Blanks;
    var key := QuotedOf(t);
    var afterKey := ParseString(t).rest;
    var between := BlanksOf(afterKey);
    var w := SkipBlanks(afterKey);
    var lead, tree := ValueOf(w[1..], depth);
    var after := ParseValue(w[1..], depth).rest;
    var trail := BlanksOf(after);
    u := SkipBlanks(after);
    e := Entry([], key, between, Item(lead, tree, trail));
    NoBlanks();
    assert w == [COLON] + w[1..];
    assert EntryText(e) + u == Quoted(key) + (between + ([COLON] + (lead + Spelling(tree) + (trail + u))));
  }

  lemma NoBlanks()
    ensures Blanks([])
  {
  }

  lemma MembersCases(t: Bytes, depth: int, read: seq<Member>)
    requires Members(t, depth, read).Ok?
    ensures ParseMember(t, depth).Ok?
    ensures var u, m := SkipBlanks(ParseMember(t, depth).rest), ParseMember(t, depth).value;
            var next := Set(read, m.key, m.value);
            if Peek(u) == COMMA then Members(t, depth, read) == Members(SkipBlanks(u[1..]), depth, next)
            else Peek(u) == CLOSE_BRACE && Members(t, depth, read) == Ok(next, u[1..])
  {
    hide ParseMember, SkipBlanks, Set;
  }

  lemma EntriesLast(e: Entry, t: Bytes, u: Bytes, read: seq<Member>) returns (entries: seq<Entry>)
    requires SoundEntry(e) && t == EntryText(e) + u && u != [] && u[0] == CLOSE_BRACE
    ensures entries == [e] && t == EntriesText(entries) + [CLOSE_BRACE] + u[1..]
    ensures EntriesMeaning(read, entries) == Set(read, EntryKey(e), EntryMeaning(e))
  {
    hide SoundEntry, EntryText, EntryKey, EntryMeaning, Set;
    entries := [e];
    var now := Set(read, EntryKey(e), EntryMeaning(e));
    assert entries[1..] == [];
    assert EntriesMeaning(now, entries[1..]) == now;
    assert u == [CLOSE_BRACE] + u[1..];
  }

  lemma {:induction false} EntriesOf(t: Bytes, depth: int, read: seq<Member>) returns (entries: seq<Entry>)
    requires 0 <= depth && Members(t, depth, read).Ok?
    ensures entries != [] && forall k :: 0 <= k < |entries| ==> SoundEntry(entries[k])
    ensures forall k :: 0 <= k < |entries| ==> Nests(entries[k].item.tree, 64 - depth)
    ensures t == EntriesText(entries) + [CLOSE_BRACE] + Members(t, depth, read).rest
    ensures Members(t, depth, read).value == EntriesMeaning(read, entries)
    decreases |t|, 6
  {
    hide SkipBlanks, ParseMember, Members, Nests, SoundEntry, EntryText, EntriesText, EntryKey, EntryMeaning,
         EntriesMeaning, Set, Blanks;
    MembersCases(t, depth, read);
    var rest := Members(t, depth, read).rest;
    var e, u := EntryOf(t, depth);
    var now := Set(read, EntryKey(e), EntryMeaning(e));
    if Peek(u) == COMMA {
      var gap := BlanksOf(u[1..]);
      var next := EntriesOf(SkipBlanks(u[1..]), depth, now);
      var led := EntriesLead(gap, next, now);
      entries := EntriesCons(e, led, t, u, rest, read);
    } else {
      entries := EntriesLast(e, t, u, read);
    }
  }

  lemma EntriesCons(e: Entry, led: seq<Entry>, t: Bytes, u: Bytes, rest: Bytes, read: seq<Member>)
    returns (entries: seq<Entry>)
    requires SoundEntry(e) && led != [] && forall k :: 0 <= k < |led| ==> SoundEntry(led[k])
    requires t == EntryText(e) + u && u != [] && u[0] == COMMA && u[1..] == EntriesText(led) + [CLOSE_BRACE] + rest
    ensures entries == [e] + led && (forall k :: 0 <= k < |entries| ==> SoundEntry(entries[k]))
    ensures t == EntriesText(entries) + [CLOSE_BRACE] + rest
    ensures EntriesMeaning(read, entries) == EntriesMeaning(Set(read, EntryKey(e), EntryMeaning(e)), led)
  {
    hide SoundEntry, EntryText, EntryKey, EntryMeaning, Set;
    entries := [e] + led;
    assert entries[1..] == led;
    assert u == [COMMA] + u[1..];
  }

  // ----- whole documents

  /** A tree with blanks around it, at most 64 values deep, that spells t and means v. */
  ghost predicate Derives(t: Bytes, v: Value, lead: Bytes, tree: Tree, trail: Bytes)
  {
    Blanks(lead) && Blanks(trail) && Sound(tree) && Nests(tree, 64) && t == lead + Spelling(tree) + trail &&
    v == Meaning(tree)
  }

  /** The parser answers v exactly for the texts of at most 16 MiB that the grammar derives, with v as their meaning. */
  lemma ParseExact(t: Bytes, v: Value)
    ensures Parse(t) == Ok(v, []) <==>
            |t| <= 16 * 1024 * 1024 && exists lead, tree, trail :: Derives(t, v, lead, tree, trail)
  {
    hide ParseValue, SkipBlanks, Spelling, Meaning, Sound, Nests, Blanks;
    if Parse(t) == Ok(v, []) {
      var lead, tree := ValueOf(t, 0);
      var trail := BlanksOf(ParseValue(t, 0).rest);
      assert trail + [] == trail;
      assert Derives(t, v, lead, tree, trail);
    }
    if |t| <= 16 * 1024 * 1024 {
      forall lead, tree, trail | Derives(t, v, lead, tree, trail)
        ensures Parse(t) == Ok(v, [])
      {
        DerivedRead(t, v, lead, tree, trail);
      }
    }
  }

  lemma DerivedRead(t: Bytes, v: Value, lead: Bytes, tree: Tree, trail: Bytes)
    requires |t| <= 16 * 1024 * 1024 && Derives(t, v, lead, tree, trail)
    ensures Parse(t) == Ok(v, [])
  {
    hide ParseToken, SkipBlanks, Spelling, Meaning, Sound, Nests;
    FollowsBlanks(trail, []);
    assert trail + [] == trail;
    TokenRead(tree, trail, 0);
    var u := Spelling(tree) + trail;
    assert t == lead + u;
    ValueRead(lead, u, 0);
    SkipRead(trail, []);
  }
}
