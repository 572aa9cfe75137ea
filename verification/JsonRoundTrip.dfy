/** Parsing what the compact writer printed gives the value back, with its members in the same order. */
module JsonRoundTrip {
  import opened Arith
  import opened Limbs
  import opened Utf8
  import opened Json
  import opened JsonParse
  import opened JsonWrite

  // ----- strings

  lemma {:induction false} EscapedConcat(a: Bytes, b: Bytes)
    ensures Escaped(a + b) == Escaped(a) + Escaped(b)
  {
    if a == [] {
      assert a + b == b;
    } else {
      assert (a + b)[1..] == a[1..] + b;
      EscapedConcat(a[1..], b);
    }
  }

  /** Bytes from 0x80 up are written as they are. */
  lemma {:induction false} EscapedHigh(s: Bytes)
    requires forall i :: 0 <= i < |s| ==> s[i] >= 0x80
    ensures Escaped(s) == s
  {
    if s != [] {
      EscapedHigh(s[1..]);
      assert s == [s[0]] + s[1..];
    }
  }

  lemma HighBytes(s: Bytes)
    requires SequenceLen(s) >= 2
    ensures forall i :: 0 <= i < SequenceLen(s) ==> s[i] >= 0x80
  {
  }

  /** One ASCII byte, escaped or not, is read back as itself. */
  lemma AsciiChunk(c: u8, rest: Bytes)
    requires c < 0x80
    ensures var t := EscapeByte(c) + rest; t[0] != QUOTE && Chunk(t) == Ok([c], rest)
  {
    var t := EscapeByte(c) + rest;
    if c < 0x20 && c != 0x08 && c != 0x0C && c != 0x0A && c != 0x0D && c != 0x09 {
      assert Hex4(t[2..]) == c;
      assert t[1..][1..] == t[2..] && t[2..][4..] == rest;
    } else if |EscapeByte(c)| == 2 {
      assert t[1..][1..] == rest;
    } else {
      assert t[..1] == [c] && t[1..] == rest;
    }
  }

  lemma SequenceChunk(s: Bytes, rest: Bytes)
    requires SequenceLen(s) >= 2
    ensures var n := SequenceLen(s); var t := s[..n] + rest; t[0] != QUOTE && Chunk(t) == Ok(s[..n], rest)
  {
    var n := SequenceLen(s);
    var t := s[..n] + rest;
    AcceptedIsEncoding(s);
    EncodeAccepted(Decode(s, n), rest);
    assert t[..n] == s[..n] && t[n..] == rest;
    assert t[0] == s[0] >= 0xC2;
  }

  /** The first sequence of a string, as written, is read back as one chunk. */
  lemma FirstChunk(s: Bytes, more: Bytes)
    requires SequenceLen(s) > 0
    ensures var n := SequenceLen(s); var t := Escaped(s[..n]) + more;
            t != [] && t[0] != QUOTE && Chunk(t) == Ok(s[..n], more)
  {
    hide Chunk;
    var n := SequenceLen(s);
    var head := s[..n];
    if n == 1 {
      OneByte(s);
      assert head == [s[0]] && Escaped(head) == EscapeByte(s[0]) + [];
      assert Escaped(head) == EscapeByte(s[0]);
      AsciiChunk(s[0], more);
    } else {
      HighBytes(s);
      EscapedHigh(head);
      SequenceChunk(s, more);
    }
  }

  lemma StringNext(t: Bytes, head: Bytes, more: Bytes)
    requires t != [] && t[0] != QUOTE && Chunk(t) == Ok(head, more)
    ensures StringBody(t) == Prepend(head, StringBody(more))
  {
  }

  lemma {:induction false} StringRoundTrip(s: Bytes, rest: Bytes)
    requires Valid(s)
    ensures StringBody(Escaped(s) + ([QUOTE] + rest)) == Ok(s, rest)
    decreases |s|
  {
    hide Chunk, SequenceLen;
    var end := [QUOTE] + rest;
    if s == [] {
      assert Escaped(s) + end == end && end[1..] == rest;
    } else {
      hide Escaped, StringBody;
      var n := SequenceLen(s);
      var head, tail := s[..n], s[n..];
      assert s == head + tail;
      EscapedConcat(head, tail);
      StringRoundTrip(tail, rest);
      var more := Escaped(tail) + end;
      Assoc(Escaped(head), Escaped(tail), end);
      FirstChunk(s, more);
      StringNext(Escaped(head) + more, head, more);
    }
  }

  lemma OneByte(s: Bytes)
    requires SequenceLen(s) == 1
    ensures s[0] < 0x80
  {
  }

  lemma QuotedRoundTrip(s: Bytes, rest: Bytes)
    requires Valid(s)
    ensures var t := Quoted(s) + rest; Peek(t) == QUOTE && ParseString(t) == Ok(s, rest)
  {
    hide StringBody, Escaped;
    var inner := Escaped(s) + ([QUOTE] + rest);
    Assoc([QUOTE], Escaped(s), [QUOTE]);
    Assoc([QUOTE], Escaped(s) + [QUOTE], rest);
    Assoc(Escaped(s), [QUOTE], rest);
    InFront(QUOTE, inner);
    StringRoundTrip(s, rest);
  }

  // ----- integers

  /** What follows a value does not continue a number. */
  predicate Ends(rest: Bytes)
  {
    var c := Peek(rest);
    !IsDigit(c) && c != DOT && c != LOWER_E && c != UPPER_E
  }

  lemma {:induction false} AllDigits(s: Bytes, rest: Bytes)
    requires Ends(rest) && forall i :: 0 <= i < |s| ==> IsDigit(s[i])
    ensures DigitRun(s + rest) == |s|
  {
    if s == [] {
      assert s + rest == rest;
    } else {
      assert (s + rest)[1..] == s[1..] + rest;
      AllDigits(s[1..], rest);
    }
  }

  lemma {:induction false} DecimalValue(n: nat)
    ensures Natural(DecimalNat(n)) == n
    ensures DecimalNat(n)[0] == ZERO <==> n == 0
    ensures n == 0 ==> |DecimalNat(n)| == 1
  {
    var s := DecimalNat(n);
    if n < 10 {
      assert s[..0] == [];
    } else {
      DecimalValue(n / 10);
      assert s[..|s| - 1] == DecimalNat(n / 10);
    }
  }

  lemma {:induction false} DecimalLength(n: nat, k: nat)
    requires k > 0 && n < Pow(10, k)
    ensures |DecimalNat(n)| <= k
  {
    if n >= 10 {
      assert Pow(10, k) == 10 * Pow(10, k - 1);
      DecimalLength(n / 10, k - 1);
    }
  }

  lemma TenTo20()
    ensures Pow(10, 20) == 100_000_000_000_000_000_000
  {
    PowAdd(10, 10, 10);
    PowAdd(10, 5, 5);
    PowAdd(10, 2, 3);
    assert Pow(10, 2) == 10 * Pow(10, 1) && Pow(10, 1) == 10 * Pow(10, 0);
    assert Pow(10, 3) == 10 * Pow(10, 2);
  }

  lemma ScanDigits(n: nat, rest: Bytes)
    requires Ends(rest)
    ensures var t := DecimalNat(n) + rest; Peek(t) != MINUS && ScanNumber(t) == Ok(true, rest)
  {
    hide DecimalNat, Natural;
    var s := DecimalNat(n);
    var t := s + rest;
    DecimalValue(n);
    AllDigits(s, rest);
    assert t[|s|..] == rest;
    assert ScanFraction(rest) == Ok(true, rest);
  }

  lemma NumberIs(token: Bytes, rest: Bytes)
    requires ScanNumber(token + rest) == Ok(true, rest) && |token| <= MAX_NUMBER_CHARS &&
             MIN_INT <= Integer(token) <= MAX_INT
    ensures ParseNumber(token + rest) == Ok(Int(Integer(token)), rest)
  {
    hide ScanNumber, Integer;
    var t := token + rest;
    assert t[..|t| - |rest|] == token;
  }

  /** The token is short, spells the number and is scanned whole. */
  lemma DecimalToken(i: int, rest: Bytes)
    requires MIN_INT <= i <= MAX_INT && Ends(rest)
    ensures |Decimal(i)| <= 21 && Integer(Decimal(i)) == i && ScanNumber(Decimal(i) + rest) == Ok(true, rest)
  {
    hide DecimalNat, Natural, ScanNumber, Ends, Pow;
    var n: nat := if i < 0 then -i else i;
    var s := DecimalNat(n);
    TenTo20();
    DecimalLength(n, 20);
    DecimalValue(n);
    ScanDigits(n, rest);
    if i < 0 {
      InFront(MINUS, s);
      InFront(MINUS, s + rest);
      Assoc([MINUS], s, rest);
      MinusScan([MINUS] + (s + rest), rest);
    } else {
      assert Peek(s) == Peek(s + rest);
    }
  }

  lemma IntRoundTrip(i: int, rest: Bytes)
    requires MIN_INT <= i <= MAX_INT && Ends(rest)
    ensures ParseNumber(Decimal(i) + rest) == Ok(Int(i), rest)
  {
    hide Decimal, ScanNumber, ParseNumber, Integer;
    DecimalToken(i, rest);
    NumberIs(Decimal(i), rest);
  }

  lemma MinusScan(t: Bytes, rest: Bytes)
    requires Peek(t) == MINUS && Peek(t[1..]) != MINUS && ScanNumber(t[1..]) == Ok(true, rest)
    ensures ScanNumber(t) == Ok(true, rest)
  {
  }

  // ----- values

  /** A value's text starts with a character that is neither blank nor a closing bracket. */
  lemma WriteHead(v: Value, format: Bytes -> Bytes, rest: Bytes)
    requires FloatFree(v)
    ensures var t := Write(v, format) + rest;
            t != [] && !Blank(t[0]) && t[0] != CLOSE_BRACKET && SkipBlanks(t) == t
  {
    hide DecimalNat, Escaped, WriteItems, WriteMembers;
  }

  lemma ItemsHead(v: Value, i: nat, format: Bytes -> Bytes, rest: Bytes)
    requires FloatFree(v) && v.Array? && i < |v.items|
    ensures var t := WriteItems(v, i, format) + rest;
            t != [] && !Blank(t[0]) && t[0] != CLOSE_BRACKET && SkipBlanks(t) == t
  {
    hide Write;
    var w := Write(v.items[i], format);
    if i + 1 == |v.items| {
      WriteHead(v.items[i], format, rest);
    } else {
      WriteHead(v.items[i], format, [COMMA] + WriteItems(v, i + 1, format) + rest);
      assert WriteItems(v, i, format) + rest == w + ([COMMA] + WriteItems(v, i + 1, format) + rest);
    }
  }

  lemma MembersHead(v: Value, i: nat, format: Bytes -> Bytes, rest: Bytes)
    requires v.Object? && i < |v.members|
    ensures var t := WriteMembers(v, i, format) + rest; t != [] && t[0] == QUOTE && SkipBlanks(t) == t
  {
    hide Write, Escaped;
  }

  lemma Assoc(a: Bytes, b: Bytes, c: Bytes)
    ensures a + b + c == a + (b + c)
  {
  }

  /** A character in front of text: the text is what is left after it, and blanks are not skipped before it. */
  lemma InFront(c: u8, t: Bytes)
    requires !Blank(c)
    ensures var u := [c] + t; Peek(u) == c && u[1..] == t && SkipBlanks(u) == u
  {
  }

  lemma ElementsLast(t: Bytes, depth: int, read: seq<Value>, item: Value, rest: Bytes)
    requires ParseValue(t, depth) == Ok(item, [CLOSE_BRACKET] + rest)
    ensures Elements(t, depth, read) == Ok(read + [item], rest)
  {
    hide ParseValue, SkipBlanks;
    InFront(CLOSE_BRACKET, rest);
  }

  lemma ElementsMore(t: Bytes, depth: int, read: seq<Value>, item: Value, next: Bytes)
    requires ParseValue(t, depth) == Ok(item, [COMMA] + next) && SkipBlanks(next) == next
    ensures Elements(t, depth, read) == Elements(next, depth, read + [item])
  {
    hide ParseValue, SkipBlanks;
    InFront(COMMA, next);
  }

  lemma ItemFacts(v: Value, i: nat)
    requires v.Array? && i < |v.items| && WellFormed(v) && FloatFree(v)
    ensures WellFormed(v.items[i]) && FloatFree(v.items[i]) && v.items[..i] + [v.items[i]] == v.items[..i + 1]
  {
  }

  lemma {:induction false} ItemsRoundTrip(v: Value, i: nat, depth: int, format: Bytes -> Bytes, rest: Bytes)
    requires v.Array? && i < |v.items| && WellFormed(v) && FloatFree(v)
    requires forall k :: 0 <= k < |v.items| ==> Fits(v.items[k], depth)
    ensures Elements(WriteItems(v, i, format) + ([CLOSE_BRACKET] + rest), depth, v.items[..i]) == Ok(v.items, rest)
    decreases v, |v.items| - i
  {
    hide Write, ParseValue, Elements, Fits, WellFormed, FloatFree, SkipBlanks;
    ItemFacts(v, i);
    var item := v.items[i];
    var w, end := Write(item, format), [CLOSE_BRACKET] + rest;
    var t := WriteItems(v, i, format) + end;
    if i + 1 == |v.items| {
      ValueRoundTrip(item, depth, format, end);
      ElementsLast(t, depth, v.items[..i], item, rest);
      assert v.items[..i + 1] == v.items;
    } else {
      var items := WriteItems(v, i + 1, format);
      var next := items + end;
      Assoc(w, [COMMA], items);
      Assoc(w, [COMMA] + items, end);
      Assoc([COMMA], items, end);
      ValueRoundTrip(item, depth, format, [COMMA] + next);
      ItemsHead(v, i + 1, format, end);
      ElementsMore(t, depth, v.items[..i], item, next);
      ItemsRoundTrip(v, i + 1, depth, format, rest);
    }
  }

  /** One member, read back up to what follows it. */
  lemma MemberRead(m: Member, depth: int, format: Bytes -> Bytes, after: Bytes)
    requires Valid(m.key) && NoNul(m.key) && ParseValue(Write(m.value, format) + after, depth) == Ok(m.value, after)
    ensures ParseMember(WriteMember(m, format) + after, depth) == Ok(m, after)
  {
    hide Write, ParseValue, ParseString, Quoted, SkipBlanks;
    var more := Write(m.value, format) + after;
    Assoc(Quoted(m.key), [COLON], Write(m.value, format));
    Assoc(Quoted(m.key), [COLON] + Write(m.value, format), after);
    Assoc([COLON], Write(m.value, format), after);
    QuotedRoundTrip(m.key, [COLON] + more);
    InFront(COLON, more);
  }

  lemma MembersLast(t: Bytes, depth: int, read: seq<Member>, m: Member, rest: Bytes)
    requires ParseMember(t, depth) == Ok(m, [CLOSE_BRACE] + rest)
    ensures Members(t, depth, read) == Ok(Set(read, m.key, m.value), rest)
  {
    hide ParseMember, SkipBlanks, Set;
    InFront(CLOSE_BRACE, rest);
  }

  lemma MembersMore(t: Bytes, depth: int, read: seq<Member>, m: Member, next: Bytes)
    requires ParseMember(t, depth) == Ok(m, [COMMA] + next) && SkipBlanks(next) == next
    ensures Members(t, depth, read) == Members(next, depth, Set(read, m.key, m.value))
  {
    hide ParseMember, SkipBlanks, Set;
    InFront(COMMA, next);
  }

  lemma MemberFacts(v: Value, i: nat)
    requires v.Object? && i < |v.members| && WellFormed(v) && FloatFree(v)
    ensures var m := v.members[i]; Valid(m.key) && NoNul(m.key) && WellFormed(m.value) && FloatFree(m.value)
    ensures Set(v.members[..i], v.members[i].key, v.members[i].value) == v.members[..i + 1]
  {
    hide Set;
    var m := v.members[i];
    assert MemberFormed(m);
    SetNext(v.members, i);
  }

  lemma {:induction false} MembersRoundTrip(v: Value, i: nat, depth: int, format: Bytes -> Bytes, rest: Bytes)
    requires v.Object? && i < |v.members| && WellFormed(v) && FloatFree(v)
    requires forall k :: 0 <= k < |v.members| ==> Fits(v.members[k].value, depth)
    ensures Members(WriteMembers(v, i, format) + ([CLOSE_BRACE] + rest), depth, v.members[..i]) == Ok(v.members, rest)
    decreases v, |v.members| - i
  {
    hide Write, WriteMember, Members, ParseMember, Fits, Set, WellFormed, FloatFree, ParseValue, SkipBlanks, Valid,
      NoNul;
    MemberFacts(v, i);
    var m := v.members[i];
    var w, end := WriteMember(m, format), [CLOSE_BRACE] + rest;
    var t := WriteMembers(v, i, format) + end;
    if i + 1 == |v.members| {
      ValueRoundTrip(m.value, depth, format, end);
      MemberRead(m, depth, format, end);
      MembersLast(t, depth, v.members[..i], m, rest);
      assert v.members[..i + 1] == v.members;
    } else {
      var members := WriteMembers(v, i + 1, format);
      var next := members + end;
      Assoc(w, [COMMA], members);
      Assoc(w, [COMMA] + members, end);
      Assoc([COMMA], members, end);
      ValueRoundTrip(m.value, depth, format, [COMMA] + next);
      MemberRead(m, depth, format, [COMMA] + next);
      MembersHead(v, i + 1, format, end);
      MembersMore(t, depth, v.members[..i], m, next);
      MembersRoundTrip(v, i + 1, depth, format, rest);
    }
  }

  lemma {:induction false} ValueRoundTrip(v: Value, depth: int, format: Bytes -> Bytes, rest: Bytes)
    requires WellFormed(v) && FloatFree(v) && Fits(v, depth) && Ends(rest)
    ensures ParseValue(Write(v, format) + rest, depth) == Ok(v, rest)
    decreases v
  {
    var t := Write(v, format) + rest;
    WriteHead(v, format, rest);
    assert ParseValue(t, depth) == ParseToken(t, depth + 1);
    match v {
      case Text(s) => QuotedRoundTrip(s, rest);
      case Int(i) => IntRoundTrip(i, rest); IntToken(i, rest, depth + 1);
      case Array(items) => ArrayRoundTrip(v, depth + 1, format, rest);
      case Object(m) => ObjectRoundTrip(v, depth + 1, format, rest);
      case Null => LiteralRoundTrip(v, depth + 1, format, rest);
      case Bool(_) => LiteralRoundTrip(v, depth + 1, format, rest);
      case Real(_) => assert false;
    }
  }

  lemma IntToken(i: int, rest: Bytes, depth: int)
    ensures var t := Decimal(i) + rest; ParseToken(t, depth) == ParseNumber(t)
  {
    hide DecimalNat, ParseNumber;
  }

  lemma LiteralRoundTrip(v: Value, depth: int, format: Bytes -> Bytes, rest: Bytes)
    requires v.Null? || v.Bool?
    ensures ParseToken(Write(v, format) + rest, depth) == Ok(v, rest)
  {
    var w := Write(v, format);
    var t := w + rest;
    assert w <= t && t[|w|..] == rest;
  }

  lemma ArrayRoundTrip(v: Value, depth: int, format: Bytes -> Bytes, rest: Bytes)
    requires v.Array? && WellFormed(v) && FloatFree(v) && forall k :: 0 <= k < |v.items| ==> Fits(v.items[k], depth)
    ensures ParseToken(Write(v, format) + rest, depth) == Ok(v, rest)
    decreases v, |v.items| + 1
  {
    hide Elements, Fits, WellFormed, FloatFree, WriteItems, SkipBlanks;
    var items, end := WriteItems(v, 0, format), [CLOSE_BRACKET] + rest;
    var inner := items + end;
    Assoc([OPEN_BRACKET], items, [CLOSE_BRACKET]);
    Assoc([OPEN_BRACKET], items + [CLOSE_BRACKET], rest);
    Assoc(items, [CLOSE_BRACKET], rest);
    InFront(OPEN_BRACKET, inner);
    assert ParseToken([OPEN_BRACKET] + inner, depth) == ParseArray(inner, depth);
    if v.items == [] {
      EmptyItems(v, format, end);
      InFront(CLOSE_BRACKET, rest);
    } else {
      ItemsHead(v, 0, format, end);
      ItemsRoundTrip(v, 0, depth, format, rest);
      assert v.items[..0] == [];
    }
  }

  lemma EmptyItems(v: Value, format: Bytes -> Bytes, end: Bytes)
    ensures v == Array([]) ==> WriteItems(v, 0, format) + end == end
    ensures v == Object([]) ==> WriteMembers(v, 0, format) + end == end
  {
  }

  lemma ObjectRoundTrip(v: Value, depth: int, format: Bytes -> Bytes, rest: Bytes)
    requires v.Object? && WellFormed(v) && FloatFree(v) &&
               forall k :: 0 <= k < |v.members| ==> Fits(v.members[k].value, depth)
    ensures ParseToken(Write(v, format) + rest, depth) == Ok(v, rest)
    decreases v, |v.members| + 1
  {
    hide Members, Fits, WellFormed, FloatFree, WriteMembers, SkipBlanks;
    var members, end := WriteMembers(v, 0, format), [CLOSE_BRACE] + rest;
    var inner := members + end;
    Assoc([OPEN_BRACE], members, [CLOSE_BRACE]);
    Assoc([OPEN_BRACE], members + [CLOSE_BRACE], rest);
    Assoc(members, [CLOSE_BRACE], rest);
    InFront(OPEN_BRACE, inner);
    assert ParseToken([OPEN_BRACE] + inner, depth) == ParseObject(inner, depth);
    if v.members == [] {
      EmptyItems(v, format, end);
      InFront(CLOSE_BRACE, rest);
    } else {
      MembersHead(v, 0, format, end);
      MembersRoundTrip(v, 0, depth, format, rest);
      assert v.members[..0] == [];
    }
  }

  /** Parsing the compact print of a value returns the value, for every float-free value the parser could hold. */
  lemma ParseWrite(v: Value, format: Bytes -> Bytes)
    requires WellFormed(v) && FloatFree(v) && Fits(v, 0) && |Write(v, format)| <= MAX_INPUT
    ensures Parse(Write(v, format)) == Ok(v, [])
  {
    hide ParseValue, Write, WellFormed, Fits;
    ValueRoundTrip(v, 0, format, []);
    assert Write(v, format) + [] == Write(v, format);
  }

  /** Different values print differently, however deep they are. */
  lemma WriteInjective(v: Value, w: Value, format: Bytes -> Bytes)
    requires WellFormed(v) && FloatFree(v) && WellFormed(w) && FloatFree(w)
    requires Write(v, format) == Write(w, format)
    ensures v == w
  {
    hide ParseValue, Write, WellFormed, Fits, FloatFree;
    var d := FitsSomewhere(v);
    var e := FitsSomewhere(w);
    var depth := if d < e then d else e;
    FitsBelow(v, d, depth);
    FitsBelow(w, e, depth);
    ValueRoundTrip(v, depth, format, []);
    ValueRoundTrip(w, depth, format, []);
  }
}
