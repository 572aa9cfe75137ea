/** The recursive-descent parser as an object with a position, a depth and a first error, on memory that can be
    refused. */
module JsonParser {
  import opened Limbs
  import opened Utf8
  import opened Json
  import opened JsonParse
  import opened Buf
  import opened JsonObject

  /** Why parsing stopped: what the grammar says, or memory. */
  datatype Failure = Malformed(error: Error) | MemoryRefused

  class Parser {
    const text: Bytes
    var pos: nat
    var depth: nat
    var error: Option<Failure>
    const nodes: Memory
    const strings: Memory

    ghost predicate Valid()
      reads this
    {
      pos <= |text| <= MAX_INPUT && error.None?
    }

    /** What is left to read. */
    ghost function Left(): Bytes
      requires pos <= |text|
      reads this
    {
      text[pos..]
    }

    constructor (text: Bytes, nodes: Memory, strings: Memory)
      requires |text| <= MAX_INPUT
      ensures Valid() && this.text == text && pos == 0 && depth == 0 && this.nodes == nodes && this.strings == strings
    {
      this.text, this.nodes, this.strings := text, nodes, strings;
      pos, depth, error := 0, 0, None;
    }

    /** The first error is the one that is kept. */
    method Fail(e: Error)
      modifies this`error
      ensures error == if old(error).None? then Some(Malformed(e)) else old(error)
    {
      if error.None? {
        error := Some(Malformed(e));
      }
    }

    method FailMemory()
      modifies this`error
      ensures error == if old(error).None? then Some(MemoryRefused) else old(error)
    {
      if error.None? {
        error := Some(MemoryRefused);
      }
    }

    predicate AtEnd()
      reads this
    {
      pos >= |text|
    }

    function PeekChar(): (c: u8)
      requires pos <= |text|
      reads this
      ensures c == Peek(Left())
    {
      if AtEnd() then 0 else text[pos]
    }

    method SkipBlanks()
      requires Valid()
      modifies this`pos
      ensures Valid() && Left() == JsonParse.SkipBlanks(old(Left())) && pos >= old(pos)
    {
      ghost var start := Left();
      while !AtEnd()
        invariant Valid() && pos >= old(pos)
        invariant JsonParse.SkipBlanks(Left()) == JsonParse.SkipBlanks(start)
        decreases |text| - pos
      {
        assert Left()[1..] == text[pos + 1..];
        if !Blank(text[pos]) {
          return;
        }
        pos := pos + 1;
      }
    }

    method MatchLiteral(literal: Bytes) returns (ok: bool)
      requires Valid()
      modifies this`pos
      ensures Valid() && (ok <==> literal <= old(Left()))
      ensures ok ==> Left() == old(Left())[|literal|..]
      ensures !ok ==> pos == old(pos)
    {
      var n := |literal|;
      if |text| - pos < n {
        return false;
      }
      if text[pos..pos + n] != literal {
        assert text[pos..pos + n] == Left()[..n];
        return false;
      }
      assert Left()[..n] == literal;
      pos := pos + n;
      return true;
    }

    /** Four hexadecimal digits, advancing past them. */
    method ReadHex4() returns (ok: bool, unit: int)
      requires Valid()
      modifies this`pos
      ensures Valid() && ok == (Hex4(old(Left())) >= 0)
      ensures ok ==> unit == Hex4(old(Left())) && pos == old(pos) + 4
      ensures !ok ==> pos == old(pos)
    {
      unit := 0;
      if |text| - pos < 4 {
        return false, 0;
      }
      ghost var t := Left();
      assert forall i :: 0 <= i < 4 ==> t[i] == text[pos + i];
      var i := 0;
      while i < 4
        invariant 0 <= i <= 4
        invariant forall k :: 0 <= k < i ==> HexDigit(t[k]) >= 0
        invariant unit == HexPrefix(t, i)
      {
        var digit := HexDigit(text[pos + i]);
        if digit < 0 {
          assert HexDigit(t[i]) < 0;
          return false, 0;
        }
        unit := unit * 16 + digit;
        i := i + 1;
      }
      HexAll(t);
      pos := pos + 4;
      return true, unit;
    }

    // ----- strings

    /** What the call made of the text agrees with the specification. */
    ghost predicate Agrees<T>(r: Parsed<T>, got: Option<T>)
      reads this
    {
      if r.Ok? then got == Some(r.value) && error.None? && pos <= |text| && Left() == r.rest
      else got.None? && error == Some(Malformed(r.error))
    }

    /** Nothing was read because memory was refused. Where a key string could not be ended, the error says that the
        key is invalid. */
    ghost predicate Refused()
      reads this
    {
      || (!(nodes.reliable && strings.reliable) && (error.None? || error == Some(MemoryRefused)))
      || (!strings.reliable && error == Some(Malformed(InvalidKey)) && HoldsFullString(text))
    }

    ghost predicate Meets<T>(r: Parsed<T>, got: Option<T>)
      reads this
    {
      Agrees(r, got) || (got.None? && Refused())
    }

    /** Only strings are refused, and the object that starts here has an empty first key. */
    ghost predicate EmptyKeyRefused(t: Bytes)
    {
      nodes.reliable && strings.spent && !strings.reliable && EmptyString(JsonParse.SkipBlanks(t))
    }

    /** After "\u". */
    method ReadUnicode() returns (got: Option<Bytes>)
      requires Valid()
      modifies this`pos, this`error
      ensures Agrees(UnicodeEscape(old(Left())), got)
      ensures got.Some? ==> 0 < |got.value| <= 4 && pos >= old(pos) + 4
    {
      hide Encode;
      ghost var t := Left();
      var ok, unit := ReadHex4();
      if !ok {
        Fail(MalformedUnicodeEscape);
        return None;
      }
      assert Left() == t[4..];
      if 0xD800 <= unit <= 0xDBFF {
        ghost var u := Left();
        if |text| - pos < 6 || text[pos] != BACKSLASH || text[pos + 1] != LOWER_U {
          Fail(UnpairedHigh);
          return None;
        }
        pos := pos + 2;
        assert Left() == u[2..];
        var low;
        ok, low := ReadHex4();
        if !ok {
          Fail(MalformedUnicodeEscape);
          return None;
        }
        if low < 0xDC00 || low > 0xDFFF {
          Fail(UnpairedHigh);
          return None;
        }
        assert Left() == u[6..];
        return Some(Encode(0x1_0000 + (unit - 0xD800) * 1024 + (low - 0xDC00)));
      } else if 0xDC00 <= unit <= 0xDFFF {
        Fail(UnpairedLow);
        return None;
      }
      return Some(Encode(unit));
    }

    /** After a backslash. */
    method ReadEscape() returns (got: Option<Bytes>)
      requires Valid()
      modifies this`pos, this`error
      ensures Agrees(Escape(old(Left())), got)
      ensures got.Some? ==> 0 < |got.value| <= pos - old(pos)
    {
      hide UnicodeEscape;
      if AtEnd() {
        Fail(UnterminatedEscape);
        return None;
      }
      ghost var t := Left();
      var esc := text[pos];
      pos := pos + 1;
      assert t[0] == esc && Left() == t[1..];
      if esc == QUOTE || esc == BACKSLASH || esc == 0x2F {
        return Some([esc]);
      } else if esc == 0x62 {
        return Some([0x08]);
      } else if esc == 0x66 {
        return Some([0x0C]);
      } else if esc == 0x6E {
        return Some([0x0A]);
      } else if esc == 0x72 {
        return Some([0x0D]);
      } else if esc == 0x74 {
        return Some([0x09]);
      } else if esc == LOWER_U {
        got := ReadUnicode();
        return;
      }
      Fail(UnknownEscape);
      return None;
    }

    /** One character or escape of a string that goes on. */
    method ReadChunk() returns (got: Option<Bytes>)
      requires Valid() && pos < |text| && text[pos] != QUOTE
      modifies this`pos, this`error
      ensures Agrees(Chunk(old(Left())), got)
      ensures got.Some? ==> 0 < |got.value| <= pos - old(pos)
    {
      hide Escape, SequenceLen;
      ghost var t := Left();
      var c := text[pos];
      assert t[0] == c;
      if c == BACKSLASH {
        pos := pos + 1;
        assert Left() == t[1..];
        got := ReadEscape();
        return;
      }
      if c < 0x20 {
        Fail(ControlCharacter);
        return None;
      }
      var n := SequenceLen(text[pos..]);
      if n == 0 {
        Fail(InvalidUtf8);
        return None;
      }
      got := Some(text[pos..pos + n]);
      assert text[pos..pos + n] == t[..n];
      pos := pos + n;
      assert Left() == t[n..];
    }

    /** A string token, from its opening quote to just past its closing one, into a buffer. When the buffer fails the
        token is read to its end all the same, and no error is set. */
    method ReadString(out: Buffer) returns (ok: bool)
      requires Valid() && out.Valid() && out.data == [] && out.cap == 0 && !out.failed && out.memory == strings
      modifies this`pos, this`error, out
      ensures out.Valid()
      ensures var r := ParseString(old(Left()));
              if ok then Agrees(r, Some(out.data)) && !out.failed && (out.data == [] ==> out.cap == 0)
              else (r.Err? && error == Some(Malformed(r.error))) ||
                   (r.Ok? && r.value != [] && error.None? && !strings.reliable)
      ensures ok ==> old(pos) < pos <= |text| && |out.data| < |text|
    {
      hide Chunk, Doubled;
      ghost var t := Left();
      if PeekChar() != QUOTE {
        Fail(ExpectedString);
        return false;
      }
      pos := pos + 1;
      assert Left() == t[1..];
      ghost var whole: Bytes := [];
      PrependNothing(StringBody(Left()));
      while true
        invariant Valid() && pos > old(pos) && |whole| < pos && out.Valid()
        invariant ParseString(t) == Prepend(whole, StringBody(Left()))
        invariant if out.failed then whole != [] && !strings.reliable else out.data == whole
        invariant !out.failed && whole == [] ==> out.cap == 0
        decreases |text| - pos
      {
        ghost var left := Left();
        if AtEnd() {
          Fail(UnterminatedString);
          return false;
        }
        assert left[0] == text[pos];
        if text[pos] == QUOTE {
          pos := pos + 1;
          assert Left() == left[1..] && whole + [] == whole;
          return !out.failed;
        }
        var chunk := ReadChunk();
        if chunk.None? {
          return false;
        }
        PrependTwice(whole, chunk.value, StringBody(Left()));
        out.Append(chunk.value);
        whole := whole + chunk.value;
      }
    }

    // ----- numbers

    method SkipDigits()
      requires Valid()
      modifies this`pos
      ensures Valid() && pos == old(pos) + DigitRun(old(Left()))
    {
      ghost var t, start := Left(), pos;
      while IsDigit(PeekChar())
        invariant Valid() && pos >= start && DigitRun(t) == pos - start + DigitRun(Left())
        decreases |text| - pos
      {
        assert Left()[1..] == text[pos + 1..];
        pos := pos + 1;
      }
    }

    /** The fraction and the exponent, if any. */
    method ReadTail() returns (got: Option<bool>)
      requires Valid()
      modifies this`pos, this`error
      ensures Agrees(ScanFraction(old(Left())), got)
      ensures got.Some? ==> pos >= old(pos)
    {
      hide DigitRun;
      ghost var t := Left();
      var integer := true;
      if PeekChar() == DOT {
        integer := false;
        pos := pos + 1;
        ghost var u := Left();
        assert u == t[1..];
        DigitRunAtLeast(u);
        if !IsDigit(PeekChar()) {
          Fail(NoFractionDigits);
          return None;
        }
        SkipDigits();
        assert Left() == t[1 + DigitRun(u)..];
      }
      assert ScanFraction(t) == ScanExponent(Left(), integer);
      got := ReadExponent(integer);
    }

    method ReadExponent(integer: bool) returns (got: Option<bool>)
      requires Valid()
      modifies this`pos, this`error
      ensures Agrees(ScanExponent(old(Left()), integer), got)
      ensures got.Some? ==> pos >= old(pos)
    {
      hide DigitRun;
      ghost var t := Left();
      if PeekChar() != LOWER_E && PeekChar() != UPPER_E {
        return Some(integer);
      }
      pos := pos + 1;
      assert Left() == t[1..];
      ghost var u := Left();
      if PeekChar() == PLUS || PeekChar() == MINUS {
        pos := pos + 1;
        assert Left() == u[1..];
      }
      ghost var w := Left();
      DigitRunAtLeast(w);
      if !IsDigit(PeekChar()) {
        Fail(NoExponentDigits);
        return None;
      }
      SkipDigits();
      assert Left() == w[DigitRun(w)..];
      return Some(false);
    }

    /** A number token. An integer that fits 64 bits is kept exactly; every other literal is a double. */
    method ReadNumber() returns (got: Option<Value>)
      requires Valid()
      modifies this`pos, this`error
      ensures Agrees(ParseNumber(old(Left())), got)
      ensures got.Some? ==> pos >= old(pos)
    {
      hide ScanFraction, Integer;
      ghost var t := Left();
      var start := pos;
      if PeekChar() == MINUS {
        pos := pos + 1;
        assert Left() == t[1..];
      }
      ghost var u := Left();
      if PeekChar() == ZERO {
        pos := pos + 1;
        assert Left() == u[1..];
      } else if IsDigit(PeekChar()) {
        SkipDigits();
        assert Left() == u[DigitRun(u)..];
      } else {
        Fail(MalformedNumber);
        return None;
      }
      assert ScanNumber(t) == ScanFraction(Left());
      var integer := ReadTail();
      if integer.None? {
        return None;
      }
      var token := text[start..pos];
      assert token == t[..|t| - |Left()|];
      if |token| > MAX_NUMBER_CHARS {
        Fail(NumberTooLong);
        return None;
      }
      if integer.value && MIN_INT <= Integer(token) <= MAX_INT {
        return Some(Int(Integer(token)));
      }
      return Some(Real(token));
    }

    // ----- values

    method ReadLiteral(literal: Bytes, value: Value) returns (got: Option<Value>)
      requires Valid() && literal != []
      modifies this`pos, this`error
      ensures Agrees(ParseLiteral(old(Left()), literal, value), got)
    {
      var ok := MatchLiteral(literal);
      if ok {
        return Some(value);
      }
      Fail(UnexpectedToken);
      return None;
    }

    /** An array after its opening bracket. */
    method ReadArray() returns (got: Option<Value>)
      requires Valid()
      modifies this
      ensures Meets(ParseArray(old(Left()), old(depth)), got) && depth == old(depth)
      ensures got.Some? ==> pos > old(pos)
      decreases |text| - pos, 3
    {
      hide JsonParse.SkipBlanks, Elements, HoldsFullString;
      var granted := nodes.Alloc();
      if !granted {
        FailMemory();
        return None;
      }
      SkipBlanks();
      ghost var u := Left();
      if PeekChar() == CLOSE_BRACKET {
        pos := pos + 1;
        assert Left() == u[1..];
        return Some(Array([]));
      }
      var items := ReadElements();
      got := if items.Some? then Some(Array(items.value)) else None;
    }

    /** The elements up to the closing bracket. */
    method ReadElements() returns (got: Option<seq<Value>>)
      requires Valid()
      modifies this
      ensures Meets(Elements(old(Left()), old(depth), []), got) && depth == old(depth)
      ensures got.Some? ==> pos > old(pos)
      decreases |text| - pos, 2
    {
      hide JsonParse.SkipBlanks, ParseValue, CanGrow, HoldsFullString;
      ghost var u, d := Left(), depth;
      var items: seq<Value>, cap := [], 0;
      while true
        invariant Valid() && depth == d && pos >= old(pos) && |items| <= pos && |items| <= cap
        invariant Elements(u, d, []) == Elements(Left(), d, items)
        decreases |text| - pos
      {
        var item := ReadValue();
        if item.None? {
          return None;
        }
        FewCanGrow(|items|, cap, POINTER_SIZE);
        var granted;
        granted, cap := Grow(|items|, cap, POINTER_SIZE, nodes);
        if !granted {
          FailMemory();
          return None;
        }
        items := items + [item.value];
        SkipBlanks();
        ghost var w := Left();
        if PeekChar() == COMMA {
          pos := pos + 1;
          assert Left() == w[1..];
          SkipBlanks();
        } else if PeekChar() == CLOSE_BRACKET {
          pos := pos + 1;
          assert Left() == w[1..];
          return Some(items);
        } else {
          Fail(ExpectedCommaOrBracket);
          return None;
        }
      }
    }

    /** A key as a C string. */
    method ReadKey() returns (got: Option<Bytes>)
      requires Valid()
      modifies this`pos, this`error
      ensures var r := ParseString(old(Left()));
              if got.Some? then Agrees(r, got) && NoNul(got.value)
              else (r.Err? && error == Some(Malformed(r.error))) ||
                   (r.Ok? && !NoNul(r.value) && error == Some(Malformed(InvalidKey))) || Refused()
      ensures got.Some? ==> old(pos) < pos && |got.value| <= |text|
      ensures EmptyString(old(Left())) && strings.spent && !strings.reliable ==>
                got.None? && error == Some(Malformed(InvalidKey))
    {
      hide ParseString, Doubled;
      ghost var start := pos;
      var out := new Buffer(strings);
      var ok := ReadString(out);
      if !ok {
        return None;
      }
      ghost var cap := out.cap;
      got := out.DetachString();
      if got.None? {
        if NoNul(ParseString(text[start..]).value) {
          FullString(text, start, cap);
        }
        Fail(InvalidKey);
      }
    }

    /** A key, a colon and a value. */
    method ReadMember() returns (got: Option<Member>)
      requires Valid()
      modifies this
      ensures Meets(ParseMember(old(Left()), old(depth)), got) && depth == old(depth)
      ensures got.Some? ==> pos > old(pos) && |got.value.key| <= |text|
      ensures EmptyString(old(Left())) && strings.spent && !strings.reliable ==>
                got.None? && error == Some(Malformed(InvalidKey))
      decreases |text| - pos, 2
    {
      hide JsonParse.SkipBlanks, ParseValue, ParseString, HoldsFullString;
      var key := ReadKey();
      if key.None? {
        return None;
      }
      SkipBlanks();
      ghost var c := Left();
      if PeekChar() != COLON {
        Fail(ExpectedColon);
        return None;
      }
      pos := pos + 1;
      assert Left() == c[1..];
      var item := ReadValue();
      got := if item.Some? then Some(Member(key.value, item.value)) else None;
    }

    /** One member, set in the object. */
    method ReadInto(node: ObjectNode) returns (ok: bool)
      requires Valid() && node.Valid() && node.memory == nodes && |node.members| <= pos
      modifies this, node
      ensures node.Valid() && depth == old(depth)
      ensures var r := ParseMember(old(Left()), old(depth));
              if ok then r.Ok? && Valid() && Left() == r.rest && old(pos) < pos && |node.members| <= pos &&
                         node.members == Set(old(node.members), r.value.key, r.value.value)
              else (r.Err? && error == Some(Malformed(r.error))) || Refused()
      ensures EmptyString(old(Left())) && strings.spent && !strings.reliable ==>
                !ok && error == Some(Malformed(InvalidKey))
      decreases |text| - pos, 3
    {
      hide ParseMember, Set, CanGrow, DistinctKeys, HoldsFullString;
      var m := ReadMember();
      if m.None? {
        return false;
      }
      FewCanGrow(|node.members|, node.cap, MEMBER_SIZE);
      SetSize(node.members, m.value.key, m.value.value);
      ok := node.SetMember(m.value.key, m.value.value);
      if !ok {
        FailMemory();
      }
    }

    /** An object after its opening brace. A repeated key replaces the value it had. */
    method ReadObject() returns (got: Option<Value>)
      requires Valid()
      modifies this
      ensures Meets(ParseObject(old(Left()), old(depth)), got) && depth == old(depth)
      ensures got.Some? ==> pos > old(pos)
      ensures EmptyKeyRefused(old(Left())) ==> got.None? && error == Some(Malformed(InvalidKey))
      decreases |text| - pos, 5
    {
      hide JsonParse.SkipBlanks, Members, DistinctKeys, HoldsFullString, EmptyString;
      var granted := nodes.Alloc();
      if !granted {
        FailMemory();
        return None;
      }
      var node := new ObjectNode(nodes);
      SkipBlanks();
      ghost var u := Left();
      if PeekChar() == CLOSE_BRACE {
        NotEmptyString(u);
        pos := pos + 1;
        assert Left() == u[1..];
        return Some(Object([]));
      }
      var ok := ReadMembers(node);
      got := if ok then Some(Object(node.members)) else None;
    }

    /** The members up to the closing brace. */
    method ReadMembers(node: ObjectNode) returns (ok: bool)
      requires Valid() && node.Valid() && node.memory == nodes && |node.members| <= pos
      modifies this, node
      ensures node.Valid() && depth == old(depth)
      ensures var r := Members(old(Left()), old(depth), old(node.members));
              if ok then Agrees(r, Some(node.members)) && old(pos) < pos
              else (r.Err? && error == Some(Malformed(r.error))) || Refused()
      ensures EmptyString(old(Left())) && strings.spent && !strings.reliable ==>
                !ok && error == Some(Malformed(InvalidKey))
      decreases |text| - pos, 4
    {
      hide JsonParse.SkipBlanks, ParseMember, Set, DistinctKeys, HoldsFullString, EmptyString;
      ghost var u, d, m := Left(), depth, node.members;
      while true
        invariant Valid() && depth == d && pos >= old(pos) && node.Valid() && |node.members| <= pos
        invariant Members(u, d, m) == Members(Left(), d, node.members)
        invariant EmptyString(u) && strings.spent && !strings.reliable ==> Left() == u
        decreases |text| - pos
      {
        ok := ReadInto(node);
        if !ok {
          return;
        }
        SkipBlanks();
        ghost var w := Left();
        if PeekChar() == COMMA {
          pos := pos + 1;
          assert Left() == w[1..];
          SkipBlanks();
        } else if PeekChar() == CLOSE_BRACE {
          pos := pos + 1;
          assert Left() == w[1..];
          return true;
        } else {
          Fail(ExpectedCommaOrBrace);
          return false;
        }
      }
    }

    /** A string value, copied from its buffer. */
    method ReadText() returns (got: Option<Value>)
      requires Valid()
      modifies this`pos, this`error
      ensures match ParseString(old(Left()))
              case Ok(s, rest) => Agrees(Ok(Text(s), rest), got) || (got.None? && Refused())
              case Err(e) => got.None? && error == Some(Malformed(e))
      ensures got.Some? ==> pos > old(pos)
    {
      hide ParseString, Doubled, HoldsFullString;
      var out := new Buffer(strings);
      var ok := ReadString(out);
      if !ok {
        return None;
      }
      var raw := out.Detach();
      if raw.None? {
        return None;
      }
      ok := strings.Alloc();
      got := if ok then Some(Text(raw.value)) else None;
    }

    /** The value that starts here, by its first character. A node that is refused sets no error yet. */
    method ReadToken() returns (got: Option<Value>)
      requires Valid()
      modifies this
      ensures Meets(ParseToken(old(Left()), old(depth)), got) && depth == old(depth)
      ensures got.Some? ==> pos > old(pos)
      ensures Peek(old(Left())) == OPEN_BRACE && EmptyKeyRefused(old(Left())[1..]) ==>
                got.None? && error == Some(Malformed(InvalidKey))
      decreases |text| - pos, 0
    {
      hide ParseString, ParseNumber, ParseArray, ParseObject, ParseLiteral, HoldsFullString, EmptyKeyRefused;
      ghost var t := Left();
      var c := PeekChar();
      if c == OPEN_BRACE {
        pos := pos + 1;
        assert Left() == t[1..];
        got := ReadObject();
        return;
      } else if c == OPEN_BRACKET {
        pos := pos + 1;
        assert Left() == t[1..];
        got := ReadArray();
        return;
      } else if c == QUOTE {
        got := ReadText();
      } else if c == TRUE[0] {
        got := ReadLiteral(TRUE, Bool(true));
      } else if c == FALSE[0] {
        got := ReadLiteral(FALSE, Bool(false));
      } else if c == NULL[0] {
        got := ReadLiteral(NULL, Null);
      } else if c == MINUS || IsDigit(c) {
        got := ReadNumber();
      } else {
        Fail(UnexpectedToken);
        return None;
      }
      var granted := nodes.Alloc();
      if got.Some? && !granted {
        got := None;
      }
    }

    /** One value. The depth goes up on the way in and down on the way out. */
    method ReadValue() returns (got: Option<Value>)
      requires Valid()
      modifies this
      ensures Meets(ParseValue(old(Left()), old(depth)), got) && depth == old(depth)
      ensures got.Some? ==> pos > old(pos)
      ensures got.None? ==> error.Some?
      ensures depth < MAX_DEPTH && EmptyKeyFirst(old(Left())) && nodes.reliable && strings.spent &&
              !strings.reliable ==>
                got.None? && error == Some(Malformed(InvalidKey))
      decreases |text| - pos, 1
    {
      hide JsonParse.SkipBlanks, ParseToken, HoldsFullString, EmptyString;
      if depth >= MAX_DEPTH {
        Fail(TooDeep);
        return None;
      }
      depth := depth + 1;
      SkipBlanks();
      got := ReadToken();
      if got.None? {
        if error.None? {
          FailMemory();
        }
      }
      depth := depth - 1;
    }
  }

  // ----- what refused memory can do

  /** The text holds, at p, a string token whose bytes fill a buffer to the brim: none, or 64 doubled some number of
      times. Ending such a string takes one more allocation. */
  ghost predicate FullStringAt(text: Bytes, p: nat)
  {
    p <= |text| && ParseString(text[p..]).Ok? && Doubled(|ParseString(text[p..]).value|)
  }

  ghost predicate HoldsFullString(text: Bytes) { exists p: nat :: FullStringAt(text, p) }

  lemma FullString(text: Bytes, p: nat, cap: nat)
    requires p <= |text| && ParseString(text[p..]).Ok? && Doubled(cap) && |ParseString(text[p..]).value| == cap
    ensures HoldsFullString(text)
  {
    assert FullStringAt(text, p);
  }

  ghost predicate EmptyString(t: Bytes) { ParseString(t).Ok? && ParseString(t).value == [] }

  lemma NotEmptyString(t: Bytes)
    requires Peek(t) != QUOTE
    ensures !EmptyString(t)
  {
  }

  /** An object whose first key is empty. */
  ghost predicate EmptyKeyFirst(t: Bytes)
  {
    var u := SkipBlanks(t);
    Peek(u) == OPEN_BRACE && EmptyString(SkipBlanks(u[1..]))
  }

  lemma DigitRunAtLeast(t: Bytes)
    ensures DigitRun(t) > 0 <==> IsDigit(Peek(t))
  {
  }

  lemma PrependNothing(r: Parsed<Bytes>)
    ensures Prepend([], r) == r
  {
    if r.Ok? {
      assert [] + r.value == r.value;
    }
  }

  lemma PrependTwice(a: Bytes, b: Bytes, r: Parsed<Bytes>)
    ensures Prepend(a, Prepend(b, r)) == Prepend(a + b, r)
  {
    if r.Ok? {
      assert a + (b + r.value) == a + b + r.value;
    }
  }

  lemma HexAll(t: Bytes)
    requires |t| >= 4 && forall k :: 0 <= k < 4 ==> HexDigit(t[k]) >= 0
    ensures HexPrefix(t, 4) == Hex4(t)
  {
    assert HexPrefix(t, 1) == HexDigit(t[0]);
    assert HexPrefix(t, 2) == HexDigit(t[0]) * 16 + HexDigit(t[1]);
  }

  ghost function HexPrefix(t: Bytes, i: nat): int
    requires i <= 4 <= |t|
  {
    if i == 0 then 0 else HexPrefix(t, i - 1) * 16 + HexDigit(t[i - 1])
  }

  /** Why nothing came out although the text may be good: memory was refused, and the error may blame a key then. */
  ghost predicate Blamed(text: Bytes, nodes: Memory, strings: Memory, error: Option<Failure>)
  {
    || (error == Some(MemoryRefused) && !(nodes.reliable && strings.reliable))
    || (error == Some(Malformed(InvalidKey)) && !strings.reliable && HoldsFullString(text))
  }

  /** tamga_json_parse: the value, or the first error. With reliable memory that is what the grammar says; otherwise
      out of memory, or an invalid key when the text holds a string that fills its buffer. When strings alone are
      refused, an empty first key is always called invalid. */
  method ParseText(text: Bytes, nodes: Memory, strings: Memory) returns (got: Option<Value>, error: Option<Failure>)
    ensures var r := Parse(text);
            || (r.Ok? && got == Some(r.value) && error.None?)
            || (r.Err? && got.None? && error == Some(Malformed(r.error)))
            || (got.None? && Blamed(text, nodes, strings, error))
    ensures |text| <= MAX_INPUT && nodes.reliable && strings.spent && !strings.reliable && EmptyKeyFirst(text) ==>
              got.None? && error == Some(Malformed(InvalidKey))
  {
    hide ParseValue, SkipBlanks, EmptyKeyFirst, HoldsFullString;
    if |text| > MAX_INPUT {
      return None, Some(Malformed(InputTooLong));
    }
    var p := new Parser(text, nodes, strings);
    assert p.Left() == text;
    got := p.ReadValue();
    if got.None? {
      return None, p.error;
    }
    p.SkipBlanks();
    if !p.AtEnd() {
      return None, Some(Malformed(TrailingContent));
    }
    return got, None;
  }
}
