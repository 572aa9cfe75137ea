/** Every value the parser returns is well formed: UTF-8 strings, distinct NUL-free keys,
    64-bit integers, bounded depth. */
module JsonValid {
  import opened Limbs
  import opened Utf8
  import opened Json
  import opened JsonParse

  lemma UnicodeEscapeValid(t: Bytes)
    requires UnicodeEscape(t).Ok?
    ensures Valid(UnicodeEscape(t).value)
  {
    var unit := Hex4(t);
    if 0xD800 <= unit <= 0xDBFF {
      ValidEncode(0x1_0000 + (unit - 0xD800) * 1024 + (Hex4(t[4..][2..]) - 0xDC00));
    } else {
      ValidEncode(unit);
    }
  }

  lemma ChunkValid(t: Bytes)
    requires t != [] && t[0] != QUOTE && Chunk(t).Ok?
    ensures Valid(Chunk(t).value)
  {
    if t[0] == BACKSLASH {
      if t[1] == LOWER_U {
        UnicodeEscapeValid(t[2..]);
        assert t[1..][1..] == t[2..];
      } else {
        ValidEncode(Chunk(t).value[0]);
      }
    } else {
      ValidSequence(t);
    }
  }

  /** Every string the parser accepts decodes to valid UTF-8, surrogate pairs included. */
  lemma {:induction false} StringValid(t: Bytes)
    requires StringBody(t).Ok?
    ensures Valid(StringBody(t).value)
    decreases |t|
  {
    if t[0] != QUOTE {
      hide Chunk;
      ChunkValid(t);
      StringValid(Chunk(t).rest);
      ValidConcat(Chunk(t).value, StringBody(Chunk(t).rest).value);
    }
  }

  lemma ParsedString(t: Bytes)
    requires ParseString(t).Ok?
    ensures Valid(ParseString(t).value)
  {
    StringValid(t[1..]);
  }

  lemma {:induction false} ElementsFormed(t: Bytes, depth: int, read: seq<Value>)
    requires Elements(t, depth, read).Ok?
    requires forall i :: 0 <= i < |read| ==> WellFormed(read[i]) && Fits(read[i], depth)
    ensures var items := Elements(t, depth, read).value;
            forall i :: 0 <= i < |items| ==> WellFormed(items[i]) && Fits(items[i], depth)
    decreases |t|, 2
  {
    ValueFormed(t, depth);
    var p := ParseValue(t, depth);
    var u := SkipBlanks(p.rest);
    if Peek(u) == COMMA {
      ElementsFormed(SkipBlanks(u[1..]), depth, read + [p.value]);
    }
  }

  ghost predicate MembersFormed(m: seq<Member>, depth: int)
  {
    DistinctKeys(m) && forall i :: 0 <= i < |m| ==> MemberFormed(m[i]) && Fits(m[i].value, depth)
  }

  lemma SetFormed(m: seq<Member>, key: Bytes, value: Value, depth: int)
    requires MembersFormed(m, depth) && MemberFormed(Member(key, value)) && Fits(value, depth)
    ensures MembersFormed(Set(m, key, value), depth)
  {
    hide Find, WellFormed, Fits;
  }

  lemma {:induction false} ParsedMemberFormed(t: Bytes, depth: int)
    requires ParseMember(t, depth).Ok?
    ensures var m := ParseMember(t, depth).value; MemberFormed(m) && Fits(m.value, depth)
    decreases |t|, 2
  {
    hide WellFormed, Fits, ParseString;
    ParsedString(t);
    var u := SkipBlanks(ParseString(t).rest);
    ValueFormed(u[1..], depth);
  }

  lemma {:induction false} MembersAreFormed(t: Bytes, depth: int, read: seq<Member>)
    requires Members(t, depth, read).Ok? && MembersFormed(read, depth)
    ensures MembersFormed(Members(t, depth, read).value, depth)
    decreases |t|, 3
  {
    hide Set, MembersFormed, MemberFormed, Fits, ParseMember;
    ParsedMemberFormed(t, depth);
    var p := ParseMember(t, depth);
    SetFormed(read, p.value.key, p.value.value, depth);
    var w := SkipBlanks(p.rest);
    if Peek(w) == COMMA {
      MembersAreFormed(SkipBlanks(w[1..]), depth, Set(read, p.value.key, p.value.value));
    }
  }

  lemma {:induction false} ValueFormed(t: Bytes, depth: int)
    requires ParseValue(t, depth).Ok?
    ensures WellFormed(ParseValue(t, depth).value) && Fits(ParseValue(t, depth).value, depth)
    decreases |t|, 1
  {
    hide StringBody, ScanNumber, Set, Valid, ParseLiteral;
    var u := SkipBlanks(t);
    var c := Peek(u);
    assert ParseValue(t, depth) == ParseToken(u, depth + 1);
    if c == OPEN_BRACE {
      assert ParseToken(u, depth + 1) == ParseObject(u[1..], depth + 1);
      var w := SkipBlanks(u[1..]);
      if Peek(w) != CLOSE_BRACE {
        MembersAreFormed(w, depth + 1, []);
      }
    } else if c == OPEN_BRACKET {
      assert ParseToken(u, depth + 1) == ParseArray(u[1..], depth + 1);
      var w := SkipBlanks(u[1..]);
      if Peek(w) != CLOSE_BRACKET {
        ElementsFormed(w, depth + 1, []);
      }
    } else if c == QUOTE {
      ParsedString(u);
    } else if c == MINUS || IsDigit(c) {
    } else {
      LiteralIs(u, c);
    }
  }

  lemma LiteralIs(u: Bytes, c: u8)
    ensures var r := ParseLiteral(u, TRUE, Bool(true)); r.Ok? ==> r.value == Bool(true)
    ensures var r := ParseLiteral(u, FALSE, Bool(false)); r.Ok? ==> r.value == Bool(false)
    ensures var r := ParseLiteral(u, NULL, Null); r.Ok? ==> r.value == Null
  {
  }

  /** What tamga_json_parse returns, for every input. */
  lemma ParsedIsWellFormed(t: Bytes)
    requires Parse(t).Ok?
    ensures WellFormed(Parse(t).value) && Fits(Parse(t).value, 0)
  {
    ValueFormed(t, 0);
  }
}
