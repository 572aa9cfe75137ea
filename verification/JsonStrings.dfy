/** The spellings of a JSON string: which pieces it is made of, what each one means, and that the parser reads exactly
    these. Section 7 of RFC 8259. */
module JsonStrings {
  import opened Limbs
  import opened Utf8
  import opened JsonParse

  /** A hexadecimal digit of either case. */
  predicate Hex(c: u8, d: int)
  {
    0 <= d < 16 && (c == "0123456789abcdef"[d] as int || c == "0123456789ABCDEF"[d] as int)
  }

  /** Four digits that spell a 16-bit code unit. */
  predicate Unit(h: Bytes, u: int)
  {
    |h| == 4 && 0 <= u < 0x1_0000 &&
    Hex(h[0], u / 4096) && Hex(h[1], u / 256 % 16) && Hex(h[2], u / 16 % 16) && Hex(h[3], u % 16)
  }

  /** The short escapes: a letter and the byte it stands for. */
  predicate ShortEscape(letter: u8, byte: u8)
  {
    || (letter == '\"' as int && byte == 0x22)
    || (letter == '\\' as int && byte == 0x5C)
    || (letter == '/' as int && byte == 0x2F)
    || (letter == 'b' as int && byte == 0x08)
    || (letter == 'f' as int && byte == 0x0C)
    || (letter == 'n' as int && byte == 0x0A)
    || (letter == 'r' as int && byte == 0x0D)
    || (letter == 't' as int && byte == 0x09)
  }

  /** One character of a string: as it is, by a short escape, by its code unit or by a surrogate pair. */
  datatype Piece =
    | Plain(c: int)
    | Short(letter: u8, byte: u8)
    | Single(c: int, unit: Bytes)
    | Paired(c: int, high: Bytes, low: Bytes)

  predicate Good(p: Piece)
  {
    match p
    case Plain(c) => Scalar(c) && c >= 0x20 && c != 0x22 && c != 0x5C
    case Short(letter, byte) => ShortEscape(letter, byte)
    case Single(c, unit) => c < 0x1_0000 && Scalar(c) && Unit(unit, c)
    case Paired(c, high, low) =>
      0x1_0000 <= c < 0x11_0000 && Unit(high, 0xD800 + (c - 0x1_0000) / 1024) &&
      Unit(low, 0xDC00 + (c - 0x1_0000) % 1024)
  }

  function Spelling(p: Piece): Bytes
    requires Good(p)
  {
    match p
    case Plain(c) => Encode(c)
    case Short(letter, _) => [0x5C, letter]
    case Single(_, unit) => [0x5C, 0x75] + unit
    case Paired(_, high, low) => [0x5C, 0x75] + high + [0x5C, 0x75] + low
  }

  function Meaning(p: Piece): Bytes
    requires Good(p)
  {
    match p
    case Short(_, byte) => [byte]
    case _ => Encode(p.c)
  }

  // ----- from the character to the text

  lemma HexDigitIs(c: u8, d: int)
    requires 0 <= d < 16
    ensures Hex(c, d) <==> HexDigit(c) == d
  {
  }

  lemma HexValue(a: int, b: int, c: int, d: int, u: int)
    requires 0 <= a < 16 && 0 <= b < 16 && 0 <= c < 16 && 0 <= d < 16 && 0 <= u < 0x1_0000
    ensures ((a * 16 + b) * 16 + c) * 16 + d == u <==>
            a == u / 4096 && b == u / 256 % 16 && c == u / 16 % 16 && d == u % 16
  {
    HexStep((a * 16 + b) * 16 + c, d, u);
    HexStep(a * 16 + b, c, u / 16);
    HexStep(a, b, u / 256);
    Sixteenths(u);
  }

  lemma HexStep(q: int, d: int, u: int)
    requires 0 <= d < 16
    ensures q * 16 + d == u <==> q == u / 16 && d == u % 16
  {
  }

  lemma Sixteenths(u: int)
    ensures u / 16 / 16 == u / 256 && u / 256 / 16 == u / 4096
  {
  }

  /** Four characters are read as u exactly when they spell it. */
  lemma UnitRead(h: Bytes, u: int, rest: Bytes)
    requires |h| == 4 && 0 <= u < 0x1_0000
    ensures Unit(h, u) <==> Hex4(h + rest) == u
  {
    hide HexDigit, Hex;
    var t := h + rest;
    assert t[0] == h[0] && t[1] == h[1] && t[2] == h[2] && t[3] == h[3];
    HexDigitIs(h[0], u / 4096);
    HexDigitIs(h[1], u / 256 % 16);
    HexDigitIs(h[2], u / 16 % 16);
    HexDigitIs(h[3], u % 16);
    if Hex4(t) == u {
      HexValue(HexDigit(h[0]), HexDigit(h[1]), HexDigit(h[2]), HexDigit(h[3]), u);
    }
    if Unit(h, u) {
      HexValue(u / 4096, u / 256 % 16, u / 16 % 16, u % 16, u);
    }
  }

  /** A scalar beyond the basic plane, written as the escapes of its two surrogates. */
  lemma PairRead(c: int, high: Bytes, low: Bytes, rest: Bytes)
    requires 0x1_0000 <= c < 0x11_0000
    requires Unit(high, 0xD800 + (c - 0x1_0000) / 1024) && Unit(low, 0xDC00 + (c - 0x1_0000) % 1024)
    ensures Chunk([0x5C, 0x75] + high + [0x5C, 0x75] + low + rest) == Ok(Encode(c), rest)
  {
    hide Hex4, Unit, Encode;
    var more := [0x5C, 0x75] + low + rest;
    var t := [0x5C, 0x75] + high + [0x5C, 0x75] + low + rest;
    SizeOfUnit(high, 0xD800 + (c - 0x1_0000) / 1024);
    SizeOfUnit(low, 0xDC00 + (c - 0x1_0000) % 1024);
    assert t[1..][1..] == high + more && (high + more)[4..] == more && more[2..] == low + rest && more[6..] == rest;
    UnitRead(high, 0xD800 + (c - 0x1_0000) / 1024, more);
    UnitRead(low, 0xDC00 + (c - 0x1_0000) % 1024, rest);
  }

  lemma SizeOfUnit(h: Bytes, u: int)
    requires Unit(h, u)
    ensures |h| == 4 && 0 <= u < 0x1_0000
  {
  }

  /** A scalar of the basic plane, written as the escape of its code unit. */
  lemma SingleRead(c: int, unit: Bytes, rest: Bytes)
    requires c < 0x1_0000 && Scalar(c) && Unit(unit, c)
    ensures Chunk([0x5C, 0x75] + unit + rest) == Ok(Encode(c), rest)
  {
    hide Hex4, Unit, Encode;
    var t := [0x5C, 0x75] + unit + rest;
    SizeOfUnit(unit, c);
    assert t[1..][1..] == unit + rest && (unit + rest)[4..] == rest;
    UnitRead(unit, c, rest);
  }

  lemma ShortRead(letter: u8, byte: u8, rest: Bytes)
    requires ShortEscape(letter, byte)
    ensures Chunk([0x5C, letter] + rest) == Ok([byte], rest)
  {
    assert ([0x5C, letter] + rest)[1..][1..] == rest;
  }

  lemma PlainRead(c: int, rest: Bytes)
    requires Scalar(c) && c >= 0x20 && c != 0x22 && c != 0x5C
    ensures var t := Encode(c) + rest; t[0] != QUOTE && Chunk(t) == Ok(Encode(c), rest)
  {
    var s := Encode(c);
    var t := s + rest;
    EncodeAccepted(c, rest);
    hide SequenceLen;
    assert t[..|s|] == s && t[|s|..] == rest;
  }

  /** Every piece is read as what it means, whatever follows it. */
  lemma PieceRead(p: Piece, rest: Bytes)
    requires Good(p)
    ensures var t := Spelling(p) + rest; t != [] && t[0] != QUOTE && Chunk(t) == Ok(Meaning(p), rest)
  {
    hide Unit, Chunk, Encode, Scalar, ShortEscape;
    match p
    case Plain(c) => PlainRead(c, rest);
    case Short(letter, byte) => ShortRead(letter, byte, rest);
    case Single(c, unit) => SingleRead(c, unit, rest);
    case Paired(c, high, low) => PairRead(c, high, low, rest);
  }

  // ----- from the text to the character

  /** Whatever the parser takes as one character has such a spelling. */
  lemma PieceOf(t: Bytes) returns (p: Piece)
    requires t != [] && t[0] != QUOTE && Chunk(t).Ok?
    ensures Good(p) && Meaning(p) == Chunk(t).value && t == Spelling(p) + Chunk(t).rest
  {
    hide Unit, Encode, SequenceLen, HexDigit;
    if t[0] != BACKSLASH {
      p := PlainOf(t);
    } else if t[1] != LOWER_U {
      p := Short(t[1], Chunk(t).value[0]);
    } else {
      p := EscapeOf(t);
    }
  }

  lemma PlainOf(t: Bytes) returns (p: Piece)
    requires t != [] && t[0] != QUOTE && t[0] != BACKSLASH && Chunk(t).Ok?
    ensures Good(p) && Meaning(p) == Chunk(t).value && t == Spelling(p) + Chunk(t).rest
  {
    AcceptedIsEncoding(t);
    var n := SequenceLen(t);
    hide SequenceLen;
    p := Plain(Decode(t, n));
    assert t == t[..n] + t[n..] && t[..n][0] == t[0];
  }

  lemma EscapeOf(t: Bytes) returns (p: Piece)
    requires |t| >= 2 && t[0] == BACKSLASH && t[1] == LOWER_U && Chunk(t).Ok?
    ensures Good(p) && Meaning(p) == Chunk(t).value && t == Spelling(p) + Chunk(t).rest
  {
    hide Unit, Hex4, Encode;
    var u := t[2..];
    assert t[1..][1..] == u;
    var unit := Hex4(u);
    UnitRead(u[..4], unit, u[4..]);
    assert u[..4] + u[4..] == u;
    if 0xD800 <= unit <= 0xDBFF {
      var w := u[4..];
      var low := Hex4(w[2..]);
      var v := w[2..];
      UnitRead(v[..4], low, v[4..]);
      assert v[..4] + v[4..] == v;
      var c := 0x1_0000 + (unit - 0xD800) * 1024 + (low - 0xDC00);
      assert (c - 0x1_0000) / 1024 == unit - 0xD800 && (c - 0x1_0000) % 1024 == low - 0xDC00;
      p := Paired(c, u[..4], v[..4]);
      assert t == [0x5C, 0x75] + u[..4] + [0x5C, 0x75] + v[..4] + w[6..];
    } else {
      p := Single(unit, u[..4]);
      assert t == [0x5C, 0x75] + u[..4] + u[4..];
    }
  }

  // ----- whole strings

  predicate AllGood(s: seq<Piece>) { forall p :: p in s ==> Good(p) }

  function Spellings(s: seq<Piece>): Bytes
    requires AllGood(s)
  {
    if s == [] then [] else Spelling(s[0]) + Spellings(s[1..])
  }

  function Meanings(s: seq<Piece>): Bytes
    requires AllGood(s)
  {
    if s == [] then [] else Meaning(s[0]) + Meanings(s[1..])
  }

  lemma {:induction false} StringRead(s: seq<Piece>, rest: Bytes)
    requires AllGood(s)
    ensures StringBody(Spellings(s) + [0x22] + rest) == Ok(Meanings(s), rest)
  {
    hide Chunk, Good, Spelling, Meaning;
    var t := Spellings(s) + [0x22] + rest;
    if s == [] {
      assert t[1..] == rest;
    } else {
      var more := Spellings(s[1..]) + [0x22] + rest;
      assert t == Spelling(s[0]) + more;
      PieceRead(s[0], more);
      StringRead(s[1..], rest);
    }
  }

  lemma {:induction false} StringOf(t: Bytes) returns (s: seq<Piece>)
    requires StringBody(t).Ok?
    ensures AllGood(s)
    ensures Meanings(s) == StringBody(t).value && t == Spellings(s) + [0x22] + StringBody(t).rest
    decreases |t|
  {
    hide Chunk, Good, Spelling, Meaning;
    if t[0] == QUOTE {
      s := [];
      assert t == [t[0]] + t[1..];
    } else {
      var p := PieceOf(t);
      var tail := StringOf(Chunk(t).rest);
      s := [p] + tail;
      assert s[1..] == tail;
    }
  }

  /** A string is read to v exactly when it is a closed row of pieces that mean v together. */
  lemma StringExact(t: Bytes, v: Bytes, rest: Bytes)
    ensures StringBody(t) == Ok(v, rest) <==>
            exists s: seq<Piece> :: AllGood(s) && t == Spellings(s) + [0x22] + rest &&
              v == Meanings(s)
  {
    hide StringBody, Spellings, Meanings;
    if StringBody(t) == Ok(v, rest) {
      var s := StringOf(t);
    }
    forall s: seq<Piece> |
        AllGood(s) && t == Spellings(s) + [0x22] + rest && v == Meanings(s)
      ensures StringBody(t) == Ok(v, rest)
    {
      StringRead(s, rest);
    }
  }
}
