/** What the JSON parser accepts and what it makes of it, on the text that is left to read. */
module JsonParse {
  import opened Limbs
  import opened Utf8
  import opened Json

  const QUOTE: u8 := 0x22
  const BACKSLASH: u8 := 0x5C
  const COMMA: u8 := 0x2C
  const COLON: u8 := 0x3A
  const OPEN_BRACKET: u8 := 0x5B
  const CLOSE_BRACKET: u8 := 0x5D
  const OPEN_BRACE: u8 := 0x7B
  const CLOSE_BRACE: u8 := 0x7D
  const MINUS: u8 := 0x2D
  const PLUS: u8 := 0x2B
  const DOT: u8 := 0x2E
  const ZERO: u8 := 0x30
  const NINE: u8 := 0x39
  const LOWER_E: u8 := 0x65
  const UPPER_E: u8 := 0x45
  const LOWER_U: u8 := 0x75

  const TRUE: Bytes := [0x74, 0x72, 0x75, 0x65]
  const FALSE: Bytes := [0x66, 0x61, 0x6C, 0x73, 0x65]
  const NULL: Bytes := [0x6E, 0x75, 0x6C, 0x6C]

  const MAX_NUMBER_CHARS: nat := 340
  const MAX_INPUT: nat := 16 * 1024 * 1024

  datatype Error =
    | TooDeep | UnexpectedToken | ExpectedString | UnterminatedString | UnterminatedEscape | UnknownEscape
    | MalformedUnicodeEscape | UnpairedHigh | UnpairedLow | ControlCharacter | InvalidUtf8
    | MalformedNumber | NoFractionDigits | NoExponentDigits | NumberTooLong
    | ExpectedCommaOrBracket | ExpectedCommaOrBrace | ExpectedColon | InvalidKey | TrailingContent | InputTooLong

  /** What was read and what is left, or the first error. */
  datatype Parsed<T> = Ok(value: T, rest: Bytes) | Err(error: Error)

  /** The next character, NUL at the end. */
  function Peek(t: Bytes): u8 { if t == [] then 0 else t[0] }

  predicate Blank(c: u8) { c == 0x20 || c == 0x09 || c == 0x0A || c == 0x0D }

  function SkipBlanks(t: Bytes): (r: Bytes)
    ensures |r| <= |t|
  {
    if t != [] && Blank(t[0]) then SkipBlanks(t[1..]) else t
  }

  predicate IsDigit(c: u8) { ZERO <= c <= NINE }

  // ----- strings

  function HexDigit(c: u8): (d: int)
    ensures -1 <= d < 16
  {
    if 0x30 <= c <= 0x39 then c - 0x30
    else if 0x61 <= c <= 0x66 then c - 0x61 + 10
    else if 0x41 <= c <= 0x46 then c - 0x41 + 10
    else -1
  }

  /** Four hexadecimal digits, or -1. */
  function Hex4(t: Bytes): (v: int)
    ensures -1 <= v < 0x1_0000 && (v >= 0 ==> |t| >= 4)
  {
    if |t| < 4 || HexDigit(t[0]) < 0 || HexDigit(t[1]) < 0 || HexDigit(t[2]) < 0 || HexDigit(t[3]) < 0 then -1
    else ((HexDigit(t[0]) * 16 + HexDigit(t[1])) * 16 + HexDigit(t[2])) * 16 + HexDigit(t[3])
  }

  /** What comes after "\u": one code unit, or a surrogate pair written as two escapes. */
  function UnicodeEscape(t: Bytes): (r: Parsed<Bytes>)
    ensures r.Ok? ==> |r.rest| < |t|
  {
    var unit := Hex4(t);
    if unit < 0 then Err(MalformedUnicodeEscape)
    else if 0xD800 <= unit <= 0xDBFF then
      var u := t[4..];
      if |u| < 6 || u[0] != BACKSLASH || u[1] != LOWER_U then Err(UnpairedHigh)
      else
        var low := Hex4(u[2..]);
        if low < 0 then Err(MalformedUnicodeEscape)
        else if low < 0xDC00 || low > 0xDFFF then Err(UnpairedHigh)
        else Ok(Encode(0x1_0000 + (unit - 0xD800) * 1024 + (low - 0xDC00)), u[6..])
    else if 0xDC00 <= unit <= 0xDFFF then Err(UnpairedLow)
    else Ok(Encode(unit), t[4..])
  }

  /** What comes after a backslash. */
  function Escape(t: Bytes): (r: Parsed<Bytes>)
    ensures r.Ok? ==> |r.rest| < |t|
  {
    if t == [] then Err(UnterminatedEscape)
    else
      var rest := t[1..];
      if t[0] == QUOTE || t[0] == BACKSLASH || t[0] == 0x2F then Ok([t[0]], rest)
      else if t[0] == 0x62 then Ok([0x08], rest)
      else if t[0] == 0x66 then Ok([0x0C], rest)
      else if t[0] == 0x6E then Ok([0x0A], rest)
      else if t[0] == 0x72 then Ok([0x0D], rest)
      else if t[0] == 0x74 then Ok([0x09], rest)
      else if t[0] == LOWER_U then UnicodeEscape(rest)
      else Err(UnknownEscape)
  }

  /** Puts bytes already read in front of what is read next. */
  function Prepend(head: Bytes, r: Parsed<Bytes>): Parsed<Bytes>
  {
    match r
    case Ok(tail, rest) => Ok(head + tail, rest)
    case Err(e) => Err(e)
  }

  /** One character or escape of a string that goes on. */
  function Chunk(t: Bytes): (r: Parsed<Bytes>)
    requires t != [] && t[0] != QUOTE
    ensures r.Ok? ==> |r.rest| < |t|
  {
    if t[0] == BACKSLASH then Escape(t[1..])
    else if t[0] < 0x20 then Err(ControlCharacter)
    else
      var n := SequenceLen(t);
      if n == 0 then Err(InvalidUtf8) else Ok(t[..n], t[n..])
  }

  /** A string after its opening quote. */
  function StringBody(t: Bytes): (r: Parsed<Bytes>)
    ensures r.Ok? ==> |r.rest| < |t|
    decreases |t|
  {
    if t == [] then Err(UnterminatedString)
    else if t[0] == QUOTE then Ok([], t[1..])
    else
      match Chunk(t)
      case Err(e) => Err(e)
      case Ok(head, rest) => Prepend(head, StringBody(rest))
  }

  function ParseString(t: Bytes): (r: Parsed<Bytes>)
    ensures r.Ok? ==> |r.rest| < |t|
  {
    if Peek(t) != QUOTE then Err(ExpectedString) else StringBody(t[1..])
  }

  // ----- numbers

  /** How many digits come first. */
  function DigitRun(t: Bytes): (n: nat)
    ensures n <= |t|
  {
    if t != [] && IsDigit(t[0]) then 1 + DigitRun(t[1..]) else 0
  }

  /** The optional exponent. The value says whether the token is still an integer. */
  function ScanExponent(t: Bytes, integer: bool): (r: Parsed<bool>)
    ensures r.Ok? ==> |r.rest| <= |t|
  {
    if Peek(t) != LOWER_E && Peek(t) != UPPER_E then Ok(integer, t)
    else
      var u := t[1..];
      var w := if Peek(u) == PLUS || Peek(u) == MINUS then u[1..] else u;
      var n := DigitRun(w);
      if n == 0 then Err(NoExponentDigits) else Ok(false, w[n..])
  }

  function ScanFraction(t: Bytes): (r: Parsed<bool>)
    ensures r.Ok? ==> |r.rest| <= |t|
  {
    if Peek(t) != DOT then ScanExponent(t, true)
    else
      var n := DigitRun(t[1..]);
      if n == 0 then Err(NoFractionDigits) else ScanExponent(t[1 + n..], false)
  }

  /** A single zero, or digits that do not start with one. */
  function ScanNumber(t: Bytes): (r: Parsed<bool>)
    ensures r.Ok? ==> |r.rest| < |t|
  {
    var u := if Peek(t) == MINUS then t[1..] else t;
    if Peek(u) == ZERO then ScanFraction(u[1..])
    else if IsDigit(Peek(u)) then ScanFraction(u[DigitRun(u)..])
    else Err(MalformedNumber)
  }

  function Natural(s: Bytes): (v: int)
  {
    if s == [] then 0 else Natural(s[..|s| - 1]) * 10 + (s[|s| - 1] as int - 0x30)
  }

  /** The number an integer token spells. */
  function Integer(s: Bytes): int
  {
    if Peek(s) == MINUS then -Natural(s[1..]) else Natural(s)
  }

  function ParseNumber(t: Bytes): (r: Parsed<Value>)
    ensures r.Ok? ==> |r.rest| < |t|
  {
    match ScanNumber(t)
    case Err(e) => Err(e)
    case Ok(integer, rest) =>
      var token := t[..|t| - |rest|];
      if |token| > MAX_NUMBER_CHARS then Err(NumberTooLong)
      else if integer && MIN_INT <= Integer(token) <= MAX_INT then Ok(Int(Integer(token)), rest)
      else Ok(Real(token), rest)
  }

  // ----- values

  function ParseLiteral(t: Bytes, literal: Bytes, value: Value): (r: Parsed<Value>)
    requires literal != []
    ensures r.Ok? ==> |r.rest| < |t|
  {
    if literal <= t then Ok(value, t[|literal|..]) else Err(UnexpectedToken)
  }

  /** The elements of an array from one of them on, after those already read. */
  function Elements(t: Bytes, depth: int, read: seq<Value>): (r: Parsed<seq<Value>>)
    ensures r.Ok? ==> |r.rest| < |t|
    decreases |t|, 2
  {
    match ParseValue(t, depth)
    case Err(e) => Err(e)
    case Ok(item, after) =>
      var u := SkipBlanks(after);
      if Peek(u) == COMMA then Elements(SkipBlanks(u[1..]), depth, read + [item])
      else if Peek(u) == CLOSE_BRACKET then Ok(read + [item], u[1..])
      else Err(ExpectedCommaOrBracket)
  }

  /** A key, a colon and a value. */
  function ParseMember(t: Bytes, depth: int): (r: Parsed<Member>)
    ensures r.Ok? ==> |r.rest| < |t|
    decreases |t|, 2
  {
    match ParseString(t)
    case Err(e) => Err(e)
    case Ok(key, afterKey) =>
      if !NoNul(key) then Err(InvalidKey)
      else
        var u := SkipBlanks(afterKey);
        if Peek(u) != COLON then Err(ExpectedColon)
        else
          match ParseValue(u[1..], depth)
          case Err(e) => Err(e)
          case Ok(item, after) => Ok(Member(key, item), after)
  }

  /** The members of an object from one of them on, after those already read. */
  function Members(t: Bytes, depth: int, read: seq<Member>): (r: Parsed<seq<Member>>)
    ensures r.Ok? ==> |r.rest| < |t|
    decreases |t|, 3
  {
    match ParseMember(t, depth)
    case Err(e) => Err(e)
    case Ok(m, after) =>
      var w := SkipBlanks(after);
      if Peek(w) == COMMA then Members(SkipBlanks(w[1..]), depth, Set(read, m.key, m.value))
      else if Peek(w) == CLOSE_BRACE then Ok(Set(read, m.key, m.value), w[1..])
      else Err(ExpectedCommaOrBrace)
  }

  /** An array after its opening bracket. */
  function ParseArray(t: Bytes, depth: int): (r: Parsed<Value>)
    ensures r.Ok? ==> |r.rest| < |t|
    decreases |t|, 4
  {
    var u := SkipBlanks(t);
    if Peek(u) == CLOSE_BRACKET then Ok(Array([]), u[1..])
    else
      match Elements(u, depth, [])
      case Err(e) => Err(e)
      case Ok(items, rest) => Ok(Array(items), rest)
  }

  /** An object after its opening brace. */
  function ParseObject(t: Bytes, depth: int): (r: Parsed<Value>)
    ensures r.Ok? ==> |r.rest| < |t|
    decreases |t|, 4
  {
    var u := SkipBlanks(t);
    if Peek(u) == CLOSE_BRACE then Ok(Object([]), u[1..])
    else
      match Members(u, depth, [])
      case Err(e) => Err(e)
      case Ok(members, rest) => Ok(Object(members), rest)
  }

  function ParseToken(t: Bytes, depth: int): (r: Parsed<Value>)
    ensures r.Ok? ==> |r.rest| < |t|
    decreases |t|, 0
  {
    var c := Peek(t);
    if c == OPEN_BRACE then ParseObject(t[1..], depth)
    else if c == OPEN_BRACKET then ParseArray(t[1..], depth)
    else if c == QUOTE then
      match ParseString(t)
      case Err(e) => Err(e)
      case Ok(s, rest) => Ok(Text(s), rest)
    else if c == TRUE[0] then ParseLiteral(t, TRUE, Bool(true))
    else if c == FALSE[0] then ParseLiteral(t, FALSE, Bool(false))
    else if c == NULL[0] then ParseLiteral(t, NULL, Null)
    else if c == MINUS || IsDigit(c) then ParseNumber(t)
    else Err(UnexpectedToken)
  }

  function ParseValue(t: Bytes, depth: int): (r: Parsed<Value>)
    ensures r.Ok? ==> |r.rest| < |t|
    decreases |t|, 1
  {
    if depth >= MAX_DEPTH then Err(TooDeep) else ParseToken(SkipBlanks(t), depth + 1)
  }

  /** tamga_json_parse. */
  function Parse(t: Bytes): Parsed<Value>
  {
    if |t| > MAX_INPUT then Err(InputTooLong)
    else
      match ParseValue(t, 0)
      case Err(e) => Err(e)
      case Ok(v, rest) => if SkipBlanks(rest) != [] then Err(TrailingContent) else Ok(v, [])
  }
}
