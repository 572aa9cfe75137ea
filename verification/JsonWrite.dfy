/** The text the compact writer produces. */
module JsonWrite {
  import opened Limbs
  import opened Utf8
  import opened Json
  import opened JsonParse

  function HexOf(d: int): (c: u8)
    requires 0 <= d < 16
    ensures HexDigit(c) == d
  {
    if d < 10 then 0x30 + d else 0x61 + (d - 10)
  }

  /** A byte inside a string: five short escapes, the quote and the backslash, other controls as \u00xx. */
  function EscapeByte(c: u8): (r: Bytes)
    ensures |r| > 0
  {
    if c == QUOTE then [BACKSLASH, QUOTE]
    else if c == BACKSLASH then [BACKSLASH, BACKSLASH]
    else if c == 0x08 then [BACKSLASH, 0x62]
    else if c == 0x0C then [BACKSLASH, 0x66]
    else if c == 0x0A then [BACKSLASH, 0x6E]
    else if c == 0x0D then [BACKSLASH, 0x72]
    else if c == 0x09 then [BACKSLASH, 0x74]
    else if c < 0x20 then [BACKSLASH, LOWER_U, ZERO, ZERO, HexOf(c / 16), HexOf(c % 16)]
    else [c]
  }

  function Escaped(s: Bytes): Bytes
  {
    if s == [] then [] else EscapeByte(s[0]) + Escaped(s[1..])
  }

  function Quoted(s: Bytes): Bytes { [QUOTE] + Escaped(s) + [QUOTE] }

  function DecimalNat(n: nat): (r: Bytes)
    ensures |r| > 0 && forall i :: 0 <= i < |r| ==> IsDigit(r[i])
  {
    if n < 10 then [0x30 + n] else DecimalNat(n / 10) + [0x30 + n % 10]
  }

  function Decimal(i: int): (r: Bytes)
    ensures |r| > 0
  {
    if i < 0 then [MINUS] + DecimalNat(-i) else DecimalNat(i)
  }

  /** Compact text. What a double prints as is left to format. */
  function Write(v: Value, format: Bytes -> Bytes): Bytes
  {
    match v
    case Null => NULL
    case Bool(b) => if b then TRUE else FALSE
    case Int(i) => Decimal(i)
    case Real(token) => format(token)
    case Text(s) => Quoted(s)
    case Array(items) => [OPEN_BRACKET] + WriteItems(v, 0, format) + [CLOSE_BRACKET]
    case Object(m) => [OPEN_BRACE] + WriteMembers(v, 0, format) + [CLOSE_BRACE]
  }

  /** The items from i on, separated by commas. */
  function WriteItems(v: Value, i: nat, format: Bytes -> Bytes): Bytes
    requires v.Array? && i <= |v.items|
    decreases v, |v.items| - i
  {
    if i == |v.items| then []
    else if i + 1 == |v.items| then Write(v.items[i], format)
    else Write(v.items[i], format) + [COMMA] + WriteItems(v, i + 1, format)
  }

  function WriteMember(m: Member, format: Bytes -> Bytes): Bytes
    decreases m
  {
    Quoted(m.key) + [COLON] + Write(m.value, format)
  }

  function WriteMembers(v: Value, i: nat, format: Bytes -> Bytes): Bytes
    requires v.Object? && i <= |v.members|
    decreases v, |v.members| - i
  {
    if i == |v.members| then []
    else if i + 1 == |v.members| then WriteMember(v.members[i], format)
    else WriteMember(v.members[i], format) + [COMMA] + WriteMembers(v, i + 1, format)
  }
}
