/** Strict DER: the reader accepts exactly the shortest encodings, and inverts them. */
module Der {
  import opened Arith
  import opened Limbs
  import opened Digits
  import opened Utf8
  import opened Buf
  import ModExp
  import Sha

  // ----- the encoder the reader inverts

  /** How many bytes a length from 0x80 up needs. */
  function ByteCount(n: nat): nat
  {
    if n < 0x100 then 1 else if n < 0x1_0000 then 2 else if n < 0x100_0000 then 3 else 4
  }

  /** The shortest form of a length below 2^32. */
  function LengthBytes(n: nat): Bytes
    requires n < 0x1_0000_0000
  {
    if n < 0x80 then [n] else [0x80 + ByteCount(n)] + Sha.BeBytes(n, ByteCount(n))
  }

  /** A tag in the low-tag-number form. */
  predicate LowTag(tag: u8) { tag % 32 != 31 }

  function Tlv(tag: u8, content: Bytes): Bytes
    requires |content| < 0x1_0000_0000
  {
    [tag] + LengthBytes(|content|) + content
  }

  // ----- tamga_der_read

  datatype Element = Element(tag: u8, content: Bytes, rest: Bytes)

  /** The length after the tag: the number and what follows it. */
  function ReadLength(t: Bytes): (r: Option<(nat, Bytes)>)
    ensures r.Some? ==> |r.value.1| < |t|
  {
    if t == [] then None
    else if t[0] < 0x80 then Some((t[0] as nat, t[1..]))
    else
      var count := t[0] - 0x80;
      if count == 0 || count > 4 || |t| - 1 < count || t[1] == 0 then None
      else
        var length := BeVal(t[1..1 + count]);
        if length < 0x80 then None else Some((length, t[1 + count..]))
  }

  function Read(t: Bytes): Option<Element>
  {
    if |t| < 2 || !LowTag(t[0]) then None
    else
      match ReadLength(t[1..])
      case None => None
      case Some(p) => if |p.1| < p.0 then None else Some(Element(t[0], p.1[..p.0], p.1[p.0..]))
  }

  lemma SmallPowers()
    ensures Pow(256, 0) == 1 && Pow(256, 1) == 0x100 && Pow(256, 2) == 0x1_0000 && Pow(256, 3) == 0x100_0000 &&
            Pow(256, 4) == 0x1_0000_0000
  {
    assert Pow(256, 2) == 256 * (256 * Pow(256, 0));
    assert Pow(256, 4) == 256 * (256 * Pow(256, 2));
    assert Pow(256, 3) == 256 * Pow(256, 2);
  }

  /** A number written without a leading zero byte needs that many bytes. */
  lemma FirstByte(s: Bytes)
    requires s != [] && s[0] != 0
    ensures Pow(256, |s| - 1) <= BeVal(s) < Pow(256, |s|)
  {
    hide Pow, BeVal;
    BeSplit(s, 1);
    BeBound(s);
    assert s[..1] == [s[0]];
    BeOne(s[0]);
    MulMono(1, s[0], Pow(256, |s| - 1));
  }

  lemma CountOf(s: Bytes)
    requires 1 <= |s| <= 4 && s[0] != 0
    ensures BeVal(s) < 0x1_0000_0000 && ByteCount(BeVal(s)) == |s| && Sha.BeBytes(BeVal(s), |s|) == s
  {
    hide Pow, BeVal, Sha.BeBytes;
    SmallPowers();
    FirstByte(s);
    Sha.BeBytesValue(BeVal(s), |s|);
    BeUnique(Sha.BeBytes(BeVal(s), |s|), s);
  }

  lemma CountBack(n: nat)
    requires 0x80 <= n < 0x1_0000_0000
    ensures var s := Sha.BeBytes(n, ByteCount(n)); |s| == ByteCount(n) && s[0] != 0 && BeVal(s) == n
  {
    hide Pow, BeVal, Sha.BeBytes;
    SmallPowers();
    var k := ByteCount(n);
    var s := Sha.BeBytes(n, k);
    Sha.BeBytesValue(n, k);
    if s[0] == 0 {
      LeadingZero(s);
      assert false;
    }
  }

  lemma LeadingZero(s: Bytes)
    requires s != [] && s[0] == 0
    ensures BeVal(s) < Pow(256, |s| - 1)
  {
    hide Pow, BeVal;
    BeSplit(s, 1);
    assert s[..1] == [s[0]];
    BeOne(s[0]);
  }

  /** Reading a length accepts exactly the shortest forms. */
  lemma LengthExact(t: Bytes, n: nat, rest: Bytes)
    ensures ReadLength(t) == Some((n, rest)) <==> n < 0x1_0000_0000 && t == LengthBytes(n) + rest
  {
    if ReadLength(t) == Some((n, rest)) {
      LengthRead(t, n, rest);
    }
    if n < 0x1_0000_0000 && t == LengthBytes(n) + rest {
      LengthWritten(n, rest);
    }
  }

  lemma LengthRead(t: Bytes, n: nat, rest: Bytes)
    requires ReadLength(t) == Some((n, rest))
    ensures n < 0x1_0000_0000 && t == LengthBytes(n) + rest
  {
    hide BeVal, Sha.BeBytes, ByteCount;
    if t[0] < 0x80 {
      assert t == [t[0]] + t[1..];
    } else {
      var count := t[0] - 0x80;
      var s := t[1..1 + count];
      CountOf(s);
      assert t == [t[0]] + s + t[1 + count..];
    }
  }

  lemma LengthWritten(n: nat, rest: Bytes)
    requires n < 0x1_0000_0000
    ensures ReadLength(LengthBytes(n) + rest) == Some((n, rest))
  {
    hide BeVal, Sha.BeBytes;
    var t := LengthBytes(n) + rest;
    if n < 0x80 {
      assert t[1..] == rest;
    } else {
      var k := ByteCount(n);
      CountBack(n);
      assert t[1..1 + k] == Sha.BeBytes(n, k) && t[1 + k..] == rest;
    }
  }

  /** The reader accepts exactly the minimal-length encodings of low-tag elements below 2^32 bytes. */
  lemma ReadExact(t: Bytes, tag: u8, content: Bytes, rest: Bytes)
    ensures Read(t) == Some(Element(tag, content, rest)) <==>
            LowTag(tag) && |content| < 0x1_0000_0000 && t == Tlv(tag, content) + rest
  {
    hide ReadLength, LengthBytes;
    if Read(t) == Some(Element(tag, content, rest)) {
      var p := ReadLength(t[1..]).value;
      LengthExact(t[1..], p.0, p.1);
      assert t == [t[0]] + t[1..] && p.1 == content + rest;
      assert t == [tag] + (LengthBytes(|content|) + (content + rest));
    }
    if LowTag(tag) && |content| < 0x1_0000_0000 && t == Tlv(tag, content) + rest {
      var n, after := |content|, content + rest;
      assert t[1..] == LengthBytes(n) + after;
      LengthExact(t[1..], n, after);
      NotEmpty(n);
      assert after[..n] == content && after[n..] == rest;
    }
  }

  lemma NotEmpty(n: nat)
    requires n < 0x1_0000_0000
    ensures |LengthBytes(n)| >= 1
  {
  }

  // ----- tamga_der_read_unsigned, tamga_der_read_bit_string

  const INTEGER: u8 := 0x02
  const BIT_STRING: u8 := 0x03
  const OID: u8 := 0x06
  const SEQUENCE: u8 := 0x30

  /** A magnitude without a leading zero byte, zero itself being one zero byte. */
  predicate Minimal(value: Bytes) { value == [0] || (value != [] && value[0] != 0) }

  /** The content of a non-negative INTEGER. */
  function IntegerContent(value: Bytes): Bytes { if value != [] && value[0] >= 0x80 then [0] + value else value }

  /** The magnitude in an INTEGER's content. */
  function Magnitude(content: Bytes): Option<Bytes>
  {
    if content == [] || content[0] >= 0x80 then None
    else if content[0] == 0 then
      if |content| == 1 then Some(content) else if content[1] < 0x80 then None else Some(content[1..])
    else Some(content)
  }

  lemma MagnitudeExact(content: Bytes, value: Bytes)
    ensures Magnitude(content) == Some(value) <==> Minimal(value) && content == IntegerContent(value)
  {
    if Minimal(value) && content == IntegerContent(value) {
      if value[0] >= 0x80 {
        assert content[1..] == value;
      }
    }
    if Magnitude(content) == Some(value) && content[0] == 0 && |content| > 1 {
      assert content == [0] + value;
    }
    if Magnitude(content) == Some(value) && content[0] == 0 && |content| == 1 {
      assert value == [0];
    }
  }

  // ----- the reader

  class Reader {
    const data: Bytes
    var pos: nat

    ghost predicate Valid()
      reads this
    {
      pos <= |data|
    }

    ghost function Left(): Bytes
      requires pos <= |data|
      reads this
    {
      data[pos..]
    }

    constructor (data: Bytes)
      ensures Valid() && this.data == data && Left() == data
    {
      this.data := data;
      pos := 0;
    }

    predicate AtEnd()
      reads this
    {
      pos >= |data|
    }

    lemma EndIsEmpty()
      requires Valid()
      ensures AtEnd() <==> Left() == []
    {
    }

    /** Four length bytes at most, the first of them not zero. */
    method ReadLongLength(count: nat) returns (length: nat)
      requires Valid() && pos + count <= |data|
      modifies this`pos
      ensures Valid() && pos == old(pos) + count && length == BeVal(data[old(pos)..pos])
    {
      length := 0;
      var i := 0;
      ghost var start := pos;
      assert data[start..start] == [];
      ModExp.BeEmpty();
      while i < count
        invariant 0 <= i <= count && pos == start + i && length == BeVal(data[start..pos])
      {
        ModExp.BeLast(data[start..pos], data[pos]);
        assert data[start..pos] + [data[pos]] == data[start..pos + 1];
        length := length * 256 + data[pos];
        pos := pos + 1;
        i := i + 1;
      }
    }

    /** The length after the tag, in its shortest form. */
    method TakeLength() returns (r: Option<nat>)
      requires Valid()
      modifies this`pos
      ensures Valid()
      ensures match ReadLength(old(Left()))
              case None => r.None?
              case Some(p) => r == Some(p.0) && Left() == p.1
    {
      hide BeVal;
      ghost var u := Left();
      if pos >= |data| {
        return None;
      }
      var first := data[pos];
      pos := pos + 1;
      assert u[0] == first && u[1..] == data[pos..];
      if first < 0x80 {
        return Some(first as nat);
      }
      var count := first - 0x80;
      if count == 0 || count > 4 || |data| - pos < count {
        return None;
      }
      if data[pos] == 0 {
        assert u[1] == 0;
        return None;
      }
      var length := ReadLongLength(count);
      assert u[1..1 + count] == data[pos - count..pos] && u[1 + count..] == data[pos..];
      r := if length < 0x80 then None else Some(length);
    }

    /** The next element; nothing is promised about the position when there is none. */
    method ReadElement() returns (r: Option<(u8, Bytes)>)
      requires Valid()
      modifies this`pos
      ensures Valid()
      ensures match Read(old(Left()))
              case None => r.None?
              case Some(e) => r == Some((e.tag, e.content)) && Left() == e.rest
    {
      hide ReadLength;
      ghost var t := Left();
      if pos >= |data| || |data| - pos < 2 {
        return None;
      }
      if data[pos] % 32 == 31 {
        return None;
      }
      var tag := data[pos];
      pos := pos + 1;
      assert Left() == t[1..];
      var length := TakeLength();
      if length.None? || |data| - pos < length.value {
        return None;
      }
      var n := length.value;
      r := Some((tag, data[pos..pos + n]));
      assert data[pos..][..n] == data[pos..pos + n] && data[pos..][n..] == data[pos + n..];
      pos := pos + n;
    }

    /** The content of the next element, when it has this tag. */
    method Expect(tag: u8) returns (r: Option<Bytes>)
      requires Valid()
      modifies this`pos
      ensures Valid()
      ensures var e := Read(old(Left()));
              (r.Some? <==> e.Some? && e.value.tag == tag) &&
                (r.Some? ==> r.value == e.value.content && Left() == e.value.rest)
    {
      hide Read;
      var e := ReadElement();
      if e.None? || e.value.0 != tag {
        return None;
      }
      return Some(e.value.1);
    }

    method ReadUnsigned() returns (r: Option<Bytes>)
      requires Valid()
      modifies this`pos
      ensures Valid()
      ensures var e := Read(old(Left()));
              (r.Some? <==> e.Some? && e.value.tag == INTEGER && Magnitude(e.value.content).Some?) &&
              (r.Some? ==> r == Magnitude(e.value.content) && Left() == e.value.rest)
    {
      hide Read;
      var content := Expect(INTEGER);
      if content.None? {
        return None;
      }
      return Magnitude(content.value);
    }
  }
}
