/** UTF-8: the validator accepts exactly the encodings of Unicode scalar values. */
module Utf8 {
  import opened Limbs

  type Bytes = seq<u8>

  /** A byte of the form 10xxxxxx. */
  predicate Continuation(b: u8) { 0x80 <= b <= 0xBF }

  /** The length of the sequence at the start of t, or 0 if it is malformed or cut short. */
  function SequenceLen(t: Bytes): (n: nat)
    ensures n <= 4 && n <= |t|
  {
    if |t| == 0 then 0
    else
      var b0 := t[0];
      if b0 < 0x80 then 1
      else if 0xC2 <= b0 <= 0xDF then
        if |t| < 2 || !Continuation(t[1]) then 0 else 2
      else if 0xE0 <= b0 <= 0xEF then
        var lower := if b0 == 0xE0 then 0xA0 else 0x80;
        var upper := if b0 == 0xED then 0x9F else 0xBF;
        if |t| < 3 || t[1] < lower || t[1] > upper || !Continuation(t[2]) then 0 else 3
      else if 0xF0 <= b0 <= 0xF4 then
        var lower := if b0 == 0xF0 then 0x90 else 0x80;
        var upper := if b0 == 0xF4 then 0x8F else 0xBF;
        if |t| < 4 || t[1] < lower || t[1] > upper || !Continuation(t[2]) || !Continuation(t[3]) then 0 else 4
      else 0
  }

  /** A code point that is not a surrogate. */
  predicate Scalar(c: int) { 0 <= c < 0xD800 || 0xDFFF < c < 0x11_0000 }

  /** tamga_utf8_encode: the bits OR-ed into each byte are disjoint, so OR is addition. */
  function Encode(c: int): (s: Bytes)
    requires 0 <= c < 0x11_0000
    ensures 1 <= |s| <= 4
  {
    if c < 0x80 then [c]
    else if c < 0x800 then [0xC0 + c / 64, 0x80 + c % 64]
    else if c < 0x1_0000 then [0xE0 + c / 4096, 0x80 + c / 64 % 64, 0x80 + c % 64]
    else [0xF0 + c / 0x4_0000, 0x80 + c / 4096 % 64, 0x80 + c / 64 % 64, 0x80 + c % 64]
  }

  /** The code point a well-formed sequence of n bytes spells. */
  function Decode(s: Bytes, n: nat): int
    requires 1 <= n <= 4 && n <= |s|
  {
    var a: int := s[0];
    if n == 1 then a
    else
      var b: int := s[1];
      if n == 2 then Horner(a - 0xC0, b - 0x80)
      else
        var c: int := s[2];
        if n == 3 then Horner(Horner(a - 0xE0, b - 0x80), c - 0x80)
        else
          var d: int := s[3];
          Horner(Horner(Horner(a - 0xF0, b - 0x80), c - 0x80), d - 0x80)
  }

  function Horner(a: int, b: int): int { a * 64 + b }

  /** The six-bit digits of a number below 2^24, and the number back from them. */
  lemma SixBits(c: int)
    requires 0 <= c < 0x100_0000
    ensures c == Horner(c / 64, c % 64) && c / 64 == Horner(c / 4096, c / 64 % 64) &&
            c / 4096 == Horner(c / 0x4_0000, c / 4096 % 64)
  {
    Quotients(c, 64);
    Quotients(c, 4096);
  }

  lemma Quotients(c: int, k: int)
    requires 0 <= c && (k == 64 || k == 4096)
    ensures c / k / 64 == c / (k * 64)
  {
    var q, r := c / (k * 64), c % (k * 64);
    assert c == k * (64 * q) + r;
    assert c / k == 64 * q + r / k;
  }

  lemma SixBitsBack(a: int, b: int, c: int, d: int)
    requires 0 <= a < 64 && 0 <= b < 64 && 0 <= c < 64 && 0 <= d < 64
    ensures var v := Horner(Horner(Horner(a, b), c), d);
            v % 64 == d && v / 64 % 64 == c && v / 4096 % 64 == b && v / 0x4_0000 == a
  {
    var v := Horner(Horner(Horner(a, b), c), d);
    assert v / 64 == Horner(Horner(a, b), c);
    assert v / 4096 == Horner(a, b);
  }

  /** The encoding of a scalar value is accepted whole, whatever follows it, and decodes to the scalar. */
  lemma EncodeAccepted(c: int, rest: Bytes)
    requires Scalar(c)
    ensures var s := Encode(c); SequenceLen(s + rest) == |s| && Decode(s, |s|) == c
  {
    SixBits(c);
    if c < 0x80 {
    } else if c < 0x800 {
      assert 2 <= c / 64 < 32;
    } else if c < 0x1_0000 {
      Lead3(c);
      Accept3(c, rest);
    } else {
      Lead4(c);
      Accept4(c, rest);
    }
  }

  lemma Accept3(c: int, rest: Bytes)
    requires 0x800 <= c < 0x1_0000 && Scalar(c)
    ensures var s := Encode(c); |s| == 3 && SequenceLen(s + rest) == 3 && Decode(s, 3) == c
  {
    SixBits(c);
    Lead3(c);
  }

  lemma Accept4(c: int, rest: Bytes)
    requires 0x1_0000 <= c < 0x11_0000
    ensures var s := Encode(c); |s| == 4 && SequenceLen(s + rest) == 4 && Decode(s, 4) == c
  {
    SixBits(c);
    Lead4(c);
  }

  lemma Lead3(c: int)
    requires 0x800 <= c < 0x1_0000 && Scalar(c)
    ensures 0 <= c / 4096 < 16 && (c / 4096 == 0 ==> c / 64 % 64 >= 32) && (c / 4096 == 13 ==> c / 64 % 64 < 32)
  {
    SixBits(c);
  }

  lemma Lead4(c: int)
    requires 0x1_0000 <= c < 0x11_0000
    ensures 0 <= c / 0x4_0000 <= 4 && (c / 0x4_0000 == 0 ==> c / 4096 % 64 >= 16) &&
            (c / 0x4_0000 == 4 ==> c / 4096 % 64 < 16)
  {
    SixBits(c);
  }

  lemma Spell2(a: u8, b: u8)
    requires 0xC2 <= a <= 0xDF && Continuation(b)
    ensures var c := Horner(a as int - 0xC0, b as int - 0x80); Scalar(c) && Encode(c) == [a, b]
  {
    SixBitsBack(0, 0, a as int - 0xC0, b as int - 0x80);
  }

  lemma Spell3(a: u8, b: u8, d: u8)
    requires 0xE0 <= a <= 0xEF && Continuation(b) && Continuation(d) && (a == 0xE0 ==> b >= 0xA0) &&
             (a == 0xED ==> b <= 0x9F)
    ensures var c := Horner(Horner(a as int - 0xE0, b as int - 0x80), d as int - 0x80);
            Scalar(c) && Encode(c) == [a, b, d]
  {
    SixBitsBack(0, a as int - 0xE0, b as int - 0x80, d as int - 0x80);
  }

  lemma Spell4(a: u8, b: u8, d: u8, e: u8)
    requires 0xF0 <= a <= 0xF4 && Continuation(b) && Continuation(d) && Continuation(e)
    requires (a == 0xF0 ==> b >= 0x90) && (a == 0xF4 ==> b <= 0x8F)
    ensures var c := Horner(Horner(Horner(a as int - 0xF0, b as int - 0x80), d as int - 0x80), e as int - 0x80);
            Scalar(c) && Encode(c) == [a, b, d, e]
  {
    SixBitsBack(a as int - 0xF0, b as int - 0x80, d as int - 0x80, e as int - 0x80);
  }

  /** An accepted sequence is the encoding of a scalar value: nothing overlong, no surrogate, nothing past U+10FFFF. */
  lemma AcceptedIsEncoding(t: Bytes)
    requires SequenceLen(t) > 0
    ensures var n := SequenceLen(t); Scalar(Decode(t, n)) && t[..n] == Encode(Decode(t, n))
  {
    hide Encode;
    var n := SequenceLen(t);
    if n == 1 {
      Spell1(t[0]);
      assert t[..1] == [t[0]];
    } else if n == 2 {
      Spell2(t[0], t[1]);
      assert t[..2] == [t[0], t[1]];
    } else if n == 3 {
      Spell3(t[0], t[1], t[2]);
      assert t[..3] == [t[0], t[1], t[2]];
    } else {
      Spell4(t[0], t[1], t[2], t[3]);
      assert t[..4] == [t[0], t[1], t[2], t[3]];
    }
  }

  lemma Spell1(a: u8)
    requires a < 0x80
    ensures Scalar(a) && Encode(a) == [a]
  {
  }

  /** A whole number of well-formed sequences. */
  predicate Valid(s: Bytes)
  {
    s == [] || (SequenceLen(s) > 0 && Valid(s[SequenceLen(s)..]))
  }

  /** What follows an accepted sequence does not matter to it. */
  lemma LenPrefix(s: Bytes, rest: Bytes)
    requires SequenceLen(s) > 0
    ensures SequenceLen(s + rest) == SequenceLen(s)
  {
  }

  lemma {:induction false} ValidConcat(a: Bytes, b: Bytes)
    requires Valid(a) && Valid(b)
    ensures Valid(a + b)
    decreases |a|
  {
    if a == [] {
      assert a + b == b;
    } else {
      var n := SequenceLen(a);
      LenPrefix(a, b);
      assert (a + b)[n..] == a[n..] + b;
      ValidConcat(a[n..], b);
    }
  }

  lemma ValidEncode(c: int)
    requires Scalar(c)
    ensures Valid(Encode(c))
  {
    var s := Encode(c);
    EncodeAccepted(c, []);
    assert s + [] == s && s[|s|..] == [];
  }

  lemma ValidSequence(t: Bytes)
    requires SequenceLen(t) > 0
    ensures Valid(t[..SequenceLen(t)])
  {
    AcceptedIsEncoding(t);
    ValidEncode(Decode(t, SequenceLen(t)));
  }
}
