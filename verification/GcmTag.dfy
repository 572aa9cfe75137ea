/** What sealing computes, from bytes to bytes: the keystream position by position, the length block by its two
    numbers and the tag as one polynomial. */
module GcmTag {
  import opened Arith
  import ModExp
  import opened Gcm
  import opened GcmField
  import opened GcmSeal

  // ----- big-endian numbers

  ghost function Be(s: Bytes): int
  {
    if s == [] then 0 else 256 * Be(s[..|s| - 1]) + Number(s[|s| - 1])
  }

  lemma NumberInjective(a: Byte, b: Byte)
    requires Number(a) == Number(b)
    ensures a == b
  {
    assert a == (a as int) as Byte && b == (b as int) as Byte;
  }

  lemma {:induction false} BeUnique(s: Bytes, t: Bytes)
    requires |s| == |t| && Be(s) == Be(t)
    ensures s == t
  {
    hide Number;
    if s != [] {
      var n := |s| - 1;
      UpIs(s[n]);
      UpIs(t[n]);
      NumberInjective(s[n], t[n]);
      BeUnique(s[..n], t[..n]);
      assert s == s[..n] + [s[n]] && t == t[..n] + [t[n]];
    }
  }

  lemma BeNext(r: Bytes, n: nat)
    requires 0 < n <= |r|
    ensures Be(r[..n]) == 256 * Be(r[..n - 1]) + Number(r[n - 1])
  {
    assert r[..n][..n - 1] == r[..n - 1];
  }

  lemma DigitAt(v: nat, i: nat)
    requires i < 8
    ensures Number(U64(v)[i]) == v / Shifted(i) % 256
  {
    hide Shifted;
    ByteOf(v / Shifted(i) % 256);
  }

  lemma ByteOf(d: int)
    requires 0 <= d < 256
    ensures Number(d as Byte) == d
  {
  }

  lemma ShiftedDown(v: nat, i: nat)
    requires 0 < i < 8
    ensures v / Shifted(i - 1) == v / Shifted(i) / 256
  {
    assert i == 1 || i == 2 || i == 3 || i == 4 || i == 5 || i == 6 || i == 7;
  }

  /** The first n bytes hold what is left of the number above them, modulo 256^n. */
  lemma {:induction false} Leading(v: nat, n: nat)
    requires 0 < n <= 8
    ensures Be(U64(v)[..n]) == v / Shifted(n - 1) % Pow(256, n)
  {
    hide Number, Shifted, U64, Pow, Be;
    var r := U64(v);
    BeNext(r, n);
    DigitAt(v, n - 1);
    ModExp.PowNext(256, n - 1);
    if n == 1 {
      BeNone(r[..0]);
      ModExp.PowZero(256);
    } else {
      Leading(v, n - 1);
      ShiftedDown(v, n - 1);
      Assemble(Be(r[..n - 1]), v / Shifted(n - 1), Pow(256, n - 1));
    }
  }

  lemma ModStep(q: nat, m: int)
    requires m > 0
    ensures 256 * (q / 256 % m) + q % 256 == q % (256 * m)
  {
    var h := q / 256;
    MulAssoc(h / m, 256, m);
    DivModUnique(q, h / m, 256 * (h % m) + q % 256, 256 * m);
  }

  lemma Assemble(b: int, q: nat, m: int)
    requires m > 0 && b == q / 256 % m
    ensures 256 * b + q % 256 == q % (256 * m)
  {
    ModStep(q, m);
  }

  /** The eight bytes hold the number modulo 2^64. */
  lemma U64Is(v: nat)
    ensures Be(U64(v)) == v % 0x1_0000_0000_0000_0000
  {
    hide U64, Be, Pow;
    Leading(v, 8);
    assert U64(v)[..8] == U64(v);
    Pow64();
  }

  lemma Pow64()
    ensures Pow(256, 8) == 0x1_0000_0000_0000_0000
  {
    hide Pow;
    ModExp.PowNext(256, 7);
    ModExp.PowNext(256, 6);
    ModExp.PowNext(256, 5);
    ModExp.PowNext(256, 4);
    ModExp.PowNext(256, 3);
    ModExp.PowNext(256, 2);
    ModExp.PowNext(256, 1);
    ModExp.PowNext(256, 0);
    ModExp.PowZero(256);
  }

  // ----- blocks

  /** Block i holds bytes 16 i to 16 i + 15, with zeros past the end. */
  lemma {:induction false} BlockAt(data: Bytes, i: nat, b: Bytes)
    requires i < |Blocks(data)| && |b| == 16
    requires forall k :: 0 <= k < 16 ==> b[k] == if 16 * i + k < |data| then data[16 * i + k] else 0
    ensures Blocks(data)[i] == Bits(b)
    decreases i
  {
    hide Bits;
    BlocksNext(data);
    if i == 0 {
      assert b == Pad(data[..Min16(|data|)]);
    } else {
      BlockAt(data[16..], i - 1, b);
    }
  }

  // ----- the keystream

  lemma {:induction false} CounterLater(c: Bytes, n: nat)
    requires |c| == 16
    ensures CounterAt(Inc32(c), n) == CounterAt(c, n + 1)
  {
    hide Inc32;
    if n > 0 {
      CounterLater(c, n - 1);
    }
  }

  lemma {:induction false} StreamAt(e: Bytes -> Bytes, c: Bytes, input: Bytes, i: nat)
    requires |c| == 16 && Cipher(e) && i < |input|
    ensures Stream(e, c, input)[i] == input[i] ^ e(CounterAt(c, 1 + i / 16))[i % 16]
    decreases i
  {
    hide Inc32, XorBytes;
    var next, take := Inc32(c), Min16(|input|);
    if i < 16 {
      XorAt(input[..take], e(next), i);
      assert CounterAt(c, 1) == Inc32(CounterAt(c, 0)) == next;
    } else {
      StreamAt(e, next, input[take..], i - 16);
      CounterLater(c, 1 + (i - 16) / 16);
    }
  }

  lemma XorAt(a: Bytes, k: Bytes, i: nat)
    requires i < |a| <= |k|
    ensures XorBytes(a, k)[i] == a[i] ^ k[i]
  {
  }

  lemma CounterIsBe(c: Bytes)
    requires |c| == 16
    ensures Counter(c) == Be(c[12..])
  {
    hide Number, Be;
    var t := c[12..];
    BeNext(t, 4);
    BeNext(t, 3);
    BeNext(t, 2);
    BeNext(t, 1);
    assert t[..4] == t;
    BeNone(t[..0]);
  }

  lemma BeNone(s: Bytes)
    requires s == []
    ensures Be(s) == 0
  {
  }

  /** The keystream byte at position i comes from the nonce followed by the 32-bit number 2 + i / 16. */
  lemma KeystreamAt(e: Bytes -> Bytes, nonce: Bytes, input: Bytes, i: nat, block: Bytes)
    requires |nonce| == 12 && Cipher(e) && i < |input|
    requires |block| == 16 && block[..12] == nonce && Be(block[12..]) == (2 + i / 16) % 0x1_0000_0000
    ensures Stream(e, nonce + [0, 0, 0, 1], input)[i] == input[i] ^ e(block)[i % 16]
  {
    hide Be, Number, Stream, CounterAt, Counter;
    var j0: Bytes := nonce + [0, 0, 0, 1];
    var c := CounterAt(j0, 1 + i / 16);
    StreamAt(e, j0, input, i);
    CounterValue(j0, 1 + i / 16);
    CounterOfFirst(nonce);
    CounterIsBe(c);
    BeUnique(c[12..], block[12..]);
    assert c == c[..12] + c[12..] && block == block[..12] + block[12..];
  }

  lemma CounterOfFirst(nonce: Bytes)
    requires |nonce| == 12
    ensures Counter(nonce + [0, 0, 0, 1]) == 1
  {
    assert Number(0) == 0 && Number(1) == 1;
  }

  // ----- the tag

  /** The sixteen bytes that close the hashed text: both lengths in bits, the associated data's first. */
  ghost predicate Lengths(l: Bytes, aad: Bytes, text: Bytes)
  {
    |l| == 16 && Be(l[..8]) == 8 * |aad| % 0x1_0000_0000_0000_0000 &&
    Be(l[8..]) == 8 * |text| % 0x1_0000_0000_0000_0000
  }

  lemma LengthsExact(l: Bytes, aad: Bytes, text: Bytes)
    ensures Lengths(l, aad, text) <==> l == LengthBlock(|aad|, |text|)
  {
    hide Be, U64;
    var m := LengthBlock(|aad|, |text|);
    U64Is(8 * |aad|);
    U64Is(8 * |text|);
    assert m[..8] == U64(8 * |aad|) && m[8..] == U64(8 * |text|);
    if Lengths(l, aad, text) {
      BeUnique(l[..8], m[..8]);
      BeUnique(l[8..], m[8..]);
      assert l == l[..8] + l[8..];
    }
  }

  /** The tag is the polynomial over the data, the ciphertext and the lengths at E(0^128), masked with
      E(nonce || 0^31 || 1). */
  lemma TagIs(e: Bytes -> Bytes, nonce: Bytes, aad: Bytes, ciphertext: Bytes, l: Bytes)
    requires |nonce| == 12 && Cipher(e) && Lengths(l, aad, ciphertext)
    ensures TagBits(e, nonce, aad, ciphertext) ==
            Xor(Polynomial(Blocks(aad) + Blocks(ciphertext) + [Bits(l)],
                           Bits(e([0, 0, 0, 0, 0, 0, 0, 0, 0, 0, 0, 0, 0, 0, 0, 0]))),
                Bits(e(nonce + [0, 0, 0, 1])))
  {
    hide Bits, Mul, Xor, Lengths, LengthBlock, Polynomial, Power, Ghash, Blocks;
    LengthsExact(l, aad, ciphertext);
    var zero: Bytes := [0, 0, 0, 0, 0, 0, 0, 0, 0, 0, 0, 0, 0, 0, 0, 0];
    assert Pad([]) == zero;
    var h, blocks := Bits(e(zero)), Blocks(aad) + Blocks(ciphertext) + [Bits(l)];
    GhashIsPolynomial(ZERO, h, blocks);
    ZeroTimes(Power(h, |blocks|));
    XorLaws(Polynomial(blocks, h), ZERO, ZERO);
  }

  lemma ZeroTimes(y: Block)
    ensures Mul(ZERO, y) == ZERO
  {
    MulToZero(y, 128);
  }

  /** A message opens exactly when its last sixteen bytes are that tag over the bytes before them, and what it opens
      to is those bytes under the keystream. */
  lemma OpensExact(e: Bytes -> Bytes, nonce: Bytes, aad: Bytes, message: Bytes, l: Bytes)
    requires |nonce| == 12 && Cipher(e) && |message| >= 16 && Lengths(l, aad, message[..|message| - 16])
    ensures Opens(e, nonce, aad, message) <==>
            Bits(message[|message| - 16..]) ==
            Xor(Polynomial(Blocks(aad) + Blocks(message[..|message| - 16]) + [Bits(l)],
                           Bits(e([0, 0, 0, 0, 0, 0, 0, 0, 0, 0, 0, 0, 0, 0, 0, 0]))),
                Bits(e(nonce + [0, 0, 0, 1])))
    ensures forall i, block ::
              0 <= i < |message| - 16 && |block| == 16 && block[..12] == nonce &&
              Be(block[12..]) == (2 + i / 16) % 0x1_0000_0000 ==>
                Opened(e, nonce, message)[i] == message[i] ^ e(block)[i % 16]
  {
    hide Bits, Xor, Lengths, Polynomial, Blocks, Be, Stream, TagBits;
    TagIs(e, nonce, aad, message[..|message| - 16], l);
    forall i, block |
        0 <= i < |message| - 16 && |block| == 16 && block[..12] == nonce &&
        Be(block[12..]) == (2 + i / 16) % 0x1_0000_0000
      ensures Opened(e, nonce, message)[i] == message[i] ^ e(block)[i % 16]
    {
      KeystreamAt(e, nonce, message[..|message| - 16], i, block);
    }
  }
}
