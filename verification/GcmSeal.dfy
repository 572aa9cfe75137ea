/** GHASH, counter mode, sealing and opening, over any 128-bit block cipher. */
module GcmSeal {
  import opened Gcm
  import opened GcmField

  type Bytes = seq<Byte>

  /** A block cipher under some key. */
  ghost predicate Cipher(e: Bytes -> Bytes) { forall b: Bytes :: |b| == 16 ==> |e(b)| == 16 }

  function Min16(n: nat): nat { if n < 16 then n else 16 }

  // ----- tamga_ghash_update

  function Pad(d: Bytes): (r: Bytes)
    requires |d| <= 16
    ensures |r| == 16 && r[..|d|] == d
  {
    d + seq(16 - |d|, i => 0)
  }

  /** The data in blocks of sixteen bytes, the last one filled up with zeros. */
  function Blocks(data: Bytes): (r: seq<Block>)
    ensures |r| == (|data| + 15) / 16
  {
    if data == [] then [] else [Bits(Pad(data[..Min16(|data|)]))] + Blocks(data[Min16(|data|)..])
  }

  /** acc, absorbing one block after another. */
  ghost function Ghash(acc: Block, h: Block, blocks: seq<Block>): Block
    decreases |blocks|
  {
    if blocks == [] then acc else Ghash(Mul(Xor(acc, blocks[0]), h), h, blocks[1..])
  }

  lemma {:induction false} GhashConcat(acc: Block, h: Block, a: seq<Block>, b: seq<Block>)
    ensures Ghash(acc, h, a + b) == Ghash(Ghash(acc, h, a), h, b)
    decreases |a|
  {
    hide Mul, Xor;
    if a == [] {
      assert a + b == b;
    } else {
      assert (a + b)[1..] == a[1..] + b;
      GhashConcat(Mul(Xor(acc, a[0]), h), h, a[1..], b);
    }
  }

  ghost function Power(h: Block, n: nat): Block
  {
    if n == 0 then Unit(0) else Mul(h, Power(h, n - 1))
  }

  /** The polynomial with these coefficients, highest power first and no constant term, at h. */
  ghost function Polynomial(blocks: seq<Block>, h: Block): Block
  {
    if blocks == [] then ZERO else Xor(Mul(blocks[0], Power(h, |blocks|)), Polynomial(blocks[1..], h))
  }

  /** GHASH is that polynomial, with the accumulator as one more leading coefficient. */
  lemma {:induction false} GhashIsPolynomial(acc: Block, h: Block, blocks: seq<Block>)
    ensures Ghash(acc, h, blocks) == Xor(Mul(acc, Power(h, |blocks|)), Polynomial(blocks, h))
    decreases |blocks|
  {
    hide Mul, Xor, Unit;
    if blocks == [] {
      MulIdentity(acc);
      XorLaws(acc, acc, acc);
    } else {
      var b, rest, n := blocks[0], blocks[1..], |blocks|;
      GhashIsPolynomial(Mul(Xor(acc, b), h), h, rest);
      var p := Power(h, n - 1);
      MulAssociates(Xor(acc, b), h, p);
      MulXor(acc, b, Mul(h, p));
      XorLaws(Mul(acc, Mul(h, p)), Mul(b, Mul(h, p)), Polynomial(rest, h));
    }
  }

  /** acc ^= block. */
  method XorInto(acc: array<Byte>, block: Bytes)
    requires acc.Length == 16 && |block| == 16
    modifies acc
    ensures Bits(acc[..]) == Xor(old(Bits(acc[..])), Bits(block))
  {
    hide Bits, Xor, When, XorByte;
    ghost var s := acc[..];
    var i := 0;
    while i < 16
      invariant 0 <= i <= 16
      invariant forall k :: 0 <= k < i ==> acc[k] == XorByte(s[k], block[k], 0xff)
      invariant forall k :: i <= k < 16 ==> acc[k] == s[k]
    {
      acc[i] := XorByte(acc[i], block[i], 0xff);
      i := i + 1;
    }
    MaskedBits(acc[..], s, block, 0xff);
    WhenTrue(Bits(block));
  }

  lemma WhenTrue(v: Block)
    ensures When((0xff as Byte) != 0, v) == v
  {
  }

  method GhashUpdate(acc: array<Byte>, h: array<Byte>, data: Bytes)
    requires acc.Length == h.Length == 16 && acc != h
    modifies acc
    ensures Bits(acc[..]) == Ghash(old(Bits(acc[..])), Bits(h[..]), Blocks(data))
  {
    hide Bits, Mul, Xor, Pad;
    ghost var H, whole := Bits(h[..]), Ghash(Bits(acc[..]), Bits(h[..]), Blocks(data));
    var offset := 0;
    assert data[0..] == data;
    while offset < |data|
      invariant 0 <= offset <= |data| && Bits(h[..]) == H
      invariant Ghash(Bits(acc[..]), H, Blocks(data[offset..])) == whole
    {
      ghost var left := data[offset..];
      var take := Min16(|data| - offset);
      assert left[..take] == data[offset..offset + take] && left[take..] == data[offset + take..];
      BlocksNext(left);
      XorInto(acc, Pad(data[offset..offset + take]));
      GfMul(acc, h);
      offset := offset + take;
    }
    assert data[offset..] == [];
  }

  lemma BlocksNext(data: Bytes)
    requires data != []
    ensures var b := Blocks(data);
            b != [] && b[0] == Bits(Pad(data[..Min16(|data|)])) && b[1..] == Blocks(data[Min16(|data|)..])
  {
    hide Bits, Pad;
  }

  // ----- tamga_gcm_inc32

  ghost function Number(b: Byte): int { b as int }

  function Up(b: Byte): Byte { b + 1 }

  lemma UpIs(b: Byte)
    ensures 0 <= Number(b) < 256 && Number(0) == 0 && (b == 0xff <==> Number(b) == 255)
    ensures b != 0xff ==> Number(Up(b)) == Number(b) + 1
    ensures Up(b) == 0 <==> b == 0xff
  {
  }

  ghost function Join(a: int, b: int, c: int, d: int): int { ((a * 256 + b) * 256 + c) * 256 + d }

  /** The last four bytes as a number. */
  ghost function Counter(c: Bytes): int
    requires |c| == 16
  {
    Join(Number(c[12]), Number(c[13]), Number(c[14]), Number(c[15]))
  }

  function Inc32(c: Bytes): (r: Bytes)
    requires |c| == 16
    ensures |r| == 16 && r[..12] == c[..12]
  {
    if c[15] != 0xff then c[15 := Up(c[15])]
    else if c[14] != 0xff then c[14 := Up(c[14])][15 := 0]
    else if c[13] != 0xff then c[13 := Up(c[13])][14 := 0][15 := 0]
    else c[12 := Up(c[12])][13 := 0][14 := 0][15 := 0]
  }

  lemma JoinUp(a: int, b: int, c: int, d: int)
    requires 0 <= a < 256 && 0 <= b < 256 && 0 <= c < 256 && 0 <= d < 256
    ensures (Join(a, b, c, d) + 1) % 0x1_0000_0000 ==
            if d < 255 then Join(a, b, c, d + 1) else if c < 255 then Join(a, b, c + 1, 0)
            else if b < 255 then Join(a, b + 1, 0, 0) else if a < 255 then Join(a + 1, 0, 0, 0) else 0
  {
  }

  /** inc32 adds one modulo 2^32. */
  lemma Inc32Counts(c: Bytes)
    requires |c| == 16
    ensures Counter(Inc32(c)) == (Counter(c) + 1) % 0x1_0000_0000
  {
    hide Number, Up, Join;
    UpIs(c[15]);
    UpIs(c[14]);
    UpIs(c[13]);
    UpIs(c[12]);
    JoinUp(Number(c[12]), Number(c[13]), Number(c[14]), Number(c[15]));
    JoinZero();
  }

  lemma JoinZero()
    ensures Join(0, 0, 0, 0) == 0
  {
  }

  method Increment(counter: array<Byte>)
    requires counter.Length == 16
    modifies counter
    ensures counter[..] == Inc32(old(counter[..]))
  {
    hide Up;
    ghost var c := counter[..];
    var i := 16;
    while i > 12
      invariant 12 <= i <= 16
      invariant forall k :: 0 <= k < i ==> counter[k] == c[k]
      invariant forall k :: i <= k < 16 ==> counter[k] == 0 && c[k] == 0xff
    {
      UpIs(c[i - 1]);
      counter[i - 1] := Up(counter[i - 1]);
      if counter[i - 1] != 0 {
        return;
      }
      i := i - 1;
    }
    UpIs(c[12]);
  }

  // ----- counter mode

  /** The counter block of the n-th keystream block. */
  ghost function CounterAt(c: Bytes, n: nat): (r: Bytes)
    requires |c| == 16
    ensures |r| == 16 && r[..12] == c[..12]
  {
    if n == 0 then c else Inc32(CounterAt(c, n - 1))
  }

  lemma {:induction false} CounterValue(c: Bytes, n: nat)
    requires |c| == 16
    ensures Counter(CounterAt(c, n)) == (Counter(c) + n) % 0x1_0000_0000
  {
    hide Counter, Inc32;
    CounterRange(c);
    if n > 0 {
      CounterValue(c, n - 1);
      Inc32Counts(CounterAt(c, n - 1));
      OneMore(Counter(c), n);
    }
  }

  lemma OneMore(v: int, n: nat)
    requires n > 0
    ensures ((v + (n - 1)) % 0x1_0000_0000 + 1) % 0x1_0000_0000 == (v + n) % 0x1_0000_0000
  {
  }

  lemma CounterRange(c: Bytes)
    requires |c| == 16
    ensures 0 <= Counter(c) < 0x1_0000_0000
  {
    hide Number;
    UpIs(c[12]);
    UpIs(c[13]);
    UpIs(c[14]);
    UpIs(c[15]);
  }

  /** No counter block comes twice, and none is the starting block, in fewer than 2^32 blocks. */
  lemma CountersDistinct(c: Bytes, m: nat, n: nat)
    requires |c| == 16 && m < n < 0x1_0000_0000
    ensures CounterAt(c, m) != CounterAt(c, n)
  {
    hide Number, Up, Join, Inc32;
    CounterValue(c, m);
    CounterValue(c, n);
    CounterRange(c);
  }

  function XorBytes(a: Bytes, k: Bytes): (r: Bytes)
    requires |a| <= |k|
    ensures |r| == |a|
  {
    seq(|a|, i requires 0 <= i < |a| => a[i] ^ k[i])
  }

  lemma XorTwice(a: Bytes, k: Bytes)
    requires |a| <= |k|
    ensures XorBytes(XorBytes(a, k), k) == a
  {
    forall i | 0 <= i < |a|
      ensures (a[i] ^ k[i]) ^ k[i] == a[i]
    {
      ByteXorTwice(a[i], k[i]);
    }
  }

  lemma ByteXorTwice(a: Byte, k: Byte)
    ensures (a ^ k) ^ k == a
  {
  }

  /** The input, XOR-ed with the keystream that follows counter c. */
  ghost function Stream(e: Bytes -> Bytes, c: Bytes, input: Bytes): (r: Bytes)
    requires |c| == 16 && Cipher(e)
    ensures |r| == |input|
    decreases |input|
  {
    if input == [] then []
    else
      var next, take := Inc32(c), Min16(|input|);
      XorBytes(input[..take], e(next)) + Stream(e, next, input[take..])
  }

  /** Applying the keystream twice gives the input back. */
  lemma {:induction false} StreamTwice(e: Bytes -> Bytes, c: Bytes, input: Bytes)
    requires |c| == 16 && Cipher(e)
    ensures Stream(e, c, Stream(e, c, input)) == input
    decreases |input|
  {
    hide Inc32, XorBytes;
    if input != [] {
      var next, take := Inc32(c), Min16(|input|);
      var out := Stream(e, c, input);
      assert out[..take] == XorBytes(input[..take], e(next)) && out[take..] == Stream(e, next, input[take..]);
      XorTwice(input[..take], e(next));
      StreamTwice(e, next, input[take..]);
      assert input == input[..take] + input[take..];
    }
  }

  // ----- the tag

  /** J0 = nonce || 0^31 || 1. */
  function FirstCounter(nonce: Bytes): (j0: Bytes)
    requires |nonce| == 12
    ensures |j0| == 16
  {
    nonce + [0, 0, 0, 1]
  }

  /** A 64-bit number, big-endian; what does not fit is dropped. */
  function U64(v: nat): (r: Bytes)
    ensures |r| == 8
  {
    seq(8, i requires 0 <= i < 8 => (v / Shifted(i) % 256) as Byte)
  }

  function Shifted(i: nat): (p: int)
    requires i < 8
    ensures p > 0
  {
    [0x100_0000_0000_0000, 0x1_0000_0000_0000, 0x100_0000_0000, 0x1_0000_0000, 0x100_0000, 0x1_0000, 0x100, 1][i]
  }

  function LengthBlock(aad: nat, text: nat): (r: Bytes)
    ensures |r| == 16
  {
    U64(8 * aad) + U64(8 * text)
  }

  /** Section 7.1 of NIST SP 800-38D: GHASH over the data, the ciphertext and both lengths, then E(J0). */
  ghost function TagBits(e: Bytes -> Bytes, nonce: Bytes, aad: Bytes, ciphertext: Bytes): Block
    requires |nonce| == 12 && Cipher(e)
  {
    var h := Bits(e(Pad([])));
    var blocks := Blocks(aad) + Blocks(ciphertext) + [Bits(LengthBlock(|aad|, |ciphertext|))];
    Xor(Ghash(ZERO, h, blocks), Bits(e(FirstCounter(nonce))))
  }

  ghost predicate Sealed(e: Bytes -> Bytes, nonce: Bytes, aad: Bytes, plaintext: Bytes, out: Bytes)
    requires |nonce| == 12 && Cipher(e)
  {
    |out| == |plaintext| + 16 &&
    var ciphertext := Stream(e, FirstCounter(nonce), plaintext);
    out[..|plaintext|] == ciphertext && Bits(out[|plaintext|..]) == TagBits(e, nonce, aad, ciphertext)
  }

  /** What opening makes of a message: the plaintext, when the tag is right. */
  ghost predicate Opens(e: Bytes -> Bytes, nonce: Bytes, aad: Bytes, message: Bytes)
    requires |nonce| == 12 && Cipher(e)
  {
    |message| >= 16 && var n := |message| - 16; Bits(message[n..]) == TagBits(e, nonce, aad, message[..n])
  }

  ghost function Opened(e: Bytes -> Bytes, nonce: Bytes, message: Bytes): Bytes
    requires |nonce| == 12 && Cipher(e) && |message| >= 16
  {
    Stream(e, FirstCounter(nonce), message[..|message| - 16])
  }

  /** Opening a sealed message returns the plaintext, for every key, nonce, associated data and plaintext. */
  lemma OpenSealed(e: Bytes -> Bytes, nonce: Bytes, aad: Bytes, plaintext: Bytes, out: Bytes)
    requires |nonce| == 12 && Cipher(e) && Sealed(e, nonce, aad, plaintext, out)
    ensures Opens(e, nonce, aad, out) && Opened(e, nonce, out) == plaintext
  {
    hide TagBits, Bits, Stream, FirstCounter;
    StreamTwice(e, FirstCounter(nonce), plaintext);
  }

  /** And a message that opens is the sealing of what it opens to, and of nothing else. */
  lemma OpenedIsSealed(e: Bytes -> Bytes, nonce: Bytes, aad: Bytes, plaintext: Bytes, message: Bytes)
    requires |nonce| == 12 && Cipher(e) && |message| >= 16
    ensures Opens(e, nonce, aad, message) && Opened(e, nonce, message) == plaintext <==>
              Sealed(e, nonce, aad, plaintext, message)
  {
    hide TagBits, Bits, Stream, FirstCounter;
    var n := |message| - 16;
    StreamTwice(e, FirstCounter(nonce), plaintext);
    StreamTwice(e, FirstCounter(nonce), message[..n]);
  }

  // ----- tamga_gcm_core, tamga_gcm_seal, tamga_gcm_open

  /** One block of keystream over at most sixteen bytes. */
  method XorBlock(input: Bytes, offset: nat, take: nat, keystream: Bytes, output: array<Byte>)
    requires offset + take <= |input| <= output.Length && take <= 16 == |keystream|
    modifies output
    ensures output[..offset + take] == old(output[..offset]) + XorBytes(input[offset..offset + take], keystream)
    ensures output[|input|..] == old(output[|input|..])
  {
    ghost var s := output[..];
    var i := 0;
    while i < take
      invariant 0 <= i <= take
      invariant forall k :: 0 <= k < i ==> output[offset + k] == input[offset + k] ^ keystream[k]
      invariant forall k :: (0 <= k < offset || offset + i <= k < output.Length) ==> output[k] == s[k]
    {
      output[offset + i] := input[offset + i] ^ keystream[i];
      i := i + 1;
    }
  }

  /** Part of the stream is written, and the rest continues from counter c. */
  ghost predicate Streaming(e: Bytes -> Bytes, done: Bytes, c: Bytes, input: Bytes, offset: nat, whole: Bytes)
    requires |c| == 16 && Cipher(e) && offset <= |input|
  {
    done + Stream(e, c, input[offset..]) == whole
  }

  lemma StreamingStep(e: Bytes -> Bytes, done: Bytes, c: Bytes, input: Bytes, offset: nat, whole: Bytes)
    requires |c| == 16 && Cipher(e) && offset < |input| && Streaming(e, done, c, input, offset, whole)
    ensures var next, take := Inc32(c), Min16(|input| - offset);
            Streaming(e, done + XorBytes(input[offset..offset + take], e(next)), next, input, offset + take, whole)
  {
    hide Inc32, XorBytes;
    var take, left := Min16(|input| - offset), input[offset..];
    assert left[..take] == input[offset..offset + take] && left[take..] == input[offset + take..];
  }

  lemma StreamingEnds(e: Bytes -> Bytes, done: Bytes, c: Bytes, input: Bytes, whole: Bytes)
    requires |c| == 16 && Cipher(e)
    ensures Streaming(e, done, c, input, |input|, whole) ==> done == whole
    ensures Streaming(e, [], c, input, 0, Stream(e, c, input))
  {
    assert input[|input|..] == [] && input[0..] == input;
  }

  /** The keystream walk. */
  method StreamInto(e: Bytes -> Bytes, j0: Bytes, input: Bytes, output: array<Byte>)
    requires |j0| == 16 && Cipher(e) && |input| <= output.Length
    modifies output
    ensures output[..|input|] == Stream(e, j0, input) && output[|input|..] == old(output[|input|..])
  {
    hide Inc32, XorBytes, Stream, Streaming;
    ghost var whole, after := Stream(e, j0, input), output[|input|..];
    var counter := new Byte[16](i requires 0 <= i < 16 => j0[i]);
    assert counter[..] == j0;
    var offset := 0;
    StreamingEnds(e, [], j0, input, whole);
    assert output[..0] == [];
    while offset < |input|
      invariant 0 <= offset <= |input|
      invariant Streaming(e, output[..offset], counter[..], input, offset, whole) && output[|input|..] == after
    {
      var take := Min16(|input| - offset);
      StreamingStep(e, output[..offset], counter[..], input, offset, whole);
      Increment(counter);
      XorBlock(input, offset, take, e(counter[..]), output);
      offset := offset + take;
    }
    StreamingEnds(e, output[..offset], counter[..], input, whole);
  }

  /** The tag over the associated data and the ciphertext. */
  method ComputeTag(e: Bytes -> Bytes, nonce: Bytes, aad: Bytes, ciphertext: Bytes) returns (tag: Bytes)
    requires |nonce| == 12 && Cipher(e)
    ensures |tag| == 16 && Bits(tag) == TagBits(e, nonce, aad, ciphertext)
  {
    hide Bits, Mul, Xor, Pad, LengthBlock, FirstCounter, Blocks;
    var zero := Pad([]);
    var key := e(zero);
    var h, acc := new Byte[16](i requires 0 <= i < 16 => key[i]), new Byte[16](_ => 0);
    assert h[..] == key;
    ZeroBits(acc[..]);
    ghost var H := Bits(key);
    GhashUpdate(acc, h, aad);
    GhashUpdate(acc, h, ciphertext);
    XorInto(acc, LengthBlock(|aad|, |ciphertext|));
    GfMul(acc, h);
    ghost var a, c, l := Blocks(aad), Blocks(ciphertext), Bits(LengthBlock(|aad|, |ciphertext|));
    GhashConcat(ZERO, H, a, c);
    GhashConcat(ZERO, H, a + c, [l]);
    GhashOne(Ghash(ZERO, H, a + c), H, l);
    XorInto(acc, e(FirstCounter(nonce)));
    tag := acc[..];
  }

  lemma GhashOne(acc: Block, h: Block, l: Block)
    ensures Ghash(acc, h, [l]) == Mul(Xor(acc, l), h)
  {
    assert [l][1..] == [];
  }

  /** Encrypts and appends the tag. */
  method Seal(e: Bytes -> Bytes, nonce: Bytes, aad: Bytes, plaintext: Bytes, out: array<Byte>) returns (outLen: nat)
    requires |nonce| == 12 && Cipher(e) && |plaintext| + 16 <= out.Length
    modifies out
    ensures outLen == |plaintext| + 16 && Sealed(e, nonce, aad, plaintext, out[..outLen])
    ensures out[outLen..] == old(out[outLen..])
  {
    hide Bits, Stream, TagBits;
    var n := |plaintext|;
    ghost var after := out[n + 16..];
    StreamInto(e, FirstCounter(nonce), plaintext, out);
    ghost var c := out[..n];
    assert out[n + 16..] == out[n..][16..] == after;
    var tag := ComputeTag(e, nonce, aad, out[..n]);
    forall k | 0 <= k < 16 { out[n + k] := tag[k]; }
    outLen := n + 16;
    assert out[n..outLen] == tag;
    assert out[..outLen][..n] == c && out[..outLen][n..] == out[n..outLen];
    assert out[outLen..] == after;
  }

  /** Equality of two tags, looking at every byte. */
  method SameTag(a: Bytes, b: Bytes) returns (same: bool)
    requires |a| == |b| == 16
    ensures same <==> a == b
  {
    var difference := false;
    var i := 0;
    while i < 16
      invariant 0 <= i <= 16
      invariant difference <==> a[..i] != b[..i]
    {
      assert a[..i + 1] == a[..i] + [a[i]] && b[..i + 1] == b[..i] + [b[i]];
      difference := difference || a[i] != b[i];
      i := i + 1;
    }
    assert a[..16] == a && b[..16] == b;
    return !difference;
  }

  /** Decrypts and checks the tag. On a mismatch the length is zero and what was written is erased. */
  method Open(e: Bytes -> Bytes, nonce: Bytes, aad: Bytes, message: Bytes, out: array<Byte>)
    returns (ok: bool, outLen: nat)
    requires |nonce| == 12 && Cipher(e) && |message| <= out.Length + 16
    modifies out
    ensures ok <==> Opens(e, nonce, aad, message)
    ensures ok ==> outLen == |message| - 16 && out[..outLen] == Opened(e, nonce, message)
    ensures !ok ==> outLen == 0 && forall k :: 0 <= k < |message| - 16 ==> out[k] == 0
    ensures !ok && |message| >= 16 ==>
              (out[..] == old(out[..]) <==> forall k :: 0 <= k < |message| - 16 ==> old(out[k]) == 0)
    ensures |message| >= 16 ==> out[|message| - 16..] == old(out[|message| - 16..])
    ensures |message| < 16 ==> out[..] == old(out[..])
  {
    hide Bits, Stream, TagBits, FirstCounter;
    if |message| < 16 {
      return false, 0;
    }
    var n := |message| - 16;
    ghost var before, after := out[..], out[n..];
    StreamInto(e, FirstCounter(nonce), message[..n], out);
    var tag := ComputeTag(e, nonce, aad, message[..n]);
    ok := SameTag(tag, message[n..]);
    if Bits(tag) == Bits(message[n..]) {
      BitsInjective(tag, message[n..]);
    }
    if !ok {
      forall k | 0 <= k < n { out[k] := 0; }
      assert out[n..] == after;
      Erased(before, out[..], n);
      return false, 0;
    }
    outLen := n;
  }

  /** A buffer whose first n bytes were erased is as before exactly when they were zero. */
  lemma Erased(before: Bytes, now: Bytes, n: nat)
    requires |before| == |now| && n <= |now| && now[n..] == before[n..] && forall k :: 0 <= k < n ==> now[k] == 0
    ensures now == before <==> forall k :: 0 <= k < n ==> before[k] == 0
  {
    if forall k :: 0 <= k < n ==> before[k] == 0 {
      forall k | 0 <= k < |now| ensures now[k] == before[k] {
        if k >= n {
          assert now[n..][k - n] == before[n..][k - n];
        }
      }
    }
  }

  /** With one ciphertext, nonce and associated data exactly one tag opens; every other one is a refusal. */
  lemma OneTag(e: Bytes -> Bytes, nonce: Bytes, aad: Bytes, m: Bytes, m': Bytes)
    requires |nonce| == 12 && Cipher(e) && |m| == |m'| >= 16 && m[..|m| - 16] == m'[..|m| - 16]
    requires Opens(e, nonce, aad, m)
    ensures Opens(e, nonce, aad, m') <==> m' == m
  {
    hide TagBits, Bits;
    var n := |m| - 16;
    if Opens(e, nonce, aad, m') {
      BitsInjective(m[n..], m'[n..]);
      assert m == m[..n] + m[n..] && m' == m'[..n] + m'[n..];
    }
  }
}
