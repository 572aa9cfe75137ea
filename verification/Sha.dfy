/** The buffering and padding of SHA-256 and SHA-512, over any compression function. */
module Sha {
  import opened Arith
  import opened Limbs
  import opened Digits
  import opened Utf8
  import ModExp

  /** A hash of this family: its block size, the width of its length field, its first state and its compression. */
  datatype Family = Family(size: nat, field: nat, initial: State, compress: (State, Bytes) -> State,
    digest: State -> Bytes)

  /** The chaining words. */
  type State = seq<u64>

  /** 64-byte blocks with an 8-byte length, or 128-byte blocks with a 16-byte length. */
  ghost predicate Proper(f: Family) { (f.size == 64 && f.field == 8) || (f.size == 128 && f.field == 16) }

  // ----- the standard's definition

  /** The compression function, over one block after another. */
  ghost function Fold(f: Family, state: State, data: Bytes): State
    requires f.size > 0 && |data| % f.size == 0
    decreases |data|
  {
    if data == [] then state
    else
      BlockLess(|data|, f.size);
      Fold(f, f.compress(state, data[..f.size]), data[f.size..])
  }

  lemma BlockLess(n: nat, size: nat)
    requires size > 0 && n > 0 && n % size == 0
    ensures n >= size && (n - size) % size == 0
  {
    DivModUnique(n - size, n / size - 1, 0, size);
    if n < size {
      DivModUnique(n, 0, n, size);
    }
  }

  function Zeros(n: nat): (r: Bytes)
    ensures |r| == n && forall i :: 0 <= i < n ==> r[i] == 0
  {
    seq(n, i => 0)
  }

  /** v in n bytes, the most significant first; what does not fit is dropped. */
  function BeBytes(v: nat, n: nat): (r: Bytes)
    ensures |r| == n
  {
    if n == 0 then [] else BeBytes(v / 256, n - 1) + [v % 256]
  }

  lemma {:induction false} BeBytesValue(v: nat, n: nat)
    requires v < Pow(256, n)
    ensures BeVal(BeBytes(v, n)) == v
  {
    if n > 0 {
      assert Pow(256, n) == 256 * Pow(256, n - 1);
      BeBytesValue(v / 256, n - 1);
      ModExp.BeLast(BeBytes(v / 256, n - 1), v % 256);
    }
  }

  /** How many zero bytes bring a message of n bytes, a 0x80 and the length field to a whole number of blocks. */
  function Filler(n: nat, size: nat, field: nat): (k: nat)
    requires size > 0
    ensures k < size && (n + 1 + k + field) % size == 0
  {
    var r := (n + 1 + field) % size;
    var k := if r == 0 then 0 else size - r;
    var q := (n + 1 + field) / size;
    DivModUnique(n + 1 + k + field, if r == 0 then q else q + 1, 0, size);
    k
  }

  /** The message, a 0x80, zeros and a length field that holds this number. */
  function PaddedWith(f: Family, m: Bytes, bits: nat): (r: Bytes)
    requires f.size > 0
    ensures |r| % f.size == 0
  {
    m + [0x80] + Zeros(Filler(|m|, f.size, f.field)) + BeBytes(bits, f.field)
  }

  /** Sections 5.1.1 and 5.1.2 of FIPS 180-4: the field holds the length in bits. */
  function Padded(f: Family, m: Bytes): (r: Bytes)
    requires f.size > 0
    ensures |r| % f.size == 0
  {
    PaddedWith(f, m, 8 * |m|)
  }

  ghost function Digest(f: Family, m: Bytes): Bytes
    requires f.size > 0
  {
    f.digest(Fold(f, f.initial, Padded(f, m)))
  }

  lemma {:induction false} FoldConcat(f: Family, state: State, a: Bytes, b: Bytes)
    requires f.size > 0 && |a| % f.size == 0 && |b| % f.size == 0
    ensures |a + b| % f.size == 0 && Fold(f, state, a + b) == Fold(f, Fold(f, state, a), b)
    decreases |a|
  {
    SumOfBlocks(|a|, |b|, f.size);
    if a == [] {
      assert a + b == b;
    } else {
      BlockLess(|a|, f.size);
      assert (a + b)[..f.size] == a[..f.size] && (a + b)[f.size..] == a[f.size..] + b;
      FoldConcat(f, f.compress(state, a[..f.size]), a[f.size..], b);
    }
  }

  lemma SumOfBlocks(a: nat, b: nat, size: nat)
    requires size > 0 && a % size == 0 && b % size == 0
    ensures (a + b) % size == 0
  {
    MulDist(size, a / size, b / size);
    DivModUnique(a + b, a / size + b / size, 0, size);
  }

  lemma FoldOne(f: Family, state: State, block: Bytes)
    requires f.size > 0 && |block| == f.size
    ensures |block| % f.size == 0 && Fold(f, state, block) == f.compress(state, block)
  {
    DivModUnique(f.size, 1, 0, f.size);
    assert block[..f.size] == block && block[f.size..] == [];
    assert |block[f.size..]| % f.size == 0;
  }

  // ----- the length field

  lemma TwoTo64()
    ensures Pow(256, 8) == W64
  {
    PowAdd(256, 4, 4);
    PowAdd(256, 2, 2);
    assert Pow(256, 2) == 256 * (256 * Pow(256, 0));
  }

  /** For every message the standard defines, what the code puts there, the bit length modulo 2^64, is the right
      field exactly when the message is shorter than 2^61 bytes. */
  lemma LengthFieldExact(f: Family, m: Bytes)
    requires Proper(f) && 8 * |m| < Pow(256, f.field)
    ensures PaddedWith(f, m, 8 * |m| % W64) == Padded(f, m) <==> |m| < 0x2000_0000_0000_0000
  {
    hide BeBytes, Zeros, Filler, Pow, BeVal;
    TwoTo64();
    var v := 8 * |m|;
    var w, a, b := v % W64, PaddedWith(f, m, v % W64), Padded(f, m);
    var head := m + [0x80] + Zeros(Filler(|m|, f.size, f.field));
    assert a[|head|..] == BeBytes(w, f.field) && b[|head|..] == BeBytes(v, f.field);
    BeBytesValue(v, f.field);
    BeBytesValue(w, f.field);
    if |m| < 0x2000_0000_0000_0000 {
      DivModUnique(v, 0, v, W64);
    }
  }

  /** The message, one bit and zeros up to the first place where a field that holds the length in bits ends a block. */
  ghost predicate Pads(f: Family, m: Bytes, data: Bytes, k: nat)
    requires f.size > 0
  {
    && k < f.size && |data| == |m| + 1 + k + f.field && |data| % f.size == 0
    && data[..|m|] == m && data[|m|] == 0x80 && (forall i :: |m| < i <= |m| + k ==> data[i] == 0)
    && BeVal(data[|m| + 1 + k..]) == 8 * |m|
  }

  lemma OneFiller(n: nat, size: nat, k: nat, l: nat)
    requires size > 0 && k <= l < size && (n + k) % size == 0 && (n + l) % size == 0
    ensures k == l
  {
    var a, b := (n + k) / size, (n + l) / size;
    MulDist(size, b, -a);
    if a < b {
      MulMono(1, b - a, size);
    }
  }

  /** Padding by that description, for every message whose length the field can hold. */
  lemma PaddedExact(f: Family, m: Bytes, data: Bytes)
    requires f.size > 0 && 8 * |m| < Pow(256, f.field)
    ensures data == Padded(f, m) <==> exists k: nat :: Pads(f, m, data, k)
  {
    hide Pow, BeVal, BeBytes, Zeros, Filler;
    var k, b := Filler(|m|, f.size, f.field), BeBytes(8 * |m|, f.field);
    BeBytesValue(8 * |m|, f.field);
    var p := Padded(f, m);
    assert p[|m| + 1 + k..] == b && p[..|m|] == m;
    assert Pads(f, m, p, k);
    if l: nat :| Pads(f, m, data, l) {
      var n := |m| + 1 + f.field;
      if k <= l { OneFiller(n, f.size, k, l); } else { OneFiller(n, f.size, l, k); }
      BeUnique(data[|m| + 1 + k..], b);
      assert data == data[..|m|] + [data[|m|]] + data[|m| + 1..|m| + 1 + k] + data[|m| + 1 + k..];
      assert data[|m| + 1..|m| + 1 + k] == Zeros(k);
    }
  }

  // ----- the context

  class Context {
    const family: Family
    var state: State
    const block: array<u8>
    var blockLen: nat
    var totalLen: u64

    /** The context has been fed the message m. */
    ghost predicate Fed(m: Bytes)
      reads this, block
    {
      Proper(family) && block.Length == family.size && blockLen < family.size &&
      Holds(family, m, state, block[..blockLen]) && totalLen == |m| % W64
    }

    /** init. */
    constructor (f: Family)
      requires Proper(f)
      ensures Fed([]) && family == f && fresh(block)
    {
      family := f;
      state := f.initial;
      block := new u8[f.size](_ => 0);
      blockLen, totalLen := 0, 0;
      new;
      assert block[..0] == [];
      HoldsNothing(f);
    }

    /** Puts bytes into the block, after what it holds. */
    method Fill(data: Bytes, offset: nat, take: nat)
      requires offset + take <= |data| && blockLen + take <= block.Length
      modifies this`blockLen, block
      ensures blockLen == old(blockLen) + take
      ensures block[..blockLen] == old(block[..blockLen]) + data[offset..offset + take]
    {
      ghost var held := block[..blockLen];
      var i := 0;
      while i < take
        invariant 0 <= i <= take && blockLen == old(blockLen)
        invariant block[..blockLen + i] == held + data[offset..offset + i]
      {
        block[blockLen + i] := data[offset + i];
        assert data[offset..offset + i + 1] == data[offset..offset + i] + [data[offset + i]];
        i := i + 1;
      }
      blockLen := blockLen + take;
    }

    /** Compresses the full block and empties it. */
    method CompressBlock(ghost m: Bytes)
      requires Proper(family) && block.Length == family.size == blockLen && Holds(family, m, state, block[..blockLen])
      modifies this`state, this`blockLen
      ensures blockLen == 0 && Holds(family, m, state, [])
    {
      HoldsFull(family, m, state, block[..]);
      assert block[..blockLen] == block[..];
      state := family.compress(state, block[..]);
      blockLen := 0;
    }

    /** The parts of the context that only change together. */
    ghost predicate Buffers(m: Bytes)
      reads this, block
    {
      Proper(family) && block.Length == family.size && blockLen < family.size &&
        Holds(family, m, state, block[..blockLen])
    }

    /** Tops up a block that is partly full; compresses it when that fills it. */
    method TopUp(data: Bytes, ghost m: Bytes) returns (offset: nat)
      requires Buffers(m)
      modifies this`state, this`blockLen, block
      ensures offset <= |data| && Buffers(m + data[..offset]) && (offset == |data| || blockLen == 0)
    {
      hide Holds;
      assert m + data[..0] == m;
      if blockLen == 0 {
        return 0;
      }
      var needed := family.size - blockLen;
      offset := if |data| < needed then |data| else needed;
      HoldsMore(family, m, state, block[..blockLen], data[0..offset]);
      Fill(data, 0, offset);
      assert data[..offset] == data[0..offset];
      if blockLen == family.size {
        CompressBlock(m + data[..offset]);
        assert block[..0] == [];
      }
    }

    /** Compresses whole blocks straight from the data. */
    method WholeBlocks(data: Bytes, start: nat, ghost m: Bytes) returns (offset: nat)
      requires start <= |data| && blockLen == 0 && Buffers(m + data[..start])
      modifies this`state
      ensures start <= offset <= |data| && |data| - offset < family.size && blockLen == 0 && Buffers(m + data[..offset])
    {
      hide Holds;
      offset := start;
      assert block[..0] == [];
      while |data| - offset >= family.size
        invariant start <= offset <= |data| && Holds(family, m + data[..offset], state, [])
      {
        BlockStep(family, m, data, offset, state);
        state := family.compress(state, data[offset..offset + family.size]);
        offset := offset + family.size;
      }
    }

    /** update: the context now holds the message with the data after it. */
    method Update(data: Bytes, ghost m: Bytes)
      requires Fed(m)
      modifies this, block
      ensures Fed(m + data)
    {
      hide Holds;
      totalLen := (totalLen + |data|) % W64;
      TotalLength(|m|, |data|);
      var offset := TopUp(data, m);
      assert data[..|data|] == data;
      if offset == |data| && blockLen > 0 {
        return;
      }
      offset := WholeBlocks(data, offset, m);
      if offset < |data| {
        assert block[..0] == [];
        HoldsMore(family, m + data[..offset], state, [], data[offset..|data|]);
        Extend(m, data, offset, |data|);
        Fill(data, offset, |data| - offset);
      }
    }

    /** Zeros up to a position in the block. */
    method FillZeros(end: nat, ghost m: Bytes)
      requires Proper(family) && block.Length == family.size && blockLen <= end <= family.size &&
               Holds(family, m, state, block[..blockLen])
      modifies this`blockLen, block
      ensures blockLen == end && Holds(family, m + Zeros(end - old(blockLen)), state, block[..blockLen])
    {
      hide Holds, Zeros;
      var n := end - blockLen;
      HoldsMore(family, m, state, block[..blockLen], Zeros(n));
      Fill(Zeros(n), 0, n);
      assert Zeros(n)[0..n] == Zeros(n);
    }

    /** Pads the message, up to the block that the length field fills. */
    method Pad(ghost m: Bytes)
      requires Fed(m)
      modifies this, block
      ensures blockLen == family.size && Holds(family, PaddedWith(family, m, 8 * |m| % W64), state, block[..blockLen])
    {
      hide Holds, Leaves, Zeros, BeBytes, PaddedWith;
      var bits := totalLen * 8 % W64;
      BitLength(|m|);
      ghost var start := blockLen;
      HoldsMore(family, m, state, block[..blockLen], [0x80]);
      HoldsRest(family, m, state, block[..blockLen]);
      Fill([0x80], 0, 1);
      assert [0x80][0..1] == [0x80];
      ghost var fed := m + [0x80];
      ghost var zeros := 0;
      if blockLen > family.size - family.field {
        zeros := family.size - blockLen;
        FillZeros(family.size, fed);
        fed := fed + Zeros(zeros);
        CompressBlock(fed);
        assert block[..0] == [];
      } else {
        NoZeros(fed);
      }
      ghost var more := family.size - 8 - blockLen;
      FillZeros(family.size - 8, fed);
      fed := fed + Zeros(more);
      HoldsMore(family, fed, state, block[..blockLen], BeBytes(bits, 8));
      Fill(BeBytes(bits, 8), 0, 8);
      assert BeBytes(bits, 8)[0..8] == BeBytes(bits, 8);
      fed := fed + BeBytes(bits, 8);
      FinalShape(family, m, start, zeros, more, bits);
    }

    /** final: pads the message, compresses what is left of it and gives the digest. */
    method Final(ghost m: Bytes) returns (out: Bytes)
      requires Fed(m)
      modifies this, block
      ensures out == family.digest(Fold(family, family.initial, PaddedWith(family, m, 8 * |m| % W64)))
    {
      hide Holds, PaddedWith;
      ghost var padded := PaddedWith(family, m, 8 * |m| % W64);
      Pad(m);
      CompressBlock(padded);
      HoldsAll(family, padded, state);
      out := family.digest(state);
    }
  }

  lemma NoZeros(m: Bytes)
    ensures m == m + Zeros(0)
  {
  }

  lemma HoldsAll(f: Family, m: Bytes, state: State)
    requires Holds(f, m, state, [])
    ensures |m| % f.size == 0 && state == Fold(f, f.initial, m)
  {
    assert m[..|m|] == m;
  }

  /** All but the last bytes of the message fill whole blocks. */
  ghost predicate Leaves(f: Family, m: Bytes, held: nat)
    requires f.size > 0
  {
    held <= |m| && (|m| - held) % f.size == 0
  }

  lemma HoldsRest(f: Family, m: Bytes, state: State, held: Bytes)
    requires Holds(f, m, state, held)
    ensures f.size > 0 && Leaves(f, m, |held|)
  {
  }

  lemma BitLength(n: nat)
    ensures (n % W64) * 8 % W64 == 8 * n % W64
  {
    CongMod(n, W64);
    CongRefl(8, W64);
    CongMul(n % W64, n, 8, 8, W64);
    CongModEq((n % W64) * 8, 8 * n, W64);
  }

  lemma {:induction false} LeadingZeros(v: nat, n: nat)
    requires v < Pow(256, n)
    ensures forall k: nat :: BeBytes(v, k + n) == Zeros(k) + BeBytes(v, n)
  {
    if n == 0 {
      forall k: nat
        ensures BeBytes(0, k) == Zeros(k)
      {
        AllZeros(k);
      }
      forall k: nat
        ensures BeBytes(v, k + n) == Zeros(k) + BeBytes(v, n)
      {
        assert v == 0 && Zeros(k) + [] == Zeros(k);
      }
    } else {
      assert Pow(256, n) == 256 * Pow(256, n - 1);
      LeadingZeros(v / 256, n - 1);
      forall k: nat
        ensures BeBytes(v, k + n) == Zeros(k) + BeBytes(v, n)
      {
        assert BeBytes(v / 256, k + (n - 1)) == Zeros(k) + BeBytes(v / 256, n - 1);
      }
    }
  }

  lemma {:induction false} AllZeros(k: nat)
    ensures BeBytes(0, k) == Zeros(k)
  {
    if k > 0 {
      AllZeros(k - 1);
      assert Zeros(k) == Zeros(k - 1) + [0];
    }
  }

  /** A length field of either width, for a number below 2^64. */
  lemma FieldBytes(f: Family, bits: nat)
    requires Proper(f) && bits < W64
    ensures BeBytes(bits, f.field) == Zeros(f.field - 8) + BeBytes(bits, 8)
  {
    TwoTo64();
    LeadingZeros(bits, 8);
    assert BeBytes(bits, (f.field - 8) + 8) == Zeros(f.field - 8) + BeBytes(bits, 8);
  }

  lemma FillerIs(n: nat, held: nat, k: nat, size: nat, field: nat)
    requires size > 0 && held < size && held <= n && (n - held) % size == 0 && k < size
    requires held + 1 + k + field == size || held + 1 + k + field == 2 * size
    ensures Filler(n, size, field) == k
  {
    hide Filler;
    var j := Filler(n, size, field);
    var q := WholeBlocksIn(n - held, size);
    var p := WholeBlocksIn(n + 1 + j + field, size);
    var c := if held + 1 + k + field == size then 1 else 2;
    Apart(j - k, p, q + c, q, c, size);
    Between(j - k, p - (q + c), size);
  }

  lemma WholeBlocksIn(n: nat, size: nat) returns (q: int)
    requires size > 0 && n % size == 0
    ensures n == q * size
  {
    q := n / size;
  }

  lemma Apart(x: int, p: int, r: int, q: int, c: int, size: int)
    requires x == p * size - q * size - c * size && r == q + c
    ensures x == (p - r) * size
  {
    MulDist(size, p, -r);
    MulDist(size, q, c);
  }

  lemma Between(x: int, k: int, b: int)
    requires b > 0 && -b < x < b && x == k * b
    ensures x == 0
  {
    DivModUnique(x, k, 0, b);
    if x >= 0 {
      DivModUnique(x, 0, x, b);
    } else {
      DivModUnique(x, -1, x + b, b);
    }
  }

  /** The zeros and the field the code writes are the padding. */
  lemma TwoRuns(a: nat, b: nat, c: nat, d: nat)
    requires a + b == c + d
    ensures Zeros(a) + Zeros(b) == Zeros(c) + Zeros(d)
  {
  }

  lemma Regroup(m: Bytes, a: Bytes, b: Bytes, c: Bytes)
    ensures m + a + b + c == m + (a + b) + c == m + a + (b + c)
  {
  }

  lemma LeavesFiller(f: Family, m: Bytes, held: nat, k: nat)
    requires f.size > 0 && held < f.size && k < f.size && Leaves(f, m, held)
    requires held + 1 + k + f.field == f.size || held + 1 + k + f.field == 2 * f.size
    ensures Filler(|m|, f.size, f.field) == k
  {
    hide Filler;
    FillerIs(|m|, held, k, f.size, f.field);
  }

  lemma FinalShape(f: Family, m: Bytes, held: nat, zeros: nat, more: nat, bits: nat)
    requires Proper(f) && held < f.size && Leaves(f, m, held) && bits < W64
    requires if held + 1 > f.size - f.field then zeros == f.size - (held + 1) && more == f.size - 8
             else zeros == 0 && more == f.size - 8 - (held + 1)
    ensures m + [0x80] + Zeros(zeros) + Zeros(more) + BeBytes(bits, 8) == PaddedWith(f, m, bits)
  {
    hide BeBytes, Filler, Leaves, Zeros;
    var k := zeros + more - (f.field - 8);
    LeavesFiller(f, m, held, k);
    FieldBytes(f, bits);
    TwoRuns(zeros, more, k, f.field - 8);
    Regroup(m + [0x80], Zeros(zeros), Zeros(more), BeBytes(bits, 8));
    Regroup(m + [0x80], Zeros(k), Zeros(f.field - 8), BeBytes(bits, 8));
    assert m + [0x80] + Zeros(k) + (Zeros(f.field - 8) + BeBytes(bits, 8)) == PaddedWith(f, m, bits);
  }

  // ----- any number of updates

  ghost function Concat(chunks: seq<Bytes>): Bytes
  {
    if chunks == [] then [] else Concat(chunks[..|chunks| - 1]) + chunks[|chunks| - 1]
  }

  /** However a message is cut into updates, the digest is that of the whole message. */
  method HashChunks(f: Family, chunks: seq<Bytes>) returns (out: Bytes)
    requires Proper(f)
    ensures |Concat(chunks)| < 0x2000_0000_0000_0000 ==> out == Digest(f, Concat(chunks))
  {
    hide Fold, PaddedWith, Concat, Digest, Context.Fed;
    var c := new Context(f);
    var i := 0;
    ConcatNone(chunks);
    while i < |chunks|
      invariant 0 <= i <= |chunks| && fresh(c) && fresh(c.block) && c.family == f && c.Fed(Concat(chunks[..i]))
    {
      ConcatNext(chunks, i);
      c.Update(chunks[i], Concat(chunks[..i]));
      i := i + 1;
    }
    assert chunks[..|chunks|] == chunks;
    out := c.Final(Concat(chunks));
    if |Concat(chunks)| < 0x2000_0000_0000_0000 {
      ShortMessage(f, Concat(chunks));
    }
  }

  lemma ShortMessage(f: Family, m: Bytes)
    requires Proper(f) && |m| < 0x2000_0000_0000_0000
    ensures f.digest(Fold(f, f.initial, PaddedWith(f, m, 8 * |m| % W64))) == Digest(f, m)
  {
    DivModUnique(8 * |m|, 0, 8 * |m|, W64);
  }

  lemma ConcatNone(chunks: seq<Bytes>)
    ensures Concat(chunks[..0]) == []
  {
  }

  lemma ConcatNext(chunks: seq<Bytes>, i: nat)
    requires i < |chunks|
    ensures Concat(chunks[..i + 1]) == Concat(chunks[..i]) + chunks[i]
  {
    assert chunks[..i + 1][..i] == chunks[..i];
  }

  /** Whole blocks of m are in the state, the rest of m is held back. */
  ghost predicate Holds(f: Family, m: Bytes, state: State, held: Bytes)
  {
    f.size > 0 && |held| <= |m| && m[|m| - |held|..] == held &&
    (|m| - |held|) % f.size == 0 && state == Fold(f, f.initial, m[..|m| - |held|])
  }

  lemma HoldsNothing(f: Family)
    requires f.size > 0
    ensures Holds(f, [], f.initial, [])
  {
    var none: Bytes := [];
    assert none[..0] == [] && none[0..] == [];
  }

  lemma HoldsMore(f: Family, m: Bytes, state: State, held: Bytes, data: Bytes)
    requires Holds(f, m, state, held)
    ensures Holds(f, m + data, state, held + data)
  {
    var n, k := |m|, |held|;
    var all := m + data;
    assert all[..n - k] == m[..n - k] && all[n - k..] == held + data;
  }

  /** A full block that is held goes into the state. */
  lemma HoldsFull(f: Family, m: Bytes, state: State, block: Bytes)
    requires Holds(f, m, state, block) && |block| == f.size
    ensures Holds(f, m, f.compress(state, block), [])
  {
    var n := |m| - |block|;
    FoldOne(f, state, block);
    FoldConcat(f, f.initial, m[..n], block);
    assert m == m[..n] + block;
    assert m[..|m|] == m && m[|m|..] == [];
  }

  /** One more block straight from the data. */
  lemma BlockStep(f: Family, m: Bytes, data: Bytes, offset: nat, state: State)
    requires offset + f.size <= |data| && Holds(f, m + data[..offset], state, [])
    ensures Holds(f, m + data[..offset + f.size], f.compress(state, data[offset..offset + f.size]), [])
  {
    hide Holds;
    var next := offset + f.size;
    HoldsMore(f, m + data[..offset], state, [], data[offset..next]);
    Extend(m, data, offset, next);
    HoldsSize(f, m + data[..offset], state);
    HoldsFull(f, m + data[..next], state, data[offset..next]);
  }

  lemma Extend(m: Bytes, data: Bytes, a: nat, b: nat)
    requires a <= b <= |data|
    ensures (m + data[..a]) + data[a..b] == m + data[..b] && [] + data[a..b] == data[a..b]
  {
  }

  lemma HoldsSize(f: Family, m: Bytes, state: State)
    requires Holds(f, m, state, [])
    ensures f.size > 0
  {
  }

  lemma TotalLength(a: nat, b: nat)
    ensures (a % W64 + b) % W64 == (a + b) % W64
  {
    CongMod(a, W64);
    CongRefl(b, W64);
    CongAdd(a % W64, a, b, b, W64);
    CongModEq(a % W64 + b, a + b, W64);
  }
}
