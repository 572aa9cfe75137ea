/** Scalars modulo L, the order of Ed25519's prime-order subgroup, and little-endian encodings. */
module Scalar25519 {
  import opened Arith
  import opened Limbs
  import opened Digits
  import opened Bn
  import ModExp
  import Fe25519

  /** 2^252 + 27742317777372353535851937790883648493. */
  const L: int := 0x1000_0000_0000_0000_0000_0000_0000_0000_14de_f9de_a2f7_9cd6_5812_631a_5cf5_d3ed

  const L_BYTES: seq<u8> := [
    0xed, 0xd3, 0xf5, 0x5c, 0x1a, 0x63, 0x12, 0x58, 0xd6, 0x9c, 0xf7,
    0xa2, 0xde, 0xf9, 0xde, 0x14, 0x00, 0x00, 0x00, 0x00, 0x00, 0x00,
    0x00, 0x00, 0x00, 0x00, 0x00, 0x00, 0x00, 0x00, 0x00, 0x10]

  const L_LIMBS: seq<u32> := [0x5cf5_d3ed, 0x5812_631a, 0xa2f7_9cd6, 0x14de_f9de, 0, 0, 0, 0x1000_0000]

  lemma LQuads()
    ensures |L_BYTES| == 32
    ensures forall i :: 0 <= i < 8 ==> Quad(L_BYTES, 4 * i) == L_LIMBS[i]
  {
    hide LeVal;
    forall i | 0 <= i < 8
      ensures Quad(L_BYTES, 4 * i) == L_LIMBS[i]
    {
      if i < 4 {
        assert i == 0 || i == 1 || i == 2 || i == 3;
      } else {
        assert i == 4 || i == 5 || i == 6 || i == 7;
      }
    }
  }

  lemma LValue()
    ensures Val(L_LIMBS) == L
  {
    hide Val, B;
    Fe25519.Val8(L_LIMBS);
    Fe25519.Weights();
  }

  lemma LBytes()
    ensures |L_BYTES| == 32 && LeVal(L_BYTES) == L
  {
    LQuads();
    LValue();
    assert |L_LIMBS| == 8;
    hide *;
    Le32(L_BYTES, L_LIMBS);
  }

  // ----- little-endian bytes to limbs and back

  lemma Le4(s: seq<u8>)
    requires |s| == 4
    ensures LeVal(s) == s[0] as int + 0x100 * s[1] as int + 0x1_0000 * s[2] as int + 0x100_0000 * s[3] as int
  {
    assert s[1..][1..][1..][1..] == [];
    assert LeVal(s[1..][1..][1..]) == s[3];
    assert LeVal(s[1..][1..]) == s[2] as int + 256 * s[3] as int;
  }

  /** The four bytes of a limb, least significant first. */
  function LimbBytes(x: u32): (r: seq<u8>)
    ensures |r| == 4 && LeVal(r) == x
  {
    DivDiv(x, 0x100, 0x100);
    DivDiv(x, 0x1_0000, 0x100);
    var r := [x % 0x100, (x / 0x100) % 0x100, (x / 0x1_0000) % 0x100, x / 0x100_0000];
    Le4(r);
    r
  }

  /** The limb that four bytes make; OR-ing disjoint bytes adds them. */
  function BytesLimb(s: seq<u8>): (x: u32)
    requires |s| == 4
    ensures x == LeVal(s)
  {
    Le4(s);
    s[0] as int + 0x100 * s[1] as int + 0x1_0000 * s[2] as int + 0x100_0000 * s[3] as int
  }

  /** The four bytes from position k on, as one number. */
  function Quad(s: seq<u8>, k: nat): (x: int)
    requires k + 4 <= |s|
  {
    s[k] as int + 0x100 * s[k + 1] as int + 0x1_0000 * s[k + 2] as int + 0x100_0000 * s[k + 3] as int
  }

  /** 32 bytes read four at a time. */
  lemma Le32(s: seq<u8>, limbs: seq<u32>)
    requires |s| == 32 && |limbs| == 8
    requires forall i :: 0 <= i < 8 ==> Quad(s, 4 * i) == limbs[i]
    ensures LeVal(s) == Val(limbs)
  {
    hide LeVal, Val;
    Nothing(limbs);
    assert s[..0] == [];
    var i := 0;
    while i < 8
      invariant 0 <= i <= 8
      invariant LeVal(s[..4 * i]) == Val(limbs[..i])
    {
      var quad := s[4 * i..4 * i + 4];
      assert Quad(s, 4 * i) == limbs[i];
      Le4(quad);
      LimbStep(s[..4 * i], quad, limbs, i);
      assert s[..4 * i] + quad == s[..4 * i + 4];
      i := i + 1;
    }
    assert s[..32] == s && limbs[..8] == limbs;
  }

  lemma LeAppend(a: seq<u8>, b: seq<u8>)
    ensures LeVal(a + b) == LeVal(a) + Pow(256, |a|) * LeVal(b)
  {
    hide *;
    LeSplit(a + b, |a|);
    assert (a + b)[..|a|] == a && (a + b)[|a|..] == b;
  }

  lemma LimbStep(bytes: seq<u8>, more: seq<u8>, limbs: seq<u32>, i: nat)
    requires i < |limbs| && |bytes| == 4 * i && |more| == 4
    requires LeVal(bytes) == Val(limbs[..i]) && LeVal(more) == limbs[i]
    ensures LeVal(bytes + more) == Val(limbs[..i + 1])
  {
    hide *;
    LeAppend(bytes, more);
    ByteWeight(4 * i);
    ModExp.PowZero(256);
    ValPrefix(limbs, i);
  }

  /** Eight limbs as 32 little-endian bytes. */
  method StoreLe(limbs: array<u32>) returns (out: seq<u8>)
    requires limbs.Length == 8
    ensures |out| == 32 && LeVal(out) == Val(limbs[..])
  {
    hide Val, LeVal, LimbBytes;
    out := [];
    Nothing(limbs[..]);
    var i := 0;
    while i < 8
      invariant 0 <= i <= 8 && |out| == 4 * i
      invariant LeVal(out) == Val(limbs[..][..i])
    {
      LimbStep(out, LimbBytes(limbs[i]), limbs[..], i);
      out := out + LimbBytes(limbs[i]);
      i := i + 1;
    }
    assert limbs[..][..8] == limbs[..];
  }

  lemma Nothing(s: seq<u32>)
    ensures LeVal([]) == Val(s[..0]) == 0
  {
  }

  method LoadLe(bytes: seq<u8>, limbs: array<u32>)
    requires limbs.Length == 8 && |bytes| == 32
    modifies limbs
    ensures Val(limbs[..]) == LeVal(bytes)
  {
    hide Val, LeVal, BytesLimb;
    var i := 0;
    Nothing(limbs[..]);
    assert bytes[..0] == [] && limbs[..0] == limbs[..][..0];
    while i < 8
      invariant 0 <= i <= 8
      invariant LeVal(bytes[..4 * i]) == Val(limbs[..i])
    {
      ghost var done := limbs[..i];
      var quad := bytes[4 * i..4 * i + 4];
      limbs[i] := BytesLimb(quad);
      assert limbs[..i + 1][..i] == done;
      LimbStep(bytes[..4 * i], quad, limbs[..i + 1], i);
      assert bytes[..4 * i] + quad == bytes[..4 * i + 4];
      assert limbs[..i + 1][..i + 1] == limbs[..i + 1];
      i := i + 1;
    }
    assert bytes[..32] == bytes && limbs[..8] == limbs[..];
  }

  // ----- tamga_sc_is_canonical

  /** The most significant byte that differs decides the order. */
  lemma LeOrder(a: seq<u8>, b: seq<u8>, i: nat)
    requires i < |a| == |b| && a[i + 1..] == b[i + 1..] && a[i] < b[i]
    ensures LeVal(a) < LeVal(b)
  {
    hide *;
    LeAt(a, i);
    LeAt(b, i);
    var w, hi := Pow(256, i), LeVal(a[i + 1..]);
    MulMono(a[i] + 256 * hi + 1, b[i] + 256 * hi, w);
    MulDist(w, a[i] + 256 * hi, 1);
  }

  lemma LeAt(s: seq<u8>, i: nat)
    requires i < |s|
    ensures LeVal(s) == LeVal(s[..i]) + Pow(256, i) * (s[i] + 256 * LeVal(s[i + 1..]))
    ensures LeVal(s[..i]) < Pow(256, i)
  {
    hide *;
    LeSplit(s, i);
    LeFirst(s, i);
    MulEq(Pow(256, i), LeVal(s[i..]), s[i] + 256 * LeVal(s[i + 1..]));
  }

  lemma LeFirst(s: seq<u8>, i: nat)
    requires i < |s|
    ensures LeVal(s[i..]) == s[i] + 256 * LeVal(s[i + 1..])
  {
    assert s[i..][1..] == s[i + 1..];
  }

  /** A scalar is canonical exactly when it is below L. */
  method IsCanonical(s: seq<u8>) returns (ok: bool)
    requires |s| == 32
    ensures ok <==> LeVal(s) < L
  {
    hide *;
    LBytes();
    var i := 32;
    while i > 0
      invariant 0 <= i <= 32
      invariant s[i..] == L_BYTES[i..]
    {
      i := i - 1;
      if s[i] < L_BYTES[i] {
        LeOrder(s, L_BYTES, i);
        return true;
      }
      if s[i] > L_BYTES[i] {
        LeOrder(L_BYTES, s, i);
        return false;
      }
      assert s[i..] == [s[i]] + s[i + 1..] && L_BYTES[i..] == [L_BYTES[i]] + L_BYTES[i + 1..];
    }
    assert s == s[0..] == L_BYTES[0..] == L_BYTES;
    return false;
  }

  // ----- tamga_sc_reduce512

  /** One step of binary long division. */
  lemma DivisionStep(rem: int, lead: int, lead': int, bit: int, rem': int)
    requires rem == lead % L && lead' == 2 * lead + bit && 0 <= bit <= 1
    requires rem' == if 2 * rem + bit >= L then 2 * rem + bit - L else 2 * rem + bit
    ensures rem' == lead' % L && 0 <= rem' < L
  {
    var q := lead / L;
    assert lead == L * q + rem;
    if 2 * rem + bit >= L {
      DivModUnique(lead', 2 * q + 1, rem', L);
    } else {
      DivModUnique(lead', 2 * q, rem', L);
    }
  }

  /** Shifts one bit into the remainder and takes l away once if it fits. */
  method ShiftSubtract(remainder: array<u32>, l: array<u32>, bit: int)
    requires remainder.Length == 8 == l.Length && remainder != l && 0 <= bit <= 1
    requires Val(l[..]) == L && Val(remainder[..]) < L
    modifies remainder
    ensures var doubled := 2 * old(Val(remainder[..])) + bit;
            Val(remainder[..]) == if doubled >= L then doubled - L else doubled
  {
    hide Val, B;
    assert remainder[..8] == remainder[..] && l[..8] == l[..];
    ghost var doubled := 2 * Val(remainder[..]) + bit;
    var carry := ShiftIn(remainder, 8, bit);
    assert remainder[..8] == remainder[..] && l[..8] == l[..];
    Top8();
    NoCarry(Val(remainder[..]), carry, doubled);
    var candidate := new u32[8];
    ghost var x := remainder[..];
    var borrow := Sub(candidate, remainder, l, 8);
    assert candidate[..8] == candidate[..] && remainder[..] == x;
    ValBound(candidate[..]);
    ghost var c := candidate[..];
    if borrow == 0 {
      forall k | 0 <= k < 8 { remainder[k] := candidate[k]; }
      assert remainder[..] == c;
    }
  }

  lemma Top8()
    ensures B(8) > 2 * L
  {
    assert B(1) == W;
    BAdd(1, 1);
    BAdd(2, 2);
    BAdd(4, 4);
  }

  lemma NoCarry(v: int, carry: int, doubled: int)
    requires v >= 0 && 0 <= carry <= 1 && v + carry * B(8) == doubled < 2 * L && B(8) > 2 * L
    ensures carry == 0
  {
  }

  /** A 512-bit number modulo L, one bit of it at a time. */
  method Reduce512(input: seq<u8>) returns (out: seq<u8>)
    requires |input| == 64
    ensures |out| == 32 && LeVal(out) == LeVal(input) % L
  {
    hide Val, LeVal, Lead, Bit, B, Pow;
    ghost var x := LeVal(input);
    var remainder, l := new u32[8](_ => 0), new u32[8];
    LoadLe(L_BYTES, l);
    LBytes();
    ValZeros(remainder[..]);
    LeBound(input);
    Pow256Is(64);
    ModExp.LeadNone(x, 512);
    var bit := 512;
    while bit > 0
      invariant 0 <= bit <= 512
      invariant Val(l[..]) == L
      invariant Val(remainder[..]) == Lead(x, bit) % L
    {
      bit := bit - 1;
      LeBit(input, bit);
      LeadingBits(x, bit);
      ghost var rem := Val(remainder[..]);
      ShiftSubtract(remainder, l, Bit(input[bit / 8], bit % 8));
      DivisionStep(rem, Lead(x, bit + 1), Lead(x, bit), Bit(x, bit), Val(remainder[..]));
    }
    ModExp.LeadAll(x);
    out := StoreLe(remainder);
  }
}
