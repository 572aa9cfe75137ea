/** The masked bit loop on byte arrays computes the block product. */
module Gcm {
  import opened GcmField

  type Byte = bv8

  // ----- bytes and bits

  function Mask(k: nat): Byte
    requires k < 8
  {
    if k == 0 then 0x80 else if k == 1 then 0x40 else if k == 2 then 0x20 else if k == 3 then 0x10
    else if k == 4 then 0x08 else if k == 5 then 0x04 else if k == 6 then 0x02 else 0x01
  }

  /** Bit k of a byte, the most significant being bit 0. */
  predicate Bit(b: Byte, k: nat)
    requires k < 8
  {
    b & Mask(k) != 0
  }

  /** The 128 bits of sixteen bytes. */
  function Bits(s: seq<Byte>): (r: Block)
    requires |s| == 16
    ensures forall i :: 0 <= i < 128 ==> r[i] == Bit(s[i / 8], i % 8)
  {
    seq(128, i requires 0 <= i < 128 => Bit(s[i / 8], i % 8))
  }

  lemma BitXor(a: Byte, b: Byte, k: nat)
    requires k < 8
    ensures Bit(a ^ b, k) == (Bit(a, k) != Bit(b, k)) && !Bit(0, k)
  {
    XorMask(a, b, Mask(k));
  }

  predicate OneBit(m: Byte)
  {
    m == 0x80 || m == 0x40 || m == 0x20 || m == 0x10 || m == 0x08 || m == 0x04 || m == 0x02 || m == 0x01
  }

  lemma XorMask(a: Byte, b: Byte, m: Byte)
    requires OneBit(m)
    ensures ((a ^ b) & m != 0) == ((a & m != 0) != (b & m != 0)) && 0 & m == 0
  {
    if m == 0x80 {
    } else if m == 0x40 {
    } else if m == 0x20 {
    } else if m == 0x10 {
    } else if m == 0x08 {
    } else if m == 0x04 {
    } else if m == 0x02 {
    } else {
    }
  }

  /** A byte shifted right by one, with the last bit of the byte before it coming in. */
  lemma BitShift(prev: Byte, b: Byte, k: nat)
    requires k < 8
    ensures Bit(ShiftByte(prev, b), k) == if k == 0 then Bit(prev, 7) else Bit(b, k - 1)
    ensures Bit(b >> 1, k) == (k > 0 && Bit(b, k - 1))
    ensures Bit(b & 1, 7) == Bit(b, 7) && ((b & 1 == 1) <==> Bit(b, 7)) && (b & 1 == 0 || b & 1 == 1)
  {
  }

  lemma TapByte(k: nat)
    requires k < 8
    ensures Bit(0xE1, k) == Tap(k)
  {
  }

  lemma SameByte(a: Byte, b: Byte)
    requires forall k :: 0 <= k < 8 ==> Bit(a, k) == Bit(b, k)
    ensures a == b
  {
    assert Bit(a, 0) == Bit(b, 0) && Bit(a, 1) == Bit(b, 1) && Bit(a, 2) == Bit(b, 2) && Bit(a, 3) == Bit(b, 3);
    assert Bit(a, 4) == Bit(b, 4) && Bit(a, 5) == Bit(b, 5) && Bit(a, 6) == Bit(b, 6) && Bit(a, 7) == Bit(b, 7);
  }

  /** Bits determine the bytes. */
  lemma BitsInjective(s: seq<Byte>, t: seq<Byte>)
    requires |s| == |t| == 16 && Bits(s) == Bits(t)
    ensures s == t
  {
    forall i | 0 <= i < 16
      ensures s[i] == t[i]
    {
      forall k | 0 <= k < 8
        ensures Bit(s[i], k) == Bit(t[i], k)
      {
        assert Bits(s)[8 * i + k] == Bits(t)[8 * i + k];
      }
      SameByte(s[i], t[i]);
    }
  }

  // ----- tamga_gcm_gf_mul

  function XorByte(z: Byte, v: Byte, mask: Byte): Byte { z ^ (v & mask) }

  /** z ^= v & mask, byte by byte. */
  method XorMasked(z: array<Byte>, v: array<Byte>, mask: Byte)
    requires z.Length == v.Length == 16 && z != v && (mask == 0 || mask == 0xff)
    modifies z
    ensures Bits(z[..]) == Xor(old(Bits(z[..])), When(mask != 0, Bits(v[..])))
  {
    hide Bits, Xor, When, XorByte;
    ghost var s, t := z[..], v[..];
    var i := 0;
    while i < 16
      invariant 0 <= i <= 16
      invariant v[..] == t
      invariant forall k :: 0 <= k < i ==> z[k] == XorByte(s[k], t[k], mask)
      invariant forall k :: i <= k < 16 ==> z[k] == s[k]
    {
      z[i] := XorByte(z[i], v[i], mask);
      i := i + 1;
    }
    MaskedBits(z[..], s, t, mask);
  }

  lemma MaskCases(z: Byte, v: Byte)
    ensures XorByte(z, v, 0) == z && XorByte(z, v, 0xff) == z ^ v
  {
  }

  lemma MaskedByte(a: Byte, b: Byte, mask: Byte, k: nat)
    requires k < 8 && (mask == 0 || mask == 0xff)
    ensures Bit(XorByte(a, b, mask), k) == (Bit(a, k) != (mask != 0 && Bit(b, k)))
  {
    hide Bit, XorByte;
    MaskCases(a, b);
    BitXor(a, b, k);
  }

  lemma MaskedBitAt(z: seq<Byte>, s: seq<Byte>, t: seq<Byte>, mask: Byte, i: nat)
    requires |z| == |s| == |t| == 16 && (mask == 0 || mask == 0xff) && i < 128
    requires z[i / 8] == XorByte(s[i / 8], t[i / 8], mask)
    ensures Bits(z)[i] == (Bits(s)[i] != (mask != 0 && Bits(t)[i]))
  {
    hide Bit, XorByte;
    MaskedByte(s[i / 8], t[i / 8], mask, i % 8);
  }

  lemma MaskedBits(z: seq<Byte>, s: seq<Byte>, t: seq<Byte>, mask: Byte)
    requires |z| == |s| == |t| == 16 && (mask == 0 || mask == 0xff) &&
               forall k :: 0 <= k < 16 ==> z[k] == XorByte(s[k], t[k], mask)
    ensures Bits(z) == Xor(Bits(s), When(mask != 0, Bits(t)))
  {
    hide Bit, When, Bits, XorByte;
    var w := When(mask != 0, Bits(t));
    forall i | 0 <= i < 128
      ensures Bits(z)[i] == (Bits(s)[i] != w[i])
    {
      MaskedBitAt(z, s, t, mask, i);
      WhenBit(mask != 0, Bits(t), i);
    }
  }

  lemma WhenBit(b: bool, v: Block, i: nat)
    requires i < 128
    ensures When(b, v)[i] == (b && v[i])
  {
  }

  /** A byte moved one place to the right, the last bit of the byte before it coming in. */
  function ShiftByte(prev: Byte, b: Byte): Byte { (b >> 1) | ((prev & 1) << 7) }

  /** The first byte, which takes the reduction constant when the last bit of the block falls out. */
  function ShiftFirst(b: Byte, last: Byte): Byte
  {
    var lsb := last & 1;
    var reduce := 0 - lsb;
    (b >> 1) ^ (0xE1 & reduce)
  }

  /** One place to the right, then the reduction constant when a one fell out. */
  method ShiftRight(v: array<Byte>)
    requires v.Length == 16
    modifies v
    ensures Bits(v[..]) == Shift(old(Bits(v[..])))
  {
    hide Bits, Shift, ShiftByte, ShiftFirst;
    ghost var s := v[..];
    var last := v[15];
    var i := 15;
    while i > 0
      invariant 0 <= i <= 15
      invariant forall k :: 0 <= k <= i ==> v[k] == s[k]
      invariant forall k :: i < k < 16 ==> v[k] == ShiftByte(s[k - 1], s[k])
    {
      v[i] := ShiftByte(v[i - 1], v[i]);
      i := i - 1;
    }
    v[0] := ShiftFirst(v[0], last);
    ShiftedBits(v[..], s);
  }

  lemma FirstCases(a: Byte, last: Byte)
    ensures ShiftFirst(a, last) == if Bit(last, 7) then (a >> 1) ^ 0xE1 else a >> 1
  {
  }

  lemma FirstShifted(a: Byte, last: Byte, k: nat)
    requires k < 8
    ensures Bit(ShiftFirst(a, last), k) == ((k > 0 && Bit(a, k - 1)) != (Bit(last, 7) && Tap(k)))
  {
    hide Bit, ShiftFirst;
    BitShift(0, a, k);
    FirstCases(a, last);
    BitXor(a >> 1, 0xE1, k);
    TapByte(k);
  }

  lemma ShiftedBitAt(v: seq<Byte>, s: seq<Byte>, i: nat)
    requires |v| == |s| == 16 && i < 128
    requires i < 8 ==> v[0] == ShiftFirst(s[0], s[15])
    requires i >= 8 ==> v[i / 8] == ShiftByte(s[i / 8 - 1], s[i / 8])
    ensures Bits(v)[i] == ((i > 0 && Bits(s)[i - 1]) != (Bits(s)[127] && Tap(i)))
  {
    hide Bit, ShiftByte, ShiftFirst;
    var j, k := i / 8, i % 8;
    if j == 0 {
      FirstShifted(s[0], s[15], k);
    } else {
      BitShift(s[j - 1], s[j], k);
      Neighbour(i);
    }
  }

  lemma ShiftedBits(v: seq<Byte>, s: seq<Byte>)
    requires |v| == |s| == 16 && v[0] == ShiftFirst(s[0], s[15])
    requires forall k :: 0 < k < 16 ==> v[k] == ShiftByte(s[k - 1], s[k])
    ensures Bits(v) == Shift(Bits(s))
  {
    hide Bit, Bits, ShiftByte, ShiftFirst;
    forall i | 0 <= i < 128
      ensures Bits(v)[i] == ((i > 0 && Bits(s)[i - 1]) != (Bits(s)[127] && Tap(i)))
    {
      ShiftedBitAt(v, s, i);
    }
  }

  lemma Neighbour(i: nat)
    requires 8 <= i < 128
    ensures if i % 8 == 0 then (i - 1) / 8 == i / 8 - 1 && (i - 1) % 8 == 7
            else (i - 1) / 8 == i / 8 && (i - 1) % 8 == i % 8 - 1
  {
  }

  /** 0xFF or 0x00, from one bit of a byte. */
  function BitMask(b: Byte, k: nat): Byte
    requires k < 8
  {
    var bit := (b >> (7 - k)) & 1;
    0 - bit
  }

  lemma BitMaskIs(b: Byte, k: nat)
    requires k < 8
    ensures BitMask(b, k) == if Bit(b, k) then 0xff else 0
  {
    assert k == 0 || k == 1 || k == 2 || k == 3 || k == 4 || k == 5 || k == 6 || k == 7;
    ShiftBits(b);
  }

  lemma BlockMask(x: seq<Byte>, i: nat)
    requires |x| == 16 && i < 128
    ensures BitMask(x[i / 8], i % 8) == if Bits(x)[i] then 0xff else 0
  {
    hide BitMask, Bit;
    BitMaskIs(x[i / 8], i % 8);
  }

  lemma ShiftBits(b: Byte)
    ensures (b >> 7) & 1 == (if Bit(b, 0) then 1 else 0) && (b >> 6) & 1 == (if Bit(b, 1) then 1 else 0)
    ensures (b >> 5) & 1 == (if Bit(b, 2) then 1 else 0) && (b >> 4) & 1 == (if Bit(b, 3) then 1 else 0)
    ensures (b >> 3) & 1 == (if Bit(b, 4) then 1 else 0) && (b >> 2) & 1 == (if Bit(b, 5) then 1 else 0)
    ensures (b >> 1) & 1 == (if Bit(b, 6) then 1 else 0) && (b >> 0) & 1 == (if Bit(b, 7) then 1 else 0)
  {
  }

  method CopyBlock(r: array<Byte>, a: array<Byte>)
    requires r.Length == a.Length == 16
    modifies r
    ensures r[..] == old(a[..])
  {
    ghost var s := a[..];
    forall k | 0 <= k < 16 { r[k] := a[k]; }
    assert r[..] == s;
  }

  /** The loop over the 128 bits of x, the sum in z and y times a power of x in v. */
  method MulLoop(x: array<Byte>, z: array<Byte>, v: array<Byte>, ghost X: Block, ghost Y: Block)
    requires x.Length == z.Length == v.Length == 16 && x != z && x != v && z != v
    requires Bits(x[..]) == X && Bits(z[..]) == ZERO && Bits(v[..]) == Y
    modifies z, v
    ensures Bits(z[..]) == Mul(X, Y)
  {
    hide Bits, Shift, Xor, Bit, BitMask, MulTo, ShiftBy;
    ghost var s := x[..];
    MulStart(X, Y);
    var bit := 0;
    while bit < 128
      invariant 0 <= bit <= 128 && x[..] == s
      invariant Bits(z[..]) == MulTo(X, Y, bit) && Bits(v[..]) == ShiftBy(Y, bit)
    {
      BlockMask(s, bit);
      XorMasked(z, v, BitMask(x[bit / 8], bit % 8));
      ShiftRight(v);
      MulNext(X, Y, bit);
      bit := bit + 1;
    }
  }

  /** x = x * y, the masked bit loop. */
  method GfMul(x: array<Byte>, y: array<Byte>)
    requires x.Length == y.Length == 16
    modifies x
    ensures Bits(x[..]) == Mul(old(Bits(x[..])), old(Bits(y[..])))
  {
    hide Bits, Mul;
    var z, v := new Byte[16](_ => 0), new Byte[16];
    CopyBlock(v, y);
    ZeroBits(z[..]);
    MulLoop(x, z, v, Bits(x[..]), Bits(y[..]));
    CopyBlock(x, z);
  }

  lemma MulStart(x: Block, y: Block)
    ensures MulTo(x, y, 0) == ZERO && ShiftBy(y, 0) == y
  {
  }

  lemma MulNext(x: Block, y: Block, n: nat)
    requires n < 128
    ensures MulTo(x, y, n + 1) == Xor(MulTo(x, y, n), When(x[n], ShiftBy(y, n))) &&
            ShiftBy(y, n + 1) == Shift(ShiftBy(y, n))
  {
  }

  lemma ZeroBits(s: seq<Byte>)
    requires |s| == 16 && forall k :: 0 <= k < 16 ==> s[k] == 0
    ensures Bits(s) == ZERO
  {
  }
}
