/** Reading bits and bytes out of a number that is stored in wider digits, and byte strings as numbers. */
module Digits {
  import opened Arith
  import opened Limbs

  lemma DivNonNeg(x: int, d: int)
    requires x >= 0 && d > 0
    ensures 0 <= x / d <= x
  {
    var q := x / d;
    assert x == d * q + x % d;
    if q < 0 {
      MulMono(q, -1, d);
      assert false;
    }
    MulMono(1, d, q);
  }

  /** What is left of x when its lowest i bits are dropped. */
  function Lead(x: nat, i: nat): (r: nat)
  {
    DivNonNeg(x, Pow(2, i));
    x / Pow(2, i)
  }

  function Bit(x: nat, i: nat): (b: int)
    ensures b == 0 || b == 1
  {
    Lead(x, i) % 2
  }

  lemma DivDiv(x: int, a: int, b: int)
    requires a > 0 && b > 0
    ensures a * b > 0
    ensures x / (a * b) == (x / a) / b
  {
    var q, r := x / a, x % a;
    var q', r' := q / b, q % b;
    assert x == a * q + r && q == b * q' + r';
    MulMono(r' + 1, b, a);
    assert a * q == (a * b) * q' + a * r' by {
      MulDist(a, b * q', r');
      MulAssoc(a, b, q');
    }
    assert (r' + 1) * a == a * r' + a;
    assert q' * (a * b) == (a * b) * q';
    DivModUnique(x, q', a * r' + r, a * b);
  }

  /** x is lo + u * (d + y * hi), so d is the digit of x with weight u; a digit of d in a base that
      divides y is then a digit of x. */
  lemma DigitOf(x: int, lo: int, u: int, d: int, y: int, hi: int, p: int, q: int, base: int)
    requires 0 <= lo < u && 0 <= d && p > 0 && base > 0 && y == p * (base * q)
    requires x == lo + u * (d + y * hi)
    ensures u * p > 0
    ensures (x / (u * p)) % base == (d / p) % base
  {
    DivDiv(x, u, p);
    DivModUnique(x, d + y * hi, lo, u);
    var e := base * q * hi;
    assert y * hi == e * p by {
      MulAssoc(p, base * q, hi);
      MulAssoc(base, q, hi);
    }
    DivModUnique(d + y * hi, d / p + e, d % p, p) by {
      MulDist(p, d / p, e);
      assert d == p * (d / p) + d % p;
    }
    var f := q * hi;
    assert e == f * base by { MulAssoc(base, q, hi); }
    DivModUnique(d / p + e, (d / p) / base + f, (d / p) % base, base) by {
      MulDist(base, (d / p) / base, f);
      assert d / p == base * ((d / p) / base) + (d / p) % base;
    }
  }

  /** The leading bits of a number: each one more bit doubles them and adds that bit. */
  lemma LeadingBits(x: nat, i: nat)
    ensures Lead(x, i) == 2 * Lead(x, i + 1) + Bit(x, i)
  {
    assert Pow(2, i + 1) == Pow(2, i) * 2;
    DivDiv(x, Pow(2, i), 2);
  }

  // ----- big-endian byte strings

  function BeVal(s: seq<u8>): (r: nat)
  {
    if s == [] then 0 else BeVal(s[..|s| - 1]) * 256 + s[|s| - 1]
  }

  lemma {:induction false} BeBound(s: seq<u8>)
    ensures BeVal(s) < Pow(256, |s|)
  {
    if s != [] {
      BeBound(s[..|s| - 1]);
    }
  }

  lemma {:induction false} BeUnique(a: seq<u8>, b: seq<u8>)
    requires |a| == |b| && BeVal(a) == BeVal(b)
    ensures a == b
  {
    if a != [] {
      var n := |a| - 1;
      DivModUnique(BeVal(a), BeVal(a[..n]), a[n], 256);
      DivModUnique(BeVal(b), BeVal(b[..n]), b[n], 256);
      BeUnique(a[..n], b[..n]);
      assert a == a[..n] + [a[n]] && b == b[..n] + [b[n]];
    }
  }

  lemma {:induction false} BeSplit(s: seq<u8>, i: nat)
    requires i <= |s|
    ensures BeVal(s) == BeVal(s[..i]) * Pow(256, |s| - i) + BeVal(s[i..])
    ensures BeVal(s[i..]) < Pow(256, |s| - i)
  {
    BeBound(s[i..]);
    if i == |s| {
      assert s[..i] == s;
    } else {
      var n := |s| - 1;
      var t := s[..n];
      BeSplit(t, i);
      assert t[..i] == s[..i];
      assert t[i..] == s[i..][..n - i];
      assert BeVal(s) == BeVal(t) * 256 + s[n];
      MulSwap(256, BeVal(s[..i]), Pow(256, n - i));
    }
  }

  lemma {:induction false} Pow256Is(k: nat)
    ensures Pow(256, k) == Pow(2, 8 * k)
  {
    if k > 0 {
      Pow256Is(k - 1);
      PowAdd(2, 8, 8 * (k - 1));
      assert Pow(2, 8) == 256;
    }
  }

  lemma BeAt(s: seq<u8>, at: nat)
    requires at < |s|
    ensures BeVal(s) == BeVal(s[at + 1..]) + Pow(256, |s| - 1 - at) * (s[at] + 256 * BeVal(s[..at]))
    ensures BeVal(s[at + 1..]) < Pow(256, |s| - 1 - at)
  {
    hide *;
    BeSplit(s, at + 1);
    BeSplit(s[..at + 1], at);
    assert s[..at + 1][..at] == s[..at] && s[..at + 1][at..] == [s[at]];
    BeOne(s[at]);
    MulEq(Pow(256, |s| - 1 - at), BeVal(s[..at + 1]), s[at] + 256 * BeVal(s[..at]));
  }

  lemma BeOne(x: u8)
    ensures BeVal([x]) == x && Pow(256, 1) == 256
  {
    assert [x][..0] == [];
  }


  /** A bit of a big-endian byte string is a bit of one of its bytes, counted from the end. */
  lemma BeBit(s: seq<u8>, index: nat)
    requires index < 8 * |s|
    ensures Bit(BeVal(s), index) == Bit(s[|s| - 1 - index / 8], index % 8)
  {
    var k, r := index / 8, index % 8;
    var at := |s| - 1 - k;
    var u, hi := Pow(256, k), BeVal(s[..at]);
    BeAt(s, at);
    Pow256Is(k);
    PowAdd(2, 8 * k, r);
    PowAdd(2, r, 8 - r);
    assert Pow(2, 8) == 256;
    assert Pow(2, 8 - r) == 2 * Pow(2, 7 - r);
    DigitOf(BeVal(s), BeVal(s[at + 1..]), u, s[at], 256, hi, Pow(2, r), Pow(2, 7 - r), 2);
  }

  // ----- little-endian byte strings

  function LeVal(s: seq<u8>): (r: nat)
  {
    if s == [] then 0 else s[0] + 256 * LeVal(s[1..])
  }

  lemma {:induction false} LeBound(s: seq<u8>)
    ensures LeVal(s) < Pow(256, |s|)
  {
    if s != [] {
      LeBound(s[1..]);
    }
  }

  lemma {:induction false} LeUnique(a: seq<u8>, b: seq<u8>)
    requires |a| == |b| && LeVal(a) == LeVal(b)
    ensures a == b
  {
    if a != [] {
      DivModUnique(LeVal(a), LeVal(a[1..]), a[0], 256);
      DivModUnique(LeVal(b), LeVal(b[1..]), b[0], 256);
      LeUnique(a[1..], b[1..]);
      assert a == [a[0]] + a[1..] && b == [b[0]] + b[1..];
    }
  }

  lemma {:induction false} LeSplit(s: seq<u8>, i: nat)
    requires i <= |s|
    ensures LeVal(s) == LeVal(s[..i]) + Pow(256, i) * LeVal(s[i..])
    ensures LeVal(s[..i]) < Pow(256, i)
  {
    LeBound(s[..i]);
    if i == 0 {
      assert s[..0] == [] && s[0..] == s;
    } else {
      LeSplit(s[1..], i - 1);
      assert s[..i][1..] == s[1..][..i - 1];
      assert s[1..][i - 1..] == s[i..];
      MulDist(256, LeVal(s[1..][..i - 1]), Pow(256, i - 1) * LeVal(s[i..]));
      MulAssoc(256, Pow(256, i - 1), LeVal(s[i..]));
    }
  }

  lemma LeBit(s: seq<u8>, index: nat)
    requires index < 8 * |s|
    ensures Bit(LeVal(s), index) == Bit(s[index / 8], index % 8)
  {
    var k, r := index / 8, index % 8;
    LeSplit(s, k);
    assert s[k..][1..] == s[k + 1..];
    Pow256Is(k);
    PowAdd(2, 8 * k, r);
    PowAdd(2, r, 8 - r);
    assert Pow(2, 8) == 256;
    assert Pow(2, 8 - r) == 2 * Pow(2, 7 - r);
    DigitOf(LeVal(s), LeVal(s[..k]), Pow(256, k), s[k], 256, LeVal(s[k + 1..]),
            Pow(2, r), Pow(2, 7 - r), 2);
  }

  // ----- digits of a limb string

  /** Replacing one limb moves the value by that limb's weight. */
  lemma ValUpdate(s: seq<u32>, k: nat, x: u32)
    requires k < |s|
    ensures Val(s[k := x]) == Val(s) + (x - s[k]) * B(k)
  {
    var t := s[k := x];
    ValSplit(s, k + 1);
    ValSplit(t, k + 1);
    ValPrefix(s, k);
    ValPrefix(t, k);
    assert s[..k] == t[..k] && s[k + 1..] == t[k + 1..];
    MulDist(B(k), x - s[k], s[k]);
  }

  lemma ValAt(s: seq<u32>, k: nat)
    requires k < |s|
    ensures Val(s) == Val(s[..k]) + B(k) * (s[k] + W * Val(s[k + 1..]))
    ensures Val(s[..k]) < B(k)
  {
    hide *;
    ValBound(s[..k]);
    ValSplit(s, k + 1);
    ValPrefix(s, k);
    BNext(k);
    MulEq(Val(s[k + 1..]), B(k + 1), W * B(k));
    Regroup(Val(s), Val(s[..k]), s[k], B(k), W, Val(s[k + 1..]));
  }

  lemma Regroup(v: int, lo: int, x: int, b: int, w: int, hi: int)
    requires v == lo + x * b + (w * b) * hi
    ensures v == lo + b * (x + w * hi)
  {
    MulDist(b, x, w * hi);
    MulSwap(b, w, hi);
    MulAssoc(w, b, hi);
  }

  lemma LimbBit(s: seq<u32>, index: nat)
    requires index < 32 * |s|
    ensures Bit(Val(s), index) == Bit(s[index / 32], index % 32)
  {
    var k, r := index / 32, index % 32;
    ValAt(s, k);
    BIsPow2(k);
    PowAdd(2, 32 * k, r);
    PowAdd(2, r, 32 - r);
    Pow2Of32();
    assert Pow(2, 32 - r) == 2 * Pow(2, 31 - r);
    DigitOf(Val(s), Val(s[..k]), B(k), s[k], W, Val(s[k + 1..]), Pow(2, r), Pow(2, 31 - r), 2);
  }

  lemma WIsPow256()
    ensures W == Pow(256, 4)
  {
    Pow256Is(4);
    Pow2Of32();
  }

  /** 256^off, split at the limb that byte number off falls in. */
  lemma ByteWeight(off: nat)
    ensures Pow(256, off) == B(off / 4) * Pow(256, off % 4)
  {
    var k, r := off / 4, off % 4;
    Pow256Is(off);
    Pow256Is(r);
    BIsPow2(k);
    PowAdd(2, 32 * k, 8 * r);
  }

  /** Byte number off of a limb string is a byte of limb off / 4. */
  lemma LimbByte(s: seq<u32>, off: nat)
    requires off < 4 * |s|
    ensures (Val(s) / Pow(256, off)) % 256 == (s[off / 4] / Pow(256, off % 4)) % 256
  {
    var k, r := off / 4, off % 4;
    ValAt(s, k);
    ByteWeight(off);
    WIsPow256();
    PowAdd(256, r, 4 - r);
    assert Pow(256, 4 - r) == 256 * Pow(256, 3 - r);
    DigitOf(Val(s), Val(s[..k]), B(k), s[k], W, Val(s[k + 1..]), Pow(256, r), Pow(256, 3 - r), 256);
  }
}
