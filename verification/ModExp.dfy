/** RSA's public operation: base^exponent mod modulus on big-endian byte strings. */
module ModExp {
  import opened Arith
  import opened Limbs
  import opened Digits
  import opened Bn
  import opened Montgomery

  const MAX_BYTES := 1024

  // ----- big-endian bytes to limbs and back

  /** 2^(8r), the place of byte r of a limb. */
  function Place(r: nat): (p: int)
    requires r < 4
    ensures p == Pow(256, r) && p > 0
  {
    assert Pow(256, 1) == 256 && Pow(256, 2) == 0x1_0000 && Pow(256, 3) == 0x100_0000;
    [1, 0x100, 0x1_0000, 0x100_0000][r]
  }

  /** OR-ing a byte into bits that are still clear adds it. */
  function OrByte(x: u32, b: u8, r: nat): (y: u32)
    requires r < 4 && x % (256 * Place(r)) == 0
    ensures y == x + b * Place(r)
  {
    x + b * Place(r)
  }

  /** The bytes below byte number left are still clear. */
  ghost predicate Clear(limbs: seq<u32>, left: nat)
  {
    left <= 4 * |limbs| &&
    (forall k :: 0 <= k < |limbs| && 4 * k + 4 <= left ==> limbs[k] == 0) &&
    (left > 0 ==> limbs[(left - 1) / 4] % (256 * Place((left - 1) % 4)) == 0)
  }

  lemma ClearStep(limbs: seq<u32>, left: nat, b: u8)
    requires left > 0 && Clear(limbs, left)
    ensures var k, r := (left - 1) / 4, (left - 1) % 4;
            Clear(limbs[k := OrByte(limbs[k], b, r)], left - 1)
  {
    hide OrByte, Place, Pow;
    var k, r := (left - 1) / 4, (left - 1) % 4;
    if r > 0 {
      LoadClear(limbs[k], b, r);
      assert (left - 2) / 4 == k && (left - 2) % 4 == r - 1;
    } else if left > 1 {
      assert (left - 2) / 4 == k - 1;
      assert limbs[k - 1] == 0;
      ZeroClear((left - 2) % 4);
    }
  }

  lemma ZeroClear(r: nat)
    requires r < 4
    ensures 0 % (256 * Place(r)) == 0
  {
  }

  /** The first i bytes, the most significant ones, are in place; everything below them is clear. */
  ghost predicate LoadInv(limbs: seq<u32>, bytes: seq<u8>, i: nat)
  {
    i <= |bytes| && Clear(limbs, |bytes| - i) && Val(limbs) == BeVal(bytes[..i]) * Pow(256, |bytes| - i)
  }

  lemma LoadStart(limbs: seq<u32>, bytes: seq<u8>)
    requires |bytes| <= 4 * |limbs| && forall k :: 0 <= k < |limbs| ==> limbs[k] == 0
    ensures LoadInv(limbs, bytes, 0)
  {
    ValZeros(limbs);
    assert bytes[..0] == [];
  }

  lemma LoadStep(limbs: seq<u32>, bytes: seq<u8>, i: nat)
    requires i < |bytes| <= 4 * |limbs| && LoadInv(limbs, bytes, i)
    ensures var off := |bytes| - 1 - i;
            limbs[off / 4] % (256 * Place(off % 4)) == 0 &&
            LoadInv(limbs[off / 4 := OrByte(limbs[off / 4], bytes[i], off % 4)], bytes, i + 1)
  {
    hide Val, BeVal, Pow, OrByte, Place;
    var off := |bytes| - 1 - i;
    ClearStep(limbs, |bytes| - i, bytes[i]);
    LoadValue(limbs, bytes, i, off / 4, off % 4, OrByte(limbs[off / 4], bytes[i], off % 4));
  }

  /** After byte r of a limb is in, byte r - 1 is the next that is still clear. */
  lemma LoadClear(x: u32, b: u8, r: nat)
    requires 0 < r < 4 && x % (256 * Place(r)) == 0
    ensures OrByte(x, b, r) % (256 * Place(r - 1)) == 0
  {
  }

  lemma LoadValue(limbs: seq<u32>, bytes: seq<u8>, i: nat, k: nat, r: nat, y: u32)
    requires i < |bytes| <= 4 * |limbs| && 4 * k + r == |bytes| - 1 - i && r < 4
    requires Val(limbs) == BeVal(bytes[..i]) * Pow(256, |bytes| - i)
    requires y == limbs[k] + bytes[i] * Place(r)
    ensures Val(limbs[k := y]) == BeVal(bytes[..i + 1]) * Pow(256, |bytes| - i - 1)
  {
    hide Val, BeVal, Pow, B, Place;
    var off := |bytes| - 1 - i;
    var p := Pow(256, off);
    var b, hi, hi' := bytes[i], BeVal(bytes[..i]), BeVal(bytes[..i + 1]);
    ValUpdate(limbs, k, y);
    ByteWeight(off);
    PowNext(256, off);
    BeLast(bytes[..i], b);
    assert bytes[..i + 1] == bytes[..i] + [b];
    PlaceValue(Val(limbs), Val(limbs[k := y]), y - limbs[k], b, hi, hi', p, B(k), Place(r));
  }

  lemma PlaceValue(v: int, v': int, d: int, b: int, hi: int, hi': int, p: int, w: int, place: int)
    requires v == hi * (256 * p) && v' == v + d * w && d == b * place && p == w * place && hi' == hi * 256 + b
    ensures v' == hi' * p
  {
    assert d * w == b * p by {
      MulEq(w, d, b * place);
      assert (b * place) * w == b * (w * place);
    }
    MulEq(p, hi', hi * 256 + b);
    MulSwap(hi, 256, p);
    assert (hi * 256 + b) * p == hi * (256 * p) + b * p;
  }

  lemma PowNext(b: int, e: nat)
    ensures Pow(b, e + 1) == b * Pow(b, e)
  {
  }

  lemma BeLast(s: seq<u8>, x: u8)
    ensures BeVal(s + [x]) == BeVal(s) * 256 + x
  {
    assert (s + [x])[..|s|] == s;
  }

  /** Loads a big-endian byte string into limbs. */
  method FromBe(bytes: seq<u8>, limbs: array<u32>, n: nat)
    requires n == limbs.Length && |bytes| <= 4 * n
    modifies limbs
    ensures Val(limbs[..]) == BeVal(bytes)
  {
    hide *;
    forall k | 0 <= k < n { limbs[k] := 0; }
    LoadStart(limbs[..], bytes);
    var i := 0;
    while i < |bytes|
      invariant 0 <= i <= |bytes|
      invariant LoadInv(limbs[..], bytes, i)
    {
      var off := |bytes| - 1 - i;
      LoadStep(limbs[..], bytes, i);
      ghost var next := limbs[..][off / 4 := OrByte(limbs[off / 4], bytes[i], off % 4)];
      limbs[off / 4] := OrByte(limbs[off / 4], bytes[i], off % 4);
      assert limbs[..] == next;
      i := i + 1;
    }
    LoadEnd(limbs[..], bytes);
  }

  lemma LoadEnd(limbs: seq<u32>, bytes: seq<u8>)
    requires LoadInv(limbs, bytes, |bytes|)
    ensures Val(limbs) == BeVal(bytes)
  {
    assert bytes[..|bytes|] == bytes;
  }

  lemma PowZero(b: int)
    ensures Pow(b, 0) == 1
  {
  }

  /** Stores limbs as a big-endian byte string that fills out. */
  method ToBe(limbs: array<u32>, n: nat, out: array<u8>)
    requires n == limbs.Length && out.Length <= 4 * n && Val(limbs[..]) < Pow(256, out.Length)
    modifies out
    ensures BeVal(out[..]) == Val(limbs[..])
  {
    hide Val, BeVal, Pow, B;
    var len := out.Length;
    ghost var v, L := Val(limbs[..]), limbs[..];
    var i := 0;
    DivModUnique(v, 0, v, Pow(256, len));
    assert out[..0] == [];
    BeEmpty();
    while i < len
      invariant 0 <= i <= len
      invariant BeVal(out[..i]) == v / Pow(256, len - i)
    {
      var off := len - 1 - i;
      ghost var done := out[..i];
      StoreStep(L, done, v, off);
      var byte := (limbs[off / 4] / Place(off % 4)) % 256;
      out[i] := byte;
      assert out[..i + 1] == done + [byte];
      i := i + 1;
    }
    assert out[..i] == out[..];
    PowZero(256);
  }

  lemma BeEmpty()
    ensures BeVal([]) == 0
  {
  }

  lemma StoreStep(limbs: seq<u32>, done: seq<u8>, v: int, off: nat)
    requires v == Val(limbs) && off < 4 * |limbs|
    requires BeVal(done) == v / Pow(256, off + 1)
    ensures BeVal(done + [(limbs[off / 4] / Place(off % 4)) % 256]) == v / Pow(256, off)
  {
    var x := (limbs[off / 4] / Place(off % 4)) % 256;
    LimbByte(limbs, off);
    assert (done + [x])[..|done|] == done;
    assert Pow(256, off + 1) == Pow(256, off) * 256;
    DivDiv(v, Pow(256, off), 256);
  }

  // ----- the modulus

  /** The top bit of the top limb is set exactly when the length is whole limbs and the first byte has it. */
  lemma TopBit(m: seq<u32>, modulus: seq<u8>)
    requires |modulus| > 0 && |m| == (|modulus| + 3) / 4 && Val(m) == BeVal(modulus)
    ensures m[|m| - 1] >= 0x8000_0000 <==> |modulus| % 4 == 0 && modulus[0] >= 0x80
    ensures m[|m| - 1] >= 0x8000_0000 <==> 2 * Val(m) >= B(|m|)
  {
    hide *;
    var k := |m| - 1;
    var r := WholeLimbs(|modulus|, k);
    TopSplit(m, modulus, k, r);
    BNext(k);
    TopNumber(m[k], Val(m[..k]), B(k), modulus[0], BeVal(modulus[1..]), r);
  }

  lemma WholeLimbs(len: nat, k: nat) returns (r: nat)
    requires len > 0 && k + 1 == (len + 3) / 4
    ensures r < 4 && len == 4 * k + r + 1
    ensures r == 3 <==> len % 4 == 0
  {
    r := len - 1 - 4 * k;
  }

  /** The same number split below its top limb and below its first byte. */
  lemma TopSplit(m: seq<u32>, modulus: seq<u8>, k: nat, r: nat)
    requires |m| == k + 1 && |modulus| == 4 * k + r + 1 && r < 4 && Val(m) == BeVal(modulus)
    ensures 0 <= Val(m[..k]) < B(k) && 0 <= BeVal(modulus[1..]) < B(k) * Place(r)
    ensures Val(m) == Val(m[..k]) + m[k] * B(k) == modulus[0] * (B(k) * Place(r)) + BeVal(modulus[1..])
  {
    hide *;
    FirstByte(modulus);
    ValPrefix(m, k);
    assert m[..k + 1] == m;
    ValBound(m[..k]);
    ByteWeight(4 * k + r);
    assert (4 * k + r) / 4 == k && (4 * k + r) % 4 == r;
    MulEq(modulus[0], Pow(256, 4 * k + r), B(k) * Place(r));
  }

  lemma FirstByte(s: seq<u8>)
    requires |s| > 0
    ensures BeVal(s) == s[0] * Pow(256, |s| - 1) + BeVal(s[1..])
    ensures BeVal(s[1..]) < Pow(256, |s| - 1)
  {
    hide *;
    BeSplit(s, 1);
    BeOne(s[0]);
    assert s[..1] == [s[0]];
  }

  lemma TopNumber(top: u32, lo: int, b: int, first: u8, rest: int, r: nat)
    requires r < 4 && 0 <= lo < b && 0 <= rest < b * Place(r)
    requires lo + top * b == first * (b * Place(r)) + rest
    ensures top >= 0x8000_0000 <==> r == 3 && first >= 0x80
    ensures top >= 0x8000_0000 <==> 2 * (lo + top * b) >= W * b
  {
    Compare(top, lo, b, 0x8000_0000);
    if r == 3 {
      Compare(first, rest, b * 0x100_0000, 0x80);
    } else {
      MulMono(Place(r), 0x1_0000, b);
      MulMono(first, 0xff, b * Place(r));
    }
  }

  /** A leading digit is at least k exactly when the number is. */
  lemma Compare(top: int, lo: int, b: int, k: int)
    requires 0 <= lo < b
    ensures top >= k <==> lo + top * b >= k * b
  {
    if top >= k {
      MulMono(k, top, b);
    } else {
      MulMono(top + 1, k, b);
      MulDist(b, top, 1);
    }
  }

  // ----- the exponent

  /** The position of the exponent's highest set bit, or -1. */
  method HighestBit(exponent: seq<u8>) returns (h: int)
    ensures -1 <= h < 8 * |exponent|
    ensures h == -1 <==> BeVal(exponent) == 0
    ensures Lead(BeVal(exponent), h + 1) == 0
  {
    hide BeVal, Pow, Bit, Lead;
    ghost var e := BeVal(exponent);
    var i := 8 * |exponent|;
    BeBound(exponent);
    Pow256Is(|exponent|);
    LeadNone(e, i);
    while i > 0
      invariant 0 <= i <= 8 * |exponent|
      invariant Lead(e, i) == 0
    {
      LeadingBits(e, i - 1);
      BeBit(exponent, i - 1);
      if Bit(exponent[|exponent| - 1 - (i - 1) / 8], (i - 1) % 8) != 0 {
        h := i - 1;
        LeadOfZero(i - 1);
        return;
      }
      i := i - 1;
    }
    LeadAll(e);
    return -1;
  }

  lemma LeadOfZero(i: nat)
    ensures Lead(0, i) == 0
  {
  }

  lemma LeadNone(e: nat, i: nat)
    requires e < Pow(2, i)
    ensures Lead(e, i) == 0
  {
    DivModUnique(e, 0, e, Pow(2, i));
  }

  lemma LeadAll(e: nat)
    ensures Lead(e, 0) == e
  {
  }

  /** Square, then multiply when the next bit is set: the exponent's leading bits grow by one. */
  lemma SquareMultiply(x: int, e: nat, i: nat)
    ensures Pow(x, Lead(e, i)) ==
            if Bit(e, i) != 0
            then (Pow(x, Lead(e, i + 1)) * Pow(x, Lead(e, i + 1))) * x
            else Pow(x, Lead(e, i + 1)) * Pow(x, Lead(e, i + 1))
  {
    hide *;
    var k := Lead(e, i + 1);
    LeadingBits(e, i);
    PowAdd(x, k, k);
    PowNext(x, k + k);
    if Bit(e, i) != 0 {
      assert Lead(e, i) == k + k + 1;
    }
  }

  // ----- tamga_bn_modexp

  /** Exactly what the routine takes: sizes in range, an odd modulus of whole limbs with its top bit
      set, a base below it and an exponent that is not zero. */
  ghost predicate Accepts(base: seq<u8>, modulus: seq<u8>, exponent: seq<u8>)
  {
    0 < |modulus| <= MAX_BYTES && 0 < |exponent| <= |modulus| &&
    |modulus| % 4 == 0 && modulus[0] >= 0x80 && modulus[|modulus| - 1] % 2 == 1 &&
    BeVal(base) < BeVal(modulus) && BeVal(exponent) != 0
  }

  /** In numbers: at most 1024 bytes, an odd modulus that fills whole 32-bit words up to the top bit, a smaller base
      and a positive exponent that is no longer. */
  lemma AcceptsExact(base: seq<u8>, modulus: seq<u8>, exponent: seq<u8>)
    ensures Accepts(base, modulus, exponent) <==>
            && 1 <= |modulus| <= 1024 && |modulus| % 4 == 0 && 1 <= |exponent| <= |modulus|
            && BeVal(modulus) % 2 == 1 && 2 * BeVal(modulus) >= Pow(256, |modulus|)
            && BeVal(base) < BeVal(modulus) && BeVal(exponent) > 0
  {
    if |modulus| > 0 {
      FirstHalf(modulus);
      LastOdd(modulus);
    }
  }

  lemma LastOdd(s: seq<u8>)
    requires |s| > 0
    ensures BeVal(s) % 2 == s[|s| - 1] % 2
  {
    var v, d := BeVal(s[..|s| - 1]), s[|s| - 1];
    assert BeVal(s) == 2 * (128 * v) + d;
  }

  lemma FirstHalf(s: seq<u8>)
    requires |s| > 0
    ensures 2 * BeVal(s) >= Pow(256, |s|) <==> s[0] >= 0x80
  {
    hide BeVal, Pow;
    BeSplit(s, 1);
    BeBound(s[1..]);
    assert s[..1] == [s[0]];
    BeOne(s[0]);
    PowNext(256, |s| - 1);
    var p := Pow(256, |s| - 1);
    if s[0] >= 0x80 {
      MulMono(0x80, s[0], p);
    } else {
      MulMono(s[0], 0x7f, p);
    }
  }

  lemma LowBit(m: seq<u32>, modulus: seq<u8>)
    requires |m| > 0 && |modulus| > 0 && Val(m) == BeVal(modulus)
    ensures m[0] % 2 == Val(m) % 2 == modulus[|modulus| - 1] % 2
  {
    hide *;
    ValSplit(m, 1);
    FirstLimb(m);
    BNext(0);
    BZero();
    var k := |modulus| - 1;
    BeLast(modulus[..k], modulus[k]);
    assert modulus == modulus[..k] + [modulus[k]];
    Parity(Val(m), m[0], Val(m[1..]), BeVal(modulus[..k]), modulus[k]);
  }

  lemma Parity(v: int, m0: int, q: int, h: int, last: int)
    requires v == m0 + W * q && v == h * 256 + last
    ensures m0 % 2 == v % 2 == last % 2
  {
    DivModUnique(v, m0 / 2 + 0x8000_0000 * q, m0 % 2, 2);
    DivModUnique(v, last / 2 + 128 * h, last % 2, 2);
  }

  lemma BZero()
    ensures B(0) == 1
  {
  }

  lemma NegWrap(r: int, m: int, borrow: int, b: int)
    requires r == borrow * b - m && 0 <= r < b && 0 < m < b
    ensures r == b - m
  {
    MulDist(b, borrow, -1);
    WrapSub(b - m, r, borrow - 1, b);
  }

  /** R mod m, as zero minus m in n-limb two's complement. */
  method ROf(r: array<u32>, m: array<u32>, n: nat)
    requires n == r.Length == m.Length && r != m
    requires 0 < Val(m[..])
    modifies r
    ensures Val(r[..]) == B(n) - Val(m[..])
  {
    hide *;
    ghost var M := m[..];
    forall k | 0 <= k < n { r[k] := 0; }
    ValZeros(r[..]);
    assert r[..n] == r[..] && m[..n] == M;
    var borrow := Sub(r, r, m, n);
    assert r[..n] == r[..] && m[..] == M;
    ValBound(M);
    ValBound(r[..]);
    NegWrap(Val(r[..]), Val(M), borrow, B(n));
  }

  /** R^2 mod m, by doubling R mod m another 32n times. */
  method RSquared(rr: array<u32>, m: array<u32>, n: nat)
    requires n == rr.Length == m.Length && rr != m
    requires Val(m[..]) % 2 == 1 && B(n) <= 2 * Val(m[..])
    modifies rr
    ensures Val(rr[..]) < old(Val(m[..])) && Cong(Val(rr[..]), B(n) * B(n), old(Val(m[..])))
  {
    hide *;
    ghost var M := m[..];
    ValBound(M);
    ROf(rr, m, n);
    ROne(Val(M), n);
    var i := 0;
    DoublingStart(Val(rr[..]), Val(M), n);
    while i < n * 32
      invariant 0 <= i <= n * 32
      invariant m[..] == M
      invariant Doubled(Val(rr[..]), Val(M), n, i)
    {
      ghost var v := Val(rr[..]);
      assert rr[..n] == rr[..] && m[..n] == M;
      DoublingBound(v, Val(M), n, i);
      DoubleMod(rr, m, n);
      assert rr[..n] == rr[..] && m[..] == M;
      DoublingStep(v, Val(rr[..]), Val(M), n, i);
      i := i + 1;
    }
    DoublingEnd(Val(rr[..]), Val(M), n);
  }

  ghost predicate Doubled(v: int, m: int, n: nat, i: nat)
  {
    0 <= v < m && Cong(v, Pow(2, i) * B(n), m)
  }

  lemma DoublingStart(v: int, m: int, n: nat)
    requires MontForm(v, 1, m, n)
    ensures Doubled(v, m, n, 0)
  {
  }

  lemma DoublingBound(v: int, m: int, n: nat, i: nat)
    requires Doubled(v, m, n, i)
    ensures v < m
  {
  }

  lemma DoublingStep(v: int, v': int, m: int, n: nat, i: nat)
    requires Doubled(v, m, n, i) && v' == (2 * v) % m
    ensures Doubled(v', m, n, i + 1)
  {
    hide Cong, B;
    CongMod(2 * v, m);
    CongRefl(2, m);
    CongMul(2, 2, v, Pow(2, i) * B(n), m);
    MulAssoc(2, Pow(2, i), B(n));
    CongTrans(v', 2 * v, 2 * (Pow(2, i) * B(n)), m);
  }

  lemma DoublingEnd(v: int, m: int, n: nat)
    requires Doubled(v, m, n, n * 32)
    ensures 0 <= v < m && Cong(v, B(n) * B(n), m)
  {
    BIsPow2(n);
  }

  /** The square-and-multiply loop on Montgomery residues. */
  method PowLoop(acc: array<u32>, baseMont: array<u32>, m: array<u32>, n: nat, n0inv: u32,
                 exponent: seq<u8>, h: nat, ghost x: int)
    requires 1 <= n == acc.Length == baseMont.Length == m.Length
    requires acc != m && acc != baseMont
    requires Val(m[..]) % 2 == 1 && IsN0Inv(m[0], n0inv)
    requires h < 8 * |exponent| && Lead(BeVal(exponent), h + 1) == 0
    requires MontForm(Val(acc[..]), 1, Val(m[..]), n)
    requires MontForm(Val(baseMont[..]), x, Val(m[..]), n)
    modifies acc
    ensures MontForm(Val(acc[..]), Pow(x, BeVal(exponent)), old(Val(m[..])), n)
  {
    hide *;
    ghost var M, Bm, e := m[..], baseMont[..], BeVal(exponent);
    var i := 0;
    PowZero(x);
    while i <= h
      invariant 0 <= i <= h + 1
      invariant m[..] == M && baseMont[..] == Bm
      invariant MontForm(Val(acc[..]), Pow(x, Lead(e, h + 1 - i)), Val(M), n)
    {
      var bit := h - i;
      ghost var v := Pow(x, Lead(e, bit + 1));
      SquareMultiply(x, e, bit);
      BeBit(exponent, bit);
      ghost var a0 := acc[..];
      assert acc[..n] == a0 && m[..n] == M;
      FormBound(Val(a0), v, Val(M), n);
      MontMul(acc, acc, acc, m, n, n0inv);
      ghost var a1 := acc[..];
      assert acc[..n] == a1 && m[..] == M && baseMont[..] == Bm;
      MontMulForm(Val(a1), Val(a0), Val(a0), v, v, Val(M), n);
      if Bit(exponent[|exponent| - 1 - bit / 8], bit % 8) != 0 {
        assert m[..n] == M && baseMont[..n] == Bm;
        FormBound(Val(a1), v * v, Val(M), n);
        MontMul(acc, acc, baseMont, m, n, n0inv);
        assert acc[..n] == acc[..] && m[..] == M && baseMont[..] == Bm;
        MontMulForm(Val(acc[..]), Val(a1), Val(Bm), v * v, x, Val(M), n);
      }
      i := i + 1;
    }
    LeadAll(e);
  }

  lemma FormBound(x: int, v: int, m: int, n: nat)
    requires MontForm(x, v, m, n)
    ensures 0 <= x < m
  {
  }

  /** R^2 and R modulo m, and from them the base and 1 in Montgomery form. */
  method Setup(b: array<u32>, m: array<u32>, n: nat, n0inv: u32) returns (acc: array<u32>, baseMont: array<u32>)
    requires 1 <= n == b.Length == m.Length
    requires Val(m[..]) % 2 == 1 && IsN0Inv(m[0], n0inv)
    requires B(n) <= 2 * Val(m[..]) && Val(b[..]) < Val(m[..])
    ensures fresh(acc) && fresh(baseMont) && acc != baseMont && acc.Length == n == baseMont.Length
    ensures MontForm(Val(acc[..]), 1, Val(m[..]), n)
    ensures MontForm(Val(baseMont[..]), Val(b[..]), Val(m[..]), n)
  {
    hide *;
    ghost var M, bs := m[..], b[..];
    var rr := new u32[n];
    acc := new u32[n];
    baseMont := new u32[n];
    RSquared(rr, m, n);
    assert m[..] == M && b[..] == bs;
    ROf(acc, m, n);
    ValBound(M);
    ROne(Val(M), n);
    assert m[..n] == M && b[..n] == bs && rr[..n] == rr[..];
    MontMul(baseMont, b, rr, m, n, n0inv);
    assert baseMont[..n] == baseMont[..] && m[..] == M && b[..] == bs;
    MontEnter(Val(baseMont[..]), Val(bs), Val(rr[..]), Val(M), n);
  }

  method ModExp(base: seq<u8>, modulus: seq<u8>, exponent: seq<u8>, out: array<u8>) returns (ok: bool)
    requires |base| == |modulus| == out.Length
    modifies out
    ensures ok <==> Accepts(base, modulus, exponent)
    ensures ok ==> BeVal(modulus) > 0 &&
                   BeVal(out[..]) == Pow(BeVal(base), BeVal(exponent)) % BeVal(modulus)
    ensures !ok ==> out[..] == old(out[..])
  {
    var modLen, expLen := |modulus|, |exponent|;
    if modLen == 0 || modLen > MAX_BYTES || expLen == 0 || expLen > modLen {
      return false;
    }
    hide Val, BeVal, Pow, B, Cong, IsN0Inv, MontForm, MontProduct;
    var n := (modLen + 3) / 4;
    var m, b := new u32[n], new u32[n];
    FromBe(modulus, m, n);
    FromBe(base, b, n);
    ghost var M := m[..];
    LowBit(M, modulus);
    TopBit(M, modulus);
    if m[0] % 2 == 0 || m[n - 1] < 0x8000_0000 {
      return false;
    }
    assert m[..n] == M && b[..n] == b[..];
    var c := Cmp(b, m, n);
    if c >= 0 {
      return false;
    }
    BeBound(modulus);
    ok := Exponentiate(b, m, n, exponent, out);
  }

  /** Into Montgomery form, the square-and-multiply loop, and out again; refused for exponent zero. */
  method Exponentiate(b: array<u32>, m: array<u32>, n: nat, exponent: seq<u8>, out: array<u8>) returns (ok: bool)
    requires 1 <= n == b.Length == m.Length && out.Length <= 4 * n
    requires Val(m[..]) % 2 == 1 && m[0] % 2 == 1 && B(n) <= 2 * Val(m[..]) &&
             Val(b[..]) < Val(m[..]) <= Pow(256, out.Length)
    modifies out
    ensures ok <==> BeVal(exponent) != 0
    ensures ok ==> old(Val(m[..])) > 0 && BeVal(out[..]) == old(Pow(Val(b[..]), BeVal(exponent)) % Val(m[..]))
    ensures !ok ==> out[..] == old(out[..])
  {
    hide Val, BeVal, Pow, B, Cong, IsN0Inv, MontForm, Lead;
    ghost var M, x := m[..], Val(b[..]);
    var n0inv := N0Inv(m[0]);
    var acc, baseMont := Setup(b, m, n, n0inv);
    var h := HighestBit(exponent);
    if h < 0 {
      return false;
    }
    PowLoop(acc, baseMont, m, n, n0inv, exponent, h, x);
    assert m[..] == M;
    Finish(acc, m, n, n0inv, Pow(x, BeVal(exponent)));
    ToBe(acc, n, out);
    ok := true;
  }

  /** Out of Montgomery form: multiplying by one divides by R. */
  method Finish(acc: array<u32>, m: array<u32>, n: nat, n0inv: u32, ghost v: int)
    requires 1 <= n == acc.Length == m.Length && acc != m
    requires Val(m[..]) % 2 == 1 && IsN0Inv(m[0], n0inv)
    requires MontForm(Val(acc[..]), v, Val(m[..]), n)
    modifies acc
    ensures old(Val(m[..])) > 0 && Val(acc[..]) == v % old(Val(m[..]))
  {
    hide *;
    ghost var M, a0 := m[..], acc[..];
    var one := new u32[n](_ => 0);
    one[0] := 1;
    OneValue(one[..]);
    FormBound(Val(a0), v, Val(M), n);
    assert acc[..n] == a0 && m[..n] == M && one[..n] == one[..];
    MontMul(acc, acc, one, m, n, n0inv);
    assert acc[..n] == acc[..];
    MontLeave(Val(acc[..]), Val(a0), v, Val(M), n);
  }

  lemma OneValue(s: seq<u32>)
    requires |s| > 0 && s[0] == 1 && forall k :: 1 <= k < |s| ==> s[k] == 0
    ensures Val(s) == 1
  {
    ValSplit(s, 1);
    FirstLimb(s);
    ValZeros(s[1..]);
  }
}
