/** Arithmetic modulo a 256-bit odd number on Montgomery residues of eight limbs. */
module P256Field {
  import opened Arith
  import opened Limbs
  import opened Digits
  import opened Bn
  import opened Montgomery
  import ModExp

  // ----- what a residue stands for

  ghost function Dec(x: int, m: int): (v: int)
    requires m > 0
    ensures 0 <= v < m
  {
    (x * RInv(m, 8)) % m
  }

  lemma DecCong(x: int, m: int)
    requires m > 0
    ensures Cong(Dec(x, m), x * RInv(m, 8), m)
  {
    CongMod(x * RInv(m, 8), m);
  }

  lemma DecForm(x: int, m: int)
    requires m > 0 && m % 2 == 1 && 0 <= x < m
    ensures MontForm(x, Dec(x, m), m, 8)
  {
    hide B, RInv, Cong, Dec;
    var R, i, v := B(8), RInv(m, 8), Dec(x, m);
    DecCong(x, m);
    CongRefl(R, m);
    CongMul(v, x * i, R, R, m);
    RInvIsInverse(m, 8);
    CongRefl(x, m);
    CongMul(x, x, R * i, 1, m);
    assert (x * i) * R == x * (R * i);
    CongTrans(v * R, (x * i) * R, x, m);
    CongSym(v * R, x, m);
  }

  lemma DecOf(x: int, v: int, m: int)
    requires m > 0 && m % 2 == 1 && MontForm(x, v, m, 8)
    ensures Dec(x, m) == v % m
  {
    hide B, RInv, Cong, Dec;
    DecForm(x, m);
    MontFormUnique(x, Dec(x, m), v, m, 8);
    CongModEq(Dec(x, m), v, m);
    DivModUnique(Dec(x, m), 0, Dec(x, m), m);
  }

  lemma DecAdd(x: int, y: int, m: int)
    requires m > 0
    ensures Dec((x + y) % m, m) == (Dec(x, m) + Dec(y, m)) % m
    ensures Dec((x - y) % m, m) == (Dec(x, m) - Dec(y, m)) % m
  {
    hide Dec, RInv, Cong;
    var i := RInv(m, 8);
    DecScale(x + y, m);
    DecScale(x - y, m);
    DecCong(x, m);
    DecCong(y, m);
    DecSums(x, y, i);
    CongAdd(Dec(x, m), x * i, Dec(y, m), y * i, m);
    CongModEq(Dec(x, m) + Dec(y, m), x * i + y * i, m);
    CongModEq(Dec(x, m) - Dec(y, m), x * i - y * i, m);
  }

  lemma DecScale(z: int, m: int)
    requires m > 0
    ensures Dec(z % m, m) == (z * RInv(m, 8)) % m
  {
    hide RInv, Cong;
    var i := RInv(m, 8);
    CongMod(z, m);
    CongRefl(i, m);
    CongMul(z % m, z, i, i, m);
    CongModEq((z % m) * i, z * i, m);
  }

  lemma DecSums(x: int, y: int, i: int)
    ensures (x + y) * i == x * i + y * i && (x - y) * i == x * i - y * i
  {
  }

  lemma DecMul(r: int, x: int, y: int, m: int)
    requires m > 0 && m % 2 == 1 && 0 <= x < m && 0 <= y < m && MontProduct(r, x, y, m, 8)
    ensures Dec(r, m) == (Dec(x, m) * Dec(y, m)) % m
  {
    hide MontForm, MontProduct, Dec;
    DecForm(x, m);
    DecForm(y, m);
    MontMulForm(r, x, y, Dec(x, m), Dec(y, m), m, 8);
    DecOf(r, Dec(x, m) * Dec(y, m), m);
  }

  lemma DecZero(x: int, m: int)
    requires m > 0 && m % 2 == 1 && 0 <= x < m
    ensures Dec(x, m) == 0 <==> x == 0
  {
    hide B, RInv, Cong;
    DecForm(x, m);
    if Dec(x, m) == 0 {
      CongUnique(x, 0, m) by { assert 0 * B(8) == 0; }
    }
    if x == 0 {
      assert 0 * RInv(m, 8) == 0;
    }
  }

  lemma DecInjective(x: int, y: int, m: int)
    requires m > 0 && m % 2 == 1 && 0 <= x < m && 0 <= y < m && Dec(x, m) == Dec(y, m)
    ensures x == y
  {
    hide B, RInv, Cong, Dec;
    DecForm(x, m);
    DecForm(y, m);
    CongSym(y, Dec(y, m) * B(8), m);
    CongTrans(x, Dec(x, m) * B(8), y, m);
    CongUnique(x, y, m);
  }

  // ----- field elements in arrays

  ghost predicate Elem(a: array<u32>, m: int)
    reads a
  {
    a.Length == 8 && Val(a[..]) < m
  }

  ghost function Num(a: array<u32>, m: int): (v: int)
    requires m > 0
    reads a
    ensures 0 <= v < m
  {
    Dec(Val(a[..]), m)
  }

  /** m is k, odd and with its top bit set, rr is R^2 mod k, one is R mod k and n0inv is -k^-1 mod 2^32, where R is
      one more than the largest number of as many limbs. */
  ghost predicate Context(m: seq<u32>, rr: seq<u32>, one: seq<u32>, n0inv: u32, k: int)
    requires |m| > 0
  {
    var r := B(|m|);
    && Val(m) == k && k > 2 && k % 2 == 1 && r <= 2 * k && Val(rr) < k && Val(one) < k
    && IsN0Inv(m[0], n0inv) && Cong(Val(rr), r * r, k) && MontForm(Val(one), 1, k, |m|)
  }

  /** The modulus m, R^2 mod m, R mod m and -m^-1 mod 2^32, R = 2^256. */
  class Mod {
    const m: array<u32>
    const rr: array<u32>
    const one: array<u32>
    const n0inv: u32

    ghost predicate For(k: int)
      reads m, rr, one
    {
      m.Length == 8 && rr.Length == 8 && one.Length == 8 && Context(m[..], rr[..], one[..], n0inv, k)
    }

    /** p256_mod_init. */
    constructor (modulus: seq<u8>)
      requires |modulus| == 32 && modulus[0] >= 0x80 && modulus[31] % 2 == 1
      ensures For(BeVal(modulus)) && fresh(m) && fresh(rr) && fresh(one)
    {
      hide Val, BeVal, B, Cong, IsN0Inv, MontForm, Pow;
      var mm, r1, r2 := new u32[8], new u32[8], new u32[8];
      FromBe(modulus, mm);
      ghost var k := BeVal(modulus);
      InitFacts(mm[..], modulus);
      var inv := N0Inv(mm[0]);
      ModExp.ROf(r1, mm, 8);
      ROne(k, 8);
      ModExp.RSquared(r2, mm, 8);
      m := mm;
      rr := r2;
      one := r1;
      n0inv := inv;
      new;
      InitDone(k, Val(one[..]));
      assert |m[..]| == 8;
    }
  }

  lemma InitDone(k: int, one: int)
    requires MontForm(one, 1, k, 8)
    ensures one < k
  {
  }

  lemma InitFacts(m: seq<u32>, modulus: seq<u8>)
    requires |modulus| == 32 && modulus[0] >= 0x80 && modulus[31] % 2 == 1 && |m| == 8 && Val(m) == BeVal(modulus)
    ensures Val(m) > 2 && Val(m) % 2 == 1 && m[0] % 2 == 1 && B(8) <= 2 * Val(m) && 0 < Val(m) < B(8)
  {
    hide Val, BeVal, B;
    ModExp.TopBit(m, modulus);
    ModExp.LowBit(m, modulus);
    ValBound(m);
    BIsPow2(8);
    PowBig();
  }

  lemma PowBig()
    ensures Pow(2, 256) > 4
  {
    PowAdd(2, 3, 253);
    assert Pow(2, 3) == 8;
  }

  // ----- p256_mod_add, p256_mod_sub, p256_mont_mul

  lemma AddWrap(x: int, y: int, r: int, carry: int, m: int, b: int)
    requires 0 <= x < m && 0 <= y < m && 0 <= r < b && m < b && b <= 2 * m && 0 <= carry <= 1 && r + carry * b == x + y
    ensures carry == 0 && r < m ==> (x + y) % m == r
    ensures carry != 0 || r >= m ==> (x + y) % m == x + y - m && 0 <= x + y - m < m
  {
    if carry == 0 && r < m {
      DivModUnique(x + y, 0, x + y, m);
    } else {
      DivModUnique(x + y, 1, x + y - m, m);
    }
  }

  lemma SubWrap(x: int, y: int, r: int, borrow: int, m: int, b: int)
    requires 0 <= x < m && 0 <= y < m && 0 <= r < b && m < b && 0 <= borrow <= 1 && r == x - y + borrow * b
    ensures borrow == 0 ==> (x - y) % m == r && 0 <= r < m
    ensures borrow != 0 ==> (x - y) % m == x - y + m && 0 <= x - y + m < m
  {
    if borrow == 0 {
      DivModUnique(x - y, 0, x - y, m);
    } else {
      DivModUnique(x - y, -1, x - y + m, m);
    }
  }

  method ModAdd(c: Mod, r: array<u32>, a: array<u32>, b: array<u32>, ghost m: int)
    requires c.For(m) && Elem(a, m) && Elem(b, m) && r.Length == 8 && r != c.m
    modifies r
    ensures Elem(r, m) && Num(r, m) == (old(Num(a, m)) + old(Num(b, m))) % m
  {
    hide Dec, B, Val, IsN0Inv, Cong, MontForm;
    ghost var x, y, M := Val(a[..]), Val(b[..]), c.m[..];
    DecAdd(x, y, m);
    assert a[..8] == a[..] && b[..8] == b[..] && c.m[..8] == M;
    var carry := Add(r, a, b, 8);
    assert r[..8] == r[..] && c.m[..] == M;
    ValBound(r[..]);
    ValBound(M);
    ghost var s := Val(r[..]);
    AddWrap(x, y, s, carry, m, B(8));
    var cmp := Cmp(r, c.m, 8);
    if carry != 0 || cmp >= 0 {
      var borrow := Sub(r, r, c.m, 8);
      assert r[..8] == r[..];
      ValBound(r[..]);
      WrapSub(x + y - m, Val(r[..]), borrow - carry, B(8));
    }
  }

  method ModSub(c: Mod, r: array<u32>, a: array<u32>, b: array<u32>, ghost m: int)
    requires c.For(m) && Elem(a, m) && Elem(b, m) && r.Length == 8 && r != c.m
    modifies r
    ensures Elem(r, m) && Num(r, m) == (old(Num(a, m)) - old(Num(b, m))) % m
  {
    hide Dec, B, Val, IsN0Inv, Cong, MontForm;
    ghost var x, y, M := Val(a[..]), Val(b[..]), c.m[..];
    DecAdd(x, y, m);
    assert a[..8] == a[..] && b[..8] == b[..] && c.m[..8] == M;
    var borrow := Sub(r, a, b, 8);
    assert r[..8] == r[..] && c.m[..] == M;
    ValBound(r[..]);
    ValBound(M);
    SubWrap(x, y, Val(r[..]), borrow, m, B(8));
    if borrow != 0 {
      var carry := Add(r, r, c.m, 8);
      assert r[..8] == r[..];
      ValBound(r[..]);
      WrapSub(x - y + m, Val(r[..]), 1 - carry, B(8));
    }
  }

  method MontMul(c: Mod, r: array<u32>, a: array<u32>, b: array<u32>, ghost m: int)
    requires c.For(m) && Elem(a, m) && Elem(b, m) && r.Length == 8 && r != c.m
    modifies r
    ensures Elem(r, m) && Num(r, m) == (old(Num(a, m)) * old(Num(b, m))) % m
  {
    hide Dec, B, Val, IsN0Inv, Cong, MontForm, MontProduct;
    ghost var x, y := Val(a[..]), Val(b[..]);
    assert a[..8] == a[..] && b[..8] == b[..] && c.m[..8] == c.m[..];
    Bn.MontMul(r, a, b, c.m, 8, c.n0inv);
    assert r[..8] == r[..];
    ProductBound(Val(r[..]), x, y, m);
    DecMul(Val(r[..]), x, y, m);
  }

  lemma ProductBound(r: int, x: int, y: int, m: int)
    requires MontProduct(r, x, y, m, 8)
    ensures 0 <= r < m
  {
  }

  // ----- p256_from_be, p256_to_mont, p256_from_mont

  /** The limb that four bytes make, the most significant first. */
  function BeLimb(s: seq<u8>): (x: u32)
    requires |s| == 4
    ensures x == BeVal(s)
  {
    Be4(s);
    0x100_0000 * s[0] as int + 0x1_0000 * s[1] as int + 0x100 * s[2] as int + s[3] as int
  }

  lemma Be4(s: seq<u8>)
    requires |s| == 4
    ensures BeVal(s) == 0x100_0000 * s[0] as int + 0x1_0000 * s[1] as int + 0x100 * s[2] as int + s[3] as int
  {
    hide BeVal;
    assert s == ([s[0]] + [s[1]] + [s[2]]) + [s[3]];
    ModExp.BeLast([s[0]] + [s[1]] + [s[2]], s[3]);
    ModExp.BeLast([s[0]] + [s[1]], s[2]);
    ModExp.BeLast([s[0]], s[1]);
    BeOne(s[0]);
  }

  lemma BeLimbStep(bytes: seq<u8>, done: seq<u32>, i: nat)
    requires |bytes| == 32 && i < 8 && |done| == i && Val(done) == BeVal(bytes[32 - 4 * i..])
    ensures Val(done + [BeLimb(bytes[28 - 4 * i..32 - 4 * i])]) == BeVal(bytes[28 - 4 * i..])
  {
    hide Val, BeVal, B, BeLimb, Pow;
    var quad, rest := bytes[28 - 4 * i..32 - 4 * i], bytes[32 - 4 * i..];
    BeAfterQuad(quad, rest, i);
    assert bytes[28 - 4 * i..] == quad + rest;
    Append(done, BeLimb(quad));
  }

  lemma BeAfterQuad(quad: seq<u8>, rest: seq<u8>, i: nat)
    requires |quad| == 4 && |rest| == 4 * i
    ensures BeVal(quad + rest) == BeVal(quad) * B(i) + BeVal(rest)
  {
    hide BeVal, B, Pow;
    var all := quad + rest;
    BeSplit(all, 4);
    assert all[..4] == quad && all[4..] == rest;
    ByteWeight(4 * i);
    ModExp.PowZero(256);
  }

  method FromBe(bytes: seq<u8>, out: array<u32>)
    requires |bytes| == 32 && out.Length == 8
    modifies out
    ensures Val(out[..]) == BeVal(bytes)
  {
    hide Val, BeVal, BeLimb;
    var i := 0;
    assert out[..0] == [] && bytes[32..] == [];
    EmptyValues();
    while i < 8
      invariant 0 <= i <= 8
      invariant Val(out[..i]) == BeVal(bytes[32 - 4 * i..])
    {
      ghost var done := out[..i];
      var offset := 28 - 4 * i;
      out[i] := BeLimb(bytes[offset..offset + 4]);
      BeLimbStep(bytes, done, i);
      assert out[..i + 1] == done + [out[i]];
      i := i + 1;
    }
    assert out[..8] == out[..] && bytes[0..] == bytes;
  }

  lemma EmptyValues()
    ensures Val([]) == 0 && BeVal([]) == 0
  {
  }

  /** Into Montgomery form: r stands for the number in a. */
  method ToMont(c: Mod, r: array<u32>, a: array<u32>, ghost m: int)
    requires c.For(m) && Elem(a, m) && r.Length == 8 && r != c.m
    modifies r
    ensures Elem(r, m) && Num(r, m) == old(Val(a[..]))
  {
    hide Dec, B, Val, IsN0Inv, Cong, MontForm, MontProduct;
    ghost var x := Val(a[..]);
    ghost var k := Val(c.rr[..]);
    assert a[..8] == a[..] && c.rr[..8] == c.rr[..] && c.m[..8] == c.m[..];
    Bn.MontMul(r, a, c.rr, c.m, 8, c.n0inv);
    assert r[..8] == r[..];
    ProductBound(Val(r[..]), x, k, m);
    MontEnter(Val(r[..]), x, k, m, 8);
    DecOf(Val(r[..]), x, m);
    DivModUnique(x, 0, x, m);
  }

  /** Out of Montgomery form: r holds the number a stands for. */
  method FromMont(c: Mod, r: array<u32>, a: array<u32>, ghost m: int)
    requires c.For(m) && Elem(a, m) && r.Length == 8 && r != c.m
    modifies r
    ensures Val(r[..]) == old(Num(a, m))
  {
    hide Dec, B, Val, IsN0Inv, Cong, MontForm, MontProduct;
    ghost var x := Val(a[..]);
    var one := new u32[8](_ => 0);
    one[0] := 1;
    ModExp.OneValue(one[..]);
    assert a[..8] == a[..] && one[..8] == one[..] && c.m[..8] == c.m[..];
    Bn.MontMul(r, a, one, c.m, 8, c.n0inv);
    assert r[..8] == r[..];
    DecForm(x, m);
    MontLeave(Val(r[..]), x, Dec(x, m), m, 8);
    DivModUnique(Dec(x, m), 0, Dec(x, m), m);
  }

  // ----- p256_mont_inv

  lemma ModProduct(a: int, b: int, m: int)
    requires m > 0
    ensures ((a % m) * (b % m)) % m == (a * b) % m && ((a % m) * b) % m == (a * b) % m
  {
    CongMod(a, m);
    CongMod(b, m);
    hide Cong;
    CongRefl(b, m);
    CongMul(a % m, a, b % m, b, m);
    CongMul(a % m, a, b, b, m);
    CongModEq((a % m) * (b % m), a * b, m);
    CongModEq((a % m) * b, a * b, m);
  }

  method CopyLimbs(r: array<u32>, a: array<u32>)
    requires r.Length == 8 && a.Length == 8
    modifies r
    ensures r[..] == old(a[..])
  {
    ghost var s := a[..];
    forall k | 0 <= k < 8 { r[k] := a[k]; }
    assert r[..] == s;
  }

  /** The exponent m - 2, in limbs. */
  method MinusTwo(c: Mod, ghost m: int) returns (exponent: array<u32>)
    requires c.For(m)
    ensures fresh(exponent) && exponent.Length == 8 && Val(exponent[..]) == m - 2
  {
    hide B, Val, IsN0Inv, Cong, MontForm;
    exponent := new u32[8];
    var two := new u32[8](_ => 0);
    two[0] := 2;
    TwoValue(two[..]);
    assert c.m[..8] == c.m[..] && two[..8] == two[..];
    ghost var M := c.m[..];
    var borrow := Sub(exponent, c.m, two, 8);
    assert exponent[..8] == exponent[..];
    ValBound(exponent[..]);
    ValBound(M);
    WrapSub(m - 2, Val(exponent[..]), borrow, B(8));
  }

  lemma TwoValue(s: seq<u32>)
    requires |s| == 8 && s[0] == 2 && forall k :: 1 <= k < 8 ==> s[k] == 0
    ensures Val(s) == 2
  {
    ValSplit(s, 1);
    FirstLimb(s);
    ValZeros(s[1..]);
    assert B(1) * 0 == 0;
  }

  /** a^(m-2): the inverse of a when m is prime. */
  method MontInv(c: Mod, r: array<u32>, a: array<u32>, ghost m: int)
    requires c.For(m) && Elem(a, m) && r.Length == 8 && r != c.m
    modifies r
    ensures Elem(r, m) && Num(r, m) == Pow(old(Num(a, m)), m - 2) % m
  {
    hide Dec, B, Val, IsN0Inv, Cong, MontForm, Pow, Lead, Bit;
    ghost var x, e := Num(a, m), m - 2;
    var exponent := MinusTwo(c, m);
    var acc, base := new u32[8], new u32[8];
    CopyLimbs(acc, c.one);
    CopyLimbs(base, a);
    InverseStart(Val(acc[..]), x, e, m, Val(exponent[..]), exponent[..]);
    var bit := 256;
    while bit > 0
      invariant 0 <= bit <= 256
      invariant c.For(m) && Elem(acc, m) && Elem(base, m) && Num(base, m) == x && Val(exponent[..]) == e
      invariant Num(acc, m) == Pow(x, Lead(e, bit)) % m
      modifies acc
    {
      bit := bit - 1;
      ghost var y := Pow(x, Lead(e, bit + 1));
      ModExp.SquareMultiply(x, e, bit);
      LimbBit(exponent[..], bit);
      MontMul(c, acc, acc, acc, m);
      ModProduct(y, y, m);
      if Bit(exponent[bit / 32], bit % 32) != 0 {
        MontMul(c, acc, acc, base, m);
        ModProduct(y * y, x, m);
      }
    }
    ModExp.LeadAll(e);
    CopyLimbs(r, acc);
  }

  lemma InverseStart(one: int, x: int, e: nat, m: int, v: int, limbs: seq<u32>)
    requires m > 2 && m % 2 == 1 && MontForm(one, 1, m, 8) && e == v == Val(limbs) && |limbs| == 8
    ensures Dec(one, m) == Pow(x, Lead(e, 256)) % m
  {
    hide Dec, B, Val, MontForm, Lead, Pow;
    DecOf(one, 1, m);
    ValBound(limbs);
    BIsPow2(8);
    ModExp.LeadNone(e, 256);
    ModExp.PowZero(x);
  }
}
