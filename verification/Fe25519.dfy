/** The field of 2^255 - 19 on eight 32-bit limbs. */
module Fe25519 {
  import opened Arith
  import opened Limbs
  import opened Digits
  import opened Bn
  import ModExp

  const TWO255: int := 0x8000_0000_0000_0000_0000_0000_0000_0000_0000_0000_0000_0000_0000_0000_0000_0000
  const TWO256: int := 0x1_0000_0000_0000_0000_0000_0000_0000_0000_0000_0000_0000_0000_0000_0000_0000_0000

  const P_LIMBS: seq<u32> := [0xffff_ffed, 0xffff_ffff, 0xffff_ffff, 0xffff_ffff,
                              0xffff_ffff, 0xffff_ffff, 0xffff_ffff, 0x7fff_ffff]

  /** 2^255 - 19. */
  const P: Modulus := (PLimbs(); Val(P_LIMBS))

  function FAdd(a: int, b: int): (r: int) ensures 0 <= r < P { (a + b) % P }
  function FSub(a: int, b: int): (r: int) ensures 0 <= r < P { (a - b) % P }
  function FMul(a: int, b: int): (r: int) ensures 0 <= r < P { (a * b) % P }
  function FPow(a: int, e: nat): (r: int) ensures 0 <= r < P { Pow(a, e) % P }

  lemma B8()
    ensures B(8) == TWO256 && B(7) * 0x8000_0000 == TWO255
  {
    BAdd(4, 4);
    BAdd(2, 2);
    BAdd(4, 3);
    BAdd(2, 1);
    assert B(1) == W;
    BAdd(1, 1);
  }

  /** The value of eight limbs, written out. */
  lemma Val8(s: seq<u32>)
    requires |s| == 8
    ensures Val(s) == s[0] + s[1] * B(1) + s[2] * B(2) + s[3] * B(3) + s[4] * B(4) + s[5] * B(5) + s[6] * B(6) +
            s[7] * B(7)
  {
    hide Val, B;
    FirstLimb(s);
    ValPrefix(s, 1);
    ValPrefix(s, 2);
    ValPrefix(s, 3);
    ValPrefix(s, 4);
    ValPrefix(s, 5);
    ValPrefix(s, 6);
    ValPrefix(s, 7);
    assert s[..8] == s;
  }

  lemma Weights()
    ensures B(1) == 0x1_0000_0000
    ensures B(2) == 0x1_0000_0000_0000_0000
    ensures B(3) == 0x1_0000_0000_0000_0000_0000_0000
    ensures B(4) == 0x1_0000_0000_0000_0000_0000_0000_0000_0000
    ensures B(5) == 0x1_0000_0000_0000_0000_0000_0000_0000_0000_0000_0000
    ensures B(6) == 0x1_0000_0000_0000_0000_0000_0000_0000_0000_0000_0000_0000_0000
    ensures B(7) == 0x1_0000_0000_0000_0000_0000_0000_0000_0000_0000_0000_0000_0000_0000_0000
  {
    assert B(1) == W * B(0);
    BNext(1);
    BNext(2);
    BNext(3);
    BNext(4);
    BNext(5);
    BNext(6);
  }

  lemma PLimbs()
    ensures Val(P_LIMBS) == TWO255 - 19
  {
    Val8(P_LIMBS);
    Weights();
  }

  lemma PIs()
    ensures P == TWO255 - 19
  {
    PLimbs();
  }

  method NewP() returns (p: array<u32>)
    ensures fresh(p) && p.Length == 8 && Val(p[..]) == P
  {
    p := new u32[8](i requires 0 <= i < 8 => P_LIMBS[i]);
    assert p[..] == P_LIMBS;
    PLimbs();
  }

  /** The top limb's high bit is the number's bit 255; clearing it takes 2^255 away. */
  lemma TopBit(s: seq<u32>)
    requires |s| == 8
    ensures s[7] >= 0x8000_0000 <==> Val(s) >= TWO255
    ensures Val(s[7 := s[7] % 0x8000_0000]) == Val(s) - s[7] / 0x8000_0000 * TWO255
    ensures Val(s) < TWO256
  {
    hide Val, B;
    ValUpdate(s, 7, s[7] % 0x8000_0000);
    ValPrefix(s, 7);
    assert s[..8] == s;
    ValBound(s[..7]);
    ValBound(s);
    B8();
    Weights();
  }

  // ----- tamga_fe_conditional_sub_p

  method ConditionalSubP(v: array<u32>)
    requires v.Length == 8
    modifies v
    ensures Val(v[..]) == if old(Val(v[..])) >= P then old(Val(v[..])) - P else old(Val(v[..]))
  {
    hide Val, B;
    var candidate := new u32[8];
    var p := NewP();
    assert v[..8] == v[..] && p[..8] == p[..] && candidate[..8] == candidate[..];
    ghost var x := v[..];
    var borrow := Sub(candidate, v, p, 8);
    assert v[..] == x && candidate[..8] == candidate[..];
    ValBound(x);
    ValBound(candidate[..]);
    B8();
    ghost var c := candidate[..];
    if borrow == 0 {
      forall k | 0 <= k < 8 { v[k] := candidate[k]; }
      assert v[..] == c;
    }
  }

  // ----- tamga_fe_fold_carry

  /** Carrying 38 times what left the top preserves the value modulo p and strictly shrinks what is left. */
  lemma FoldStep(v: int, c: int, v': int, c': int, total: int)
    requires 0 <= v < TWO256 && 0 < c < W && 0 <= v' < TWO256 && c' >= 0
    requires v' + c' * TWO256 == v + 38 * c
    requires Cong(v + c * TWO256, total, P)
    ensures c' <= 1
    ensures v' + c' * TWO256 < v + c * TWO256
    ensures Cong(v' + c' * TWO256, total, P)
  {
    if c' >= 2 {
      MulMono(2, c', TWO256);
      assert false;
    }
    PIs();
    CongIntro(v' + c' * TWO256, v + c * TWO256, -2 * c, P);
    CongTrans(v' + c' * TWO256, v + c * TWO256, total, P);
  }

  /** Adds carry * 2^256 back in, as often as that carries out again. */
  method FoldCarry(v: array<u32>, carry: u32)
    requires v.Length == 8
    modifies v
    ensures Cong(Val(v[..]), old(Val(v[..])) + carry * TWO256, P)
  {
    hide Val, B, Cong;
    ghost var total := Val(v[..]) + carry * TWO256;
    CongRefl(total, P);
    B8();
    var c: u64 := carry;
    while c != 0
      invariant 0 <= c < W
      invariant Cong(Val(v[..]) + c * TWO256, total, P)
      decreases Val(v[..]) + c * TWO256
    {
      ghost var x, k := v[..], c;
      ValBound(x);
      c := Ripple(v, 8, 38 * c);
      ValBound(v[..]);
      FoldStep(Val(x), k, Val(v[..]), c, total);
    }
  }

  // ----- tamga_fe_reduce

  lemma ReducePass(v: int, v': int, total: int)
    requires v' == v - P && Cong(v, total, P)
    ensures Cong(v', total, P)
  {
    hide Cong;
    CongIntro(v', v, -1, P);
    CongTrans(v', v, total, P);
  }

  /** Clears bit 255 and adds 19 for it; false when there was nothing to clear. */
  method FoldTop(v: array<u32>) returns (more: bool)
    requires v.Length == 8
    modifies v
    ensures more <==> old(Val(v[..])) >= TWO255
    ensures Val(v[..]) == old(Val(v[..])) - (if more then P else 0)
  {
    hide Val, B;
    PIs();
    ghost var x := v[..];
    TopBit(x);
    var carry := 19 * (v[7] / 0x8000_0000);
    if carry == 0 {
      return false;
    }
    v[7] := v[7] % 0x8000_0000;
    assert v[..] == x[7 := x[7] % 0x8000_0000];
    B8();
    var left := Ripple(v, 8, carry);
    ValBound(v[..]);
    if left >= 1 {
      MulMono(1, left, TWO256);
      assert false;
    }
    return true;
  }

  /** Brings any 256-bit number into [0, p). */
  method Reduce(v: array<u32>)
    requires v.Length == 8
    modifies v
    ensures Val(v[..]) == old(Val(v[..])) % P
  {
    hide Val, B, Cong;
    PIs();
    ghost var total := Val(v[..]);
    CongRefl(total, P);
    TopBit(v[..]);
    var pass := 0;
    while pass < 3
      invariant 0 <= pass <= 3
      invariant Cong(Val(v[..]), total, P)
      invariant Val(v[..]) < if pass == 0 then TWO256 else if pass == 1 then TWO255 + 19 else TWO255
    {
      ghost var x := Val(v[..]);
      var more := FoldTop(v);
      if !more {
        break;
      }
      ReducePass(x, Val(v[..]), total);
      pass := pass + 1;
    }
    ghost var x := v[..];
    TopBit(x);
    v[7] := v[7] % 0x8000_0000;
    assert v[..] == x;
    ConditionalSubP(v);
    ReduceEnd(Val(x), Val(v[..]), total);
  }

  lemma ReduceEnd(v: int, r: int, total: int)
    requires 0 <= v < TWO255 && Cong(v, total, P)
    requires r == if v >= P then v - P else v
    ensures r == total % P
  {
    hide Cong;
    PIs();
    CongModEq(v, total, P);
    if v >= P {
      DivModUnique(v, 1, v - P, P);
    } else {
      DivModUnique(v, 0, v, P);
    }
  }

  // ----- tamga_fe_add, tamga_fe_sub, tamga_fe_neg

  method FeAdd(r: array<u32>, a: array<u32>, b: array<u32>)
    requires r.Length == 8 && a.Length == 8 && b.Length == 8
    modifies r
    ensures Val(r[..]) == FAdd(old(Val(a[..])), old(Val(b[..])))
  {
    hide Val, B, Cong;
    assert a[..8] == a[..] && b[..8] == b[..];
    ghost var total := Val(a[..]) + Val(b[..]);
    var carry := Add(r, a, b, 8);
    assert r[..8] == r[..];
    B8();
    FoldCarry(r, carry);
    ghost var x := Val(r[..]);
    CongModEq(x, total, P);
    Reduce(r);
  }

  method FeSub(r: array<u32>, a: array<u32>, b: array<u32>)
    requires r.Length == 8 && a.Length == 8 && b.Length == 8
    requires Val(b[..]) < P
    modifies r
    ensures Val(r[..]) == FSub(old(Val(a[..])), old(Val(b[..])))
  {
    hide Val, B, Cong;
    assert a[..8] == a[..] && b[..8] == b[..];
    ghost var x: int, y: int := Val(a[..]), Val(b[..]);
    ValBound(a[..]);
    var borrow := Sub(r, a, b, 8);
    assert r[..8] == r[..];
    B8();
    ValBound(r[..]);
    if borrow != 0 {
      var p := NewP();
      assert p[..8] == p[..];
      var carry := Add(r, r, p, 8);
      assert r[..8] == r[..];
      ValBound(r[..]);
      CongIntro(Val(r[..]), x - y, 1, P);
      CongModEq(Val(r[..]), x - y, P);
    }
    Reduce(r);
  }

  method FeNeg(r: array<u32>, a: array<u32>)
    requires r.Length == 8 && a.Length == 8
    requires Val(a[..]) < P
    modifies r
    ensures Val(r[..]) == FSub(0, old(Val(a[..])))
  {
    hide *;
    var zero := new u32[8](_ => 0);
    ValZeros(zero[..]);
    FeSub(r, zero, a);
  }

  // ----- tamga_fe_mul

  /** product[i .. i + 9] := product[i .. i + 8] + b * x; the ninth limb is written, not added to. */
  method MulRowAt(product: array<u32>, i: nat, b: array<u32>, x: u32)
    requires product.Length == 16 && b.Length == 8 && i < 8 && product != b
    modifies product
    ensures Val(product[..i + 9]) == old(Val(product[..i + 8])) + B(i) * (Val(b[..]) * x)
  {
    hide *;
    ghost var T, A, below := product[i..i + 8], b[..], product[..i];
    assert product[..i + 8] == below + T;
    SplitAt(below, T);
    var carry: u32 := 0;
    var j := 0;
    RowStart(T, A, x);
    assert product[i..i] == [];
    while j < 8
      invariant 0 <= j <= 8
      invariant product[..i] == below && product[i + j..i + 8] == T[j..] && b[..] == A
      invariant RowInv(product[i..i + j], carry, T, A, x, j)
    {
      assert product[i + j] == product[i + j..i + 8][0] == T[j] && b[j] == A[j];
      assert product[i + j + 1..i + 8] == product[i + j..i + 8][1..];
      var t := MulAdd(product[i + j], b[j], x, carry);
      ghost var low := product[i..i + j];
      RowCarry(low, T, A, x, carry, j);
      product[i + j] := Lo(t);
      carry := Hi(t);
      assert product[i..i + j + 1] == low + [Lo(t)];
      assert product[..i] == below;
      j := j + 1;
    }
    ghost var low := product[i..i + 8];
    RowDone(low, carry, T, A, x, 8);
    product[i + 8] := carry;
    assert product[..i + 9] == below + (low + [carry]);
    SplitAt(below, low + [carry]);
    MulDist(B(i), Val(T), Val(A) * x);
  }

  lemma SplitAt(lo: seq<u32>, hi: seq<u32>)
    ensures Val(lo + hi) == Val(lo) + B(|lo|) * Val(hi)
  {
    hide *;
    ValSplit(lo + hi, |lo|);
    assert (lo + hi)[..|lo|] == lo && (lo + hi)[|lo|..] == hi;
  }

  /** The end of a row: with the carry as the next limb, the sum is complete. */
  lemma RowDone(low: seq<u32>, c: u32, T: seq<u32>, A: seq<u32>, x: u32, n: nat)
    requires |T| == n == |A| && RowInv(low, c, T, A, x, n)
    ensures Val(low + [c]) == Val(T) + Val(A) * x
    ensures Val(low) + c * B(n) == Val(T) + Val(A) * x
  {
    hide Val, B;
    assert T[..n] == T && A[..n] == A;
    Append(low, c);
  }

  /** The schoolbook product, row by row. */
  method Product(a: array<u32>, b: array<u32>) returns (product: array<u32>)
    requires a.Length == 8 && b.Length == 8
    ensures fresh(product) && product.Length == 16
    ensures Val(product[..]) == Val(a[..]) * Val(b[..])
  {
    hide *;
    product := new u32[16](_ => 0);
    ghost var As, Bs := a[..], b[..];
    ValZeros(product[..8]);
    ValNone(As);
    var i := 0;
    while i < 8
      invariant 0 <= i <= 8
      invariant a[..] == As && b[..] == Bs
      invariant Val(product[..i + 8]) == Val(As[..i]) * Val(Bs)
    {
      ghost var done := Val(product[..i + 8]);
      MulRowAt(product, i, b, a[i]);
      assert a[..] == As && b[..] == Bs && a[i] == As[i];
      ProductStep(As, i, Val(Bs));
      i := i + 1;
    }
    assert As[..8] == As && product[..16] == product[..];
  }

  lemma ValNone(s: seq<u32>)
    ensures Val(s[..0]) == 0
  {
  }

  lemma ProductStep(s: seq<u32>, i: nat, b: int)
    requires i < |s|
    ensures Val(s[..i + 1]) * b == Val(s[..i]) * b + B(i) * (b * s[i])
  {
    hide *;
    ValPrefix(s, i);
    MulDist(b, Val(s[..i]), s[i] * B(i));
    MulEq(b, Val(s[..i + 1]), Val(s[..i]) + s[i] * B(i));
    assert b * (s[i] * B(i)) == B(i) * (b * s[i]);
  }

  method FeMul(r: array<u32>, a: array<u32>, b: array<u32>)
    requires r.Length == 8 && a.Length == 8 && b.Length == 8
    modifies r
    ensures Val(r[..]) == FMul(old(Val(a[..])), old(Val(b[..])))
  {
    hide Val, B, RowInv, MulAdd, Lo, Hi, Cong;
    ghost var total := Val(a[..]) * Val(b[..]);
    var product := Product(a, b);
    ghost var T, A := product[..8], product[8..];
    assert product[..] == T + A;
    SplitAt(T, A);
    var carry: u32 := 0;
    var i := 0;
    RowStart(T, A, 38);
    assert r[..0] == [];
    while i < 8
      invariant 0 <= i <= 8
      invariant product[..] == T + A
      invariant RowInv(r[..i], carry, T, A, 38, i)
    {
      assert product[i] == product[..][i] == T[i] && product[i + 8] == product[..][i + 8] == A[i];
      var t := MulAdd(product[i], product[i + 8], 38, carry);
      ghost var low := r[..i];
      RowCarry(low, T, A, 38, carry, i);
      r[i] := Lo(t);
      carry := Hi(t);
      assert r[..i + 1] == low + [Lo(t)];
      i := i + 1;
    }
    assert r[..8] == r[..];
    RowDone(r[..], carry, T, A, 38, 8);
    ghost var v := Val(r[..]);
    FoldCarry(r, carry);
    MulFold(Val(T), Val(A), v, carry, Val(r[..]), total);
    Reduce(r);
  }

  /** 2^256 is 38 modulo p, so folding the high half keeps the product. */
  lemma MulFold(lo: int, hi: int, v: int, c: int, r: int, total: int)
    requires total == lo + B(8) * hi
    requires v + c * B(8) == lo + hi * 38
    requires Cong(r, v + c * TWO256, P)
    ensures P > 0 && r % P == total % P
  {
    B8();
    PIs();
    hide B, Cong;
    CongIntro(lo + hi * 38, total, -2 * hi, P);
    CongTrans(r, v + c * TWO256, total, P);
    CongModEq(r, total, P);
  }

  // ----- tamga_fe_pow

  /** r = a^e for a little-endian 32-byte exponent, one bit at a time from the top. */
  method FePow(r: array<u32>, a: array<u32>, exponent: seq<u8>)
    requires r.Length == 8 && a.Length == 8 && |exponent| == 32
    modifies r
    ensures Val(r[..]) == FPow(old(Val(a[..])), LeVal(exponent))
  {
    hide Val, Pow, Lead, LeVal, Bit;
    ghost var x, e := Val(a[..]), LeVal(exponent);
    ghost var input := a[..];
    var base := new u32[8];
    forall k | 0 <= k < 8 { base[k] := a[k]; }
    assert base[..] == input;
    var result := new u32[8](_ => 0);
    result[0] := 1;
    OneMod(result[..], x, e, exponent);
    var bit := 256;
    while bit > 0
      invariant 0 <= bit <= 256
      invariant Val(base[..]) == x
      invariant Val(result[..]) == Pow(x, Lead(e, bit)) % P
    {
      bit := bit - 1;
      ghost var y := Pow(x, Lead(e, bit + 1));
      ModExp.SquareMultiply(x, e, bit);
      LeBit(exponent, bit);
      FeMul(result, result, result);
      ModMul(y, y);
      if Bit(exponent[bit / 8], bit % 8) != 0 {
        FeMul(result, result, base);
        ModMulLeft(y * y, x);
      }
    }
    ModExp.LeadAll(e);
    ghost var output := result[..];
    forall k | 0 <= k < 8 { r[k] := result[k]; }
    assert r[..] == output;
  }

  lemma OneMod(s: seq<u32>, x: int, e: nat, exponent: seq<u8>)
    requires |s| == 8 && s[0] == 1 && forall k :: 1 <= k < 8 ==> s[k] == 0
    requires e == LeVal(exponent) && |exponent| == 32
    ensures Val(s) == Pow(x, Lead(e, 256)) % P
  {
    hide Val, Lead, LeVal, Pow;
    ModExp.OneValue(s);
    LeBound(exponent);
    Pow256Is(32);
    ModExp.LeadNone(e, 256);
    ModExp.PowZero(x);
  }

  lemma ModMul(a: int, b: int)
    ensures ((a % P) * (b % P)) % P == (a * b) % P
  {
    hide Cong;
    CongMod(a, P);
    CongMod(b, P);
    CongMul(a % P, a, b % P, b, P);
    CongModEq((a % P) * (b % P), a * b, P);
  }

  lemma ModMulLeft(a: int, b: int)
    ensures ((a % P) * b) % P == (a * b) % P
  {
    hide Cong;
    CongMod(a, P);
    CongRefl(b, P);
    CongMul(a % P, a, b, b, P);
    CongModEq((a % P) * b, a * b, P);
  }
}
