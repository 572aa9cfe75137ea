/** Little-endian strings of 32-bit limbs: their value, and the carry loops that every
    multi-precision routine of the library is made of. */
module Limbs {
  import opened Arith

  const W: int := 0x1_0000_0000                    // 2^32
  const W64: int := 0x1_0000_0000_0000_0000        // 2^64

  type u8 = x: int | 0 <= x < 0x100
  type u32 = x: int | 0 <= x < 0x1_0000_0000
  type u64 = x: int | 0 <= x < 0x1_0000_0000_0000_0000

  /** The weight of limb n. */
  function B(n: nat): (r: int)
    ensures r > 0
  {
    if n == 0 then 1 else W * B(n - 1)
  }

  /** The number a string of limbs stands for, least significant limb first. */
  function Val(s: seq<u32>): (r: nat)
  {
    if s == [] then 0 else Val(s[..|s| - 1]) + s[|s| - 1] * B(|s| - 1)
  }

  // ----- 64-bit intermediates: the arguments must fit, so a call proves that nothing overflowed

  function Lo(x: u64): (r: u32) { x % W }

  function Hi(x: u64): (r: u32)
    ensures x == r * W + Lo(x)
  {
    x / W
  }

  /** A full product plus two words never leaves 64 bits. */
  lemma MulAddFits(a: u32, b: u32, c: u32, d: u32)
    ensures 0 <= a * b + c + d < W64
  {
    MulBounds(a, b, W - 1);
  }

  // ----- the value of prefixes and pieces

  lemma ValPrefix(s: seq<u32>, i: nat)
    requires i < |s|
    ensures Val(s[..i + 1]) == Val(s[..i]) + s[i] * B(i)
  {
    assert s[..i + 1][..i] == s[..i];
  }

  lemma {:induction false} ValBound(s: seq<u32>)
    ensures Val(s) < B(|s|)
  {
    if s != [] {
      var n := |s| - 1;
      ValBound(s[..n]);
      MulMono(s[n], W - 1, B(n));
      assert (W - 1) * B(n) == W * B(n) - B(n);
    }
  }

  lemma {:induction false} ValSplit(s: seq<u32>, i: nat)
    requires i <= |s|
    ensures Val(s) == Val(s[..i]) + B(i) * Val(s[i..])
  {
    if i == |s| {
      assert s[..i] == s && s[i..] == [];
    } else {
      var n := |s| - 1;
      ValSplit(s[..n], i);
      assert s[..n][..i] == s[..i];
      var hi := s[i..];
      assert s[..n][i..] == hi[..n - i];
      assert hi[n - i] == s[n];
      BAdd(i, n - i);
      var lowPart, x := Val(hi[..n - i]), s[n];
      assert x * B(n) == B(i) * (x * B(n - i)) by { MulSwap(x, B(i), B(n - i)); }
      MulDist(B(i), lowPart, x * B(n - i));
    }
  }

  lemma BNext(n: nat)
    ensures B(n + 1) == W * B(n)
  {
  }

  lemma {:induction false} BAdd(i: nat, j: nat)
    ensures B(i + j) == B(i) * B(j)
  {
    if i > 0 {
      BAdd(i - 1, j);
      MulAssoc(W, B(i - 1), B(j));
    }
  }

  lemma {:induction false} BIsPow2(n: nat)
    ensures B(n) == Pow(2, 32 * n)
  {
    if n > 0 {
      BIsPow2(n - 1);
      PowAdd(2, 32, 32 * (n - 1));
      Pow2Of32();
    }
  }

  lemma Pow2Of32()
    ensures Pow(2, 32) == W
  {
    assert Pow(2, 8) == 256;
    PowAdd(2, 8, 8);
    PowAdd(2, 16, 16);
  }

  /** The most significant limb that differs decides the order. */
  lemma ValOrder(a: seq<u32>, b: seq<u32>, i: nat)
    requires i < |a| == |b|
    requires a[i + 1..] == b[i + 1..] && a[i] < b[i]
    ensures Val(a) < Val(b)
  {
    ValSplit(a, i + 1);
    ValSplit(b, i + 1);
    ValPrefix(a, i);
    ValPrefix(b, i);
    ValBound(a[..i]);
    MulMono(a[i] + 1, b[i], B(i));
    assert (a[i] + 1) * B(i) == a[i] * B(i) + B(i);
  }

  lemma {:induction false} ValUnique(a: seq<u32>, b: seq<u32>)
    requires |a| == |b| && Val(a) == Val(b)
    ensures a == b
  {
    if a != [] {
      var n := |a| - 1;
      assert a[n + 1..] == b[n + 1..];
      if a[n] < b[n] {
        ValOrder(a, b, n);
      } else if b[n] < a[n] {
        ValOrder(b, a, n);
      }
      ValUnique(a[..n], b[..n]);
      assert a == a[..n] + [a[n]] && b == b[..n] + [b[n]];
    }
  }

  lemma {:induction false} ValZeros(s: seq<u32>)
    requires forall k :: 0 <= k < |s| ==> s[k] == 0
    ensures Val(s) == 0
  {
    if s != [] {
      ValZeros(s[..|s| - 1]);
    }
  }

  // ----- tamga_bn_cmp

  /** Compares from the top limb down. */
  method Cmp(a: array<u32>, b: array<u32>, n: nat) returns (c: int)
    requires n <= a.Length && n <= b.Length
    ensures c < 0 <==> Val(a[..n]) < Val(b[..n])
    ensures c == 0 <==> Val(a[..n]) == Val(b[..n])
    ensures c > 0 <==> Val(a[..n]) > Val(b[..n])
  {
    var i := n;
    while i > 0
      invariant 0 <= i <= n
      invariant a[i..n] == b[i..n]
    {
      i := i - 1;
      assert a[..n][i + 1..] == a[i + 1..n] == b[i + 1..n] == b[..n][i + 1..];
      if a[i] != b[i] {
        if a[i] < b[i] {
          ValOrder(a[..n], b[..n], i);
          return -1;
        } else {
          ValOrder(b[..n], a[..n], i);
          return 1;
        }
      }
      assert a[i..n] == [a[i]] + a[i + 1..n];
      assert b[i..n] == [b[i]] + b[i + 1..n];
    }
    assert a[..n] == a[0..n] == b[0..n] == b[..n];
    return 0;
  }

  // ----- tamga_bn_sub

  /** One borrow step of tamga_bn_sub: a wrapped 64-bit difference, its low half and its sign bit. */
  function SubStep(x: u32, y: u32, borrow: int): (r: (u32, int))
    requires 0 <= borrow <= 1
    ensures 0 <= r.1 <= 1
    ensures r.0 == x - y - borrow + r.1 * W
  {
    var diff := (x - y - borrow) % W64;
    var d := x - y - borrow;
    if d < 0 then
      DivModUnique(d, -1, d + W64, W64);
      DivModUnique(d + W64, W - 1, d + W, W);
      DivModUnique(diff, 1, diff - 0x8000_0000_0000_0000, 0x8000_0000_0000_0000);
      (diff % W, diff / 0x8000_0000_0000_0000)
    else
      (diff % W, diff / 0x8000_0000_0000_0000)
  }

  /** r = a - b on n limbs. The destination may be either operand. */
  method Sub(r: array<u32>, a: array<u32>, b: array<u32>, n: nat) returns (borrow: int)
    requires n <= r.Length && n <= a.Length && n <= b.Length
    modifies r
    ensures 0 <= borrow <= 1
    ensures Val(r[..n]) == old(Val(a[..n])) - old(Val(b[..n])) + borrow * B(n)
    ensures r[n..] == old(r[n..])
  {
    hide Val, B, SubStep, SubInv;
    ghost var x, y := a[..n], b[..n];
    borrow := 0;
    var i := 0;
    SubStart(r[..0], x, y);
    while i < n
      invariant 0 <= i <= n && 0 <= borrow <= 1
      invariant SubInv(r[..i], x, y, borrow, i)
      invariant a[i..n] == x[i..] && b[i..n] == y[i..]
      invariant r[n..] == old(r[n..])
    {
      assert a[i] == a[i..n][0] == x[i] && b[i] == b[i..n][0] == y[i];
      assert a[i + 1..n] == a[i..n][1..] && b[i + 1..n] == b[i..n][1..];
      ghost var low := r[..i];
      var step := SubStep(a[i], b[i], borrow);
      SubNext(low, x, y, borrow, i, step.0, step.1);
      r[i] := step.0;
      borrow := step.1;
      assert r[..i + 1] == low + [step.0];
      i := i + 1;
    }
    SubEnd(r[..n], x, y, borrow, n);
  }

  /** The lowest i limbs of the difference are low, and borrow is still owed. */
  ghost predicate SubInv(low: seq<u32>, x: seq<u32>, y: seq<u32>, borrow: int, i: nat)
  {
    |low| == i <= |x| && i <= |y| && Val(low) == Val(x[..i]) - Val(y[..i]) + borrow * B(i)
  }

  lemma SubStart(low: seq<u32>, x: seq<u32>, y: seq<u32>)
    requires low == []
    ensures SubInv(low, x, y, 0, 0)
  {
    assert x[..0] == [] && y[..0] == [];
  }

  lemma SubNext(low: seq<u32>, x: seq<u32>, y: seq<u32>, borrow: int, i: nat, d: u32, borrow': int)
    requires SubInv(low, x, y, borrow, i) && i < |x| && i < |y| && d == x[i] - y[i] - borrow + borrow' * W
    ensures SubInv(low + [d], x, y, borrow', i + 1)
  {
    hide Val, B;
    ValPrefix(x, i);
    ValPrefix(y, i);
    Append(low, d);
    SubCarry(x[i], y[i], borrow, d, borrow', i);
  }

  lemma SubEnd(low: seq<u32>, x: seq<u32>, y: seq<u32>, borrow: int, n: nat)
    requires SubInv(low, x, y, borrow, n) && |x| == |y| == n
    ensures Val(low) == Val(x) - Val(y) + borrow * B(n)
  {
    assert x[..n] == x && y[..n] == y;
  }

  lemma SubCarry(x: int, y: int, borrow: int, d: int, borrow': int, i: nat)
    requires d == x - y - borrow + borrow' * W
    ensures d * B(i) == x * B(i) - y * B(i) - borrow * B(i) + borrow' * B(i + 1)
  {
    MulAssoc(borrow', W, B(i));
    assert d * B(i) == (x - y - borrow + borrow' * W) * B(i);
  }

  // ----- adding

  lemma Append(low: seq<u32>, x: u32)
    ensures Val(low + [x]) == Val(low) + x * B(|low|)
  {
    assert (low + [x])[..|low|] == low;
  }

  /** Splitting a double-word sum at position j: the low half stays, the high half is the next carry. */
  lemma CarryStep(p: u64, j: nat)
    ensures Lo(p) * B(j) + Hi(p) * B(j + 1) == p * B(j)
  {
    MulAssoc(Hi(p), W, B(j));
    MulEq(B(j), p, Hi(p) * W + Lo(p));
  }

  /** The lowest i limbs of x + y have become low, with c carried into limb i. */
  ghost predicate AddInv(low: seq<u32>, c: u32, x: seq<u32>, y: seq<u32>, i: nat)
  {
    |low| == i <= |x| && i <= |y| && c <= 1 && Val(low) + c * B(i) == Val(x[..i]) + Val(y[..i])
  }

  lemma AddStart(x: seq<u32>, y: seq<u32>)
    ensures AddInv([], 0, x, y, 0)
  {
    assert x[..0] == [] && y[..0] == [];
  }

  lemma AddStep(low: seq<u32>, c: u32, x: seq<u32>, y: seq<u32>, i: nat, p: u64)
    requires i < |x| && i < |y| && AddInv(low, c, x, y, i) && p == x[i] + y[i] + c
    ensures AddInv(low + [Lo(p)], Hi(p), x, y, i + 1)
  {
    assert Hi(p) <= 1;
    hide Val, B, Lo, Hi;
    CarryStep(p, i);
    var xi: int, yi: int := x[i], y[i];
    MulDist(B(i), xi + yi, c);
    MulDist(B(i), xi, yi);
    MulEq(B(i), p, xi + yi + c);
    ValPrefix(x, i);
    ValPrefix(y, i);
    Append(low, Lo(p));
  }

  /** r = a + b on n limbs. The destination may be either operand. */
  method Add(r: array<u32>, a: array<u32>, b: array<u32>, n: nat) returns (carry: u32)
    requires n <= r.Length && n <= a.Length && n <= b.Length
    modifies r
    ensures carry <= 1
    ensures Val(r[..n]) + carry * B(n) == old(Val(a[..n])) + old(Val(b[..n]))
    ensures r[n..] == old(r[n..])
  {
    hide Val, B, Lo, Hi;
    ghost var x, y := a[..n], b[..n];
    carry := 0;
    var i := 0;
    AddStart(x, y);
    assert r[..0] == [];
    while i < n
      invariant 0 <= i <= n
      invariant AddInv(r[..i], carry, x, y, i)
      invariant a[i..n] == x[i..] && b[i..n] == y[i..]
      invariant r[n..] == old(r[n..])
    {
      assert a[i] == a[i..n][0] == x[i] && b[i] == b[i..n][0] == y[i];
      assert a[i + 1..n] == a[i..n][1..] && b[i + 1..n] == b[i..n][1..];
      ghost var low := r[..i];
      var sum: u64 := (a[i] as int) + b[i] + carry;
      AddStep(low, carry, x, y, i, sum);
      r[i] := Lo(sum);
      carry := Hi(sum);
      assert r[..i + 1] == low + [Lo(sum)];
      i := i + 1;
    }
    assert x[..n] == x && y[..n] == y;
  }

  /** The lowest i limbs of x + n have become low, with c carried into limb i. */
  ghost predicate RippleInv(low: seq<u32>, c: u64, x: seq<u32>, n: u64, i: nat)
  {
    |low| == i <= |x| && c <= n && Val(low) + c * B(i) == Val(x[..i]) + n
  }

  lemma RippleStart(x: seq<u32>, n: u64)
    ensures RippleInv([], n, x, n, 0)
  {
    assert x[..0] == [];
  }

  lemma RippleStep(low: seq<u32>, c: u64, x: seq<u32>, n: u64, i: nat, p: u64)
    requires i < |x| && RippleInv(low, c, x, n, i) && 0 < c && p == x[i] + c
    ensures RippleInv(low + [Lo(p)], Hi(p), x, n, i + 1)
  {
    assert Hi(p) <= c;
    hide Val, B, Lo, Hi;
    CarryStep(p, i);
    MulDist(B(i), x[i], c);
    MulEq(B(i), p, x[i] + c);
    ValPrefix(x, i);
    Append(low, Lo(p));
  }

  lemma RippleStop(v: seq<u32>, c: u64, x: seq<u32>, n: u64, i: nat)
    requires i <= |v| == |x| && v[i..] == x[i..] && RippleInv(v[..i], c, x, n, i)
    requires i == |v| || c == 0
    ensures Val(v) + c * B(|v|) == Val(x) + n && c <= n
  {
    hide Val, B;
    if i == |v| {
      assert v[..i] == v && x[..i] == x;
    } else {
      ValSplit(v, i);
      ValSplit(x, i);
    }
  }

  /** Adds a small number at the bottom and stops as soon as nothing is carried. */
  method Ripple(v: array<u32>, n: nat, c: u64) returns (carry: u64)
    requires n == v.Length && c < W64 - W
    modifies v
    ensures Val(v[..]) + carry * B(n) == old(Val(v[..])) + c
    ensures carry <= c
  {
    hide Val, B, Lo, Hi;
    ghost var x := v[..];
    carry := c;
    var i := 0;
    assert v[..0] == [];
    RippleStart(x, c);
    while i < n && carry != 0
      invariant 0 <= i <= n
      invariant RippleInv(v[..i], carry, x, c, i)
      invariant v[i..] == x[i..]
    {
      assert v[i] == v[i..][0] == x[i];
      assert v[i + 1..] == v[i..][1..];
      ghost var low := v[..i];
      var t: u64 := (v[i] as int) + carry;
      RippleStep(low, carry, x, c, i, t);
      v[i] := Lo(t);
      carry := Hi(t);
      assert v[..i + 1] == low + [Lo(t)];
      i := i + 1;
    }
    assert v[..][..i] == v[..i] && v[..][i..] == v[i..];
    RippleStop(v[..], carry, x, c, i);
  }

  lemma NonZeroLimb(s: seq<u32>, i: nat)
    requires i < |s| && s[i] != 0
    ensures Val(s) != 0
  {
    hide Val;
    var zeros: seq<u32> := seq(|s|, _ => 0);
    ValZeros(zeros);
    if Val(s) == 0 {
      ValUnique(s, zeros);
    }
  }

  /** Whether every limb is zero, looking at all of them. */
  method IsZero(a: array<u32>, n: nat) returns (zero: bool)
    requires n == a.Length
    ensures zero <==> Val(a[..]) == 0
  {
    hide Val;
    var accumulated := false;
    var i := 0;
    while i < n
      invariant 0 <= i <= n
      invariant accumulated <==> exists k :: 0 <= k < i && a[k] != 0
    {
      accumulated := accumulated || a[i] != 0;
      i := i + 1;
    }
    if accumulated {
      var k :| 0 <= k < n && a[k] != 0;
      NonZeroLimb(a[..], k);
    } else {
      ValZeros(a[..]);
    }
    return !accumulated;
  }
}
