/** Montgomery multiplication on any number of limbs, and the word inverse it needs. */
module Bn {
  import opened Arith
  import opened Limbs

  // ----- shifting one bit in at the bottom (tamga_bn_double_mod, tamga_sc_reduce512)

  /** Shifts every limb left by one, a bit coming in at the bottom and one leaving at the top. */
  method ShiftIn(value: array<u32>, n: nat, bit: int) returns (carry: int)
    requires n <= value.Length && 0 <= bit <= 1
    modifies value
    ensures 0 <= carry <= 1
    ensures Val(value[..n]) + carry * B(n) == 2 * old(Val(value[..n])) + bit
    ensures value[n..] == old(value[n..])
  {
    hide Val, B, Shifting;
    ghost var x := value[..n];
    carry := bit;
    var i := 0;
    ShiftNone(value[..0], x, bit);
    while i < n
      invariant 0 <= i <= n && 0 <= carry <= 1
      invariant Shifting(value[..i], x, bit, carry, i)
      invariant value[i..n] == x[i..]
      invariant value[n..] == old(value[n..])
    {
      assert value[i] == value[i..n][0] == x[i];
      assert value[i + 1..n] == value[i..n][1..];
      ghost var low := value[..i];
      var nextCarry := value[i] / 0x8000_0000;
      var shifted := (value[i] * 2) % W + carry;
      ShiftNext(low, x, bit, carry, shifted, nextCarry, i);
      value[i] := shifted;
      carry := nextCarry;
      assert value[..i + 1] == low + [shifted];
      i := i + 1;
    }
    ShiftAll(value[..n], x, bit, carry, n);
  }

  /** The lowest i limbs have been shifted to low, and carry comes next. */
  ghost predicate Shifting(low: seq<u32>, x: seq<u32>, bit: int, carry: int, i: nat)
  {
    |low| == i <= |x| && Val(low) + carry * B(i) == 2 * Val(x[..i]) + bit
  }

  lemma ShiftNone(low: seq<u32>, x: seq<u32>, bit: int)
    requires low == []
    ensures Shifting(low, x, bit, bit, 0)
  {
    assert x[..0] == [];
  }

  lemma ShiftNext(low: seq<u32>, x: seq<u32>, bit: int, carry: int, shifted: int, next: int, i: nat)
    requires Shifting(low, x, bit, carry, i) && i < |x| && 0 <= carry <= 1
    requires next == x[i] / 0x8000_0000 && shifted == (x[i] * 2) % W + carry
    ensures 0 <= next <= 1 && 0 <= shifted < W && Shifting(low + [shifted], x, bit, next, i + 1)
  {
    ShiftStep(x[i], carry, shifted, next, i);
    hide Val, B;
    ValPrefix(x, i);
    Append(low, shifted);
  }

  lemma ShiftAll(low: seq<u32>, x: seq<u32>, bit: int, carry: int, n: nat)
    requires Shifting(low, x, bit, carry, n) && |x| == n
    ensures Val(low) + carry * B(n) == 2 * Val(x) + bit
  {
    assert x[..n] == x;
  }

  lemma ShiftStep(x: u32, carry: int, shifted: int, next: int, i: nat)
    requires 0 <= carry <= 1
    requires next == x / 0x8000_0000 && shifted == (x * 2) % W + carry
    ensures 0 <= next <= 1 && 0 <= shifted < W
    ensures shifted * B(i) + next * B(i + 1) == 2 * (x * B(i)) + carry * B(i)
  {
    DivModUnique(2 * x, next, 2 * x - next * W, W);
    assert shifted + next * W == 2 * x + carry;
    MulAssoc(next, W, B(i));
    MulEq(B(i), shifted + next * W, 2 * x + carry);
  }

  /** value = 2 * value mod m, for value below m, on n limbs that may overflow once. */
  method DoubleMod(value: array<u32>, m: array<u32>, n: nat)
    requires value != m && n <= value.Length && n <= m.Length
    requires Val(value[..n]) < Val(m[..n])
    modifies value
    ensures Val(value[..n]) == (2 * old(Val(value[..n]))) % Val(m[..n])
    ensures value[n..] == old(value[n..])
  {
    ghost var v, M := Val(value[..n]), Val(m[..n]);
    ValBound(m[..n]);
    var carry := ShiftIn(value, n, 0);
    ValBound(value[..n]);
    var c := Cmp(value, m, n);
    if carry != 0 || c >= 0 {
      ghost var shifted := Val(value[..n]);
      var borrow := Sub(value, value, m, n);
      ValBound(value[..n]);
      WrapSub(2 * v - M, Val(value[..n]), borrow - carry, B(n));
      DivModUnique(2 * v, 1, 2 * v - M, M);
    } else {
      DivModUnique(2 * v, 0, 2 * v, M);
    }
  }

  /** Two numbers in the same range of length b that differ by a multiple of b are equal. */
  lemma WrapSub(x: int, y: int, k: int, b: int)
    requires 0 <= x < b && 0 <= y < b && y == x + k * b
    ensures x == y
  {
    if k >= 1 {
      MulMono(1, k, b);
    } else if k <= -1 {
      MulMono(k, -1, b);
    }
  }

  // ----- tamga_bn_n0inv

  /** One Newton step squares the error, so it squares the modulus the inverse is right for. */
  lemma NewtonStep(m0: int, inv: int, next: int, k: int, c: int)
    requires k > 0 && k * k > 0 && W == c * (k * k)
    requires Cong(m0 * inv, 1, k)
    requires next == (inv * ((2 - m0 * inv) % W)) % W
    ensures Cong(m0 * next, 1, k * k)
  {
    var q := k * k;
    var t := CongBy(m0 * inv, 1, k);
    var s := (2 - m0 * inv) % W;
    CongMod(2 - m0 * inv, W);
    CongDivides(s, 2 - m0 * inv, W, c, q);
    CongMod(inv * s, W);
    CongDivides(next, inv * s, W, c, q);
    CongRefl(inv, q);
    CongMul(inv, inv, s, 2 - m0 * inv, q);
    CongTrans(next, inv * s, inv * (2 - m0 * inv), q);
    CongRefl(m0, q);
    CongMul(m0, m0, next, inv * (2 - m0 * inv), q);
    NewtonError(m0, inv, t, k);
    CongIntro(m0 * (inv * (2 - m0 * inv)), 1, -(t * t), q);
    CongTrans(m0 * next, m0 * (inv * (2 - m0 * inv)), 1, q);
  }

  lemma NewtonError(m0: int, inv: int, t: int, k: int)
    requires m0 * inv == 1 + t * k
    ensures m0 * (inv * (2 - m0 * inv)) == 1 + -(t * t) * (k * k)
  {
    var p := m0 * inv;
    MulAssoc(m0, inv, 2 - p);
    assert p * (2 - p) == 1 - (t * k) * (t * k) by {
      assert p * (2 - p) == 2 * p - p * p;
      MulEq(p, p, 1 + t * k);
      MulEq(1 + t * k, p, 1 + t * k);
      assert (1 + t * k) * (1 + t * k) == 1 + 2 * (t * k) + (t * k) * (t * k);
    }
    assert (t * k) * (t * k) == (t * t) * (k * k);
  }

  lemma CongDivides(a: int, b: int, m: int, c: int, d: int)
    requires m > 0 && d > 0 && m == c * d && Cong(a, b, m)
    ensures Cong(a, b, d)
  {
    var k := CongBy(a, b, m);
    MulAssoc(k, c, d);
    CongIntro(a, b, k * c, d);
  }

  /** The moduli after each Newton step: 2, 2^2, 2^4, 2^8, 2^16, 2^32. */
  ghost function NewtonModulus(i: nat): (k: int)
    requires i <= 5
    ensures k > 0
  {
    [2, 4, 16, 256, 0x1_0000, W][i]
  }

  /** r is -m0^-1 modulo 2^32. */
  ghost predicate IsN0Inv(m0: u32, r: u32)
  {
    Cong(m0 * r, -1, W)
  }

  /** -m0^-1 mod 2^32, by five Newton steps in 32-bit arithmetic. */
  method N0Inv(m0: u32) returns (r: u32)
    requires m0 % 2 == 1
    ensures IsN0Inv(m0, r)
  {
    var inverse: u32 := 1;
    var i := 0;
    CongIntro(m0 * inverse, 1, m0 / 2, 2);
    while i < 5
      invariant 0 <= i <= 5
      invariant Cong(m0 * inverse, 1, NewtonModulus(i))
    {
      ghost var k := NewtonModulus(i);
      var next := (inverse * ((2 - m0 * inverse) % W)) % W;
      NewtonStep(m0, inverse, next, k, [0x4000_0000, 0x1000_0000, 0x100_0000, 0x1_0000, 1][i]);
      inverse := next;
      i := i + 1;
    }
    r := (0 - inverse) % W;
    ghost var t := CongBy(m0 * inverse, 1, W);
    if inverse == 0 {
      assert false;
    }
    assert r == W - inverse by { DivModUnique(0 - inverse, -1, W - inverse, W); }
    MulDist(m0, W, 0 - (inverse as int));
    assert m0 * r == m0 * W - m0 * inverse;
    CongIntro(m0 * r, -1, m0 - t, W);
  }

  // ----- tamga_bn_mont_mul

  lemma RowStep(t: int, a: int, b: int, carry: int, w: int)
    ensures (t + a * b + carry) * w == t * w + (a * w) * b + carry * w
  {
    assert (t + a * b + carry) * w == t * w + (a * b) * w + carry * w;
    assert (a * b) * w == (a * w) * b;
  }

  /** A limb, a full product and a carry, in 64 bits. */
  function MulAdd(t: u32, a: u32, b: u32, c: u32): (r: u64)
  {
    MulAddFits(a, b, t, c);
    t + a * b + c
  }

  /** The lowest j limbs of T + A * x have become low, with c carried into limb j. */
  ghost predicate RowInv(low: seq<u32>, c: u32, T: seq<u32>, A: seq<u32>, x: u32, j: nat)
  {
    |low| == j <= |T| && j <= |A| && Val(low) + c * B(j) == Val(T[..j]) + Val(A[..j]) * x
  }

  lemma RowStart(T: seq<u32>, A: seq<u32>, x: u32)
    ensures RowInv([], 0, T, A, x, 0)
  {
    assert T[..0] == [] && A[..0] == [];
  }

  /** One step of a row: the limb at j is settled and the carry moves up. */
  lemma RowCarry(low: seq<u32>, T: seq<u32>, A: seq<u32>, x: u32, c: u32, j: nat)
    requires j < |T| && j < |A| && RowInv(low, c, T, A, x, j)
    ensures var p := MulAdd(T[j], A[j], x, c); RowInv(low + [Lo(p)], Hi(p), T, A, x, j + 1)
  {
    var p := MulAdd(T[j], A[j], x, c);
    hide Val, B, Lo, Hi;
    CarryStep(p, j);
    RowStep(T[j], A[j], x, c, B(j));
    MulEq(B(j), p, T[j] + A[j] * x + c);
    ValPrefix(T, j);
    ValPrefix(A, j);
    MulDist(x, Val(A[..j]), A[j] * B(j));
    Append(low, Lo(p));
  }

  /** The two limbs above a row, once its carry is added in. */
  lemma RowTop(low: seq<u32>, T: seq<u32>, A: seq<u32>, x: u32, c: u32, p: u64, n: nat)
    requires n == |A| && n < |T| && RowInv(low, c, T, A, x, n)
    requires p == T[n] + c
    ensures Val(low + [Lo(p)] + [Hi(p)]) == Val(T[..n + 1]) + Val(A) * x
  {
    assert A[..n] == A;
    hide Val, B, Lo, Hi;
    CarryStep(p, n);
    MulEq(B(n), p, T[n] + c);
    MulDist(B(n), T[n], c);
    ValPrefix(T, n);
    Append(low, Lo(p));
    Append(low + [Lo(p)], Hi(p));
  }

  /** t := t + a * x, where t has two limbs more than a. */
  method MulAddRow(t: array<u32>, a: array<u32>, x: u32, n: nat)
    requires t.Length == n + 2 && n <= a.Length && t != a
    modifies t
    ensures Val(t[..n + 2]) == old(Val(t[..n + 1])) + Val(a[..n]) * x
  {
    hide *;
    ghost var T, A := t[..], a[..n];
    var carry: u32 := 0;
    var j := 0;
    RowStart(T, A, x);
    assert t[..0] == [];
    while j < n
      invariant 0 <= j <= n
      invariant t[j..] == T[j..]
      invariant RowInv(t[..j], carry, T, A, x, j)
    {
      assert t[j] == t[j..][0] == T[j] && a[j] == A[j];
      assert t[j + 1..] == t[j..][1..];
      var product := MulAdd(t[j], a[j], x, carry);
      ghost var low := t[..j];
      RowCarry(low, T, A, x, carry, j);
      t[j] := Lo(product);
      carry := Hi(product);
      assert t[..j + 1] == low + [Lo(product)];
      j := j + 1;
    }
    assert t[n] == t[n..][0] == T[n];
    var sum: u64 := t[n] + carry;
    ghost var low := t[..n];
    RowTop(low, T, A, x, carry, sum, n);
    t[n] := Lo(sum);
    t[n + 1] := Hi(sum);
    assert t[..n + 2] == low + [Lo(sum)] + [Hi(sum)];
    assert T[..n + 1] == old(t[..n + 1]);
  }

  /** The multiple of m that clears the lowest limb. */
  lemma ClearsLow(t0: u32, n0inv: u32, m0: u32, q: u32)
    requires IsN0Inv(m0, n0inv)
    requires q == (t0 * n0inv) % W
    ensures (t0 + q * m0) % W == 0
  {
    var k := CongBy(m0 * n0inv, -1, W);
    var l := (t0 * n0inv) / W;
    assert m0 * n0inv + 1 == W * k && t0 * n0inv == W * l + q;
    calc {
      t0 + q * m0;
      { MulEq(m0, q, t0 * n0inv - W * l); }
      t0 + (t0 * n0inv - W * l) * m0;
      t0 + t0 * n0inv * m0 - W * l * m0;
      { assert t0 * n0inv * m0 == t0 * (m0 * n0inv); MulEq(t0, m0 * n0inv, W * k - 1); }
      t0 + t0 * (W * k - 1) - W * l * m0;
      t0 * (W * k) - W * l * m0;
      { MulSwap(t0, W, k); MulAssoc(W, l, m0); }
      W * (t0 * k) - W * (l * m0);
      (t0 * k - l * m0) * W;
    }
    DivModUnique(t0 + q * m0, t0 * k - l * m0, 0, W);
  }

  /** The lowest j limbs of T + f * M have become low one limb further down, with c carried into limb j. */
  ghost predicate ShiftInv(low: seq<u32>, c: u32, T: seq<u32>, M: seq<u32>, f: u32, j: nat)
  {
    |low| + 1 == j <= |T| && j <= |M| && Val(low) * W + c * B(j) == Val(T[..j]) + f * Val(M[..j])
  }

  /** One step of the exact division: the sum at j lands one limb lower. */
  lemma ShiftCarry(low: seq<u32>, T: seq<u32>, M: seq<u32>, f: u32, c: u32, j: nat)
    requires j < |T| && j < |M| && ShiftInv(low, c, T, M, f, j)
    ensures var p := MulAdd(T[j], M[j], f, c); ShiftInv(low + [Lo(p)], Hi(p), T, M, f, j + 1)
  {
    var p := MulAdd(T[j], M[j], f, c);
    hide Val, B, Lo, Hi;
    CarryStep(p, j);
    RowStep(T[j], M[j], f, c, B(j));
    MulEq(B(j), p, T[j] + f * M[j] + c);
    ValPrefix(T, j);
    ValPrefix(M, j);
    MulDist(f, Val(M[..j]), M[j] * B(j));
    ShiftDown(low + [Lo(p)], low, Lo(p));
  }

  lemma ShiftSum(low: seq<u32>, T: seq<u32>, M: seq<u32>, f: u32, c: u32, p: u64, top: int, n: nat)
    requires n == |M| && |T| == n + 2 && ShiftInv(low, c, T, M, f, n)
    requires p == T[n] + c && top == T[n + 1] + Hi(p)
    ensures Val(low) * W + Lo(p) * B(n) + top * B(n + 1) == Val(T) + f * Val(M)
  {
    assert M[..n] == M;
    hide Val, B, Lo, Hi;
    CarryStep(p, n);
    MulEq(B(n), p, T[n] + c);
    MulDist(B(n), T[n], c);
    ValPrefix(T, n);
    ValPrefix(T, n + 1);
    assert T[..n + 2] == T;
    MulEq(B(n + 1), top, T[n + 1] + Hi(p));
    MulDist(B(n + 1), T[n + 1], Hi(p));
  }

  lemma ShiftTop(low: seq<u32>, T: seq<u32>, M: seq<u32>, f: u32, c: u32, p: u64, top: int, n: nat)
    requires n == |M| && |T| == n + 2 && ShiftInv(low, c, T, M, f, n)
    requires Val(T) < (W + 1) * Val(M)
    requires p == T[n] + c && top == T[n + 1] + Hi(p)
    ensures 0 <= top < 2
    ensures Val(low + [Lo(p)] + [top]) * W == Val(T) + f * Val(M)
    ensures Val(low + [Lo(p)] + [top]) < 2 * Val(M)
  {
    hide Val, B, Lo, Hi;
    ShiftSum(low, T, M, f, c, p, top, n);
    TopLimb(Val(low), Lo(p), top, Val(T), f, M);
    ShiftDown(low + [Lo(p)], low, Lo(p));
    ShiftDown(low + [Lo(p)] + [top], low + [Lo(p)], top);
    HalfBound(Val(low + [Lo(p)] + [top]), Val(T), f, Val(M));
  }

  /** t := (t + q * m) / 2^32 for the q that makes the division exact. */
  method ReduceRow(t: array<u32>, m: array<u32>, n: nat, n0inv: u32) returns (ghost q: u32)
    requires 1 <= n <= m.Length && t.Length == n + 2 && t != m
    requires IsN0Inv(m[0], n0inv)
    requires Val(t[..n + 2]) < (W + 1) * Val(m[..n])
    modifies t
    ensures Val(t[..n + 1]) * W == old(Val(t[..n + 2])) + q * Val(m[..n])
    ensures Val(t[..n + 1]) < 2 * Val(m[..n])
  {
    hide Val, B, Lo, Hi, MulAdd, ShiftInv, IsN0Inv;
    ghost var T, M := t[..], m[..n];
    assert T == t[..n + 2];
    var f := Lo(MulAdd(0, t[0], n0inv, 0));
    q := f;
    var carry := Hi(MulAdd(t[0], m[0], f, 0));
    ReduceStart(T, M, n0inv);
    carry := ShiftRow(t, m, n, f, carry);
    assert t[n] == t[n..][0] == T[n] && t[n + 1] == t[n..][1] == T[n + 1];
    var sum: u64 := (t[n] as int) + carry;
    ghost var low := t[..n - 1];
    ShiftTop(low, T, M, f, carry, sum, T[n + 1] + Hi(sum), n);
    t[n - 1] := Lo(sum);
    t[n] := (t[n + 1] + Hi(sum)) % 0x1_0000_0000;
    assert t[..n + 1] == low + [Lo(sum)] + [T[n + 1] + Hi(sum)];
  }

  /** The loop of the reduction: limb by limb, one place further down. */
  method ShiftRow(t: array<u32>, m: array<u32>, n: nat, f: u32, first: u32) returns (carry: u32)
    requires 1 <= n <= m.Length && t.Length == n + 2 && t != m
    requires ShiftInv([], first, t[..], m[..n], f, 1)
    modifies t
    ensures t[n..] == old(t[n..]) && ShiftInv(t[..n - 1], carry, old(t[..]), m[..n], f, n)
  {
    hide Val, B, Lo, Hi, MulAdd, ShiftInv;
    ghost var T, M := t[..], m[..n];
    carry := first;
    assert t[..0] == [];
    var j := 1;
    while j < n
      invariant 1 <= j <= n
      invariant t[j..] == T[j..]
      invariant ShiftInv(t[..j - 1], carry, T, M, f, j)
    {
      assert t[j] == t[j..][0] == T[j] && m[j] == M[j];
      assert t[j + 1..] == t[j..][1..];
      var product := MulAdd(t[j], m[j], f, carry);
      ghost var low := t[..j - 1];
      ShiftCarry(low, T, M, f, carry, j);
      t[j - 1] := Lo(product);
      carry := Hi(product);
      assert t[..j] == low + [Lo(product)];
      j := j + 1;
    }
  }

  lemma ReduceStart(T: seq<u32>, M: seq<u32>, n0inv: u32)
    requires |T| > 0 && |M| > 0 && IsN0Inv(M[0], n0inv)
    ensures var q := Lo(MulAdd(0, T[0], n0inv, 0));
            ShiftInv([], Hi(MulAdd(T[0], M[0], q, 0)), T, M, q, 1)
  {
    var q := Lo(MulAdd(0, T[0], n0inv, 0));
    ClearsLow(T[0], n0inv, M[0], q);
    FirstLimb(T);
    FirstLimb(M);
    assert B(1) == W;
  }

  lemma FirstLimb(s: seq<u32>)
    requires |s| > 0
    ensures Val(s[..1]) == s[0]
  {
    ValPrefix(s, 0);
    assert s[..0] == [];
  }

  /** One limb appended to a string whose value is counted one limb further up. */
  lemma ShiftDown(s: seq<u32>, low: seq<u32>, x: u32)
    requires s == low + [x]
    ensures Val(s) * W == Val(low) * W + x * B(|low| + 1)
  {
    assert s[..|low|] == low;
    MulDist(W, Val(low), x * B(|low|));
    MulSwap(W, x, B(|low|));
  }

  /** The sum stays below 2 * m * 2^32, so the 32-bit addition in the top limb cannot wrap. */
  lemma TopLimb(low: nat, x: nat, top: nat, t: int, q: u32, M: seq<u32>)
    requires t < (W + 1) * Val(M)
    requires low * W + x * B(|M|) + top * B(|M| + 1) == t + q * Val(M)
    ensures top < 2
  {
    hide Val, B, Cong;
    ValBound(M);
    BNext(|M|);
    MulMono(q, W - 1, Val(M));
    MulDist(Val(M), W + 1, W - 1);
    MulMono(0, x, B(|M|));
    MulMono(0, low, W);
    if top >= 2 {
      MulMono(2, top, B(|M| + 1));
      assert false;
    }
  }

  lemma HalfBound(v: int, t: int, q: u32, m: int)
    requires m >= 0 && v * W == t + q * m && t < (W + 1) * m
    ensures v < 2 * m
  {
    MulMono(q, W - 1, m);
    MulDist(m, W + 1, W - 1);
    if v >= 2 * m {
      MulMono(2 * m, v, W);
      assert false;
    }
  }

  /** r is the one number below m with r * 2^(32n) = a * b modulo m. */
  ghost predicate MontProduct(r: int, a: int, b: int, m: int, n: nat)
  {
    0 <= r < m && Cong(r * B(n), a * b, m)
  }

  /** r = a * b / 2^(32n) modulo m, CIOS form. The destination may be either factor. */
  method MontMul(r: array<u32>, a: array<u32>, b: array<u32>, m: array<u32>, n: nat, n0inv: u32)
    requires 1 <= n && n <= r.Length && n <= a.Length && n <= b.Length && n <= m.Length
    requires r != m
    requires IsN0Inv(m[0], n0inv)
    requires Val(a[..n]) < Val(m[..n])
    modifies r
    ensures MontProduct(Val(r[..n]), old(Val(a[..n])), old(Val(b[..n])), old(Val(m[..n])), n)
    ensures r[n..] == old(r[n..])
  {
    hide Val, B, Lo, Hi, MulAdd, MontInv, MontProduct, IsN0Inv;
    ghost var As, Bs, Ms := a[..n], b[..n], m[..n];
    var t := new u32[n + 2](_ => 0);
    var i := 0;
    MontStart(t[..n + 1], As, Bs, Ms);
    while i < n
      invariant 0 <= i <= n
      invariant a[..n] == As && b[..n] == Bs && m[..n] == Ms && r[n..] == old(r[n..])
      invariant MontInv(t[..n + 1], As, Bs, Ms, i)
    {
      ghost var v := t[..n + 1];
      MulAddRow(t, a, b[i], n);
      assert m[..n] == Ms && b[i] == Bs[i];
      RowBound(v, As, Bs, Ms, i);
      ghost var q := ReduceRow(t, m, n, n0inv);
      assert a[..n] == As && b[..n] == Bs && m[..n] == Ms;
      OuterStep(v, t[..n + 1], As, Bs, Ms, q, i);
      i := i + 1;
    }
    ghost var T := t[..n + 1];
    assert T[..n] == t[..n] && T[n] == t[n];
    MontEnd(T, As, Bs, Ms, n);
    var c := Cmp(t, m, n);
    if t[n] != 0 || c >= 0 {
      var borrow := Sub(r, t, m, n);
      MontSub(T, r[..n], borrow, As, Bs, Ms, n);
    } else {
      ghost var rest := r[n..];
      forall k | 0 <= k < n { r[k] := t[k]; }
      assert r[..n] == T[..n] && r[n..] == rest;
    }
  }

  /** After i rows the running value t is below 2m and t * 2^(32i) is a times the low i limbs of b. */
  ghost predicate MontInv(t: seq<u32>, A: seq<u32>, Bs: seq<u32>, M: seq<u32>, i: nat)
  {
    i <= |Bs| && Val(A) < Val(M) && Val(t) < 2 * Val(M) &&
    Cong(Val(t) * B(i), Val(A) * Val(Bs[..i]), Val(M))
  }

  lemma MontStart(t: seq<u32>, A: seq<u32>, Bs: seq<u32>, M: seq<u32>)
    requires forall k :: 0 <= k < |t| ==> t[k] == 0
    requires Val(A) < Val(M)
    ensures MontInv(t, A, Bs, M, 0)
  {
    ValZeros(t);
    assert Bs[..0] == [];
    CongRefl(0, Val(M));
  }

  lemma MontEnd(t: seq<u32>, A: seq<u32>, Bs: seq<u32>, M: seq<u32>, n: nat)
    requires n == |Bs| == |M| && |t| == n + 1 && MontInv(t, A, Bs, M, n)
    ensures t[n] < 2 && Val(t) < 2 * Val(M)
    ensures Cong(Val(t) * B(n), Val(A) * Val(Bs), Val(M))
    ensures t[n] == 0 ==> Val(t[..n]) == Val(t)
    ensures t[n] == 0 && Val(t[..n]) < Val(M) ==> MontProduct(Val(t[..n]), Val(A), Val(Bs), Val(M), n)
  {
    hide Val, B, Cong, MontInv, MontProduct;
    MontEndFacts(t, A, Bs, M, n);
    assert t == t[..n] + [t[n]];
    Append(t[..n], t[n]);
    ValBound(M);
    TopSmall(Val(t), Val(t[..n]), t[n], Val(M), B(n));
    if t[n] == 0 && Val(t[..n]) < Val(M) {
      ProductIntro(Val(t[..n]), Val(A), Val(Bs), Val(M), n);
    }
  }

  lemma MontEndFacts(t: seq<u32>, A: seq<u32>, Bs: seq<u32>, M: seq<u32>, n: nat)
    requires n == |Bs| && MontInv(t, A, Bs, M, n)
    ensures Val(t) < 2 * Val(M) && Val(M) > 0 && Cong(Val(t) * B(n), Val(A) * Val(Bs), Val(M))
  {
    hide Val, B, Cong;
    assert Bs[..n] == Bs;
  }

  lemma TopSmall(v: int, lo: int, top: int, m: int, b: int)
    requires v == lo + top * b && 0 <= lo && 0 <= top && 0 < m < b && v < 2 * m
    ensures top < 2 && (top == 0 ==> lo == v)
  {
    if top >= 2 {
      MulMono(2, top, b);
      assert false;
    }
  }

  lemma ProductIntro(r: int, a: int, b: int, m: int, n: nat)
    requires 0 <= r < m && Cong(r * B(n), a * b, m)
    ensures MontProduct(r, a, b, m, n)
  {
  }

  lemma MontSub(t: seq<u32>, r: seq<u32>, borrow: int, A: seq<u32>, Bs: seq<u32>, M: seq<u32>, n: nat)
    requires n == |Bs| == |M| == |r| && |t| == n + 1 && MontInv(t, A, Bs, M, n)
    requires t[n] != 0 || Val(t[..n]) >= Val(M)
    requires Val(r) == Val(t[..n]) - Val(M) + borrow * B(n)
    ensures MontProduct(Val(r), Val(A), Val(Bs), Val(M), n)
  {
    hide *;
    MontEnd(t, A, Bs, M, n);
    TopSubSeq(t, r, borrow, M, n);
    MinusModulus(Val(t), Val(r), Val(A), Val(Bs), Val(M), n);
  }

  lemma TopSubSeq(t: seq<u32>, r: seq<u32>, borrow: int, M: seq<u32>, n: nat)
    requires n == |M| == |r| && |t| == n + 1 && t[n] < 2 && Val(t) < 2 * Val(M)
    requires t[n] != 0 || Val(t[..n]) >= Val(M)
    requires Val(r) == Val(t[..n]) - Val(M) + borrow * B(n)
    ensures Val(r) == Val(t) - Val(M)
  {
    hide *;
    assert t == t[..n] + [t[n]];
    Append(t[..n], t[n]);
    ValBound(M);
    ValBound(r);
    TopSub(Val(t), Val(t[..n]), t[n], Val(r), borrow, Val(M), B(n));
  }

  /** Subtracting m from lo + top * b in b's range, whatever the carry and the borrow were. */
  lemma TopSub(v: int, lo: int, top: int, r: int, borrow: int, m: int, b: int)
    requires v == lo + top * b && 0 <= top < 2 && 0 <= lo && m < b && v < 2 * m
    requires top != 0 || lo >= m
    requires r == lo - m + borrow * b && 0 <= r < b
    ensures r == v - m
  {
    if top == 1 {
      WrapSub(v - m, r, borrow - 1, b);
    } else {
      WrapSub(v - m, r, borrow, b);
    }
  }

  lemma RowBound(t: seq<u32>, A: seq<u32>, Bs: seq<u32>, M: seq<u32>, i: nat)
    requires i < |Bs| && MontInv(t, A, Bs, M, i)
    ensures Val(t) + Val(A) * Bs[i] < (W + 1) * Val(M)
  {
    hide Val, B, Cong;
    MulMono(Val(A), Val(M), Bs[i]);
    MulMono(Bs[i], W - 1, Val(M));
    MulDist(Val(M), 2, W - 1);
  }

  lemma OuterStep(t: seq<u32>, t': seq<u32>, A: seq<u32>, Bs: seq<u32>, M: seq<u32>, q: u32, i: nat)
    requires i < |Bs| && MontInv(t, A, Bs, M, i)
    requires Val(t') * W == Val(t) + Val(A) * Bs[i] + q * Val(M) && Val(t') < 2 * Val(M)
    ensures MontInv(t', A, Bs, M, i + 1)
  {
    hide Val, B, Cong;
    ValPrefix(Bs, i);
    BNext(i);
    OuterCong(Val(t), Val(t'), Val(A), Bs[i], q, Val(M), Val(Bs[..i]), Val(Bs[..i + 1]), B(i), B(i + 1));
  }

  lemma OuterCong(v: int, v': int, a: int, x: int, q: int, m: int, bs: int, bs': int, b: int, b': int)
    requires m > 0 && v' * W == v + a * x + q * m
    requires Cong(v * b, a * bs, m) && b' == W * b && bs' == bs + x * b
    ensures Cong(v' * b', a * bs', m)
  {
    var Q := CongBy(v * b, a * bs, m);
    calc {
      v' * b';
      { MulAssoc(v', W, b); MulEq(v', b', W * b); }
      (v' * W) * b;
      { MulEq(b, v' * W, v + a * x + q * m); }
      (v + a * x + q * m) * b;
      { MulDist(b, v + a * x, q * m); MulDist(b, v, a * x); }
      v * b + (a * x) * b + (q * m) * b;
      { MulAssoc(a, x, b); assert (q * m) * b == (q * b) * m; }
      a * bs + a * (x * b) + Q * m + (q * b) * m;
      { MulDist(a, bs, x * b); MulDist(m, Q, q * b); MulEq(a, bs', bs + x * b); }
      a * bs' + (Q + q * b) * m;
    }
    CongIntro(v' * b', a * bs', Q + q * b, m);
  }

  lemma MinusModulus(v: int, r: nat, a: int, b: int, m: int, n: nat)
    requires m > 0 && Cong(v * B(n), a * b, m) && r == v - m < m
    ensures MontProduct(r, a, b, m, n)
  {
    hide B, Cong;
    MulDist(B(n), v, -m);
    assert (-m) * B(n) == (-B(n)) * m;
    CongIntro(r * B(n), v * B(n), -B(n), m);
    CongTrans(r * B(n), v * B(n), a * b, m);
  }
}
