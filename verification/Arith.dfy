/** Powers, congruences and the few facts about multiplication that the multi-precision proofs rest on. */
module Arith {

  function Pow(b: int, e: nat): (r: int)
    ensures b > 0 ==> r > 0
    ensures b >= 0 ==> r >= 0
  {
    if e == 0 then 1 else b * Pow(b, e - 1)
  }

  lemma {:induction false} PowAdd(b: int, e: nat, f: nat)
    ensures Pow(b, e + f) == Pow(b, e) * Pow(b, f)
  {
    if e > 0 {
      PowAdd(b, e - 1, f);
      calc {
        Pow(b, e + f);
        b * (Pow(b, e - 1) * Pow(b, f));
        { MulAssoc(b, Pow(b, e - 1), Pow(b, f)); }
        Pow(b, e) * Pow(b, f);
      }
    }
  }

  lemma {:induction false} PowMul(b: int, e: nat, f: nat)
    requires e * f >= 0
    ensures Pow(b, e * f) == Pow(Pow(b, e), f)
  {
    if f > 0 {
      assert e * f == e + e * (f - 1);
      PowMul(b, e, f - 1);
      PowAdd(b, e, e * (f - 1));
    }
  }

  lemma MulAssoc(a: int, b: int, c: int)
    ensures a * (b * c) == (a * b) * c
  {
  }

  lemma MulEq(a: int, b: int, c: int)
    requires b == c
    ensures a * b == a * c && b * a == a * c && a * b == c * a
  {
  }

  lemma MulSwap(a: int, b: int, c: int)
    ensures a * (b * c) == b * (a * c)
  {
  }

  lemma MulDist(a: int, b: int, c: int)
    ensures a * (b + c) == a * b + a * c
    ensures (b + c) * a == b * a + c * a
  {
  }

  lemma MulBounds(a: int, b: int, m: int)
    requires 0 <= a <= m && 0 <= b <= m
    ensures 0 <= a * b <= m * m
  {
    MulMono(a, m, b);
    MulMono(b, m, m);
  }

  lemma MulMono(a: int, b: int, c: int)
    requires a <= b && c >= 0
    ensures a * c <= b * c
  {
  }

  /** The quotient and remainder are the only pair with these two properties. */
  lemma DivModUnique(x: int, q: int, r: int, d: int)
    requires 0 <= r < d && x == q * d + r
    ensures x / d == q && x % d == r
  {
    var e := x / d - q;
    assert x == d * (x / d) + x % d;
    assert e * d == r - x % d by {
      assert e * d == (x / d) * d - q * d;
    }
    if e >= 1 {
      MulMono(1, e, d);
      assert false;
    } else if e <= -1 {
      MulMono(e, -1, d);
      assert false;
    }
  }

  // ----- congruence modulo m

  /** The moduli of the fields. */
  type Modulus = m: int | m > 2 witness 3

  ghost predicate Apart(a: int, b: int, k: int, m: int) { a == b + k * m }

  /** a and b are a multiple of m apart. */
  ghost predicate Cong(a: int, b: int, m: int)
    requires m > 0
  {
    exists k :: Apart(a, b, k, m)
  }

  lemma CongIntro(a: int, b: int, k: int, m: int)
    requires m > 0 && a == b + k * m
    ensures Cong(a, b, m)
  {
    assert Apart(a, b, k, m);
  }

  /** How many moduli apart two congruent integers are. */
  ghost function CongBy(a: int, b: int, m: int): (k: int)
    requires m > 0 && Cong(a, b, m)
    ensures a == b + k * m
  {
    var k :| Apart(a, b, k, m);
    k
  }

  lemma CongSym(a: int, b: int, m: int)
    requires m > 0 && Cong(a, b, m)
    ensures Cong(b, a, m)
  {
    var k := CongBy(a, b, m);
    assert (-k) * m == -(k * m);
    CongIntro(b, a, -k, m);
  }

  lemma CongTrans(a: int, b: int, c: int, m: int)
    requires m > 0 && Cong(a, b, m) && Cong(b, c, m)
    ensures Cong(a, c, m)
  {
    var k := CongBy(a, b, m);
    var l := CongBy(b, c, m);
    assert (k + l) * m == k * m + l * m;
    CongIntro(a, c, k + l, m);
  }

  lemma CongAdd(a: int, b: int, c: int, d: int, m: int)
    requires m > 0 && Cong(a, b, m) && Cong(c, d, m)
    ensures Cong(a + c, b + d, m)
    ensures Cong(a - c, b - d, m)
  {
    var k := CongBy(a, b, m);
    var l := CongBy(c, d, m);
    assert (k + l) * m == k * m + l * m;
    assert (k - l) * m == k * m - l * m;
    CongIntro(a + c, b + d, k + l, m);
    CongIntro(a - c, b - d, k - l, m);
  }

  lemma CongMul(a: int, b: int, c: int, d: int, m: int)
    requires m > 0 && Cong(a, b, m) && Cong(c, d, m)
    ensures Cong(a * c, b * d, m)
  {
    var k := CongBy(a, b, m);
    var l := CongBy(c, d, m);
    var q := b * l + k * d + k * l * m;
    calc {
      a * c;
      (b + k * m) * (d + l * m);
      b * d + b * (l * m) + (k * m) * d + (k * m) * (l * m);
      b * d + (b * l) * m + (k * d) * m + (k * l * m) * m;
      b * d + q * m;
    }
    CongIntro(a * c, b * d, q, m);
  }

  lemma CongRefl(a: int, m: int)
    requires m > 0
    ensures Cong(a, a, m)
  {
    CongIntro(a, a, 0, m);
  }

  lemma CongMod(a: int, m: int)
    requires m > 0
    ensures Cong(a % m, a, m)
    ensures Cong(a, a % m, m)
    ensures 0 <= a % m < m
  {
    var k := a / m;
    assert a == m * k + a % m;
    CongIntro(a, a % m, k, m);
    CongSym(a, a % m, m);
  }

  lemma CongUnique(a: int, b: int, m: int)
    requires m > 0 && 0 <= a < m && 0 <= b < m && Cong(a, b, m)
    ensures a == b
  {
    var k := CongBy(a, b, m);
    if k >= 1 {
      MulMono(1, k, m);
    } else if k <= -1 {
      MulMono(k, -1, m);
    }
  }

  /** Congruent integers have the same remainder. */
  lemma CongModEq(a: int, b: int, m: int)
    requires m > 0 && Cong(a, b, m)
    ensures a % m == b % m
  {
    CongMod(a, m);
    CongMod(b, m);
    CongTrans(a % m, a, b, m);
    CongTrans(a % m, b, b % m, m);
    CongUnique(a % m, b % m, m);
  }

  lemma CongModZero(a: int, b: int, m: int)
    requires m > 0
    ensures (a - b) % m == 0 <==> Cong(a, b, m)
  {
    var k := (a - b) / m;
    assert a - b == m * k + (a - b) % m;
    if (a - b) % m == 0 {
      CongIntro(a, b, k, m);
    }
    if Cong(a, b, m) {
      DivModUnique(a - b, CongBy(a, b, m), 0, m);
    }
  }

  /** A factor with an inverse cancels. */
  lemma CongCancel(a: int, b: int, r: int, rInv: int, m: int)
    requires m > 0 && Cong(r * rInv, 1, m) && Cong(a * r, b * r, m)
    ensures Cong(a, b, m)
  {
    CongRefl(rInv, m);
    CongRefl(a, m);
    CongRefl(b, m);
    CongMul(a * r, b * r, rInv, rInv, m);
    MulAssoc(a, r, rInv);
    MulAssoc(b, r, rInv);
    CongMul(a, a, r * rInv, 1, m);
    CongMul(b, b, r * rInv, 1, m);
    CongSym(a * (r * rInv), a * 1, m);
    CongTrans(a, a * (r * rInv), b * (r * rInv), m);
    CongTrans(a, b * (r * rInv), b * 1, m);
  }

  lemma {:induction false} CongPow(a: int, b: int, e: nat, m: int)
    requires m > 0 && Cong(a, b, m)
    ensures Cong(Pow(a, e), Pow(b, e), m)
  {
    if e == 0 {
      CongRefl(1, m);
    } else {
      CongPow(a, b, e - 1, m);
      CongMul(a, b, Pow(a, e - 1), Pow(b, e - 1), m);
    }
  }
}
