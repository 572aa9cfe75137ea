/** What a Montgomery residue stands for. Shared by the RSA and the P-256 arithmetic. */
module Montgomery {
  import opened Arith
  import opened Limbs
  import opened Bn

  /** An inverse of 2^(32n) modulo an odd m: half of m + 1, to the power 32n. */
  ghost function RInv(m: int, n: nat): (r: int)
    requires m > 0
  {
    Pow((m + 1) / 2, 32 * n)
  }

  lemma {:induction false} PowInverse(a: int, b: int, k: nat, m: int)
    requires m > 0 && Cong(a * b, 1, m)
    ensures Cong(Pow(a, k) * Pow(b, k), 1, m)
  {
    if k == 0 {
      CongRefl(1, m);
    } else {
      PowInverse(a, b, k - 1, m);
      var p, q := Pow(a, k - 1), Pow(b, k - 1);
      CongMul(a * b, 1, p * q, 1, m);
      assert (a * p) * (b * q) == (a * b) * (p * q) by {
        MulAssoc(a, p, b * q);
        MulSwap(p, b, q);
        MulAssoc(a, b, p * q);
      }
    }
  }

  lemma RInvIsInverse(m: int, n: nat)
    requires m > 0 && m % 2 == 1
    ensures Cong(B(n) * RInv(m, n), 1, m)
  {
    var h := (m + 1) / 2;
    assert 2 * h == m + 1;
    CongIntro(2 * h, 1, 1, m);
    PowInverse(2, h, 32 * n, m);
    BIsPow2(n);
  }

  /** x is the residue that the arithmetic keeps in place of v. */
  ghost predicate MontForm(x: int, v: int, m: int, n: nat)
  {
    0 <= x < m && Cong(x, v * B(n), m)
  }

  /** Montgomery multiplication multiplies what the residues stand for. */
  lemma MontMulForm(r: int, x: int, y: int, v: int, w: int, m: int, n: nat)
    requires m > 0 && m % 2 == 1
    requires MontForm(x, v, m, n) && MontForm(y, w, m, n) && MontProduct(r, x, y, m, n)
    ensures MontForm(r, v * w, m, n)
  {
    hide B, RInv, Cong;
    var R := B(n);
    CongMul(x, v * R, y, w * R, m);
    CongTrans(r * R, x * y, (v * R) * (w * R), m);
    assert (v * R) * (w * R) == ((v * w) * R) * R by {
      MulAssoc(v * R, w, R);
      assert (v * R) * w == (v * w) * R;
    }
    RInvIsInverse(m, n);
    CongCancel(r, (v * w) * R, R, RInv(m, n), m);
  }

  /** Multiplying by 2^(64n) mod m brings a number into Montgomery form. */
  lemma MontEnter(r: int, x: int, rr: int, m: int, n: nat)
    requires m > 0 && m % 2 == 1
    requires Cong(rr, B(n) * B(n), m) && MontProduct(r, x, rr, m, n)
    ensures MontForm(r, x, m, n)
  {
    hide B, RInv, Cong;
    var R := B(n);
    CongRefl(x, m);
    CongMul(x, x, rr, R * R, m);
    CongTrans(r * R, x * rr, x * (R * R), m);
    MulAssoc(x, R, R);
    RInvIsInverse(m, n);
    CongCancel(r, x * R, R, RInv(m, n), m);
  }

  /** Multiplying by 1 takes it out again. */
  lemma MontLeave(r: int, x: int, v: int, m: int, n: nat)
    requires m > 0 && m % 2 == 1
    requires MontForm(x, v, m, n) && MontProduct(r, x, 1, m, n)
    ensures r == v % m
  {
    hide B, RInv, Cong;
    CongTrans(r * B(n), x * 1, v * B(n), m);
    RInvIsInverse(m, n);
    CongCancel(r, v, B(n), RInv(m, n), m);
    CongModEq(r, v, m);
    DivModUnique(r, 0, r, m);
  }

  /** What 2^(32n) mod m is when the top bit of m is set: 2^(32n) - m. */
  lemma ROne(m: int, n: nat)
    requires m % 2 == 1 && 0 < m < B(n) && B(n) <= 2 * m
    ensures MontForm(B(n) - m, 1, m, n)
  {
    BIsPow2(n);
    if n > 0 {
      assert Pow(2, 32 * n) == 2 * Pow(2, 32 * n - 1);
    }
    CongIntro(B(n) - m, 1 * B(n), -1, m);
  }

  /** A residue determines the number it stands for modulo m. */
  lemma MontFormUnique(x: int, v: int, w: int, m: int, n: nat)
    requires m > 0 && m % 2 == 1
    requires MontForm(x, v, m, n) && MontForm(x, w, m, n)
    ensures Cong(v, w, m)
  {
    hide B, RInv, Cong;
    CongSym(x, v * B(n), m);
    CongTrans(v * B(n), x, w * B(n), m);
    RInvIsInverse(m, n);
    CongCancel(v, w, B(n), RInv(m, n), m);
  }
}
