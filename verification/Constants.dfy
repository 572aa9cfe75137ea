/** The compiled-in curve constants are those of section 5.1 of RFC 8032 and section 3.2.1.3 of NIST SP 800-186. */
module Constants {
  import opened Arith
  import opened Fe25519
  import opened Edwards
  import opened Jacobian
  import Ed25519Signature
  import Scalar25519

  /** B has y = 4/5, and the even one of the two x. */
  lemma EdwardsBase()
    ensures Eq(5 * Ed25519Signature.BASE_Y, 4) && Ed25519Signature.BASE_X % 2 == 0
  {
    PIs();
    CongIntro(5 * Ed25519Signature.BASE_Y, 4, 4, P);
  }

  /** L = 2^252 + 27742317777372353535851937790883648493. */
  lemma EdwardsOrder()
    ensures Scalar25519.L == Pow(2, 252) + 27742317777372353535851937790883648493
  {
    hide Pow;
    TwoTo32();
    PowAdd(2, 28, 224);
    TwoTo224();
    TwoTo28();
  }

  /** p = 2^256 - 2^224 + 2^192 + 2^96 - 1. */
  lemma P256Prime()
    ensures Q == Pow(2, 256) - Pow(2, 224) + Pow(2, 192) + Pow(2, 96) - 1
  {
    hide Pow;
    QIs();
    TwoTo224();
    PowAdd(2, 224, 32);
    TwoTo32();
  }

  lemma TwoTo28()
    ensures Pow(2, 28) == 0x1000_0000
  {
    hide Pow;
    TwoTo32();
    PowAdd(2, 28, 4);
    assert Pow(2, 4) == 16 by { TwoTo4(); }
  }

  lemma TwoTo4()
    ensures Pow(2, 4) == 16
  {
    assert Pow(2, 2) == 4;
  }

  lemma TwoTo32()
    ensures Pow(2, 32) == 0x1_0000_0000
  {
    hide Pow;
    TwoTo4();
    PowAdd(2, 4, 4);
    PowAdd(2, 8, 8);
    PowAdd(2, 16, 16);
  }

  lemma TwoTo224()
    ensures Pow(2, 96) == 0x1_0000_0000_0000_0000_0000_0000
    ensures Pow(2, 192) == 0x1_0000_0000_0000_0000_0000_0000_0000_0000_0000_0000_0000_0000
    ensures Pow(2, 224) == 0x1_0000_0000_0000_0000_0000_0000_0000_0000_0000_0000_0000_0000_0000_0000
  {
    hide Pow;
    TwoTo32();
    PowAdd(2, 32, 32);
    PowAdd(2, 64, 32);
    PowAdd(2, 96, 96);
    PowAdd(2, 192, 32);
  }
}
