/** The constants of P-256 as the byte tables hold them. */
module P256Constants {
  import opened Arith
  import opened Limbs
  import opened Digits
  import opened Fe25519
  import opened Jacobian
  import opened P256Field

  /** The order of the base point. */
  const N: Modulus := (NLimbs(); Val(N_LIMBS))

  lemma NLimbs()
    ensures Val(N_LIMBS) == 0xffff_ffff_0000_0000_ffff_ffff_ffff_ffff_bce6_faad_a717_9e84_f3b9_cac2_fc63_2551
  {
    Val8(N_LIMBS);
    Weights();
  }

  lemma NIs()
    ensures N == 0xffff_ffff_0000_0000_ffff_ffff_ffff_ffff_bce6_faad_a717_9e84_f3b9_cac2_fc63_2551
  {
    NLimbs();
  }

  const GX: int := 0x6b17_d1f2_e12c_4247_f8bc_e6e5_63a4_40f2_7703_7d81_2deb_33a0_f4a1_3945_d898_c296
  const GY: int := 0x4fe3_42e2_fe1a_7f9b_8ee7_eb4a_7c0f_9e16_2bce_3357_6b31_5ece_cbb6_4068_37bf_51f5

  const P_BYTES: seq<u8> := [
    0xff, 0xff, 0xff, 0xff, 0x00, 0x00, 0x00, 0x01, 0x00, 0x00, 0x00, 0x00, 0x00, 0x00, 0x00, 0x00,
    0x00, 0x00, 0x00, 0x00, 0xff, 0xff, 0xff, 0xff, 0xff, 0xff, 0xff, 0xff, 0xff, 0xff, 0xff, 0xff]

  const N_BYTES: seq<u8> := [
    0xff, 0xff, 0xff, 0xff, 0x00, 0x00, 0x00, 0x00, 0xff, 0xff, 0xff, 0xff, 0xff, 0xff, 0xff, 0xff,
    0xbc, 0xe6, 0xfa, 0xad, 0xa7, 0x17, 0x9e, 0x84, 0xf3, 0xb9, 0xca, 0xc2, 0xfc, 0x63, 0x25, 0x51]

  const B_BYTES: seq<u8> := [
    0x5a, 0xc6, 0x35, 0xd8, 0xaa, 0x3a, 0x93, 0xe7, 0xb3, 0xeb, 0xbd, 0x55, 0x76, 0x98, 0x86, 0xbc,
    0x65, 0x1d, 0x06, 0xb0, 0xcc, 0x53, 0xb0, 0xf6, 0x3b, 0xce, 0x3c, 0x3e, 0x27, 0xd2, 0x60, 0x4b]

  const GX_BYTES: seq<u8> := [
    0x6b, 0x17, 0xd1, 0xf2, 0xe1, 0x2c, 0x42, 0x47, 0xf8, 0xbc, 0xe6, 0xe5, 0x63, 0xa4, 0x40, 0xf2,
    0x77, 0x03, 0x7d, 0x81, 0x2d, 0xeb, 0x33, 0xa0, 0xf4, 0xa1, 0x39, 0x45, 0xd8, 0x98, 0xc2, 0x96]

  const GY_BYTES: seq<u8> := [
    0x4f, 0xe3, 0x42, 0xe2, 0xfe, 0x1a, 0x7f, 0x9b, 0x8e, 0xe7, 0xeb, 0x4a, 0x7c, 0x0f, 0x9e, 0x16,
    0x2b, 0xce, 0x33, 0x57, 0x6b, 0x31, 0x5e, 0xce, 0xcb, 0xb6, 0x40, 0x68, 0x37, 0xbf, 0x51, 0xf5]

  const N_LIMBS: seq<u32> := [
    0xfc63_2551, 0xf3b9_cac2, 0xa717_9e84, 0xbce6_faad,
    0xffff_ffff, 0xffff_ffff, 0x0000_0000, 0xffff_ffff]
  const GX_LIMBS: seq<u32> := [
    0xd898_c296, 0xf4a1_3945, 0x2deb_33a0, 0x7703_7d81,
    0x63a4_40f2, 0xf8bc_e6e5, 0xe12c_4247, 0x6b17_d1f2]
  const GY_LIMBS: seq<u32> := [
    0x37bf_51f5, 0xcbb6_4068, 0x6b31_5ece, 0x2bce_3357,
    0x7c0f_9e16, 0x8ee7_eb4a, 0xfe1a_7f9b, 0x4fe3_42e2]

  /** Four bytes from position k on, the most significant first. */
  function BeQuad(s: seq<u8>, k: nat): (x: int)
    requires k + 4 <= |s|
  {
    0x100_0000 * s[k] as int + 0x1_0000 * s[k + 1] as int + 0x100 * s[k + 2] as int + s[k + 3] as int
  }

  lemma Be32(s: seq<u8>, limbs: seq<u32>)
    requires |s| == 32 && |limbs| == 8
    requires forall i :: 0 <= i < 8 ==> BeQuad(s, 28 - 4 * i) == limbs[i]
    ensures BeVal(s) == Val(limbs)
  {
    hide BeVal, Val, BeLimb;
    EmptyValues();
    assert s[32..] == [] && limbs[..0] == [];
    var i := 0;
    while i < 8
      invariant 0 <= i <= 8
      invariant Val(limbs[..i]) == BeVal(s[32 - 4 * i..])
    {
      assert BeQuad(s, 28 - 4 * i) == limbs[i];
      Be4(s[28 - 4 * i..32 - 4 * i]);
      BeLimbStep(s, limbs[..i], i);
      assert limbs[..i + 1] == limbs[..i] + [limbs[i]];
      i := i + 1;
    }
    assert s[0..] == s && limbs[..8] == limbs;
  }

  lemma PBytes()
    ensures |P_BYTES| == 32 && BeVal(P_BYTES) == Val(Q_LIMBS)
  {
    hide BeVal, Val;
    forall i | 0 <= i < 8
      ensures BeQuad(P_BYTES, 28 - 4 * i) == Q_LIMBS[i]
    {
      if i < 4 {
        assert i == 0 || i == 1 || i == 2 || i == 3;
      } else {
        assert i == 4 || i == 5 || i == 6 || i == 7;
      }
    }
    Be32(P_BYTES, Q_LIMBS);
  }

  lemma NBytes()
    ensures |N_BYTES| == 32 && BeVal(N_BYTES) == Val(N_LIMBS)
  {
    hide BeVal, Val;
    forall i | 0 <= i < 8
      ensures BeQuad(N_BYTES, 28 - 4 * i) == N_LIMBS[i]
    {
      if i < 4 {
        assert i == 0 || i == 1 || i == 2 || i == 3;
      } else {
        assert i == 4 || i == 5 || i == 6 || i == 7;
      }
    }
    Be32(N_BYTES, N_LIMBS);
  }

  lemma BBytes()
    ensures |B_BYTES| == 32 && BeVal(B_BYTES) == Val(B_LIMBS)
  {
    hide BeVal, Val;
    forall i | 0 <= i < 8
      ensures BeQuad(B_BYTES, 28 - 4 * i) == B_LIMBS[i]
    {
      if i < 4 {
        assert i == 0 || i == 1 || i == 2 || i == 3;
      } else {
        assert i == 4 || i == 5 || i == 6 || i == 7;
      }
    }
    Be32(B_BYTES, B_LIMBS);
  }

  lemma GXBytes()
    ensures |GX_BYTES| == 32 && BeVal(GX_BYTES) == Val(GX_LIMBS)
  {
    hide BeVal, Val;
    forall i | 0 <= i < 8
      ensures BeQuad(GX_BYTES, 28 - 4 * i) == GX_LIMBS[i]
    {
      if i < 4 {
        assert i == 0 || i == 1 || i == 2 || i == 3;
      } else {
        assert i == 4 || i == 5 || i == 6 || i == 7;
      }
    }
    Be32(GX_BYTES, GX_LIMBS);
  }

  lemma GYBytes()
    ensures |GY_BYTES| == 32 && BeVal(GY_BYTES) == Val(GY_LIMBS)
  {
    hide BeVal, Val;
    forall i | 0 <= i < 8
      ensures BeQuad(GY_BYTES, 28 - 4 * i) == GY_LIMBS[i]
    {
      if i < 4 {
        assert i == 0 || i == 1 || i == 2 || i == 3;
      } else {
        assert i == 4 || i == 5 || i == 6 || i == 7;
      }
    }
    Be32(GY_BYTES, GY_LIMBS);
  }

  lemma LimbValues()
    ensures Val(Q_LIMBS) == Q && Val(N_LIMBS) == N && Val(B_LIMBS) == CURVE_B && Val(GX_LIMBS) == GX &&
            Val(GY_LIMBS) == GY
  {
    hide Val, B;
    Weights();
    Val8(Q_LIMBS);
    Val8(N_LIMBS);
    Val8(B_LIMBS);
    Val8(GX_LIMBS);
    Val8(GY_LIMBS);
  }

  lemma Tables()
    ensures |P_BYTES| == |N_BYTES| == |B_BYTES| == |GX_BYTES| == |GY_BYTES| == 32
    ensures BeVal(P_BYTES) == Q && BeVal(N_BYTES) == N && BeVal(B_BYTES) == CURVE_B && BeVal(GX_BYTES) == GX &&
            BeVal(GY_BYTES) == GY
  {
    hide *;
    LimbValues();
    PBytes();
    NBytes();
    BBytes();
    GXBytes();
    GYBytes();
  }

  lemma Ranges()
    ensures 0 < CURVE_B < Q && GX < Q && GY < Q
  {
    QIs();
    BIs();
  }

  /** The base point is on the curve. */
  lemma BasePoint()
    ensures OnCurve(Jac(GX, GY, 1))
  {
    QIs();
    BIs();
    CongIntro(GY * GY, Cubic(GX, 1),
      -981570988164258562257936101525215858910690391106138407341175333813841188485201771743408849884010754226965632845910189239885256093057339116530079505515608, Q);
  }
}
