/** Base64: what encoding and decoding compute, as numbers in base 64 and base 256. */
module Base64 {
  import opened Arith
  import opened Limbs
  import opened Digits
  import opened Utf8
  import ModExp

  const PAD: u8 := 0x3D

  /** The alphabet of table 1 of RFC 4648. */
  function Char(v: int): (c: u8)
    requires 0 <= v < 64
  {
    if v < 26 then 0x41 + v else if v < 52 then 0x61 + (v - 26) else if v < 62 then 0x30 + (v - 52)
      else if v == 62 then 0x2B else 0x2F
  }

  /** The value of a character, or -1 when it is not in the alphabet. */
  function Sextet(c: u8): (v: int)
    ensures -1 <= v < 64
  {
    if 0x41 <= c <= 0x5A then c - 0x41
    else if 0x61 <= c <= 0x7A then c - 0x61 + 26
    else if 0x30 <= c <= 0x39 then c - 0x30 + 52
    else if c == 0x2B then 62
    else if c == 0x2F then 63
    else -1
  }

  lemma Inverse(v: int, c: u8)
    ensures 0 <= v < 64 ==> Sextet(Char(v)) == v
    ensures Sextet(c) >= 0 ==> Char(Sextet(c)) == c
    ensures Sextet(PAD) == -1
  {
  }

  ghost predicate InAlphabet(s: Bytes) { forall i :: 0 <= i < |s| ==> Sextet(s[i]) >= 0 }

  /** The characters as digits in base 64. */
  ghost function Val64(s: Bytes): (v: int)
  {
    if s == [] then 0 else Val64(s[..|s| - 1]) * 64 + Sextet(s[|s| - 1])
  }

  lemma {:induction false} Val64NonNeg(s: Bytes)
    requires InAlphabet(s)
    ensures Val64(s) >= 0
  {
    if s != [] {
      assert InAlphabet(s[..|s| - 1]);
      Val64NonNeg(s[..|s| - 1]);
    }
  }

  lemma Val64Last(s: Bytes, c: u8)
    ensures Val64(s + [c]) == Val64(s) * 64 + Sextet(c)
  {
    assert (s + [c])[..|s|] == s;
  }

  /** As many digits and the same value: the same characters. */
  lemma {:induction false} Val64Unique(a: Bytes, b: Bytes)
    requires |a| == |b| && InAlphabet(a) && InAlphabet(b) && Val64(a) == Val64(b)
    ensures a == b
  {
    if a != [] {
      var n := |a| - 1;
      assert InAlphabet(a[..n]) && InAlphabet(b[..n]);
      DivModUnique(Val64(a), Val64(a[..n]), Sextet(a[n]), 64);
      DivModUnique(Val64(b), Val64(b[..n]), Sextet(b[n]), 64);
      Val64Unique(a[..n], b[..n]);
      Inverse(0, a[n]);
      Inverse(0, b[n]);
      assert a == a[..n] + [a[n]] && b == b[..n] + [b[n]];
    }
  }

  // ----- encoding

  /** The number three bytes make. */
  function Triple(a: u8, b: u8, c: u8): (t: int)
    ensures 0 <= t < 0x100_0000
  {
    a * 0x1_0000 + b * 0x100 + c
  }

  /** The four characters of 24 bits. */
  function Four(t: int): (r: Bytes)
    requires 0 <= t < 0x100_0000
    ensures |r| == 4
  {
    [Char(t / 0x4_0000 % 64), Char(t / 0x1000 % 64), Char(t / 64 % 64), Char(t % 64)]
  }

  function Quartet(a: u8, b: u8, c: u8): (r: Bytes)
    ensures |r| == 4
  {
    Four(Triple(a, b, c))
  }

  /** The characters that carry the bytes, without padding. */
  function Bare(b: Bytes): (r: Bytes)
  {
    if |b| == 0 then []
    else if |b| == 1 then Quartet(b[0], 0, 0)[..2]
    else if |b| == 2 then Quartet(b[0], b[1], 0)[..3]
    else Quartet(b[0], b[1], b[2]) + Bare(b[3..])
  }

  function Padding(n: nat): Bytes { if n % 3 == 1 then [PAD, PAD] else if n % 3 == 2 then [PAD] else [] }

  function Encode(b: Bytes): Bytes { Bare(b) + Padding(|b|) }

  /** How many bits of the last character carry nothing. */
  function Spare(n: nat): nat { if n % 3 == 1 then 4 else if n % 3 == 2 then 2 else 0 }

  function Weight(bits: nat): int { if bits == 4 then 16 else if bits == 2 then 4 else 1 }

  lemma {:induction false} BareLength(b: Bytes)
    ensures |Bare(b)| == (8 * |b| + 5) / 6
  {
    if |b| >= 3 {
      BareLength(b[3..]);
    }
  }

  lemma OneChar(w: int)
    requires 0 <= w < 64
    ensures Val64([Char(w)]) == w && Sextet(Char(w)) == w
  {
    Inverse(w, 0);
    assert [Char(w)][..0] == [];
  }

  lemma FourChars(w: int, x: int, y: int, z: int)
    requires 0 <= w < 64 && 0 <= x < 64 && 0 <= y < 64 && 0 <= z < 64
    ensures var q := [Char(w), Char(x), Char(y), Char(z)];
            InAlphabet(q) && Val64(q[..2]) == Horner(w, x) && Val64(q[..3]) == Horner(Horner(w, x), y) &&
            Val64(q) == Horner(Horner(Horner(w, x), y), z)
  {
    hide Sextet, Char, Val64;
    var q := [Char(w), Char(x), Char(y), Char(z)];
    OneChar(w);
    OneChar(x);
    OneChar(y);
    OneChar(z);
    assert q[..2] == [q[0]] + [q[1]] && q[..3] == q[..2] + [q[2]] && q == q[..3] + [q[3]];
    Val64Last([q[0]], q[1]);
    Val64Last(q[..2], q[2]);
    Val64Last(q[..3], q[3]);
  }

  lemma TopDigit(t: int)
    requires 0 <= t < 0x100_0000
    ensures t / 0x4_0000 % 64 == t / 0x4_0000
  {
  }

  lemma FourValue(t: int)
    requires 0 <= t < 0x100_0000
    ensures var q := Four(t); InAlphabet(q) && Val64(q) == t && Val64(q[..3]) == t / 64 && Val64(q[..2]) == t / 4096
  {
    SixBits(t);
    TopDigit(t);
    hide Horner, Val64, Char, Sextet, InAlphabet;
    FourChars(t / 0x4_0000 % 64, t / 0x1000 % 64, t / 64 % 64, t % 64);
  }

  lemma QuartetValue(a: u8, b: u8, c: u8)
    ensures var q := Quartet(a, b, c);
            InAlphabet(q) && Val64(q) == Triple(a, b, c) && Val64(q[..3]) == Triple(a, b, c) / 64 &&
              Val64(q[..2]) == Triple(a, b, c) / 4096
  {
    FourValue(Triple(a, b, c));
  }

  lemma {:induction false} Val64Concat(a: Bytes, b: Bytes)
    ensures Val64(a + b) == Val64(a) * Pow(64, |b|) + Val64(b)
  {
    if b == [] {
      assert a + b == a;
    } else {
      var n := |b| - 1;
      assert Pow(64, |b|) == 64 * Pow(64, n);
      hide Val64, Sextet, Pow;
      assert a + b == (a + b[..n]) + [b[n]];
      Val64Concat(a, b[..n]);
      Val64Last(a + b[..n], b[n]);
      Val64Last(b[..n], b[n]);
      assert b == b[..n] + [b[n]];
      Spread(Val64(a), Pow(64, n), Val64(b[..n]), Sextet(b[n]));
    }
  }

  lemma Spread(v: int, p: int, w: int, d: int)
    ensures (v * p + w) * 64 + d == v * (64 * p) + (w * 64 + d)
  {
  }

  lemma {:induction false} Pow64(n: nat)
    ensures Pow(64, 4 * n) == Pow(256, 3 * n)
  {
    if n == 0 {
      assert Pow(64, 0) == Pow(256, 0);
    } else {
      hide Pow;
      Pow64(n - 1);
      PowAdd(64, 4, 4 * (n - 1));
      PowAdd(256, 3, 3 * (n - 1));
      FourSix();
    }
  }

  lemma FourSix()
    ensures Pow(64, 4) == 0x100_0000 == Pow(256, 3) && Pow(64, 3) == 0x4_0000 && Pow(64, 2) == 4096 &&
            Pow(256, 2) == 0x1_0000 && Pow(64, 0) == 1
    ensures Pow(256, 1) == 256
  {
    assert Pow(64, 2) == 64 * (64 * Pow(64, 0));
    assert Pow(64, 4) == 64 * (64 * Pow(64, 2));
    assert Pow(256, 3) == 256 * (256 * (256 * Pow(256, 0)));
  }

  /** The characters, read in base 64, are the bytes, read in base 256, moved up by the spare bits. */
  lemma {:induction false} BareValue(b: Bytes)
    ensures InAlphabet(Bare(b)) && Val64(Bare(b)) == BeVal(b) * Weight(Spare(|b|))
    decreases |b|
  {
    hide BeVal, Quartet, Sextet;
    if |b| == 0 {
      ModExp.BeEmpty();
    } else if |b| == 1 {
      QuartetValue(b[0], 0, 0);
      assert b == [b[0]];
      BeOne(b[0]);
    } else if |b| == 2 {
      QuartetValue(b[0], b[1], 0);
      assert b == [b[0]] + [b[1]];
      BeOne(b[0]);
      ModExp.BeLast([b[0]], b[1]);
    } else {
      BareStep(b);
    }
  }

  lemma BareStep(b: Bytes)
    requires |b| >= 3
    ensures InAlphabet(Bare(b)) && Val64(Bare(b)) == BeVal(b) * Weight(Spare(|b|))
    decreases |b|, 0
  {
    hide *;
    var q, rest := Quartet(b[0], b[1], b[2]), b[3..];
    BareNext(b);
    var n, t := |rest|, Triple(b[0], b[1], b[2]);
    var w := Weight(Spare(n));
    QuartetValue(b[0], b[1], b[2]);
    BareValue(rest);
    JoinAlphabet(q, Bare(rest));
    Val64Concat(q, Bare(rest));
    BareLength(rest);
    TripleValue(b[0], b[1], b[2]);
    assert b[..3] == [b[0], b[1], b[2]];
    BeSplit(b, 3);
    SameSpare(|b|);
    Places(n);
    Scale(t, Pow(256, n), BeVal(rest), w);
  }

  lemma BareNext(b: Bytes)
    requires |b| >= 3
    ensures Bare(b) == Quartet(b[0], b[1], b[2]) + Bare(b[3..])
  {
  }

  lemma SameSpare(n: nat)
    requires n >= 3
    ensures Spare(n) == Spare(n - 3)
  {
  }

  lemma JoinAlphabet(a: Bytes, b: Bytes)
    requires InAlphabet(a) && InAlphabet(b)
    ensures InAlphabet(a + b)
  {
  }

  lemma Scale(t: int, p: int, v: int, w: int)
    ensures t * (p * w) + v * w == (t * p + v) * w
  {
  }

  lemma TripleValue(a: u8, b: u8, c: u8)
    ensures BeVal([a, b, c]) == Triple(a, b, c)
  {
    hide BeVal;
    assert [a, b, c] == ([a] + [b]) + [c];
    ModExp.BeLast([a] + [b], c);
    ModExp.BeLast([a], b);
    BeOne(a);
  }

  /** 64^(characters) = 256^(bytes) 2^(spare bits). */
  lemma Places(n: nat)
    ensures Pow(64, (8 * n + 5) / 6) == Pow(256, n) * Weight(Spare(n))
  {
    var k, r := n / 3, n % 3;
    assert n == 3 * k + r;
    FourSix();
    Pow64(k);
    if r == 0 {
      assert (8 * n + 5) / 6 == 4 * k;
    } else if r == 1 {
      assert (8 * n + 5) / 6 == 4 * k + 2;
      PowAdd(64, 4 * k, 2);
      PowAdd(256, 3 * k, 1);
    } else {
      assert (8 * n + 5) / 6 == 4 * k + 3;
      PowAdd(64, 4 * k, 3);
      PowAdd(256, 3 * k, 2);
    }
  }

  // ----- which strings decode, and to what

  /** s spells b: its encoding, or its encoding with all the padding removed. */
  ghost predicate Spells(s: Bytes, b: Bytes) { s == Encode(b) || s == Bare(b) }

  function PadCount(s: Bytes): (p: nat)
    ensures p <= 2 && p <= |s|
  {
    if |s| == 0 || s[|s| - 1] != PAD then 0 else if |s| == 1 || s[|s| - 2] != PAD then 1 else 2
  }

  /** The string without the one or two padding characters at its end. */
  function Body(s: Bytes): Bytes { s[..|s| - PadCount(s)] }

  /** 2^bits, for the numbers of bits that can be left over. */
  function Two(bits: nat): (w: int)
    ensures w > 0
  {
    if bits == 6 then 64 else if bits == 4 then 16 else if bits == 2 then 4 else 1
  }

  /** The tests the decoder makes: the padding fits the length, every character counts, and no bit is left over. */
  ghost predicate WellFormed(s: Bytes)
  {
    Fits(|Body(s)|, PadCount(s)) && InAlphabet(Body(s)) && Val64(Body(s)) % Two(6 * |Body(s)| % 8) == 0
  }

  predicate Fits(body: nat, pad: nat)
  {
    (pad > 0 ==> (body + pad) % 4 == 0) && body % 4 != 1 && (pad == 1 ==> body % 4 == 3) && (pad == 2 ==> body % 4 == 2)
  }

  lemma Counts(n: nat, k: nat)
    requires k == (8 * n + 5) / 6
    ensures k % 4 != 1 && 6 * k / 8 == n && 6 * k % 8 == Spare(n) && Two(6 * k % 8) == Weight(Spare(n))
    ensures (k % 4 == 2 <==> n % 3 == 1) && (k % 4 == 3 <==> n % 3 == 2)
  {
    var q := n / 3;
    if n % 3 == 0 {
      CountsAt(q, 0, 0, n, k);
    } else if n % 3 == 1 {
      CountsAt(q, 1, 2, n, k);
    } else {
      CountsAt(q, 2, 3, n, k);
    }
  }

  lemma CountsAt(q: nat, r: nat, e: nat, n: nat, k: nat)
    requires (r == 0 && e == 0) || (r == 1 && e == 2) || (r == 2 && e == 3)
    requires n == 3 * q + r && k == (8 * n + 5) / 6
    ensures k == 4 * q + e && k % 4 == e && n % 3 == r && 6 * k / 8 == n && 6 * k % 8 == 2 * ((3 - r) % 3)
  {
    QuartetCount(q, r, e, k);
  }

  /** A body that passes the tests is the bare encoding of the bytes it decodes to. */
  lemma BodyIsBare(body: Bytes, b: Bytes)
    requires InAlphabet(body) && |body| % 4 != 1 && |b| == 6 * |body| / 8 &&
             BeVal(b) * Two(6 * |body| % 8) == Val64(body)
    ensures body == Bare(b)
  {
    hide BeVal, Val64, InAlphabet;
    var n, k := |b|, |body|;
    assert k == (8 * n + 5) / 6 by { CountsBack(n, k); }
    Counts(n, k);
    BareLength(b);
    BareValue(b);
    Val64Unique(body, Bare(b));
  }

  lemma CountsBack(n: nat, k: nat)
    requires k % 4 != 1 && n == 6 * k / 8
    ensures k == (8 * n + 5) / 6
  {
    var q, r := k / 4, k % 4;
    assert k == 4 * q + r;
    assert n == 3 * q + (if r == 0 then 0 else if r == 2 then 1 else 2);
  }

  lemma BareHasNoPad(b: Bytes)
    ensures PadCount(Bare(b)) == 0 && Body(Bare(b)) == Bare(b)
    ensures PadCount(Encode(b)) == |Padding(|b|)| && Body(Encode(b)) == Bare(b)
  {
    hide Bare, Sextet, Val64;
    BareValue(b);
    Inverse(0, 0);
    var s, e := Bare(b), Encode(b);
    BareLength(b);
    assert s[..|s|] == s;
    assert e[..|s|] == s;
    if |b| % 3 == 0 {
      assert e == s;
    }
  }

  /** Decoding accepts exactly the spellings: the encoding and the encoding without its padding. */
  lemma SpellsWellFormed(s: Bytes, b: Bytes)
    requires Spells(s, b)
    ensures WellFormed(s) && |b| == 6 * |Body(s)| / 8 && BeVal(b) * Two(6 * |Body(s)| % 8) == Val64(Body(s))
  {
    hide Bare, Sextet, Val64, BeVal, InAlphabet, Body, PadCount, Encode, Two, Weight, Spare, Fits, Padding;
    BareHasNoPad(b);
    BareValue(b);
    BareLength(b);
    var k := |Bare(b)|;
    Counts(|b|, k);
    WholeQuartets(|b|, k);
    Multiple(BeVal(b), Two(6 * k % 8));
    assert Body(s) == Bare(b);
  }

  lemma WholeQuartets(n: nat, k: nat)
    requires k == (8 * n + 5) / 6
    ensures Fits(k, 0) && Fits(k, |Padding(n)|)
  {
    var q := n / 3;
    if n % 3 == 0 {
      QuartetCount(q, 0, 0, k);
    } else if n % 3 == 1 {
      QuartetCount(q, 1, 2, k);
    } else {
      QuartetCount(q, 2, 3, k);
    }
  }

  lemma QuartetCount(q: nat, r: nat, e: nat, k: nat)
    requires (r == 0 && e == 0) || (r == 1 && e == 2) || (r == 2 && e == 3)
    requires k == (8 * (3 * q + r) + 5) / 6
    ensures k == 4 * q + e && k % 4 == e
  {
  }

  lemma Multiple(v: int, w: int)
    requires w > 0
    ensures (v * w) % w == 0
  {
    DivModUnique(v * w, v, 0, w);
  }

  lemma WellFormedSpells(s: Bytes, b: Bytes)
    requires WellFormed(s) && |b| == 6 * |Body(s)| / 8 && BeVal(b) * Two(6 * |Body(s)| % 8) == Val64(Body(s))
    ensures Spells(s, b)
  {
    hide Bare, Sextet, Val64, BeVal, InAlphabet;
    BodyIsBare(Body(s), b);
    BareLength(b);
    Counts(|b|, |Body(s)|);
    SplitPad(s);
    if PadCount(s) == 0 {
      assert s == Bare(b);
    } else {
      assert s == Encode(b);
    }
  }

  lemma SplitPad(s: Bytes)
    ensures PadCount(s) == 0 ==> s == Body(s)
    ensures PadCount(s) == 1 ==> s == Body(s) + [PAD]
    ensures PadCount(s) == 2 ==> s == Body(s) + [PAD, PAD]
  {
  }

  /** No string spells two byte strings. */
  lemma SpellsUnique(s: Bytes, b: Bytes, c: Bytes)
    requires Spells(s, b) && Spells(s, c)
    ensures b == c
  {
    hide Spells, WellFormed, BeVal, Val64;
    SpellsWellFormed(s, b);
    SpellsWellFormed(s, c);
    CancelWeight(BeVal(b), BeVal(c), Two(6 * |Body(s)| % 8));
    BeUnique(b, c);
  }

  lemma CancelWeight(x: int, y: int, w: int)
    requires w > 0 && x * w == y * w
    ensures x == y
  {
    DivModUnique(x * w, x, 0, w);
    DivModUnique(y * w, y, 0, w);
  }

  // ----- tamga_base64_decode

  /** Room for what so many characters can decode to. */
  function Capacity(n: nat): nat { (n + 3) / 4 * 3 }

  /** After i characters: how many bits wait, how many bytes are out, and what both say. */
  ghost predicate Decoding(s: Bytes, i: nat, accum: int, bits: nat, out: Bytes)
  {
    i <= |s| && InAlphabet(s[..i]) && bits == 6 * i % 8 && |out| == 6 * i / 8 &&
    accum == Val64(s[..i]) % W && BeVal(out) == Val64(s[..i]) / Two(bits)
  }

  lemma DecodingStart(s: Bytes)
    ensures Decoding(s, 0, 0, 0, [])
  {
    assert s[..0] == [];
  }

  function Shifted(accum: int, d: int): int { (accum * 64 + d) % W }

  lemma DecodingStep(s: Bytes, i: nat, accum: int, bits: nat, out: Bytes)
    requires Decoding(s, i, accum, bits, out) && i < |s| && Sextet(s[i]) >= 0
    ensures var a := Shifted(accum, Sextet(s[i]));
            if bits + 6 >= 8 then bits >= 2 && Decoding(s, i + 1, a, bits - 2, out + [a / Two(bits - 2) % 256])
            else Decoding(s, i + 1, a, bits + 6, out)
  {
    hide BeVal, Sextet;
    var v, d := Val64(s[..i]), Sextet(s[i]);
    assert s[..i + 1] == s[..i] + [s[i]];
    Val64Last(s[..i], s[i]);
    Val64NonNeg(s[..i]);
    hide Val64;
    var a := Shifted(accum, d);
    AccumStep(v, d, accum);
    BitCounts(i);
    if bits + 6 >= 8 {
      ByteStep(v, d, bits);
      ModExp.BeLast(out, a / Two(bits - 2) % 256);
    } else {
      DivModUnique(v * 64 + d, v, d, 64);
    }
  }

  lemma BitCounts(i: nat)
    ensures var b := 6 * i % 8;
            (b == 0 || b == 2 || b == 4 || b == 6) &&
            6 * (i + 1) % 8 == (if b >= 2 then b - 2 else b + 6) &&
            6 * (i + 1) / 8 == 6 * i / 8 + (if b >= 2 then 1 else 0)
  {
    var q := i / 4;
    if i % 4 == 0 {
      SixTimes(i, q, 0, 0, 0);
      SixTimes(i + 1, q, 1, 0, 6);
    } else if i % 4 == 1 {
      SixTimes(i, q, 1, 0, 6);
      SixTimes(i + 1, q, 2, 1, 4);
    } else if i % 4 == 2 {
      SixTimes(i, q, 2, 1, 4);
      SixTimes(i + 1, q, 3, 2, 2);
    } else {
      SixTimes(i, q, 3, 2, 2);
      SixTimes(i + 1, q + 1, 0, 0, 0);
    }
  }

  lemma SixTimes(i: nat, q: nat, r: nat, c: nat, b: nat)
    requires i == 4 * q + r && 6 * r == 8 * c + b && b < 8
    ensures 6 * i / 8 == 3 * q + c && 6 * i % 8 == b
  {
    DivModUnique(6 * i, 3 * q + c, b, 8);
  }

  lemma AccumStep(v: int, d: int, accum: int)
    requires accum == v % W
    ensures Shifted(accum, d) == (v * 64 + d) % W
  {
    CongMod(v, W);
    CongRefl(64, W);
    CongMul(v % W, v, 64, 64, W);
    CongRefl(d, W);
    CongAdd((v % W) * 64, v * 64, d, d, W);
    CongModEq((v % W) * 64 + d, v * 64 + d, W);
  }

  /** The eight bits that come out are the next byte of the number. */
  lemma ByteStep(v: int, d: int, bits: nat)
    requires v >= 0 && 0 <= d < 64 && (bits == 2 || bits == 4 || bits == 6)
    ensures var t := v * 64 + d; t / Two(bits - 2) == v / Two(bits) * 256 + (t % W) / Two(bits - 2) % 256
  {
    var t, w, x := v * 64 + d, Two(bits - 2), Two(bits);
    var h, r := v / x, v % x;
    assert x == 4 * w && v == h * x + r;
    var e := 64 * r + d;
    assert t == (h * 256) * w + e by { Rearrange(h, w, x, v, d, r); }
    var y := e / w;
    assert 0 <= y < 256 by { Small(e, w, r, x, d); }
    DivModUnique(t, h * 256 + y, e % w, w);
    LowBits(t, w, h, y, e % w);
  }

  lemma Rearrange(h: int, w: int, x: int, v: int, d: int, r: int)
    requires x == 4 * w && v == h * x + r
    ensures v * 64 + d == (h * 256) * w + (64 * r + d)
  {
    assert h * x == 4 * (h * w);
  }

  lemma Small(e: int, w: int, r: int, x: int, d: int)
    requires (w == 1 || w == 4 || w == 16) && x == 4 * w && 0 <= r < x && 0 <= d < 64 && e == 64 * r + d
    ensures 0 <= e / w < 256
  {
    if w == 1 {
    } else if w == 4 {
    } else {
    }
  }

  /** The low bits of t do not depend on what was shifted out of the accumulator. */
  lemma LowBits(t: int, w: int, h: int, y: int, z: int)
    requires (w == 1 || w == 4 || w == 16) && t == (h * 256 + y) * w + z && 0 <= y < 256 && 0 <= z < w && t >= 0 &&
             h >= 0
    ensures (t % W) / w % 256 == y
  {
    var f := if w == 1 then 0x100_0000 else if w == 4 then 0x40_0000 else 0x10_0000;
    var c, q := 256 * f, h * 256 + y;
    var k := WordQuotient(t, w, c, q, z);
    ByteLeft(q, h, y, k, f);
  }

  lemma WordQuotient(t: int, w: int, c: int, q: int, z: int) returns (k: int)
    requires w > 0 && c * w == W && t == q * w + z && 0 <= z < w
    ensures (t % W) / w == q - k * c
  {
    k := t / W;
    MulAssoc(k, c, w);
    MulDist(w, q, -(k * c));
    DivModUnique(t % W, q - k * c, z, w);
  }

  lemma ByteLeft(q: int, h: int, y: int, k: int, f: int)
    requires q == h * 256 + y && 0 <= y < 256
    ensures (q - k * (256 * f)) % 256 == y
  {
    MulSwap(k, 256, f);
    DivModUnique(q - k * (256 * f), h - k * f, y, 256);
  }

  /** How many padding characters are at the end, two at most. */
  method MeasurePad(s: Bytes) returns (body: nat, pad: nat)
    ensures pad == PadCount(s) && body == |s| - pad
  {
    body, pad := |s|, 0;
    while pad < 2 && body > 0 && s[body - 1] == PAD
      invariant body + pad == |s| && pad <= 2
      invariant forall k :: body <= k < |s| ==> s[k] == PAD
      decreases 2 - pad
    {
      pad := pad + 1;
      body := body - 1;
    }
  }

  /** Whether the accumulated bits that no byte took are all zero. */
  lemma Leftover(v: int, accum: int, bits: nat)
    requires accum == v % W && (bits == 0 || bits == 2 || bits == 4 || bits == 6)
    ensures accum % Two(bits) == v % Two(bits)
  {
    var w, c, k := Two(bits), W / Two(bits), v / W;
    assert c * w == W && v == k * W + accum;
    MulAssoc(k, c, w);
    var q, r := accum / w, accum % w;
    MulDist(w, k * c, q);
    DivModUnique(v, k * c + q, r, w);
  }

  lemma OutFits(i: nat, n: nat)
    requires i < n
    ensures 6 * i / 8 < Capacity(n)
  {
  }

  /** The characters of the body, one sextet after another. */
  method DecodeBody(s: Bytes, body: nat, out: array<u8>) returns (ok: bool, written: nat, accum: int, bits: nat)
    requires body <= |s| && Capacity(|s|) <= out.Length
    modifies out
    ensures ok <==> InAlphabet(s[..body])
    ensures ok ==> written <= out.Length && Decoding(s, body, accum, bits, out[..written])
    ensures out[Capacity(|s|)..] == old(out[Capacity(|s|)..])
  {
    hide Decoding, Sextet, Capacity;
    written, accum, bits := 0, 0, 0;
    ghost var after := out[Capacity(|s|)..];
    var i := 0;
    DecodingStart(s);
    assert out[..0] == [];
    while i < body
      invariant 0 <= i <= body && written <= out.Length
      invariant Decoding(s, i, accum, bits, out[..written])
      invariant out[Capacity(|s|)..] == after
    {
      var d := Sextet(s[i]);
      if d < 0 {
        NotInAlphabet(s, i, body);
        return false, 0, 0, 0;
      }
      ghost var done := out[..written];
      DecodingStep(s, i, accum, bits, done);
      DecodingRoom(s, i, accum, bits, done);
      accum := Shifted(accum, d);
      bits := bits + 6;
      if bits >= 8 {
        bits := bits - 8;
        out[written] := accum / Two(bits) % 256;
        written := written + 1;
        assert out[..written] == done + [out[written - 1]];
      }
      i := i + 1;
    }
    DecodingAlphabet(s, body, accum, bits, out[..written]);
    ok := true;
  }

  lemma NotInAlphabet(s: Bytes, i: nat, body: nat)
    requires i < body <= |s| && Sextet(s[i]) < 0
    ensures !InAlphabet(s[..body])
  {
    assert s[..body][i] == s[i];
  }

  lemma DecodingRoom(s: Bytes, i: nat, accum: int, bits: nat, out: Bytes)
    requires Decoding(s, i, accum, bits, out) && i < |s|
    ensures |out| < Capacity(|s|)
  {
    OutFits(i, |s|);
  }

  lemma DecodingAlphabet(s: Bytes, i: nat, accum: int, bits: nat, out: Bytes)
    requires Decoding(s, i, accum, bits, out)
    ensures InAlphabet(s[..i])
  {
  }

  /** Decodes s: accepted exactly when it spells some bytes, and then those are what is written. */
  method Decode(s: Bytes, out: array<u8>) returns (ok: bool, outLen: nat)
    requires Capacity(|s|) <= out.Length
    modifies out
    ensures ok ==> outLen <= out.Length && Spells(s, out[..outLen])
    ensures !ok ==> forall b :: !Spells(s, b)
    ensures out[Capacity(|s|)..] == old(out[Capacity(|s|)..])
  {
    hide Decoding, Sextet, Capacity, Spells, InAlphabet, WellFormed, Fits;
    outLen := 0;
    if |s| == 0 {
      EmptySpells(s);
      assert out[..0] == [];
      return true, 0;
    }
    var body, pad := MeasurePad(s);
    assert s[..body] == Body(s);
    Tests(s);
    if !Fits(body, pad) {
      Refuse(s);
      return false, 0;
    }
    var written, accum, bits;
    ok, written, accum, bits := DecodeBody(s, body, out);
    if !ok {
      Refuse(s);
      return false, 0;
    }
    LeftoverTest(s, accum, bits, out[..written]);
    if accum % Two(bits) != 0 {
      Refuse(s);
      return false, 0;
    }
    return true, written;
  }

  lemma Tests(s: Bytes)
    ensures WellFormed(s) ==> Fits(|Body(s)|, PadCount(s)) && InAlphabet(Body(s))
  {
  }

  lemma EmptySpells(s: Bytes)
    requires |s| == 0
    ensures Spells(s, [])
  {
  }

  lemma Refuse(s: Bytes)
    requires !WellFormed(s)
    ensures forall b :: !Spells(s, b)
  {
    hide WellFormed, Spells;
    forall b
      ensures !Spells(s, b)
    {
      if Spells(s, b) {
        SpellsWellFormed(s, b);
      }
    }
  }

  lemma LeftoverTest(s: Bytes, accum: int, bits: nat, out: Bytes)
    requires Decoding(s, |Body(s)|, accum, bits, out) && Fits(|Body(s)|, PadCount(s))
    ensures accum % Two(bits) == 0 ==> Spells(s, out)
    ensures accum % Two(bits) != 0 ==> !WellFormed(s)
  {
    hide Val64, BeVal, Spells, Fits, InAlphabet;
    var body := Body(s);
    assert s[..|body|] == body;
    BitCounts(|body|);
    Leftover(Val64(body), accum, bits);
    if accum % Two(bits) == 0 {
      var w, v := Two(bits), Val64(body);
      assert v == v / w * w + v % w;
      WellFormedSpells(s, out);
    }
  }

  // ----- tamga_base64_encode

  function EncodedLength(n: nat): nat { (n + 2) / 3 * 4 }

  lemma {:induction false} EncodeLength(b: Bytes)
    ensures |Encode(b)| == EncodedLength(|b|)
  {
    hide Encode, Quartet;
    if |b| >= 3 {
      EncodeNext(b);
      EncodeLength(b[3..]);
    } else {
      EncodeTail(b);
    }
  }

  /** Writes four characters. */
  method PutFour(q: Bytes, out: array<u8>, o: nat)
    requires |q| == 4 && o + 4 <= out.Length
    modifies out
    ensures out[..o + 4] == old(out[..o]) + q && out[o + 4..] == old(out[o + 4..])
  {
    ghost var done, after := out[..o], out[o + 4..];
    out[o], out[o + 1], out[o + 2], out[o + 3] := q[0], q[1], q[2], q[3];
    assert out[..o + 4] == done + q;
    assert out[o + 4..] == after;
  }

  lemma EncodeNext(b: Bytes)
    requires |b| >= 3
    ensures Encode(b) == Quartet(b[0], b[1], b[2]) + Encode(b[3..])
  {
    assert |b[3..]| % 3 == |b| % 3;
  }

  lemma EncodeTail(b: Bytes)
    ensures |b| == 1 ==> Encode(b) == Quartet(b[0], 0, 0)[..2] + [PAD, PAD]
    ensures |b| == 2 ==> Encode(b) == Quartet(b[0], b[1], 0)[..3] + [PAD]
    ensures |b| == 0 ==> Encode(b) == []
  {
  }

  /** Encodes b and ends the string with a NUL. */
  method EncodeInto(b: Bytes, out: array<u8>)
    requires EncodedLength(|b|) + 1 <= out.Length
    modifies out
    ensures out[..EncodedLength(|b|)] == Encode(b) && out[EncodedLength(|b|)] == 0
    ensures out[EncodedLength(|b|) + 1..] == old(out[EncodedLength(|b|) + 1..])
  {
    hide Encode, Quartet, EncodedLength;
    ghost var n, whole := EncodedLength(|b|), Encode(b);
    EncodeLength(b);
    ghost var after := out[n + 1..];
    var i, o := 0, 0;
    assert b[0..] == b && out[..0] == [];
    while |b| - i >= 3
      invariant 0 <= i <= |b| && o <= n && out[..o] + Encode(b[i..]) == whole && out[n + 1..] == after
      decreases |b| - i
    {
      ghost var left := b[i..];
      EncodeNext(left);
      assert left[3..] == b[i + 3..];
      PutFour(Quartet(b[i], b[i + 1], b[i + 2]), out, o);
      assert out[n + 1..] == out[o + 4..][n + 1 - o - 4..];
      i := i + 3;
      o := o + 4;
    }
    EncodeTail(b[i..]);
    if |b| - i == 1 {
      PutFour(Quartet(b[i], 0, 0)[..2] + [PAD, PAD], out, o);
      assert out[n + 1..] == out[o + 4..][n + 1 - o - 4..];
      o := o + 4;
    } else if |b| - i == 2 {
      PutFour(Quartet(b[i], b[i + 1], 0)[..3] + [PAD], out, o);
      assert out[n + 1..] == out[o + 4..][n + 1 - o - 4..];
      o := o + 4;
    }
    assert out[..o] == whole;
    out[o] := 0;
    assert out[..o] == whole && out[n + 1..] == after;
  }

  /** Decoding an encoding gives the bytes back, padded or not. */
  lemma RoundTrip(b: Bytes)
    ensures Spells(Encode(b), b) && Spells(Bare(b), b)
    ensures forall c :: Spells(Encode(b), c) ==> c == b
    ensures forall c :: Spells(Bare(b), c) ==> c == b
  {
    forall c | Spells(Encode(b), c)
      ensures c == b
    {
      SpellsUnique(Encode(b), b, c);
    }
    forall c | Spells(Bare(b), c)
      ensures c == b
    {
      SpellsUnique(Bare(b), b, c);
    }
  }
}
