/** The spellings of a byte string in base64, from the alphabet as it is printed in table 1 of RFC 4648. */
module Base64Exact {
  import opened Arith
  import opened Limbs
  import opened Digits
  import opened Utf8
  import opened Base64

  const ALPHABET: string := "ABCDEFGHIJKLMNOPQRSTUVWXYZ" + "abcdefghijklmnopqrstuvwxyz" + "0123456789+/"

  lemma AlphabetSize()
    ensures |ALPHABET| == 64
  {
  }

  lemma FirstCapitals(v: int)
    requires 0 <= v < 13
    ensures ALPHABET[v] as int == 0x41 + v
  {
    assert v == 0 || v == 1 || v == 2 || v == 3 || v == 4 || v == 5 || v == 6 || v == 7 || v == 8 || v == 9 ||
           v == 10 || v == 11 || v == 12;
  }

  lemma LastCapitals(v: int)
    requires 13 <= v < 26
    ensures ALPHABET[v] as int == 0x41 + v
  {
    assert v == 13 || v == 14 || v == 15 || v == 16 || v == 17 || v == 18 || v == 19 || v == 20 || v == 21 ||
           v == 22 || v == 23 || v == 24 || v == 25;
  }

  lemma FirstSmall(v: int)
    requires 26 <= v < 39
    ensures ALPHABET[v] as int == 0x61 + (v - 26)
  {
    assert v == 26 || v == 27 || v == 28 || v == 29 || v == 30 || v == 31 || v == 32 || v == 33 || v == 34 ||
           v == 35 || v == 36 || v == 37 || v == 38;
  }

  lemma LastSmall(v: int)
    requires 39 <= v < 52
    ensures ALPHABET[v] as int == 0x61 + (v - 26)
  {
    assert v == 39 || v == 40 || v == 41 || v == 42 || v == 43 || v == 44 || v == 45 || v == 46 || v == 47 ||
           v == 48 || v == 49 || v == 50 || v == 51;
  }

  lemma Others(v: int)
    requires 52 <= v < 64
    ensures ALPHABET[v] as int == if v < 62 then 0x30 + (v - 52) else if v == 62 then 0x2B else 0x2F
  {
    assert v == 52 || v == 53 || v == 54 || v == 55 || v == 56 || v == 57 || v == 58 || v == 59 || v == 60 ||
           v == 61 || v == 62 || v == 63;
  }

  lemma AlphabetIs(v: int)
    requires 0 <= v < 64
    ensures |ALPHABET| == 64 && Char(v) == ALPHABET[v] as int
  {
    hide ALPHABET;
    AlphabetSize();
    if v < 13 {
      FirstCapitals(v);
    } else if v < 26 {
      LastCapitals(v);
    } else if v < 39 {
      FirstSmall(v);
    } else if v < 52 {
      LastSmall(v);
    } else {
      Others(v);
    }
  }

  // ----- digits

  /** Each character is the letter of its digit. */
  ghost predicate Letters(body: Bytes, digits: seq<int>)
  {
    |digits| == |body| && forall i :: 0 <= i < |body| ==> 0 <= digits[i] < 64 && Letter(body[i], digits[i])
  }

  ghost predicate Letter(c: u8, d: int)
    requires 0 <= d < 64
  {
    c == ALPHABET[d] as int
  }

  /** Digits as a number in base 64. */
  function Value64(digits: seq<int>): int
  {
    if digits == [] then 0 else Value64(digits[..|digits| - 1]) * 64 + digits[|digits| - 1]
  }

  lemma LetterIs(c: u8, d: int)
    requires 0 <= d < 64
    ensures Letter(c, d) <==> Sextet(c) == d
  {
    AlphabetIs(d);
    Inverse(d, c);
  }

  lemma {:induction false} LettersValue(body: Bytes, digits: seq<int>)
    requires Letters(body, digits)
    ensures InAlphabet(body) && Val64(body) == Value64(digits)
  {
    hide Letter, Sextet;
    if body != [] {
      var n := |body| - 1;
      LettersValue(body[..n], digits[..n]);
      LetterIs(body[n], digits[n]);
    }
  }

  lemma DigitsOf(body: Bytes) returns (digits: seq<int>)
    requires InAlphabet(body)
    ensures Letters(body, digits)
  {
    hide Letter, Sextet;
    digits := seq(|body|, i requires 0 <= i < |body| => Sextet(body[i]));
    forall i | 0 <= i < |body|
      ensures 0 <= digits[i] < 64 && Letter(body[i], digits[i])
    {
      LetterIs(body[i], digits[i]);
    }
  }

  /** Nothing, or as many '=' as fill the last group of four. */
  predicate Filled(pad: Bytes, n: nat)
  {
    pad == [] || (|pad| == (4 - n % 4) % 4 && forall i :: 0 <= i < |pad| ==> pad[i] == '=' as int)
  }

  /** The body spells the number that the bytes make, moved up by the bits of the last character that carry nothing. */
  ghost predicate Carries(body: Bytes, digits: seq<int>, b: Bytes)
  {
    Letters(body, digits) && |body| == (8 * |b| + 5) / 6 &&
    Value64(digits) == BeVal(b) * Pow(2, 6 * |body| - 8 * |b|)
  }

  lemma SpareBits(n: nat)
    ensures var k := (8 * n + 5) / 6; 6 * k - 8 * n == Spare(n) && Pow(2, Spare(n)) == Weight(Spare(n))
  {
    assert Pow(2, 0) == 1 && Pow(2, 2) == 4;
    assert Pow(2, 4) == 2 * (2 * Pow(2, 2));
    var q, r := n / 3, n % 3;
    assert n == 3 * q + r;
  }

  lemma PadIs(n: nat)
    ensures Padding(n) == seq((4 - (8 * n + 5) / 6 % 4) % 4, i => '=' as int)
  {
    var q, r := n / 3, n % 3;
    assert n == 3 * q + r;
    QuartetRest(n, q, r);
  }

  lemma QuartetRest(n: nat, q: nat, r: nat)
    requires n == 3 * q + r && r < 3
    ensures (4 - (8 * n + 5) / 6 % 4) % 4 == if r == 0 then 0 else 3 - r
  {
    assert (8 * n + 5) / 6 == 4 * q + (8 * r + 5) / 6;
  }

  /** The characters without padding are exactly the ones that carry the bytes. */
  lemma BareExact(body: Bytes, b: Bytes)
    ensures body == Bare(b) <==> exists digits :: Carries(body, digits, b)
  {
    hide Bare, Letters, Value64, BeVal, Pow;
    BareLength(b);
    BareValue(b);
    SpareBits(|b|);
    if body == Bare(b) {
      var digits := DigitsOf(body);
      LettersValue(body, digits);
      assert Carries(body, digits, b);
    }
    if digits :| Carries(body, digits, b) {
      LettersValue(body, digits);
      Val64Unique(body, Bare(b));
    }
  }

  /** s spells b exactly when it is such a body, alone or filled up with '=' to a whole number of groups. */
  lemma SpellsExact(s: Bytes, b: Bytes)
    ensures Spells(s, b) <==>
            exists body, pad, digits :: s == body + pad && Carries(body, digits, b) && Filled(pad, |body|)
  {
    hide Bare, Carries, Padding;
    BareExact(Bare(b), b);
    BareLength(b);
    PadIs(|b|);
    var digits :| Carries(Bare(b), digits, b);
    if s == Base64.Encode(b) {
      assert Filled(Padding(|b|), |Bare(b)|);
    } else if s == Bare(b) {
      assert s == Bare(b) + [] && Filled([], |Bare(b)|);
    }
    if body, pad, digits :| s == body + pad && Carries(body, digits, b) && Filled(pad, |body|) {
      BareExact(body, b);
      if pad == [] {
        assert s == body;
      } else {
        assert pad == Padding(|b|);
      }
    }
  }
}
