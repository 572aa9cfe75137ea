/** The spellings of a JSON number and what each one means, and that the parser reads exactly these. Section 6 of
    RFC 8259. */
module JsonNumbers {
  import opened Arith
  import opened Limbs
  import opened Utf8
  import opened Json
  import opened JsonParse

  predicate Digits(s: Bytes)
  {
    s != [] && forall i :: 0 <= i < |s| ==> '0' as int <= s[i] <= '9' as int
  }

  /** A dot and at least one digit. */
  predicate Fraction(s: Bytes) { s != [] && s[0] == '.' as int && Digits(s[1..]) }

  /** A letter e, perhaps a sign, and at least one digit. */
  predicate Exponent(s: Bytes)
  {
    s != [] && (s[0] == 'e' as int || s[0] == 'E' as int) &&
    (Digits(s[1..]) || (|s| > 1 && (s[1] == '+' as int || s[1] == '-' as int) && Digits(s[2..])))
  }

  datatype Numeral = Numeral(negative: bool, digits: Bytes, fraction: Bytes, exponent: Bytes)

  /** No leading zero but a lone one. */
  predicate Good(n: Numeral)
  {
    Digits(n.digits) && (|n.digits| == 1 || n.digits[0] != '0' as int) &&
    (n.fraction == [] || Fraction(n.fraction)) && (n.exponent == [] || Exponent(n.exponent))
  }

  function Sign(n: Numeral): Bytes { if n.negative then ['-' as int] else [] }

  function Spelling(n: Numeral): Bytes { Sign(n) + n.digits + n.fraction + n.exponent }

  /** The sum of the digits times their powers of ten. */
  function Weighted(s: Bytes): int
  {
    if s == [] then 0 else (s[0] as int - 0x30) * Pow(10, |s| - 1) + Weighted(s[1..])
  }

  /** An integer when it is written as one and fits 64 bits; else it stays as spelled. */
  function Meaning(n: Numeral): Value
  {
    var v := if n.negative then -Weighted(n.digits) else Weighted(n.digits);
    if n.fraction == [] && n.exponent == [] && -0x8000_0000_0000_0000 <= v < 0x8000_0000_0000_0000 then Int(v)
    else Real(Spelling(n))
  }

  // ----- digits

  lemma {:induction false} NaturalIs(s: Bytes)
    ensures Natural(s) == Weighted(s)
  {
    if s != [] {
      var n := |s| - 1;
      NaturalIs(s[..n]);
      WeightedLast(s[..n], s[n]);
      assert s == s[..n] + [s[n]];
    }
  }

  lemma WeightedFirst(s: Bytes)
    requires s != []
    ensures Weighted(s) == (s[0] as int - 0x30) * Pow(10, |s| - 1) + Weighted(s[1..])
  {
  }

  lemma Tenfold(a: int, n: nat)
    ensures a * Pow(10, n + 1) == 10 * (a * Pow(10, n))
  {
  }

  lemma {:induction false} WeightedLast(s: Bytes, d: u8)
    ensures Weighted(s + [d]) == 10 * Weighted(s) + (d as int - 0x30)
  {
    if s == [] {
      assert [d][1..] == [] && Pow(10, 0) == 1;
    } else {
      hide Pow, Weighted;
      WeightedLast(s[1..], d);
      assert (s + [d])[1..] == s[1..] + [d];
      WeightedFirst(s);
      WeightedFirst(s + [d]);
      Tenfold(s[0] as int - 0x30, |s| - 1);
    }
  }

  /** A run of digits is read whole, up to what is not one. */
  lemma {:induction false} RunRead(s: Bytes, rest: Bytes)
    requires (forall i :: 0 <= i < |s| ==> IsDigit(s[i])) && !IsDigit(Peek(rest))
    ensures DigitRun(s + rest) == |s|
  {
    if s == [] {
      assert s + rest == rest;
    } else {
      assert (s + rest)[1..] == s[1..] + rest;
      RunRead(s[1..], rest);
    }
  }

  lemma {:induction false} RunOf(t: Bytes)
    ensures var n := DigitRun(t);
            (forall i :: 0 <= i < n ==> IsDigit(t[i])) && !IsDigit(Peek(t[n..]))
  {
    if t != [] && IsDigit(t[0]) {
      RunOf(t[1..]);
      var n := DigitRun(t);
      assert t[1..][n - 1..] == t[n..];
      forall i | 0 <= i < n
        ensures IsDigit(t[i])
      {
        if i > 0 { assert t[i] == t[1..][i - 1]; }
      }
    }
  }

  /** The digits in front, when there are some. */
  lemma RunDigits(t: Bytes)
    ensures var n := DigitRun(t); t == t[..n] + t[n..] && (n > 0 ==> Digits(t[..n])) && !IsDigit(Peek(t[n..]))
  {
    RunOf(t);
  }

  lemma DigitsRead(s: Bytes, rest: Bytes)
    requires Digits(s) && !IsDigit(Peek(rest))
    ensures DigitRun(s + rest) == |s| && (s + rest)[|s|..] == rest && Peek(s + rest) == s[0] && IsDigit(s[0])
  {
    RunRead(s, rest);
  }

  // ----- from the number to the text

  /** What follows a number does not continue it. */
  predicate Stops(rest: Bytes)
  {
    var c := Peek(rest);
    !IsDigit(c) && c != DOT && c != LOWER_E && c != UPPER_E
  }

  lemma ExponentRead(e: Bytes, integer: bool, rest: Bytes)
    requires (e == [] || Exponent(e)) && Stops(rest)
    ensures ScanExponent(e + rest, integer) == Ok(integer && e == [], rest)
  {
    hide DigitRun;
    var t := e + rest;
    if e == [] {
      assert t == rest;
    } else if Digits(e[1..]) {
      assert t[1..] == e[1..] + rest;
      DigitsRead(e[1..], rest);
    } else {
      assert t[1..][1..] == e[2..] + rest;
      DigitsRead(e[2..], rest);
    }
  }

  lemma ExponentHead(e: Bytes, rest: Bytes)
    requires (e == [] || Exponent(e)) && Stops(rest)
    ensures !IsDigit(Peek(e + rest)) && Peek(e + rest) != DOT
  {
    hide Digits;
    if e == [] {
      assert e + rest == rest;
    }
  }

  lemma FractionRead(f: Bytes, e: Bytes, rest: Bytes)
    requires (f == [] || Fraction(f)) && (e == [] || Exponent(e)) && Stops(rest)
    ensures ScanFraction(f + e + rest) == Ok(f == [] && e == [], rest)
  {
    hide DigitRun, ScanExponent, Exponent, Stops, IsDigit, Digits;
    var t, more := f + e + rest, e + rest;
    ExponentHead(e, rest);
    if f == [] {
      assert t == more;
      ExponentRead(e, true, rest);
    } else {
      assert t[1..] == f[1..] + more && t[1 + |f[1..]|..] == more;
      DigitsRead(f[1..], more);
      ExponentRead(e, false, rest);
    }
  }

  lemma DigitsScan(d: Bytes, f: Bytes, e: Bytes, rest: Bytes)
    requires Digits(d) && (|d| == 1 || d[0] != '0' as int)
    requires (f == [] || Fraction(f)) && (e == [] || Exponent(e)) && Stops(rest)
    ensures var t := d + f + e + rest; Peek(t) != MINUS && ScanNumber(t) == Ok(f == [] && e == [], rest)
  {
    hide ScanFraction, DigitRun;
    var t, more := d + f + e + rest, f + e + rest;
    assert t == d + more;
    assert f != [] ==> Peek(more) == f[0];
    assert f == [] ==> more == e + rest;
    assert e != [] ==> Peek(e + rest) == e[0];
    assert e == [] ==> e + rest == rest;
    DigitsRead(d, more);
    FractionRead(f, e, rest);
    if d[0] == '0' as int {
      assert t[1..] == more;
    }
  }

  lemma MinusScan(u: Bytes)
    requires Peek(u) != MINUS
    ensures ScanNumber([MINUS] + u) == ScanNumber(u)
  {
    assert ([MINUS] + u)[1..] == u;
  }

  lemma NumeralScan(n: Numeral, rest: Bytes)
    requires Good(n) && Stops(rest)
    ensures ScanNumber(Spelling(n) + rest) == Ok(n.fraction == [] && n.exponent == [], rest)
  {
    hide ScanNumber, Fraction, Exponent, Digits, Stops;
    var u := n.digits + n.fraction + n.exponent + rest;
    DigitsScan(n.digits, n.fraction, n.exponent, rest);
    if n.negative {
      assert Spelling(n) + rest == [MINUS] + u;
      MinusScan(u);
    } else {
      assert Spelling(n) + rest == u;
    }
  }

  lemma IntegerIs(n: Numeral)
    requires Good(n) && n.fraction == [] && n.exponent == []
    ensures Integer(Spelling(n)) == if n.negative then -Weighted(n.digits) else Weighted(n.digits)
  {
    hide Weighted, Natural;
    NaturalIs(n.digits);
    if n.negative {
      assert Spelling(n)[1..] == n.digits;
    } else {
      assert Spelling(n) == n.digits;
    }
  }

  /** A number is read as what it means, when nothing after it continues it. */
  lemma NumeralRead(n: Numeral, rest: Bytes)
    requires Good(n) && |Spelling(n)| <= 340 && Stops(rest)
    ensures ParseNumber(Spelling(n) + rest) == Ok(Meaning(n), rest)
  {
    hide ScanNumber, Spelling, Integer, Weighted, Good, Stops;
    var t := Spelling(n) + rest;
    NumeralScan(n, rest);
    assert t[..|t| - |rest|] == Spelling(n);
    if n.fraction == [] && n.exponent == [] {
      IntegerIs(n);
    }
  }

  // ----- from the text to the number

  lemma ExponentOf(t: Bytes, integer: bool) returns (e: Bytes)
    requires ScanExponent(t, integer).Ok?
    ensures (e == [] || Exponent(e)) && t == e + ScanExponent(t, integer).rest
    ensures ScanExponent(t, integer).value == (integer && e == [])
  {
    hide DigitRun, Digits;
    if Peek(t) != LOWER_E && Peek(t) != UPPER_E {
      e := [];
      assert t == e + t;
    } else {
      var u := t[1..];
      if Peek(u) == PLUS || Peek(u) == MINUS {
        e := t[..2 + DigitRun(u[1..])];
        SignedOf(t, e);
      } else {
        e := t[..1 + DigitRun(u)];
        RunDigits(u);
        assert e[1..] == u[..DigitRun(u)] && u[DigitRun(u)..] == t[|e|..];
      }
    }
  }

  lemma SignedOf(t: Bytes, e: Bytes)
    requires |t| > 1 && (t[0] == LOWER_E || t[0] == UPPER_E) && (t[1] == PLUS || t[1] == MINUS)
    requires DigitRun(t[1..][1..]) > 0 && e == t[..2 + DigitRun(t[1..][1..])]
    ensures Exponent(e) && t == e + t[1..][1..][DigitRun(t[1..][1..])..]
  {
    hide DigitRun, Digits;
    var w := t[1..][1..];
    RunDigits(w);
    assert e[2..] == w[..DigitRun(w)] && w[DigitRun(w)..] == t[|e|..];
  }

  lemma DottedOf(t: Bytes)
    requires Peek(t) == DOT && DigitRun(t[1..]) > 0
    ensures var f := t[..1 + DigitRun(t[1..])]; Fraction(f) && t == f + t[1 + DigitRun(t[1..])..]
  {
    hide DigitRun, Digits;
    var n := DigitRun(t[1..]);
    RunDigits(t[1..]);
    assert t[..1 + n][1..] == t[1..][..n];
  }

  lemma Join3(a: Bytes, b: Bytes, c: Bytes)
    ensures a + (b + c) == a + b + c
  {
  }

  lemma FractionOf(t: Bytes) returns (f: Bytes, e: Bytes)
    requires ScanFraction(t).Ok?
    ensures (f == [] || Fraction(f)) && (e == [] || Exponent(e)) && t == f + e + ScanFraction(t).rest
    ensures ScanFraction(t).value == (f == [] && e == [])
  {
    hide DigitRun, ScanExponent, Exponent, Fraction;
    if Peek(t) != DOT {
      f := [];
      e := ExponentOf(t, true);
    } else {
      var n := DigitRun(t[1..]);
      f := t[..1 + n];
      DottedOf(t);
      e := ExponentOf(t[1 + n..], false);
      Join3(f, e, ScanFraction(t).rest);
    }
  }

  lemma DigitsOf(t: Bytes) returns (d: Bytes, f: Bytes, e: Bytes)
    requires Peek(t) != MINUS && ScanNumber(t).Ok?
    ensures Digits(d) && (|d| == 1 || d[0] != '0' as int) && (f == [] || Fraction(f)) && (e == [] || Exponent(e))
    ensures t == d + f + e + ScanNumber(t).rest && ScanNumber(t).value == (f == [] && e == [])
  {
    hide DigitRun, ScanFraction, Fraction, Exponent;
    var n := if Peek(t) == ZERO then 1 else DigitRun(t);
    RunDigits(t);
    DigitLeads(t);
    d := t[..n];
    f, e := FractionOf(t[n..]);
    assert t == d + t[n..];
  }

  lemma DigitLeads(t: Bytes)
    requires IsDigit(Peek(t))
    ensures DigitRun(t) > 0
  {
  }

  /** Whatever the parser takes as a number has such a spelling. */
  lemma NumeralOf(t: Bytes) returns (n: Numeral)
    requires ParseNumber(t).Ok?
    ensures Good(n) && |Spelling(n)| <= 340 && Meaning(n) == ParseNumber(t).value
    ensures t == Spelling(n) + ParseNumber(t).rest
  {
    hide ScanNumber, Fraction, Exponent, Digits, Integer, Weighted;
    n := ScannedOf(t);
    var rest := ParseNumber(t).rest;
    assert t[..|t| - |rest|] == Spelling(n);
    if n.fraction == [] && n.exponent == [] {
      IntegerIs(n);
    }
  }

  lemma MinusOnce(t: Bytes)
    requires Peek(t) == MINUS && ScanNumber(t).Ok?
    ensures Peek(t[1..]) != MINUS && ScanNumber(t) == ScanNumber(t[1..])
  {
  }

  lemma ScannedOf(t: Bytes) returns (n: Numeral)
    requires ScanNumber(t).Ok?
    ensures Good(n) && t == Spelling(n) + ScanNumber(t).rest
    ensures ScanNumber(t).value == (n.fraction == [] && n.exponent == [])
  {
    hide ScanNumber, Fraction, Exponent, Digits;
    if Peek(t) == MINUS {
      MinusOnce(t);
      var d, f, e := DigitsOf(t[1..]);
      n := Numeral(true, d, f, e);
      assert t == [MINUS] + t[1..];
    } else {
      var d, f, e := DigitsOf(t);
      n := Numeral(false, d, f, e);
      assert Spelling(n) == d + f + e;
    }
  }
}
