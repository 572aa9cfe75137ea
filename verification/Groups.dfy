/** Multiples in an additive group, taken one bit of the scalar at a time. */
module Groups {
  import opened Arith
  import opened Digits

  ghost predicate Group<G(!new)>(add: (G, G) -> G, zero: G)
  {
    (forall a, b :: add(a, b) == add(b, a)) &&
    (forall a, b, c :: add(add(a, b), c) == add(a, add(b, c))) &&
    (forall a :: add(zero, a) == a)
  }

  ghost function Times<G>(n: nat, g: G, add: (G, G) -> G, zero: G): G
  {
    if n == 0 then zero else add(g, Times(n - 1, g, add, zero))
  }

  lemma {:induction false} TimesAdd<G(!new)>(m: nat, n: nat, g: G, add: (G, G) -> G, zero: G)
    requires Group(add, zero)
    ensures Times(m + n, g, add, zero) == add(Times(m, g, add, zero), Times(n, g, add, zero))
  {
    if m > 0 {
      TimesAdd(m - 1, n, g, add, zero);
    }
  }

  lemma TimesOne<G(!new)>(g: G, add: (G, G) -> G, zero: G)
    requires Group(add, zero)
    ensures Times(1, g, add, zero) == g
  {
    assert Times(0, g, add, zero) == zero;
    assert add(zero, g) == add(g, zero);
  }

  /** One step on leading bits: double, and add g when the next bit is set. */
  lemma TimesStep<G(!new)>(e: nat, i: nat, g: G, add: (G, G) -> G, zero: G)
    requires Group(add, zero)
    ensures var t := Times(Lead(e, i + 1), g, add, zero);
            Times(Lead(e, i), g, add, zero) == if Bit(e, i) != 0 then add(add(t, t), g) else add(t, t)
  {
    hide Lead, Bit;
    var k := Lead(e, i + 1);
    LeadingBits(e, i);
    TimesAdd(k, k, g, add, zero);
    if Bit(e, i) != 0 {
      TimesAdd(k + k, 1, g, add, zero);
      TimesOne(g, add, zero);
    }
  }

  lemma Zeros<G(!new)>(a: G, add: (G, G) -> G, zero: G)
    requires Group(add, zero)
    ensures add(a, zero) == a && add(zero, a) == a
  {
    assert add(a, zero) == add(zero, a);
  }

  lemma {:induction false} TimesTimes<G(!new)>(a: nat, b: nat, g: G, add: (G, G) -> G, zero: G)
    requires Group(add, zero)
    ensures Times(a, Times(b, g, add, zero), add, zero) == Times(a * b, g, add, zero)
  {
    hide Group;
    if a > 0 {
      TimesTimes(a - 1, b, g, add, zero);
      OneMore(a, b);
      TimesAdd(b, (a - 1) * b, g, add, zero);
    }
  }

  lemma OneMore(a: nat, b: nat)
    requires a > 0
    ensures (a - 1) * b >= 0 && b + (a - 1) * b == a * b
  {
  }

  lemma {:induction false} TimesZero<G(!new)>(a: nat, add: (G, G) -> G, zero: G)
    requires Group(add, zero)
    ensures Times(a, zero, add, zero) == zero
  {
    if a > 0 {
      TimesZero(a - 1, add, zero);
    }
  }

  lemma AddPairs<G(!new)>(s: G, t: G, a: G, b: G, add: (G, G) -> G, zero: G)
    requires Group(add, zero)
    ensures add(add(s, t), add(a, b)) == add(add(s, a), add(t, b))
  {
    calc {
      add(add(s, t), add(a, b));
      add(s, add(t, add(a, b)));
      { assert add(t, add(a, b)) == add(add(t, a), b); }
      { assert add(t, a) == add(a, t); }
      { assert add(add(a, t), b) == add(a, add(t, b)); }
      add(s, add(a, add(t, b)));
      add(add(s, a), add(t, b));
    }
  }

  // ----- an element of order n

  lemma TimesMod<G(!new)>(a: nat, n: nat, g: G, add: (G, G) -> G, zero: G)
    requires n > 0 && Group(add, zero) && Times(n, g, add, zero) == zero
    ensures Times(a, g, add, zero) == Times(a % n, g, add, zero)
  {
    hide Group, Times;
    var q := a / n;
    assert a == q * n + a % n;
    TimesAdd(q * n, a % n, g, add, zero);
    TimesTimes(q, n, g, add, zero);
    TimesZero(q, add, zero);
    Zeros(Times(a % n, g, add, zero), add, zero);
  }

  lemma TimesSame<G(!new)>(a: nat, b: nat, n: nat, g: G, add: (G, G) -> G, zero: G)
    requires n > 0 && Group(add, zero) && Times(n, g, add, zero) == zero && Cong(a, b, n)
    ensures Times(a, g, add, zero) == Times(b, g, add, zero)
  {
    hide Group, Times, Cong;
    TimesMod(a, n, g, add, zero);
    TimesMod(b, n, g, add, zero);
    CongModEq(a, b, n);
  }

  // ----- inverses

  ghost predicate Invertible<G(!new)>(neg: G -> G, add: (G, G) -> G, zero: G)
  {
    forall a: G :: add(a, neg(a)) == zero
  }

  lemma CancelRight<G(!new)>(a: G, b: G, t: G, neg: G -> G, add: (G, G) -> G, zero: G)
    requires Group(add, zero) && Invertible(neg, add, zero) && add(a, t) == add(b, t)
    ensures a == b
  {
    var n := neg(t);
    assert add(add(a, t), n) == add(a, add(t, n));
    assert add(add(b, t), n) == add(b, add(t, n));
    assert add(t, n) == zero;
    assert add(a, zero) == add(zero, a) && add(b, zero) == add(zero, b);
  }

  lemma NegIs<G(!new)>(g: G, neg: G -> G, add: (G, G) -> G, zero: G)
    requires Invertible(neg, add, zero)
    ensures add(g, neg(g)) == zero
  {
  }

  /** k times the inverse is the inverse of k times. */
  lemma {:induction false} TimesNeg<G(!new)>(k: nat, g: G, neg: G -> G, add: (G, G) -> G, zero: G)
    requires Group(add, zero) && Invertible(neg, add, zero)
    ensures add(Times(k, g, add, zero), Times(k, neg(g), add, zero)) == zero
  {
    hide Group, Invertible;
    NegIs(g, neg, add, zero);
    Zeros(zero, add, zero);
    if k > 0 {
      TimesNeg(k - 1, g, neg, add, zero);
      AddPairs(g, Times(k - 1, g, add, zero), neg(g), Times(k - 1, neg(g), add, zero), add, zero);
    }
  }
}
