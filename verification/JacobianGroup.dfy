/** Shamir's trick computes k1 P1 + k2 P2, in any abelian group that point addition stands for. */
module JacobianGroup {
  import opened Arith
  import opened Digits
  import opened Groups
  import opened Jacobian
  import opened JacobianAdd
  import ModExp

  predicate Canonical(p: Jac) { 0 <= p.x < Q && 0 <= p.y < Q && 0 <= p.z < Q }

  ghost predicate Valid(p: Jac) { Canonical(p) && OnCurve(p) }

  lemma ValidDouble(p: Jac)
    requires Valid(p)
    ensures Valid(Double(p))
  {
    DoubleOnCurve(p);
    hide OnCurve;
  }

  lemma ValidAdd(p: Jac, q: Jac)
    requires Valid(p) && Valid(q)
    ensures Valid(Add(p, q))
  {
    AddOnCurve(p, q);
    ValidDouble(p);
    hide OnCurve, Double;
  }

  /** The accumulator once the bits above i of both scalars have been used. */
  function Shamir(p1: Jac, p2: Jac, k1: nat, k2: nat, i: nat): Jac
    requires i <= 256
    decreases 256 - i
  {
    if i == 256 then INFINITY
    else
      var twice := Double(Shamir(p1, p2, k1, k2, i + 1));
      if Bit(k1, i) != 0 && Bit(k2, i) != 0 then Add(twice, Add(p1, p2))
      else if Bit(k1, i) != 0 then Add(twice, p1)
      else if Bit(k2, i) != 0 then Add(twice, p2)
      else twice
  }

  /** phi sends curve points to group elements, doubling and addition to the group's. */
  ghost predicate Represents<G(!new)>(phi: Jac -> G, add: (G, G) -> G, zero: G)
  {
    phi(INFINITY) == zero &&
    (forall p :: Valid(p) ==> phi(Double(p)) == add(phi(p), phi(p))) &&
    (forall p, q :: Valid(p) && Valid(q) ==> phi(Add(p, q)) == add(phi(p), phi(q)))
  }

  /** One round on the pair of multiples. */
  lemma RoundIsMultiple<G(!new)>(k1: nat, k2: nat, i: nat, g1: G, g2: G, add: (G, G) -> G, zero: G)
    requires Group(add, zero)
    ensures var t1, t2 := Times(Lead(k1, i + 1), g1, add, zero), Times(Lead(k2, i + 1), g2, add, zero);
            var twice := add(add(t1, t2), add(t1, t2));
            add(Times(Lead(k1, i), g1, add, zero), Times(Lead(k2, i), g2, add, zero)) ==
            if Bit(k1, i) != 0 && Bit(k2, i) != 0 then add(twice, add(g1, g2))
            else if Bit(k1, i) != 0 then add(twice, g1)
            else if Bit(k2, i) != 0 then add(twice, g2)
            else twice
  {
    hide Lead, Bit, Group, Times;
    TimesStep(k1, i, g1, add, zero);
    TimesStep(k2, i, g2, add, zero);
    var t1, t2 := Times(Lead(k1, i + 1), g1, add, zero), Times(Lead(k2, i + 1), g2, add, zero);
    var d1, d2 := add(t1, t1), add(t2, t2);
    AddPairs(t1, t2, t1, t2, add, zero);
    AddPairs(d1, d2, g1, g2, add, zero);
    AddPairs(d1, d2, g1, zero, add, zero);
    AddPairs(d1, d2, zero, g2, add, zero);
    Zeros(d1, add, zero);
    Zeros(d2, add, zero);
    Zeros(g1, add, zero);
    Zeros(g2, add, zero);
  }

  lemma {:induction false} ShamirIsSum<G(!new)>(p1: Jac, p2: Jac, k1: nat, k2: nat, i: nat, phi: Jac -> G,
                                                add: (G, G) -> G, zero: G)
    requires i <= 256 && k1 < Pow(2, 256) && k2 < Pow(2, 256) && Valid(p1) && Valid(p2)
    requires Group(add, zero) && Represents(phi, add, zero)
    ensures Valid(Shamir(p1, p2, k1, k2, i))
    ensures phi(Shamir(p1, p2, k1, k2, i)) ==
            add(Times(Lead(k1, i), phi(p1), add, zero), Times(Lead(k2, i), phi(p2), add, zero))
    decreases 256 - i
  {
    hide Valid, Double, Add, Lead, Bit, Group, Pow;
    if i == 256 {
      InfinityValid();
      ModExp.LeadNone(k1, 256);
      ModExp.LeadNone(k2, 256);
      Zeros(zero, add, zero);
    } else {
      ShamirIsSum(p1, p2, k1, k2, i + 1, phi, add, zero);
      var acc := Shamir(p1, p2, k1, k2, i + 1);
      ValidDouble(acc);
      ValidAdd(p1, p2);
      ValidAdd(Double(acc), Add(p1, p2));
      ValidAdd(Double(acc), p1);
      ValidAdd(Double(acc), p2);
      RoundIsMultiple(k1, k2, i, phi(p1), phi(p2), add, zero);
    }
  }

  lemma InfinityValid()
    ensures Valid(INFINITY)
  {
    SameRefl(0);
  }

  /** Over every pair of 256-bit scalars and every pair of curve points. */
  lemma ShamirComputes<G(!new)>(p1: Jac, p2: Jac, k1: nat, k2: nat, phi: Jac -> G, add: (G, G) -> G, zero: G)
    requires k1 < Pow(2, 256) && k2 < Pow(2, 256) && Valid(p1) && Valid(p2)
    requires Group(add, zero) && Represents(phi, add, zero)
    ensures Valid(Shamir(p1, p2, k1, k2, 0))
    ensures phi(Shamir(p1, p2, k1, k2, 0)) == add(Times(k1, phi(p1), add, zero), Times(k2, phi(p2), add, zero))
  {
    hide Shamir, Times, Valid, Represents, Group, Pow;
    ShamirIsSum(p1, p2, k1, k2, 0, phi, add, zero);
    ModExp.LeadAll(k1);
    ModExp.LeadAll(k2);
  }
}
