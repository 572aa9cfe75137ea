/** Double-and-add computes multiples, in any abelian group that point addition stands for. */
module EdwardsGroup {
  import opened Arith
  import opened Digits
  import opened Edwards
  import opened EdwardsComplete
  import opened Groups
  import ModExp

  // ----- tamga_ge_scalarmul

  /** The accumulator once the bits above i have been used. */
  function Accumulate(p: Ge, e: nat, i: nat): Ge
    requires i <= 256
    decreases 256 - i
  {
    if i == 256 then IDENTITY
    else
      var acc := Accumulate(p, e, i + 1);
      var twice := Sum(acc, acc);
      if Bit(e, i) != 0 then Sum(twice, p) else twice
  }

  /** A point of the curve proper: its Z can be inverted. */
  ghost predicate Proper(g: Ge) { OnCurve(g) && !Eq(g.z, 0) }

  /** phi sends curve points to group elements and point addition to the group's. */
  ghost predicate Represents<G(!new)>(phi: Ge -> G, add: (G, G) -> G, zero: G)
  {
    phi(IDENTITY) == zero &&
    forall p, q :: Proper(p) && Proper(q) ==> phi(Sum(p, q)) == add(phi(p), phi(q))
  }

  lemma IdentityProper()
    ensures Proper(IDENTITY)
  {
    Refl(0);
    Refl(1);
  }

  lemma ProperSum(p: Ge, q: Ge, inv: int -> int)
    requires Proper(p) && Proper(q) && Inverts(inv) && forall r: int :: !IsRoot(r, D)
    ensures Proper(Sum(p, q))
  {
    SumOnCurve(p, q);
    SumIsComplete(p, q, inv);
  }

  /** Every intermediate point is proper, and what comes out is e times p. */
  lemma {:induction false} AccumulateIsMultiple<G(!new)>(p: Ge, e: nat, i: nat, phi: Ge -> G, add: (G, G) -> G,
                                                         zero: G, inv: int -> int)
    requires i <= 256 && e < Pow(2, 256) && Proper(p)
    requires Group(add, zero) && Represents(phi, add, zero)
    requires Inverts(inv) && forall r: int :: !IsRoot(r, D)
    ensures Proper(Accumulate(p, e, i))
    ensures phi(Accumulate(p, e, i)) == Times(Lead(e, i), phi(p), add, zero)
    decreases 256 - i
  {
    hide Proper, Sum, Lead, Bit, Group, Inverts, Pow, D;
    if i == 256 {
      IdentityProper();
      ModExp.LeadNone(e, 256);
    } else {
      AccumulateIsMultiple(p, e, i + 1, phi, add, zero, inv);
      var acc := Accumulate(p, e, i + 1);
      ProperSum(acc, acc, inv);
      ProperSum(Sum(acc, acc), p, inv);
      TimesStep(e, i, phi(p), add, zero);
    }
  }

  lemma ScalarMulIsMultiple<G(!new)>(p: Ge, e: nat, phi: Ge -> G, add: (G, G) -> G, zero: G, inv: int -> int)
    requires e < Pow(2, 256) && Proper(p)
    requires Group(add, zero) && Represents(phi, add, zero)
    requires Inverts(inv) && forall r: int :: !IsRoot(r, D)
    ensures phi(Accumulate(p, e, 0)) == Times(e, phi(p), add, zero)
  {
    AccumulateIsMultiple(p, e, 0, phi, add, zero, inv);
    ModExp.LeadAll(e);
  }
}
