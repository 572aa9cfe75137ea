/** Canonical JSON is a normal form: the bytes are the same exactly when the values are, up to member order. */
module JsonCanonical {
  import opened Utf8
  import opened Json
  import opened JsonParse
  import opened JsonWrite
  import opened JsonRoundTrip
  import opened KeySort

  // ----- members in key order

  ghost predicate KeySorted(m: seq<Member>)
  {
    forall i, j :: 0 <= i < j < |m| ==> LexLe(m[i].key, m[j].key) && m[i].key != m[j].key
  }

  function Insert(x: Member, m: seq<Member>): seq<Member>
  {
    if m == [] then [x]
    else if LexLe(x.key, m[0].key) then [x] + m
    else [m[0]] + Insert(x, m[1..])
  }

  function SortMembers(m: seq<Member>): seq<Member>
  {
    if m == [] then [] else Insert(m[0], SortMembers(m[1..]))
  }

  lemma {:induction false} InsertElements(x: Member, m: seq<Member>, y: Member)
    ensures y in Insert(x, m) <==> y == x || y in m
    ensures |Insert(x, m)| == |m| + 1
  {
    hide LexLe;
    if m != [] {
      assert m == [m[0]] + m[1..];
      InsertElements(x, m[1..], y);
    }
  }

  lemma {:induction false} SortElements(m: seq<Member>, y: Member)
    ensures y in SortMembers(m) <==> y in m
    ensures |SortMembers(m)| == |m|
  {
    if m != [] {
      assert m == [m[0]] + m[1..];
      SortElements(m[1..], y);
      InsertElements(m[0], SortMembers(m[1..]), y);
    }
  }

  /** x's key is below every key of m. */
  ghost predicate Below(x: Member, m: seq<Member>)
  {
    forall y :: y in m ==> LexLe(x.key, y.key) && x.key != y.key
  }

  lemma KeySortedHead(m: seq<Member>)
    requires m != []
    ensures KeySorted(m) <==> Below(m[0], m[1..]) && KeySorted(m[1..])
  {
    hide LexLe;
    if Below(m[0], m[1..]) && KeySorted(m[1..]) {
      forall i, j | 0 <= i < j < |m|
        ensures LexLe(m[i].key, m[j].key) && m[i].key != m[j].key
      {
        assert m[j] == m[1..][j - 1] && m[j] in m[1..];
        if i > 0 { assert m[i] == m[1..][i - 1]; }
      }
    }
  }

  lemma {:induction false} InsertSorted(x: Member, m: seq<Member>)
    requires KeySorted(m) && forall y :: y in m ==> y.key != x.key
    ensures KeySorted(Insert(x, m))
  {
    hide LexLe, KeySorted;
    var r := Insert(x, m);
    if m == [] {
      OneSorted(x);
    } else {
      KeySortedHead(m);
      if LexLe(x.key, m[0].key) {
        forall y | y in m
          ensures LexLe(x.key, y.key)
        {
          if y != m[0] {
            assert y in m[1..];
            LexTrans(x.key, m[0].key, y.key);
          }
        }
        assert r[1..] == m;
      } else {
        LexTotal(x.key, m[0].key);
        InsertSorted(x, m[1..]);
        forall y | y in Insert(x, m[1..])
          ensures LexLe(m[0].key, y.key) && m[0].key != y.key
        {
          InsertElements(x, m[1..], y);
        }
        assert r[1..] == Insert(x, m[1..]);
      }
      KeySortedHead(r);
    }
  }

  lemma OneSorted(x: Member)
    ensures KeySorted([x])
  {
  }

  lemma {:induction false} SortSorted(m: seq<Member>)
    requires DistinctKeys(m)
    ensures KeySorted(SortMembers(m))
  {
    if m != [] {
      var t := m[1..];
      SortSorted(t);
      forall y | y in SortMembers(t)
        ensures y.key != m[0].key
      {
        SortElements(t, y);
        var i :| 0 <= i < |t| && t[i] == y;
        assert y == m[i + 1];
      }
      InsertSorted(m[0], SortMembers(t));
    }
  }

  ghost predicate SameElements(a: seq<Member>, b: seq<Member>) { forall y :: y in a <==> y in b }

  /** Key order leaves no choice: the members alone decide the sequence. */
  lemma {:induction false} SortedUnique(a: seq<Member>, b: seq<Member>)
    requires KeySorted(a) && KeySorted(b) && SameElements(a, b)
    ensures a == b
  {
    hide LexLe, KeySorted;
    if a == [] {
      if b != [] {
        HasElement(b);
        assert false;
      }
    } else {
      assert a[0] in b;
      KeySortedHead(a);
      KeySortedHead(b);
      FirstSame(a, b);
      forall y
        ensures y in a[1..] <==> y in b[1..]
      {
        TailElement(a, y);
        TailElement(b, y);
      }
      SortedUnique(a[1..], b[1..]);
      assert a == [a[0]] + a[1..] && b == [b[0]] + b[1..];
    }
  }

  lemma HasElement(b: seq<Member>)
    requires b != []
    ensures b[0] in b
  {
  }

  lemma FirstSame(a: seq<Member>, b: seq<Member>)
    requires a != [] && b != [] && Below(a[0], a[1..]) && Below(b[0], b[1..]) && SameElements(a, b)
    ensures a[0] == b[0]
  {
    hide LexLe;
    if a[0] != b[0] {
      assert a[0] in b && b[0] in a;
      assert a[0] in b[1..] && b[0] in a[1..];
      LexAntisym(a[0].key, b[0].key);
    }
  }

  lemma TailElement(a: seq<Member>, y: Member)
    requires a != [] && Below(a[0], a[1..])
    ensures y in a[1..] <==> y in a && y != a[0]
  {
    assert a == [a[0]] + a[1..];
  }

  // ----- the canonical value

  function Canon(v: Value): Value
  {
    match v
    case Array(items) => Array(seq(|items|, i requires 0 <= i < |items| => Canon(items[i])))
    case Object(m) => Object(SortMembers(CanonMembers(v)))
    case _ => v
  }

  function CanonMembers(v: Value): (r: seq<Member>)
    requires v.Object?
    ensures |r| == |v.members| && forall i :: 0 <= i < |r| ==> r[i] == CanonMember(v.members[i])
    decreases v, 0
  {
    seq(|v.members|, i requires 0 <= i < |v.members| => CanonMember(v.members[i]))
  }

  function CanonMember(m: Member): (r: Member)
    ensures r.key == m.key
  {
    Member(m.key, Canon(m.value))
  }

  /** The bytes a signature covers. */
  function WriteCanonical(v: Value, format: Bytes -> Bytes): Bytes { Write(Canon(v), format) }

  /** Equal up to the order of members, at every depth: the same keys, with values that are equivalent. */
  ghost predicate Equivalent(v: Value, w: Value)
  {
    match v
    case Array(items) => w.Array? && |w.items| == |items| &&
        forall i :: 0 <= i < |items| ==> Equivalent(items[i], w.items[i])
    case Object(m) => w.Object? &&
      (forall i :: 0 <= i < |m| ==> Matched(m[i], w.members)) &&
      (forall j :: 0 <= j < |w.members| ==> Find(m, w.members[j].key) < |m|)
    case _ => v == w
  }

  /** The key is there, with an equivalent value. */
  ghost predicate Matched(m: Member, n: seq<Member>)
  {
    var j := Find(n, m.key);
    j < |n| && Equivalent(m.value, n[j].value)
  }

  lemma CanonDistinct(v: Value)
    requires v.Object? && DistinctKeys(v.members)
    ensures DistinctKeys(CanonMembers(v))
  {
  }

  lemma {:induction false} EquivalentSameCanon(v: Value, w: Value)
    requires WellFormed(v) && WellFormed(w) && Equivalent(v, w)
    ensures Canon(v) == Canon(w)
    decreases v
  {
    hide SortMembers;
    match v {
      case Array(items) =>
        forall i | 0 <= i < |items|
          ensures Canon(items[i]) == Canon(w.items[i])
        {
          EquivalentSameCanon(items[i], w.items[i]);
        }
      case Object(m) =>
        MembersMatch(v, w);
        SameSorted(v, w);
      case _ =>
    }
  }

  lemma MembersMatch(v: Value, w: Value)
    requires v.Object? && WellFormed(v) && WellFormed(w) && Equivalent(v, w)
    ensures SameElements(CanonMembers(v), CanonMembers(w))
    decreases v, 1
  {
    hide CanonMembers, Canon, WellFormed, Find;
    var m, n, a, b := v.members, w.members, CanonMembers(v), CanonMembers(w);
    forall y | y in a
      ensures y in b
    {
      var i :| 0 <= i < |a| && a[i] == y;
      MemberCanon(v, w, i);
    }
    forall y | y in b
      ensures y in a
    {
      var j :| 0 <= j < |b| && b[j] == y;
      var i := Find(m, n[j].key);
      MemberCanon(v, w, i);
      FoundAt(w, j);
    }
  }

  lemma FoundAt(w: Value, j: nat)
    requires w.Object? && WellFormed(w) && j < |w.members|
    ensures Find(w.members, w.members[j].key) == j
  {
    FindIs(w.members, w.members[j].key, j);
  }

  lemma MemberCanon(v: Value, w: Value, i: nat)
    requires v.Object? && w.Object? && i < |v.members| && WellFormed(v) && WellFormed(w) &&
             Matched(v.members[i], w.members)
    ensures CanonMembers(v)[i] == CanonMembers(w)[Find(w.members, v.members[i].key)]
    decreases v, 0
  {
    hide Canon, Find;
    var a, b := v.members[i], w.members[Find(w.members, v.members[i].key)];
    assert MemberFormed(a) && MemberFormed(b);
    EquivalentSameCanon(a.value, b.value);
  }

  lemma SameSorted(v: Value, w: Value)
    requires v.Object? && w.Object? && DistinctKeys(v.members) && DistinctKeys(w.members)
    requires SameElements(CanonMembers(v), CanonMembers(w))
    ensures Canon(v) == Canon(w)
  {
    hide CanonMembers;
    var a, b := CanonMembers(v), CanonMembers(w);
    CanonDistinct(v);
    CanonDistinct(w);
    SortSorted(a);
    SortSorted(b);
    forall y
      ensures y in SortMembers(a) <==> y in SortMembers(b)
    {
      SortElements(a, y);
      SortElements(b, y);
    }
    SortedUnique(SortMembers(a), SortMembers(b));
  }

  lemma {:induction false} SameCanonEquivalent(v: Value, w: Value)
    requires WellFormed(v) && WellFormed(w) && Canon(v) == Canon(w)
    ensures Equivalent(v, w)
    decreases v
  {
    hide SortMembers, CanonMembers, Find;
    match v {
      case Array(items) =>
        assert |w.items| == |items|;
        forall i | 0 <= i < |items|
          ensures Equivalent(items[i], w.items[i])
        {
          assert Canon(v).items[i] == Canon(w).items[i];
          SameCanonEquivalent(items[i], w.items[i]);
        }
      case Object(m) =>
        assert forall i :: 0 <= i < |m| ==> MemberFormed(m[i]);
        assert forall i :: 0 <= i < |w.members| ==> MemberFormed(w.members[i]);
        ObjectsEquivalent(v, w);
      case _ =>
    }
  }

  lemma ObjectsEquivalent(v: Value, w: Value)
    requires v.Object? && w.Object? && Canon(v) == Canon(w) && DistinctKeys(v.members) && DistinctKeys(w.members)
    requires forall i :: 0 <= i < |v.members| ==> WellFormed(v.members[i].value)
    requires forall i :: 0 <= i < |w.members| ==> WellFormed(w.members[i].value)
    ensures Equivalent(v, w)
    decreases v, 0
  {
    hide Canon, Find, WellFormed;
    var m, n := v.members, w.members;
    forall i | 0 <= i < |m|
      ensures Matched(m[i], n)
    {
      var j := Partner(v, w, i);
      FindIs(n, m[i].key, j);
      SameCanonEquivalent(m[i].value, n[j].value);
    }
    forall j | 0 <= j < |n|
      ensures Find(m, n[j].key) < |m|
    {
      var i := Partner(w, v, j);
      FindIs(m, n[j].key, i);
    }
  }

  /** Where the other value keeps the member that v keeps at i. */
  lemma Partner(v: Value, w: Value, i: nat) returns (j: nat)
    requires v.Object? && w.Object? && Canon(v) == Canon(w) && i < |v.members|
    ensures j < |w.members| && v.members[i].key == w.members[j].key &&
            Canon(v.members[i].value) == Canon(w.members[j].value)
  {
    assert SortMembers(CanonMembers(v)) == SortMembers(CanonMembers(w));
    hide Canon, CanonMembers, SortMembers;
    var y := CanonMembers(v)[i];
    SortElements(CanonMembers(v), y);
    SortElements(CanonMembers(w), y);
    assert y in CanonMembers(w);
    j :| 0 <= j < |w.members| && CanonMembers(w)[j] == y;
  }

  // ----- what the canonical value keeps

  lemma SortedDistinct(m: seq<Member>)
    requires DistinctKeys(m)
    ensures DistinctKeys(SortMembers(m))
  {
    hide LexLe, SortMembers;
    SortSorted(m);
  }

  /** Each member of the canonical object comes from a member of the object. */
  lemma Origin(v: Value, k: nat) returns (i: nat)
    requires v.Object? && k < |SortMembers(CanonMembers(v))|
    ensures i < |v.members| && SortMembers(CanonMembers(v))[k] == CanonMember(v.members[i])
  {
    hide CanonMembers, SortMembers, Canon;
    var y := SortMembers(CanonMembers(v))[k];
    SortElements(CanonMembers(v), y);
    i :| 0 <= i < |v.members| && CanonMembers(v)[i] == y;
  }

  lemma {:induction false} CanonKeeps(v: Value, depth: int)
    requires WellFormed(v) && Fits(v, depth)
    ensures WellFormed(Canon(v)) && Fits(Canon(v), depth) && (FloatFree(v) ==> FloatFree(Canon(v)))
    decreases v
  {
    hide SortMembers, CanonMembers, Find;
    match v {
      case Array(items) =>
        forall i | 0 <= i < |items|
          ensures var c := Canon(items[i]);
                  WellFormed(c) && Fits(c, depth + 1) && (FloatFree(items[i]) ==> FloatFree(c))
        {
          CanonKeeps(items[i], depth + 1);
        }
      case Object(m) =>
        ObjectKeeps(v, depth);
      case _ =>
    }
  }

  lemma ObjectKeeps(v: Value, depth: int)
    requires v.Object? && WellFormed(v) && Fits(v, depth)
    ensures WellFormed(Canon(v)) && Fits(Canon(v), depth) && (FloatFree(v) ==> FloatFree(Canon(v)))
    decreases v, 0
  {
    var m, c := v.members, SortMembers(CanonMembers(v));
    assert Canon(v) == Object(c);
    CanonDistinct(v);
    SortedDistinct(CanonMembers(v));
    hide SortMembers, CanonMembers, Find, Canon;
    forall k | 0 <= k < |c|
      ensures MemberFormed(c[k]) && Fits(c[k].value, depth + 1) && (FloatFree(v) ==> FloatFree(c[k].value))
    {
      var i := Origin(v, k);
      assert MemberFormed(m[i]);
      CanonKeeps(m[i].value, depth + 1);
    }
  }

  /** The canonical value is the same value in another order. */
  lemma {:induction false} CanonEquivalent(v: Value)
    requires WellFormed(v)
    ensures Equivalent(v, Canon(v))
    decreases v
  {
    hide SortMembers, CanonMembers, Find;
    match v {
      case Array(items) =>
        forall i | 0 <= i < |items|
          ensures Equivalent(items[i], Canon(items[i]))
        {
          CanonEquivalent(items[i]);
        }
      case Object(m) =>
        ObjectEquivalent(v);
      case _ =>
    }
  }

  lemma ObjectEquivalent(v: Value)
    requires v.Object? && WellFormed(v)
    ensures Equivalent(v, Canon(v))
    decreases v, 0
  {
    var m, c := v.members, SortMembers(CanonMembers(v));
    assert Canon(v) == Object(c);
    CanonDistinct(v);
    SortedDistinct(CanonMembers(v));
    hide SortMembers, CanonMembers, Find, Canon;
    forall i | 0 <= i < |m|
      ensures Matched(m[i], c)
    {
      assert MemberFormed(m[i]);
      var y := CanonMembers(v)[i];
      SortElements(CanonMembers(v), y);
      var k :| 0 <= k < |c| && c[k] == y;
      FindIs(c, m[i].key, k);
      CanonEquivalent(m[i].value);
    }
    forall k | 0 <= k < |c|
      ensures Find(m, c[k].key) < |m|
    {
      var i := Origin(v, k);
      FindIs(m, c[k].key, i);
    }
  }

  // ----- the normal form

  /** Two float-free values have the same canonical bytes if and only if they are equal up to member order. */
  lemma NormalForm(v: Value, w: Value, format: Bytes -> Bytes)
    requires WellFormed(v) && WellFormed(w) && FloatFree(v) && FloatFree(w)
    ensures WriteCanonical(v, format) == WriteCanonical(w, format) <==> Equivalent(v, w)
  {
    hide Canon, Write, WellFormed, Fits, FloatFree, Equivalent;
    if WriteCanonical(v, format) == WriteCanonical(w, format) {
      var d := FitsSomewhere(v);
      var e := FitsSomewhere(w);
      CanonKeeps(v, d);
      CanonKeeps(w, e);
      WriteInjective(Canon(v), Canon(w), format);
      SameCanonEquivalent(v, w);
    }
    if Equivalent(v, w) {
      EquivalentSameCanon(v, w);
    }
  }

  /** Printing, parsing and printing again changes nothing. */
  lemma PrintParsePrint(v: Value, format: Bytes -> Bytes)
    requires WellFormed(v) && Fits(v, 0) && FloatFree(v) && |WriteCanonical(v, format)| <= MAX_INPUT
    ensures var r := Parse(WriteCanonical(v, format));
            r.Ok? && Equivalent(v, r.value) && WriteCanonical(r.value, format) == WriteCanonical(v, format)
  {
    hide Canon, Write, WellFormed, Fits, FloatFree, Equivalent, Parse;
    CanonKeeps(v, 0);
    ParseWrite(Canon(v), format);
    CanonEquivalent(v);
    EquivalentSameCanon(v, Canon(v));
  }

  /** Member order does not reach the signed bytes, for every value, floats included. */
  lemma OrderIndependent(v: Value, w: Value, format: Bytes -> Bytes)
    requires WellFormed(v) && WellFormed(w) && Equivalent(v, w)
    ensures WriteCanonical(v, format) == WriteCanonical(w, format)
  {
    EquivalentSameCanon(v, w);
  }
}
