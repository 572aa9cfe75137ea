/** The byte order of keys by its first difference, that it is the order of code points, and that a canonical value has
    its keys in it. */
module KeyOrder {
  import opened Utf8
  import opened Json
  import opened KeySort
  import opened JsonCanonical

  /** Where the two first differ, a has ended or has the smaller byte. */
  ghost predicate Precedes(a: Bytes, b: Bytes)
  {
    exists i :: 0 <= i <= |a| && i < |b| && a[..i] == b[..i] && (i == |a| || a[i] < b[i])
  }

  lemma LexAt(a: Bytes, b: Bytes, i: nat)
    requires i <= |a| && i < |b| && a[..i] == b[..i] && (i == |a| || a[i] < b[i])
    ensures LexLe(a, b) && a != b
  {
    LexFrom(a, b, i);
  }

  lemma {:induction false} FirstDifference(a: Bytes, b: Bytes) returns (i: nat)
    requires LexLe(a, b) && a != b
    ensures i <= |a| && i < |b| && a[..i] == b[..i] && (i == |a| || a[i] < b[i])
  {
    if a == [] || a[0] < b[0] {
      i := 0;
    } else {
      assert a == [a[0]] + a[1..] && b == [b[0]] + b[1..];
      var k := FirstDifference(a[1..], b[1..]);
      i := k + 1;
      assert a[..i] == [a[0]] + a[1..][..k] && b[..i] == [b[0]] + b[1..][..k];
    }
  }

  /** The sort order, strictly, is that one. */
  lemma PrecedesExact(a: Bytes, b: Bytes)
    ensures LexLe(a, b) && a != b <==> Precedes(a, b)
  {
    hide LexLe;
    if LexLe(a, b) && a != b {
      var i := FirstDifference(a, b);
    }
    if i :| 0 <= i <= |a| && i < |b| && a[..i] == b[..i] && (i == |a| || a[i] < b[i]) {
      LexAt(a, b, i);
    }
  }

  lemma DiffersAt(a: Bytes, b: Bytes, i: nat)
    requires i < |a| && i < |b| && a[i] < b[i] && forall k :: 0 <= k < i ==> a[k] == b[k]
    ensures Precedes(a, b)
  {
    assert a[..i] == b[..i];
  }

  lemma Lead(c: int)
    requires 0 <= c < 0x11_0000
    ensures var s := Encode(c);
            if c < 0x80 then s[0] < 0x80 else if c < 0x800 then 0xC2 <= s[0] < 0xE0
            else if c < 0x1_0000 then 0xE0 <= s[0] < 0xF0 else 0xF0 <= s[0]
  {
  }

  lemma Order2(c: int, d: int)
    requires 0x80 <= c < d < 0x800
    ensures Precedes(Encode(c), Encode(d))
  {
    DiffersAt(Encode(c), Encode(d), if c / 64 < d / 64 then 0 else 1);
  }

  /** Six bits lower, the order is the same or the numbers meet. */
  lemma SixBitsOrder(c: int, d: int)
    requires 0 <= c < d
    ensures c / 64 < d / 64 || (c / 64 == d / 64 && c % 64 < d % 64)
  {
  }

  lemma Encode3(c: int)
    requires 0x800 <= c < 0x1_0000
    ensures var h, m := c / 64 / 64, c / 64 % 64; 0 <= h < 16 && Encode(c) == [0xE0 + h, 0x80 + m, 0x80 + c % 64]
  {
    Quotients(c, 64);
  }

  lemma Order3(c: int, d: int)
    requires 0x800 <= c < d < 0x1_0000
    ensures Precedes(Encode(c), Encode(d))
  {
    hide Precedes, Encode;
    Encode3(c);
    Encode3(d);
    SixBitsOrder(c, d);
    if c / 64 == d / 64 {
      DiffersAt(Encode(c), Encode(d), 2);
    } else {
      SixBitsOrder(c / 64, d / 64);
      DiffersAt(Encode(c), Encode(d), if c / 64 / 64 < d / 64 / 64 then 0 else 1);
    }
  }

  lemma Encode4(c: int)
    requires 0x1_0000 <= c < 0x11_0000
    ensures var h, m := c / 64 / 64 / 64, c / 64 / 64 % 64;
            0 <= h < 5 && Encode(c) == [0xF0 + h, 0x80 + m, 0x80 + c / 64 % 64, 0x80 + c % 64]
  {
    Quotients(c, 64);
    Quotients(c, 4096);
  }

  lemma Order4(c: int, d: int)
    requires 0x1_0000 <= c < d < 0x11_0000
    ensures Precedes(Encode(c), Encode(d))
  {
    hide Precedes, Encode;
    Encode4(c);
    Encode4(d);
    SixBitsOrder(c, d);
    var e, f := c / 64, d / 64;
    if e == f {
      DiffersAt(Encode(c), Encode(d), 3);
    } else {
      SixBitsOrder(e, f);
      if e / 64 == f / 64 {
        DiffersAt(Encode(c), Encode(d), 2);
      } else {
        SixBitsOrder(e / 64, f / 64);
        DiffersAt(Encode(c), Encode(d), if e / 64 / 64 < f / 64 / 64 then 0 else 1);
      }
    }
  }

  /** UTF-8 keeps the order of code points. */
  lemma EncodeOrder(c: int, d: int)
    requires 0 <= c < d < 0x11_0000
    ensures Precedes(Encode(c), Encode(d))
  {
    Lead(c);
    Lead(d);
    hide Precedes;
    if 0x80 <= c && d < 0x800 {
      Order2(c, d);
    } else if 0x800 <= c && d < 0x1_0000 {
      Order3(c, d);
    } else if 0x1_0000 <= c {
      Order4(c, d);
    } else {
      DiffersAt(Encode(c), Encode(d), 0);
    }
  }

  // ----- canonical values

  /** At every depth, the keys of an object stand in that order. */
  ghost predicate Ascending(v: Value)
  {
    match v
    case Array(items) => forall i :: 0 <= i < |items| ==> Ascending(items[i])
    case Object(m) => (forall i, j :: 0 <= i < j < |m| ==> Precedes(m[i].key, m[j].key)) &&
                      forall i :: 0 <= i < |m| ==> Ascending(m[i].value)
    case _ => true
  }

  lemma {:induction false} CanonAscending(v: Value)
    requires WellFormed(v)
    ensures Ascending(Canon(v))
    decreases v
  {
    hide SortMembers, CanonMembers, Find, Precedes;
    match v {
      case Array(items) =>
        forall i | 0 <= i < |items|
          ensures Ascending(Canon(items[i]))
        {
          CanonAscending(items[i]);
        }
      case Object(m) =>
        ObjectAscending(v);
      case _ =>
    }
  }

  lemma ObjectAscending(v: Value)
    requires v.Object? && WellFormed(v)
    ensures Ascending(Canon(v))
    decreases v, 0
  {
    var m, c := v.members, SortMembers(CanonMembers(v));
    assert Canon(v) == Object(c);
    CanonDistinct(v);
    SortSorted(CanonMembers(v));
    hide SortMembers, CanonMembers, Find, Canon, LexLe, Precedes;
    forall i, j | 0 <= i < j < |c|
      ensures Precedes(c[i].key, c[j].key)
    {
      PrecedesExact(c[i].key, c[j].key);
    }
    forall k | 0 <= k < |c|
      ensures Ascending(c[k].value)
    {
      var i := Origin(v, k);
      assert MemberFormed(m[i]);
      CanonAscending(m[i].value);
    }
  }
}
