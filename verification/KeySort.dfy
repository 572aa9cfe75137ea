/** Byte order on keys, and the bottom-up merge sort of an index array by key. */
module KeySort {
  import opened Limbs
  import opened Utf8
  import opened Json

  // ----- byte-lexicographic order, a prefix first

  predicate LexLe(a: Bytes, b: Bytes)
  {
    a == [] || (b != [] && (a[0] < b[0] || (a[0] == b[0] && LexLe(a[1..], b[1..]))))
  }

  lemma {:induction false} LexTotal(a: Bytes, b: Bytes)
    ensures LexLe(a, b) || LexLe(b, a)
  {
    if a != [] && b != [] && a[0] == b[0] {
      LexTotal(a[1..], b[1..]);
    }
  }

  lemma {:induction false} LexAntisym(a: Bytes, b: Bytes)
    requires LexLe(a, b) && LexLe(b, a)
    ensures a == b
  {
    if a != [] {
      LexAntisym(a[1..], b[1..]);
      assert a == [a[0]] + a[1..] && b == [b[0]] + b[1..];
    }
  }

  lemma {:induction false} LexTrans(a: Bytes, b: Bytes, c: Bytes)
    requires LexLe(a, b) && LexLe(b, c)
    ensures LexLe(a, c)
  {
    if a != [] && a[0] == b[0] && b[0] == c[0] {
      LexTrans(a[1..], b[1..], c[1..]);
    }
  }

  /** A byte of a NUL-terminated string. */
  function At(s: Bytes, i: nat): u8
    requires i <= |s|
  {
    if i < |s| then s[i] else 0
  }

  lemma {:induction false} LexFrom(a: Bytes, b: Bytes, i: nat)
    requires i <= |a| && i <= |b| && a[..i] == b[..i]
    ensures LexLe(a, b) <==> LexLe(a[i..], b[i..])
    ensures a == b <==> a[i..] == b[i..]
    decreases i
  {
    assert a == a[..i] + a[i..] && b == b[..i] + b[i..];
    if i > 0 {
      assert a[0] == a[..i][0] == b[0];
      assert a[1..][..i - 1] == a[..i][1..] && b[1..][..i - 1] == b[..i][1..];
      LexFrom(a[1..], b[1..], i - 1);
      assert a[1..][i - 1..] == a[i..] && b[1..][i - 1..] == b[i..];
    } else {
      assert a[0..] == a && b[0..] == b;
    }
  }

  /** tamga_json_key_cmp: negative, zero or positive in byte order. */
  method KeyCmp(a: Bytes, b: Bytes) returns (c: int)
    requires NoNul(a) && NoNul(b)
    ensures c <= 0 <==> LexLe(a, b)
    ensures c == 0 <==> a == b
    ensures c >= 0 <==> LexLe(b, a)
  {
    var i := 0;
    while At(a, i) != 0 && At(b, i) != 0
      invariant 0 <= i <= |a| && i <= |b| && a[..i] == b[..i]
      decreases |a| - i
    {
      if At(a, i) != At(b, i) {
        LexFrom(a, b, i);
        LexFrom(b, a, i);
        return if a[i] < b[i] then -1 else 1;
      }
      assert a[..i + 1] == a[..i] + [a[i]] && b[..i + 1] == b[..i] + [b[i]];
      i := i + 1;
    }
    LexFrom(a, b, i);
    LexFrom(b, a, i);
    if At(a, i) == At(b, i) {
      return 0;
    }
    return if At(a, i) == 0 then -1 else 1;
  }

  // ----- merging

  /** Indices into the keys. */
  predicate Indices(s: seq<nat>, n: nat) { forall i :: 0 <= i < |s| ==> s[i] < n }

  ghost predicate Sorted(s: seq<nat>, keys: seq<Bytes>)
    requires Indices(s, |keys|)
  {
    forall i, j :: 0 <= i < j < |s| ==> LexLe(keys[s[i]], keys[s[j]])
  }

  function Merge(a: seq<nat>, b: seq<nat>, keys: seq<Bytes>): (r: seq<nat>)
    requires Indices(a, |keys|) && Indices(b, |keys|)
    ensures |r| == |a| + |b| && Indices(r, |keys|)
    decreases |a| + |b|
  {
    if a == [] then b
    else if b == [] then a
    else if LexLe(keys[a[0]], keys[b[0]]) then [a[0]] + Merge(a[1..], b, keys)
    else [b[0]] + Merge(a, b[1..], keys)
  }

  lemma {:induction false} MergePermutes(a: seq<nat>, b: seq<nat>, keys: seq<Bytes>)
    requires Indices(a, |keys|) && Indices(b, |keys|)
    ensures multiset(Merge(a, b, keys)) == multiset(a) + multiset(b)
    decreases |a| + |b|
  {
    if a != [] && b != [] {
      if LexLe(keys[a[0]], keys[b[0]]) {
        MergePermutes(a[1..], b, keys);
        HeadCount(a);
      } else {
        MergePermutes(a, b[1..], keys);
        HeadCount(b);
      }
    }
  }

  lemma HeadCount(s: seq<nat>)
    requires s != []
    ensures multiset(s) == multiset{s[0]} + multiset(s[1..])
  {
    assert s == [s[0]] + s[1..];
  }

  /** x is at or before everything in s. */
  ghost predicate Before(x: nat, s: seq<nat>, keys: seq<Bytes>)
    requires x < |keys| && Indices(s, |keys|)
  {
    forall i :: 0 <= i < |s| ==> LexLe(keys[x], keys[s[i]])
  }

  lemma {:induction false} BeforeMerge(x: nat, a: seq<nat>, b: seq<nat>, keys: seq<Bytes>)
    requires x < |keys| && Indices(a, |keys|) && Indices(b, |keys|) && Before(x, a, keys) && Before(x, b, keys)
    ensures Before(x, Merge(a, b, keys), keys)
    decreases |a| + |b|
  {
    hide LexLe;
    if a != [] && b != [] {
      if LexLe(keys[a[0]], keys[b[0]]) {
        BeforeMerge(x, a[1..], b, keys);
      } else {
        BeforeMerge(x, a, b[1..], keys);
      }
    }
  }

  lemma BeforeTail(x: nat, y: nat, s: seq<nat>, keys: seq<Bytes>)
    requires x < |keys| && y < |keys| && Indices(s, |keys|) && LexLe(keys[x], keys[y]) && Before(y, s, keys)
    ensures Before(x, s, keys)
  {
    hide LexLe;
    forall i | 0 <= i < |s|
      ensures LexLe(keys[x], keys[s[i]])
    {
      LexTrans(keys[x], keys[y], keys[s[i]]);
    }
  }

  lemma SortedHead(s: seq<nat>, keys: seq<Bytes>)
    requires Indices(s, |keys|) && s != []
    ensures Sorted(s, keys) <==> Before(s[0], s[1..], keys) && Sorted(s[1..], keys)
  {
    hide LexLe;
    if Sorted(s, keys) {
      forall i | 0 <= i < |s[1..]|
        ensures LexLe(keys[s[0]], keys[s[1..][i]])
      {
        assert s[1..][i] == s[i + 1];
      }
    }
    if Before(s[0], s[1..], keys) && Sorted(s[1..], keys) {
      forall i, j | 0 <= i < j < |s|
        ensures LexLe(keys[s[i]], keys[s[j]])
      {
        assert s[j] == s[1..][j - 1];
        if i > 0 { assert s[i] == s[1..][i - 1]; }
      }
    }
  }

  /** What goes first is before everything left of both runs. */
  lemma MergeFirst(a: seq<nat>, b: seq<nat>, keys: seq<Bytes>)
    requires a != [] && b != [] && Indices(a, |keys|) && Indices(b, |keys|) && Sorted(a, keys) && Sorted(b, keys)
    requires LexLe(keys[a[0]], keys[b[0]])
    ensures Before(a[0], a[1..], keys) && Before(a[0], b, keys) && Sorted(a[1..], keys)
  {
    hide LexLe;
    SortedHead(a, keys);
    SortedHead(b, keys);
    BeforeTail(a[0], b[0], b[1..], keys);
    assert b == [b[0]] + b[1..];
  }

  lemma {:induction false} MergeSorted(a: seq<nat>, b: seq<nat>, keys: seq<Bytes>)
    requires Indices(a, |keys|) && Indices(b, |keys|) && Sorted(a, keys) && Sorted(b, keys)
    ensures Sorted(Merge(a, b, keys), keys)
    decreases |a| + |b|
  {
    hide LexLe;
    if a != [] && b != [] {
      var m := Merge(a, b, keys);
      if LexLe(keys[a[0]], keys[b[0]]) {
        MergeFirst(a, b, keys);
        MergeSorted(a[1..], b, keys);
        BeforeMerge(a[0], a[1..], b, keys);
        assert m[1..] == Merge(a[1..], b, keys);
      } else {
        LexTotal(keys[a[0]], keys[b[0]]);
        MergeFirst(b, a, keys);
        MergeSorted(a, b[1..], keys);
        BeforeMerge(b[0], a, b[1..], keys);
        assert m[1..] == Merge(a, b[1..], keys);
      }
      SortedHead(m, keys);
    }
  }

  // ----- one pass over all pairs of runs

  function Min(a: nat, b: nat): nat { if a < b then a else b }

  /** The first run and the one after it, merged, and so on to the end. */
  function Pass(s: seq<nat>, w: nat, keys: seq<Bytes>): (r: seq<nat>)
    requires w > 0 && Indices(s, |keys|)
    ensures |r| == |s| && Indices(r, |keys|)
    decreases |s|
  {
    if s == [] then []
    else
      var t := s[Min(w, |s|)..];
      var k := Min(w, |t|);
      Merge(s[..Min(w, |s|)], t[..k], keys) + Pass(t[k..], w, keys)
  }

  lemma {:induction false} PassPermutes(s: seq<nat>, w: nat, keys: seq<Bytes>)
    requires w > 0 && Indices(s, |keys|)
    ensures multiset(Pass(s, w, keys)) == multiset(s)
    decreases |s|
  {
    if s != [] {
      var t := s[Min(w, |s|)..];
      var k := Min(w, |t|);
      hide Merge;
      MergePermutes(s[..Min(w, |s|)], t[..k], keys);
      PassPermutes(t[k..], w, keys);
      SplitCounts(s, Min(w, |s|));
      SplitCounts(t, k);
    }
  }

  lemma SplitCounts(s: seq<nat>, i: nat)
    requires i <= |s|
    ensures multiset(s[..i]) + multiset(s[i..]) == multiset(s)
  {
    assert s == s[..i] + s[i..];
  }

  /** Every run of w, counted from the front, is sorted. */
  ghost predicate Runs(s: seq<nat>, w: nat, keys: seq<Bytes>)
    requires w > 0 && Indices(s, |keys|)
    decreases |s|
  {
    s == [] || (Sorted(s[..Min(w, |s|)], keys) && Runs(s[Min(w, |s|)..], w, keys))
  }

  lemma {:induction false} RunsOfOne(s: seq<nat>, keys: seq<Bytes>)
    requires Indices(s, |keys|)
    ensures Runs(s, 1, keys)
  {
    if s != [] {
      RunsOfOne(s[1..], keys);
    }
  }

  lemma {:induction false} PassRuns(s: seq<nat>, w: nat, keys: seq<Bytes>)
    requires w > 0 && Indices(s, |keys|) && Runs(s, w, keys)
    ensures Runs(Pass(s, w, keys), 2 * w, keys)
    decreases |s|
  {
    hide LexLe, Merge, Sorted;
    if s != [] {
      var t := s[Min(w, |s|)..];
      var k := Min(w, |t|);
      if t == [] {
        EmptySorted(keys);
        assert t[..k] == [] && t[k..] == [];
      }
      MergeSorted(s[..Min(w, |s|)], t[..k], keys);
      PassRuns(t[k..], w, keys);
      RunJoin(Merge(s[..Min(w, |s|)], t[..k], keys), Pass(t[k..], w, keys), 2 * w, keys);
    }
  }

  /** A sorted run in front of sorted runs, either full or with nothing after it. */
  lemma RunJoin(a: seq<nat>, b: seq<nat>, w: nat, keys: seq<Bytes>)
    requires w > 0 && Indices(a, |keys|) && Indices(b, |keys|) && Sorted(a, keys) && Runs(b, w, keys) && a != []
    requires |a| == w || (|a| < w && b == [])
    ensures Runs(a + b, w, keys)
  {
    hide LexLe, Sorted;
    var r := a + b;
    assert r[..|a|] == a && r[|a|..] == b;
  }

  lemma EmptySorted(keys: seq<Bytes>)
    ensures Sorted([], keys)
  {
  }

  lemma OneRun(s: seq<nat>, w: nat, keys: seq<Bytes>)
    requires w > 0 && Indices(s, |keys|) && Runs(s, w, keys) && |s| <= w
    ensures Sorted(s, keys)
  {
    if s != [] {
      assert s[..Min(w, |s|)] == s;
    }
  }

  // ----- tamga_json_sort_keys

  ghost predicate PlainKeys(keys: seq<Bytes>) { forall i :: 0 <= i < |keys| ==> NoNul(keys[i]) }

  lemma MergeLeft(a: seq<nat>, b: seq<nat>, keys: seq<Bytes>)
    requires Indices(a, |keys|) && Indices(b, |keys|) && a != [] && (b == [] || LexLe(keys[a[0]], keys[b[0]]))
    ensures Merge(a, b, keys) == [a[0]] + Merge(a[1..], b, keys)
  {
    hide LexLe;
    if b == [] {
      MergeNothing(a, keys);
      MergeNothing(a[1..], keys);
    }
  }

  lemma MergeNothing(a: seq<nat>, keys: seq<Bytes>)
    requires Indices(a, |keys|)
    ensures Merge(a, [], keys) == a == Merge([], a, keys)
  {
  }

  lemma MergeRight(a: seq<nat>, b: seq<nat>, keys: seq<Bytes>)
    requires Indices(a, |keys|) && Indices(b, |keys|) && b != [] && (a == [] || !LexLe(keys[a[0]], keys[b[0]]))
    ensures Merge(a, b, keys) == [b[0]] + Merge(a, b[1..], keys)
  {
    hide LexLe;
    if a == [] {
      MergeNothing(b, keys);
      MergeNothing(b[1..], keys);
    }
  }

  /** Whether the next entry comes from the left run. */
  method TakesLeft(order: array<nat>, left: nat, mid: nat, right: nat, end: nat, keys: seq<Bytes>)
    returns (takeLeft: bool)
    requires left <= mid <= right <= end <= order.Length && (left < mid || right < end)
    requires Indices(order[..], |keys|) && PlainKeys(keys)
    ensures takeLeft ==> left < mid && (right == end || LexLe(keys[order[left]], keys[order[right]]))
    ensures !takeLeft ==> right < end && (left == mid || !LexLe(keys[order[left]], keys[order[right]]))
  {
    hide LexLe;
    if left >= mid {
      return false;
    } else if right >= end {
      return true;
    }
    assert order[..][left] == order[left] && order[..][right] == order[right];
    var c := KeyCmp(keys[order[left]], keys[order[right]]);
    return c <= 0;
  }

  /** Part of a merge is done, and what is left of the two runs makes the rest. */
  ghost predicate Merging(done: seq<nat>, s: seq<nat>, left: nat, mid: nat, right: nat, end: nat, keys: seq<Bytes>,
                          whole: seq<nat>)
    requires left <= mid <= right <= end <= |s| && Indices(s, |keys|)
  {
    done + Merge(s[left..mid], s[right..end], keys) == whole
  }

  lemma MergingStep(done: seq<nat>, s: seq<nat>, left: nat, mid: nat, right: nat, end: nat, keys: seq<Bytes>,
                    whole: seq<nat>, takeLeft: bool)
    requires left <= mid <= right <= end <= |s| && Indices(s, |keys|) &&
             Merging(done, s, left, mid, right, end, keys, whole)
    requires takeLeft ==> left < mid && (right == end || LexLe(keys[s[left]], keys[s[right]]))
    requires !takeLeft ==> right < end && (left == mid || !LexLe(keys[s[left]], keys[s[right]]))
    ensures takeLeft ==> Merging(done + [s[left]], s, left + 1, mid, right, end, keys, whole)
    ensures !takeLeft ==> Merging(done + [s[right]], s, left, mid, right + 1, end, keys, whole)
  {
    hide LexLe, Merge;
    if takeLeft {
      MergeLeft(s[left..mid], s[right..end], keys);
      assert s[left..mid][1..] == s[left + 1..mid];
    } else {
      MergeRight(s[left..mid], s[right..end], keys);
      assert s[right..end][1..] == s[right + 1..end];
    }
  }

  /** Merges order[start..mid] and order[mid..end] into the same places of scratch. */
  method MergeRuns(order: array<nat>, scratch: array<nat>, start: nat, mid: nat, end: nat, keys: seq<Bytes>)
    requires order != scratch && order.Length == scratch.Length && start <= mid <= end <= order.Length
    requires Indices(order[..], |keys|) && PlainKeys(keys)
    modifies scratch
    ensures Indices(order[start..mid], |keys|) && Indices(order[mid..end], |keys|)
    ensures scratch[..end] == old(scratch[..start]) + Merge(order[start..mid], order[mid..end], keys)
  {
    hide LexLe, Merge;
    ghost var s := order[..];
    ghost var whole := scratch[..start] + Merge(s[start..mid], s[mid..end], keys);
    assert Merging(scratch[..start], s, start, mid, mid, end, keys, whole);
    hide Merging;
    var left, right, at := start, mid, start;
    while left < mid || right < end
      invariant start <= left <= mid <= right <= end && at == left + right - mid
      invariant order[..] == s
      invariant Merging(scratch[..at], s, left, mid, right, end, keys, whole)
      decreases mid - left + (end - right)
    {
      var takeLeft := TakesLeft(order, left, mid, right, end, keys);
      ghost var done := scratch[..at];
      MergingStep(done, s, left, mid, right, end, keys, whole, takeLeft);
      if takeLeft {
        scratch[at] := order[left];
        assert scratch[..at + 1] == done + [s[left]];
        left := left + 1;
      } else {
        scratch[at] := order[right];
        assert scratch[..at + 1] == done + [s[right]];
        right := right + 1;
      }
      at := at + 1;
    }
    MergingEnd(scratch[..end], s, mid, end, keys, whole);
    assert s[start..mid] == order[start..mid] && s[mid..end] == order[mid..end];
  }

  lemma MergingEnd(done: seq<nat>, s: seq<nat>, mid: nat, end: nat, keys: seq<Bytes>, whole: seq<nat>)
    requires mid <= end <= |s| && Indices(s, |keys|) && Merging(done, s, mid, mid, end, end, keys, whole)
    ensures done == whole
  {
    assert s[mid..mid] == [] && s[end..end] == [];
    NothingLeft(keys);
  }

  lemma NothingLeft(keys: seq<Bytes>)
    ensures Merge([], [], keys) == []
  {
  }

  lemma PassStep(done: seq<nat>, s: seq<nat>, start: nat, mid: nat, end: nat, w: nat, keys: seq<Bytes>)
    requires w > 0 && Indices(s, |keys|) && start < |s| && mid == Min(start + w, |s|) && end == Min(start + 2 * w, |s|)
    ensures done + Pass(s[start..], w, keys) == (done + Merge(s[start..mid], s[mid..end], keys)) +
            Pass(s[end..], w, keys)
  {
    hide Merge, Pass;
    RunSlices(s, start, mid, end, w);
    PassHead(s[start..], s[start..mid], s[mid..], s[mid..end], s[end..], w, keys);
    Joined(done, Merge(s[start..mid], s[mid..end], keys), Pass(s[end..], w, keys));
  }

  lemma PassHead(r: seq<nat>, a: seq<nat>, t: seq<nat>, b: seq<nat>, c: seq<nat>, w: nat, keys: seq<Bytes>)
    requires w > 0 && r != [] && Indices(r, |keys|) && a == r[..Min(w, |r|)] && t == r[Min(w, |r|)..]
    requires b == t[..Min(w, |t|)] && c == t[Min(w, |t|)..]
    ensures Indices(a, |keys|) && Indices(b, |keys|) && Indices(c, |keys|)
    ensures Pass(r, w, keys) == Merge(a, b, keys) + Pass(c, w, keys)
  {
    hide Merge;
  }

  lemma Joined(a: seq<nat>, b: seq<nat>, c: seq<nat>)
    ensures a + (b + c) == (a + b) + c
  {
  }

  lemma RunSlices(s: seq<nat>, start: nat, mid: nat, end: nat, w: nat)
    requires w > 0 && start < |s| && mid == Min(start + w, |s|) && end == Min(start + 2 * w, |s|)
    ensures var r := s[start..];
            var t := r[Min(w, |r|)..];
            r[..Min(w, |r|)] == s[start..mid] && t == s[mid..] && t[..Min(w, |t|)] == s[mid..end] &&
              t[Min(w, |t|)..] == s[end..]
  {
  }

  /** One pass at this width, from order into scratch. */
  method MergePass(order: array<nat>, scratch: array<nat>, width: nat, keys: seq<Bytes>)
    requires order != scratch && order.Length == scratch.Length && width > 0
    requires Indices(order[..], |keys|) && PlainKeys(keys)
    modifies scratch
    ensures scratch[..] == Pass(order[..], width, keys)
  {
    hide LexLe, Merge, Pass;
    var count := order.Length;
    ghost var s := order[..];
    var start := 0;
    assert scratch[..0] == [] && s[0..] == s;
    while start < count
      invariant 0 <= start && order[..] == s
      invariant scratch[..Min(start, count)] + Pass(s[Min(start, count)..], width, keys) == Pass(s, width, keys)
    {
      var mid, end := Min(start + width, count), Min(start + width * 2, count);
      ghost var done := scratch[..start];
      PassStep(done, s, start, mid, end, width, keys);
      MergeRuns(order, scratch, start, mid, end, keys);
      assert order[start..mid] == s[start..mid] && order[mid..end] == s[mid..end];
      start := start + width * 2;
    }
    assert scratch[..count] == scratch[..] && s[count..] == [];
    EmptyPass(width, keys);
  }

  lemma EmptyPass(w: nat, keys: seq<Bytes>)
    requires w > 0
    ensures Pass([], w, keys) == []
  {
  }

  function Iota(n: nat): (s: seq<nat>)
    ensures |s| == n && forall i :: 0 <= i < n ==> s[i] == i
  {
    seq(n, i => i)
  }

  method CopyOrder(order: array<nat>, scratch: array<nat>)
    requires order != scratch && order.Length == scratch.Length
    modifies order
    ensures order[..] == scratch[..]
  {
    var i := 0;
    while i < order.Length
      invariant 0 <= i <= order.Length && order[..i] == scratch[..i]
    {
      order[i] := scratch[i];
      assert order[..i + 1] == scratch[..i] + [scratch[i]];
      i := i + 1;
    }
  }

  /** The indices of the keys in byte order: every index once, and the keys they name not decreasing. */
  method SortKeys(keys: seq<Bytes>) returns (order: array<nat>)
    requires PlainKeys(keys)
    ensures fresh(order) && order.Length == |keys| && Indices(order[..], |keys|)
    ensures multiset(order[..]) == multiset(Iota(|keys|)) && Sorted(order[..], keys)
  {
    hide LexLe, Merge, Pass, Sorted, Runs;
    var count := |keys|;
    order := new nat[count](i => i);
    var scratch := new nat[count](_ => 0);
    assert order[..] == Iota(count);
    RunsOfOne(order[..], keys);
    var width := 1;
    while width < count
      invariant width >= 1 && Indices(order[..], |keys|)
      invariant multiset(order[..]) == multiset(Iota(count)) && Runs(order[..], width, keys)
    {
      PassRuns(order[..], width, keys);
      PassPermutes(order[..], width, keys);
      MergePass(order, scratch, width, keys);
      CopyOrder(order, scratch);
      width := width * 2;
    }
    OneRun(order[..], width, keys);
  }
}
