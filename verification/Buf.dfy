/** The growable buffer with sticky failure that JSON and fingerprint output rest on. */
module Buf {
  import opened Arith
  import opened Limbs
  import opened Utf8

  datatype Option<T> = None | Some(value: T)

  /** Where allocations come from: any of them may be refused, unless memory is reliable. Of spent memory nothing is
      left to grant. */
  class Memory {
    const reliable: bool
    const spent: bool

    constructor (reliable: bool, spent: bool)
      requires !(reliable && spent)
      ensures this.reliable == reliable && this.spent == spent
    {
      this.reliable, this.spent := reliable, spent;
    }

    method Alloc() returns (ok: bool)
      ensures reliable ==> ok
      ensures spent && !reliable ==> !ok
    {
      ok := *;
      if reliable {
        ok := true;
      } else if spent {
        ok := false;
      }
    }
  }

  const SIZE_MAX: nat := 0xffff_ffff_ffff_ffff
  const MIN_CAP: nat := 64

  /** From (data, failed) a run of appends has led to (data', failed'): failure is sticky, without it exactly the
      text was added, and it has only come from memory or from a size past half of what can be counted. */
  ghost predicate Appended(data: Bytes, failed: bool, data': Bytes, failed': bool, text: Bytes, reliable: bool)
  {
    (failed ==> failed') && (!failed' ==> data' == data + text) &&
    (failed' && !failed ==> !reliable || |data| + |text| > SIZE_MAX / 2)
  }

  lemma AppendNothing(data: Bytes, failed: bool, reliable: bool)
    ensures Appended(data, failed, data, failed, [], reliable)
  {
    assert data + [] == data;
  }

  lemma AppendThen(a: Bytes, fa: bool, b: Bytes, fb: bool, c: Bytes, fc: bool, s: Bytes, t: Bytes, reliable: bool)
    requires Appended(a, fa, b, fb, s, reliable) && Appended(b, fb, c, fc, t, reliable)
    ensures Appended(a, fa, c, fc, s + t, reliable)
  {
    assert a + s + t == a + (s + t);
  }

  /** The capacities a buffer can have: none, or the smallest one doubled some number of times. */
  ghost predicate Doubled(n: nat) { n == 0 || exists k: nat :: n == MIN_CAP * Pow(2, k) }

  lemma DoubledAgain(n: nat)
    requires n > 0 && Doubled(n)
    ensures Doubled(2 * n)
  {
    var k: nat :| n == MIN_CAP * Pow(2, k);
    assert 2 * n == MIN_CAP * Pow(2, k + 1);
  }

  lemma DoubledSize(n: nat)
    ensures Doubled(n) && n > 0 ==> n >= MIN_CAP
    ensures Doubled(MIN_CAP)
  {
    assert MIN_CAP == MIN_CAP * Pow(2, 0);
    if n > 0 && Doubled(n) {
      var k: nat :| n == MIN_CAP * Pow(2, k);
      MulMono(1, Pow(2, k), MIN_CAP);
    }
  }

  class Buffer {
    var data: Bytes
    var cap: nat
    var failed: bool
    const memory: Memory

    ghost predicate Valid()
      reads this
    {
      |data| <= cap <= SIZE_MAX && Doubled(cap)
    }

    constructor (memory: Memory)
      ensures Valid() && data == [] && cap == 0 && !failed && this.memory == memory
    {
      data, cap, failed := [], 0, false;
      this.memory := memory;
    }

    /** Room for extra more bytes, doubling the capacity as often as needed. */
    method Reserve(extra: nat) returns (ok: bool)
      requires Valid()
      modifies this`cap, this`failed
      ensures Valid() && ok == !failed && (ok ==> |data| + extra <= cap)
      ensures old(failed) ==> failed
      ensures failed && !old(failed) ==> !memory.reliable || |data| + extra > SIZE_MAX / 2
      ensures failed && !old(failed) ==> |data| + extra > cap == old(cap)
      ensures memory.spent && !memory.reliable && |data| + extra > old(cap) ==> failed
    {
      hide Doubled;
      if failed {
        return false;
      }
      var needed := |data| + extra;
      if needed > SIZE_MAX {
        failed := true;
        return false;
      }
      if needed <= cap {
        return true;
      }
      var newCap := if cap < MIN_CAP then MIN_CAP else cap;
      DoubledSize(cap);
      while newCap < needed
        invariant 0 < newCap <= SIZE_MAX && cap <= newCap && Doubled(newCap) && cap == old(cap) && !failed
        decreases needed - newCap
      {
        if newCap * 2 > SIZE_MAX {
          failed := true;
          return false;
        }
        DoubledAgain(newCap);
        newCap := newCap * 2;
      }
      var grown := memory.Alloc();
      if !grown {
        failed := true;
        return false;
      }
      cap := newCap;
      return true;
    }

    method Append(bytes: Bytes)
      requires Valid()
      modifies this
      ensures Valid() && Appended(old(data), old(failed), data, failed, bytes, memory.reliable)
      ensures bytes == [] ==> cap == old(cap) && failed == old(failed)
    {
      hide Doubled;
      if failed {
        return;
      }
      if |bytes| == 0 {
        AppendNothing(data, failed, memory.reliable);
        return;
      }
      var ok := Reserve(|bytes|);
      if ok {
        data := data + bytes;
      }
    }

    method MarkFailed()
      requires Valid()
      modifies this`failed
      ensures Valid() && failed
    {
      failed := true;
    }

    /** The contents as a C string: refused after a failure, or when a NUL inside would cut them short. */
    method DetachString() returns (out: Option<Bytes>)
      requires Valid()
      modifies this
      ensures out.Some? ==> !old(failed) && 0 !in old(data) && out.value == old(data) && data == [] && !failed
      ensures out.None? ==> old(failed) || 0 in old(data) || !memory.reliable || |old(data)| + 1 > SIZE_MAX / 2
      ensures out.None? ==> old(failed) || 0 in old(data) || |old(data)| == old(cap)
      ensures memory.spent && !memory.reliable && |old(data)| == old(cap) ==> out.None?
    {
      if failed || 0 in data {
        return None;
      }
      var ok := Reserve(1);
      if !ok {
        return None;
      }
      out := Some(data);
      data, cap, failed := [], 0, false;
    }

    /** The contents as bytes. */
    method Detach() returns (out: Option<Bytes>)
      requires Valid()
      modifies this
      ensures out.Some? ==> !old(failed) && out.value == old(data)
      ensures out.None? ==> old(failed) || !memory.reliable
    {
      if failed {
        return None;
      }
      if cap == 0 {
        var ok := Reserve(1);
        if !ok {
          return None;
        }
      }
      out := Some(data);
      data, cap, failed := [], 0, false;
    }
  }
}
