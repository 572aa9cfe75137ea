/** The alg string of a machine file: a payload encoding, a signature scheme and the version v2, joined by '+'. */
module MachineAlg {
  import opened Buf

  datatype Split = Split(prefix: string, suffix: string)

  const VERSION: string := "v2"

  function Join(s: Split): string { s.prefix + "+" + s.suffix + "+" + VERSION }

  ghost predicate Splits(alg: string, s: Split) { '+' !in s.prefix && alg == Join(s) }

  /** An alg string can be split in one way at most. */
  lemma SplitUnique(alg: string, s: Split, t: Split)
    requires Splits(alg, s) && Splits(alg, t)
    ensures s == t
  {
    if |s.prefix| < |t.prefix| {
      PrefixEnd(alg, s, t);
    } else if |t.prefix| < |s.prefix| {
      PrefixEnd(alg, t, s);
    } else {
      var n := |s.prefix|;
      assert s.prefix == alg[..n] && t.prefix == alg[..n];
      assert s.suffix == alg[n + 1..|alg| - 3] && t.suffix == alg[n + 1..|alg| - 3];
    }
  }

  lemma PrefixEnd(alg: string, s: Split, t: Split)
    requires Splits(alg, s) && Splits(alg, t)
    ensures |s.prefix| >= |t.prefix|
  {
    assert alg[|s.prefix|] == '+';
    assert forall i :: 0 <= i < |t.prefix| ==> t.prefix[i] == alg[i] != '+';
  }

  /** tamga_machine_alg_split: it answers exactly when there is a split, with that split. */
  method AlgSplit(alg: string) returns (r: Option<Split>)
    ensures r.Some? <==> exists s :: Splits(alg, s)
    ensures r.Some? ==> Splits(alg, r.value)
  {
    hide Splits;
    if alg == "" {
      NoSplit(alg, 0, 0);
      return None;
    }
    var first := 0;
    while first < |alg| && alg[first] != '+'
      invariant first <= |alg| && '+' !in alg[..first]
    {
      assert alg[..first + 1] == alg[..first] + [alg[first]];
      first := first + 1;
    }
    if first == |alg| {
      NoSplit(alg, first, |alg|);
      return None;
    }
    var last := |alg|;
    while last > 0 && alg[last - 1] != '+'
      invariant first < last <= |alg| && '+' !in alg[last..]
    {
      assert alg[last - 1..] == [alg[last - 1]] + alg[last..];
      last := last - 1;
    }
    last := last - 1;
    if last == first || |alg| - last - 1 != |VERSION| || alg[last + 1..] != VERSION {
      NoSplit(alg, first, last);
      return None;
    }
    r := Some(Split(alg[..first], alg[first + 1..last]));
    SplitAt(alg, first, last);
  }

  lemma SplitAt(alg: string, first: nat, last: nat)
    requires first < last < |alg| && '+' !in alg[..first] && alg[first] == '+' && alg[last] == '+'
    requires alg[last + 1..] == VERSION
    ensures Splits(alg, Split(alg[..first], alg[first + 1..last]))
  {
    assert alg == alg[..first] + "+" + alg[first + 1..last] + "+" + alg[last + 1..];
  }

  /** The version holds no '+', so the last one stands right before it. */
  lemma NoSplit(alg: string, first: nat, last: nat)
    requires first <= last <= |alg| && '+' !in alg[..first] && '+' !in if last < |alg| then alg[last + 1..] else ""
    requires first < |alg| ==> last < |alg| && alg[first] == '+' && alg[last] == '+'
    requires first < |alg| ==> last == first || alg[last + 1..] != VERSION
    ensures !exists s :: Splits(alg, s)
  {
    forall s ensures !Splits(alg, s) {
      if Splits(alg, s) {
        OnlyLast(alg, s, first, last);
        assert false;
      }
    }
  }

  lemma OnlyLast(alg: string, s: Split, first: nat, last: nat)
    requires Splits(alg, s)
    requires first <= last <= |alg| && '+' !in alg[..first] && '+' !in if last < |alg| then alg[last + 1..] else ""
    requires first < |alg| ==> last < |alg| && alg[first] == '+' && alg[last] == '+'
    ensures first < |alg| && first < last && alg[last + 1..] == VERSION
  {
    var p, q := |s.prefix|, |alg| - 3;
    assert alg[p] == '+' && alg[q] == '+' && alg[q + 1] == 'v' && alg[q + 2] == '2';
    assert forall i :: 0 <= i < p ==> alg[i] == s.prefix[i];
    assert first == p;
    assert last == q;
    assert alg[q + 1..] == VERSION;
  }

  // ----- the scheme the caller names

  const ED25519: nat := 1

  /** tamga_machine_alg_suffix: what the alg string of a file under this scheme must name. */
  function Suffix(scheme: nat): Option<string>
  {
    if scheme == ED25519 then Some("ed25519")
    else if scheme == 2 then Some("rsa-sha256")
    else if scheme == 3 then Some("rsa-pss-sha256")
    else if scheme == 4 then Some("ecdsa-p256")
    else None
  }

  const PLAIN: string := "base64"
  const ENCRYPTED: string := "aes-256-gcm"

  /** The alg check of tamga_machine_open: each scheme goes with exactly two strings. */
  method OpenAlg(scheme: nat, alg: string) returns (ok: bool, encrypted: bool)
    ensures ok && !encrypted <==> Suffix(scheme).Some? && alg == Join(Split(PLAIN, Suffix(scheme).value))
    ensures ok && encrypted <==> Suffix(scheme).Some? && alg == Join(Split(ENCRYPTED, Suffix(scheme).value))
  {
    var expected := Suffix(scheme);
    if expected.None? {
      return false, false;
    }
    ghost var plain, secret := Split(PLAIN, expected.value), Split(ENCRYPTED, expected.value);
    hide Suffix, Join;
    var split := AlgSplit(alg);
    if alg == Join(plain) {
      assert Splits(alg, plain);
      SplitUnique(alg, plain, split.value);
    }
    if alg == Join(secret) {
      assert Splits(alg, secret);
      SplitUnique(alg, secret, split.value);
    }
    if split.None? || split.value.suffix != expected.value {
      return false, false;
    }
    if split.value.prefix == PLAIN {
      return true, false;
    }
    if split.value.prefix == ENCRYPTED {
      return true, true;
    }
    return false, false;
  }

  /** An alg string is taken under one scheme at most. */
  lemma SchemeUnique(p: string, q: string, a: nat, b: nat)
    requires Suffix(a).Some? && Suffix(b).Some? && '+' !in p && '+' !in q
    requires Join(Split(p, Suffix(a).value)) == Join(Split(q, Suffix(b).value))
    ensures a == b && p == q
  {
    SplitUnique(Join(Split(p, Suffix(a).value)), Split(p, Suffix(a).value), Split(q, Suffix(b).value));
    assert Suffix(a).value == Suffix(b).value;
    assert Suffix(a).value[0] == Suffix(b).value[0] && |Suffix(a).value| == |Suffix(b).value|;
  }
}
