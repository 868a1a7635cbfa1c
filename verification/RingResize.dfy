/** What a fixed ring size does to the keys of the hosts that stay when a host leaves: the
    build divides the size by the number of hosts, so the others may gain entries. */
module RingResize {
  import opened Common
  import opened RingHash
  import Decimal

  /** Entries per host in a ring built for size `m` over `n` hosts. */
  function Replicas(m: nat, n: nat): nat {
    if n == 0 then 0 else m / n
  }

  predicate SameAddress(a: seq<string>, i: Option<nat>, b: seq<string>, j: Option<nat>) {
    i.Some? && j.Some? && i.value < |a| && j.value < |b| && a[i.value] == b[j.value]
  }

  /** In rings built for size `m`, a key of a host other than `gone` stays with its address
      when `gone` leaves. */
  predicate Stays(addresses: seq<string>, m: nat, hash: KeyHash, gone: nat, key: nat)
    requires gone < |addresses|
  {
    var n, rest := |addresses|, DropHost(addresses, gone);
    var before := HostOf(addresses, Replicas(m, n), hash, key);
    before.Some? && before != Some(gone) ==>
      SameAddress(addresses, before, rest, HostOf(rest, Replicas(m, n - 1), hash, key))
  }

  /** Whatever the hash and whoever leaves, no key of a remaining host moves. */
  ghost predicate KeysStay(addresses: seq<string>, m: nat) {
    forall hash: KeyHash, gone: nat, key: nat | gone < |addresses| && key < TWO_64 ::
      Stays(addresses, m, hash, gone, key)
  }

  predicate AllSame(addresses: seq<string>) {
    forall i | 0 <= i < |addresses| :: addresses[i] == addresses[0]
  }

  // ---------------------------------------------------------------------------
  // Entries
  // ---------------------------------------------------------------------------

  /** The key of a replica determines the address and the number. */
  lemma ReplicaKeyInjective(a: string, i: nat, b: string, j: nat)
    requires a + "_" + Decimal.Text(i) == b + "_" + Decimal.Text(j)
    ensures a == b && i == j
  {
    SameDigits(a, Decimal.Text(i), b, Decimal.Text(j));
    Decimal.ValueOfText(i);
    Decimal.ValueOfText(j);
  }

  lemma SameDigits(a: string, s: string, b: string, t: string)
    requires a + "_" + s == b + "_" + t && Decimal.AllDigits(s) && Decimal.AllDigits(t)
    ensures a == b && s == t
  {
    var x := a + "_" + s;
    assert x[|a|] == '_' && x[|b|] == '_';
    forall k | |a| < k < |x| ensures x[k] != '_' {
      assert x[k] == s[k - |a| - 1];
    }
    forall k | |b| < k < |x| ensures x[k] != '_' {
      assert x[k] == t[k - |b| - 1];
    }
    assert |a| == |b|;
    assert a == x[..|a|] && b == x[..|a|] && s == x[|a| + 1..] && t == x[|a| + 1..];
  }

  /** Every entry is some host's replica. */
  lemma {:induction false} RawFrom(addresses: seq<string>, replicas: nat, hash: KeyHash, e: Entry) returns (host: nat, i: nat)
    requires e in RawEntries(addresses, replicas, hash)
    ensures host < |addresses| && i < replicas && e == ReplicaEntry(addresses[host], host, i, hash)
  {
    var n := |addresses| - 1;
    if e in RawEntries(addresses[..n], replicas, hash) {
      host, i := RawFrom(addresses[..n], replicas, hash, e);
    } else {
      host := n;
      i :| 0 <= i < replicas && HostEntries(addresses[n], n, replicas, hash)[i] == e;
    }
  }

  /** Every host's replicas are entries. */
  lemma {:induction false} RawHas(addresses: seq<string>, replicas: nat, hash: KeyHash, host: nat, i: nat)
    requires host < |addresses| && i < replicas
    ensures ReplicaEntry(addresses[host], host, i, hash) in RawEntries(addresses, replicas, hash)
  {
    var n := |addresses| - 1;
    if host < n {
      RawHas(addresses[..n], replicas, hash, host, i);
    } else {
      assert HostEntries(addresses[n], n, replicas, hash)[i] in HostEntries(addresses[n], n, replicas, hash);
    }
  }

  lemma {:induction false} RawFirst(addresses: seq<string>, replicas: nat, hash: KeyHash)
    requires addresses != [] && replicas > 0
    ensures var raw := RawEntries(addresses, replicas, hash);
      raw != [] && raw[0] == ReplicaEntry(addresses[0], 0, 0, hash)
  {
    var n := |addresses| - 1;
    if n > 0 {
      RawFirst(addresses[..n], replicas, hash);
    } else {
      assert RawEntries(addresses[..0], replicas, hash) == [];
    }
  }

  lemma {:induction false} RawNone(addresses: seq<string>, hash: KeyHash)
    ensures RawEntries(addresses, 0, hash) == []
  {
    if addresses != [] {
      RawNone(addresses[..|addresses| - 1], hash);
    }
  }

  // ---------------------------------------------------------------------------
  // When keys stay
  // ---------------------------------------------------------------------------

  lemma CancelFactor(a: int, b: int, d: int)
    requires d > 0 && a * d < b * d
    ensures a < b
  {
    assert (a - b) * d < 0;
  }

  lemma ReplicasGrow(m: nat, n: nat)
    requires n > 1
    ensures Replicas(m, n) <= Replicas(m, n - 1)
  {
    var q, k, d := m / n, m / (n - 1), n - 1;
    assert m == q * n + m % n && q * n == q * d + q;
    assert m == k * d + m % d && (k + 1) * d == k * d + d;
    CancelFactor(q, k + 1, d);
  }

  lemma Served(addresses: seq<string>, replicas: nat, hash: KeyHash, key: nat)
    requires key < TWO_64
    ensures var h := HostOf(addresses, replicas, hash, key);
      && (h.Some? ==> h.value < |addresses| && replicas > 0)
      && (addresses != [] && replicas > 0 ==> h.Some?)
  {
    HostOfIsNearest(addresses, replicas, hash, key);
    if replicas == 0 {
      RawNone(addresses, hash);
    } else if addresses != [] {
      RawFirst(addresses, replicas, hash);
    }
  }

  lemma StaysEqual(addresses: seq<string>, m: nat, hash: KeyHash, gone: nat, key: nat)
    requires gone < |addresses| && key < TWO_64 && |addresses| > 1
    requires Replicas(m, |addresses|) == Replicas(m, |addresses| - 1)
    ensures Stays(addresses, m, hash, gone, key)
  {
    var before := HostOf(addresses, Replicas(m, |addresses|), hash, key);
    if before.Some? && before.value != gone {
      RemovalKeepsOtherKeys(addresses, Replicas(m, |addresses|), hash, gone, key);
    }
  }

  lemma NowhereElse(addresses: seq<string>, gone: nat, kept: nat)
    requires gone < |addresses| && kept < |addresses| && kept != gone
    requires |addresses| <= 2 || AllSame(addresses)
    ensures var rest := DropHost(addresses, gone);
      rest != [] && forall j | 0 <= j < |rest| :: rest[j] == addresses[kept]
  {
    var rest := DropHost(addresses, gone);
    assert forall j | 0 <= j < |rest| :: rest[j] == addresses[if j < gone then j else j + 1];
  }

  /** One address left, or one address in all: there is nowhere else to go. */
  lemma StaysForced(addresses: seq<string>, m: nat, hash: KeyHash, gone: nat, key: nat)
    requires gone < |addresses| && key < TWO_64
    requires |addresses| <= 2 || AllSame(addresses)
    ensures Stays(addresses, m, hash, gone, key)
  {
    hide HostOf;
    hide Replicas;
    hide DropHost;
    var n, rest := |addresses|, DropHost(addresses, gone);
    var before := HostOf(addresses, Replicas(m, n), hash, key);
    Served(addresses, Replicas(m, n), hash, key);
    if before.Some? && before != Some(gone) {
      ReplicasGrow(m, n);
      Served(rest, Replicas(m, n - 1), hash, key);
      NowhereElse(addresses, gone, before.value);
    }
  }

  lemma StaysWhen(addresses: seq<string>, m: nat)
    requires |addresses| <= 2 || AllSame(addresses) || Replicas(m, |addresses|) == 0 || Replicas(m, |addresses|) == Replicas(m, |addresses| - 1)
    ensures KeysStay(addresses, m)
  {
    forall hash: KeyHash, gone: nat, key: nat | gone < |addresses| && key < TWO_64
      ensures Stays(addresses, m, hash, gone, key)
    {
      if |addresses| <= 2 || AllSame(addresses) {
        StaysForced(addresses, m, hash, gone, key);
      } else if Replicas(m, |addresses|) == 0 {
        Served(addresses, Replicas(m, |addresses|), hash, key);
      } else {
        StaysEqual(addresses, m, hash, gone, key);
      }
    }
  }

  // ---------------------------------------------------------------------------
  // When a key moves
  // ---------------------------------------------------------------------------

  /** A hash that puts one replica key first on the ring, another right behind it and
      everything else after both. */
  function Lure(first: string, second: string): KeyHash {
    (s: string) => if s == first then 0 else if s == second then 1 else 2
  }

  lemma NotYetThere(addresses: seq<string>, replicas: nat, hash: KeyHash, y: string, e: Entry)
    requires e in RawEntries(addresses, replicas, hash)
    requires forall s :: hash(s) == 0 ==> s == y + "_" + Decimal.Text(replicas)
    ensures e.hash >= 1
  {
    var host, i := RawFrom(addresses, replicas, hash, e);
    if hash(addresses[host] + "_" + Decimal.Text(i)) == 0 {
      ReplicaKeyInjective(addresses[host], i, y, replicas);
    }
  }

  lemma FirstWins(raw: seq<Entry>)
    requires raw != [] && raw[0].hash == 1 && forall x | 0 <= x < |raw| :: raw[x].hash >= 1
    ensures Nearest(raw, 0) == raw[0]
  {
    var x := NearestIsFirstMinimum(raw, 0);
  }

  /** Before: the replica that the others gain is not there yet, and host 0 is nearest. */
  lemma BeforeLeaving(addresses: seq<string>, replicas: nat, y: string)
    requires addresses != [] && replicas > 0 && y != addresses[0]
    ensures var hash := Lure(y + "_" + Decimal.Text(replicas), addresses[0] + "_" + Decimal.Text(0));
      HostOf(addresses, replicas, hash, 0) == Some(0)
  {
    hide RawEntries;
    hide HostOf;
    hide Nearest;
    var first, second := y + "_" + Decimal.Text(replicas), addresses[0] + "_" + Decimal.Text(0);
    var hash := Lure(first, second);
    var raw := RawEntries(addresses, replicas, hash);
    RawFirst(addresses, replicas, hash);
    if first == second {
      ReplicaKeyInjective(addresses[0], 0, y, replicas);
    }
    forall x | 0 <= x < |raw| ensures raw[x].hash >= 1 {
      NotYetThere(addresses, replicas, hash, y, raw[x]);
    }
    FirstWins(raw);
    HostOfIsNearest(addresses, replicas, hash, 0);
  }

  /** After: the replica is there, and only its address has it. */
  lemma AfterLeaving(rest: seq<string>, replicas: nat, more: nat, y: string, second: string)
    requires y in rest && replicas < more && second != y + "_" + Decimal.Text(replicas)
    ensures var h := HostOf(rest, more, Lure(y + "_" + Decimal.Text(replicas), second), 0);
      h.Some? && h.value < |rest| && rest[h.value] == y
  {
    hide RawEntries;
    hide HostOf;
    hide Nearest;
    var first := y + "_" + Decimal.Text(replicas);
    var hash := Lure(first, second);
    var raw := RawEntries(rest, more, hash);
    var host :| 0 <= host < |rest| && rest[host] == y;
    RawHas(rest, more, hash, host, replicas);
    var w :| 0 <= w < |raw| && raw[w] == ReplicaEntry(y, host, replicas, hash);
    var x := NearestIsFirstMinimum(raw, 0);
    assert raw[x].hash == 0;
    var h, i := RawFrom(rest, more, hash, raw[x]);
    ReplicaKeyInjective(rest[h], i, y, replicas);
    HostOfIsNearest(rest, more, hash, 0);
  }

  /** With three hosts, two different addresses and more entries per host afterwards, some
      hash moves a key between two hosts that both stay. */
  lemma SomeKeyMoves(addresses: seq<string>, m: nat) returns (hash: KeyHash, gone: nat)
    requires |addresses| >= 3 && !AllSame(addresses)
    requires 0 < Replicas(m, |addresses|) < Replicas(m, |addresses| - 1)
    ensures gone < |addresses| && !Stays(addresses, m, hash, gone, 0)
  {
    var n := |addresses|;
    var j :| 0 <= j < n && addresses[j] != addresses[0];
    gone := if j == 1 then 2 else 1;
    var rest := DropHost(addresses, gone);
    assert rest[if j < gone then j else j - 1] == addresses[j];
    var b, y := Replicas(m, n), addresses[j];
    var lead := addresses[0] + "_" + Decimal.Text(0);
    hash := Lure(y + "_" + Decimal.Text(b), lead);
    if lead == y + "_" + Decimal.Text(b) {
      ReplicaKeyInjective(addresses[0], 0, y, b);
    }
    BeforeLeaving(addresses, b, y);
    AfterLeaving(rest, b, Replicas(m, n - 1), y, lead);
  }

  /** For every configuration: no hash ever moves a key between hosts that stay, exactly when
      at most two hosts are configured, they all have one address, the ring is too small to
      hold any entry, or the number of entries per host does not change. */
  lemma KeysStayIff(addresses: seq<string>, m: nat)
    ensures KeysStay(addresses, m) <==>
      || |addresses| <= 2 || AllSame(addresses)
      || Replicas(m, |addresses|) == 0 || Replicas(m, |addresses|) == Replicas(m, |addresses| - 1)
  {
    if |addresses| <= 2 || AllSame(addresses) || Replicas(m, |addresses|) == 0 || Replicas(m, |addresses|) == Replicas(m, |addresses| - 1) {
      StaysWhen(addresses, m);
    } else {
      ReplicasGrow(m, |addresses|);
      var hash, gone := SomeKeyMoves(addresses, m);
    }
  }
}
