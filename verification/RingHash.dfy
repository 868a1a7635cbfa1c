/** The consistent-hashing ring: a stable sort and a partition point that together find
    the entry nearest clockwise, and what happens when a host leaves. */
module RingHash {
  import opened Common
  import Decimal

  datatype Entry = Entry(hash: nat, host: nat)

  /** The hash of a replica key; the sources use xxHash64 with seed 0. */
  type KeyHash = string -> u64

  // ---------------------------------------------------------------------------
  // The entries, in insertion order
  // ---------------------------------------------------------------------------

  function ReplicaEntry(address: string, host: nat, i: nat, hash: KeyHash): Entry {
    Entry(hash(address + "_" + Decimal.Text(i)) as nat, host)
  }

  function HostEntries(address: string, host: nat, replicas: nat, hash: KeyHash): (es: seq<Entry>)
    ensures |es| == replicas
    ensures forall i | 0 <= i < replicas :: es[i] == ReplicaEntry(address, host, i, hash)
  {
    seq(replicas, i requires i >= 0 => ReplicaEntry(address, host, i, hash))
  }

  function RawEntries(addresses: seq<string>, replicas: nat, hash: KeyHash): (es: seq<Entry>)
    ensures forall e | e in es :: e.hash < TWO_64 && e.host < |addresses|
  {
    if addresses == [] then []
    else
      var n := |addresses| - 1;
      RawEntries(addresses[..n], replicas, hash) + HostEntries(addresses[n], n, replicas, hash)
  }

  // ---------------------------------------------------------------------------
  // Stable sorting
  // ---------------------------------------------------------------------------

  predicate Sorted(s: seq<Entry>) {
    forall i, j | 0 <= i < j < |s| :: s[i].hash <= s[j].hash
  }

  /** Insert after every entry with the same or a smaller hash. */
  function Insert(s: seq<Entry>, e: Entry): seq<Entry> {
    if s == [] || s[|s| - 1].hash <= e.hash then s + [e]
    else Insert(s[..|s| - 1], e) + [s[|s| - 1]]
  }

  function StableSort(raw: seq<Entry>): seq<Entry> {
    if raw == [] then [] else Insert(StableSort(raw[..|raw| - 1]), raw[|raw| - 1])
  }

  lemma {:induction false} InsertPosition(s: seq<Entry>, e: Entry) returns (p: nat)
    requires Sorted(s)
    ensures p <= |s| && Insert(s, e) == s[..p] + [e] + s[p..]
    ensures forall i | 0 <= i < p :: s[i].hash <= e.hash
    ensures forall i | p <= i < |s| :: s[i].hash > e.hash
    ensures Sorted(Insert(s, e))
  {
    if s == [] || s[|s| - 1].hash <= e.hash {
      p := |s|;
      assert s[..p] == s && s[p..] == [] && s + [e] + [] == s + [e];
    } else {
      var n := |s| - 1;
      p := InsertPosition(s[..n], e);
      SplitLast(s, e, p);
      assert forall i | 0 <= i < n :: s[..n][i] == s[i];
    }
    SortedAround(s, e, p);
  }

  lemma SortedAround(s: seq<Entry>, e: Entry, p: nat)
    requires Sorted(s) && p <= |s|
    requires (forall i | 0 <= i < p :: s[i].hash <= e.hash) && (forall i | p <= i < |s| :: s[i].hash > e.hash)
    ensures Sorted(s[..p] + [e] + s[p..])
  {
    var t := s[..p] + [e] + s[p..];
    assert forall i | 0 <= i < |t| :: t[i] == if i < p then s[i] else if i == p then e else s[i - 1];
  }

  lemma SplitLast(s: seq<Entry>, e: Entry, p: nat)
    requires p < |s|
    ensures s[..|s| - 1][..p] + [e] + s[..|s| - 1][p..] + [s[|s| - 1]] == s[..p] + [e] + s[p..]
  {
  }

  lemma {:induction false} SortSorts(raw: seq<Entry>)
    ensures Sorted(StableSort(raw))
  {
    if raw != [] {
      SortSorts(raw[..|raw| - 1]);
      var p := InsertPosition(StableSort(raw[..|raw| - 1]), raw[|raw| - 1]);
    }
  }

  /** The entries with a given hash, in their order. */
  function WithHash(s: seq<Entry>, h: nat): seq<Entry> {
    if s == [] then []
    else if s[|s| - 1].hash == h then WithHash(s[..|s| - 1], h) + [s[|s| - 1]]
    else WithHash(s[..|s| - 1], h)
  }

  lemma {:induction false} WithHashInsert(s: seq<Entry>, e: Entry, h: nat)
    requires Sorted(s)
    ensures WithHash(Insert(s, e), h) == WithHash(s + [e], h)
  {
    assert (s + [e])[..|s|] == s;
    if s != [] && s[|s| - 1].hash > e.hash {
      var n := |s| - 1;
      WithHashInsert(s[..n], e, h);
      assert (Insert(s[..n], e) + [s[n]])[..|Insert(s[..n], e)|] == Insert(s[..n], e);
      assert (s[..n] + [e])[..n] == s[..n];
      if h == e.hash {
        assert s[n].hash != h;
      }
    }
  }

  /** Sorting keeps, for every hash, its entries in insertion order: it is a permutation and
      it is stable. */
  lemma {:induction false} SortIsStable(raw: seq<Entry>, h: nat)
    ensures WithHash(StableSort(raw), h) == WithHash(raw, h)
  {
    if raw != [] {
      var n := |raw| - 1;
      SortSorts(raw[..n]);
      SortIsStable(raw[..n], h);
      WithHashInsert(StableSort(raw[..n]), raw[n], h);
      assert (StableSort(raw[..n]) + [raw[n]])[..|StableSort(raw[..n])|] == StableSort(raw[..n]);
    }
  }

  lemma {:induction false} WithHashMembers(s: seq<Entry>, h: nat)
    ensures WithHash(s, h) == [] <==> forall i | 0 <= i < |s| :: s[i].hash != h
    ensures WithHash(s, h) != [] ==> WithHash(s, h)[|WithHash(s, h)| - 1].hash == h
  {
    if s != [] {
      WithHashMembers(s[..|s| - 1], h);
      if s[|s| - 1].hash != h {
        assert forall i | 0 <= i < |s| - 1 :: s[i] == s[..|s| - 1][i];
      }
    }
  }

  /** Those two facts leave one possible result, whatever sorting algorithm is used. */
  lemma {:induction false} StableSortUnique(a: seq<Entry>, b: seq<Entry>)
    requires Sorted(a) && Sorted(b) && forall h: nat :: WithHash(a, h) == WithHash(b, h)
    ensures a == b
  {
    if a == [] {
      if b != [] {
        WithHashMembers(b, b[0].hash);
        WithHashMembers(a, b[0].hash);
      }
    } else {
      var h := a[|a| - 1].hash;
      WithHashMembers(a, h);
      WithHashMembers(b, h);
      var h' := b[|b| - 1].hash;
      WithHashMembers(b, h');
      WithHashMembers(a, h');
      assert WithHash(a, h) == WithHash(b, h) && WithHash(a, h') == WithHash(b, h');
      assert h == h';
      var a', b', x, y := a[..|a| - 1], b[..|b| - 1], a[|a| - 1], b[|b| - 1];
      assert WithHash(a', h) + [x] == WithHash(b', h) + [y];
      assert x == (WithHash(a', h) + [x])[|WithHash(a', h)|] && y == (WithHash(b', h) + [y])[|WithHash(b', h)|];
      forall g: nat ensures WithHash(a', g) == WithHash(b', g) {
        assert WithHash(a, g) == WithHash(b, g);
        if g == h {
          assert WithHash(a', h) == (WithHash(a', h) + [x])[..|WithHash(a', h)|];
          assert WithHash(b', h) == (WithHash(b', h) + [y])[..|WithHash(b', h)|];
        }
      }
      StableSortUnique(a', b');
    }
  }

  // ---------------------------------------------------------------------------
  // Lookup
  // ---------------------------------------------------------------------------

  datatype HashRing = HashRing(entries: seq<Entry>)

  /** The index of the first entry whose hash is not below the key. */
  function PartitionPoint(s: seq<Entry>, key: nat): (r: nat)
    ensures r <= |s|
    ensures forall i | 0 <= i < r :: s[i].hash < key
    ensures r < |s| ==> s[r].hash >= key
  {
    if s == [] || s[0].hash >= key then 0 else 1 + PartitionPoint(s[1..], key)
  }

  function LookupEntry(s: seq<Entry>, key: nat): Entry
    requires s != []
  {
    var pos := PartitionPoint(s, key);
    s[if pos == |s| then 0 else pos]
  }

  function Lookup(r: HashRing, key: nat): (host: Option<nat>)
    ensures host.None? <==> r.entries == []
    ensures host.Some? ==> exists i :: 0 <= i < |r.entries| && r.entries[i].host == host.value
  {
    if r.entries == [] then None else Some(LookupEntry(r.entries, key).host)
  }

  /** How far clockwise an entry lies from the key, modulo 2^64. */
  function Distance(key: nat, hash: nat): int {
    if hash >= key then hash - key else hash + TWO_64 - key
  }

  /** A linear scan of the unsorted entries for the nearest one, the first on ties. */
  function Nearest(raw: seq<Entry>, key: nat): Entry
    requires raw != []
  {
    var last := raw[|raw| - 1];
    if |raw| == 1 then last
    else
      var best := Nearest(raw[..|raw| - 1], key);
      if Distance(key, last.hash) < Distance(key, best.hash) then last else best
  }

  lemma {:induction false} NearestIsFirstMinimum(raw: seq<Entry>, key: nat) returns (i: nat)
    requires raw != []
    ensures i < |raw| && raw[i] == Nearest(raw, key)
    ensures forall j | 0 <= j < |raw| :: Distance(key, raw[i].hash) <= Distance(key, raw[j].hash)
    ensures forall j | 0 <= j < i :: Distance(key, raw[i].hash) < Distance(key, raw[j].hash)
  {
    var n := |raw| - 1;
    if n == 0 {
      i := 0;
    } else {
      i := NearestIsFirstMinimum(raw[..n], key);
      if Distance(key, raw[n].hash) < Distance(key, raw[i].hash) {
        i := n;
      }
    }
  }

  ghost predicate InRange(s: seq<Entry>) {
    forall i | 0 <= i < |s| :: s[i].hash < TWO_64
  }

  lemma PartitionPointIs(s: seq<Entry>, key: nat, r: nat)
    requires r <= |s| && (forall i | 0 <= i < r :: s[i].hash < key) && (r < |s| ==> s[r].hash >= key)
    ensures PartitionPoint(s, key) == r
  {
  }

  ghost predicate Around(s: seq<Entry>, e: Entry, p: nat, t: seq<Entry>) {
    && p <= |s| && |t| == |s| + 1 && t[p] == e
    && (forall i | 0 <= i < p :: t[i] == s[i])
    && (forall i | p < i < |t| :: t[i] == s[i - 1])
  }

  /** Where the partition point moves when `e` goes in at position `p`. */
  lemma PartitionAround(s: seq<Entry>, e: Entry, key: nat, p: nat, t: seq<Entry>)
    requires Around(s, e, p, t)
    requires forall i | 0 <= i < p :: s[i].hash <= e.hash
    requires forall i | p <= i < |s| :: s[i].hash > e.hash
    ensures var q := PartitionPoint(s, key);
      if e.hash >= key then PartitionPoint(t, key) == if q < p then q else p
      else p <= q && PartitionPoint(t, key) == q + 1
  {
    hide PartitionPoint;
    var q := PartitionPoint(s, key);
    if e.hash < key {
      assert forall i | 0 <= i < q + 1 :: t[i].hash < key;
      assert q < |s| ==> t[q + 1] == s[q];
      PartitionPointIs(t, key, q + 1);
    } else {
      PartitionPointIs(t, key, if q < p then q else p);
    }
  }

  lemma LookupAround(s: seq<Entry>, e: Entry, key: nat, p: nat, t: seq<Entry>)
    requires Around(s, e, p, t) && Sorted(s) && InRange(s) && e.hash < TWO_64 && key < TWO_64
    requires forall i | 0 <= i < p :: s[i].hash <= e.hash
    requires forall i | p <= i < |s| :: s[i].hash > e.hash
    ensures LookupEntry(t, key) ==
      if s == [] || Distance(key, e.hash) < Distance(key, LookupEntry(s, key).hash) then e else LookupEntry(s, key)
  {
    PartitionAround(s, e, key, p, t);
    hide PartitionPoint;
  }

  /** One insertion changes the answer exactly when the new entry is strictly nearer. */
  lemma InsertLookup(s: seq<Entry>, e: Entry, key: nat)
    requires Sorted(s) && InRange(s) && e.hash < TWO_64 && key < TWO_64
    ensures Insert(s, e) != []
    ensures LookupEntry(Insert(s, e), key) ==
      if s == [] || Distance(key, e.hash) < Distance(key, LookupEntry(s, key).hash) then e else LookupEntry(s, key)
  {
    hide Insert;
    hide LookupEntry;
    hide Distance;
    var p := InsertPosition(s, e);
    assert Around(s, e, p, Insert(s, e));
    LookupAround(s, e, key, p, Insert(s, e));
  }

  lemma InsertInRange(s: seq<Entry>, e: Entry)
    requires Sorted(s) && InRange(s) && e.hash < TWO_64
    ensures InRange(Insert(s, e)) && Insert(s, e) != []
  {
    var p := InsertPosition(s, e);
  }

  /** Ring lookup agrees with the linear scan, for every entry list and key. */
  lemma {:induction false} LookupIsNearest(raw: seq<Entry>, key: nat)
    requires InRange(raw) && key < TWO_64
    ensures InRange(StableSort(raw)) && Sorted(StableSort(raw))
    ensures StableSort(raw) == [] <==> raw == []
    ensures raw != [] ==> LookupEntry(StableSort(raw), key) == Nearest(raw, key)
  {
    if raw != [] {
      var n := |raw| - 1;
      LookupIsNearest(raw[..n], key);
      SortSorts(raw);
      InsertInRange(StableSort(raw[..n]), raw[n]);
      InsertLookup(StableSort(raw[..n]), raw[n], key);
    }
  }

  // ---------------------------------------------------------------------------
  // Build
  // ---------------------------------------------------------------------------

  /** The host the ring over `addresses` sends a key to. */
  function HostOf(addresses: seq<string>, replicas: nat, hash: KeyHash, key: nat): Option<nat> {
    Lookup(HashRing(StableSort(RawEntries(addresses, replicas, hash))), key)
  }

  lemma HostOfIsNearest(addresses: seq<string>, replicas: nat, hash: KeyHash, key: nat)
    requires key < TWO_64
    ensures var raw := RawEntries(addresses, replicas, hash);
      if raw == [] then HostOf(addresses, replicas, hash, key) == None
      else HostOf(addresses, replicas, hash, key) == Some(Nearest(raw, key).host) && Nearest(raw, key).host < |addresses|
  {
    var raw := RawEntries(addresses, replicas, hash);
    assert forall i | 0 <= i < |raw| :: raw[i] in raw;
    LookupIsNearest(raw, key);
    if raw != [] {
      var i := NearestIsFirstMinimum(raw, key);
    }
  }

  // ---------------------------------------------------------------------------
  // Lookup in terms of the addresses
  // ---------------------------------------------------------------------------

  /** How far clockwise replica `i` of an address lies from a key, modulo 2^64. */
  function ReplicaDistance(address: string, i: nat, hash: KeyHash, key: nat): int
    requires key < TWO_64
  {
    (hash(address + "_" + Decimal.Text(i)) as nat + TWO_64 - key) % TWO_64
  }

  /** Replica `i` of host `h` is nearest to the key, and the first of those that are. */
  ghost predicate Serves(addresses: seq<string>, replicas: nat, hash: KeyHash, key: nat, h: nat, i: nat) {
    && key < TWO_64 && h < |addresses| && i < replicas
    && forall g: nat, j: nat | g < |addresses| && j < replicas ::
         && ReplicaDistance(addresses[h], i, hash, key) <= ReplicaDistance(addresses[g], j, hash, key)
         && (g < h || (g == h && j < i) ==>
               ReplicaDistance(addresses[h], i, hash, key) < ReplicaDistance(addresses[g], j, hash, key))
  }

  lemma DistanceOf(address: string, host: nat, i: nat, hash: KeyHash, key: nat)
    requires key < TWO_64
    ensures Distance(key, ReplicaEntry(address, host, i, hash).hash) == ReplicaDistance(address, i, hash, key)
  {
  }

  lemma Rows(h: nat, i: nat, g: nat, j: nat, n: nat)
    requires i < n && j < n
    ensures h * n + i < g * n + j <==> h < g || (h == g && i < j)
  {
    if h < g {
      assert (h + 1) * n <= g * n;
    } else if g < h {
      assert (g + 1) * n <= h * n;
    }
  }

  /** The entries are laid out host by host, replica by replica. */
  lemma {:induction false} RawAt(addresses: seq<string>, replicas: nat, hash: KeyHash, h: nat, i: nat)
    requires h < |addresses| && i < replicas
    ensures var raw := RawEntries(addresses, replicas, hash);
      && |raw| == |addresses| * replicas && h * replicas + i < |raw|
      && raw[h * replicas + i] == ReplicaEntry(addresses[h], h, i, hash)
  {
    var n := |addresses| - 1;
    RawSize(addresses, replicas, hash);
    RawSize(addresses[..n], replicas, hash);
    Rows(h, i, n, replicas - 1, replicas);
    if h < n {
      RawAt(addresses[..n], replicas, hash, h, i);
    }
  }

  lemma {:induction false} RawSize(addresses: seq<string>, replicas: nat, hash: KeyHash)
    ensures |RawEntries(addresses, replicas, hash)| == |addresses| * replicas
  {
    if addresses != [] {
      var n := |addresses| - 1;
      RawSize(addresses[..n], replicas, hash);
      assert (n + 1) * replicas == n * replicas + replicas;
    }
  }

  lemma RowOf(x: nat, n: nat, rows: nat) returns (h: nat, i: nat)
    requires x < rows * n
    ensures h < rows && i < n && x == h * n + i
  {
    h, i := x / n, x % n;
    assert x == h * n + i;
    assert h * n < rows * n;
  }

  /** Entry `x` of the list is at most as far from the key as any other, and nearer than any
      before it. */
  ghost predicate FirstMinimum(raw: seq<Entry>, key: nat, x: nat) {
    && x < |raw|
    && (forall j | 0 <= j < |raw| :: Distance(key, raw[x].hash) <= Distance(key, raw[j].hash))
    && (forall j | 0 <= j < x :: Distance(key, raw[x].hash) < Distance(key, raw[j].hash))
  }

  /** The same for replica `i` of host `h` against replica `j` of host `g`. */
  lemma NoneNearer(addresses: seq<string>, replicas: nat, hash: KeyHash, key: nat, h: nat, i: nat, g: nat, j: nat)
    requires key < TWO_64 && h < |addresses| && i < replicas && g < |addresses| && j < replicas
    requires FirstMinimum(RawEntries(addresses, replicas, hash), key, h * replicas + i)
    ensures ReplicaDistance(addresses[h], i, hash, key) <= ReplicaDistance(addresses[g], j, hash, key)
    ensures g < h || (g == h && j < i) ==>
      ReplicaDistance(addresses[h], i, hash, key) < ReplicaDistance(addresses[g], j, hash, key)
  {
    hide RawEntries;
    hide Distance;
    hide ReplicaDistance;
    hide ReplicaEntry;
    RawAt(addresses, replicas, hash, h, i);
    RawAt(addresses, replicas, hash, g, j);
    DistanceOf(addresses[h], h, i, hash, key);
    DistanceOf(addresses[g], g, j, hash, key);
    Rows(g, j, h, i, replicas);
    var raw, y := RawEntries(addresses, replicas, hash), g * replicas + j;
    assert Distance(key, raw[h * replicas + i].hash) <= Distance(key, raw[y].hash);
  }

  lemma FirstMinimumServes(addresses: seq<string>, replicas: nat, hash: KeyHash, key: nat, h: nat, i: nat)
    requires key < TWO_64 && h < |addresses| && i < replicas
    requires FirstMinimum(RawEntries(addresses, replicas, hash), key, h * replicas + i)
    ensures Serves(addresses, replicas, hash, key, h, i)
  {
    hide RawEntries;
    hide FirstMinimum;
    hide ReplicaDistance;
    forall g: nat, j: nat | g < |addresses| && j < replicas
      ensures ReplicaDistance(addresses[h], i, hash, key) <= ReplicaDistance(addresses[g], j, hash, key)
      ensures g < h || (g == h && j < i) ==>
        ReplicaDistance(addresses[h], i, hash, key) < ReplicaDistance(addresses[g], j, hash, key)
    {
      NoneNearer(addresses, replicas, hash, key, h, i, g, j);
    }
  }

  /** A key goes to the host of the nearest replica, the first in configuration order on
      ties; there is none exactly when no host has a replica. */
  lemma ServedByNearest(addresses: seq<string>, replicas: nat, hash: KeyHash, key: nat) returns (i: nat)
    requires key < TWO_64
    ensures var r := HostOf(addresses, replicas, hash, key);
      && (r.None? <==> addresses == [] || replicas == 0)
      && (r.Some? ==> Serves(addresses, replicas, hash, key, r.value, i))
  {
    hide RawEntries;
    hide Nearest;
    hide HostOf;
    hide Serves;
    hide Distance;
    hide ReplicaEntry;
    var raw := RawEntries(addresses, replicas, hash);
    RawSize(addresses, replicas, hash);
    HostOfIsNearest(addresses, replicas, hash, key);
    i := 0;
    if raw != [] {
      var x := NearestIsFirstMinimum(raw, key);
      var h;
      h, i := RowOf(x, replicas, |addresses|);
      RawAt(addresses, replicas, hash, h, i);
      HostOfReplica(addresses[h], h, i, hash);
      FirstMinimumServes(addresses, replicas, hash, key, h, i);
    } else {
      NoProduct(|addresses|, replicas);
    }
  }

  lemma HostOfReplica(address: string, host: nat, i: nat, hash: KeyHash)
    ensures ReplicaEntry(address, host, i, hash).host == host
  {
  }

  lemma NoProduct(a: nat, b: nat)
    ensures a * b == 0 <==> a == 0 || b == 0
  {
  }

  /** Push the replicas of one host. */
  method CollectHost(before: seq<Entry>, address: string, host: nat, replicas: nat, hash: KeyHash)
    returns (entries: seq<Entry>)
    ensures entries == before + HostEntries(address, host, replicas, hash)
  {
    entries := before;
    ghost var es := HostEntries(address, host, replicas, hash);
    assert before + es[..0] == before;
    for i := 0 to replicas
      invariant entries == before + es[..i]
    {
      var key := address + "_" + Decimal.Text(i);
      assert es[..i + 1] == es[..i] + [es[i]];
      entries := entries + [Entry(hash(key) as nat, host)];
    }
    assert es[..replicas] == es;
  }

  /** Push every replica of every host, in order. */
  method Collect(addresses: seq<string>, replicas: nat, hash: KeyHash) returns (entries: seq<Entry>)
    ensures entries == RawEntries(addresses, replicas, hash) && |entries| == |addresses| * replicas
  {
    entries := [];
    for host := 0 to |addresses|
      invariant entries == RawEntries(addresses[..host], replicas, hash)
      invariant |entries| == host * replicas
    {
      assert addresses[..host + 1][..host] == addresses[..host];
      entries := CollectHost(entries, addresses[host], host, replicas, hash);
    }
    assert addresses[..|addresses|] == addresses;
  }

  /** The ring over `addresses`: `minRingSize / |addresses|` replicas per host, sorted stably.
      For every key its lookup is the nearest entry clockwise. */
  method Build(addresses: seq<string>, minRingSize: nat, hash: KeyHash) returns (r: HashRing)
    ensures addresses == [] ==> r.entries == []
    ensures addresses != [] ==>
      var replicas := minRingSize / |addresses|;
      var raw := RawEntries(addresses, replicas, hash);
      && |raw| == |addresses| * replicas
      && Sorted(r.entries) && (forall h: nat :: WithHash(r.entries, h) == WithHash(raw, h))
      && (forall key: nat | key < TWO_64 ::
            && Lookup(r, key) == (if raw == [] then None else Some(Nearest(raw, key).host))
            && Lookup(r, key) == HostOf(addresses, replicas, hash, key))
      && (forall key: nat, h: nat | key < TWO_64 && Lookup(r, key) == Some(h) ::
            exists i :: Serves(addresses, replicas, hash, key, h, i))
  {
    hide RawEntries;
    hide StableSort;
    hide WithHash;
    hide Nearest;
    hide Lookup;
    var n := |addresses|;
    if n == 0 {
      return HashRing([]);
    }
    var replicas := minRingSize / n;
    var raw := Collect(addresses, replicas, hash);
    var entries := StableSort(raw);
    r := HashRing(entries);
    SortSorts(raw);
    forall h: nat ensures WithHash(r.entries, h) == WithHash(raw, h) {
      SortIsStable(raw, h);
    }
    forall key: nat | key < TWO_64
      ensures Lookup(r, key) == if raw == [] then None else Some(Nearest(raw, key).host)
    {
      HostOfIsNearest(addresses, replicas, hash, key);
    }
    forall key: nat, h: nat | key < TWO_64 && Lookup(r, key) == Some(h)
      ensures exists i :: Serves(addresses, replicas, hash, key, h, i)
    {
      var i := ServedByNearest(addresses, replicas, hash, key);
      assert Serves(addresses, replicas, hash, key, h, i);
    }
  }

  // ---------------------------------------------------------------------------
  // A host leaves
  // ---------------------------------------------------------------------------

  function DropHost(addresses: seq<string>, gone: nat): seq<string>
    requires gone < |addresses|
  {
    addresses[..gone] + addresses[gone + 1..]
  }

  /** The entries of the other hosts, with the hosts after the gone one moved up. */
  function Keep(raw: seq<Entry>, gone: nat): seq<Entry> {
    if raw == [] then []
    else if raw[|raw| - 1].host == gone then Keep(raw[..|raw| - 1], gone)
    else Keep(raw[..|raw| - 1], gone) + [Moved(raw[|raw| - 1], gone)]
  }

  function Moved(e: Entry, gone: nat): Entry {
    if e.host > gone then e.(host := e.host - 1) else e
  }

  lemma {:induction false} KeepConcat(a: seq<Entry>, b: seq<Entry>, gone: nat)
    ensures Keep(a + b, gone) == Keep(a, gone) + Keep(b, gone)
  {
    if b == [] {
      assert a + b == a;
    } else {
      assert (a + b)[..|a + b| - 1] == a + b[..|b| - 1];
      KeepConcat(a, b[..|b| - 1], gone);
    }
  }

  lemma KeepSnoc(raw: seq<Entry>, e: Entry, gone: nat)
    ensures Keep(raw + [e], gone) == if e.host == gone then Keep(raw, gone) else Keep(raw, gone) + [Moved(e, gone)]
  {
    assert (raw + [e])[..|raw|] == raw;
  }

  lemma HostSnoc(address: string, host: nat, replicas: nat, hash: KeyHash)
    ensures HostEntries(address, host, replicas + 1, hash) ==
      HostEntries(address, host, replicas, hash) + [ReplicaEntry(address, host, replicas, hash)]
  {
  }

  lemma {:induction false} KeepHost(address: string, host: nat, replicas: nat, hash: KeyHash, gone: nat)
    ensures Keep(HostEntries(address, host, replicas, hash), gone) ==
      if host == gone then [] else HostEntries(address, if host > gone then host - 1 else host, replicas, hash)
  {
    if replicas > 0 {
      hide Keep;
      KeepHost(address, host, replicas - 1, hash, gone);
      HostSnoc(address, host, replicas - 1, hash);
      HostSnoc(address, if host > gone then host - 1 else host, replicas - 1, hash);
      KeepSnoc(HostEntries(address, host, replicas - 1, hash), ReplicaEntry(address, host, replicas - 1, hash), gone);
    }
  }

  lemma {:induction false} KeepBelow(raw: seq<Entry>, gone: nat)
    requires forall e | e in raw :: e.host < gone
    ensures Keep(raw, gone) == raw
  {
    if raw != [] {
      var n := |raw| - 1;
      assert raw == raw[..n] + [raw[n]] && raw[n] in raw;
      KeepBelow(raw[..n], gone);
      hide Keep;
      KeepSnoc(raw[..n], raw[n], gone);
    }
  }

  lemma RawLast(addresses: seq<string>, replicas: nat, hash: KeyHash)
    requires addresses != []
    ensures var n := |addresses| - 1;
      RawEntries(addresses, replicas, hash) ==
        RawEntries(addresses[..n], replicas, hash) + HostEntries(addresses[n], n, replicas, hash)
  {
  }

  /** Building without the host is the same as building with it and dropping its entries. */
  lemma {:induction false} KeepRaw(addresses: seq<string>, replicas: nat, hash: KeyHash, gone: nat)
    requires gone < |addresses|
    ensures Keep(RawEntries(addresses, replicas, hash), gone) == RawEntries(DropHost(addresses, gone), replicas, hash)
  {
    hide RawEntries;
    hide Keep;
    var n := |addresses| - 1;
    var init := addresses[..n];
    RawLast(addresses, replicas, hash);
    KeepConcat(RawEntries(init, replicas, hash), HostEntries(addresses[n], n, replicas, hash), gone);
    KeepHost(addresses[n], n, replicas, hash, gone);
    if gone == n {
      KeepBelow(RawEntries(init, replicas, hash), gone);
      assert DropHost(addresses, gone) == init;
      assert RawEntries(init, replicas, hash) + [] == RawEntries(init, replicas, hash);
    } else {
      KeepRaw(init, replicas, hash, gone);
      var rest := DropHost(addresses, gone);
      assert rest[..|rest| - 1] == DropHost(init, gone) && rest[|rest| - 1] == addresses[n];
      RawLast(rest, replicas, hash);
    }
  }

  lemma {:induction false} KeptAreFar(raw: seq<Entry>, gone: nat, key: nat, d: int)
    requires forall i | 0 <= i < |raw| :: d <= Distance(key, raw[i].hash)
    ensures forall i | 0 <= i < |Keep(raw, gone)| :: d <= Distance(key, Keep(raw, gone)[i].hash)
  {
    if raw != [] {
      KeptAreFar(raw[..|raw| - 1], gone, key, d);
    }
  }

  lemma {:induction false} NearestKept(raw: seq<Entry>, gone: nat, key: nat)
    requires raw != [] && Nearest(raw, key).host != gone
    ensures Keep(raw, gone) != [] && Nearest(Keep(raw, gone), key) == Moved(Nearest(raw, key), gone)
  {
    var n := |raw| - 1;
    var init, last := raw[..n], raw[n];
    if init == [] {
      assert Keep(raw, gone) == [Moved(last, gone)];
    } else {
      var best := Nearest(init, key);
      var kept := Keep(init, gone);
      if Distance(key, last.hash) < Distance(key, best.hash) {
        var i := NearestIsFirstMinimum(init, key);
        KeptAreFar(init, gone, key, Distance(key, best.hash));
        assert Keep(raw, gone) == kept + [Moved(last, gone)];
        assert (kept + [Moved(last, gone)])[..|kept|] == kept;
        if kept != [] {
          var j := NearestIsFirstMinimum(kept, key);
        }
      } else {
        NearestKept(init, gone, key);
        if last.host != gone {
          assert Keep(raw, gone) == kept + [Moved(last, gone)];
          assert (kept + [Moved(last, gone)])[..|kept|] == kept;
        }
      }
    }
  }

  /** Minimal disruption: with the same number of replicas per host, removing one host moves
      only that host's keys; every other key stays with the host it had. */
  lemma RemovalKeepsOtherKeys(addresses: seq<string>, replicas: nat, hash: KeyHash, gone: nat, key: nat)
    requires gone < |addresses| && key < TWO_64
    requires HostOf(addresses, replicas, hash, key) != None && HostOf(addresses, replicas, hash, key) != Some(gone)
    ensures var before := HostOf(addresses, replicas, hash, key);
      var after := HostOf(DropHost(addresses, gone), replicas, hash, key);
      && before.value < |addresses| && after.Some? && after.value < |addresses| - 1
      && DropHost(addresses, gone)[after.value] == addresses[before.value]
  {
    hide RawEntries;
    hide Keep;
    hide Nearest;
    hide HostOf;
    HostOfIsNearest(addresses, replicas, hash, key);
    HostOfIsNearest(DropHost(addresses, gone), replicas, hash, key);
    KeepRaw(addresses, replicas, hash, gone);
    NearestKept(RawEntries(addresses, replicas, hash), gone, key);
  }
}
