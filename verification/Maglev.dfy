/** The Maglev lookup table: the cursor-advancing claim loop, the naive greedy
    process it implements, and the balance of the result. */
module Maglev {
  import opened Common
  import opened Primes

  /** The marker for a slot nobody has claimed (`usize::MAX`). */
  const UNCLAIMED: nat := 0xFFFF_FFFF_FFFF_FFFF

  datatype MaglevTable = MaglevTable(table: seq<nat>, tableSize: nat)

  /** One host's probe sequence. */
  datatype Permutation = Permutation(offset: nat, skip: nat) {
    function At(j: nat, m: nat): nat
      requires m > 0
    {
      Slot(offset, skip, j, m)
    }

    predicate Valid(m: nat) {
      offset < m && 0 < skip < m
    }
  }

  /** The hash of a host address under a seed; the sources use xxHash64. */
  type HostHash = (string, nat) -> u64

  function PermutationOf(address: string, m: nat, hash: HostHash): (p: Permutation)
    requires m >= 2
    ensures p.Valid(m)
  {
    Permutation(hash(address, 0) as nat % m, hash(address, 1) as nat % (m - 1) + 1)
  }

  function Permutations(addresses: seq<string>, m: nat, hash: HostHash): (ps: seq<Permutation>)
    requires m >= 2
    ensures |ps| == |addresses|
    ensures forall i | 0 <= i < |ps| :: ps[i] == PermutationOf(addresses[i], m, hash)
  {
    seq(|addresses|, i requires 0 <= i < |addresses| => PermutationOf(addresses[i], m, hash))
  }

  // ---------------------------------------------------------------------------
  // The naive greedy process
  // ---------------------------------------------------------------------------

  ghost predicate Free(t: seq<nat>, p: Permutation, j: nat)
    requires |t| > 0
  {
    t[p.At(j, |t|)] == UNCLAIMED
  }

  /** The first position at or after `j` whose slot is unclaimed, looking one lap ahead. */
  ghost function FirstFree(t: seq<nat>, p: Permutation, j: nat): nat
    requires |t| > 0
    decreases |t| - j
  {
    if j + 1 >= |t| || Free(t, p, j) then j else FirstFree(t, p, j + 1)
  }

  /** A turn of the naive process rescans the host's whole permutation from position 0. */
  ghost function NaiveClaim(t: seq<nat>, p: Permutation, host: nat): seq<nat>
    requires |t| > 0
  {
    t[p.At(FirstFree(t, p, 0), |t|) := host]
  }

  function Blank(m: nat): (t: seq<nat>)
    ensures |t| == m && forall c | 0 <= c < m :: t[c] == UNCLAIMED
  {
    seq(m, _ => UNCLAIMED)
  }

  /** The table after `k` turns taken round-robin in configuration order. */
  ghost function Greedy(ps: seq<Permutation>, m: nat, k: nat): (t: seq<nat>)
    requires m > 0 && |ps| > 0
    ensures |t| == m
  {
    if k == 0 then Blank(m)
    else
      var host := (k - 1) % |ps|;
      NaiveClaim(Greedy(ps, m, k - 1), ps[host], host)
  }

  /** How many of the first `k` turns belong to `host`. */
  function Turns(k: nat, n: nat, host: nat): nat
    requires n > 0
  {
    k / n + if host < k % n then 1 else 0
  }

  lemma NoTurns(n: nat, host: nat)
    requires n > 0
    ensures Turns(0, n, host) == 0
  {
  }

  lemma FirstFreeFinds(t: seq<nat>, p: Permutation, j: nat, w: nat)
    requires |t| > 0 && j <= w < |t| && Free(t, p, w)
    ensures j <= FirstFree(t, p, j) <= w
    ensures Free(t, p, FirstFree(t, p, j))
    ensures forall i | j <= i < FirstFree(t, p, j) :: !Free(t, p, i)
    decreases |t| - j
  {
    if !(j + 1 >= |t| || Free(t, p, j)) {
      FirstFreeFinds(t, p, j + 1, w);
    }
  }

  /** While a slot is unclaimed, every host finds one within a single lap. */
  lemma HostCanClaim(t: seq<nat>, p: Permutation)
    requires Prime(|t|) && p.Valid(|t|)
    requires UNCLAIMED in t
    ensures FirstFree(t, p, 0) < |t| && Free(t, p, FirstFree(t, p, 0))
    ensures forall i | 0 <= i < FirstFree(t, p, 0) :: !Free(t, p, i)
  {
    var c :| 0 <= c < |t| && t[c] == UNCLAIMED;
    ProbesCover(|t|, p.offset, p.skip, c);
    var w: nat :| w < |t| && Slot(p.offset, p.skip, w, |t|) == c;
    FirstFreeFinds(t, p, 0, w);
  }

  lemma TurnsStep(k: nat, n: nat, host: nat)
    requires n > 0 && host < n
    ensures Turns(k + 1, n, host) == Turns(k, n, host) + if k % n == host then 1 else 0
  {
    var q, r := k / n, k % n;
    if r + 1 < n {
      UniqueQuotient(k + 1, n, q, r + 1);
    } else {
      assert k + 1 == (q + 1) * n;
      UniqueQuotient(k + 1, n, q + 1, 0);
    }
  }

  lemma {:induction false} BlankCount(m: nat, h: nat)
    ensures multiset(Blank(m))[h] == if h == UNCLAIMED then m else 0
  {
    if m > 0 {
      BlankCount(m - 1, h);
      assert Blank(m) == Blank(m - 1) + [UNCLAIMED];
    }
  }

  /** One turn moves one slot from unclaimed to its host and touches no other count. */
  lemma ClaimCounts(t: seq<nat>, p: Permutation, host: nat, h: nat)
    requires Prime(|t|) && p.Valid(|t|) && UNCLAIMED in t && host != UNCLAIMED
    ensures multiset(NaiveClaim(t, p, host))[h] ==
            multiset(t)[h] + if h == host then 1 else if h == UNCLAIMED then -1 else 0
  {
    HostCanClaim(t, p);
    var c := p.At(FirstFree(t, p, 0), |t|);
    assert t[c] == UNCLAIMED;
    assert multiset(t[c := host]) == multiset(t) - multiset{UNCLAIMED} + multiset{host};
  }

  ghost predicate InRange(t: seq<nat>, n: nat) {
    forall c | 0 <= c < |t| :: t[c] == UNCLAIMED || t[c] < n
  }

  /** What turn `k` does to the number of unclaimed slots and to the count of host `h`. */
  lemma TurnCounts(t: seq<nat>, ps: seq<Permutation>, k: nat, h: nat)
    requires Prime(|t|) && 0 < |ps| < UNCLAIMED && 0 < k && h < |ps|
    requires forall i | 0 <= i < |ps| :: ps[i].Valid(|t|)
    requires multiset(t)[UNCLAIMED] > 0 && multiset(t)[h] == Turns(k - 1, |ps|, h)
    ensures var host := (k - 1) % |ps|;
      var t' := NaiveClaim(t, ps[host], host);
      && multiset(t')[UNCLAIMED] == multiset(t)[UNCLAIMED] - 1
      && multiset(t')[h] == Turns(k, |ps|, h)
  {
    hide NaiveClaim;
    var host := (k - 1) % |ps|;
    NotFull(t);
    ClaimCounts(t, ps[host], host, h);
    ClaimCounts(t, ps[host], host, UNCLAIMED);
    TurnsStep(k - 1, |ps|, h);
  }

  /** After `k` turns exactly `m - k` slots are unclaimed and every host owns one slot
      per turn it has had. */
  lemma {:induction false} GreedyCounts(ps: seq<Permutation>, m: nat, k: nat, h: nat)
    requires Prime(m) && 0 < |ps| < UNCLAIMED && k <= m && h < |ps|
    requires forall i | 0 <= i < |ps| :: ps[i].Valid(m)
    ensures multiset(Greedy(ps, m, k))[UNCLAIMED] == m - k
    ensures multiset(Greedy(ps, m, k))[h] == Turns(k, |ps|, h)
  {
    hide NaiveClaim;
    hide Turns;
    if k == 0 {
      NoTurns(|ps|, h);
      BlankCount(m, h);
      BlankCount(m, UNCLAIMED);
    } else {
      GreedyCounts(ps, m, k - 1, h);
      TurnCounts(Greedy(ps, m, k - 1), ps, k, h);
    }
  }

  lemma NotFull(t: seq<nat>)
    requires multiset(t)[UNCLAIMED] > 0
    ensures UNCLAIMED in t
  {
    assert UNCLAIMED in multiset(t);
  }

  lemma GreedyNotFull(ps: seq<Permutation>, m: nat, k: nat)
    requires Prime(m) && 0 < |ps| < UNCLAIMED && k < m
    requires forall i | 0 <= i < |ps| :: ps[i].Valid(m)
    ensures UNCLAIMED in Greedy(ps, m, k)
  {
    GreedyCounts(ps, m, k, 0);
    NotFull(Greedy(ps, m, k));
  }

  lemma {:induction false} GreedyInRange(ps: seq<Permutation>, m: nat, k: nat)
    requires Prime(m) && 0 < |ps| < UNCLAIMED && k <= m
    requires forall i | 0 <= i < |ps| :: ps[i].Valid(m)
    ensures InRange(Greedy(ps, m, k), |ps|)
  {
    if k > 0 {
      GreedyInRange(ps, m, k - 1);
    }
  }

  /** The full table: every slot owned, every host with its fair share. */
  lemma GreedyFull(ps: seq<Permutation>, m: nat)
    requires Prime(m) && 0 < |ps| < UNCLAIMED
    requires forall i | 0 <= i < |ps| :: ps[i].Valid(m)
    ensures forall c | 0 <= c < m :: Greedy(ps, m, m)[c] < |ps|
    ensures forall h: nat | h < |ps| :: multiset(Greedy(ps, m, m))[h] == Turns(m, |ps|, h)
  {
    var t := Greedy(ps, m, m);
    GreedyCounts(ps, m, m, 0);
    GreedyInRange(ps, m, m);
    assert UNCLAIMED !in multiset(t);
    forall h: nat | h < |ps| ensures multiset(Greedy(ps, m, m))[h] == Turns(m, |ps|, h) {
      GreedyCounts(ps, m, m, h);
    }
  }

  // ---------------------------------------------------------------------------
  // The claim loop
  // ---------------------------------------------------------------------------

  lemma ProbeFits(offset: nat, j: nat, skip: nat, m: nat)
    requires offset < m && j < m && skip < m && m <= TWO_32
    ensures offset + j * skip < m * m <= TWO_64
  {
    MulMonotone(j, m - 1, skip, m - 1);
    MulMonotone(m, TWO_32, m, TWO_32);
    assert (m - 1) * (m - 1) == m * m - 2 * m + 1;
  }

  /** No position before `upTo` of the permutation is unclaimed. */
  ghost predicate ClaimedBefore(t: seq<nat>, p: Permutation, upTo: nat)
    requires |t| > 0
  {
    forall j: nat | j < upTo :: !Free(t, p, j)
  }

  /** The cursor of a host never overtakes its first unclaimed position. */
  ghost predicate CursorsBehind(t: seq<nat>, ps: seq<Permutation>, next: seq<u64>)
    requires |t| > 0
  {
    |next| == |ps| && forall h | 0 <= h < |ps| :: ClaimedBefore(t, ps[h], next[h] as nat)
  }

  lemma CursorsStayBehind(t: seq<nat>, ps: seq<Permutation>, next: seq<u64>, host: nat, j: u64)
    requires |t| > 0 && CursorsBehind(t, ps, next) && host < |ps| && host != UNCLAIMED
    requires ClaimedBefore(t, ps[host], j as nat) && j as nat + 1 < TWO_64
    ensures CursorsBehind(t[ps[host].At(j as nat, |t|) := host], ps, next[host := j + 1])
  {
    var t', next' := t[ps[host].At(j as nat, |t|) := host], next[host := j + 1];
    forall h | 0 <= h < |ps| ensures ClaimedBefore(t', ps[h], next'[h] as nat) {
      forall i: nat | i < next'[h] as nat ensures !Free(t', ps[h], i) {
        if h != host || i < j as nat {
          assert !Free(t, ps[h], i);
        }
      }
    }
  }

  /** One probe, computed in `u64` and shown not to overflow. */
  method Probe(offset: u64, skip: u64, j: u64, m: u64) returns (c: u64)
    requires offset < m && skip < m && j < m && m as nat <= TWO_32
    ensures c as nat == Slot(offset as nat, skip as nat, j as nat, m as nat)
  {
    ProbeFits(offset as nat, j as nat, skip as nat, m as nat);
    c := (offset + j * skip) % m;
  }

  /** The inner search: advance the cursor from `start` to the host's first unclaimed slot. */
  method NextUnclaimed(table: array<nat>, ghost p: Permutation, offset: u64, skip: u64, start: u64)
    returns (c: u64, j: u64)
    requires 2 <= table.Length <= TWO_32 && Prime(table.Length)
    requires p.Valid(table.Length) && p == Permutation(offset as nat, skip as nat)
    requires UNCLAIMED in table[..] && ClaimedBefore(table[..], p, start as nat)
    ensures j as nat == FirstFree(table[..], p, 0) < table.Length
    ensures c as nat == p.At(j as nat, table.Length)
    ensures ClaimedBefore(table[..], p, j as nat) && Free(table[..], p, j as nat)
  {
    ghost var t := table[..];
    HostCanClaim(t, p);
    ghost var target := FirstFree(t, p, 0);
    assert start as nat <= target;
    var m := table.Length as u64;
    j := start;
    c := Probe(offset, skip, j, m);
    while table[c as int] != UNCLAIMED
      invariant start as nat <= j as nat <= target
      invariant c as nat == p.At(j as nat, table.Length)
      decreases target - j as nat
    {
      assert !Free(t, p, j as nat);
      j := j + 1;
      c := Probe(offset, skip, j, m);
    }
    assert Free(t, p, j as nat);
  }

  /** One host's turn: claim its next unclaimed slot and step past it. It is the turn of the
      naive process, which rescans from position 0. */
  method TakeTurn(table: array<nat>, ghost ps: seq<Permutation>, offset: u64, skip: u64, next: seq<u64>, host: nat)
    returns (next': seq<u64>)
    requires 2 <= table.Length <= TWO_32 && Prime(table.Length) && host < |ps| && host != UNCLAIMED
    requires ps[host] == Permutation(offset as nat, skip as nat) && ps[host].Valid(table.Length)
    requires UNCLAIMED in table[..] && CursorsBehind(table[..], ps, next)
    modifies table
    ensures table[..] == NaiveClaim(old(table[..]), ps[host], host)
    ensures CursorsBehind(table[..], ps, next')
  {
    var c, j := NextUnclaimed(table, ps[host], offset, skip, next[host]);
    CursorsStayBehind(table[..], ps, next, host, j);
    ghost var t := table[..];
    table[c as int] := host;
    next' := next[host := j + 1];
    assert table[..] == t[c as int := host];
  }

  /** One more turn of the naive process. */
  lemma GreedyStep(ps: seq<Permutation>, m: nat, k: nat)
    requires m > 0 && |ps| > 0
    ensures Greedy(ps, m, k + 1) == NaiveClaim(Greedy(ps, m, k), ps[k % |ps|], k % |ps|)
  {
  }

  /** The hosts' offsets and skips in `u64`. */
  method Probes(addresses: seq<string>, tableSize: u64, hash: HostHash) returns (offset: seq<u64>, skip: seq<u64>)
    requires tableSize >= 2
    ensures |offset| == |skip| == |addresses|
    ensures forall i | 0 <= i < |addresses| ::
      PermutationOf(addresses[i], tableSize as nat, hash) == Permutation(offset[i] as nat, skip[i] as nat)
  {
    offset := seq(|addresses|, i requires 0 <= i < |addresses| => hash(addresses[i], 0) % tableSize);
    skip := seq(|addresses|, i requires 0 <= i < |addresses| => hash(addresses[i], 1) % (tableSize - 1) + 1);
  }

  lemma StartOfBuild(ps: seq<Permutation>, m: nat, next: seq<u64>)
    requires |next| == |ps| > 0 && m > 0 && forall h | 0 <= h < |ps| :: next[h] == 0
    ensures Greedy(ps, m, 0) == Blank(m) && CursorsBehind(Blank(m), ps, next)
  {
  }

  // ---------------------------------------------------------------------------
  // The table, claim by claim
  // ---------------------------------------------------------------------------

  /** Slot `j` of the probe sequence of an address: its hash under seed 0 is the start, one
      plus its hash under seed 1 modulo M - 1 the step. */
  function ProbeSlot(address: string, j: nat, m: nat, hash: HostHash): (c: nat)
    requires m >= 2
    ensures c < m
  {
    (hash(address, 0) as nat + j * (1 + hash(address, 1) as nat % (m - 1))) % m
  }

  /** `claims` lists the slots in the order they were claimed: claim `k` belongs to host
      `k % n`, and is the first slot of that host's probe sequence that no earlier claim took. */
  ghost predicate ClaimedInTurn(table: seq<nat>, claims: seq<nat>, addresses: seq<string>, hash: HostHash) {
    var m, n := |table|, |addresses|;
    && |claims| == m >= 2 && n > 0
    && (forall k, l | 0 <= k < l < m :: claims[k] != claims[l])
    && (forall k | 0 <= k < m :: claims[k] < m && table[claims[k]] == k % n)
    && (forall k | 0 <= k < m :: FirstUntaken(addresses[k % n], m, hash, claims[..k], claims[k]))
  }

  ghost predicate FirstUntaken(address: string, m: nat, hash: HostHash, taken: seq<nat>, c: nat)
    requires m >= 2
  {
    exists j: nat :: c == ProbeSlot(address, j, m, hash) && forall i: nat | i < j :: ProbeSlot(address, i, m, hash) in taken
  }

  /** A claim is the first slot of a probe sequence outside the slots already taken. */
  ghost predicate FirstOutside(p: Permutation, m: nat, taken: seq<nat>, c: nat)
    requires m > 0
  {
    exists j: nat :: c == p.At(j, m) && forall i: nat | i < j :: p.At(i, m) in taken
  }

  function Owner(k: nat, n: nat): (h: nat)
    requires n > 0
    ensures h < n
  {
    k % n
  }

  /** The slots of `t` that are claimed, in the order of the turns. */
  ghost predicate Lists(t: seq<nat>, s: seq<nat>, ps: seq<Permutation>) {
    && |t| > 0 && |ps| > 0
    && (forall c: nat | c < |t| :: t[c] == UNCLAIMED <==> c !in s)
    && (forall i | 0 <= i < |s| :: s[i] < |t| && t[s[i]] == Owner(i, |ps|))
    && (forall i, j | 0 <= i < j < |s| :: s[i] != s[j])
    && (forall i | 0 <= i < |s| :: FirstOutside(ps[Owner(i, |ps|)], |t|, s[..i], s[i]))
  }

  lemma ListsStep(t: seq<nat>, s: seq<nat>, ps: seq<Permutation>, c: nat)
    requires Lists(t, s, ps) && c < |t| && t[c] == UNCLAIMED && |ps| < UNCLAIMED
    requires FirstOutside(ps[Owner(|s|, |ps|)], |t|, s, c)
    ensures Lists(t[c := Owner(|s|, |ps|)], s + [c], ps)
  {
    hide FirstOutside;
    hide Owner;
    var s', t', n := s + [c], t[c := Owner(|s|, |ps|)], |ps|;
    forall i | 0 <= i < |s'| ensures FirstOutside(ps[Owner(i, n)], |t'|, s'[..i], s'[i]) {
      assert s'[..i] == s[..i];
    }
    forall x | 0 <= x < |s| ensures s[x] in s && s[x] != c {
    }
  }

  lemma TurnIsFirstOutside(t: seq<nat>, s: seq<nat>, p: Permutation) returns (c: nat)
    requires Prime(|t|) && p.Valid(|t|) && UNCLAIMED in t
    requires forall x: nat | x < |t| :: t[x] == UNCLAIMED <==> x !in s
    ensures c < |t| && t[c] == UNCLAIMED && FirstOutside(p, |t|, s, c)
    ensures forall host: nat :: NaiveClaim(t, p, host) == t[c := host]
  {
    HostCanClaim(t, p);
    hide FirstFree;
    hide Slot;
    hide Prime;
    var j := FirstFree(t, p, 0);
    c := p.At(j, |t|);
    assert c == p.At(j, |t|) && forall i: nat | i < j :: p.At(i, |t|) in s by {
      forall i: nat | i < j ensures p.At(i, |t|) in s {
        assert !Free(t, p, i);
      }
    }
  }

  lemma {:induction false} GreedyLists(ps: seq<Permutation>, m: nat, k: nat) returns (s: seq<nat>)
    requires Prime(m) && 0 < |ps| < UNCLAIMED && k <= m
    requires forall i | 0 <= i < |ps| :: ps[i].Valid(m)
    ensures |s| == k && Lists(Greedy(ps, m, k), s, ps)
  {
    s := [];
    if k > 0 {
      s := GreedyLists(ps, m, k - 1);
      GreedyNotFull(ps, m, k - 1);
      GreedyStep(ps, m, k - 1);
      hide Greedy;
      hide NaiveClaim;
      hide FirstOutside;
      var c := TurnIsFirstOutside(Greedy(ps, m, k - 1), s, ps[Owner(k - 1, |ps|)]);
      ListsStep(Greedy(ps, m, k - 1), s, ps, c);
      s := s + [c];
    }
  }

  lemma WrappedOffset(h: nat, x: nat, m: nat)
    requires m > 0
    ensures (h % m + x) % m == (h + x) % m
  {
    var q, r := (h % m + x) / m, (h % m + x) % m;
    assert h == h / m * m + h % m;
    assert h + x == (h / m + q) * m + r;
    UniqueQuotient(h + x, m, h / m + q, r);
  }

  lemma ProbeOf(address: string, m: nat, hash: HostHash, j: nat)
    requires m >= 2
    ensures PermutationOf(address, m, hash).At(j, m) == ProbeSlot(address, j, m, hash)
  {
    var h, step := hash(address, 0) as nat, 1 + hash(address, 1) as nat % (m - 1);
    assert PermutationOf(address, m, hash) == Permutation(h % m, step);
    WrappedOffset(h, j * step, m);
  }

  lemma OutsideIsUntaken(address: string, m: nat, hash: HostHash, taken: seq<nat>, c: nat)
    requires m >= 2 && FirstOutside(PermutationOf(address, m, hash), m, taken, c)
    ensures FirstUntaken(address, m, hash, taken, c)
  {
    hide ProbeSlot;
    hide PermutationOf;
    var p := PermutationOf(address, m, hash);
    var j: nat :| c == p.At(j, m) && forall i: nat | i < j :: p.At(i, m) in taken;
    ProbeOf(address, m, hash, j);
    forall i: nat | i < j ensures ProbeSlot(address, i, m, hash) in taken {
      ProbeOf(address, m, hash, i);
      assert p.At(i, m) in taken;
    }
  }

  lemma TableInTurn(addresses: seq<string>, m: nat, hash: HostHash) returns (claims: seq<nat>)
    requires Prime(m) && 0 < |addresses| < UNCLAIMED
    ensures ClaimedInTurn(Greedy(Permutations(addresses, m, hash), m, m), claims, addresses, hash)
  {
    var ps, n := Permutations(addresses, m, hash), |addresses|;
    claims := GreedyLists(ps, m, m);
    hide Greedy;
    hide FirstOutside;
    hide FirstUntaken;
    forall k | 0 <= k < m ensures FirstUntaken(addresses[k % n], m, hash, claims[..k], claims[k]) {
      OutsideIsUntaken(addresses[k % n], m, hash, claims[..k], claims[k]);
    }
  }

  /** The very first claim is unobstructed: host 0 owns the slot of its own offset. */
  lemma FirstClaim(table: seq<nat>, claims: seq<nat>, addresses: seq<string>, hash: HostHash)
    requires ClaimedInTurn(table, claims, addresses, hash)
    ensures table[hash(addresses[0], 0) as nat % |table|] == 0
  {
    assert FirstUntaken(addresses[0 % |addresses|], |table|, hash, claims[..0], claims[0]);
    assert 0 % |addresses| == 0 && claims[..0] == [];
    assert ProbeSlot(addresses[0], 0, |table|, hash) == hash(addresses[0], 0) as nat % |table|;
  }

  /** The table build. The result is the naive greedy table, claimed in turn from the hosts'
      hashes, full, and as balanced as integers allow. */
  method Build(addresses: seq<string>, tableSize: u64, hash: HostHash) returns (r: MaglevTable)
    requires |addresses| < UNCLAIMED
    requires addresses != [] && tableSize != 0 ==> Prime(tableSize as nat) && tableSize as nat <= TWO_32
    ensures r.tableSize == tableSize as nat
    ensures r.table == [] <==> addresses == [] || tableSize == 0
    ensures r.table != [] ==>
      && |r.table| == r.tableSize
      && r.table == Greedy(Permutations(addresses, r.tableSize, hash), r.tableSize, r.tableSize)
      && (exists claims :: ClaimedInTurn(r.table, claims, addresses, hash))
      && r.table[hash(addresses[0], 0) as nat % r.tableSize] == 0
      && (forall c | 0 <= c < r.tableSize :: r.table[c] < |addresses|)
      && (forall h: nat | h < |addresses| ::
            multiset(r.table)[h] == r.tableSize / |addresses| + if h < r.tableSize % |addresses| then 1 else 0)
  {
    hide Greedy;
    hide CursorsBehind;
    hide ClaimedInTurn;
    var m, n := tableSize as nat, |addresses|;
    if n == 0 || m == 0 {
      return MaglevTable([], m);
    }
    ghost var ps := Permutations(addresses, m, hash);
    var offset, skip := Probes(addresses, tableSize, hash);
    var next: seq<u64> := seq(n, _ => 0);
    var table := new nat[m](_ => UNCLAIMED);
    assert table[..] == Blank(m);
    StartOfBuild(ps, m, next);
    var filled: nat := 0;
    ghost var round: nat := 0;
    while true
      invariant filled == round * n < m
      invariant table[..] == Greedy(ps, m, filled)
      invariant CursorsBehind(table[..], ps, next)
      decreases m - filled
    {
      var host: nat := 0;
      while host < n
        invariant 0 <= host <= n && filled == round * n + host < m
        invariant table[..] == Greedy(ps, m, filled)
        invariant CursorsBehind(table[..], ps, next)
      {
        UniqueQuotient(filled, n, round, host);
        GreedyNotFull(ps, m, filled);
        GreedyStep(ps, m, filled);
        next := TakeTurn(table, ps, offset[host], skip[host], next, host);
        filled := filled + 1;
        if filled == m {
          GreedyFull(ps, m);
          ghost var claims := TableInTurn(addresses, m, hash);
          FirstClaim(table[..], claims, addresses, hash);
          return MaglevTable(table[..], m);
        }
        host := host + 1;
      }
      round := round + 1;
    }
  }

  /** The host owning a key's slot. */
  function Lookup(t: MaglevTable, keyHash: u64): (r: Option<nat>)
    requires t.table == [] || |t.table| == t.tableSize
    ensures r.None? <==> t.table == []
    ensures r.Some? ==> r.value in t.table
  {
    if t.table == [] then None else Some(t.table[keyHash as nat % t.tableSize])
  }

  // ---------------------------------------------------------------------------
  // Shares of the keys
  // ---------------------------------------------------------------------------

  predicate Full(t: MaglevTable) {
    t.table != [] && |t.table| == t.tableSize
  }

  /** How many of the `k` consecutive key hashes from `start` on go to host `h`. */
  function Hits(t: MaglevTable, start: nat, k: nat, h: nat): nat
    requires Full(t) && start + k <= TWO_64
  {
    if k == 0 then 0
    else Hits(t, start, k - 1, h) + if Lookup(t, (start + k - 1) as u64) == Some(h) then 1 else 0
  }

  /** Moving the window by one key loses its first key and gains the one behind it. */
  lemma {:induction false} HitsShift(t: MaglevTable, start: nat, k: nat, h: nat)
    requires Full(t) && start + 1 + k <= TWO_64
    ensures Hits(t, start + 1, k, h) + (if Lookup(t, start as u64) == Some(h) then 1 else 0) == Hits(t, start, k + 1, h)
  {
    hide Lookup;
    if k > 0 {
      HitsShift(t, start, k - 1, h);
    }
  }

  lemma {:induction false} HitsOfPrefix(t: MaglevTable, k: nat, h: nat)
    requires Full(t) && k <= |t.table| && k <= TWO_64
    ensures Hits(t, 0, k, h) == multiset(t.table[..k])[h]
  {
    if k > 0 {
      HitsOfPrefix(t, k - 1, h);
      assert t.table[..k] == t.table[..k - 1] + [t.table[k - 1]];
      SmallRemainder(k - 1, t.tableSize);
    }
  }

  lemma SmallRemainder(k: nat, m: nat)
    requires k < m
    ensures k % m == k
  {
  }

  lemma SameSlot(t: MaglevTable, key: nat)
    requires Full(t) && key + t.tableSize < TWO_64
    ensures Lookup(t, (key + t.tableSize) as u64) == Lookup(t, key as u64)
  {
    UniqueQuotient(key + t.tableSize, t.tableSize, key / t.tableSize + 1, key % t.tableSize);
  }

  /** Among any M consecutive key hashes a host gets exactly as many as it has slots. */
  lemma {:induction false} SlotsAreShares(t: MaglevTable, start: nat, h: nat)
    requires Full(t) && start + t.tableSize <= TWO_64
    ensures Hits(t, start, t.tableSize, h) == multiset(t.table)[h]
  {
    hide Lookup;
    var m := t.tableSize;
    if start == 0 {
      HitsOfPrefix(t, m, h);
      assert t.table[..m] == t.table;
    } else {
      SlotsAreShares(t, start - 1, h);
      HitsShift(t, start - 1, m, h);
      SameSlot(t, start - 1);
    }
  }
}
