/** Endpoint selection: subset narrowing, consistent hashing, the panic threshold and the
    round-robin cursor, composed over one snapshot of the endpoint set. */
module Pick {
  import opened Common
  import opened Subset
  import Maglev
  import Primes
  import RingHash

  type Address = string

  datatype HashLb = Ring(ring: RingHash.HashRing) | Table(table: Maglev.MaglevTable)

  /** What a selection reads besides the endpoints and the cursor: one health flag and one
      ejection flag per endpoint when those features are configured, and the structures built
      once at startup. */
  datatype Policy = Policy(
    healthy: Option<seq<bool>>,
    ejected: Option<seq<bool>>,
    panicThreshold: real,
    hashLb: Option<HashLb>,
    subset: Option<SubsetIndex>)

  predicate TableOk(p: Policy) {
    p.hashLb.Some? && p.hashLb.value.Table? ==>
      var t := p.hashLb.value.table; t.table == [] || |t.table| == t.tableSize
  }

  /** The per-endpoint flags line up with an endpoint set of this size. */
  predicate Aligned(p: Policy, total: nat) {
    && (p.healthy.Some? ==> |p.healthy.value| == total)
    && (p.ejected.Some? ==> |p.ejected.value| == total)
    && TableOk(p)
  }

  predicate Filtered(p: Policy) { p.healthy.Some? || p.ejected.Some? }

  predicate IsEligible(p: Policy, total: nat, i: nat)
    requires Aligned(p, total) && i < total
  {
    (p.healthy.Some? ==> p.healthy.value[i]) && (p.ejected.Some? ==> !p.ejected.value[i])
  }

  predicate Ascending(idxs: seq<nat>) {
    forall x, y | 0 <= x < y < |idxs| :: idxs[x] < idxs[y]
  }

  /** The members of `idxs` that exist and are eligible, in their order. */
  function Keep(p: Policy, total: nat, idxs: seq<nat>): (r: seq<nat>)
    requires Aligned(p, total)
    ensures forall i: nat :: i in r <==>
      && i in idxs && i < total
      && (p.healthy.Some? ==> p.healthy.value[i]) && (p.ejected.Some? ==> !p.ejected.value[i])
    ensures Ascending(idxs) ==> Ascending(r)
  {
    if idxs == [] then []
    else
      var n := |idxs| - 1;
      var r := Keep(p, total, idxs[..n]);
      assert idxs == idxs[..n] + [idxs[n]];
      assert forall x | 0 <= x < |r| :: r[x] in r;
      if idxs[n] < total && IsEligible(p, total, idxs[n]) then r + [idxs[n]] else r
  }

  function Indices(total: nat): (r: seq<nat>)
    ensures |r| == total && forall i | 0 <= i < total :: r[i] == i
  {
    seq(total, i requires i >= 0 => i)
  }

  function Narrow(p: Policy, m: Option<Metadata>): Eligible {
    if p.subset.None? then All else Resolve(p.subset.value, m)
  }

  /** The host the hash structure names, if any and if it still exists. */
  function HashHost(p: Policy, total: nat, key: Option<u64>): (r: Option<nat>)
    requires TableOk(p)
    ensures r.Some? ==> r.value < total
  {
    if p.hashLb.None? || key.None? then None
    else
      var h := match p.hashLb.value
        case Ring(ring) => RingHash.Lookup(ring, key.value as nat)
        case Table(table) => Maglev.Lookup(table, key.value);
      if h.Some? && h.value < total then h else None
  }

  /** The eligible percentage is strictly below the threshold. */
  predicate Panics(p: Policy, total: nat)
    requires Aligned(p, total) && total > 0
  {
    100.0 * (|Keep(p, total, Indices(total))| as real) / (total as real) < p.panicThreshold
  }

  /** A selection serves nobody, one given endpoint, or the cursor's turn in a list. */
  datatype Choice = NoHost | Fixed(index: nat) | Rotate(candidates: seq<nat>)

  predicate Servable(c: Choice, total: nat) {
    match c
    case NoHost => true
    case Fixed(i) => i < total
    case Rotate(cs) => cs != [] && forall x | 0 <= x < |cs| :: cs[x] < total
  }

  function Choose(p: Policy, total: nat, key: Option<u64>, m: Option<Metadata>): Choice
    requires Aligned(p, total)
  {
    if total == 0 then NoHost
    else
      match Narrow(p, m)
      case Nobody => NoHost
      case Only(idxs) =>
        var sub := Keep(p, total, idxs);
        if sub == [] then NoHost else Rotate(sub)
      case All =>
        var h := HashHost(p, total, key);
        if h.Some? then Fixed(h.value)
        else if !Filtered(p) || Panics(p, total) then Rotate(Indices(total))
        else
          var eligible := Keep(p, total, Indices(total));
          if eligible == [] then NoHost else Rotate(eligible)
  }

  // ---------------------------------------------------------------------------
  // What a choice means
  // ---------------------------------------------------------------------------

  /** The endpoints that are not marked down by a configured health check and not ejected by
      a configured outlier detection. */
  ghost function Usable(p: Policy, total: nat): set<nat>
    requires Aligned(p, total)
  {
    set i: nat | i < total && (p.healthy.Some? ==> p.healthy.value[i]) && (p.ejected.Some? ==> !p.ejected.value[i])
  }

  function Members(s: seq<nat>): set<nat> {
    set i | i in s
  }

  lemma MembersSnoc(s: seq<nat>, x: nat)
    ensures Members(s + [x]) == Members(s) + {x}
  {
  }

  lemma {:induction false} AscendingSize(s: seq<nat>)
    requires Ascending(s)
    ensures |Members(s)| == |s|
  {
    if s != [] {
      var n := |s| - 1;
      var front, last := s[..n], s[n];
      AscendingSize(front);
      assert last !in Members(front);
      assert s == front + [last];
      hide Members;
      MembersSnoc(front, last);
    }
  }

  /** The indices kept from everybody are the usable endpoints, each once. */
  lemma KeptIsUsable(p: Policy, total: nat)
    requires Aligned(p, total)
    ensures Members(Keep(p, total, Indices(total))) == Usable(p, total)
    ensures |Keep(p, total, Indices(total))| == |Usable(p, total)|
  {
    forall i: nat | i < total ensures i in Indices(total) {
      assert Indices(total)[i] == i;
    }
    AscendingSize(Keep(p, total, Indices(total)));
    assert Members(Keep(p, total, Indices(total))) == Usable(p, total);
  }

  /** Panic is about the share of usable endpoints. */
  lemma PanicsIff(p: Policy, total: nat)
    requires Aligned(p, total) && total > 0
    ensures Panics(p, total) <==> 100.0 * (|Usable(p, total)| as real) / (total as real) < p.panicThreshold
  {
    KeptIsUsable(p, total);
  }

  lemma EmptyPercent(p: Policy, total: nat)
    requires Aligned(p, total) && total > 0 && Keep(p, total, Indices(total)) == []
    ensures Panics(p, total) <==> p.panicThreshold > 0.0
  {
    assert 100.0 * (0 as real) / (total as real) == 0.0;
  }

  /** Exactly when nobody is served: there are no endpoints, the subset layer says so, the
      subset has no existing usable member, or, without narrowing or a usable hash host,
      a filter is configured, nothing is usable and panic routing is disabled. */
  lemma NobodyServedIff(p: Policy, total: nat, key: Option<u64>, m: Option<Metadata>)
    requires Aligned(p, total)
    ensures var narrowed := if p.subset.None? then All else Resolve(p.subset.value, m);
      Choose(p, total, key, m).NoHost? <==>
        || total == 0
        || narrowed.Nobody?
        || (narrowed.Only? && forall i | i in narrowed.indices :: i !in Usable(p, total))
        || (narrowed.All? && HashHost(p, total, key).None? && (p.healthy.Some? || p.ejected.Some?)
            && Usable(p, total) == {} && p.panicThreshold <= 0.0)
  {
    if total > 0 {
      var narrowed := Narrow(p, m);
      if narrowed.Only? {
        var sub := Keep(p, total, narrowed.indices);
        if sub != [] {
          assert sub[0] in sub && sub[0] in narrowed.indices && sub[0] in Usable(p, total);
        }
        forall i | i in narrowed.indices && i in Usable(p, total) ensures i in sub {
        }
      } else if narrowed.All? {
        KeptIsUsable(p, total);
        if Usable(p, total) == {} {
          EmptyPercent(p, total);
        }
      }
    }
  }

  /** The hash structure's answer counts exactly when there are a key and a structure and the
      host still exists. */
  lemma HashHostIff(p: Policy, total: nat, key: Option<u64>, h: nat)
    requires TableOk(p)
    ensures HashHost(p, total, key) == Some(h) <==>
      && h < total && p.hashLb.Some? && key.Some?
      && (p.hashLb.value.Ring? ==> RingHash.Lookup(p.hashLb.value.ring, key.value as nat) == Some(h))
      && (p.hashLb.value.Table? ==> Maglev.Lookup(p.hashLb.value.table, key.value) == Some(h))
  {
  }

  /** Who is served. A fixed host is the hash structure's, and only without narrowing. A list
      is rotated over in ascending order; it holds, inside a subset, exactly the subset's
      usable members, and otherwise exactly the usable endpoints, or everybody when no filter
      is configured or the share of usable endpoints is below the panic threshold. */
  lemma ServedAreEligible(p: Policy, total: nat, key: Option<u64>, m: Option<Metadata>)
    requires Aligned(p, total) && total > 0
    ensures var c := Choose(p, total, key, m);
      var narrowed := if p.subset.None? then All else Resolve(p.subset.value, m);
      var everybody := (p.healthy.None? && p.ejected.None?)
        || 100.0 * (|Usable(p, total)| as real) / (total as real) < p.panicThreshold;
      && Servable(c, total)
      && (c.Fixed? <==> narrowed.All? && HashHost(p, total, key).Some?)
      && (c.Fixed? ==> HashHost(p, total, key) == Some(c.index))
      && (c.Rotate? && narrowed.Only? ==>
            && (forall i: nat :: i in c.candidates <==> i in narrowed.indices && i in Usable(p, total))
            && (Ascending(narrowed.indices) ==> Ascending(c.candidates)))
      && (c.Rotate? && !narrowed.Only? ==>
            && (forall i: nat :: i in c.candidates <==> i < total && (everybody || i in Usable(p, total)))
            && Ascending(c.candidates))
  {
    var c := Choose(p, total, key, m);
    if c.Rotate? {
      assert forall x | 0 <= x < |c.candidates| :: c.candidates[x] in c.candidates;
    }
    forall i: nat | i < total ensures i in Indices(total) {
      assert Indices(total)[i] == i;
    }
    PanicsIff(p, total);
    KeptIsUsable(p, total);
  }

  // ---------------------------------------------------------------------------
  // The cursor
  // ---------------------------------------------------------------------------

  /** The candidate whose turn it is. */
  function Turn(cs: seq<nat>, cursor: nat): (i: nat)
    requires cs != []
    ensures exists x :: 0 <= x < |cs| && cs[x] == i
  {
    cs[cursor % |cs|]
  }

  /** The result and the next cursor; the cursor is a `usize` and wraps. */
  function Serve(c: Choice, eps: seq<Address>, cursor: nat): (r: (Option<Address>, nat))
    requires Servable(c, |eps|)
  {
    match c
    case NoHost => (None, cursor)
    case Fixed(i) => (Some(eps[i]), cursor)
    case Rotate(cs) => (Some(eps[Turn(cs, cursor)]), (cursor + 1) % TWO_64)
  }

  /** How many of `k` consecutive cursor values from `start` pick position `j` of `n`. */
  function Turns(start: nat, k: nat, n: nat, j: nat): nat
    requires n > 0
  {
    if k == 0 then 0 else Turns(start, k - 1, n, j) + if (start + k - 1) % n == j then 1 else 0
  }

  lemma {:induction false} TurnsAreDifferences(start: nat, k: nat, n: nat, j: nat)
    requires j < n
    ensures Turns(start, k, n, j) == Maglev.Turns(start + k, n, j) - Maglev.Turns(start, n, j)
  {
    if k > 0 {
      TurnsAreDifferences(start, k - 1, n, j);
      Maglev.TurnsStep(start + k - 1, n, j);
    }
  }

  lemma DivMod(x: nat, n: nat)
    requires n > 0
    ensures x == x / n * n + x % n && x % n < n
  {
  }

  lemma SumDecomposed(x: nat, k: nat, n: nat, a: nat, b: nat, r: nat, q: nat)
    requires r < n && q < n && x == a * n + r && k == b * n + q
    ensures (x + k) / n == a + b + (if r + q < n then 0 else 1)
    ensures (x + k) % n == (if r + q < n then r + q else r + q - n)
  {
    AddDecompositions(x, k, n, a, b, r, q);
    if r + q < n {
      Primes.UniqueQuotient(x + k, n, a + b, r + q);
    } else {
      Primes.UniqueQuotient(x + k, n, a + b + 1, r + q - n);
    }
  }

  lemma SumQuotient(x: nat, k: nat, n: nat)
    requires n > 0
    ensures var r := x % n + k % n;
      && (x + k) / n == x / n + k / n + (if r < n then 0 else 1)
      && (x + k) % n == (if r < n then r else r - n)
  {
    DivMod(x, n);
    DivMod(k, n);
    SumDecomposed(x, k, n, x / n, k / n, x % n, k % n);
  }

  lemma AddDecompositions(x: int, k: int, n: int, a: int, b: int, r: int, q: int)
    requires x == a * n + r && k == b * n + q
    ensures x + k == (a + b) * n + (r + q) == (a + b + 1) * n + (r + q - n)
  {
  }

  /** Round robin is fair: over any `k` consecutive cursor values every position is served
      `k / n` times, or once more when `n` does not divide `k`. */
  lemma RotationIsFair(start: nat, k: nat, n: nat, j: nat)
    requires j < n
    ensures k / n <= Turns(start, k, n, j) <= k / n + if k % n == 0 then 0 else 1
  {
    TurnsAreDifferences(start, k, n, j);
    SumQuotient(start, k, n);
  }

  /** The addresses that `k` picks with the same choice serve, one after the other. */
  function PickMany(c: Choice, eps: seq<Address>, cursor: nat, k: nat): (r: seq<Option<Address>>)
    requires Servable(c, |eps|)
    ensures |r| == k
    decreases k
  {
    if k == 0 then []
    else
      var (served, next) := Serve(c, eps, cursor);
      [served] + PickMany(c, eps, next, k - 1)
  }

  lemma PickFirst(c: Choice, eps: seq<Address>, cursor: nat, k: nat)
    requires c.Rotate? && Servable(c, |eps|) && cursor + k <= TWO_64 && k > 0
    ensures PickMany(c, eps, cursor, k) == [Some(eps[Turn(c.candidates, cursor)])] + PickMany(c, eps, cursor + 1, k - 1)
  {
    assert k > 1 ==> (cursor + 1) % TWO_64 == cursor + 1;
  }

  /** Until the cursor wraps, the `i`-th of consecutive picks takes position `cursor + i`. */
  lemma {:induction false} PicksFollowTheCursor(c: Choice, eps: seq<Address>, cursor: nat, k: nat, i: nat)
    requires c.Rotate? && Servable(c, |eps|) && cursor + k <= TWO_64 && i < k
    ensures i < |PickMany(c, eps, cursor, k)|
    ensures PickMany(c, eps, cursor, k)[i] == Some(eps[c.candidates[(cursor + i) % |c.candidates|]])
    decreases k
  {
    hide PickMany;
    PickFirst(c, eps, cursor, k);
    if i > 0 {
      PicksFollowTheCursor(c, eps, cursor + 1, k - 1, i - 1);
    }
  }

  lemma TurnsFromTheFront(start: nat, k: nat, n: nat, j: nat)
    requires j < n && k > 0
    ensures Turns(start, k, n, j) == Turns(start + 1, k - 1, n, j) + if start % n == j then 1 else 0
  {
    TurnsAreDifferences(start, k, n, j);
    TurnsAreDifferences(start + 1, k - 1, n, j);
    Maglev.TurnsStep(start, n, j);
  }

  /** How many candidates have this address. */
  function Multiplicity(cs: seq<nat>, eps: seq<Address>, a: Address): nat
    requires forall x | 0 <= x < |cs| :: cs[x] < |eps|
  {
    if cs == [] then 0
    else Multiplicity(cs[..|cs| - 1], eps, a) + if eps[cs[|cs| - 1]] == a then 1 else 0
  }

  /** The turns of the positions with this address, among the first positions of `n`. */
  function Share(cs: seq<nat>, eps: seq<Address>, a: Address, start: nat, k: nat, n: nat): nat
    requires n > 0 && forall x | 0 <= x < |cs| :: cs[x] < |eps|
  {
    if cs == [] then 0
    else
      var j := |cs| - 1;
      Share(cs[..j], eps, a, start, k, n) + if eps[cs[j]] == a then Turns(start, k, n, j) else 0
  }

  lemma {:induction false} ShareFromTheFront(cs: seq<nat>, eps: seq<Address>, a: Address, start: nat, k: nat, n: nat)
    requires |cs| <= n && 0 < n && 0 < k && forall x | 0 <= x < |cs| :: cs[x] < |eps|
    ensures Share(cs, eps, a, start, k, n) == Share(cs, eps, a, start + 1, k - 1, n)
      + if start % n < |cs| && eps[cs[start % n]] == a then 1 else 0
  {
    hide Turns;
    if cs != [] {
      var j := |cs| - 1;
      ShareFromTheFront(cs[..j], eps, a, start, k, n);
      TurnsFromTheFront(start, k, n, j);
    }
  }

  lemma AddShare(m: nat, q: nat, turns: nat, share: nat, extra: nat)
    requires m * q <= share <= m * q + m * extra && q <= turns <= q + extra
    ensures (m + 1) * q <= share + turns <= (m + 1) * q + (m + 1) * extra
  {
    assert (m + 1) * q == m * q + q && (m + 1) * extra == m * extra + extra;
  }

  lemma {:induction false} ShareWithin(cs: seq<nat>, eps: seq<Address>, a: Address, start: nat, k: nat, n: nat, q: nat, extra: nat)
    requires |cs| <= n && 0 < n && forall x | 0 <= x < |cs| :: cs[x] < |eps|
    requires forall j: nat | j < n :: q <= Turns(start, k, n, j) <= q + extra
    ensures var m := Multiplicity(cs, eps, a); m * q <= Share(cs, eps, a, start, k, n) <= m * q + m * extra
  {
    hide Turns;
    if cs != [] {
      var j := |cs| - 1;
      ShareWithin(cs[..j], eps, a, start, k, n, q, extra);
      AddShare(Multiplicity(cs[..j], eps, a), q, Turns(start, k, n, j), Share(cs[..j], eps, a, start, k, n), extra);
    }
  }

  lemma ShareIsFair(cs: seq<nat>, eps: seq<Address>, a: Address, start: nat, k: nat, n: nat)
    requires |cs| <= n && 0 < n && forall x | 0 <= x < |cs| :: cs[x] < |eps|
    ensures var m, extra := Multiplicity(cs, eps, a), if k % n == 0 then 0 else 1;
      m * (k / n) <= Share(cs, eps, a, start, k, n) <= m * (k / n) + m * extra
  {
    hide Turns;
    hide Share;
    hide Multiplicity;
    var extra := if k % n == 0 then 0 else 1;
    forall j: nat | j < n ensures k / n <= Turns(start, k, n, j) <= k / n + extra {
      RotationIsFair(start, k, n, j);
    }
    ShareWithin(cs, eps, a, start, k, n, k / n, extra);
  }

  lemma {:induction false} NoShare(cs: seq<nat>, eps: seq<Address>, a: Address, start: nat, n: nat)
    requires n > 0 && forall x | 0 <= x < |cs| :: cs[x] < |eps|
    ensures Share(cs, eps, a, start, 0, n) == 0
  {
    if cs != [] {
      NoShare(cs[..|cs| - 1], eps, a, start, n);
    }
  }

  lemma CountFirst<T>(x: T, rest: seq<T>, y: T)
    ensures multiset([x] + rest)[y] == multiset(rest)[y] + if x == y then 1 else 0
  {
  }

  lemma {:induction false} PicksCount(c: Choice, eps: seq<Address>, cursor: nat, k: nat, a: Address)
    requires c.Rotate? && Servable(c, |eps|) && cursor + k <= TWO_64
    ensures multiset(PickMany(c, eps, cursor, k))[Some(a)] == Share(c.candidates, eps, a, cursor, k, |c.candidates|)
    decreases k
  {
    hide Share;
    hide PickMany;
    if k == 0 {
      NoShare(c.candidates, eps, a, cursor, |c.candidates|);
    } else {
      PickFirst(c, eps, cursor, k);
      ShareFromTheFront(c.candidates, eps, a, cursor, k, |c.candidates|);
      PicksCount(c, eps, cursor + 1, k - 1, a);
      CountFirst(Some(eps[Turn(c.candidates, cursor)]), PickMany(c, eps, cursor + 1, k - 1), Some(a));
    }
  }

  /** Any `k` picks in a row over the same `n` candidates serve an address `k / n` times for
      every candidate that has it, or up to once more for each when `n` does not divide `k`. */
  lemma PicksAreFair(c: Choice, eps: seq<Address>, cursor: nat, k: nat, a: Address)
    requires c.Rotate? && Servable(c, |eps|) && cursor + k <= TWO_64
    ensures var n, m := |c.candidates|, Multiplicity(c.candidates, eps, a);
      var served := multiset(PickMany(c, eps, cursor, k))[Some(a)];
      m * (k / n) <= served <= m * (k / n) + m * if k % n == 0 then 0 else 1
  {
    PicksCount(c, eps, cursor, k, a);
    ShareIsFair(c.candidates, eps, a, cursor, k, |c.candidates|);
  }

  // ---------------------------------------------------------------------------
  // The imperative form
  // ---------------------------------------------------------------------------

  class Picker {
    var endpoints: seq<Address>
    var cursor: nat
    var policy: Policy

    constructor (endpoints: seq<Address>, policy: Policy)
      ensures this.endpoints == endpoints && this.policy == policy && cursor == 0
    {
      this.endpoints, this.policy, this.cursor := endpoints, policy, 0;
    }

    method Advance() returns (c: nat)
      requires cursor < TWO_64
      modifies `cursor
      ensures c == old(cursor) && cursor == (old(cursor) + 1) % TWO_64
    {
      c := cursor;
      cursor := (cursor + 1) % TWO_64;
    }

    method FilterEligible(total: nat, idxs: seq<nat>) returns (r: seq<nat>)
      requires Aligned(policy, total)
      ensures r == Keep(policy, total, idxs)
      ensures forall i: nat :: i in r <==>
        && i in idxs && i < total
        && (policy.healthy.Some? ==> policy.healthy.value[i]) && (policy.ejected.Some? ==> !policy.ejected.value[i])
    {
      r := [];
      for k := 0 to |idxs|
        invariant r == Keep(policy, total, idxs[..k])
      {
        assert idxs[..k + 1][..k] == idxs[..k];
        if idxs[k] < total && IsEligible(policy, total, idxs[k]) {
          r := r + [idxs[k]];
        }
      }
      assert idxs[..|idxs|] == idxs;
    }

    /** The filtered path: route over everybody in panic, else over the eligible. */
    method SelectFiltered(eps: seq<Address>) returns (c: Choice)
      requires Aligned(policy, |eps|) && eps != [] && Filtered(policy)
      ensures c == if Panics(policy, |eps|) then Rotate(Indices(|eps|))
                   else if Keep(policy, |eps|, Indices(|eps|)) == [] then NoHost
                   else Rotate(Keep(policy, |eps|, Indices(|eps|)))
    {
      var total := |eps|;
      var eligible := FilterEligible(total, Indices(total));
      if 100.0 * (|eligible| as real) / (total as real) < policy.panicThreshold {
        return Rotate(Indices(total));
      }
      return if eligible == [] then NoHost else Rotate(eligible);
    }

    method Dispatch(eps: seq<Address>, key: Option<u64>, m: Option<Metadata>) returns (c: Choice)
      requires Aligned(policy, |eps|)
      ensures c == Choose(policy, |eps|, key, m)
    {
      var total := |eps|;
      if total == 0 {
        return NoHost;
      }
      var narrowed := Narrow(policy, m);
      if narrowed.Nobody? {
        return NoHost;
      }
      if narrowed.Only? {
        var sub := FilterEligible(total, narrowed.indices);
        return if sub == [] then NoHost else Rotate(sub);
      }
      var h := HashHost(policy, total, key);
      if h.Some? {
        return Fixed(h.value);
      }
      if policy.healthy.None? && policy.ejected.None? {
        return Rotate(Indices(total));
      }
      c := SelectFiltered(eps);
    }

    /** One selection over one snapshot of the endpoints; the cursor moves only when a list
        is rotated over. */
    method Select(key: Option<u64>, m: Option<Metadata>) returns (r: Option<Address>)
      requires Aligned(policy, |endpoints|) && cursor < TWO_64
      modifies `cursor
      ensures Servable(Choose(policy, |endpoints|, key, m), |endpoints|)
      ensures (r, cursor) == Serve(Choose(policy, |endpoints|, key, m), endpoints, old(cursor))
      ensures match Choose(policy, |endpoints|, key, m)
        case NoHost => r == None && cursor == old(cursor)
        case Fixed(i) => r == Some(endpoints[i]) && cursor == old(cursor)
        case Rotate(cs) => r == Some(endpoints[cs[old(cursor) % |cs|]]) && cursor == (old(cursor) + 1) % TWO_64
    {
      var eps := endpoints;
      var c := Dispatch(eps, key, m);
      if eps != [] {
        ServedAreEligible(policy, |eps|, key, m);
      }
      match c
      case NoHost => r := None;
      case Fixed(i) => r := Some(eps[i]);
      case Rotate(cs) =>
        var turn := Advance();
        r := Some(eps[Turn(cs, turn)]);
    }
  }
}
