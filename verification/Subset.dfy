/** The metadata subset index and the linear scan it speeds up. */
module Subset {
  import opened Common
  import Lex

  type Metadata = map<string, string>

  datatype Fallback = NoFallback | AnyEndpoint | DefaultSubset

  datatype SubsetConfig = SubsetConfig(selectors: seq<seq<string>>, fallback: Fallback, defaultSubset: Option<Metadata>)

  /** One selector: its keys in canonical order, and the endpoints grouped by the values of
      those keys. */
  datatype SelectorIndex = SelectorIndex(keys: seq<string>, subsets: map<seq<string>, seq<nat>>)

  datatype SubsetIndex = SubsetIndex(fallback: Fallback, defaultSubset: Option<Metadata>, selectors: seq<SelectorIndex>)

  /** The endpoints a request may use. */
  datatype Eligible = All | Only(indices: seq<nat>) | Nobody

  // ---------------------------------------------------------------------------
  // Canonical key sets
  // ---------------------------------------------------------------------------

  predicate StrictlySorted(ks: seq<string>) {
    forall i, j | 0 <= i < j < |ks| :: Lex.Less(ks[i], ks[j])
  }

  function InsertKey(ks: seq<string>, k: string): seq<string> {
    if ks == [] then [k]
    else
      var last := ks[|ks| - 1];
      if k == last then ks
      else if Lex.Less(last, k) then ks + [k]
      else InsertKey(ks[..|ks| - 1], k) + [last]
  }

  /** The keys sorted, without duplicates. */
  function KeySet(keys: seq<string>): seq<string> {
    if keys == [] then [] else InsertKey(KeySet(keys[..|keys| - 1]), keys[|keys| - 1])
  }

  lemma {:induction false} InsertKeyOk(ks: seq<string>, k: string)
    requires StrictlySorted(ks)
    ensures StrictlySorted(InsertKey(ks, k))
    ensures forall x :: x in InsertKey(ks, k) <==> x in ks || x == k
  {
    if ks != [] {
      var n := |ks| - 1;
      var last := ks[n];
      if k == last {
      } else if Lex.Less(last, k) {
        forall i | 0 <= i < n ensures Lex.Less(ks[i], k) {
          Lex.Transitive(ks[i], last, k);
        }
      } else {
        Lex.Total(k, last);
        InsertKeyOk(ks[..n], k);
        var r := InsertKey(ks[..n], k);
        forall i | 0 <= i < |r| ensures Lex.Less(r[i], last) {
          assert r[i] in r;
        }
        assert ks == ks[..n] + [last];
      }
    }
  }

  lemma {:induction false} KeySetOk(keys: seq<string>)
    ensures StrictlySorted(KeySet(keys))
    ensures forall x :: x in KeySet(keys) <==> x in keys
  {
    if keys != [] {
      var n := |keys| - 1;
      KeySetOk(keys[..n]);
      InsertKeyOk(KeySet(keys[..n]), keys[n]);
      assert keys == keys[..n] + [keys[n]];
    }
  }

  lemma {:induction false} SortedUnique(a: seq<string>, b: seq<string>)
    requires StrictlySorted(a) && StrictlySorted(b) && forall x :: x in a <==> x in b
    ensures a == b
  {
    hide Lex.Less;
    assert b == [] || b[0] in b;
    if a != [] {
      assert a[|a| - 1] in b && b != [];
      var n, m := |a| - 1, |b| - 1;
      assert b[m] in a;
      Lex.Total(a[n], b[m]);
      var i :| 0 <= i < |b| && b[i] == a[n];
      var j :| 0 <= j < |a| && a[j] == b[m];
      assert a[n] == b[m];
      Lex.Total(a[n], a[n]);
      assert forall x :: x in a[..n] <==> x in a && x != a[n];
      assert forall x :: x in b[..m] <==> x in b && x != b[m];
      SortedUnique(a[..n], b[..m]);
    }
  }

  /** Declaration order and duplication of a selector's keys do not matter. */
  lemma KeySetCanonical(a: seq<string>, b: seq<string>)
    ensures KeySet(a) == KeySet(b) <==> forall x :: x in a <==> x in b
  {
    KeySetOk(a);
    KeySetOk(b);
    if forall x :: x in a <==> x in b {
      SortedUnique(KeySet(a), KeySet(b));
    } else {
      var x :| !(x in a <==> x in b);
      assert x in KeySet(a) <==> x in a;
      assert x in KeySet(b) <==> x in b;
    }
  }

  // ---------------------------------------------------------------------------
  // The linear scan
  // ---------------------------------------------------------------------------

  /** `meta` carries every key of `m` with the same value. */
  predicate Contains(meta: Metadata, m: Metadata) {
    forall k | k in m :: k in meta && meta[k] == m[k]
  }

  /** Ascending indices of the endpoints whose metadata contains `m`. */
  function Scan(metas: seq<Metadata>, m: Metadata): (r: seq<nat>)
    ensures forall i: nat :: i in r <==> i < |metas| && Contains(metas[i], m)
    ensures forall x, y | 0 <= x < y < |r| :: r[x] < r[y]
  {
    if metas == [] then []
    else
      var n := |metas| - 1;
      var r := Scan(metas[..n], m);
      assert forall x | 0 <= x < |r| :: r[x] in r;
      if Contains(metas[n], m) then r + [n] else r
  }

  ghost predicate HasSelector(cfg: SubsetConfig, m: Metadata) {
    exists j :: 0 <= j < |cfg.selectors| && (set k | k in cfg.selectors[j]) == m.Keys
  }

  ghost function LookupSpec(cfg: SubsetConfig, metas: seq<Metadata>, m: Metadata): Option<seq<nat>> {
    if HasSelector(cfg, m) && Scan(metas, m) != [] then Some(Scan(metas, m)) else None
  }

  ghost function FallbackSpec(cfg: SubsetConfig, metas: seq<Metadata>): Eligible {
    match cfg.fallback
    case NoFallback => Nobody
    case AnyEndpoint => All
    case DefaultSubset =>
      if cfg.defaultSubset.None? || cfg.defaultSubset.value == map[] then All
      else
        var found := LookupSpec(cfg, metas, cfg.defaultSubset.value);
        if found.Some? then Only(found.value) else Nobody
  }

  /** What a request may use, by scanning the endpoints' metadata. */
  ghost function ResolveSpec(cfg: SubsetConfig, metas: seq<Metadata>, m: Option<Metadata>): Eligible {
    if cfg.selectors == [] then All
    else if m.Some? && m.value != map[] && LookupSpec(cfg, metas, m.value).Some?
    then Only(LookupSpec(cfg, metas, m.value).value)
    else FallbackSpec(cfg, metas)
  }

  // ---------------------------------------------------------------------------
  // The index
  // ---------------------------------------------------------------------------

  predicate HasKeys(meta: Metadata, keys: seq<string>) {
    forall i | 0 <= i < |keys| :: keys[i] in meta
  }

  function Tuple(keys: seq<string>, meta: Metadata): (t: seq<string>)
    requires HasKeys(meta, keys)
    ensures |t| == |keys| && forall i | 0 <= i < |keys| :: t[i] == meta[keys[i]]
  {
    seq(|keys|, i requires 0 <= i < |keys| => meta[keys[i]])
  }

  /** Ascending indices of the endpoints that have all the keys with exactly these values. */
  function Group(metas: seq<Metadata>, keys: seq<string>, t: seq<string>): seq<nat> {
    if metas == [] then []
    else
      var n := |metas| - 1;
      var r := Group(metas[..n], keys, t);
      if HasKeys(metas[n], keys) && Tuple(keys, metas[n]) == t then r + [n] else r
  }

  /** The map holds every non-empty group and nothing else. */
  ghost predicate Groups(subsets: map<seq<string>, seq<nat>>, metas: seq<Metadata>, keys: seq<string>) {
    forall t :: (t in subsets <==> Group(metas, keys, t) != []) && (t in subsets ==> subsets[t] == Group(metas, keys, t))
  }

  ghost predicate Indexes(s: SelectorIndex, keys: seq<string>, metas: seq<Metadata>) {
    s.keys == KeySet(keys) && Groups(s.subsets, metas, s.keys)
  }

  ghost predicate Represents(ix: SubsetIndex, cfg: SubsetConfig, metas: seq<Metadata>) {
    && ix.fallback == cfg.fallback && ix.defaultSubset == cfg.defaultSubset
    && |ix.selectors| == |cfg.selectors|
    && forall j | 0 <= j < |ix.selectors| :: Indexes(ix.selectors[j], cfg.selectors[j], metas)
  }

  /** Adding an endpoint's index to its group. */
  lemma GroupsStep(subsets: map<seq<string>, seq<nat>>, metas: seq<Metadata>, keys: seq<string>, i: nat)
    requires i < |metas| && Groups(subsets, metas[..i], keys)
    ensures metas[..i + 1][..i] == metas[..i]
    ensures !HasKeys(metas[i], keys) ==> Groups(subsets, metas[..i + 1], keys)
    ensures HasKeys(metas[i], keys) ==>
      var t := Tuple(keys, metas[i]);
      Groups(subsets[t := (if t in subsets then subsets[t] else []) + [i]], metas[..i + 1], keys)
  {
    assert metas[..i + 1][..i] == metas[..i];
  }

  method Build(cfg: SubsetConfig, metas: seq<Metadata>) returns (ix: SubsetIndex)
    ensures Represents(ix, cfg, metas)
  {
    var selectors: seq<SelectorIndex> := [];
    for j := 0 to |cfg.selectors|
      invariant |selectors| == j
      invariant forall x | 0 <= x < j :: Indexes(selectors[x], cfg.selectors[x], metas)
    {
      var keys := KeySet(cfg.selectors[j]);
      var subsets: map<seq<string>, seq<nat>> := map[];
      for i := 0 to |metas|
        invariant Groups(subsets, metas[..i], keys)
      {
        GroupsStep(subsets, metas, keys, i);
        if HasKeys(metas[i], keys) {
          var t := Tuple(keys, metas[i]);
          subsets := subsets[t := (if t in subsets then subsets[t] else []) + [i]];
        }
      }
      assert metas[..|metas|] == metas;
      selectors := selectors + [SelectorIndex(keys, subsets)];
    }
    ix := SubsetIndex(cfg.fallback, cfg.defaultSubset, selectors);
  }

  /** The first selector whose key set is `keys`. */
  function FindSelector(ss: seq<SelectorIndex>, keys: set<string>): (r: Option<SelectorIndex>)
    ensures r.None? ==> forall j | 0 <= j < |ss| :: (set k | k in ss[j].keys) != keys
    ensures r.Some? ==> r.value in ss && (set k | k in r.value.keys) == keys
  {
    if ss == [] then None
    else if (set k | k in ss[0].keys) == keys then Some(ss[0])
    else FindSelector(ss[1..], keys)
  }

  function Lookup(ix: SubsetIndex, m: Metadata): Option<seq<nat>> {
    var s := FindSelector(ix.selectors, m.Keys);
    if s.None? then None
    else
      assert HasKeys(m, s.value.keys) by {
        forall i | 0 <= i < |s.value.keys| ensures s.value.keys[i] in m {
          assert s.value.keys[i] in (set k | k in s.value.keys);
        }
      }
      var t := Tuple(s.value.keys, m);
      if t in s.value.subsets then Some(s.value.subsets[t]) else None
  }

  function FallbackOf(ix: SubsetIndex): Eligible {
    match ix.fallback
    case NoFallback => Nobody
    case AnyEndpoint => All
    case DefaultSubset =>
      match ix.defaultSubset
      case None => All
      case Some(d) =>
        if d == map[] then All
        else
          match Lookup(ix, d)
          case Some(idxs) => Only(idxs)
          case None => Nobody
  }

  function Resolve(ix: SubsetIndex, m: Option<Metadata>): Eligible {
    if ix.selectors == [] then All
    else if m.Some? && m.value != map[] then
      match Lookup(ix, m.value)
      case Some(idxs) => Only(idxs)
      case None => FallbackOf(ix)
    else FallbackOf(ix)
  }

  // ---------------------------------------------------------------------------
  // Agreement
  // ---------------------------------------------------------------------------

  lemma TupleMeansContains(meta: Metadata, keys: seq<string>, m: Metadata)
    requires (set k | k in keys) == m.Keys && HasKeys(m, keys)
    ensures HasKeys(meta, keys) && Tuple(keys, meta) == Tuple(keys, m) <==> Contains(meta, m)
  {
    if HasKeys(meta, keys) && Tuple(keys, meta) == Tuple(keys, m) {
      forall k | k in m ensures k in meta && meta[k] == m[k] {
        assert k in (set x | x in keys);
        var i :| 0 <= i < |keys| && keys[i] == k;
        assert Tuple(keys, meta)[i] == Tuple(keys, m)[i];
      }
    }
    if Contains(meta, m) {
      forall i | 0 <= i < |keys| ensures keys[i] in meta && meta[keys[i]] == m[keys[i]] {
        assert keys[i] in m;
      }
      assert Tuple(keys, meta) == Tuple(keys, m);
    }
  }

  lemma {:induction false} GroupIsScan(metas: seq<Metadata>, keys: seq<string>, m: Metadata)
    requires (set k | k in keys) == m.Keys && HasKeys(m, keys)
    ensures Group(metas, keys, Tuple(keys, m)) == Scan(metas, m)
  {
    if metas != [] {
      GroupIsScan(metas[..|metas| - 1], keys, m);
      TupleMeansContains(metas[|metas| - 1], keys, m);
    }
  }

  lemma SelectorFound(ix: SubsetIndex, cfg: SubsetConfig, metas: seq<Metadata>, m: Metadata)
    requires Represents(ix, cfg, metas)
    ensures FindSelector(ix.selectors, m.Keys).Some? <==> HasSelector(cfg, m)
    ensures FindSelector(ix.selectors, m.Keys).Some? ==>
      Groups(FindSelector(ix.selectors, m.Keys).value.subsets, metas, FindSelector(ix.selectors, m.Keys).value.keys)
  {
    forall j | 0 <= j < |ix.selectors|
      ensures (set k | k in ix.selectors[j].keys) == (set k | k in cfg.selectors[j])
    {
      assert Indexes(ix.selectors[j], cfg.selectors[j], metas);
      KeySetOk(cfg.selectors[j]);
    }
    var r := FindSelector(ix.selectors, m.Keys);
    if r.Some? {
      var j :| 0 <= j < |ix.selectors| && ix.selectors[j] == r.value;
      assert Indexes(ix.selectors[j], cfg.selectors[j], metas);
      assert (set k | k in cfg.selectors[j]) == m.Keys;
    }
  }

  /** The index answers like the linear scan: when some selector declares exactly the keys of
      the match, the endpoints whose metadata contains it, in ascending order. */
  lemma LookupAgrees(ix: SubsetIndex, cfg: SubsetConfig, metas: seq<Metadata>, m: Metadata)
    requires Represents(ix, cfg, metas)
    ensures Lookup(ix, m) == LookupSpec(cfg, metas, m)
  {
    hide Represents;
    hide Scan;
    hide HasSelector;
    SelectorFound(ix, cfg, metas, m);
    var s := FindSelector(ix.selectors, m.Keys);
    if s.Some? {
      forall i | 0 <= i < |s.value.keys| ensures s.value.keys[i] in m {
        assert s.value.keys[i] in (set k | k in s.value.keys);
      }
      GroupIsScan(metas, s.value.keys, m);
    }
  }

  /** Resolution through the index is resolution by scanning, for every request. */
  lemma ResolveAgrees(ix: SubsetIndex, cfg: SubsetConfig, metas: seq<Metadata>, m: Option<Metadata>)
    requires Represents(ix, cfg, metas)
    ensures Resolve(ix, m) == ResolveSpec(cfg, metas, m)
  {
    hide Lookup;
    hide LookupSpec;
    hide HasSelector;
    hide Scan;
    if m.Some? {
      LookupAgrees(ix, cfg, metas, m.value);
    }
    if cfg.defaultSubset.Some? {
      LookupAgrees(ix, cfg, metas, cfg.defaultSubset.value);
    }
  }

  ghost predicate SameKeys(keys: seq<string>, m: Metadata) {
    forall k :: k in keys <==> k in m
  }

  /** Some selector declares exactly these keys. */
  ghost predicate Selected(cfg: SubsetConfig, m: Metadata) {
    exists j :: 0 <= j < |cfg.selectors| && SameKeys(cfg.selectors[j], m)
  }

  lemma SameKeysMeans(keys: seq<string>, m: Metadata)
    ensures (set k | k in keys) == m.Keys <==> SameKeys(keys, m)
  {
    var s := set k | k in keys;
    assert forall k :: k in s <==> k in keys;
    if SameKeys(keys, m) {
      assert forall k :: k in s <==> k in m.Keys;
    }
  }

  lemma SelectorMeans(cfg: SubsetConfig, m: Metadata)
    ensures HasSelector(cfg, m) <==> Selected(cfg, m)
  {
    forall j | 0 <= j < |cfg.selectors|
      ensures (set k | k in cfg.selectors[j]) == m.Keys <==> SameKeys(cfg.selectors[j], m)
    {
      SameKeysMeans(cfg.selectors[j], m);
    }
    hide SameKeys;
    if HasSelector(cfg, m) {
      var j :| 0 <= j < |cfg.selectors| && (set k | k in cfg.selectors[j]) == m.Keys;
      assert SameKeys(cfg.selectors[j], m);
    }
    if Selected(cfg, m) {
      var j :| 0 <= j < |cfg.selectors| && SameKeys(cfg.selectors[j], m);
      assert (set k | k in cfg.selectors[j]) == m.Keys;
    }
  }

  /** The endpoint carries every key of the match with the same value. */
  ghost predicate Carries(metas: seq<Metadata>, i: nat, m: Metadata) {
    i < |metas| && forall k | k in m :: k in metas[i] && metas[i][k] == m[k]
  }

  /** `e` is exactly the endpoints that carry the match, in ascending order. */
  ghost predicate ExactlyCarriers(e: Eligible, metas: seq<Metadata>, m: Metadata) {
    && e.Only? && e.indices != []
    && (forall x, y | 0 <= x < y < |e.indices| :: e.indices[x] < e.indices[y])
    && forall i: nat :: i in e.indices <==> Carries(metas, i, m)
  }

  lemma SpecMeans(cfg: SubsetConfig, metas: seq<Metadata>, m: Metadata)
    ensures LookupSpec(cfg, metas, m).Some? <==> Selected(cfg, m) && exists i :: Carries(metas, i, m)
    ensures LookupSpec(cfg, metas, m).Some? ==> ExactlyCarriers(Only(LookupSpec(cfg, metas, m).value), metas, m)
  {
    var s := Scan(metas, m);
    SelectorMeans(cfg, m);
    hide HasSelector;
    hide Selected;
    assert forall i: nat :: i in s <==> Carries(metas, i, m);
    if s != [] {
      assert s[0] in s;
    }
  }

  /** What a request may use, in full: everybody without selectors; the endpoints carrying
      the match when some selector declares exactly its keys and there are any; otherwise
      what the fallback policy says. */
  lemma ResolveMeans(ix: SubsetIndex, cfg: SubsetConfig, metas: seq<Metadata>, m: Option<Metadata>)
    requires Represents(ix, cfg, metas)
    ensures var e := Resolve(ix, m);
      var direct := m.Some? && m.value != map[] && Selected(cfg, m.value) && exists i :: Carries(metas, i, m.value);
      if cfg.selectors == [] then e == All
      else if direct then ExactlyCarriers(e, metas, m.value)
      else if cfg.fallback.NoFallback? then e == Nobody
      else if cfg.fallback.AnyEndpoint? || cfg.defaultSubset.None? || cfg.defaultSubset.value == map[] then e == All
      else if Selected(cfg, cfg.defaultSubset.value) && exists i :: Carries(metas, i, cfg.defaultSubset.value)
      then ExactlyCarriers(e, metas, cfg.defaultSubset.value)
      else e == Nobody
  {
    ResolveAgrees(ix, cfg, metas, m);
    if m.Some? {
      SpecMeans(cfg, metas, m.value);
    }
    if cfg.defaultSubset.Some? {
      SpecMeans(cfg, metas, cfg.defaultSubset.value);
    }
    hide Resolve;
    hide LookupSpec;
    hide Selected;
    hide Carries;
    hide ExactlyCarriers;
  }
}
