/** How tight the ejection cap is: the bound under overlap is reached for every number of
    overlapping compounds, and the cap itself holds over every run exactly when no two
    compounds can overlap or it cannot matter. */
module OutlierCap {
  import opened Common
  import opened Outlier

  // ---------------------------------------------------------------------------
  // Schedules in which only the first threads act
  // ---------------------------------------------------------------------------

  /** Only the first `most` threads have something in flight. */
  predicate Below(threads: seq<Pc>, most: nat) {
    forall t | most <= t < |threads| :: threads[t].Idle?
  }

  lemma {:induction false} BelowBounds(threads: seq<Pc>, most: nat)
    requires Below(threads, most)
    ensures Total(InFlight, threads) <= most && Total(InFlight, threads) <= |threads|
  {
    if threads != [] {
      var n := |threads| - 1;
      if n >= most {
        assert threads[n].Idle?;
        BelowBounds(threads[..n], most);
      } else {
        BelowBounds(threads[..n], n);
      }
    }
  }

  /** Some run leads from `s` to `r` with at most `most` compounds in flight together. */
  ghost predicate Reaches(s: State, r: State, most: nat) {
    && |s.endpoints| > 0
    && Below(r.threads, most)
    && exists acts :: Admissible(s, acts) && Run(s, acts) == r && Overlap(s, acts, most)
  }

  lemma {:induction false} Extend(s: State, acts: seq<Action>, a: Action, most: int)
    requires |s.endpoints| > 0 && Admissible(s, acts) && Overlap(s, acts, most) && Enabled(Run(s, acts), a)
    requires Total(InFlight, Next(Run(s, acts), a).threads) <= most
    ensures Admissible(s, acts + [a]) && Run(s, acts + [a]) == Next(Run(s, acts), a)
    ensures Overlap(s, acts + [a], most)
    decreases |acts|
  {
    if acts == [] {
      assert (acts + [a])[1..] == [];
    } else {
      assert (acts + [a])[1..] == acts[1..] + [a];
      Extend(Next(s, acts[0]), acts[1..], a, most);
    }
  }

  lemma Start(s: State, most: nat)
    requires |s.endpoints| > 0 && Below(s.threads, most)
    ensures Reaches(s, s, most)
  {
    BelowBounds(s.threads, most);
    assert Admissible(s, []) && Run(s, []) == s && Overlap(s, [], most);
  }

  /** One more step, by one of the first threads. */
  lemma Go(s: State, r: State, a: Action, most: nat)
    requires Reaches(s, r, most) && |r.endpoints| > 0 && !a.Tick? && a.tid < most && Enabled(r, a)
    ensures Reaches(s, Next(r, a), most) && |Next(r, a).endpoints| == |r.endpoints| && Next(r, a).cfg == r.cfg
  {
    var acts :| Admissible(s, acts) && Run(s, acts) == r && Overlap(s, acts, most);
    BelowBounds(Next(r, a).threads, most);
    Extend(s, acts, a, most);
  }

  // ---------------------------------------------------------------------------
  // One compound that runs while nobody else moves
  // ---------------------------------------------------------------------------

  predicate Detects(cfg: Config) {
    cfg.threshold5xx > 0 || cfg.thresholdGateway > 0
  }

  /** The thresholds fit the source's `u32`. */
  predicate Fits(cfg: Config) {
    cfg.threshold5xx < TWO_32 && cfg.thresholdGateway < TWO_32
  }

  /** How many gateway failures in a row make some detector cross. */
  function Needed(cfg: Config): nat {
    if cfg.threshold5xx == 0 then cfg.thresholdGateway
    else if cfg.thresholdGateway == 0 || cfg.threshold5xx <= cfg.thresholdGateway then cfg.threshold5xx
    else cfg.thresholdGateway
  }

  /** Thread `t` can take the lock of endpoint `ep`, which has seen `j` gateway failures. */
  ghost predicate Ready(s: State, t: nat, ep: nat, j: nat) {
    && t < |s.threads| && s.threads[t].Idle? && ep < |s.endpoints| && LockFree(s, ep)
    && !s.endpoints[ep].ejected && s.endpoints[ep].fives == s.endpoints[ep].gateways == j
  }

  /** `r` differs from `s` in thread `t`, now at `pc`, and in endpoint `ep`, now `e`. */
  ghost predicate Only(s: State, r: State, t: nat, pc: Pc, ep: nat, e: Endpoint)
    requires t < |s.threads| && ep < |s.endpoints|
  {
    r.cfg == s.cfg && r.threads == s.threads[t := pc] && r.endpoints == s.endpoints[ep := e]
  }

  lemma FailureCrosses(cfg: Config, e: Endpoint, j: nat)
    requires Detects(cfg) && Fits(cfg) && !e.ejected && e.fives == e.gateways == j < Needed(cfg)
    ensures var (f, d) := Record(cfg, e, 503);
      && !f.ejected && f.fives == f.gateways == j + 1
      && (d.Any() <==> j + 1 == Needed(cfg))
  {
  }

  /** Enough gateway failures on one endpoint start a scan. */
  lemma {:induction false} Provoke(s0: State, s: State, t: nat, ep: nat, j: nat, most: nat)
    returns (r: State, d: Decision, e: Endpoint)
    requires Reaches(s0, s, most) && Detects(s.cfg) && Fits(s.cfg) && t < most
    requires Ready(s, t, ep, j) && j < Needed(s.cfg)
    ensures Reaches(s0, r, most) && Only(s, r, t, Scanning(ep, d, 0, 0, r.tally.swaps), ep, e) && !e.ejected
    decreases Needed(s.cfg) - j
  {
    var a := Respond(t, ep, 503);
    FailureCrosses(s.cfg, s.endpoints[ep], j);
    Go(s0, s, a, most);
    var s1 := Next(s, a);
    e := Record(s.cfg, s.endpoints[ep], 503).0;
    d := Record(s.cfg, s.endpoints[ep], 503).1;
    r := s1;
    if j + 1 < Needed(s.cfg) {
      assert s1.threads == s.threads;
      r, d, e := Provoke(s0, s1, t, ep, j + 1, most);
      assert s1.endpoints[ep := e] == s.endpoints[ep := e];
    }
  }

  /** Undisturbed, a scan counts exactly the flags that are set. */
  lemma {:induction false} ScanAlone(s0: State, s: State, t: nat, most: nat) returns (r: State)
    requires Reaches(s0, s, most) && t < most && t < |s.threads| && s.threads[t].Scanning?
    requires InPlace(s.threads[t], |s.endpoints|) && s.threads[t].next <= |s.endpoints|
    requires s.threads[t].seen == EjectedCount(s.endpoints[..s.threads[t].next])
    ensures Reaches(s0, r, most) && s.threads[t].ep < |s.endpoints|
    ensures var p := s.threads[t];
      Only(s, r, t, p.(next := |s.endpoints|, seen := EjectedCount(s.endpoints)), p.ep, s.endpoints[p.ep])
    decreases |s.endpoints| - s.threads[t].next
  {
    hide Reaches;
    var p := s.threads[t];
    if p.next == |s.endpoints| {
      r := s;
      assert s.endpoints[..p.next] == s.endpoints && s.threads[t := p] == s.threads;
    } else {
      Go(s0, s, Continue(t), most);
      var s1 := Next(s, Continue(t));
      assert s.endpoints[..p.next + 1][..p.next] == s.endpoints[..p.next];
      assert s1.endpoints == s.endpoints;
      r := ScanAlone(s0, s1, t, most);
      var q := p.(next := |s.endpoints|, seen := EjectedCount(s.endpoints));
      assert s1.threads[t := q] == s.threads[t := q];
    }
  }

  /** While fewer endpoints than the cap are ejected, a provoked compound passes its check. */
  lemma PassAlone(s0: State, s: State, t: nat, ep: nat, most: nat) returns (r: State, pc: Pc, e: Endpoint)
    requires Reaches(s0, s, most) && Detects(s.cfg) && Fits(s.cfg) && t < most
    requires Ready(s, t, ep, 0) && EjectedCount(s.endpoints) < Cap(s)
    ensures Reaches(s0, r, most) && Only(s, r, t, pc, ep, e) && pc.Passed? && pc.ep == ep && !e.ejected
  {
    hide Reaches;
    var s1, d, e1 := Provoke(s0, s, t, ep, 0, most);
    EjectedUpdate(s.endpoints, ep, e1);
    assert s1.endpoints[..0] == [];
    var s2 := ScanAlone(s0, s1, t, most);
    assert s2.endpoints == s1.endpoints && Cap(s2) == Cap(s);
    Go(s0, s2, Continue(t), most);
    r, pc, e := Next(s2, Continue(t)), Passed(ep, d, s1.tally.swaps), e1;
    assert r.threads == s.threads[t := pc];
    assert r.endpoints == s.endpoints[ep := e];
  }

  lemma SetFlag(s0: State, s: State, t: nat, most: nat) returns (r: State, pc: Pc, e: Endpoint)
    requires Reaches(s0, s, most) && t < most && t < |s.threads| && s.threads[t].Passed? && s.threads[t].ep < |s.endpoints|
    ensures Reaches(s0, r, most) && Only(s, r, t, pc, s.threads[t].ep, e)
    ensures pc.Ejecting? && pc.stage.TickActive? && pc.ep == s.threads[t].ep && e.ejected
  {
    Go(s0, s, Continue(t), most);
    r := Next(s, Continue(t));
    pc, e := r.threads[t], r.endpoints[s.threads[t].ep];
  }

  /** A compound that has set its flag ticks, stamps and unlocks. */
  lemma FinishEjecting(s0: State, s: State, t: nat, most: nat) returns (r: State, e: Endpoint)
    requires Reaches(s0, s, most) && t < most && t < |s.threads| && s.threads[t].Ejecting?
    requires s.threads[t].stage.TickActive? && s.threads[t].ep < |s.endpoints| && s.endpoints[s.threads[t].ep].ejected
    ensures Reaches(s0, r, most) && Only(s, r, t, Idle, s.threads[t].ep, e) && e.ejected
  {
    hide Reaches;
    var ep := s.threads[t].ep;
    Go(s0, s, Continue(t), most);
    var s1 := Next(s, Continue(t));
    Go(s0, s1, Continue(t), most);
    var s2 := Next(s1, Continue(t));
    Go(s0, s2, Continue(t), most);
    r := Next(s2, Continue(t));
    e := r.endpoints[ep];
    assert r.threads == s.threads[t := Idle];
    assert r.endpoints == s.endpoints[ep := e];
  }

  // ---------------------------------------------------------------------------
  // Many compounds
  // ---------------------------------------------------------------------------

  lemma {:induction false} PrefixEjected(es: seq<Endpoint>, k: nat)
    requires k <= |es|
    requires forall i | 0 <= i < |es| :: es[i].ejected <==> i < k
    ensures EjectedCount(es) == k
  {
    if es != [] {
      var n := |es| - 1;
      PrefixEjected(es[..n], if k > n then n else k);
    }
  }

  /** The first `k` endpoints are ejected, those from `unseen` on have seen nothing. */
  ghost predicate Ejected(s: State, k: nat, unseen: nat) {
    && k <= unseen <= |s.endpoints|
    && (forall i | 0 <= i < |s.endpoints| :: s.endpoints[i].ejected <==> i < k)
    && (forall i | unseen <= i < |s.endpoints| :: s.endpoints[i] == FRESH)
  }

  /** One thread ejects the first `k` endpoints, one after the other. */
  lemma {:induction false} EjectInTurn(s0: State, k: nat, most: nat) returns (r: State)
    requires Reaches(s0, s0, most) && Detects(s0.cfg) && Fits(s0.cfg) && 0 < most && 0 < |s0.threads|
    requires Below(s0.threads, 0) && Ejected(s0, 0, 0) && k <= Cap(s0) && k <= |s0.endpoints|
    ensures Reaches(s0, r, most) && r.cfg == s0.cfg && |r.threads| == |s0.threads| && |r.endpoints| == |s0.endpoints|
    ensures Below(r.threads, 0) && Ejected(r, k, k)
  {
    hide Reaches;
    r := s0;
    if k > 0 {
      var s := EjectInTurn(s0, k - 1, most);
      PrefixEjected(s.endpoints, k - 1);
      var s1, pc, e := PassAlone(s0, s, 0, k - 1, most);
      var s2, pc2, e2 := SetFlag(s0, s1, 0, most);
      var e3;
      r, e3 := FinishEjecting(s0, s2, 0, most);
      assert r.endpoints == s.endpoints[k - 1 := e3];
    }
  }

  /** Thread `i` has passed its check on endpoint `a + i`, for every `i` from `from` up to `m`. */
  ghost predicate Waiting(s: State, a: nat, from: nat, m: nat) {
    && m <= |s.threads|
    && (forall i | from <= i < m :: s.threads[i].Passed? && s.threads[i].ep == a + i)
  }

  /** `m` compounds pass their checks one after the other and none has set its flag yet. */
  lemma {:induction false} PassInTurn(s0: State, s: State, a: nat, m: nat, most: nat) returns (r: State)
    requires Reaches(s0, s, most) && Detects(s.cfg) && Fits(s.cfg)
    requires Below(s.threads, 0) && Ejected(s, a, a) && a < Cap(s)
    requires m <= most && m <= |s.threads| && a + m <= |s.endpoints|
    ensures Reaches(s0, r, most) && r.cfg == s.cfg && |r.threads| == |s.threads| && |r.endpoints| == |s.endpoints|
    ensures Waiting(r, a, 0, m) && Below(r.threads, m) && Ejected(r, a, a + m)
  {
    r := s;
    if m > 0 {
      var s1 := PassInTurn(s0, s, a, m - 1, most);
      PrefixEjected(s1.endpoints, a);
      var t, ep := m - 1, a + m - 1;
      assert LockFree(s1, ep);
      var pc, e;
      r, pc, e := PassAlone(s0, s1, t, ep, most);
    }
  }

  /** Then they set their flags. */
  lemma {:induction false} FlagInTurn(s0: State, s: State, a: nat, m: nat, j: nat, most: nat) returns (r: State)
    requires Reaches(s0, s, most) && j <= m <= most && m <= |s.threads| && a + m <= |s.endpoints|
    requires Waiting(s, a, 0, m) && Ejected(s, a, a + m)
    ensures Reaches(s0, r, most) && r.cfg == s.cfg && |r.threads| == |s.threads| && |r.endpoints| == |s.endpoints|
    ensures Waiting(r, a, j, m) && Ejected(r, a + j, a + m)
    decreases j
  {
    r := s;
    if j > 0 {
      var s1 := FlagInTurn(s0, s, a, m, j - 1, most);
      var pc, e;
      r, pc, e := SetFlag(s0, s1, j - 1, most);
    }
  }

  function Min(a: nat, b: nat): nat { if a < b then a else b }

  /** The bound under overlap cannot be lowered: for every configuration that detects
      anything, every number of endpoints and every number of compounds that may overlap,
      some run ejects as many endpoints as the bound allows and there are. */
  lemma BoundIsReached(cfg: Config, n: nat, threads: nat, most: nat) returns (acts: seq<Action>)
    requires Detects(cfg) && Fits(cfg) && n > 0 && 0 < most <= threads && n * cfg.maxPercent / 100 > 0
    ensures Admissible(Init(cfg, n, threads), acts) && Overlap(Init(cfg, n, threads), acts, most)
    ensures EjectedCount(Run(Init(cfg, n, threads), acts).endpoints) == Min(n, n * cfg.maxPercent / 100 + most - 1)
  {
    var s0 := Init(cfg, n, threads);
    var cap := Cap(s0);
    var a := Min(n, cap - 1);
    var m := Min(n - a, most);
    Start(s0, most);
    var s1 := EjectInTurn(s0, a, most);
    var s2 := PassInTurn(s0, s1, a, m, most);
    var s3 := FlagInTurn(s0, s2, a, m, m, most);
    PrefixEjected(s3.endpoints, a + m);
    acts :| Admissible(s0, acts) && Run(s0, acts) == s3 && Overlap(s0, acts, most);
  }

  // ---------------------------------------------------------------------------
  // When the cap holds
  // ---------------------------------------------------------------------------

  /** No run ever has more endpoints ejected than the cap. */
  ghost predicate AlwaysWithinCap(cfg: Config, n: nat, threads: nat)
    requires n > 0
  {
    forall acts | Admissible(Init(cfg, n, threads), acts) ::
      EjectedCount(Run(Init(cfg, n, threads), acts).endpoints) <= n * cfg.maxPercent / 100
  }

  lemma {:induction false} FewThreads(s: State, acts: seq<Action>)
    requires |s.endpoints| > 0 && Admissible(s, acts)
    ensures Overlap(s, acts, |s.threads|)
    decreases |acts|
  {
    BelowBounds(s.threads, |s.threads|);
    if acts != [] {
      FewThreads(Next(s, acts[0]), acts[1..]);
    }
  }

  lemma {:induction false} OverlapMore(s: State, acts: seq<Action>, few: int, more: int)
    requires |s.endpoints| > 0 && Admissible(s, acts) && Overlap(s, acts, few) && few <= more
    ensures Overlap(s, acts, more)
    decreases |acts|
  {
    if acts != [] {
      OverlapMore(Next(s, acts[0]), acts[1..], few, more);
    }
  }

  /** Without a detector no response ever starts a compound. */
  ghost predicate Quiet(s: State) {
    && !Detects(s.cfg)
    && (forall i | 0 <= i < |s.endpoints| :: !s.endpoints[i].ejected && s.endpoints[i].at.None?)
    && (forall t | 0 <= t < |s.threads| :: s.threads[t].Idle? || s.threads[t].Sweeping?)
  }

  lemma QuietStep(s: State, a: Action)
    requires Quiet(s) && |s.endpoints| > 0 && Enabled(s, a)
    ensures Quiet(Next(s, a))
  {
  }

  lemma {:induction false} QuietRun(s: State, acts: seq<Action>)
    requires Quiet(s) && |s.endpoints| > 0 && Admissible(s, acts)
    ensures Quiet(Run(s, acts))
    decreases |acts|
  {
    if acts != [] {
      QuietStep(s, acts[0]);
      QuietRun(Next(s, acts[0]), acts[1..]);
    }
  }

  lemma {:induction false} AtMostAll(es: seq<Endpoint>)
    ensures EjectedCount(es) <= |es|
  {
    if es != [] {
      AtMostAll(es[..|es| - 1]);
    }
  }

  lemma WithinCapWhen(cfg: Config, n: nat, threads: nat, acts: seq<Action>)
    requires n > 0 && Admissible(Init(cfg, n, threads), acts)
    requires !Detects(cfg) || threads <= 1 || n * cfg.maxPercent / 100 == 0 || n * cfg.maxPercent / 100 >= n
    ensures EjectedCount(Run(Init(cfg, n, threads), acts).endpoints) <= n * cfg.maxPercent / 100
  {
    var s0 := Init(cfg, n, threads);
    var s := Run(s0, acts);
    AtMostAll(s.endpoints);
    if !Detects(cfg) {
      QuietRun(s0, acts);
      NoneEjected(s.endpoints);
    } else {
      var most := if threads == 0 then 1 else threads;
      FewThreads(s0, acts);
      OverlapMore(s0, acts, threads, most);
      CapUnderOverlap(cfg, n, threads, acts, most);
    }
  }

  /** The cap holds over every run exactly when nothing is detected, only one thread responds,
      the cap is zero, or the cap covers every endpoint. */
  lemma WithinCapIff(cfg: Config, n: nat, threads: nat)
    requires Fits(cfg) && n > 0
    ensures AlwaysWithinCap(cfg, n, threads) <==>
      !Detects(cfg) || threads <= 1 || n * cfg.maxPercent / 100 == 0 || n * cfg.maxPercent / 100 >= n
  {
    if !Detects(cfg) || threads <= 1 || n * cfg.maxPercent / 100 == 0 || n * cfg.maxPercent / 100 >= n {
      forall acts | Admissible(Init(cfg, n, threads), acts)
        ensures EjectedCount(Run(Init(cfg, n, threads), acts).endpoints) <= n * cfg.maxPercent / 100
      {
        WithinCapWhen(cfg, n, threads, acts);
      }
    } else {
      var acts := BoundIsReached(cfg, n, threads, 2);
    }
  }
}
