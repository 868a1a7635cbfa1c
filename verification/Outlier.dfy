/** Passive outlier detection: the per-endpoint streak machine, the cluster-level
    ejection compound with its percentage cap, and the time-driven sweeper, as one
    transition system in which any number of threads interleave. */
module Outlier {
  import opened Common

  // ---------------------------------------------------------------------------
  // One endpoint
  // ---------------------------------------------------------------------------

  datatype Config = Config(threshold5xx: nat, thresholdGateway: nat, maxPercent: nat, base: nat)

  /** When an ejection was stamped, and how many stamps came before it. */
  datatype Stamp = Stamp(time: nat, number: nat)

  /** `log` is the list of statuses recorded since the last un-ejection. */
  datatype Endpoint = Endpoint(ejected: bool, fives: nat, gateways: nat, at: Option<Stamp>, log: seq<nat>)

  const FRESH := Endpoint(false, 0, 0, None, [])

  datatype Decision = Decision(crossed5xx: bool, crossedGateway: bool) {
    predicate Any() { crossed5xx || crossedGateway }
  }

  predicate Is5xx(status: nat) { status / 100 == 5 }

  predicate IsGateway(status: nat) { 502 <= status <= 504 }

  predicate Crosses(threshold: nat, n: nat) { threshold > 0 && n >= threshold }

  /** The endpoint's reaction to a response: counters are `u32` and wrap. */
  function Record(cfg: Config, e: Endpoint, status: nat): (r: (Endpoint, Decision)) {
    if e.ejected then (e, Decision(false, false))
    else if Is5xx(status) then
      var n5 := (e.fives + 1) % TWO_32;
      var ngf := if IsGateway(status) then (e.gateways + 1) % TWO_32 else e.gateways;
      (e.(fives := n5, gateways := ngf, log := e.log + [status]),
       Decision(Crosses(cfg.threshold5xx, n5), IsGateway(status) && Crosses(cfg.thresholdGateway, ngf)))
    else (e.(fives := 0, gateways := 0, log := e.log + [status]), Decision(false, false))
  }

  /** Length of the longest suffix of 5xx statuses. */
  function Streak(log: seq<nat>): nat {
    if log == [] || !Is5xx(log[|log| - 1]) then 0 else Streak(log[..|log| - 1]) + 1
  }

  function CountGateways(log: seq<nat>): nat {
    if log == [] then 0 else CountGateways(log[..|log| - 1]) + if IsGateway(log[|log| - 1]) then 1 else 0
  }

  /** `Streak` is the longest such suffix: all of it is 5xx and the status before is not. */
  lemma {:induction false} StreakIsLongest(log: seq<nat>)
    ensures Streak(log) <= |log|
    ensures forall i | |log| - Streak(log) <= i < |log| :: 500 <= log[i] <= 599
    ensures Streak(log) < |log| ==> !(500 <= log[|log| - Streak(log) - 1] <= 599)
  {
    if log != [] && Is5xx(log[|log| - 1]) {
      StreakIsLongest(log[..|log| - 1]);
    }
  }

  /** The number of gateway failures in that suffix. */
  function StreakGateways(log: seq<nat>): nat {
    if log == [] || !Is5xx(log[|log| - 1]) then 0
    else StreakGateways(log[..|log| - 1]) + if IsGateway(log[|log| - 1]) then 1 else 0
  }

  lemma {:induction false} StreakGatewaysCounts(log: seq<nat>)
    ensures Streak(log) <= |log|
    ensures StreakGateways(log) == CountGateways(log[|log| - Streak(log)..])
  {
    StreakIsLongest(log);
    if log != [] && Is5xx(log[|log| - 1]) {
      var init := log[..|log| - 1];
      StreakGatewaysCounts(init);
      var tail := log[|log| - Streak(log)..];
      assert tail[..|tail| - 1] == init[|init| - Streak(init)..];
    }
  }

  lemma {:induction false} FewerGateways(log: seq<nat>)
    ensures CountGateways(log) <= |log|
  {
    if log != [] {
      FewerGateways(log[..|log| - 1]);
    }
  }

  /** The counters are the streak lengths modulo the counter width. */
  ghost predicate CountsStreak(e: Endpoint) {
    e.fives == Streak(e.log) % TWO_32 && e.gateways == StreakGateways(e.log) % TWO_32
  }

  lemma StreakAppend(log: seq<nat>, status: nat)
    ensures Streak(log + [status]) == if Is5xx(status) then Streak(log) + 1 else 0
    ensures StreakGateways(log + [status]) ==
      if Is5xx(status) then StreakGateways(log) + if IsGateway(status) then 1 else 0 else 0
  {
    assert (log + [status])[..|log|] == log;
  }

  lemma WrapSucc(x: nat)
    ensures (x % TWO_32 + 1) % TWO_32 == (x + 1) % TWO_32
  {
  }

  lemma RecordCountsStreak(cfg: Config, e: Endpoint, status: nat)
    requires CountsStreak(e)
    ensures CountsStreak(Record(cfg, e, status).0)
  {
    StreakAppend(e.log, status);
    WrapSucc(Streak(e.log));
    WrapSucc(StreakGateways(e.log));
  }

  /** For streaks below the counter width the counters are exact, so the gateway counter
      never exceeds the 5xx counter. */
  lemma ShortStreaksExact(e: Endpoint)
    requires CountsStreak(e) && Streak(e.log) < TWO_32
    ensures e.fives == Streak(e.log) && e.gateways == StreakGateways(e.log) <= e.fives
  {
    StreakGatewaysCounts(e.log);
    FewerGateways(e.log[|e.log| - Streak(e.log)..]);
  }

  // ---------------------------------------------------------------------------
  // When a response crosses
  // ---------------------------------------------------------------------------

  /** The last `k` statuses are all server errors. */
  predicate LastFailed(log: seq<nat>, k: nat) {
    k <= |log| && forall i | |log| - k <= i < |log| :: 500 <= log[i] <= 599
  }

  /** How many of the statuses are gateway failures. */
  function GatewayFailures(log: seq<nat>): nat {
    if log == [] then 0
    else GatewayFailures(log[..|log| - 1]) + if 502 <= log[|log| - 1] <= 504 then 1 else 0
  }

  /** As many server errors in a row as the 5xx threshold asks for. */
  predicate Trips5xx(cfg: Config, log: seq<nat>) {
    cfg.threshold5xx > 0 && LastFailed(log, cfg.threshold5xx)
  }

  /** The newest status is a gateway failure, and an unbroken row of server errors up to it
      holds as many gateway failures as the threshold asks for. */
  ghost predicate TripsGateway(cfg: Config, log: seq<nat>) {
    && cfg.thresholdGateway > 0 && log != [] && 502 <= log[|log| - 1] <= 504
    && exists k: nat :: LastFailed(log, k) && GatewayFailures(log[|log| - k..]) >= cfg.thresholdGateway
  }

  lemma StreakMeans(log: seq<nat>, k: nat)
    ensures LastFailed(log, k) <==> k <= Streak(log)
  {
    StreakIsLongest(log);
  }

  lemma {:induction false} GatewaysMean(log: seq<nat>)
    ensures CountGateways(log) == GatewayFailures(log)
  {
    if log != [] {
      GatewaysMean(log[..|log| - 1]);
    }
  }

  lemma {:induction false} GatewaysGrow(log: seq<nat>, a: nat, b: nat)
    requires a <= b <= |log|
    ensures GatewayFailures(log[b..]) <= GatewayFailures(log[a..])
    decreases b
  {
    if a < b {
      GatewaysGrow(log, a, b - 1);
      GatewaysFront(log[b - 1..]);
      assert log[b - 1..][1..] == log[b..];
    }
  }

  lemma {:induction false} GatewaysFront(log: seq<nat>)
    requires log != []
    ensures GatewayFailures(log[1..]) <= GatewayFailures(log)
  {
    if |log| > 1 {
      var n := |log| - 1;
      GatewaysFront(log[..n]);
      assert log[1..][..n - 1] == log[..n][1..];
    }
  }

  lemma StreakTail(log: seq<nat>)
    ensures Streak(log) <= |log| && StreakGateways(log) == GatewayFailures(log[|log| - Streak(log)..])
  {
    hide Streak;
    hide StreakGateways;
    hide CountGateways;
    hide GatewayFailures;
    StreakGatewaysCounts(log);
    GatewaysMean(log[|log| - Streak(log)..]);
  }

  lemma StreakGatewaysBound(log: seq<nat>, k: nat)
    requires LastFailed(log, k)
    ensures GatewayFailures(log[|log| - k..]) <= StreakGateways(log)
  {
    hide Streak;
    hide StreakGateways;
    hide GatewayFailures;
    StreakMeans(log, k);
    StreakTail(log);
    GatewaysGrow(log, |log| - Streak(log), |log| - k);
  }

  lemma StreakGatewaysMean(log: seq<nat>, threshold: nat)
    ensures StreakGateways(log) >= threshold <==>
      exists k: nat :: LastFailed(log, k) && GatewayFailures(log[|log| - k..]) >= threshold
  {
    hide Streak;
    hide StreakGateways;
    hide GatewayFailures;
    var n := Streak(log);
    StreakTail(log);
    StreakMeans(log, n);
    forall k: nat | LastFailed(log, k) ensures GatewayFailures(log[|log| - k..]) <= StreakGateways(log) {
      StreakGatewaysBound(log, k);
    }
    assert LastFailed(log, n) && GatewayFailures(log[|log| - n..]) == StreakGateways(log);
  }

  /** What a response does to an endpoint that is not ejected: it is logged, and it crosses a
      detector exactly when the statuses say so, for streaks below the counter width. */
  lemma CrossesWhen(cfg: Config, e: Endpoint, status: nat)
    requires !e.ejected && CountsStreak(e) && Streak(e.log) + 1 < TWO_32
    ensures var (f, d) := Record(cfg, e, status);
      && f.log == e.log + [status] && !f.ejected && f.at == e.at
      && (d.crossed5xx <==> Trips5xx(cfg, e.log + [status]))
      && (d.crossedGateway <==> TripsGateway(cfg, e.log + [status]))
  {
    var log := e.log + [status];
    RecordCountsStreak(cfg, e, status);
    var f := Record(cfg, e, status).0;
    StreakAppend(e.log, status);
    ShortStreaksExact(f);
    StreakMeans(log, cfg.threshold5xx);
    TripsGatewayMeans(cfg, log);
    hide TripsGateway;
    hide LastFailed;
  }

  lemma TripsGatewayMeans(cfg: Config, log: seq<nat>)
    ensures TripsGateway(cfg, log) <==>
      cfg.thresholdGateway > 0 && log != [] && 502 <= log[|log| - 1] <= 504 && StreakGateways(log) >= cfg.thresholdGateway
  {
    StreakGatewaysMean(log, cfg.thresholdGateway);
  }

  // ---------------------------------------------------------------------------
  // The cluster
  // ---------------------------------------------------------------------------

  /** An ejection in force, numbered in the order the flags were set. */
  datatype Ejection = Ejection(ep: nat, serial: nat)

  datatype Stage = TickActive | TickTotal | TickDetector

  /** A response compound holds its endpoint's lock from the crossing until it is done.
      `began` is the number of ejections made before its scan of the flags started. A
      sweeper locks one endpoint at a time; `started` and `stamps` are the time and the
      number of stamps when its pass began. */
  datatype Pc =
    | Idle
    | Scanning(ep: nat, decision: Decision, next: nat, seen: nat, began: nat)
    | Passed(ep: nat, decision: Decision, began: nat)
    | Overflowed(ep: nat)
    | Ejecting(ep: nat, decision: Decision, stage: Stage)
    | Sweeping(idx: nat, started: nat, stamps: nat)
    | UnEjecting(idx: nat, started: nat, stamps: nat)

  /** The shared statistics, then four counts that only the proofs read: crossings,
      flags set, flags cleared and stamps made. */
  datatype Tally = Tally(
    active: int, enforced: nat, enforced5xx: nat, enforcedGateway: nat,
    detected5xx: nat, detectedGateway: nat, overflow: nat,
    crossings: nat, swaps: nat, unejections: nat, stamps: nat)

  datatype State = State(
    cfg: Config,
    now: nat,
    endpoints: seq<Endpoint>,
    threads: seq<Pc>,
    order: seq<Ejection>,
    tally: Tally)

  function Init(cfg: Config, n: nat, threads: nat): State {
    State(cfg, 0, seq(n, _ => FRESH), seq(threads, _ => Idle), [], Tally(0, 0, 0, 0, 0, 0, 0, 0, 0, 0, 0))
  }

  /** The number of endpoints that may be ejected at once. */
  function Cap(s: State): nat {
    |s.endpoints| * s.cfg.maxPercent / 100
  }

  predicate HoldsLock(p: Pc, i: nat) {
    match p
    case Idle => false
    case Sweeping(_, _, _) => false
    case UnEjecting(idx, _, _) => idx == i
    case _ => p.ep == i
  }

  predicate LockFree(s: State, i: nat) {
    forall t | 0 <= t < |s.threads| :: !HoldsLock(s.threads[t], i)
  }

  /** The ejection has lasted the base time. */
  predicate Aged(cfg: Config, now: nat, e: Endpoint) {
    e.at.Some? && now - e.at.value.time >= cfg.base
  }

  predicate Due(s: State, i: nat) {
    i < |s.endpoints| && Aged(s.cfg, s.now, s.endpoints[i])
  }

  function Without(order: seq<Ejection>, ep: nat): seq<Ejection> {
    if order == [] then []
    else
      var n := |order| - 1;
      if order[n].ep == ep then Without(order[..n], ep) else Without(order[..n], ep) + [order[n]]
  }

  datatype Action =
    | Tick(elapsed: nat)
    | Respond(tid: nat, ep: nat, status: nat)
    | StartSweep(tid: nat)
    | Continue(tid: nat)

  predicate Enabled(s: State, a: Action) {
    match a
    case Tick(_) => true
    case Respond(t, ep, _) => t < |s.threads| && s.threads[t].Idle? && ep < |s.endpoints| && LockFree(s, ep)
    case StartSweep(t) => t < |s.threads| && s.threads[t].Idle?
    case Continue(t) =>
      && t < |s.threads| && !s.threads[t].Idle? && InPlace(s.threads[t], |s.endpoints|)
      && (s.threads[t].Sweeping? ==> LockFree(s, s.threads[t].idx))
  }

  /** The thread's endpoint exists; `DeadlockFree` shows this is never in doubt. */
  predicate InPlace(p: Pc, n: nat) {
    match p
    case Idle => true
    case Sweeping(idx, _, _) => idx <= n && n > 0
    case UnEjecting(idx, _, _) => idx < n
    case _ => p.ep < n
  }

  /** What one step of a thread changes. */
  datatype Move = Move(pc: Pc, target: nat, endpoint: Endpoint, order: seq<Ejection>, tally: Tally)

  /** A move that leaves endpoints, ejections and statistics alone. */
  function Step(s: State, pc: Pc, target: nat): Move
    requires target < |s.endpoints|
  {
    Move(pc, target, s.endpoints[target], s.order, s.tally)
  }

  function RespondMove(s: State, ep: nat, status: nat): Move
    requires ep < |s.endpoints|
  {
    var (e, d) := Record(s.cfg, s.endpoints[ep], status);
    var tally := s.tally.(
      detected5xx := s.tally.detected5xx + if d.crossed5xx then 1 else 0,
      detectedGateway := s.tally.detectedGateway + if d.crossedGateway then 1 else 0,
      crossings := s.tally.crossings + if d.Any() then 1 else 0);
    Move(if d.Any() then Scanning(ep, d, 0, 0, s.tally.swaps) else Idle, ep, e, s.order, tally)
  }

  function ScanMove(s: State, p: Pc): Move
    requires p.Scanning? && p.ep < |s.endpoints|
  {
    if p.next < |s.endpoints| then
      Step(s, p.(next := p.next + 1, seen := p.seen + if s.endpoints[p.next].ejected then 1 else 0), p.ep)
    else if p.seen >= Cap(s) then Step(s, Overflowed(p.ep), p.ep)
    else Step(s, Passed(p.ep, p.decision, p.began), p.ep)
  }

  function EjectMove(s: State, p: Pc): Move
    requires p.Ejecting? && p.ep < |s.endpoints|
  {
    var m := Step(s, p, p.ep);
    match p.stage
    case TickActive => m.(pc := p.(stage := TickTotal), tally := s.tally.(active := s.tally.active + 1))
    case TickTotal => m.(pc := p.(stage := TickDetector), tally := s.tally.(enforced := s.tally.enforced + 1))
    case TickDetector =>
      var tally := s.tally.(stamps := s.tally.stamps + 1);
      m.(pc := Idle,
         endpoint := m.endpoint.(at := Some(Stamp(s.now, s.tally.stamps))),
         tally := if p.decision.crossed5xx
                  then tally.(enforced5xx := tally.enforced5xx + 1)
                  else tally.(enforcedGateway := tally.enforcedGateway + 1))
  }

  function AdvanceMove(s: State, p: Pc): Move
    requires !p.Idle? && InPlace(p, |s.endpoints|)
  {
    match p
    case Scanning(_, _, _, _, _) => ScanMove(s, p)
    case Passed(ep, decision, _) =>
      Move(Ejecting(ep, decision, TickActive), ep, s.endpoints[ep].(ejected := true),
           s.order + [Ejection(ep, s.tally.swaps)], s.tally.(swaps := s.tally.swaps + 1))
    case Overflowed(ep) => Step(s, Idle, ep).(tally := s.tally.(overflow := s.tally.overflow + 1))
    case Ejecting(_, _, _) => EjectMove(s, p)
    case Sweeping(idx, started, stamps) =>
      if idx >= |s.endpoints| then Step(s, Idle, 0)
      else if Due(s, idx) then
        Move(UnEjecting(idx, started, stamps), idx, s.endpoints[idx].(ejected := false),
             Without(s.order, idx), s.tally.(unejections := s.tally.unejections + 1))
      else Step(s, Sweeping(idx + 1, started, stamps), idx)
    case UnEjecting(idx, started, stamps) =>
      Step(s, Sweeping(idx + 1, started, stamps), idx)
        .(endpoint := s.endpoints[idx].(fives := 0, gateways := 0, at := None, log := []),
          tally := s.tally.(active := s.tally.active - 1))
  }

  function Apply(s: State, t: nat, m: Move): State
    requires t < |s.threads| && m.target < |s.endpoints|
  {
    s.(threads := s.threads[t := m.pc], endpoints := s.endpoints[m.target := m.endpoint],
       order := m.order, tally := m.tally)
  }

  function MoveOf(s: State, a: Action): Move
    requires Enabled(s, a) && !a.Tick? && |s.endpoints| > 0
  {
    match a
    case Respond(_, ep, status) => RespondMove(s, ep, status)
    case StartSweep(_) => Step(s, Sweeping(0, s.now, s.tally.stamps), 0)
    case Continue(t) => AdvanceMove(s, s.threads[t])
  }

  function Next(s: State, a: Action): State
    requires Enabled(s, a) && |s.endpoints| > 0
  {
    if a.Tick? then s.(now := s.now + a.elapsed) else Apply(s, a.tid, MoveOf(s, a))
  }

  // ---------------------------------------------------------------------------
  // Counting threads
  // ---------------------------------------------------------------------------

  datatype Measure = InFlight | StartedBy(serial: nat) | Unaccounted | OwesActive | OwesTotal | OwesDetector

  /** `InFlight`: response compounds between crossing and unlock. `StartedBy(k)`: compounds
      that have not set their flag and whose scan began before ejection `k` was made.
      `Unaccounted`: crossings neither enforced nor overflowed yet. `Owes...`: statistics
      ticks still to come for flags already changed. */
  function Weight(q: Measure, p: Pc): int {
    match q
    case InFlight => if p.Scanning? || p.Passed? || p.Overflowed? || p.Ejecting? then 1 else 0
    case StartedBy(k) => if (p.Scanning? || p.Passed?) && p.began <= k then 1 else 0
    case Unaccounted =>
      if p.Scanning? || p.Passed? || p.Overflowed? || (p.Ejecting? && !p.stage.TickDetector?) then 1 else 0
    case OwesActive => if p.Ejecting? && p.stage.TickActive? then 1 else if p.UnEjecting? then -1 else 0
    case OwesTotal => if p.Ejecting? && !p.stage.TickDetector? then 1 else 0
    case OwesDetector => if p.Ejecting? && p.stage.TickDetector? then 1 else 0
  }

  function Total(q: Measure, ps: seq<Pc>): int {
    if ps == [] then 0 else Total(q, ps[..|ps| - 1]) + Weight(q, ps[|ps| - 1])
  }

  lemma {:induction false} TotalUpdate(q: Measure, ps: seq<Pc>, t: nat, p: Pc)
    requires t < |ps|
    ensures Total(q, ps[t := p]) == Total(q, ps) - Weight(q, ps[t]) + Weight(q, p)
  {
    var n := |ps| - 1;
    if t == n {
      assert ps[t := p][..n] == ps[..n];
    } else {
      TotalUpdate(q, ps[..n], t, p);
      assert ps[t := p][..n] == ps[..n][t := p];
    }
  }

  lemma {:induction false} TotalIdle(q: Measure, ps: seq<Pc>)
    requires forall t | 0 <= t < |ps| :: ps[t].Idle?
    ensures Total(q, ps) == 0
  {
    if ps != [] {
      TotalIdle(q, ps[..|ps| - 1]);
    }
  }

  /** Compounds that have not set their flag are in flight. */
  lemma {:induction false} StartedAreInFlight(k: nat, ps: seq<Pc>)
    ensures 0 <= Total(StartedBy(k), ps) <= Total(InFlight, ps)
  {
    if ps != [] {
      StartedAreInFlight(k, ps[..|ps| - 1]);
    }
  }

  // ---------------------------------------------------------------------------
  // The list of ejections in force
  // ---------------------------------------------------------------------------

  ghost predicate Ordered(order: seq<Ejection>) {
    forall x, y | 0 <= x < y < |order| :: order[x].serial < order[y].serial && order[x].ep != order[y].ep
  }

  ghost predicate Listed(order: seq<Ejection>, ep: nat) {
    exists x :: 0 <= x < |order| && order[x].ep == ep
  }

  function Remove(order: seq<Ejection>, x: nat): seq<Ejection>
    requires x < |order|
  {
    order[..x] + order[x + 1..]
  }

  lemma {:induction false} WithoutUnlisted(order: seq<Ejection>, ep: nat)
    requires !Listed(order, ep)
    ensures Without(order, ep) == order
  {
    if order != [] {
      var n := |order| - 1;
      forall x | 0 <= x < n ensures order[..n][x].ep != ep {
        assert order[x].ep != ep;
      }
      WithoutUnlisted(order[..n], ep);
    }
  }

  lemma {:induction false} WithoutRemoves(order: seq<Ejection>, x: nat)
    requires Ordered(order) && x < |order|
    ensures Without(order, order[x].ep) == Remove(order, x)
  {
    var n := |order| - 1;
    if x == n {
      WithoutUnlisted(order[..n], order[n].ep);
      assert Remove(order, n) == order[..n];
    } else {
      WithoutRemoves(order[..n], x);
      assert order[..n][x].ep == order[x].ep != order[n].ep;
      assert Remove(order, x) == Remove(order[..n], x) + [order[n]];
    }
  }

  /** Ejections older than `began` among the endpoints before `next`. */
  function CountOld(order: seq<Ejection>, began: nat, next: nat): nat {
    if order == [] then 0
    else
      var e := order[|order| - 1];
      CountOld(order[..|order| - 1], began, next) + if e.serial < began && e.ep < next then 1 else 0
  }

  lemma {:induction false} CountOldConcat(a: seq<Ejection>, b: seq<Ejection>, began: nat, next: nat)
    ensures CountOld(a + b, began, next) == CountOld(a, began, next) + CountOld(b, began, next)
  {
    if b == [] {
      assert a + b == a;
    } else {
      assert (a + b)[..|a + b| - 1] == a + b[..|b| - 1];
      CountOldConcat(a, b[..|b| - 1], began, next);
    }
  }

  lemma CountOldRemove(order: seq<Ejection>, x: nat, began: nat, next: nat)
    requires x < |order|
    ensures CountOld(Remove(order, x), began, next) <= CountOld(order, began, next)
  {
    assert order == order[..x] + ([order[x]] + order[x + 1..]);
    CountOldConcat(order[..x], [order[x]] + order[x + 1..], began, next);
    CountOldConcat([order[x]], order[x + 1..], began, next);
    CountOldConcat(order[..x], order[x + 1..], began, next);
  }

  /** Reading one more flag sees at most one more old ejection, and sees it if it is there. */
  lemma {:induction false} CountOldNext(order: seq<Ejection>, began: nat, next: nat)
    requires Ordered(order)
    ensures CountOld(order, began, next + 1) <= CountOld(order, began, next) + if Listed(order, next) then 1 else 0
  {
    if order != [] {
      var n := |order| - 1;
      CountOldNext(order[..n], began, next);
      if order[n].ep == next {
        assert !Listed(order[..n], next);
        assert Listed(order, next);
      } else if Listed(order[..n], next) {
        var x :| 0 <= x < n && order[..n][x].ep == next;
        assert order[x].ep == next;
      }
    }
  }

  /** If the `m`-th ejection is old then so are all before it. */
  lemma {:induction false} CountOldPrefix(order: seq<Ejection>, began: nat, next: nat, m: nat)
    requires Ordered(order) && m < |order| && order[m].serial < began
    requires forall x | 0 <= x < |order| :: order[x].ep < next
    ensures CountOld(order, began, next) >= m + 1
  {
    var n := |order| - 1;
    if m < n {
      CountOldPrefix(order[..n], began, next, m);
    } else if m > 0 {
      assert order[m - 1].serial < order[m].serial;
      CountOldPrefix(order[..n], began, next, m - 1);
    }
  }

  function EjectedCount(es: seq<Endpoint>): nat {
    if es == [] then 0 else EjectedCount(es[..|es| - 1]) + if es[|es| - 1].ejected then 1 else 0
  }

  lemma {:induction false} EjectedUpdate(es: seq<Endpoint>, i: nat, e: Endpoint)
    requires i < |es|
    ensures EjectedCount(es[i := e]) ==
            EjectedCount(es) - (if es[i].ejected then 1 else 0) + (if e.ejected then 1 else 0)
  {
    var n := |es| - 1;
    if i == n {
      assert es[i := e][..n] == es[..n];
    } else {
      EjectedUpdate(es[..n], i, e);
      assert es[i := e][..n] == es[..n][i := e];
    }
  }

  lemma {:induction false} NoneEjected(es: seq<Endpoint>)
    requires forall i | 0 <= i < |es| :: !es[i].ejected
    ensures EjectedCount(es) == 0
  {
    if es != [] {
      NoneEjected(es[..|es| - 1]);
    }
  }

  // ---------------------------------------------------------------------------
  // The invariant
  // ---------------------------------------------------------------------------

  ghost predicate OrderOk(s: State) {
    && Ordered(s.order)
    && (forall x | 0 <= x < |s.order| ::
          s.order[x].serial < s.tally.swaps && s.order[x].ep < |s.endpoints| && s.endpoints[s.order[x].ep].ejected)
    && (forall i | 0 <= i < |s.endpoints| && s.endpoints[i].ejected :: Listed(s.order, i))
  }

  /** The statistics, up to operations in flight. */
  ghost predicate AccountOk(s: State) {
    var y := s.tally;
    && y.crossings == y.enforced + y.overflow + Total(Unaccounted, s.threads)
    && y.swaps == y.enforced + Total(OwesTotal, s.threads)
    && y.enforced == y.enforced5xx + y.enforcedGateway + Total(OwesDetector, s.threads)
    && y.swaps - y.unejections == |s.order| == EjectedCount(s.endpoints) == y.active + Total(OwesActive, s.threads)
    && y.crossings <= y.detected5xx + y.detectedGateway <= 2 * y.crossings
  }

  ghost predicate SweptBefore(s: State, idx: nat, started: nat, stamps: nat) {
    forall i | 0 <= i < idx && i < |s.endpoints| && s.endpoints[i].at.Some? ::
      s.endpoints[i].at.value.number < stamps ==> s.endpoints[i].at.value.time + s.cfg.base > started
  }

  ghost predicate PcOk(s: State, p: Pc) {
    && InPlace(p, |s.endpoints|)
    && match p
       case Idle => true
       case Scanning(ep, d, next, seen, began) =>
         && !s.endpoints[ep].ejected && s.endpoints[ep].at.None?
         && next <= |s.endpoints| && began <= s.tally.swaps && CountOld(s.order, began, next) <= seen
       case Passed(ep, d, began) =>
         && !s.endpoints[ep].ejected && s.endpoints[ep].at.None?
         && began <= s.tally.swaps && CountOld(s.order, began, |s.endpoints|) < Cap(s)
       case Overflowed(ep) => !s.endpoints[ep].ejected && s.endpoints[ep].at.None?
       case Ejecting(ep, _, _) => s.endpoints[ep].ejected && s.endpoints[ep].at.None?
       case Sweeping(idx, started, stamps) =>
         started <= s.now && stamps <= s.tally.stamps && SweptBefore(s, idx, started, stamps)
       case UnEjecting(idx, started, stamps) =>
         && started <= s.now && stamps <= s.tally.stamps && SweptBefore(s, idx, started, stamps)
         && !s.endpoints[idx].ejected && Due(s, idx)
  }

  ghost predicate ThreadsOk(s: State) {
    forall t | 0 <= t < |s.threads| :: PcOk(s, s.threads[t])
  }

  /** At most one thread holds an endpoint's lock. */
  ghost predicate LocksOk(s: State) {
    forall i: nat, t, u | 0 <= t < |s.threads| && 0 <= u < |s.threads| && t != u && HoldsLock(s.threads[t], i) ::
      !HoldsLock(s.threads[u], i)
  }

  /** While an endpoint's lock is free it is ejected exactly when it is stamped. */
  ghost predicate StampsOk(s: State) {
    forall i | 0 <= i < |s.endpoints| ::
      && (LockFree(s, i) ==> (s.endpoints[i].ejected <==> s.endpoints[i].at.Some?))
      && (s.endpoints[i].at.Some? ==>
            s.endpoints[i].at.value.time <= s.now && s.endpoints[i].at.value.number < s.tally.stamps)
  }

  ghost predicate StreaksOk(s: State) {
    forall i | 0 <= i < |s.endpoints| :: CountsStreak(s.endpoints[i])
  }

  ghost predicate Inv(s: State) {
    && |s.endpoints| > 0
    && OrderOk(s) && AccountOk(s) && ThreadsOk(s) && LocksOk(s) && StampsOk(s) && StreaksOk(s)
  }

  /** The bound that holds while at most `most` compounds are in flight: from the cap-th
      ejection on, later ejections and compounds that could still join them fit in `most`. */
  ghost predicate CapOk(s: State, most: int) {
    && (Cap(s) == 0 ==> s.order == [])
    && forall m | 0 <= m < |s.order| && m + 1 >= Cap(s) ::
         |s.order| - m + Total(StartedBy(s.order[m].serial), s.threads) <= most
  }

  lemma InitInv(cfg: Config, n: nat, threads: nat)
    requires n > 0
    ensures Inv(Init(cfg, n, threads)) && CapOk(Init(cfg, n, threads), 0)
  {
    var s := Init(cfg, n, threads);
    TotalIdle(Unaccounted, s.threads);
    TotalIdle(OwesActive, s.threads);
    TotalIdle(OwesTotal, s.threads);
    TotalIdle(OwesDetector, s.threads);
    NoneEjected(s.endpoints);
  }

  // How a move touches the list of ejections.

  ghost predicate Keeps(s: State, m: Move) {
    && m.target < |s.endpoints|
    && m.order == s.order && m.tally.swaps == s.tally.swaps && m.tally.unejections == s.tally.unejections
    && m.endpoint.ejected == s.endpoints[m.target].ejected
  }

  ghost predicate Grows(s: State, m: Move) {
    && m.target < |s.endpoints|
    && m.order == s.order + [Ejection(m.target, s.tally.swaps)]
    && m.tally.swaps == s.tally.swaps + 1 && m.tally.unejections == s.tally.unejections
    && !s.endpoints[m.target].ejected && m.endpoint.ejected
  }

  ghost predicate Shrinks(s: State, m: Move, x: nat) {
    && m.target < |s.endpoints|
    && x < |s.order| && s.order[x].ep == m.target && m.order == Remove(s.order, x)
    && m.tally.swaps == s.tally.swaps && m.tally.unejections == s.tally.unejections + 1
    && s.endpoints[m.target].ejected && !m.endpoint.ejected
  }

  ghost predicate Touches(s: State, m: Move, x: nat) {
    Keeps(s, m) || Grows(s, m) || Shrinks(s, m, x)
  }

  lemma MoveTouches(s: State, a: Action) returns (x: nat)
    requires Inv(s) && Enabled(s, a) && !a.Tick?
    ensures Touches(s, MoveOf(s, a), x)
  {
    var p := s.threads[a.tid];
    x := 0;
    assert PcOk(s, p);
    if a.Continue? && p.Sweeping? && p.idx < |s.endpoints| && Due(s, p.idx) {
      assert Listed(s.order, p.idx);
      x :| 0 <= x < |s.order| && s.order[x].ep == p.idx;
      WithoutRemoves(s.order, x);
    }
  }

  lemma ListedAfter(s: State, m: Move, x: nat, i: nat)
    requires m.target < |s.endpoints| && Touches(s, m, x) && OrderOk(s) && i < |s.endpoints|
    requires if i == m.target then m.endpoint.ejected else s.endpoints[i].ejected
    ensures Listed(m.order, i)
  {
    if Grows(s, m) && i == m.target {
      assert m.order[|s.order|].ep == i;
    } else {
      var y :| 0 <= y < |s.order| && s.order[y].ep == i;
      assert m.order[if Shrinks(s, m, x) && y > x then y - 1 else y].ep == i;
    }
  }

  lemma OrderStep(s: State, t: nat, m: Move, x: nat)
    requires OrderOk(s) && t < |s.threads| && m.target < |s.endpoints| && Touches(s, m, x)
    ensures OrderOk(Apply(s, t, m))
  {
    var s' := Apply(s, t, m);
    if Grows(s, m) {
      GrowOrder(s.order, m.target, s.tally.swaps);
    }
    forall i | 0 <= i < |s'.endpoints| && s'.endpoints[i].ejected ensures Listed(s'.order, i) {
      ListedAfter(s, m, x, i);
    }
  }

  lemma GrowOrder(order: seq<Ejection>, ep: nat, serial: nat)
    requires Ordered(order) && forall x | 0 <= x < |order| :: order[x].serial < serial && order[x].ep != ep
    ensures Ordered(order + [Ejection(ep, serial)])
  {
  }

  lemma CountOldStep(s: State, m: Move, x: nat, began: nat, next: nat)
    requires m.target < |s.endpoints| && Touches(s, m, x) && began <= s.tally.swaps
    ensures CountOld(m.order, began, next) <= CountOld(s.order, began, next)
  {
    if Grows(s, m) {
      CountOldConcat(s.order, [Ejection(m.target, s.tally.swaps)], began, next);
    } else if Shrinks(s, m, x) {
      CountOldRemove(s.order, x, began, next);
    }
  }

  // The accounts.

  ghost predicate Balanced(s: State, p: Pc, m: Move) {
    var y, z := s.tally, m.tally;
    && z.crossings - y.crossings ==
       z.enforced - y.enforced + z.overflow - y.overflow + Weight(Unaccounted, m.pc) - Weight(Unaccounted, p)
    && z.swaps - y.swaps == z.enforced - y.enforced + Weight(OwesTotal, m.pc) - Weight(OwesTotal, p)
    && z.enforced - y.enforced ==
       z.enforced5xx - y.enforced5xx + z.enforcedGateway - y.enforcedGateway
       + Weight(OwesDetector, m.pc) - Weight(OwesDetector, p)
    && z.swaps - z.unejections - (y.swaps - y.unejections) ==
       z.active - y.active + Weight(OwesActive, m.pc) - Weight(OwesActive, p)
    && z.crossings - y.crossings <= z.detected5xx - y.detected5xx + z.detectedGateway - y.detectedGateway
       <= 2 * (z.crossings - y.crossings)
  }

  lemma MoveBalanced(s: State, a: Action)
    requires |s.endpoints| > 0 && Enabled(s, a) && !a.Tick?
    ensures Balanced(s, s.threads[a.tid], MoveOf(s, a))
  {
    if a.Continue? {
      AdvanceBalanced(s, s.threads[a.tid]);
    }
  }

  lemma AdvanceBalanced(s: State, p: Pc)
    requires !p.Idle? && InPlace(p, |s.endpoints|)
    ensures Balanced(s, p, AdvanceMove(s, p))
  {
  }

  lemma AccountStep(s: State, t: nat, m: Move, x: nat)
    requires AccountOk(s) && t < |s.threads| && m.target < |s.endpoints|
    requires Touches(s, m, x) && Balanced(s, s.threads[t], m)
    ensures AccountOk(Apply(s, t, m))
  {
    TotalUpdate(Unaccounted, s.threads, t, m.pc);
    TotalUpdate(OwesActive, s.threads, t, m.pc);
    TotalUpdate(OwesTotal, s.threads, t, m.pc);
    TotalUpdate(OwesDetector, s.threads, t, m.pc);
    EjectedUpdate(s.endpoints, m.target, m.endpoint);
  }

  // Locks and stamps.

  /** The mover holds the lock of the endpoint it changes, or the lock was free. */
  ghost predicate Guarded(s: State, t: nat, m: Move) {
    && t < |s.threads| && m.target < |s.endpoints|
    && (m.endpoint != s.endpoints[m.target] ==>
          forall u | 0 <= u < |s.threads| && u != t :: !HoldsLock(s.threads[u], m.target))
    && (forall i: nat | HoldsLock(m.pc, i) ::
          i == m.target && forall u | 0 <= u < |s.threads| && u != t :: !HoldsLock(s.threads[u], i))
    && (forall i: nat | HoldsLock(s.threads[t], i) :: i == m.target)
  }

  lemma MoveGuarded(s: State, a: Action)
    requires Inv(s) && Enabled(s, a) && !a.Tick?
    ensures Guarded(s, a.tid, MoveOf(s, a))
  {
    hide OrderOk;
    hide AccountOk;
    hide StampsOk;
    hide StreaksOk;
    assert PcOk(s, s.threads[a.tid]);
  }

  lemma LocksStep(s: State, t: nat, m: Move)
    requires LocksOk(s) && t < |s.threads| && m.target < |s.endpoints| && Guarded(s, t, m)
    ensures LocksOk(Apply(s, t, m))
  {
  }

  /** What a move may do to a stamp, and the state in which it leaves an unlocked endpoint. */
  ghost predicate StampsWell(s: State, t: nat, m: Move) {
    var at := m.endpoint.at;
    && t < |s.threads| && m.target < |s.endpoints|
    && s.tally.stamps <= m.tally.stamps
    && (at == s.endpoints[m.target].at || at.None?
        || (at == Some(Stamp(s.now, s.tally.stamps)) && m.tally.stamps == s.tally.stamps + 1))
    && (!HoldsLock(m.pc, m.target) && (HoldsLock(s.threads[t], m.target) || LockFree(s, m.target)) ==>
          (m.endpoint.ejected <==> at.Some?))
  }

  lemma MoveStampsWell(s: State, a: Action)
    requires Inv(s) && Enabled(s, a) && !a.Tick?
    ensures StampsWell(s, a.tid, MoveOf(s, a))
  {
    assert PcOk(s, s.threads[a.tid]);
  }

  lemma StampsStep(s: State, t: nat, m: Move)
    requires StampsOk(s) && t < |s.threads| && m.target < |s.endpoints| && Guarded(s, t, m) && StampsWell(s, t, m)
    ensures StampsOk(Apply(s, t, m))
  {
    var s' := Apply(s, t, m);
    forall i | 0 <= i < |s'.endpoints| && LockFree(s', i)
      ensures s'.endpoints[i].ejected <==> s'.endpoints[i].at.Some?
    {
      assert s'.threads[t] == m.pc;
      if i != m.target {
        assert LockFree(s, i) by {
          forall u | 0 <= u < |s.threads| ensures !HoldsLock(s.threads[u], i) {
            assert u != t ==> s'.threads[u] == s.threads[u];
          }
        }
      } else if !HoldsLock(s.threads[t], i) {
        assert LockFree(s, i) by {
          forall u | 0 <= u < |s.threads| ensures !HoldsLock(s.threads[u], i) {
            assert u != t ==> s'.threads[u] == s.threads[u];
          }
        }
      }
    }
  }

  lemma MoveCountsStreak(s: State, a: Action)
    requires |s.endpoints| > 0 && Enabled(s, a) && !a.Tick?
    requires CountsStreak(s.endpoints[MoveOf(s, a).target])
    ensures CountsStreak(MoveOf(s, a).endpoint)
  {
    if a.Respond? {
      RecordCountsStreak(s.cfg, s.endpoints[a.ep], a.status);
    }
  }

  lemma StreaksStep(s: State, a: Action)
    requires |s.endpoints| > 0 && StreaksOk(s) && Enabled(s, a) && !a.Tick?
    ensures StreaksOk(Next(s, a))
  {
    MoveCountsStreak(s, a);
    var m := MoveOf(s, a);
    assert Next(s, a).endpoints == s.endpoints[m.target := m.endpoint];
  }

  // Threads.

  /** A thread other than the mover stays where it should be. */
  lemma OtherOk(s: State, t: nat, m: Move, x: nat, p: Pc)
    requires t < |s.threads| && m.target < |s.endpoints|
    requires Touches(s, m, x) && StampsWell(s, t, m) && PcOk(s, p)
    requires HoldsLock(p, m.target) ==> m.endpoint == s.endpoints[m.target]
    ensures PcOk(Apply(s, t, m), p)
  {
    var s' := Apply(s, t, m);
    if p.Scanning? {
      CountOldStep(s, m, x, p.began, p.next);
    } else if p.Passed? {
      CountOldStep(s, m, x, p.began, |s.endpoints|);
    }
  }

  lemma RespondOk(s: State, a: Action)
    requires OrderOk(s) && StampsOk(s) && |s.endpoints| > 0 && Enabled(s, a) && a.Respond?
    ensures PcOk(Next(s, a), MoveOf(s, a).pc)
  {
    assert LockFree(s, a.ep);
    assert !s.endpoints[a.ep].ejected ==> s.endpoints[a.ep].at.None?;
    CountOldFresh(s.order, s.tally.swaps);
  }

  /** Reading one more flag, or deciding on the count. */
  lemma ScanOk(s: State, t: nat)
    requires OrderOk(s) && t < |s.threads| && s.threads[t].Scanning? && PcOk(s, s.threads[t])
    ensures PcOk(Apply(s, t, ScanMove(s, s.threads[t])), ScanMove(s, s.threads[t]).pc)
  {
    var p := s.threads[t];
    var s' := Apply(s, t, ScanMove(s, p));
    assert s'.endpoints == s.endpoints && s'.order == s.order && Cap(s') == Cap(s);
    if p.next < |s.endpoints| {
      CountOldNext(s.order, p.began, p.next);
      assert Listed(s.order, p.next) ==> s.endpoints[p.next].ejected;
    }
  }

  lemma SweepOk(s: State, a: Action)
    requires Inv(s) && Enabled(s, a) && !a.Tick?
    requires a.StartSweep? || (a.Continue? && (s.threads[a.tid].Sweeping? || s.threads[a.tid].UnEjecting?))
    ensures PcOk(Next(s, a), MoveOf(s, a).pc)
  {
    assert PcOk(s, s.threads[a.tid]);
  }

  lemma MoverOk(s: State, a: Action)
    requires Inv(s) && Enabled(s, a) && !a.Tick?
    ensures PcOk(Next(s, a), MoveOf(s, a).pc)
  {
    var p := s.threads[a.tid];
    if a.Respond? {
      RespondOk(s, a);
    } else if a.Continue? && p.Scanning? {
      ScanOk(s, a.tid);
    } else if a.StartSweep? || p.Sweeping? || p.UnEjecting? {
      SweepOk(s, a);
    } else {
      assert PcOk(s, p);
    }
  }

  lemma {:induction false} CountOldFresh(order: seq<Ejection>, began: nat)
    ensures CountOld(order, began, 0) == 0
  {
    if order != [] {
      CountOldFresh(order[..|order| - 1], began);
    }
  }

  lemma ThreadsStep(s: State, a: Action, x: nat)
    requires Inv(s) && Enabled(s, a) && !a.Tick? && Touches(s, MoveOf(s, a), x)
    ensures ThreadsOk(Next(s, a))
  {
    var m := MoveOf(s, a);
    MoverOk(s, a);
    MoveGuarded(s, a);
    MoveStampsWell(s, a);
    forall u | 0 <= u < |s.threads| ensures PcOk(Next(s, a), Next(s, a).threads[u]) {
      if u != a.tid {
        OtherOk(s, a.tid, m, x, s.threads[u]);
      }
    }
  }

  lemma TickStep(s: State, d: nat)
    requires Inv(s)
    ensures Inv(Next(s, Tick(d)))
  {
    var s' := Next(s, Tick(d));
    forall t | 0 <= t < |s'.threads| ensures PcOk(s', s'.threads[t]) {
      assert PcOk(s, s.threads[t]);
    }
    forall i | 0 <= i < |s'.endpoints| && LockFree(s', i)
      ensures s'.endpoints[i].ejected <==> s'.endpoints[i].at.Some?
    {
      assert LockFree(s, i);
    }
  }

  lemma InvStep(s: State, a: Action)
    requires Inv(s) && Enabled(s, a)
    ensures Inv(Next(s, a))
  {
    if a.Tick? {
      TickStep(s, a.elapsed);
    } else {
      var m := MoveOf(s, a);
      var x := MoveTouches(s, a);
      OrderStep(s, a.tid, m, x);
      MoveBalanced(s, a);
      AccountStep(s, a.tid, m, x);
      MoveGuarded(s, a);
      LocksStep(s, a.tid, m);
      MoveStampsWell(s, a);
      StampsStep(s, a.tid, m);
      StreaksStep(s, a);
      ThreadsStep(s, a, x);
    }
  }

  // The cap.

  lemma PassedStartsLate(s: State, p: Pc, m: nat)
    requires OrderOk(s) && PcOk(s, p) && p.Passed? && m < |s.order| && m + 1 >= Cap(s)
    ensures p.began <= s.order[m].serial
  {
    if s.order[m].serial < p.began {
      CountOldPrefix(s.order, p.began, |s.endpoints|, m);
    }
  }

  /** A new ejection: everyone who could still add to it is in flight beside the ejector. */
  lemma NewestFits(s: State, t: nat, m: Move, most: int)
    requires t < |s.threads| && s.threads[t].Passed? && m.pc.Ejecting? && Total(InFlight, s.threads) <= most
    ensures 1 + Total(StartedBy(s.tally.swaps), s.threads[t := m.pc]) <= most
  {
    StartedAreInFlight(s.tally.swaps, s.threads[t := Idle]);
    TotalUpdate(InFlight, s.threads, t, Idle);
    TotalUpdate(StartedBy(s.tally.swaps), s.threads, t, Idle);
    TotalUpdate(StartedBy(s.tally.swaps), s.threads, t, m.pc);
  }

  /** Which moves may lower or raise the number of compounds that could still eject. */
  ghost predicate JoinsLate(s: State, p: Pc, m: Move) {
    && (forall k: nat | k < s.tally.swaps :: Weight(StartedBy(k), m.pc) <= Weight(StartedBy(k), p))
    && (Grows(s, m) ==> p.Passed? && m.pc.Ejecting?)
    && (m.pc.Passed? ==> p.Scanning?)
  }

  lemma MoveJoinsLate(s: State, a: Action)
    requires Inv(s) && Enabled(s, a) && !a.Tick?
    ensures JoinsLate(s, s.threads[a.tid], MoveOf(s, a))
  {
    hide AccountOk;
    hide LocksOk;
    hide StampsOk;
    hide StreaksOk;
    assert PcOk(s, s.threads[a.tid]);
  }

  lemma SlotFits(s: State, t: nat, m: Move, x: nat, most: int, y: nat)
    requires OrderOk(s) && CapOk(s, most) && Total(InFlight, s.threads) <= most
    requires t < |s.threads| && m.target < |s.endpoints| && PcOk(s, s.threads[t])
    requires Touches(s, m, x) && JoinsLate(s, s.threads[t], m)
    requires y < |m.order| && y + 1 >= Cap(s)
    ensures |m.order| - y + Total(StartedBy(m.order[y].serial), s.threads[t := m.pc]) <= most
  {
    TotalUpdate(StartedBy(m.order[y].serial), s.threads, t, m.pc);
    if Grows(s, m) {
      if y == |s.order| {
        NewestFits(s, t, m, most);
      } else {
        assert m.order[y] == s.order[y];
        PassedStartsLate(s, s.threads[t], y);
      }
    } else if Shrinks(s, m, x) {
      var z := if y < x then y else y + 1;
      assert m.order[y] == s.order[z];
    }
  }

  lemma CapStep(s: State, a: Action, most: int)
    requires Inv(s) && CapOk(s, most) && Enabled(s, a) && Total(InFlight, s.threads) <= most
    ensures CapOk(Next(s, a), most)
  {
    if a.Tick? {
      assert Next(s, a).order == s.order && Cap(Next(s, a)) == Cap(s);
    } else {
      var m := MoveOf(s, a);
      var x := MoveTouches(s, a);
      MoveJoinsLate(s, a);
      assert PcOk(s, s.threads[a.tid]);
      assert Cap(Next(s, a)) == Cap(s);
      forall y | 0 <= y < |m.order| && y + 1 >= Cap(s)
        ensures |m.order| - y + Total(StartedBy(m.order[y].serial), s.threads[a.tid := m.pc]) <= most
      {
        SlotFits(s, a.tid, m, x, most, y);
      }
    }
  }

  lemma CapBound(s: State, most: int)
    requires Inv(s) && CapOk(s, most)
    ensures if Cap(s) == 0 then EjectedCount(s.endpoints) == 0
            else EjectedCount(s.endpoints) < Cap(s) || EjectedCount(s.endpoints) <= Cap(s) + most - 1
  {
    if 0 < Cap(s) <= |s.order| {
      var m := Cap(s) - 1;
      StartedAreInFlight(s.order[m].serial, s.threads);
      assert |s.order| - m + Total(StartedBy(s.order[m].serial), s.threads) <= most;
    }
  }

  // ---------------------------------------------------------------------------
  // Runs
  // ---------------------------------------------------------------------------

  predicate Admissible(s: State, acts: seq<Action>)
    requires |s.endpoints| > 0
    decreases |acts|
  {
    acts == [] || (Enabled(s, acts[0]) && Admissible(Next(s, acts[0]), acts[1..]))
  }

  function Run(s: State, acts: seq<Action>): (r: State)
    requires |s.endpoints| > 0 && Admissible(s, acts)
    ensures r.cfg == s.cfg && |r.endpoints| == |s.endpoints| && |r.threads| == |s.threads|
    decreases |acts|
  {
    if acts == [] then s else Run(Next(s, acts[0]), acts[1..])
  }

  /** At most `most` response compounds are ever in flight together. */
  predicate Overlap(s: State, acts: seq<Action>, most: int)
    requires |s.endpoints| > 0 && Admissible(s, acts)
    decreases |acts|
  {
    Total(InFlight, s.threads) <= most && (acts != [] ==> Overlap(Next(s, acts[0]), acts[1..], most))
  }

  lemma {:induction false} InvRun(s: State, acts: seq<Action>)
    requires Inv(s) && Admissible(s, acts)
    ensures Inv(Run(s, acts))
    decreases |acts|
  {
    if acts != [] {
      InvStep(s, acts[0]);
      InvRun(Next(s, acts[0]), acts[1..]);
    }
  }

  lemma {:induction false} CapRun(s: State, acts: seq<Action>, most: int)
    requires Inv(s) && CapOk(s, most) && Admissible(s, acts) && Overlap(s, acts, most)
    ensures Inv(Run(s, acts)) && CapOk(Run(s, acts), most)
    decreases |acts|
  {
    if acts != [] {
      InvStep(s, acts[0]);
      CapStep(s, acts[0], most);
      CapRun(Next(s, acts[0]), acts[1..], most);
    }
  }

  lemma Reachable(cfg: Config, n: nat, threads: nat, acts: seq<Action>)
    requires n > 0 && Admissible(Init(cfg, n, threads), acts)
    ensures Inv(Run(Init(cfg, n, threads), acts))
  {
    InitInv(cfg, n, threads);
    InvRun(Init(cfg, n, threads), acts);
  }

  // ---------------------------------------------------------------------------
  // Main results
  // ---------------------------------------------------------------------------

  /** The cap under overlap: with at most `most` compounds in flight together the number of
      ejected endpoints never exceeds the cap by more than `most - 1`, although each compound
      reads the other endpoints' flags one at a time while they change; with a zero cap
      nothing is ever ejected. */
  lemma CapUnderOverlap(cfg: Config, n: nat, threads: nat, acts: seq<Action>, most: nat)
    requires n > 0 && most > 0 && Admissible(Init(cfg, n, threads), acts)
    requires Overlap(Init(cfg, n, threads), acts, most)
    ensures var s := Run(Init(cfg, n, threads), acts); var cap := n * cfg.maxPercent / 100;
      && EjectedCount(s.endpoints) <= cap + most - 1
      && (most == 1 ==> EjectedCount(s.endpoints) <= cap)
      && (cap == 0 ==> EjectedCount(s.endpoints) == 0)
  {
    InitInv(cfg, n, threads);
    CapRun(Init(cfg, n, threads), acts, most);
    CapBound(Run(Init(cfg, n, threads), acts), most);
  }

  /** The books balance over every run: up to operations in flight, and exactly at rest,
      crossings are enforced or overflowed, enforcements are split between the detectors,
      and the gauge is the number of ejected endpoints, which is enforcements minus
      un-ejections. */
  lemma AccountsExact(cfg: Config, n: nat, threads: nat, acts: seq<Action>)
    requires n > 0 && Admissible(Init(cfg, n, threads), acts)
    ensures var s := Run(Init(cfg, n, threads), acts); var y := s.tally;
      && AccountOk(s)
      && ((forall t | 0 <= t < threads :: s.threads[t].Idle?) ==>
            && y.crossings == y.enforced + y.overflow
            && y.enforced == y.enforced5xx + y.enforcedGateway
            && y.active == EjectedCount(s.endpoints) == y.enforced - y.unejections)
  {
    Reachable(cfg, n, threads, acts);
    var s := Run(Init(cfg, n, threads), acts);
    if forall t | 0 <= t < threads :: s.threads[t].Idle? {
      TotalIdle(Unaccounted, s.threads);
      TotalIdle(OwesActive, s.threads);
      TotalIdle(OwesTotal, s.threads);
      TotalIdle(OwesDetector, s.threads);
    }
  }

  /** Whenever an endpoint's lock is free it is ejected exactly when it is stamped. */
  lemma EjectedIffStamped(cfg: Config, n: nat, threads: nat, acts: seq<Action>, i: nat)
    requires n > 0 && i < n && Admissible(Init(cfg, n, threads), acts)
    ensures var s := Run(Init(cfg, n, threads), acts);
      LockFree(s, i) ==> (s.endpoints[i].ejected <==> s.endpoints[i].at.Some?)
  {
    Reachable(cfg, n, threads, acts);
  }

  /** A flag is cleared only by a sweeper that has found the stamp old enough. */
  lemma ClearedWhenAged(s: State, a: Action, i: nat)
    requires Inv(s) && i < |s.endpoints| && Enabled(s, a)
    ensures s.endpoints[i].ejected && !Next(s, a).endpoints[i].ejected ==>
      s.endpoints[i].at.Some? && s.now - s.endpoints[i].at.value.time >= s.cfg.base
  {
    hide OrderOk;
    hide AccountOk;
    hide LocksOk;
    hide StampsOk;
    hide StreaksOk;
    if a.Continue? {
      assert PcOk(s, s.threads[a.tid]);
    }
  }

  /** An endpoint whose stamp, if it has one, is not older than `since`. */
  ghost predicate StampedSince(s: State, i: nat, since: nat) {
    i < |s.endpoints| && since <= s.now && (s.endpoints[i].at.Some? ==> s.endpoints[i].at.value.time >= since)
  }

  /** Setting the flag finds the endpoint without a stamp. */
  lemma FlaggedUnstamped(s: State, a: Action, i: nat)
    requires Inv(s) && i < |s.endpoints| && Enabled(s, a)
    requires !s.endpoints[i].ejected && Next(s, a).endpoints[i].ejected
    ensures StampedSince(Next(s, a), i, s.now)
  {
    hide OrderOk;
    hide AccountOk;
    hide LocksOk;
    hide StampsOk;
    hide StreaksOk;
    if a.Continue? {
      assert PcOk(s, s.threads[a.tid]);
    }
  }

  lemma StampedSinceStep(s: State, a: Action, i: nat, since: nat)
    requires Inv(s) && i < |s.endpoints| && Enabled(s, a) && StampedSince(s, i, since)
    ensures StampedSince(Next(s, a), i, since)
  {
    hide OrderOk;
    hide AccountOk;
    hide LocksOk;
    hide StampsOk;
    hide StreaksOk;
    if a.Continue? {
      assert PcOk(s, s.threads[a.tid]);
    }
  }

  /** The endpoint is ejected in every state of the run. */
  predicate EjectedThroughout(s: State, acts: seq<Action>, i: nat)
    requires |s.endpoints| > 0 && Admissible(s, acts) && i < |s.endpoints|
    decreases |acts|
  {
    s.endpoints[i].ejected && (acts != [] ==> EjectedThroughout(Next(s, acts[0]), acts[1..], i))
  }

  lemma {:induction false} StampedSinceRun(s: State, acts: seq<Action>, i: nat, since: nat)
    requires Inv(s) && i < |s.endpoints| && Admissible(s, acts) && StampedSince(s, i, since)
    ensures Inv(Run(s, acts)) && StampedSince(Run(s, acts), i, since)
    decreases |acts|
  {
    if acts != [] {
      InvStep(s, acts[0]);
      StampedSinceStep(s, acts[0], i, since);
      StampedSinceRun(Next(s, acts[0]), acts[1..], i, since);
    }
  }

  lemma {:induction false} EndsEjected(s: State, acts: seq<Action>, i: nat)
    requires |s.endpoints| > 0 && Admissible(s, acts) && i < |s.endpoints| && EjectedThroughout(s, acts, i)
    ensures Run(s, acts).endpoints[i].ejected
    decreases |acts|
  {
    if acts != [] {
      EndsEjected(Next(s, acts[0]), acts[1..], i);
    }
  }

  /** From `s` on, step `eject` sets the flag of endpoint `i`, it stays set through the steps
      `during`, and step `clear` clears it; `elapsed` is the time from the first to the last. */
  ghost predicate EjectionLife(s: State, eject: Action, during: seq<Action>, clear: Action, i: nat, elapsed: int) {
    && i < |s.endpoints| && Enabled(s, eject) && !s.endpoints[i].ejected
    && var s1 := Next(s, eject);
       && i < |s1.endpoints| && Admissible(s1, during) && EjectedThroughout(s1, during, i)
       && var r := Run(s1, during);
          Enabled(r, clear) && !Next(r, clear).endpoints[i].ejected && elapsed == r.now - s.now
  }

  /** Every ejection lasts: in every run, from the step that sets an endpoint's flag to the
      step that clears it the base ejection time passes, whatever happens in between. */
  lemma NeverUnejectedEarly(cfg: Config, n: nat, threads: nat, before: seq<Action>, eject: Action,
                            during: seq<Action>, clear: Action, i: nat, elapsed: int)
    requires n > 0 && Admissible(Init(cfg, n, threads), before)
    requires EjectionLife(Run(Init(cfg, n, threads), before), eject, during, clear, i, elapsed)
    ensures elapsed >= cfg.base
  {
    Reachable(cfg, n, threads, before);
    var s := Run(Init(cfg, n, threads), before);
    var s1 := Next(s, eject);
    var r := Run(s1, during);
    assert s1.cfg == cfg;
    hide Inv;
    hide Enabled;
    hide MoveOf;
    hide Next;
    InvStep(s, eject);
    EndsEjected(s1, during, i);
    FlaggedUnstamped(s, eject, i);
    StampedSinceRun(s1, during, i, s.now);
    ClearedWhenAged(r, clear, i);
  }

  /** When a sweep has gone through all endpoints, no ejection that had been stamped when it
      began, and was due by then, is still in force. */
  lemma SweepClearsTheDue(cfg: Config, n: nat, threads: nat, acts: seq<Action>, t: nat, i: nat)
    requires n > 0 && i < n && t < threads && Admissible(Init(cfg, n, threads), acts)
    ensures var s := Run(Init(cfg, n, threads), acts); var p := s.threads[t];
      p.Sweeping? && p.idx == n && s.endpoints[i].at.Some? && s.endpoints[i].at.value.number < p.stamps ==>
        s.endpoints[i].at.value.time + cfg.base > p.started
  {
    Reachable(cfg, n, threads, acts);
    var s := Run(Init(cfg, n, threads), acts);
    assert PcOk(s, s.threads[t]);
  }

  /** Over every run the consecutive counters are the lengths of the current streak. */
  lemma CountersAreStreaks(cfg: Config, n: nat, threads: nat, acts: seq<Action>, i: nat)
    requires n > 0 && i < n && Admissible(Init(cfg, n, threads), acts)
    ensures var e := Run(Init(cfg, n, threads), acts).endpoints[i];
      && CountsStreak(e)
      && (Streak(e.log) < TWO_32 ==> e.fives == Streak(e.log) && e.gateways == StreakGateways(e.log) <= e.fives)
  {
    Reachable(cfg, n, threads, acts);
    var e := Run(Init(cfg, n, threads), acts).endpoints[i];
    if Streak(e.log) < TWO_32 {
      ShortStreaksExact(e);
    }
  }

  /** The per-endpoint locks cannot deadlock: a compound never waits, and whoever holds the
      lock a sweeper waits for can move. */
  lemma DeadlockFree(cfg: Config, n: nat, threads: nat, acts: seq<Action>, t: nat)
    requires n > 0 && t < threads && Admissible(Init(cfg, n, threads), acts)
    requires !Run(Init(cfg, n, threads), acts).threads[t].Idle?
    ensures exists u :: Enabled(Run(Init(cfg, n, threads), acts), Continue(u))
  {
    Reachable(cfg, n, threads, acts);
    var s := Run(Init(cfg, n, threads), acts);
    var p := s.threads[t];
    assert PcOk(s, p);
    if p.Sweeping? && !LockFree(s, p.idx) {
      var u :| 0 <= u < |s.threads| && HoldsLock(s.threads[u], p.idx);
      assert PcOk(s, s.threads[u]);
      assert Enabled(s, Continue(u));
    } else {
      assert Enabled(s, Continue(t));
    }
  }
}
