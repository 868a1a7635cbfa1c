/** Active health checking: the per-endpoint state machine and the membership gauge. */
module Health {
  import opened Common

  // ---------------------------------------------------------------------------
  // The reference: what a probe history means
  // ---------------------------------------------------------------------------

  /** Length of the longest run of probe results equal to `result` that ends the history. */
  function Run(history: seq<bool>, result: bool): (n: nat)
    ensures n <= |history|
  {
    if history == [] || history[|history| - 1] != result then 0
    else Run(history[..|history| - 1], result) + 1
  }

  function Needed(threshold: nat): (n: nat)
    ensures n >= 1
  {
    if threshold == 0 then 1 else threshold
  }

  /** Healthy or not after a history of probes: an unhealthy endpoint turns healthy when the
      history ends in `max(1, up)` successes, a healthy one turns unhealthy when it ends in
      `max(1, down)` failures. */
  function Healthy(history: seq<bool>, up: nat, down: nat): bool {
    if history == [] then false
    else if Healthy(history[..|history| - 1], up, down) then Run(history, false) < Needed(down)
    else Run(history, true) >= Needed(up)
  }

  /** The run reaches `k` exactly when the last `k` results are all equal to `result`. */
  lemma {:induction false} RunMeans(history: seq<bool>, result: bool, k: nat)
    ensures Run(history, result) >= k <==>
      k <= |history| && forall i | |history| - k <= i < |history| :: history[i] == result
  {
    if history != [] && k > 0 {
      RunMeans(history[..|history| - 1], result, k - 1);
    }
  }

  /** Starting unhealthy, an endpoint turns healthy exactly when the last `up` results (at
      least one) are successes, and unhealthy exactly when the last `down` are failures. */
  lemma FlipsWhen(history: seq<bool>, ok: bool, up: nat, down: nat)
    ensures !Healthy([], up, down)
    ensures var after, n := history + [ok], if up == 0 then 1 else up;
      !Healthy(history, up, down) ==>
        (Healthy(after, up, down) <==> n <= |after| && forall i | |after| - n <= i < |after| :: after[i])
    ensures var after, n := history + [ok], if down == 0 then 1 else down;
      Healthy(history, up, down) ==>
        (!Healthy(after, up, down) <==> n <= |after| && forall i | |after| - n <= i < |after| :: !after[i])
  {
    var after := history + [ok];
    assert after[..|after| - 1] == history;
    RunMeans(after, true, if up == 0 then 1 else up);
    RunMeans(after, false, if down == 0 then 1 else down);
  }

  // ---------------------------------------------------------------------------
  // The machine
  // ---------------------------------------------------------------------------

  /** What one endpoint holds; the counters wrap at 2^32. */
  datatype State = State(healthy: bool, successes: nat, failures: nat)

  function Bump(n: nat): nat { (n + 1) % TWO_32 }

  function Record(s: State, ok: bool, up: nat, down: nat): State {
    if ok then
      var n := Bump(s.successes);
      State(s.healthy || n >= up, n, 0)
    else
      var n := Bump(s.failures);
      State(s.healthy && n < down, 0, n)
  }

  function After(history: seq<bool>, up: nat, down: nat): State {
    if history == [] then State(false, 0, 0)
    else Record(After(history[..|history| - 1], up, down), history[|history| - 1], up, down)
  }

  /** The counter that the current state consults stands for the true run and is below its
      threshold; the other one is the true run only up to wrapping. */
  ghost predicate Tracks(s: State, history: seq<bool>, up: nat, down: nat) {
    && s.successes == Run(history, true) % TWO_32
    && s.failures == Run(history, false) % TWO_32
    && (!s.healthy ==> Run(history, true) < Needed(up))
    && (s.healthy ==> Run(history, false) < Needed(down))
  }

  lemma RunStep(history: seq<bool>, ok: bool)
    ensures Run(history + [ok], ok) == Run(history, ok) + 1
    ensures Run(history + [ok], !ok) == 0
  {
    assert (history + [ok])[..|history|] == history;
  }

  lemma WrapStep(n: nat)
    ensures (n + 1) % TWO_32 == (n % TWO_32 + 1) % TWO_32
  {
  }

  lemma TracksStep(s: State, history: seq<bool>, ok: bool, up: nat, down: nat)
    requires up < TWO_32 && down < TWO_32 && Tracks(s, history, up, down)
    requires s.healthy == Healthy(history, up, down)
    ensures var s' := Record(s, ok, up, down);
      Tracks(s', history + [ok], up, down) && s'.healthy == Healthy(history + [ok], up, down)
  {
    hide Run;
    RunStep(history, ok);
    WrapStep(Run(history, ok));
    assert (history + [ok])[..|history|] == history;
  }

  /** With wrapping counters, on histories of any length, the machine agrees with the
      unbounded reference. */
  lemma {:induction false} AgreesOnEveryHistory(history: seq<bool>, up: nat, down: nat)
    requires up < TWO_32 && down < TWO_32
    ensures Tracks(After(history, up, down), history, up, down)
    ensures After(history, up, down).healthy == Healthy(history, up, down)
  {
    if history != [] {
      var n := |history| - 1;
      AgreesOnEveryHistory(history[..n], up, down);
      TracksStep(After(history[..n], up, down), history[..n], history[n], up, down);
      assert history[..n] + [history[n]] == history;
    }
  }

  // ---------------------------------------------------------------------------
  // The shared gauge
  // ---------------------------------------------------------------------------

  class Gauge {
    var value: int
    constructor ()
      ensures value == 0
    {
      value := 0;
    }
  }

  class EndpointHealth {
    var healthy: bool
    var consecutiveSuccess: nat
    var consecutiveFailure: nat
    const healthyThreshold: nat
    const unhealthyThreshold: nat
    const membershipHealthy: Gauge
    ghost var history: seq<bool>

    function Held(): State
      reads this
    {
      State(healthy, consecutiveSuccess, consecutiveFailure)
    }

    ghost predicate Valid()
      reads this
    {
      && healthyThreshold < TWO_32 && unhealthyThreshold < TWO_32
      && Held() == After(history, healthyThreshold, unhealthyThreshold)
    }

    constructor (up: nat, down: nat, gauge: Gauge)
      requires up < TWO_32 && down < TWO_32
      ensures Valid() && history == [] && !healthy
      ensures healthyThreshold == up && unhealthyThreshold == down && membershipHealthy == gauge
    {
      healthy, consecutiveSuccess, consecutiveFailure := false, 0, 0;
      healthyThreshold, unhealthyThreshold, membershipHealthy := up, down, gauge;
      history := [];
    }

    method RecordSuccess()
      requires Valid()
      modifies this, membershipHealthy
      ensures Valid() && history == old(history) + [true]
      ensures membershipHealthy.value == old(membershipHealthy.value) + (if healthy && !old(healthy) then 1 else 0)
      ensures old(healthy) ==> healthy
    {
      consecutiveFailure := 0;
      var n := Bump(consecutiveSuccess);
      consecutiveSuccess := n;
      if !healthy && n >= healthyThreshold {
        healthy := true;
        membershipHealthy.value := membershipHealthy.value + 1;
      }
      history := history + [true];
      assert history[..|history| - 1] == old(history);
    }

    method RecordFailure()
      requires Valid()
      modifies this, membershipHealthy
      ensures Valid() && history == old(history) + [false]
      ensures membershipHealthy.value == old(membershipHealthy.value) - (if !healthy && old(healthy) then 1 else 0)
      ensures healthy ==> old(healthy)
    {
      consecutiveSuccess := 0;
      var n := Bump(consecutiveFailure);
      consecutiveFailure := n;
      if healthy && n >= unhealthyThreshold {
        healthy := false;
        membershipHealthy.value := membershipHealthy.value - 1;
      }
      history := history + [false];
      assert history[..|history| - 1] == old(history);
    }

    method IsHealthy() returns (r: bool)
      requires Valid()
      ensures r == Healthy(history, healthyThreshold, unhealthyThreshold)
    {
      AgreesOnEveryHistory(history, healthyThreshold, unhealthyThreshold);
      r := healthy;
    }
  }

  function Flags(es: seq<EndpointHealth>): (f: seq<bool>)
    reads es
    ensures |f| == |es| && forall i | 0 <= i < |es| :: f[i] == es[i].healthy
  {
    seq(|es|, i requires 0 <= i < |es| reads es => es[i].healthy)
  }

  function CountTrue(flags: seq<bool>): (n: nat)
    ensures n <= |flags|
  {
    if flags == [] then 0 else CountTrue(flags[..|flags| - 1]) + if flags[|flags| - 1] then 1 else 0
  }

  /** How the count changes when only the flag at `k` does. */
  lemma {:induction false} CountMoves(flags: seq<bool>, k: nat, b: bool)
    requires k < |flags|
    ensures CountTrue(flags[k := b]) - (if b then 1 else 0) == CountTrue(flags) - (if flags[k] then 1 else 0)
  {
    var n := |flags| - 1;
    if k < n {
      CountMoves(flags[..n], k, b);
      assert flags[k := b][..n] == flags[..n][k := b];
    } else {
      assert flags[k := b][..n] == flags[..n];
    }
  }

  /** The endpoints of a cluster: distinct objects that share one gauge. */
  ghost predicate Membership(es: seq<EndpointHealth>, gauge: Gauge)
    reads es, gauge
  {
    && (forall i | 0 <= i < |es| :: es[i].Valid() && es[i].membershipHealthy == gauge)
    && (forall i, j | 0 <= i < j < |es| :: es[i] != es[j])
    && gauge.value == CountTrue(Flags(es))
  }

  /** One probe of one endpoint: the gauge stays the number of healthy endpoints. */
  method Probe(es: seq<EndpointHealth>, gauge: Gauge, k: nat, ok: bool)
    requires k < |es| && Membership(es, gauge)
    modifies es[k], gauge
    ensures Membership(es, gauge)
    ensures es[k].history == old(es[k].history) + [ok]
  {
    hide After;
    ghost var before := Flags(es);
    if ok {
      es[k].RecordSuccess();
    } else {
      es[k].RecordFailure();
    }
    assert Flags(es) == before[k := es[k].healthy];
    CountMoves(before, k, es[k].healthy);
  }

  /** A whole run of probes, in any order over any endpoints: at the end the gauge is the
      number of endpoints whose own history makes them healthy. */
  method ProbeAll(es: seq<EndpointHealth>, gauge: Gauge, probes: seq<(nat, bool)>)
    requires Membership(es, gauge)
    requires forall i | 0 <= i < |probes| :: probes[i].0 < |es|
    modifies es, gauge
    ensures Membership(es, gauge)
    ensures forall k | 0 <= k < |es| :: es[k].history == old(es[k].history) + ResultsFor(probes, k)
  {
    hide CountTrue;
    hide Flags;
    hide After;
    var i := 0;
    while i < |probes|
      invariant 0 <= i <= |probes|
      invariant Membership(es, gauge)
      invariant forall k | 0 <= k < |es| :: es[k].history == old(es[k].history) + ResultsFor(probes[..i], k)
    {
      Probe(es, gauge, probes[i].0, probes[i].1);
      assert probes[..i + 1][..i] == probes[..i];
      i := i + 1;
    }
    assert probes[..i] == probes;
  }

  function ResultsFor(probes: seq<(nat, bool)>, k: nat): seq<bool> {
    if probes == [] then []
    else
      var before, last := ResultsFor(probes[..|probes| - 1], k), probes[|probes| - 1];
      if last.0 == k then before + [last.1] else before
  }

  // ---------------------------------------------------------------------------
  // Probe tasks in parallel
  // ---------------------------------------------------------------------------

  /** A probe task and its endpoint. Recording a result that flips the endpoint stores the
      state in one step and moves the gauge in another; `owed` is what it still owes the
      gauge in between, when tasks of other endpoints may run. */
  datatype Task = Task(state: State, history: seq<bool>, owed: int)

  datatype Probes = Probes(up: nat, down: nat, tasks: seq<Task>, gauge: int)

  datatype Step = Result(k: nat, ok: bool) | Publish(k: nat)

  function Startup(up: nat, down: nat, n: nat): Probes {
    Probes(up, down, seq(n, _ => Task(State(false, 0, 0), [], 0)), 0)
  }

  predicate CanStep(s: Probes, a: Step) {
    a.k < |s.tasks| && (a.Result? <==> s.tasks[a.k].owed == 0)
  }

  function Flip(was: bool, now: bool): int {
    if was == now then 0 else if now then 1 else -1
  }

  function TakeResult(t: Task, ok: bool, up: nat, down: nat): Task {
    var state := Record(t.state, ok, up, down);
    Task(state, t.history + [ok], Flip(t.state.healthy, state.healthy))
  }

  function Take(s: Probes, a: Step): Probes
    requires CanStep(s, a)
  {
    var t := s.tasks[a.k];
    match a
    case Result(k, ok) => s.(tasks := s.tasks[k := TakeResult(t, ok, s.up, s.down)])
    case Publish(k) => s.(tasks := s.tasks[k := t.(owed := 0)], gauge := s.gauge + t.owed)
  }

  /** The endpoints that their own probe histories make healthy. */
  function HealthyCount(tasks: seq<Task>, up: nat, down: nat): nat {
    if tasks == [] then 0
    else
      var n := |tasks| - 1;
      HealthyCount(tasks[..n], up, down) + if Healthy(tasks[n].history, up, down) then 1 else 0
  }

  /** What the tasks between their two steps still owe the gauge. */
  function Owed(tasks: seq<Task>): int {
    if tasks == [] then 0 else Owed(tasks[..|tasks| - 1]) + tasks[|tasks| - 1].owed
  }

  lemma {:induction false} TaskUpdate(tasks: seq<Task>, k: nat, t: Task, up: nat, down: nat)
    requires k < |tasks|
    ensures Owed(tasks[k := t]) - t.owed == Owed(tasks) - tasks[k].owed
    ensures HealthyCount(tasks[k := t], up, down) - (if Healthy(t.history, up, down) then 1 else 0)
         == HealthyCount(tasks, up, down) - (if Healthy(tasks[k].history, up, down) then 1 else 0)
  {
    hide Healthy;
    var n := |tasks| - 1;
    if k < n {
      TaskUpdate(tasks[..n], k, t, up, down);
      assert tasks[k := t][..n] == tasks[..n][k := t];
    } else {
      assert tasks[k := t][..n] == tasks[..n];
    }
  }

  ghost predicate Counted(s: Probes) {
    && s.up < TWO_32 && s.down < TWO_32
    && (forall k | 0 <= k < |s.tasks| :: s.tasks[k].state == After(s.tasks[k].history, s.up, s.down))
    && s.gauge + Owed(s.tasks) == HealthyCount(s.tasks, s.up, s.down)
  }

  /** A recorded result keeps the state that of the history and owes the gauge the flip. */
  lemma ResultCounted(t: Task, ok: bool, up: nat, down: nat)
    requires up < TWO_32 && down < TWO_32 && t.state == After(t.history, up, down) && t.owed == 0
    ensures var u := TakeResult(t, ok, up, down);
      && u.state == After(u.history, up, down)
      && u.owed == (if Healthy(u.history, up, down) then 1 else 0) - (if Healthy(t.history, up, down) then 1 else 0)
  {
    var u := TakeResult(t, ok, up, down);
    assert u.history[..|u.history| - 1] == t.history;
    AgreesOnEveryHistory(t.history, up, down);
    AgreesOnEveryHistory(u.history, up, down);
  }

  lemma CountedStep(s: Probes, a: Step)
    requires Counted(s) && CanStep(s, a)
    ensures Counted(Take(s, a))
  {
    hide Healthy;
    hide After;
    var t, u := s.tasks[a.k], Take(s, a).tasks[a.k];
    TaskUpdate(s.tasks, a.k, u, s.up, s.down);
    if a.Result? {
      ResultCounted(t, a.ok, s.up, s.down);
    }
  }

  predicate Admissible(s: Probes, steps: seq<Step>)
    decreases |steps|
  {
    steps == [] || (CanStep(s, steps[0]) && Admissible(Take(s, steps[0]), steps[1..]))
  }

  function RunAll(s: Probes, steps: seq<Step>): Probes
    requires Admissible(s, steps)
    decreases |steps|
  {
    if steps == [] then s else RunAll(Take(s, steps[0]), steps[1..])
  }

  lemma {:induction false} CountedRun(s: Probes, steps: seq<Step>)
    requires Counted(s) && Admissible(s, steps)
    ensures var r := RunAll(s, steps); Counted(r) && r.up == s.up && r.down == s.down
    decreases |steps|
  {
    hide Counted;
    if steps != [] {
      CountedStep(s, steps[0]);
      CountedRun(Take(s, steps[0]), steps[1..]);
    }
  }

  lemma {:induction false} NothingOwed(tasks: seq<Task>)
    requires forall k | 0 <= k < |tasks| :: tasks[k].owed == 0
    ensures Owed(tasks) == 0
  {
    if tasks != [] {
      NothingOwed(tasks[..|tasks| - 1]);
    }
  }

  lemma {:induction false} NobodyHealthy(tasks: seq<Task>, up: nat, down: nat)
    requires forall k | 0 <= k < |tasks| :: tasks[k].history == []
    ensures HealthyCount(tasks, up, down) == 0
  {
    if tasks != [] {
      NobodyHealthy(tasks[..|tasks| - 1], up, down);
    }
  }

  /** From startup, under every interleaving of the probe tasks, the gauge is the number of
      endpoints that their probe histories make healthy, less the flips still to be published;
      when no task is between its two steps it is exactly that number. */
  lemma GaugeCountsHealthy(up: nat, down: nat, n: nat, steps: seq<Step>)
    requires up < TWO_32 && down < TWO_32 && Admissible(Startup(up, down, n), steps)
    ensures var r := RunAll(Startup(up, down, n), steps);
      && r.gauge + Owed(r.tasks) == HealthyCount(r.tasks, up, down)
      && ((forall k | 0 <= k < |r.tasks| :: r.tasks[k].owed == 0) ==> r.gauge == HealthyCount(r.tasks, up, down))
  {
    var s := Startup(up, down, n);
    NothingOwed(s.tasks);
    NobodyHealthy(s.tasks, up, down);
    CountedRun(s, steps);
    var r := RunAll(s, steps);
    if forall k | 0 <= k < |r.tasks| :: r.tasks[k].owed == 0 {
      NothingOwed(r.tasks);
    }
  }
}
