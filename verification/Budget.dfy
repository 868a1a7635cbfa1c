/** The circuit-breaker budget as a multi-thread transition system: every load,
    compare-exchange, fetch-sub, counter tick and gauge write is one step, and any
    number of threads interleave them. The retry side and the request side of the
    budget are two independent copies of this system. */
module Budget {
  import opened Common

  // ---------------------------------------------------------------------------
  // The sequential object
  // ---------------------------------------------------------------------------

  /** What an operation did to the budget. */
  datatype Outcome = Acquired | Rejected | Released

  /** A counter bounded by `max`, one operation at a time; `None` when the operation
      could not have had that outcome. */
  function SpecApply(max: nat, v: nat, o: Outcome): Option<nat> {
    match o
    case Acquired => if v < max then Some(v + 1) else None
    case Rejected => if v >= max then Some(v) else None
    case Released => if v > 0 then Some(v - 1) else None
  }

  /** 1 exactly when slots are in use and none is left. */
  function OpenGauge(max: nat, active: int): int {
    if active > 0 && active >= max then 1 else 0
  }

  function RemainingGauge(max: nat, active: int): int {
    if max - active > 0 then max - active else 0
  }

  // ---------------------------------------------------------------------------
  // Threads and shared state
  // ---------------------------------------------------------------------------

  /** Where a thread stands inside `try_acquire` or a guard's `drop`. `since` is the
      index, in the history of the counter, of its value when the operation began; `at`
      is the index of the value the thread is working with. */
  datatype Pc =
    | Idle
    | Loading(since: nat)
    | Comparing(since: nat, at: nat, cur: int)
    | Overflowing(since: nat, at: nat, cur: int)
    | Dropping(since: nat)
    | SettingOpen(since: nat, at: nat, value: int, outcome: Outcome)
    | SettingRemaining(since: nat, at: nat, value: int, outcome: Outcome)
    | Returning(outcome: Outcome)

  datatype Call = AcquireCall | DropCall

  /** The observable life of an operation: it is invoked, takes effect once, returns. */
  datatype Event =
    | Invoke(tid: nat, call: Call)
    | Effect(tid: nat, outcome: Outcome)
    | Return(tid: nat, outcome: Outcome)

  datatype State = State(
    max: nat,              // the cap
    track: bool,           // whether the `remaining` gauge is registered
    active: int,           // the atomic counter
    overflow: nat,         // the overflow counter
    open: int,             // the `open` gauge
    remaining: int,        // the `remaining` gauge
    held: int,             // guards returned to callers and not yet being dropped
    threads: seq<Pc>,
    history: seq<int>,     // every value the counter has held, in order
    trace: seq<Event>)

  function Init(max: nat, track: bool, n: nat): State {
    State(max, track, 0, 0, 0, max, 0, seq(n, _ => Idle), [0], [])
  }

  datatype Action = BeginAcquire(tid: nat) | BeginDrop(tid: nat) | Continue(tid: nat)

  predicate Enabled(s: State, a: Action) {
    && a.tid < |s.threads|
    && match a
       case BeginAcquire(t) => s.threads[t].Idle?
       case BeginDrop(t) => s.threads[t].Idle? && s.held > 0
       case Continue(t) => !s.threads[t].Idle?
  }

  function Now(s: State): nat {
    if s.history == [] then 0 else |s.history| - 1
  }

  /** What one step changes: the moving thread's place, the counter, the trace, the
      guards in callers' hands, the overflow counter and the two gauges. */
  datatype Move = Move(
    pc: Pc,
    counter: Option<int> := None,
    event: Option<Event> := None,
    guards: int := 0,
    ticks: nat := 0,
    open: Option<int> := None,
    remaining: Option<int> := None)

  /** One atomic operation of thread `t`, followed by the thread-local branch on its result. */
  function AdvanceMove(s: State, t: nat, p: Pc): Move
    requires !p.Idle?
  {
    match p
    case Loading(since) =>
      if s.active >= s.max
      then Move(Overflowing(since, Now(s), s.active), event := Some(Effect(t, Rejected)))
      else Move(Comparing(since, Now(s), s.active))
    case Comparing(since, at, cur) =>
      if s.active == cur
      then Move(SettingOpen(since, Now(s) + 1, cur + 1, Acquired), counter := Some(cur + 1), event := Some(Effect(t, Acquired)))
      else Move(Loading(since))
    case Overflowing(since, at, cur) =>
      Move(SettingOpen(since, at, cur, Rejected), ticks := 1)
    case Dropping(since) =>
      Move(SettingOpen(since, Now(s) + 1, s.active - 1, Released), counter := Some(s.active - 1), event := Some(Effect(t, Released)))
    case SettingOpen(since, at, value, outcome) =>
      Move(if s.track then SettingRemaining(since, at, value, outcome) else Returning(outcome),
           open := Some(OpenGauge(s.max, value)))
    case SettingRemaining(since, at, value, outcome) =>
      Move(Returning(outcome), remaining := Some(RemainingGauge(s.max, value)))
    case Returning(outcome) =>
      Move(Idle, event := Some(Return(t, outcome)), guards := if outcome.Acquired? then 1 else 0)
  }

  function MoveOf(s: State, a: Action): Move
    requires Enabled(s, a)
  {
    match a
    case BeginAcquire(t) => Move(Loading(Now(s)), event := Some(Invoke(t, AcquireCall)))
    case BeginDrop(t) => Move(Dropping(Now(s)), event := Some(Invoke(t, DropCall)), guards := -1)
    case Continue(t) => AdvanceMove(s, t, s.threads[t])
  }

  function Apply(s: State, t: nat, m: Move): State
    requires t < |s.threads|
  {
    State(
      s.max, s.track,
      if m.counter.Some? then m.counter.value else s.active,
      s.overflow + m.ticks,
      if m.open.Some? then m.open.value else s.open,
      if m.remaining.Some? then m.remaining.value else s.remaining,
      s.held + m.guards,
      s.threads[t := m.pc],
      if m.counter.Some? then s.history + [m.counter.value] else s.history,
      if m.event.Some? then s.trace + [m.event.value] else s.trace)
  }

  function Next(s: State, a: Action): State
    requires Enabled(s, a)
  {
    Apply(s, a.tid, MoveOf(s, a))
  }

  predicate Admissible(s: State, acts: seq<Action>)
    decreases |acts|
  {
    acts == [] || (Enabled(s, acts[0]) && Admissible(Next(s, acts[0]), acts[1..]))
  }

  function Run(s: State, acts: seq<Action>): (r: State)
    requires Admissible(s, acts)
    ensures r.max == s.max && r.track == s.track && |r.threads| == |s.threads|
    decreases |acts|
  {
    if acts == [] then s else Run(Next(s, acts[0]), acts[1..])
  }

  // ---------------------------------------------------------------------------
  // Counting threads
  // ---------------------------------------------------------------------------

  datatype Measure = Holders | UncountedRejections

  /** `Holders`: operations that own a slot although no caller holds its guard.
      `UncountedRejections`: rejections whose overflow tick is still to come. */
  function Weight(q: Measure, p: Pc): nat {
    match q
    case Holders =>
      if p.Dropping? || ((p.SettingOpen? || p.SettingRemaining? || p.Returning?) && p.outcome.Acquired?) then 1 else 0
    case UncountedRejections => if p.Overflowing? then 1 else 0
  }

  function Total(q: Measure, ps: seq<Pc>): nat {
    if ps == [] then 0 else Total(q, ps[..|ps| - 1]) + Weight(q, ps[|ps| - 1])
  }

  lemma {:induction false} TotalUpdate(q: Measure, ps: seq<Pc>, t: nat, p: Pc)
    requires t < |ps|
    ensures Total(q, ps[t := p]) == Total(q, ps) - Weight(q, ps[t]) + Weight(q, p)
    ensures Weight(q, ps[t]) <= Total(q, ps)
  {
    var n := |ps| - 1;
    if t == n {
      assert ps[t := p][..n] == ps[..n];
    } else {
      TotalUpdate(q, ps[..n], t, p);
      assert ps[t := p][..n] == ps[..n][t := p];
    }
  }

  lemma {:induction false} TotalIdle(q: Measure, ps: seq<Pc>)
    requires forall t | 0 <= t < |ps| :: ps[t].Idle?
    ensures Total(q, ps) == 0
  {
    if ps != [] {
      TotalIdle(q, ps[..|ps| - 1]);
    }
  }

  // ---------------------------------------------------------------------------
  // Linearization
  // ---------------------------------------------------------------------------

  /** Replays the effects of a trace, in the order they happened, on the sequential object. */
  function Replay(max: nat, trace: seq<Event>): Option<nat> {
    if trace == [] then Some(0)
    else
      var before := Replay(max, trace[..|trace| - 1]);
      var e := trace[|trace| - 1];
      if before.Some? && e.Effect? then SpecApply(max, before.value, e.outcome) else before
  }

  /** The life of one thread's current operation, as its events show it. */
  datatype Phase = Ready | Invoked(call: Call) | Decided(outcome: Outcome) | Broken

  function PhaseStep(p: Phase, e: Event, t: nat): Phase {
    if e.tid != t then p else
    match e
    case Invoke(_, c) => if p.Ready? then Invoked(c) else Broken
    case Effect(_, o) => if p.Invoked? && (p.call.DropCall? <==> o.Released?) then Decided(o) else Broken
    case Return(_, o) => if p == Decided(o) then Ready else Broken
  }

  /** `Broken` as soon as the events of thread `t` are not a sequence of operations each
      invoked, taking effect exactly once, and returning what its effect decided. */
  function PhaseOf(trace: seq<Event>, t: nat): Phase {
    if trace == [] then Ready
    else PhaseStep(PhaseOf(trace[..|trace| - 1], t), trace[|trace| - 1], t)
  }

  function PcPhase(p: Pc): Phase {
    match p
    case Idle => Ready
    case Loading(_) => Invoked(AcquireCall)
    case Comparing(_, _, _) => Invoked(AcquireCall)
    case Overflowing(_, _, _) => Decided(Rejected)
    case Dropping(_) => Invoked(DropCall)
    case SettingOpen(_, _, _, o) => Decided(o)
    case SettingRemaining(_, _, _, o) => Decided(o)
    case Returning(o) => Decided(o)
  }

  function Rejections(trace: seq<Event>): nat {
    if trace == [] then 0
    else Rejections(trace[..|trace| - 1]) + if trace[|trace| - 1].Effect? && trace[|trace| - 1].outcome.Rejected? then 1 else 0
  }

  lemma Appended<T>(s: seq<T>, x: T)
    ensures (s + [x])[..|s + [x]| - 1] == s
  {
  }

  // ---------------------------------------------------------------------------
  // The invariant
  // ---------------------------------------------------------------------------

  ghost predicate CounterOk(s: State) {
    && s.held >= 0
    && s.history != [] && s.history[|s.history| - 1] == s.active
    && (forall k | 0 <= k < |s.history| :: 0 <= s.history[k] <= s.max)
    && s.active == s.held + Total(Holders, s.threads)
    && s.overflow + Total(UncountedRejections, s.threads) == Rejections(s.trace)
  }

  /** A value a thread carries is one the counter held after its operation began. */
  ghost predicate Observed(s: State, since: nat, at: nat, value: int) {
    since <= at < |s.history| && s.history[at] == value
  }

  ghost predicate PcOk(s: State, p: Pc) {
    match p
    case Idle => true
    case Loading(since) => since < |s.history|
    case Comparing(since, at, cur) => Observed(s, since, at, cur) && cur < s.max
    case Overflowing(since, at, cur) => Observed(s, since, at, cur) && cur >= s.max
    case Dropping(since) => since < |s.history|
    case SettingOpen(since, at, value, o) => Observed(s, since, at, value) && (o.Rejected? ==> value >= s.max)
    case SettingRemaining(since, at, value, o) => Observed(s, since, at, value) && s.track
    case Returning(_) => true
  }

  ghost predicate ThreadsOk(s: State) {
    forall t | 0 <= t < |s.threads| :: PcOk(s, s.threads[t])
  }

  ghost predicate ShowsOpen(s: State, g: int, from: nat) {
    exists k :: from <= k < |s.history| && g == if 0 < s.history[k] && s.max <= s.history[k] then 1 else 0
  }

  ghost predicate ShowsRemaining(s: State, g: int, from: nat) {
    exists k :: from <= k < |s.history| && g == if s.history[k] < s.max then s.max - s.history[k] else 0
  }

  ghost predicate GaugesOk(s: State) {
    ShowsOpen(s, s.open, 0) && ShowsRemaining(s, s.remaining, 0)
  }

  ghost predicate TraceOk(s: State) {
    && s.active >= 0 && Replay(s.max, s.trace) == Some(s.active)
    && forall t: nat | t < |s.threads| :: PhaseOf(s.trace, t) == PcPhase(s.threads[t])
  }

  ghost predicate Inv(s: State) {
    CounterOk(s) && ThreadsOk(s) && GaugesOk(s) && TraceOk(s)
  }

  lemma InitInv(max: nat, track: bool, n: nat)
    ensures Inv(Init(max, track, n))
  {
    TotalIdle(Holders, Init(max, track, n).threads);
    TotalIdle(UncountedRejections, Init(max, track, n).threads);
  }

  /** The bookkeeping a move must respect. */
  ghost predicate Balanced(s: State, p: Pc, m: Move) {
    && s.held + m.guards >= 0
    && (m.counter.Some? ==> 0 <= m.counter.value <= s.max)
    && (if m.counter.Some? then m.counter.value else s.active) - s.active
       == m.guards + Weight(Holders, m.pc) - Weight(Holders, p)
    && m.ticks + Weight(UncountedRejections, m.pc) - Weight(UncountedRejections, p)
       == if m.event.Some? && m.event.value.Effect? && m.event.value.outcome.Rejected? then 1 else 0
  }

  lemma MoveBalanced(s: State, a: Action)
    requires Inv(s) && Enabled(s, a)
    ensures Balanced(s, s.threads[a.tid], MoveOf(s, a))
  {
    hide TraceOk;
    hide GaugesOk;
    var p := s.threads[a.tid];
    assert PcOk(s, p);
    TotalUpdate(Holders, s.threads, a.tid, p);
    assert s.history[|s.history| - 1] == s.active;
  }

  lemma CounterStep(s: State, t: nat, m: Move)
    requires CounterOk(s) && t < |s.threads| && Balanced(s, s.threads[t], m)
    ensures CounterOk(Apply(s, t, m))
  {
    TotalUpdate(Holders, s.threads, t, m.pc);
    TotalUpdate(UncountedRejections, s.threads, t, m.pc);
    if m.event.Some? {
      Appended(s.trace, m.event.value);
    }
  }

  lemma PcOkKept(s: State, s': State, p: Pc)
    requires PcOk(s, p) && s.history <= s'.history && s'.max == s.max && s'.track == s.track
    ensures PcOk(s', p)
  {
  }

  lemma PcStep(s: State, a: Action)
    requires Inv(s) && Enabled(s, a)
    ensures PcOk(Next(s, a), MoveOf(s, a).pc)
  {
    assert PcOk(s, s.threads[a.tid]);
  }

  lemma ThreadsStep(s: State, a: Action)
    requires Inv(s) && Enabled(s, a)
    ensures ThreadsOk(Next(s, a))
  {
    var s' := Next(s, a);
    PcStep(s, a);
    forall t | 0 <= t < |s'.threads| ensures PcOk(s', s'.threads[t]) {
      if t != a.tid {
        PcOkKept(s, s', s.threads[t]);
      }
    }
  }

  lemma GaugesKept(s: State, s': State)
    requires GaugesOk(s) && s.history <= s'.history && s'.max == s.max
    ensures ShowsOpen(s', s.open, 0) && ShowsRemaining(s', s.remaining, 0)
  {
    var k :| 0 <= k < |s.history| && s.open == if 0 < s.history[k] && s.max <= s.history[k] then 1 else 0;
    assert s'.history[k] == s.history[k];
    var l :| 0 <= l < |s.history| && s.remaining == if s.history[l] < s.max then s.max - s.history[l] else 0;
    assert s'.history[l] == s.history[l];
  }

  /** What a gauge write publishes was the counter's value during the writing operation. */
  lemma PublishedIsRecent(s: State, t: nat)
    requires Inv(s) && t < |s.threads| && !s.threads[t].Idle?
    ensures s.threads[t].SettingOpen? ==> ShowsOpen(s, Next(s, Continue(t)).open, s.threads[t].since)
    ensures s.threads[t].SettingRemaining? ==> ShowsRemaining(s, Next(s, Continue(t)).remaining, s.threads[t].since)
  {
    assert PcOk(s, s.threads[t]);
  }

  lemma GaugesStep(s: State, a: Action)
    requires Inv(s) && Enabled(s, a)
    ensures GaugesOk(Next(s, a))
  {
    GaugesKept(s, Next(s, a));
    if a.Continue? {
      PublishedIsRecent(s, a.tid);
    }
  }

  /** A move's event takes the sequential object and the thread's phase along with it. */
  lemma EventFits(s: State, a: Action)
    requires Inv(s) && Enabled(s, a)
    ensures var m := MoveOf(s, a); var p := s.threads[a.tid];
      && (m.event.None? ==> m.counter.None? && PcPhase(m.pc) == PcPhase(p))
      && (m.event.Some? ==>
            && m.event.value.tid == a.tid
            && PhaseStep(PcPhase(p), m.event.value, a.tid) == PcPhase(m.pc)
            && (if m.event.value.Effect?
                then SpecApply(s.max, s.active, m.event.value.outcome)
                       == Some(if m.counter.Some? then m.counter.value else s.active)
                else m.counter.None?))
  {
    assert PcOk(s, s.threads[a.tid]);
    MoveBalanced(s, a);
  }

  lemma ReplayAppend(max: nat, trace: seq<Event>, e: Event)
    requires Replay(max, trace).Some?
    ensures Replay(max, trace + [e]) ==
      if e.Effect? then SpecApply(max, Replay(max, trace).value, e.outcome) else Replay(max, trace)
  {
    Appended(trace, e);
  }

  lemma ReplayStep(s: State, a: Action)
    requires Inv(s) && Enabled(s, a)
    ensures Replay(s.max, Next(s, a).trace) == Some(Next(s, a).active)
  {
    hide MoveOf;
    hide Replay;
    hide SpecApply;
    hide CounterOk;
    hide ThreadsOk;
    hide GaugesOk;
    EventFits(s, a);
    MoveBalanced(s, a);
    var m := MoveOf(s, a);
    if m.event.Some? {
      ReplayAppend(s.max, s.trace, m.event.value);
    }
  }

  lemma PhaseAppend(s: State, t: nat, u: nat, m: Move)
    requires t < |s.threads| && u < |s.threads|
    requires PhaseOf(s.trace, u) == PcPhase(s.threads[u])
    requires m.event.None? ==> PcPhase(m.pc) == PcPhase(s.threads[t])
    requires m.event.Some? ==>
      m.event.value.tid == t && PhaseStep(PcPhase(s.threads[t]), m.event.value, t) == PcPhase(m.pc)
    ensures PhaseOf(Apply(s, t, m).trace, u) == PcPhase(Apply(s, t, m).threads[u])
  {
    if m.event.Some? {
      Appended(s.trace, m.event.value);
    }
  }

  lemma TraceStep(s: State, a: Action)
    requires Inv(s) && Enabled(s, a)
    ensures TraceOk(Next(s, a))
  {
    ReplayStep(s, a);
    EventFits(s, a);
    forall u: nat | u < |s.threads| ensures PhaseOf(Next(s, a).trace, u) == PcPhase(Next(s, a).threads[u]) {
      PhaseAppend(s, a.tid, u, MoveOf(s, a));
    }
    MoveBalanced(s, a);
  }

  lemma InvStep(s: State, a: Action)
    requires Inv(s) && Enabled(s, a)
    ensures Inv(Next(s, a))
  {
    MoveBalanced(s, a);
    CounterStep(s, a.tid, MoveOf(s, a));
    ThreadsStep(s, a);
    GaugesStep(s, a);
    TraceStep(s, a);
  }

  lemma {:induction false} InvRun(s: State, acts: seq<Action>)
    requires Inv(s) && Admissible(s, acts)
    ensures Inv(Run(s, acts))
    decreases |acts|
  {
    if acts != [] {
      InvStep(s, acts[0]);
      InvRun(Next(s, acts[0]), acts[1..]);
    }
  }

  /** Every state reachable with `n` threads. */
  lemma Reachable(max: nat, track: bool, n: nat, acts: seq<Action>)
    requires Admissible(Init(max, track, n), acts)
    ensures Inv(Run(Init(max, track, n), acts))
  {
    InitInv(max, track, n);
    InvRun(Init(max, track, n), acts);
  }

  // ---------------------------------------------------------------------------
  // Main results
  // ---------------------------------------------------------------------------

  /** Under every interleaving the budget behaves as the sequential bounded counter:
      replaying the effects in the order they happened is legal and ends at the counter's
      value, and every thread's events are complete operations that return what their
      single effect, placed between invocation and return, decided. */
  lemma Linearizable(max: nat, track: bool, n: nat, acts: seq<Action>)
    requires Admissible(Init(max, track, n), acts)
    ensures var s := Run(Init(max, track, n), acts);
      && 0 <= s.active <= max
      && Replay(max, s.trace) == Some(s.active)
      && (forall t: nat | t < n :: !PhaseOf(s.trace, t).Broken?)
  {
    Reachable(max, track, n, acts);
  }

  /** The counter is the number of outstanding guards, and the overflow counter the number
      of rejections, up to operations still in flight; exactly so when none is. */
  lemma Conservation(max: nat, track: bool, n: nat, acts: seq<Action>)
    requires Admissible(Init(max, track, n), acts)
    ensures var s := Run(Init(max, track, n), acts);
      && s.active == s.held + Total(Holders, s.threads)
      && Rejections(s.trace) == s.overflow + Total(UncountedRejections, s.threads)
      && ((forall t | 0 <= t < n :: s.threads[t].Idle?) ==> s.active == s.held && s.overflow == Rejections(s.trace))
  {
    Reachable(max, track, n, acts);
    var s := Run(Init(max, track, n), acts);
    if forall t | 0 <= t < n :: s.threads[t].Idle? {
      TotalIdle(Holders, s.threads);
      TotalIdle(UncountedRejections, s.threads);
    }
  }

  /** Both gauges always show the gauge function of a value the counter really held. */
  lemma GaugesHonest(max: nat, track: bool, n: nat, acts: seq<Action>)
    requires Admissible(Init(max, track, n), acts)
    ensures var s := Run(Init(max, track, n), acts);
      && ShowsOpen(s, s.open, 0) && ShowsRemaining(s, s.remaining, 0)
      && (forall k | 0 <= k < |s.history| :: 0 <= s.history[k] <= max)
  {
    Reachable(max, track, n, acts);
  }

  /** A compare-exchange fails only when some operation took effect since the load, so the
      retry loop never spins against an unchanging counter. */
  lemma FailedExchangeMeansProgress(s: State, t: nat)
    requires Inv(s) && t < |s.threads| && s.threads[t].Comparing?
    requires Next(s, Continue(t)).threads[t].Loading?
    ensures s.threads[t].at < Now(s)
  {
    assert PcOk(s, s.threads[t]);
  }

  /** The schedule in which thread `t` alone finishes the operation it is in. */
  function Solo(s: State, t: nat, steps: nat): State
    requires t < |s.threads|
    decreases steps
  {
    if steps == 0 || s.threads[t].Idle? then s else Solo(Next(s, Continue(t)), t, steps - 1)
  }

  /** The breaker shows open exactly when slots are in use and none is left, and the other
      gauge the slots that are left. */
  ghost predicate Exact(s: State) {
    && s.open == (if 0 < s.active && s.max <= s.active then 1 else 0)
    && (s.track ==> s.remaining == if s.active < s.max then s.max - s.active else 0)
  }

  /** The last steps of an operation whose value is current: publish and return. */
  lemma SoloPublish(s: State, t: nat)
    requires t < |s.threads| && s.threads[t].SettingOpen? && s.threads[t].value == s.active
    ensures var s' := Solo(s, t, 3);
      && s'.threads[t].Idle? && Exact(s')
      && s'.active == s.active && s'.overflow == s.overflow && s'.max == s.max
      && s'.held == s.held + if s.threads[t].outcome.Acquired? then 1 else 0
  {
    var s1 := Next(s, Continue(t));
    var s2 := Next(s1, Continue(t));
    assert Solo(s, t, 3) == Solo(s1, t, 2) == Solo(s2, t, 1);
    assert s.track ==> Solo(s2, t, 1) == Next(s2, Continue(t));
  }

  /** An acquire that runs alone finishes within six steps and, however stale the gauges
      were, leaves them exact; it succeeds exactly when a slot is free. */
  lemma SoloAcquire(s: State, t: nat)
    requires Inv(s) && Enabled(s, BeginAcquire(t))
    ensures var s' := Solo(Next(s, BeginAcquire(t)), t, 5);
      && s'.threads[t].Idle? && Exact(s')
      && (s.active < s.max ==> s'.active == s.active + 1 && s'.held == s.held + 1 && s'.overflow == s.overflow)
      && (s.active >= s.max ==> s'.active == s.active && s'.held == s.held && s'.overflow == s.overflow + 1)
  {
    var s0 := Next(s, BeginAcquire(t));
    var s1 := Next(s0, Continue(t));
    var s2 := Next(s1, Continue(t));
    assert Solo(s0, t, 5) == Solo(s1, t, 4) == Solo(s2, t, 3);
    SoloPublish(s2, t);
  }

  /** Likewise for dropping a guard. */
  lemma SoloDrop(s: State, t: nat)
    requires Inv(s) && Enabled(s, BeginDrop(t))
    ensures var s' := Solo(Next(s, BeginDrop(t)), t, 4);
      && s'.threads[t].Idle? && Exact(s')
      && s'.active == s.active - 1 && s'.held == s.held - 1 && s'.overflow == s.overflow
  {
    var s0 := Next(s, BeginDrop(t));
    var s1 := Next(s0, Continue(t));
    assert Solo(s0, t, 4) == Solo(s1, t, 3);
    SoloPublish(s1, t);
  }

  lemma {:induction false} Extend(s: State, acts: seq<Action>, a: Action)
    requires Admissible(s, acts) && Enabled(Run(s, acts), a)
    ensures Admissible(s, acts + [a]) && Run(s, acts + [a]) == Next(Run(s, acts), a)
    decreases |acts|
  {
    if acts == [] {
      assert (acts + [a])[1..] == [];
    } else {
      assert (acts + [a])[1..] == acts[1..] + [a];
      Extend(Next(s, acts[0]), acts[1..], a);
    }
  }

  // ---------------------------------------------------------------------------
  // One side of the budget as an object
  // ---------------------------------------------------------------------------

  /** One operation at a time, with the operations of other threads scripted by its
      parameters. The gauges are exact after an operation only if nobody touches the counter
      between its deciding step and its gauge writes; otherwise they show the value it
      decided on. */
  class BudgetSide {
    const max: nat
    const track: bool
    var active: int
    var overflow: nat
    var open: int
    var remaining: int

    /** Both gauges show `value`. */
    ghost predicate Shows(value: int)
      reads this
    {
      && open == (if 0 < value && max <= value then 1 else 0)
      && (track ==> remaining == if value < max then max - value else 0)
    }

    constructor (max: nat, track: bool)
      ensures this.max == max && this.track == track
      ensures active == 0 && overflow == 0 && Shows(0)
    {
      this.max, this.track := max, track;
      active, overflow, open, remaining := 0, 0, 0, max;
    }

    method CompareExchange(expected: int, desired: int) returns (ok: bool)
      modifies `active
      ensures ok <==> old(active) == expected
      ensures active == if ok then desired else old(active)
    {
      ok := active == expected;
      if ok {
        active := desired;
      }
    }

    method UpdateGauges(value: int)
      modifies `open, `remaining
      ensures Shows(value) && (!track ==> remaining == old(remaining))
    {
      open := if value > 0 && value >= max then 1 else 0;
      if track {
        remaining := if max - value > 0 then max - value else 0;
      }
    }

    /** Other threads leave the counter at `later`, if they touch it. */
    method Interfere(later: Option<nat>)
      requires 0 <= active <= max && (later.Some? ==> later.value <= max)
      modifies `active
      ensures active == (if later.Some? then later.value else old(active)) && 0 <= active <= max
    {
      if later.Some? {
        active := later.value;
      }
    }

    /** The acquire loop: in round `i` other threads leave the counter at `others[i]` between
        this one's load and its exchange, and at `later` before it writes the gauges. `value`
        is what the operation decided on and published. */
    method TryAcquire(others: seq<nat>, later: Option<nat>) returns (acquired: bool, ghost value: int)
      requires 0 <= active <= max && (forall v | v in others :: v <= max) && (later.Some? ==> later.value <= max)
      modifies this
      ensures Shows(value) && active == (if later.Some? then later.value else value) && 0 <= active <= max
      ensures acquired ==> 0 < value <= max && (value - 1 == old(active) || value - 1 in others)
      ensures !acquired ==> value == max && (value == old(active) || value in others)
      ensures others == [] ==> (acquired <==> old(active) < max)
      ensures overflow == old(overflow) + if acquired then 0 else 1
    {
      var i := 0;
      while true
        invariant 0 <= i <= |others| && 0 <= active <= max && overflow == old(overflow)
        invariant active == old(active) || active in others
        decreases |others| - i
      {
        var cur := active;
        if cur >= max {
          value := cur;
          overflow := overflow + 1;
          Interfere(later);
          UpdateGauges(cur);
          acquired := false;
          return;
        }
        if i < |others| {
          assert others[i] in others;
          active := others[i];
          i := i + 1;
        }
        var ok := CompareExchange(cur, cur + 1);
        if ok {
          value := cur + 1;
          Interfere(later);
          UpdateGauges(cur + 1);
          acquired := true;
          return;
        }
      }
    }

    /** A guard's `drop`. */
    method Release(later: Option<nat>)
      requires 0 < active <= max && (later.Some? ==> later.value <= max)
      modifies this
      ensures Shows(old(active) - 1) && overflow == old(overflow)
      ensures active == if later.Some? then later.value else old(active) - 1
    {
      var prev := active;
      active := active - 1;
      Interfere(later);
      UpdateGauges(prev - 1);
    }
  }
}
