/** When the circuit-breaker gauges can be trusted: over every run, exactly when they are
    right at rest. */
module BudgetGauges {
  import opened Common
  import opened Budget

  /** No operation is in flight. */
  predicate AtRest(s: State) {
    forall t | 0 <= t < |s.threads| :: s.threads[t].Idle?
  }

  /** Every run of `n` threads that ends at rest ends with exact gauges. */
  ghost predicate AlwaysExact(max: nat, track: bool, n: nat) {
    forall acts | Admissible(Init(max, track, n), acts) && AtRest(Run(Init(max, track, n), acts)) ::
      Exact(Run(Init(max, track, n), acts))
  }

  // ---------------------------------------------------------------------------
  // One thread
  // ---------------------------------------------------------------------------

  /** With a single thread the value it is about to publish is the counter's, and until it
      publishes the gauges are those of the last operation. */
  ghost predicate Tidy(s: State) {
    && |s.threads| == 1
    && match s.threads[0]
       case Overflowing(_, _, cur) => cur == s.active
       case SettingOpen(_, _, value, _) => value == s.active
       case SettingRemaining(_, _, value, _) => value == s.active && s.open == OpenGauge(s.max, s.active)
       case _ => Exact(s)
  }

  lemma TidyStep(s: State, a: Action)
    requires Tidy(s) && Enabled(s, a)
    ensures Tidy(Next(s, a))
  {
  }

  lemma {:induction false} TidyRun(s: State, acts: seq<Action>)
    requires Tidy(s) && Admissible(s, acts)
    ensures Tidy(Run(s, acts))
    decreases |acts|
  {
    if acts != [] {
      TidyStep(s, acts[0]);
      TidyRun(Next(s, acts[0]), acts[1..]);
    }
  }

  lemma AloneIsExact(max: nat, track: bool, n: nat)
    requires n <= 1
    ensures AlwaysExact(max, track, n)
  {
    var s := Init(max, track, n);
    forall acts | Admissible(s, acts) && AtRest(Run(s, acts)) ensures Exact(Run(s, acts)) {
      if n == 1 {
        TidyRun(s, acts);
      } else {
        assert acts == [];
      }
    }
  }

  // ---------------------------------------------------------------------------
  // No slots
  // ---------------------------------------------------------------------------

  /** Without slots the counter never moves, so there is only one value to publish. */
  lemma NoSlotsIsExact(track: bool, n: nat)
    ensures AlwaysExact(0, track, n)
  {
    var s := Init(0, track, n);
    forall acts | Admissible(s, acts) ensures Exact(Run(s, acts)) {
      Reachable(0, track, n, acts);
      OnlyZero(Run(s, acts));
    }
  }

  lemma OnlyZero(s: State)
    requires Inv(s) && s.max == 0
    ensures Exact(s)
  {
    assert forall k | 0 <= k < |s.history| :: s.history[k] == 0;
  }

  // ---------------------------------------------------------------------------
  // Schedules
  // ---------------------------------------------------------------------------

  ghost predicate Reaches(s: State, r: State) {
    exists acts :: Admissible(s, acts) && Run(s, acts) == r
  }

  lemma ReachesStep(s: State, r: State, a: Action)
    requires Reaches(s, r) && Enabled(r, a)
    ensures Reaches(s, Next(r, a))
  {
    var acts :| Admissible(s, acts) && Run(s, acts) == r;
    Extend(s, acts, a);
  }

  lemma {:induction false} ReachesSolo(s: State, r: State, t: nat, steps: nat)
    requires Reaches(s, r) && t < |r.threads|
    ensures Reaches(s, Solo(r, t, steps))
    decreases steps
  {
    hide Reaches;
    if steps > 0 && !r.threads[t].Idle? {
      ReachesStep(s, r, Continue(t));
      ReachesSolo(s, Next(r, Continue(t)), t, steps - 1);
    }
  }

  /** A thread that runs alone moves no other thread. */
  lemma {:induction false} SoloKeeps(s: State, t: nat, steps: nat)
    requires t < |s.threads|
    ensures var r := Solo(s, t, steps);
      && r.max == s.max && r.track == s.track && |r.threads| == |s.threads|
      && forall u | 0 <= u < |s.threads| && u != t :: r.threads[u] == s.threads[u]
    decreases steps
  {
    if steps > 0 && !s.threads[t].Idle? {
      SoloKeeps(Next(s, Continue(t)), t, steps - 1);
    }
  }

  lemma ReachedInv(max: nat, track: bool, n: nat, r: State)
    requires Reaches(Init(max, track, n), r)
    ensures Inv(r) && r.max == max && r.track == track && |r.threads| == n
  {
    var acts :| Admissible(Init(max, track, n), acts) && Run(Init(max, track, n), acts) == r;
    Reachable(max, track, n, acts);
  }

  /** A whole acquire by thread `t`, with nobody else moving. */
  lemma AcquireAlone(max: nat, track: bool, n: nat, s: State, t: nat) returns (r: State)
    requires Reaches(Init(max, track, n), s) && t < n && s.threads[t].Idle? && s.active < max
    ensures Reaches(Init(max, track, n), r) && |r.threads| == |s.threads| == n
    ensures r.active == s.active + 1 && r.held == s.held + 1 && r.threads[t].Idle?
    ensures forall u | 0 <= u < n && u != t :: r.threads[u] == s.threads[u]
  {
    ReachedInv(max, track, n, s);
    var s1 := Next(s, BeginAcquire(t));
    SoloAcquire(s, t);
    ReachesStep(Init(max, track, n), s, BeginAcquire(t));
    ReachesSolo(Init(max, track, n), s1, t, 5);
    SoloKeeps(s1, t, 5);
    r := Solo(s1, t, 5);
  }

  /** One thread takes `k` slots, one after the other. */
  lemma {:induction false} Fill(max: nat, track: bool, n: nat, k: nat) returns (r: State)
    requires n > 0 && k <= max
    ensures Reaches(Init(max, track, n), r) && |r.threads| == n && AtRest(r) && r.active == r.held == k
  {
    var s := Init(max, track, n);
    if k == 0 {
      r := s;
      assert Admissible(s, []) && Run(s, []) == s;
    } else {
      r := Fill(max, track, n, k - 1);
      r := AcquireAlone(max, track, n, r, 0);
    }
  }

  /** The value a thread holds is published, current or not. */
  lemma PublishAlone(s: State, t: nat)
    requires t < |s.threads| && s.threads[t].SettingOpen?
    ensures var r := Solo(s, t, 3);
      r.threads[t].Idle? && r.active == s.active && r.open == OpenGauge(s.max, s.threads[t].value)
  {
    var s1 := Next(s, Continue(t));
    var s2 := Next(s1, Continue(t));
    assert Solo(s, t, 3) == Solo(s1, t, 2) == Solo(s2, t, 1);
    assert s.track ==> Solo(s2, t, 1) == Next(s2, Continue(t));
  }

  /** Thread `t` gives a slot back but has not published yet. */
  lemma DropUnpublished(max: nat, track: bool, n: nat, s: State, t: nat) returns (r: State)
    requires Reaches(Init(max, track, n), s) && AtRest(s) && t < n && s.held > 0
    ensures Reaches(Init(max, track, n), r) && |r.threads| == n && r.active == s.active - 1
    ensures r.threads[t].SettingOpen? && r.threads[t].value == s.active - 1
    ensures forall u | 0 <= u < n && u != t :: r.threads[u].Idle?
  {
    ReachedInv(max, track, n, s);
    ReachesStep(Init(max, track, n), s, BeginDrop(t));
    var s1 := Next(s, BeginDrop(t));
    ReachesStep(Init(max, track, n), s1, Continue(t));
    r := Next(s1, Continue(t));
  }

  /** For every cap and any two threads the gauges can be wrong at rest: all slots are taken,
      a guard is dropped, its slot is taken again and that is published, and only then does
      the drop publish. Nothing is in flight, every slot is in use, the breaker shows closed. */
  lemma StaleAtRest(max: nat, track: bool, n: nat) returns (r: State)
    requires max > 0 && n > 1
    ensures Reaches(Init(max, track, n), r) && AtRest(r)
    ensures r.active == max && r.open == 0 && !Exact(r)
  {
    hide Reaches;
    hide Solo;
    hide Inv;
    var s := Fill(max, track, n, max);
    s := DropUnpublished(max, track, n, s, 1);
    s := AcquireAlone(max, track, n, s, 0);
    ReachedInv(max, track, n, s);
    PublishAlone(s, 1);
    ReachesSolo(Init(max, track, n), s, 1, 3);
    SoloKeeps(s, 1, 3);
    r := Solo(s, 1, 3);
  }

  /** The gauges are right whenever nothing is in flight, over every run, exactly when there
      is at most one thread or no slot to take. */
  lemma ExactIffAloneOrNoSlots(max: nat, track: bool, n: nat)
    ensures AlwaysExact(max, track, n) <==> n <= 1 || max == 0
  {
    if n <= 1 {
      AloneIsExact(max, track, n);
    } else if max == 0 {
      NoSlotsIsExact(track, n);
    } else {
      var r := StaleAtRest(max, track, n);
      var acts :| Admissible(Init(max, track, n), acts) && Run(Init(max, track, n), acts) == r;
    }
  }

  // ---------------------------------------------------------------------------
  // What the gauges promise
  // ---------------------------------------------------------------------------

  /** A whole acquire by thread `t`, with nobody else moving. */
  function LoneAcquire(s: State, t: nat): State {
    if Enabled(s, BeginAcquire(t)) then Solo(Next(s, BeginAcquire(t)), t, 5) else s
  }

  /** `k` of them, one after the other. */
  function AcquireMany(s: State, t: nat, k: nat): State
    decreases k
  {
    if k == 0 then s else LoneAcquire(AcquireMany(s, t, k - 1), t)
  }

  lemma {:induction false} SoloInv(s: State, t: nat, steps: nat)
    requires Inv(s) && t < |s.threads|
    ensures Inv(Solo(s, t, steps))
    decreases steps
  {
    hide Inv;
    if steps > 0 && !s.threads[t].Idle? {
      InvStep(s, Continue(t));
      SoloInv(Next(s, Continue(t)), t, steps - 1);
    }
  }

  lemma AcquireOnce(s: State, t: nat)
    requires Inv(s) && Enabled(s, BeginAcquire(t))
    ensures var r := LoneAcquire(s, t);
      && Inv(r) && Enabled(r, BeginAcquire(t)) && r.max == s.max
      && (s.active < s.max ==> r.active == s.active + 1 && r.held == s.held + 1 && r.overflow == s.overflow)
      && (s.active >= s.max ==> r.active == s.active && r.held == s.held && r.overflow == s.overflow + 1)
  {
    SoloAcquire(s, t);
    InvStep(s, BeginAcquire(t));
    SoloInv(Next(s, BeginAcquire(t)), t, 5);
    SoloKeeps(Next(s, BeginAcquire(t)), t, 5);
  }

  /** While slots are left, acquires that run alone all succeed. */
  lemma {:induction false} AcquiresSucceed(s: State, t: nat, k: nat)
    requires Inv(s) && Enabled(s, BeginAcquire(t)) && s.active + k <= s.max
    ensures var r := AcquireMany(s, t, k);
      && Inv(r) && Enabled(r, BeginAcquire(t)) && r.max == s.max
      && r.active == s.active + k && r.held == s.held + k && r.overflow == s.overflow
    decreases k
  {
    hide LoneAcquire;
    hide Inv;
    hide Enabled;
    if k > 0 {
      AcquiresSucceed(s, t, k - 1);
      AcquireOnce(AcquireMany(s, t, k - 1), t);
    }
  }

  /** Exact gauges mean something to a caller: the remaining gauge is the number of acquires
      that succeed before the first rejection, and the breaker shows open exactly when slots
      are in use and the next acquire is rejected. */
  lemma GaugesForetell(s: State, t: nat)
    requires Inv(s) && Exact(s) && Enabled(s, BeginAcquire(t))
    ensures s.track ==>
      && 0 <= s.remaining && s.remaining + s.active == s.max
      && AcquireMany(s, t, s.remaining).held == s.held + s.remaining
      && AcquireMany(s, t, s.remaining).overflow == s.overflow
      && AcquireMany(s, t, s.remaining + 1).held == s.held + s.remaining
      && AcquireMany(s, t, s.remaining + 1).overflow == s.overflow + 1
    ensures s.open == 0 || s.open == 1
    ensures s.open == 1 <==> s.active > 0 && AcquireMany(s, t, 1).overflow == s.overflow + 1
  {
    assert s.history[|s.history| - 1] == s.active;
    hide LoneAcquire;
    hide Inv;
    hide Enabled;
    var room := s.max - s.active;
    AcquireOnce(s, t);
    assert AcquireMany(s, t, 1) == LoneAcquire(AcquireMany(s, t, 0), t);
    AcquiresSucceed(s, t, room);
    AcquireOnce(AcquireMany(s, t, room), t);
    assert AcquireMany(s, t, room + 1) == LoneAcquire(AcquireMany(s, t, room), t);
  }
}
