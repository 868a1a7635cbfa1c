/** The detectors over whole runs: the detected counters count exactly the responses that
    trip a detector, and each detector's enforced counter counts its own ejections. */
module OutlierDetectors {
  import opened Common
  import opened Outlier

  /** The step is a response to an endpoint that is not ejected, and with it `log` is what the
      endpoint has seen since it was last un-ejected. */
  predicate Sees(s: State, a: Action, log: seq<nat>) {
    && a.Respond? && a.ep < |s.endpoints| && !s.endpoints[a.ep].ejected
    && log == s.endpoints[a.ep].log + [a.status]
  }

  /** The response makes the row of server errors, counted modulo 2^32, reach the threshold. */
  predicate Trips5xxAt(s: State, a: Action) {
    && a.Respond? && a.ep < |s.endpoints| && !s.endpoints[a.ep].ejected
    && s.cfg.threshold5xx > 0 && Streak(s.endpoints[a.ep].log + [a.status]) % TWO_32 >= s.cfg.threshold5xx
  }

  /** Likewise for the gateway failures in that row, when the response is one. */
  predicate TripsGatewayAt(s: State, a: Action) {
    && a.Respond? && a.ep < |s.endpoints| && !s.endpoints[a.ep].ejected
    && 502 <= a.status <= 504
    && s.cfg.thresholdGateway > 0
    && StreakGateways(s.endpoints[a.ep].log + [a.status]) % TWO_32 >= s.cfg.thresholdGateway
  }

  /** Below the counter width that is what the statuses themselves say. */
  lemma TripsMean(s: State, a: Action, log: seq<nat>)
    requires Sees(s, a, log) && Streak(log) < TWO_32
    ensures Trips5xxAt(s, a) <==> Trips5xx(s.cfg, log)
    ensures TripsGatewayAt(s, a) <==> TripsGateway(s.cfg, log)
  {
    hide Streak;
    hide StreakGateways;
    hide CountGateways;
    hide TripsGateway;
    hide LastFailed;
    StreakMeans(log, s.cfg.threshold5xx);
    TripsGatewayMeans(s.cfg, log);
    StreakGatewaysCounts(log);
    FewerGateways(log[|log| - Streak(log)..]);
  }

  function Count5xx(s: State, acts: seq<Action>): nat
    requires |s.endpoints| > 0 && Admissible(s, acts)
    decreases |acts|
  {
    if acts == [] then 0 else (if Trips5xxAt(s, acts[0]) then 1 else 0) + Count5xx(Next(s, acts[0]), acts[1..])
  }

  function CountGateway(s: State, acts: seq<Action>): nat
    requires |s.endpoints| > 0 && Admissible(s, acts)
    decreases |acts|
  {
    if acts == [] then 0 else (if TripsGatewayAt(s, acts[0]) then 1 else 0) + CountGateway(Next(s, acts[0]), acts[1..])
  }

  /** Compounds in flight that will be, or are being, enforced for the given detector. */
  function Owed(p: Pc, by5xx: bool): nat {
    if (p.Scanning? || p.Passed? || p.Ejecting?) && p.decision.crossed5xx == by5xx then 1 else 0
  }

  function Pending(ps: seq<Pc>, by5xx: bool): nat {
    if ps == [] then 0 else Pending(ps[..|ps| - 1], by5xx) + Owed(ps[|ps| - 1], by5xx)
  }

  lemma {:induction false} PendingUpdate(ps: seq<Pc>, t: nat, p: Pc, by5xx: bool)
    requires t < |ps|
    ensures Pending(ps[t := p], by5xx) == Pending(ps, by5xx) - Owed(ps[t], by5xx) + Owed(p, by5xx)
  {
    var n := |ps| - 1;
    if t == n {
      assert ps[t := p][..n] == ps[..n];
    } else {
      PendingUpdate(ps[..n], t, p, by5xx);
      assert ps[t := p][..n] == ps[..n][t := p];
    }
  }

  lemma {:induction false} NonePending(ps: seq<Pc>, by5xx: bool)
    requires forall t | 0 <= t < |ps| :: ps[t].Idle?
    ensures Pending(ps, by5xx) == 0
  {
    if ps != [] {
      NonePending(ps[..|ps| - 1], by5xx);
    }
  }

  /** Enforcements for 5xx are 5xx crossings, the others are crossings of the gateway
      detector alone. */
  ghost predicate Attributed(s: State) {
    && s.tally.enforced5xx + Pending(s.threads, true) <= s.tally.detected5xx
    && s.tally.enforcedGateway + Pending(s.threads, false) <= s.tally.crossings - s.tally.detected5xx
  }

  lemma RecordTrips(s: State, a: Action)
    requires |s.endpoints| > 0 && StreaksOk(s) && Enabled(s, a) && a.Respond?
    ensures var d := Record(s.cfg, s.endpoints[a.ep], a.status).1;
      (d.crossed5xx <==> Trips5xxAt(s, a)) && (d.crossedGateway <==> TripsGatewayAt(s, a))
  {
    var e := s.endpoints[a.ep];
    assert CountsStreak(e);
    RecordCountsStreak(s.cfg, e, a.status);
    StreakAppend(e.log, a.status);
  }

  /** What one step does to the detected counters. */
  lemma DetectedStep(s: State, a: Action)
    requires |s.endpoints| > 0 && StreaksOk(s) && Enabled(s, a)
    ensures var y, y' := s.tally, Next(s, a).tally;
      && y'.detected5xx == y.detected5xx + (if Trips5xxAt(s, a) then 1 else 0)
      && y'.detectedGateway == y.detectedGateway + (if TripsGatewayAt(s, a) then 1 else 0)
  {
    if a.Respond? {
      RecordTrips(s, a);
      hide Record;
    }
  }

  lemma MoveAttributed(s: State, a: Action)
    requires |s.endpoints| > 0 && Enabled(s, a) && !a.Tick?
    ensures var m, p := MoveOf(s, a), s.threads[a.tid];
      && m.tally.enforced5xx - s.tally.enforced5xx + Owed(m.pc, true) - Owed(p, true)
         <= m.tally.detected5xx - s.tally.detected5xx
      && m.tally.enforcedGateway - s.tally.enforcedGateway + Owed(m.pc, false) - Owed(p, false)
         <= m.tally.crossings - s.tally.crossings - (m.tally.detected5xx - s.tally.detected5xx)
  {
    hide Record;
  }

  lemma AttributedStep(s: State, a: Action)
    requires |s.endpoints| > 0 && Enabled(s, a) && Attributed(s)
    ensures Attributed(Next(s, a))
  {
    if !a.Tick? {
      MoveAttributed(s, a);
      var m := MoveOf(s, a);
      PendingUpdate(s.threads, a.tid, m.pc, true);
      PendingUpdate(s.threads, a.tid, m.pc, false);
      hide MoveOf;
    }
  }

  lemma {:induction false} DetectorsRun(s: State, acts: seq<Action>)
    requires Inv(s) && Attributed(s) && Admissible(s, acts)
    ensures var r := Run(s, acts);
      && r.tally.detected5xx == s.tally.detected5xx + Count5xx(s, acts)
      && r.tally.detectedGateway == s.tally.detectedGateway + CountGateway(s, acts)
      && Attributed(r)
    decreases |acts|
  {
    if acts != [] {
      InvStep(s, acts[0]);
      DetectedStep(s, acts[0]);
      AttributedStep(s, acts[0]);
      hide Attributed;
      hide Trips5xxAt;
      hide TripsGatewayAt;
      DetectorsRun(Next(s, acts[0]), acts[1..]);
    }
  }

  /** Over every run the detected counters are the numbers of responses that trip the
      detector, and no enforcement is booked on the wrong one: those for 5xx are at most the
      5xx crossings, the others at most the crossings of the gateway detector alone. */
  lemma DetectedExact(cfg: Config, n: nat, threads: nat, acts: seq<Action>)
    requires n > 0 && Admissible(Init(cfg, n, threads), acts)
    ensures var y := Run(Init(cfg, n, threads), acts).tally;
      && y.detected5xx == Count5xx(Init(cfg, n, threads), acts)
      && y.detectedGateway == CountGateway(Init(cfg, n, threads), acts)
      && y.enforced5xx <= y.detected5xx && y.enforcedGateway <= y.crossings - y.detected5xx
  {
    InitInv(cfg, n, threads);
    NonePending(Init(cfg, n, threads).threads, true);
    NonePending(Init(cfg, n, threads).threads, false);
    DetectorsRun(Init(cfg, n, threads), acts);
  }
}
