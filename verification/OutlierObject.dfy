/** The same outlier detection as an object used by one thread at a time: the response
    compound and the sweep pass as the imperative code runs them. */
module OutlierObject {
  import opened Common
  import opened Outlier

  type Address = string

  /** First position of an address in the endpoint list. */
  function Position(addresses: seq<Address>, a: Address): (r: Option<nat>)
    ensures r.None? <==> a !in addresses
    ensures r.Some? ==> r.value < |addresses| && addresses[r.value] == a && a !in addresses[..r.value]
  {
    if addresses == [] then None
    else if addresses[0] == a then Some(0)
    else
      var r := Position(addresses[1..], a);
      if r.None? then None
      else
        assert addresses[..r.value + 1] == [addresses[0]] + addresses[1..][..r.value];
        Some(r.value + 1)
  }

  /** An endpoint nobody is working on: counters equal to the streaks, ejected exactly when stamped. */
  ghost predicate Settled(e: Endpoint) {
    CountsStreak(e) && (e.ejected <==> e.at.Some?)
  }

  lemma RecordSettles(cfg: Config, e: Endpoint, status: nat)
    requires Settled(e)
    ensures var r := Record(cfg, e, status);
      && Settled(r.0) && r.0.ejected == e.ejected && (r.1.Any() ==> !e.ejected)
  {
    RecordCountsStreak(cfg, e, status);
  }

  lemma EjectedSettles(e: Endpoint, at: Stamp)
    requires Settled(e)
    ensures Settled(e.(ejected := true, at := Some(at)))
  {
  }

  lemma FreshSettled()
    ensures Settled(FRESH)
  {
  }

  class OutlierDetection {
    const cfg: Config
    const addresses: seq<Address>
    var endpoints: seq<Endpoint>
    var active: int
    var enforced5xx: nat
    var enforcedGateway: nat
    var enforced: nat
    var detected5xx: nat
    var detectedGateway: nat
    var overflow: nat
    var stamps: nat

    ghost function Cap(): nat { |addresses| * cfg.maxPercent / 100 }

    /** The cap is the configured percentage of the endpoints, rounded down. */
    lemma CapMeans()
      ensures 100 * Cap() <= |addresses| * cfg.maxPercent < 100 * (Cap() + 1)
    {
    }

    /** Between operations: aligned with the addresses, gauge exact, cap respected, ejected
        exactly when stamped, counters equal to the streaks. */
    ghost predicate Valid()
      reads this
    {
      && |endpoints| == |addresses|
      && active == EjectedCount(endpoints) <= Cap()
      && enforced == enforced5xx + enforcedGateway
      && forall i | 0 <= i < |endpoints| :: Settled(endpoints[i])
    }

    constructor (cfg: Config, addresses: seq<Address>)
      ensures Valid() && this.cfg == cfg && this.addresses == addresses
      ensures forall i | 0 <= i < |endpoints| :: endpoints[i] == FRESH
    {
      this.cfg, this.addresses := cfg, addresses;
      endpoints := seq(|addresses|, _ => FRESH);
      active, enforced5xx, enforcedGateway, enforced := 0, 0, 0, 0;
      detected5xx, detectedGateway, overflow, stamps := 0, 0, 0, 0;
      new;
      NoneEjected(endpoints);
    }

    /** The per-endpoint streak machine. */
    method RecordOn(i: nat, status: nat) returns (d: Decision)
      requires i < |endpoints|
      modifies `endpoints, `detected5xx, `detectedGateway
      ensures d == Record(cfg, old(endpoints[i]), status).1
      ensures endpoints == old(endpoints)[i := Record(cfg, old(endpoints[i]), status).0]
      ensures detected5xx == old(detected5xx) + if d.crossed5xx then 1 else 0
      ensures detectedGateway == old(detectedGateway) + if d.crossedGateway then 1 else 0
    {
      var e := endpoints[i];
      d := Decision(false, false);
      if e.ejected {
        return;
      }
      if status / 100 == 5 {
        e := e.(fives := (e.fives + 1) % TWO_32, log := e.log + [status]);
        var crossed5xx := cfg.threshold5xx > 0 && e.fives >= cfg.threshold5xx;
        var crossedGateway := false;
        if 502 <= status <= 504 {
          e := e.(gateways := (e.gateways + 1) % TWO_32);
          crossedGateway := cfg.thresholdGateway > 0 && e.gateways >= cfg.thresholdGateway;
        }
        if crossed5xx {
          detected5xx := detected5xx + 1;
        }
        if crossedGateway {
          detectedGateway := detectedGateway + 1;
        }
        d := Decision(crossed5xx, crossedGateway);
      } else {
        e := e.(fives := 0, gateways := 0, log := e.log + [status]);
      }
      endpoints := endpoints[i := e];
    }

    method CountEjected() returns (n: nat)
      ensures n == EjectedCount(endpoints)
    {
      n := 0;
      for i := 0 to |endpoints|
        invariant n == EjectedCount(endpoints[..i])
      {
        assert endpoints[..i + 1][..i] == endpoints[..i];
        if endpoints[i].ejected {
          n := n + 1;
        }
      }
      assert endpoints[..|endpoints|] == endpoints;
    }

    /** Idempotent: re-ejecting changes nothing. */
    method Eject(i: nat, by5xx: bool)
      requires i < |endpoints|
      modifies `endpoints, `active, `enforced, `enforced5xx, `enforcedGateway
      ensures endpoints == old(endpoints)[i := old(endpoints[i]).(ejected := true)]
      ensures var edge := if old(endpoints[i]).ejected then 0 else 1;
        && active == old(active) + edge && enforced == old(enforced) + edge
        && enforced5xx == old(enforced5xx) + (if by5xx then edge else 0)
        && enforcedGateway == old(enforcedGateway) + (if by5xx then 0 else edge)
    {
      var was := endpoints[i].ejected;
      endpoints := endpoints[i := endpoints[i].(ejected := true)];
      if !was {
        active := active + 1;
        enforced := enforced + 1;
        if by5xx {
          enforced5xx := enforced5xx + 1;
        } else {
          enforcedGateway := enforcedGateway + 1;
        }
      }
    }

    method TryUnEject(i: nat) returns (was: bool)
      requires i < |endpoints|
      modifies `endpoints, `active
      ensures was == old(endpoints[i]).ejected
      ensures endpoints == if was then old(endpoints)[i := FRESH.(at := old(endpoints[i]).at)] else old(endpoints)
      ensures active == old(active) - if was then 1 else 0
    {
      was := endpoints[i].ejected;
      if was {
        endpoints := endpoints[i := endpoints[i].(ejected := false, fives := 0, gateways := 0, log := [])];
        active := active - 1;
      }
    }

    /** Whether a response with this status would eject endpoint `i` now. */
    ghost predicate WouldEject(i: nat, status: nat)
      requires i < |endpoints|
      reads this
    {
      Record(cfg, endpoints[i], status).1.Any() && EjectedCount(endpoints) < Cap()
    }

    ghost predicate WouldOverflow(i: nat, status: nat)
      requires i < |endpoints|
      reads this
    {
      Record(cfg, endpoints[i], status).1.Any() && EjectedCount(endpoints) >= Cap()
    }

    /** The endpoint is not ejected and this status completes the row of server errors. */
    ghost predicate By5xx(i: nat, status: nat)
      requires i < |endpoints|
      reads this
    {
      !endpoints[i].ejected && Trips5xx(cfg, endpoints[i].log + [status])
    }

    ghost predicate ByGateway(i: nat, status: nat)
      requires i < |endpoints|
      reads this
    {
      !endpoints[i].ejected && TripsGateway(cfg, endpoints[i].log + [status])
    }

    lemma TripsWhen(i: nat, status: nat)
      requires Valid() && i < |endpoints| && Streak(endpoints[i].log) + 1 < TWO_32
      ensures Record(cfg, endpoints[i], status).1 == Decision(By5xx(i, status), ByGateway(i, status))
      ensures Record(cfg, endpoints[i], status).0.ejected == endpoints[i].ejected
      ensures Record(cfg, endpoints[i], status).0.log ==
        if endpoints[i].ejected then endpoints[i].log else endpoints[i].log + [status]
    {
      assert Settled(endpoints[i]);
      if !endpoints[i].ejected {
        CrossesWhen(cfg, endpoints[i], status);
      }
    }

    ghost function AfterResponse(i: nat, status: nat, now: nat): Endpoint
      requires i < |endpoints|
      reads this
    {
      var e := Record(cfg, endpoints[i], status).0;
      if WouldEject(i, status) then e.(ejected := true, at := Some(Stamp(now, stamps))) else e
    }

    lemma AfterResponseSettles(i: nat, status: nat, now: nat)
      requires Valid() && i < |endpoints|
      ensures Settled(AfterResponse(i, status, now))
      ensures EjectedCount(endpoints[i := Record(cfg, endpoints[i], status).0]) == EjectedCount(endpoints)
      ensures EjectedCount(endpoints[i := AfterResponse(i, status, now)]) ==
              EjectedCount(endpoints) + if WouldEject(i, status) then 1 else 0
      ensures Record(cfg, endpoints[i], status).1.Any() ==> !Record(cfg, endpoints[i], status).0.ejected
    {
      assert Settled(endpoints[i]);
      RecordSettles(cfg, endpoints[i], status);
      EjectedUpdate(endpoints, i, Record(cfg, endpoints[i], status).0);
      EjectedUpdate(endpoints, i, AfterResponse(i, status, now));
      EjectedSettles(Record(cfg, endpoints[i], status).0, Stamp(now, stamps));
    }

    /** The response compound on endpoint `i`, in terms of the streak machine. */
    method Compound(i: nat, status: nat, now: nat)
      requires Valid() && i < |endpoints|
      modifies this
      ensures Valid()
      ensures endpoints == old(endpoints)[i := old(AfterResponse(i, status, now))]
      ensures overflow == old(overflow) + if old(WouldOverflow(i, status)) then 1 else 0
      ensures enforced == old(enforced) + if old(WouldEject(i, status)) then 1 else 0
      ensures var d := Record(cfg, old(endpoints[i]), status).1;
        && detected5xx == old(detected5xx) + (if d.crossed5xx then 1 else 0)
        && detectedGateway == old(detectedGateway) + (if d.crossedGateway then 1 else 0)
        && enforced5xx == old(enforced5xx) + (if old(WouldEject(i, status)) && d.crossed5xx then 1 else 0)
        && enforcedGateway == old(enforcedGateway) + (if old(WouldEject(i, status)) && !d.crossed5xx then 1 else 0)
    {
      hide Record;
      AfterResponseSettles(i, status, now);
      ghost var after := AfterResponse(i, status, now);
      var d := RecordOn(i, status);
      if !d.Any() {
        return;
      }
      var cap := |addresses| * cfg.maxPercent / 100;
      var count := CountEjected();
      if count >= cap {
        overflow := overflow + 1;
        return;
      }
      Eject(i, d.crossed5xx);
      endpoints := endpoints[i := endpoints[i].(at := Some(Stamp(now, stamps)))];
      stamps := stamps + 1;
      assert endpoints == old(endpoints)[i := after];
    }

    /** The same in terms of the statuses: below the counter width it ejects, or overflows,
        exactly when they trip a detector, and ticks the detectors that did. */
    method RecordAt(i: nat, status: nat, now: nat)
      requires Valid() && i < |endpoints|
      modifies this
      ensures Valid()
      ensures endpoints == old(endpoints)[i := old(AfterResponse(i, status, now))]
      ensures overflow == old(overflow) + if old(WouldOverflow(i, status)) then 1 else 0
      ensures enforced == old(enforced) + if old(WouldEject(i, status)) then 1 else 0
      ensures var d := Record(cfg, old(endpoints[i]), status).1;
        && detected5xx == old(detected5xx) + (if d.crossed5xx then 1 else 0)
        && detectedGateway == old(detectedGateway) + (if d.crossedGateway then 1 else 0)
        && enforced5xx == old(enforced5xx) + (if old(WouldEject(i, status)) && d.crossed5xx then 1 else 0)
        && enforcedGateway == old(enforcedGateway) + (if old(WouldEject(i, status)) && !d.crossed5xx then 1 else 0)
      ensures Streak(old(endpoints[i]).log) + 1 < TWO_32 ==>
        var e, by5xx, byGateway := old(endpoints[i]), old(By5xx(i, status)), old(ByGateway(i, status));
        var trips, room := by5xx || byGateway, old(EjectedCount(endpoints)) < Cap();
        && endpoints[i].ejected == (e.ejected || (trips && room))
        && endpoints[i].log == (if e.ejected then e.log else e.log + [status])
        && detected5xx == old(detected5xx) + (if by5xx then 1 else 0)
        && detectedGateway == old(detectedGateway) + (if byGateway then 1 else 0)
        && overflow == old(overflow) + (if trips && !room then 1 else 0)
        && enforced5xx == old(enforced5xx) + (if by5xx && room then 1 else 0)
        && enforcedGateway == old(enforcedGateway) + (if !by5xx && byGateway && room then 1 else 0)
    {
      if Streak(endpoints[i].log) + 1 < TWO_32 {
        TripsWhen(i, status);
      }
      hide Record;
      hide Cap;
      hide By5xx;
      hide ByGateway;
      hide Valid;
      hide Streak;
      hide EjectedCount;
      Compound(i, status, now);
    }

    /** Run one at a time, responses never exceed the cap (that is part of `Valid`): one ejects
        exactly on a crossing while fewer than `Cap()` endpoints are ejected, and a crossing the
        cap turns away ticks the overflow counter instead. Unknown addresses are ignored. */
    method RecordResponse(address: Address, status: nat, now: nat)
      requires Valid()
      modifies this
      ensures Valid()
      ensures address !in addresses ==> unchanged(this)
      ensures address in addresses ==>
        var i := Position(addresses, address).value;
        && endpoints == old(endpoints)[i := old(AfterResponse(i, status, now))]
        && overflow == old(overflow) + (if old(WouldOverflow(i, status)) then 1 else 0)
        && enforced == old(enforced) + (if old(WouldEject(i, status)) then 1 else 0)
        && var d := Record(cfg, old(endpoints[i]), status).1;
           && detected5xx == old(detected5xx) + (if d.crossed5xx then 1 else 0)
           && detectedGateway == old(detectedGateway) + (if d.crossedGateway then 1 else 0)
           && enforced5xx == old(enforced5xx) + (if old(WouldEject(i, status)) && d.crossed5xx then 1 else 0)
           && enforcedGateway == old(enforcedGateway) + (if old(WouldEject(i, status)) && !d.crossed5xx then 1 else 0)
      ensures address in addresses ==>
        var i := Position(addresses, address).value;
        Streak(old(endpoints[i]).log) + 1 < TWO_32 ==>
        var e, by5xx, byGateway := old(endpoints[i]), old(By5xx(i, status)), old(ByGateway(i, status));
        var trips, room := by5xx || byGateway, old(EjectedCount(endpoints)) < Cap();
        && endpoints[i].ejected == (e.ejected || (trips && room))
        && endpoints[i].log == (if e.ejected then e.log else e.log + [status])
        && detected5xx == old(detected5xx) + (if by5xx then 1 else 0)
        && detectedGateway == old(detectedGateway) + (if byGateway then 1 else 0)
        && overflow == old(overflow) + (if trips && !room then 1 else 0)
        && enforced5xx == old(enforced5xx) + (if by5xx && room then 1 else 0)
        && enforcedGateway == old(enforcedGateway) + (if !by5xx && byGateway && room then 1 else 0)
    {
      var p := Position(addresses, address);
      if p.Some? {
        RecordAt(p.value, status, now);
      }
    }

    /** One sweep pass: exactly the endpoints whose ejection has aged past the base time
        start afresh, and nothing else changes. */
    method SweepOnce(now: nat)
      requires Valid()
      modifies `endpoints, `active
      ensures Valid()
      ensures forall i | 0 <= i < |endpoints| ::
        var e := old(endpoints)[i];
        endpoints[i] ==
          if e.at.Some? && now - e.at.value.time >= cfg.base then Endpoint(false, 0, 0, None, []) else e
    {
      for i := 0 to |endpoints|
        invariant Valid() && |endpoints| == |old(endpoints)|
        invariant forall j | 0 <= j < i ::
          endpoints[j] == if Aged(cfg, now, old(endpoints)[j]) then FRESH else old(endpoints)[j]
        invariant forall j | i <= j < |endpoints| :: endpoints[j] == old(endpoints)[j]
      {
        var at := endpoints[i].at;
        if at.Some? && now - at.value.time >= cfg.base {
          assert Settled(endpoints[i]);
          ghost var es := endpoints;
          EjectedUpdate(es, i, FRESH);
          FreshSettled();
          var was := TryUnEject(i);
          endpoints := endpoints[i := endpoints[i].(at := None)];
          assert endpoints == es[i := FRESH];
        }
      }
    }
  }
}
