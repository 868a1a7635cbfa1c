/** Endpoint discovery reloads: the bad-file taxonomy, and runs in which reloads, selections
    and response recording interleave over one cluster. */
module EdsReload {
  import opened Common
  import opened Pick
  import Subset
  import OutlierObject

  // ---------------------------------------------------------------------------
  // One reload
  // ---------------------------------------------------------------------------

  datatype RawEndpoint = RawEndpoint(address: string, port: nat)

  datatype Assignment = Assignment(name: string, localities: seq<seq<RawEndpoint>>)

  /** What reading and parsing the assignment file gave. */
  datatype File = Unreadable | Malformed | Parsed(assignments: seq<Assignment>)

  datatype ReloadError = IoOrParse | NoMatchingAssignment | EndpointParse | EmptyEnvelope

  /** The numeric address parser shared with startup. */
  type EndpointParser = RawEndpoint -> Option<Address>

  datatype Counters = Counters(attempt: nat, success: nat, failure: nat, empty: nat, rejected: nat)

  function FindAssignment(xs: seq<Assignment>, name: string): (r: Option<Assignment>)
    ensures r.None? <==> forall i | 0 <= i < |xs| :: xs[i].name != name
    ensures r.Some? ==>
      exists i :: 0 <= i < |xs| && xs[i] == r.value && xs[i].name == name && forall j | 0 <= j < i :: xs[j].name != name
  {
    if xs == [] then None
    else if xs[0].name == name then Some(xs[0])
    else FindAssignment(xs[1..], name)
  }

  function Flatten<T>(xs: seq<seq<T>>): seq<T> {
    if xs == [] then [] else Flatten(xs[..|xs| - 1]) + xs[|xs| - 1]
  }

  /** Every endpoint parsed, in order; `None` as soon as one does not parse. */
  function ParseAll(parse: EndpointParser, raws: seq<RawEndpoint>): (r: Option<seq<Address>>)
    ensures r.Some? <==> forall i | 0 <= i < |raws| :: parse(raws[i]).Some?
    ensures r.Some? ==> |r.value| == |raws| && forall i | 0 <= i < |raws| :: Some(r.value[i]) == parse(raws[i])
  {
    if raws == [] then Some([])
    else
      var init := ParseAll(parse, raws[..|raws| - 1]);
      var last := parse(raws[|raws| - 1]);
      if init.Some? && last.Some? then Some(init.value + [last.value]) else None
  }

  /** The assignment a file puts in force, or why it is turned away. */
  function Validate(file: File, name: string, parse: EndpointParser): Result<seq<Address>, ReloadError> {
    if !file.Parsed? then Err(IoOrParse)
    else if file.assignments == [] then Err(EmptyEnvelope)
    else
      var found := FindAssignment(file.assignments, name);
      if found.None? then Err(NoMatchingAssignment)
      else
        var addresses := ParseAll(parse, Flatten(found.value.localities));
        if addresses.None? then Err(EndpointParse) else Ok(addresses.value)
  }

  /** How many endpoints the first `k` localities hold. */
  function Offset<T>(xs: seq<seq<T>>, k: nat): nat
    requires k <= |xs|
  {
    if k == 0 then 0 else Offset(xs, k - 1) + |xs[k - 1]|
  }

  lemma {:induction false} OffsetPrefix<T>(xs: seq<seq<T>>, n: nat, k: nat)
    requires k <= n <= |xs|
    ensures Offset(xs[..n], k) == Offset(xs, k)
  {
    if k > 0 {
      OffsetPrefix(xs, n, k - 1);
    }
  }

  lemma {:induction false} FlattenSize<T>(xs: seq<seq<T>>)
    ensures |Flatten(xs)| == Offset(xs, |xs|)
  {
    if xs != [] {
      var n := |xs| - 1;
      FlattenSize(xs[..n]);
      OffsetPrefix(xs, n, n);
    }
  }

  /** The endpoints of a locality stand together, behind those of the localities before it. */
  lemma {:induction false} FlattenAt<T>(xs: seq<seq<T>>, x: nat, y: nat)
    requires x < |xs| && y < |xs[x]|
    ensures Offset(xs, x) + y < |Flatten(xs)| && Flatten(xs)[Offset(xs, x) + y] == xs[x][y]
  {
    var n := |xs| - 1;
    FlattenSize(xs[..n]);
    OffsetPrefix(xs, n, n);
    if x < n {
      FlattenAt(xs[..n], x, y);
      OffsetPrefix(xs, n, x);
    }
  }

  lemma {:induction false} FlattenFrom<T>(xs: seq<seq<T>>, z: nat) returns (x: nat, y: nat)
    requires z < |Flatten(xs)|
    ensures x < |xs| && y < |xs[x]| && Flatten(xs)[z] == xs[x][y]
  {
    var n := |xs| - 1;
    if z < |Flatten(xs[..n])| {
      x, y := FlattenFrom(xs[..n], z);
    } else {
      x, y := n, z - |Flatten(xs[..n])|;
    }
  }

  /** The file names the cluster, first in assignment `i`, and every endpoint there parses. */
  ghost predicate Accepts(file: File, name: string, parse: EndpointParser, i: nat) {
    && file.Parsed? && i < |file.assignments| && file.assignments[i].name == name
    && (forall j | 0 <= j < i :: file.assignments[j].name != name)
    && forall x, y | 0 <= x < |file.assignments[i].localities| && 0 <= y < |file.assignments[i].localities[x]| ::
         parse(file.assignments[i].localities[x][y]).Some?
  }

  /** The addresses are the parsed endpoints, locality by locality. */
  ghost predicate InForce(addresses: seq<Address>, localities: seq<seq<RawEndpoint>>, parse: EndpointParser) {
    && |addresses| == Offset(localities, |localities|)
    && forall x: nat, y: nat | x < |localities| && y < |localities[x]| ::
         Offset(localities, x) + y < |addresses| && Some(addresses[Offset(localities, x) + y]) == parse(localities[x][y])
  }

  /** Exactly these files are accepted, and what is put in force is their assignment. */
  lemma AcceptedIff(file: File, name: string, parse: EndpointParser, i: nat)
    ensures Validate(file, name, parse).Ok? ==> exists k: nat :: Accepts(file, name, parse, k)
    ensures Accepts(file, name, parse, i) ==>
      var v := Validate(file, name, parse); v.Ok? && InForce(v.value, file.assignments[i].localities, parse)
  {
    if Validate(file, name, parse).Ok? {
      var k :| 0 <= k < |file.assignments| && file.assignments[k] == FindAssignment(file.assignments, name).value
        && file.assignments[k].name == name && forall j | 0 <= j < k :: file.assignments[j].name != name;
      forall x, y | 0 <= x < |file.assignments[k].localities| && 0 <= y < |file.assignments[k].localities[x]|
        ensures parse(file.assignments[k].localities[x][y]).Some?
      {
        FlattenAt(file.assignments[k].localities, x, y);
      }
      assert Accepts(file, name, parse, k);
    }
    if Accepts(file, name, parse, i) {
      var localities := file.assignments[i].localities;
      assert FindAssignment(file.assignments, name) == Some(file.assignments[i]);
      forall z | 0 <= z < |Flatten(localities)| ensures parse(Flatten(localities)[z]).Some? {
        var x, y := FlattenFrom(localities, z);
      }
      ParsedInForce(localities, parse);
    }
  }

  lemma ParsedInForce(localities: seq<seq<RawEndpoint>>, parse: EndpointParser)
    ensures var v := ParseAll(parse, Flatten(localities)); v.Some? ==> InForce(v.value, localities, parse)
  {
    var v := ParseAll(parse, Flatten(localities));
    if v.Some? {
      FlattenSize(localities);
      forall x: nat, y: nat | x < |localities| && y < |localities[x]|
        ensures Offset(localities, x) + y < |v.value| && Some(v.value[Offset(localities, x) + y]) == parse(localities[x][y])
      {
        FlattenAt(localities, x, y);
      }
    }
  }

  /** Every reload ticks `attempt` and exactly one outcome. */
  function Tick(c: Counters, outcome: Result<seq<Address>, ReloadError>): Counters {
    var c' := c.(attempt := c.attempt + 1);
    match outcome
    case Ok(_) => c'.(success := c.success + 1)
    case Err(IoOrParse) => c'.(failure := c.failure + 1)
    case Err(EmptyEnvelope) => c'.(empty := c.empty + 1)
    case Err(_) => c'.(rejected := c.rejected + 1)
  }

  lemma {:induction false} ParseAllConcat(parse: EndpointParser, a: seq<RawEndpoint>, b: seq<RawEndpoint>)
    ensures var p, q := ParseAll(parse, a), ParseAll(parse, b);
      ParseAll(parse, a + b) == if p.Some? && q.Some? then Some(p.value + q.value) else None
  {
    if b == [] {
      assert a + b == a;
      var p := ParseAll(parse, a);
      if p.Some? {
        assert p.value + [] == p.value;
      }
    } else {
      assert (a + b)[..|a + b| - 1] == a + b[..|b| - 1];
      ParseAllConcat(parse, a, b[..|b| - 1]);
      var p, q := ParseAll(parse, a), ParseAll(parse, b);
      if p.Some? && q.Some? {
        assert p.value + q.value[..|b| - 1] + [q.value[|b| - 1]] == p.value + q.value;
      }
    }
  }

  lemma {:induction false} FlattenSplit<T>(xs: seq<seq<T>>, k: nat)
    requires k < |xs|
    ensures exists rest :: Flatten(xs) == Flatten(xs[..k]) + xs[k] + rest
  {
    var n := |xs| - 1;
    if k == n {
      assert Flatten(xs) == Flatten(xs[..k]) + xs[k] + [];
    } else {
      FlattenSplit(xs[..n], k);
      assert xs[..n][..k] == xs[..k];
      var rest :| Flatten(xs[..n]) == Flatten(xs[..k]) + xs[k] + rest;
      assert Flatten(xs) == Flatten(xs[..k]) + xs[k] + (rest + xs[n]);
    }
  }

  class EdsCluster {
    const selection: string
    const parse: EndpointParser
    var live: seq<Address>
    var counters: Counters

    constructor (selection: string, parse: EndpointParser, boot: seq<Address>)
      ensures this.selection == selection && this.parse == parse && live == boot && counters == Counters(0, 0, 0, 0, 0)
    {
      this.selection, this.parse := selection, parse;
      live, counters := boot, Counters(0, 0, 0, 0, 0);
    }

    /** Push the endpoints of one locality, stopping at the first that does not parse. */
    method CollectLocality(candidate: seq<Address>, raws: seq<RawEndpoint>) returns (r: Option<seq<Address>>)
      ensures var p := ParseAll(parse, raws);
        r == if p.Some? then Some(candidate + p.value) else None
    {
      var pushed: seq<Address> := [];
      for y := 0 to |raws|
        invariant ParseAll(parse, raws[..y]) == Some(pushed)
      {
        var parsed := parse(raws[y]);
        if parsed.None? {
          return None;
        }
        assert raws[..y + 1][..y] == raws[..y];
        pushed := pushed + [parsed.value];
      }
      assert raws[..|raws|] == raws;
      return Some(candidate + pushed);
    }

    /** The candidate set, accumulated on the side. */
    method Collect(localities: seq<seq<RawEndpoint>>) returns (r: Option<seq<Address>>)
      ensures r == ParseAll(parse, Flatten(localities))
    {
      var candidate: seq<Address> := [];
      for x := 0 to |localities|
        invariant ParseAll(parse, Flatten(localities[..x])) == Some(candidate)
      {
        var more := CollectLocality(candidate, localities[x]);
        ParseAllConcat(parse, Flatten(localities[..x]), localities[x]);
        if more.None? {
          FlattenSplit(localities, x);
          ghost var rest :| Flatten(localities) == Flatten(localities[..x]) + localities[x] + rest;
          ParseAllConcat(parse, Flatten(localities[..x]) + localities[x], rest);
          return None;
        }
        candidate := more.value;
        assert localities[..x + 1][..x] == localities[..x];
      }
      assert localities[..|localities|] == localities;
      return Some(candidate);
    }

    /** Only a fully valid file replaces the live set, and an empty assignment is valid. */
    method Reload(file: File) returns (r: Result<(), ReloadError>)
      modifies this
      ensures var v := Validate(file, selection, parse);
        && counters == Tick(old(counters), v)
        && live == (if v.Ok? then v.value else old(live))
        && r == (if v.Ok? then Ok(()) else Err(v.error))
      ensures r.Ok? <==> exists i: nat :: Accepts(file, selection, parse, i)
      ensures r == Err(IoOrParse) <==> !file.Parsed?
      ensures r == Err(EmptyEnvelope) <==> file == Parsed([])
      ensures r == Err(NoMatchingAssignment) <==>
        file.Parsed? && file.assignments != [] && forall i | 0 <= i < |file.assignments| :: file.assignments[i].name != selection
      ensures r.Err? ==> live == old(live)
      ensures forall i: nat | Accepts(file, selection, parse, i) :: InForce(live, file.assignments[i].localities, parse)
      ensures counters.attempt == old(counters).attempt + 1
      ensures counters.success == old(counters).success + if r.Ok? then 1 else 0
      ensures counters.failure == old(counters).failure + if r == Err(IoOrParse) then 1 else 0
      ensures counters.empty == old(counters).empty + if r == Err(EmptyEnvelope) then 1 else 0
      ensures counters.rejected == old(counters).rejected +
        if r == Err(NoMatchingAssignment) || r == Err(EndpointParse) then 1 else 0
    {
      AcceptedIff(file, selection, parse, 0);
      ghost var v := Validate(file, selection, parse);
      forall i: nat | Accepts(file, selection, parse, i)
        ensures v.Ok? && i < |file.assignments| && InForce(v.value, file.assignments[i].localities, parse)
      {
        AcceptedIff(file, selection, parse, i);
      }
      hide InForce;
      hide ParseAll;
      counters := counters.(attempt := counters.attempt + 1);
      if file.Unreadable? || file.Malformed? {
        counters := counters.(failure := counters.failure + 1);
        return Err(IoOrParse);
      }
      if file.assignments == [] {
        counters := counters.(empty := counters.empty + 1);
        return Err(EmptyEnvelope);
      }
      var found := FindAssignment(file.assignments, selection);
      if found.None? {
        counters := counters.(rejected := counters.rejected + 1);
        return Err(NoMatchingAssignment);
      }
      var candidate := Collect(found.value.localities);
      if candidate.None? {
        counters := counters.(rejected := counters.rejected + 1);
        return Err(EndpointParse);
      }
      live := candidate.value;
      counters := counters.(success := counters.success + 1);
      return Ok(());
    }
  }

  // ---------------------------------------------------------------------------
  // Which clusters are watched
  // ---------------------------------------------------------------------------

  /** What matters about a cluster's configuration here. */
  datatype ClusterConfig = ClusterConfig(boot: seq<Address>, eds: bool, healthChecked: bool, outlier: bool, selection: string)

  /** A discovery cluster without per-endpoint state; only these are ever reloaded. */
  predicate PlainEds(c: ClusterConfig) {
    c.eds && !c.healthChecked && !c.outlier
  }

  method WatchTargets(clusters: seq<ClusterConfig>) returns (targets: seq<nat>)
    ensures forall i: nat :: i in targets <==>
      i < |clusters| && clusters[i].eds && !clusters[i].healthChecked && !clusters[i].outlier
    ensures forall x, y | 0 <= x < y < |targets| :: targets[x] < targets[y]
  {
    targets := [];
    for i := 0 to |clusters|
      invariant forall j: nat :: j in targets <==> j < i && PlainEds(clusters[j])
      invariant forall x | 0 <= x < |targets| :: targets[x] < i
      invariant forall x, y | 0 <= x < y < |targets| :: targets[x] < targets[y]
    {
      if !(clusters[i].eds && !clusters[i].healthChecked && !clusters[i].outlier) {
        continue;
      }
      targets := targets + [i];
    }
  }

  // ---------------------------------------------------------------------------
  // Runs
  // ---------------------------------------------------------------------------

  /** One cluster serving several tasks. A task that selects takes its snapshot in one step
      and finishes in another; meanwhile reloads may replace the live set and the flags may
      change. `files` is the list of files read so far. */
  datatype World = World(
    cfg: ClusterConfig,
    live: seq<Address>,
    cursor: nat,
    policy: Policy,
    counters: Counters,
    snapshots: seq<Option<seq<Address>>>,
    files: seq<File>)

  datatype Step =
    | ReloadFile(file: File)
    | Snapshot(task: nat)
    | Finish(task: nat, key: Option<u64>, m: Option<Subset.Metadata>)
    | Respond(task: nat, address: Address)
    | Flags(policy: Policy)

  /** The flags may change value; the structures built at startup stay. */
  predicate SameShape(p: Policy, q: Policy) {
    && p.hashLb == q.hashLb && p.subset == q.subset && p.panicThreshold == q.panicThreshold
    && (p.healthy.Some? <==> q.healthy.Some?) && (p.healthy.Some? ==> |p.healthy.value| == |q.healthy.value|)
    && (p.ejected.Some? <==> q.ejected.Some?) && (p.ejected.Some? ==> |p.ejected.value| == |q.ejected.value|)
  }

  predicate Enabled(w: World, s: Step) {
    match s
    case ReloadFile(_) => PlainEds(w.cfg)
    case Snapshot(t) => t < |w.snapshots| && w.snapshots[t].None?
    case Finish(t, _, _) => t < |w.snapshots| && w.snapshots[t].Some?
    case Respond(t, _) => t < |w.snapshots| && w.snapshots[t].Some?
    case Flags(p) => SameShape(w.policy, p)
  }

  /** No health, ejection, subset or hash index that this step uses is out of range. */
  predicate InBounds(w: World, s: Step)
    requires Enabled(w, s)
  {
    match s
    case Finish(t, key, m) =>
      var eps := w.snapshots[t].value;
      Aligned(w.policy, |eps|) && Servable(Choose(w.policy, |eps|, key, m), |eps|)
    case Respond(t, a) =>
      var eps := w.snapshots[t].value;
      w.policy.ejected.Some? && a in eps ==>
        OutlierObject.Position(eps, a).value < |w.policy.ejected.value|
    case _ => true
  }

  function Next(w: World, s: Step, parse: EndpointParser): World
    requires Enabled(w, s) && InBounds(w, s)
  {
    match s
    case ReloadFile(file) =>
      var v := Validate(file, w.cfg.selection, parse);
      w.(live := if v.Ok? then v.value else w.live, counters := Tick(w.counters, v), files := w.files + [file])
    case Snapshot(t) => w.(snapshots := w.snapshots[t := Some(w.live)])
    case Finish(t, key, m) =>
      var eps := w.snapshots[t].value;
      w.(cursor := Serve(Choose(w.policy, |eps|, key, m), eps, w.cursor).1, snapshots := w.snapshots[t := None])
    case Respond(t, _) => w.(snapshots := w.snapshots[t := None])
    case Flags(p) => w.(policy := p)
  }

  /** The assignment of the last file that was fully valid, or the one from startup. */
  function LastGood(boot: seq<Address>, files: seq<File>, name: string, parse: EndpointParser): seq<Address> {
    if files == [] then boot
    else
      var v := Validate(files[|files| - 1], name, parse);
      if v.Ok? then v.value else LastGood(boot, files[..|files| - 1], name, parse)
  }

  ghost predicate FlagsAligned(w: World) {
    && (w.policy.healthy.Some? <==> w.cfg.healthChecked)
    && (w.policy.ejected.Some? <==> w.cfg.outlier)
    && Aligned(w.policy, |w.cfg.boot|)
  }

  /** A snapshot is a set that was live at some time. */
  ghost predicate WasLive(w: World, eps: seq<Address>, parse: EndpointParser) {
    exists k :: 0 <= k <= |w.files| && eps == LastGood(w.cfg.boot, w.files[..k], w.cfg.selection, parse)
  }

  ghost predicate Inv(w: World, parse: EndpointParser) {
    && FlagsAligned(w)
    && (!PlainEds(w.cfg) ==> w.files == [])
    && w.live == LastGood(w.cfg.boot, w.files, w.cfg.selection, parse)
    && (forall t | 0 <= t < |w.snapshots| && w.snapshots[t].Some? :: WasLive(w, w.snapshots[t].value, parse))
    && w.counters.attempt == |w.files|
    && w.counters.attempt == w.counters.success + w.counters.failure + w.counters.empty + w.counters.rejected
  }

  /** Per-endpoint flags exist only where the endpoint set never changes. */
  lemma SnapshotAligned(w: World, t: nat, parse: EndpointParser)
    requires Inv(w, parse) && t < |w.snapshots| && w.snapshots[t].Some?
    ensures Aligned(w.policy, |w.snapshots[t].value|)
  {
    assert WasLive(w, w.snapshots[t].value, parse);
    if Filtered(w.policy) {
      assert w.files == [];
    }
  }

  lemma StepInBounds(w: World, s: Step, parse: EndpointParser)
    requires Inv(w, parse) && Enabled(w, s)
    ensures InBounds(w, s)
  {
    if s.Finish? {
      SnapshotAligned(w, s.task, parse);
      var eps := w.snapshots[s.task].value;
      if eps != [] {
        ServedAreEligible(w.policy, |eps|, s.key, s.m);
      }
    } else if s.Respond? {
      SnapshotAligned(w, s.task, parse);
    }
  }

  lemma WasLiveKept(w: World, w': World, eps: seq<Address>, parse: EndpointParser)
    requires WasLive(w, eps, parse) && w'.cfg == w.cfg && w.files <= w'.files
    ensures WasLive(w', eps, parse)
  {
    var k :| 0 <= k <= |w.files| && eps == LastGood(w.cfg.boot, w.files[..k], w.cfg.selection, parse);
    assert w'.files[..k] == w.files[..k];
  }

  lemma NowLive(w: World, parse: EndpointParser)
    requires w.live == LastGood(w.cfg.boot, w.files, w.cfg.selection, parse)
    ensures WasLive(w, w.live, parse)
  {
    assert w.files[..|w.files|] == w.files;
  }

  lemma InvStep(w: World, s: Step, parse: EndpointParser)
    requires Inv(w, parse) && Enabled(w, s) && InBounds(w, s)
    ensures Inv(Next(w, s, parse), parse)
  {
    var w' := Next(w, s, parse);
    NowLive(w, parse);
    forall t | 0 <= t < |w'.snapshots| && w'.snapshots[t].Some?
      ensures WasLive(w', w'.snapshots[t].value, parse)
    {
      if s.Snapshot? && s.task == t {
        WasLiveKept(w, w', w.live, parse);
      } else {
        WasLiveKept(w, w', w.snapshots[t].value, parse);
      }
    }
    if s.ReloadFile? {
      assert w'.files[..|w'.files| - 1] == w.files;
    }
  }

  predicate Admissible(w: World, steps: seq<Step>, parse: EndpointParser)
    decreases |steps|
  {
    steps == [] ||
    (Enabled(w, steps[0]) && (InBounds(w, steps[0]) ==> Admissible(Next(w, steps[0], parse), steps[1..], parse)))
  }

  /** No step of the run indexes out of range. */
  ghost predicate NeverOutOfBounds(w: World, steps: seq<Step>, parse: EndpointParser)
    requires Admissible(w, steps, parse)
    decreases |steps|
  {
    steps == [] || (InBounds(w, steps[0]) && NeverOutOfBounds(Next(w, steps[0], parse), steps[1..], parse))
  }

  function Run(w: World, steps: seq<Step>, parse: EndpointParser): World
    requires Admissible(w, steps, parse)
    decreases |steps|
  {
    if steps == [] || !InBounds(w, steps[0]) then w else Run(Next(w, steps[0], parse), steps[1..], parse)
  }

  lemma {:induction false} SafeFrom(w: World, steps: seq<Step>, parse: EndpointParser)
    requires Inv(w, parse) && Admissible(w, steps, parse)
    ensures NeverOutOfBounds(w, steps, parse) && Inv(Run(w, steps, parse), parse)
    decreases |steps|
  {
    if steps != [] {
      StepInBounds(w, steps[0], parse);
      InvStep(w, steps[0], parse);
      SafeFrom(Next(w, steps[0], parse), steps[1..], parse);
    }
  }

  function Start(cfg: ClusterConfig, policy: Policy, tasks: nat): World {
    World(cfg, cfg.boot, 0, policy, Counters(0, 0, 0, 0, 0), seq(tasks, _ => None), [])
  }

  /** Startup builds the flags index-aligned with the endpoints, which starts the invariant. */
  lemma StartInv(cfg: ClusterConfig, policy: Policy, tasks: nat, parse: EndpointParser)
    requires FlagsAligned(Start(cfg, policy, tasks))
    ensures Inv(Start(cfg, policy, tasks), parse)
  {
  }

  /** From startup, over every interleaving of reloads, selections and responses: no index is
      out of range, the live set is the last fully valid assignment, every reload ticked
      `attempt` and one outcome, and selections work on a set that was live. */
  lemma RunsAreSafe(cfg: ClusterConfig, policy: Policy, tasks: nat, steps: seq<Step>, parse: EndpointParser)
    requires FlagsAligned(Start(cfg, policy, tasks)) && Admissible(Start(cfg, policy, tasks), steps, parse)
    ensures NeverOutOfBounds(Start(cfg, policy, tasks), steps, parse)
    ensures var r := Run(Start(cfg, policy, tasks), steps, parse);
      && r.live == LastGood(r.cfg.boot, r.files, r.cfg.selection, parse)
      && r.counters.attempt == |r.files|
      && r.counters.attempt == r.counters.success + r.counters.failure + r.counters.empty + r.counters.rejected
      && (forall t | 0 <= t < |r.snapshots| && r.snapshots[t].Some? :: WasLive(r, r.snapshots[t].value, parse))
  {
    StartInv(cfg, policy, tasks, parse);
    SafeFrom(Start(cfg, policy, tasks), steps, parse);
  }
}
