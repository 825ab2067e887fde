/** One instance as a state machine: what is stored, what the monitor keeps in
    memory, and every call made to the notifier. */
module World {
  import opened Domain
  import opened Config
  import opened Attention
  import opened TargetState
  import opened Incidents
  import opened EventLog
  import opened Store
  import Delivery
  import Follows

  /** What the monitor keeps between passes. A restart loses all of it. */
  datatype Memory = Memory(
    floor: Time,
    lost: set<string>,
    targetFloor: map<string, Time>,
    links: map<Follows.Key, Follows.Link>,
    loaded: bool)

  const FRESH_MEMORY := Memory(ZERO_TIME, {}, map[], map[], false)

  /** One call to the notifier and what it established. */
  datatype Call = Call(incident: nat, outcome: Outcome)

  datatype World = World(db: Db, mem: Memory, calls: seq<Call>)

  datatype Sighting = Sighting(obs: Observation, identity: string)

  /** One target's share of a pass. `outcomes` is what the notifier would answer
      about each condition; a transport that is not configured suppresses. */
  datatype Pass = Pass(
    target: string,
    provider: string,
    machine: string,
    transport: string,
    policy: Policy,
    sighting: Sighting,
    correlated: bool,
    now: Time,
    outcomes: map<Condition, Outcome>)

  function Answer(outcomes: map<Condition, Outcome>, c: Condition): Outcome {
    if c in outcomes then outcomes[c] else Suppressed
  }

  // ---- What a pass works out before it writes anything ----

  /** The run a sighting belongs to, advanced when the session was replaced. */
  function GenerationFor(prior: Option<StateRow>, identity: string): int {
    match prior
    case None => 1
    case Some(row) =>
      if identity == "" || row.session == "" || identity == row.session then row.generation
      else row.generation + 1
  }

  predicate Observed(s: Sighting) {
    s.obs.live || s.obs.statusKnown
  }

  /** Regaining sight of a target restarts its thresholds. */
  function Notice(mem: Memory, target: string, seen: bool, now: Time): Memory {
    if !seen then mem.(lost := mem.lost + {target})
    else if target in mem.lost then mem.(lost := mem.lost - {target}, targetFloor := mem.targetFloor[target := now])
    else mem
  }

  function TargetFloor(mem: Memory, target: string): Time {
    if target in mem.targetFloor then mem.targetFloor[target] else ZERO_TIME
  }

  /** The earliest moment a pass over `target` may measure from. */
  function FloorFor(mem: Memory, target: string): Time {
    LaterOf(mem.floor, TargetFloor(mem, target))
  }

  function PassGeneration(w: World, p: Pass): int {
    GenerationFor(RowFor(w.db, p.target), p.sighting.identity)
  }

  /** The observation as the policy is shown it. */
  function Shown(w: World, p: Pass): Observation {
    var mem := Notice(w.mem, p.target, Observed(p.sighting), p.now);
    var prior := RowFor(w.db, p.target);
    p.sighting.obs.(
      thresholdFloor := FloorFor(mem, p.target),
      exitRecorded := prior.Some? && prior.value.status == Exited && prior.value.generation == PassGeneration(w, p))
  }

  function PassDecision(w: World, p: Pass): Decision {
    Decide(Shown(w, p), p.policy, p.now)
  }

  /** A verified exit that is already the recorded state of the same run. */
  predicate IsRepeatTerminal(prior: Option<StateRow>, s: Sighting, generation: int) {
    && prior.Some?
    && s.obs.statusKnown && s.obs.status == Exited
    && prior.value.status == Exited && prior.value.generation == generation
  }

  /** Nothing is left to say about an open incident. */
  predicate Quieted(incs: seq<Incident>, deliveries: map<nat, Delivery.Record>, id: nat, maxAttempts: int)
    requires id < |incs|
  {
    incs[id].notifiedAt.Some? || !Delivery.ShouldAttempt(deliveries, id, maxAttempts)
  }

  /** Applying the decision would change nothing: every condition it opens is
      open already with no delivery due, nothing it closes is open, and nothing
      of a superseded run is. */
  ghost predicate Settled(db: Db, target: string, d: Decision, g: int, maxAttempts: int) {
    && (forall c :: c in d.open ==>
          && FindOpen(db.incs, target, c, g).Some?
          && Quieted(db.incs, db.deliveries, FindOpen(db.incs, target, c, g).value, maxAttempts))
    && (forall i :: 0 <= i < |db.incs| ==> !Swept(db.incs[i], target, g, d.close))
  }

  // ---- What a pass writes ----

  function EventOf(p: Pass, generation: int): Event {
    Event(p.target, ObservationEvent, p.provider, p.machine, p.now, p.sighting.identity, generation,
          if p.sighting.obs.statusKnown then p.sighting.obs.status else Unstated,
          p.sighting.obs.reason, p.sighting.obs.visibility, p.correlated)
  }

  /** Tells the orchestrator about an incident, if it should hear. */
  function Deliver(w: World, p: Pass, c: Condition, id: nat, maxAttempts: int): World
    requires id < |w.db.incs|
  {
    if !Delivery.ShouldAttempt(w.db.deliveries, id, maxAttempts) then w
    else
      var outcome := Answer(p.outcomes, c);
      var db := w.db.(deliveries := Delivery.RecordAttempt(w.db.deliveries, id, p.transport, outcome, p.now));
      w.(calls := w.calls + [Call(id, outcome)],
         db := if outcome == Delivered
               then db.(incs := db.incs[id := Stamped(db.incs[id], Notifying, p.now)])
               else db)
  }

  /** Opens or touches one condition's incident, and announces it unless it has
      got through already. */
  ghost function OpenOne(w: World, p: Pass, g: int, c: Condition, maxAttempts: int): World {
    var id := TouchedId(w.db.incs, p.target, c, g);
    var incs := OpenOrTouch(w.db.incs, p.target, c, g, p.now);
    var opened' := w.(db := w.db.(incs := incs));
    if incs[id].notifiedAt.None? then Deliver(opened', p, c, id, maxAttempts) else opened'
  }

  ghost function OpenFirst(w: World, p: Pass, g: int, open: seq<Condition>, n: nat, maxAttempts: int): World
    requires n <= |open|
  {
    if n == 0 then w
    else OpenOne(OpenFirst(w, p, g, open, n - 1, maxAttempts), p, g, open[n - 1], maxAttempts)
  }

  ghost function Applied(w: World, p: Pass, d: Decision, g: int, maxAttempts: int): World {
    var o := OpenFirst(w, p, g, d.open, |d.open|, maxAttempts);
    o.(db := o.db.(incs := Sweep(o.db.incs, p.target, g, d.close, p.now)))
  }

  // ---- Steps ----

  datatype Step =
    | Floor(now: Time)                          // a wake, or every target lost at once
    | Load(rows: seq<Follows.Row>)              // the first pass reads the recorded follows
    | Follow(link: Follows.Link, event: Event)  // a session continued under a new id
    | Observe(pass: Pass)                       // one target's share of a pass
    | Ack(id: nat, at: Time)                    // the orchestrator has seen an alert
    | Unask(target: string, at: Time)           // the policy stopped asking about overdue
    | Restart                                   // the process ended and began again

  /** One target's share of a pass. With `skipping`, a settled repeat of a
      verified exit writes nothing; without, every pass is written. */
  ghost function ObserveTarget(w: World, p: Pass, maxAttempts: int, skipping: bool): World {
    var g := PassGeneration(w, p);
    var d := PassDecision(w, p);
    var noticed := w.(mem := Notice(w.mem, p.target, Observed(p.sighting), p.now));
    if skipping && IsRepeatTerminal(RowFor(w.db, p.target), p.sighting, g) && Settled(w.db, p.target, d, g, maxAttempts) then
      noticed
    else
      Applied(noticed.(db := Recorded(w.db, EventOf(p, g))), p, d, g, maxAttempts)
  }

  ghost function Take(w: World, s: Step, maxAttempts: int, skipping: bool): World {
    match s
    case Floor(now) => w.(mem := w.mem.(floor := now))
    case Load(rows) => if w.mem.loaded then w else w.(mem := w.mem.(links := Follows.Replay(rows), loaded := true))
    case Follow(f, e) =>
      w.(db := FollowRecorded(w.db, f, e), mem := w.mem.(links := Follows.Remember(w.mem.links, f)))
    case Observe(p) => ObserveTarget(w, p, maxAttempts, skipping)
    case Ack(id, at) =>
      if id < |w.db.incs| then
        w.(db := w.db.(incs := w.db.incs[id := Stamped(w.db.incs[id], Acknowledging, at)]))
      else w
    case Unask(target, at) => w.(db := w.db.(incs := DropOverdue(w.db.incs, target, at)))
    case Restart => w.(mem := FRESH_MEMORY)
  }

  ghost function Run(w: World, steps: seq<Step>, maxAttempts: int, skipping: bool): World {
    if steps == [] then w
    else Take(Run(w, steps[..|steps| - 1], maxAttempts, skipping), steps[|steps| - 1], maxAttempts, skipping)
  }

  // ---- Facts every proof about runs uses ----

  /** Applying a decision touches the incidents, the deliveries and the calls
      and nothing else. */
  ghost predicate OnlyIncidents(w: World, v: World) {
    && v.mem == w.mem
    && v.db.log == w.db.log && v.db.states == w.db.states && v.db.follows == w.db.follows
    && |w.db.incs| <= |v.db.incs|
    && w.calls <= v.calls
  }

  lemma OpenOneOnlyIncidents(w: World, p: Pass, g: int, c: Condition, maxAttempts: int)
    ensures OnlyIncidents(w, OpenOne(w, p, g, c, maxAttempts))
  {
  }

  lemma {:induction false} OpenFirstOnlyIncidents(w: World, p: Pass, g: int, open: seq<Condition>, n: nat, maxAttempts: int)
    requires n <= |open|
    ensures OnlyIncidents(w, OpenFirst(w, p, g, open, n, maxAttempts))
  {
    if n > 0 {
      OpenFirstOnlyIncidents(w, p, g, open, n - 1, maxAttempts);
      OpenOneOnlyIncidents(OpenFirst(w, p, g, open, n - 1, maxAttempts), p, g, open[n - 1], maxAttempts);
    }
  }

  lemma AppliedOnlyIncidents(w: World, p: Pass, d: Decision, g: int, maxAttempts: int)
    ensures OnlyIncidents(w, Applied(w, p, d, g, maxAttempts))
  {
    OpenFirstOnlyIncidents(w, p, g, d.open, |d.open|, maxAttempts);
  }

  lemma RunOneMore(w: World, steps: seq<Step>, s: Step, maxAttempts: int, skipping: bool)
    ensures Run(w, steps + [s], maxAttempts, skipping) == Take(Run(w, steps, maxAttempts, skipping), s, maxAttempts, skipping)
  {
    assert (steps + [s])[..|steps|] == steps;
  }

  lemma TakingAPass(w: World, p: Pass, maxAttempts: int, skipping: bool)
    ensures Take(w, Observe(p), maxAttempts, skipping) == ObserveTarget(w, p, maxAttempts, skipping)
  {
  }

  lemma RunNothing(w: World, maxAttempts: int, skipping: bool)
    ensures Run(w, [], maxAttempts, skipping) == w
  {
  }

  lemma {:induction false} RunInTwo(w: World, a: seq<Step>, b: seq<Step>, maxAttempts: int, skipping: bool)
    ensures Run(w, a + b, maxAttempts, skipping) == Run(Run(w, a, maxAttempts, skipping), b, maxAttempts, skipping)
  {
    hide Take, Run;
    if b == [] {
      assert a + b == a;
      RunNothing(Run(w, a, maxAttempts, skipping), maxAttempts, skipping);
    } else {
      var rest, last := b[..|b| - 1], b[|b| - 1];
      RunInTwo(w, a, rest, maxAttempts, skipping);
      RunOneMore(w, a + rest, last, maxAttempts, skipping);
      RunOneMore(Run(w, a, maxAttempts, skipping), rest, last, maxAttempts, skipping);
      assert b == rest + [last];
      assert a + b == (a + rest) + [last];
    }
  }
}
