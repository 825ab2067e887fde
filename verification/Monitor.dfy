/** The monitor itself: an object that runs passes over its targets, each of its
    methods shown to take exactly the steps of the state machine. */
module Monitor {
  import opened Domain
  import opened Config
  import opened Attention
  import opened TargetState
  import opened Incidents
  import opened Store
  import opened W = World
  import Follows
  import Wake

  /** A process that answers under a new session id. */
  datatype Moved = Moved(fromId: string, toId: string, pid: int, procStart: string)

  /** What an observer answers about a target: what it saw, or why not. */
  datatype Look = Saw(sighting: Sighting, moved: Option<Moved>) | Blind(reason: string)

  /** The one honest answer of a missing observer and of a failing one. */
  function Unobserved(reason: string): Sighting {
    Sighting(Observation(false, UnknownStatus, false, ZERO_TIME, ZERO_TIME, reason, "", false, ZERO_TIME), "")
  }

  function SightingOf(l: Look): Sighting {
    match l
    case Saw(s, _) => s
    case Blind(reason) => Unobserved(reason)
  }

  function MovedOf(l: Look): Option<Moved> {
    match l
    case Saw(_, moved) => moved
    case Blind(_) => None
  }

  function LinkOf(target: string, f: Moved, now: Time): Follows.Link {
    Follows.Link(target, f.fromId, f.toId, f.pid, f.procStart, now)
  }

  /** The announcement of a follow. It asserts neither a status nor a reason. */
  function FollowEvent(t: Target, machine: string, identity: string, generation: int, now: Time): Event {
    Event(t.id, SessionFollowed, t.provider, machine, now, identity, generation, Unstated, "", "", false)
  }

  /** Where a target is looked for this pass: as configured while that is there
      to be seen, else where its id has been followed to. */
  function LookedFor(links: map<Follows.Key, Follows.Link>, t: Target, observe: Target -> Look): Target {
    var resolved := Follows.Chase(links, t, {});
    if resolved.attachment.session == t.attachment.session then t
    else if observe(t).Saw? && observe(t).sighting.obs.live && observe(t).moved.None? then t
    else resolved
  }

  function AnswersFor(answers: map<string, map<Condition, Outcome>>, target: string): map<Condition, Outcome> {
    if target in answers then answers[target] else map[]
  }

  // ---- What one pass looks at ----

  /** How far a pass has got in looking at its targets: what each answered, the
      follows made, and where the targets and the links then stand. */
  datatype Sighted = Sighted(
    looks: seq<Look>,
    targets: seq<Target>,
    links: map<Follows.Key, Follows.Link>,
    follows: seq<Step>)

  /** Looks at one more target, with the links as they now stand. */
  function SightOne(s: Sighted, t: Target, observe: Target -> Look, states: map<string, StateRow>, machine: string, now: Time): Sighted {
    var at := LookedFor(s.links, t, observe);
    var look := observe(at);
    match MovedOf(look)
    case None => Sighted(s.looks + [look], s.targets + [at], s.links, s.follows)
    case Some(f) =>
      var link, identity := LinkOf(t.id, f, now), SightingOf(look).identity;
      var prior := if t.id in states then Some(states[t.id]) else None;
      Sighted(s.looks + [look], s.targets + [Follows.MoveTo(at, link)], Follows.Remember(s.links, link),
              s.follows + [Step.Follow(link, FollowEvent(at, machine, identity, GenerationFor(prior, identity), now))])
  }

  function SightFirst(links: map<Follows.Key, Follows.Link>, targets: seq<Target>, n: nat, observe: Target -> Look,
                      states: map<string, StateRow>, machine: string, now: Time): (s: Sighted)
    requires n <= |targets|
    ensures |s.looks| == |s.targets| == n
  {
    if n == 0 then Sighted([], [], links, [])
    else SightOne(SightFirst(links, targets, n - 1, observe, states, machine, now), targets[n - 1], observe, states, machine, now)
  }

  lemma SightOneMore(links: map<Follows.Key, Follows.Link>, targets: seq<Target>, n: nat, observe: Target -> Look,
                     states: map<string, StateRow>, machine: string, now: Time)
    requires n < |targets|
    ensures SightFirst(links, targets, n + 1, observe, states, machine, now)
         == SightOne(SightFirst(links, targets, n, observe, states, machine, now), targets[n], observe, states, machine, now)
  {
  }

  /** There under the id it was configured with. */
  predicate FoundLive(l: Look) {
    l.Saw? && l.sighting.obs.live && l.moved.None?
  }

  /** The configured session wins whenever it is itself there to be seen; only when it
      is not does a recorded follow decide, and then the chase has the last word. */
  lemma TheConfiguredSessionWins(links: map<Follows.Key, Follows.Link>, t: Target, observe: Target -> Look)
    ensures FoundLive(observe(t)) ==> LookedFor(links, t, observe) == t
    ensures !FoundLive(observe(t)) ==> LookedFor(links, t, observe) == Follows.Chase(links, t, {})
  {
    Follows.ResolvingMovesExactly(links, t);
  }

  /** The target is asked where it is configured, and if nothing is found live there,
      where the links lead; what it answers is the look, and where it was asked is
      where it is watched, unless it says the session moved. */
  predicate AskedAt(links: map<Follows.Key, Follows.Link>, t: Target, observe: Target -> Look, now: Time, look: Look, after: Target) {
    var at := if FoundLive(observe(t)) then t else Follows.Chase(links, t, {});
    && look == observe(at)
    && match look
       case Blind(_) => after == at
       case Saw(_, None) => after == at
       case Saw(_, Some(f)) =>
         && after.attachment.session == f.toId
         && (if f.pid != 0 && f.procStart != ""
             then after.attachment.pid == f.pid && after.attachment.procStart == f.procStart
             else after.attachment.pid == at.attachment.pid && after.attachment.procStart == at.attachment.procStart)
         && SameWatch(after, at)
  }

  /** The announcement of a move and its link, made when the look says it moved. */
  predicate Announced(s: Step, t: Target, look: Look, row: Option<StateRow>, machine: string, now: Time) {
    && look.Saw? && look.moved.Some?
    && var f, identity := look.moved.value, look.sighting.identity;
       && s.Follow? && s.link == Follows.Link(t.id, f.fromId, f.toId, f.pid, f.procStart, now)
       && s.event.target == t.id && s.event.kind == SessionFollowed && s.event.at == now
       && s.event.source == t.provider && s.event.machine == machine && s.event.session == identity
       && s.event.generation == (if row.None? then 1
                                 else if identity == "" || row.value.session in {"", identity} then row.value.generation
                                 else row.value.generation + 1)
       && s.event.status == Unstated && s.event.reason == ""
  }

  predicate RowIs(states: map<string, StateRow>, id: string, row: Option<StateRow>) {
    row == if id in states then Some(states[id]) else None
  }

  /** One more target sighted: asked as described, and its move announced if it says
      it moved, remembered from then on. */
  lemma OneTargetIsAsked(s: Sighted, t: Target, observe: Target -> Look, states: map<string, StateRow>, machine: string, now: Time)
    ensures var r := SightOne(s, t, observe, states, machine, now);
            && |r.looks| == |s.looks| + 1 && |r.targets| == |s.targets| + 1
            && r.looks[..|s.looks|] == s.looks && r.targets[..|s.targets|] == s.targets
            && AskedAt(s.links, t, observe, now, r.looks[|s.looks|], r.targets[|s.targets|])
            && (MovedOf(r.looks[|s.looks|]).None? ==> r.follows == s.follows && r.links == s.links)
            && (MovedOf(r.looks[|s.looks|]).Some? ==>
                  && |r.follows| == |s.follows| + 1 && r.follows[..|s.follows|] == s.follows
                  && (forall row :: RowIs(states, t.id, row) ==> Announced(r.follows[|s.follows|], t, r.looks[|s.looks|], row, machine, now))
                  && r.links == Follows.Remember(s.links, r.follows[|s.follows|].link))
  {
    TheConfiguredSessionWins(s.links, t, observe);
    Follows.ChasingOnlyMoves(s.links, t, {});
    hide LookedFor, Follows.Chase;
  }

  /** The k-th target was asked with what `before` it was known, and so it is still
      said by `s`. */
  ghost predicate AskedInTurn(before: Sighted, s: Sighted, t: Target, k: nat, observe: Target -> Look,
                              states: map<string, StateRow>, machine: string, now: Time)
  {
    && k < |s.looks| && k < |s.targets|
    && AskedAt(before.links, t, observe, now, s.looks[k], s.targets[k])
    && before.follows <= s.follows
    && (MovedOf(s.looks[k]).Some? ==>
          && |before.follows| < |s.follows|
          && forall row :: RowIs(states, t.id, row) ==>
               Announced(s.follows[|before.follows|], t, s.looks[k], row, machine, now))
  }

  ghost predicate MoreSighted(s: Sighted, r: Sighted) {
    s.looks <= r.looks && s.targets <= r.targets && s.follows <= r.follows
  }

  lemma StillAskedInTurn(before: Sighted, s: Sighted, r: Sighted, t: Target, k: nat, observe: Target -> Look,
                         states: map<string, StateRow>, machine: string, now: Time)
    requires AskedInTurn(before, s, t, k, observe, states, machine, now) && MoreSighted(s, r)
    ensures AskedInTurn(before, r, t, k, observe, states, machine, now)
  {
    hide AskedAt, Announced;
  }

  lemma SightingOneAdds(s: Sighted, t: Target, observe: Target -> Look, states: map<string, StateRow>, machine: string, now: Time)
    ensures MoreSighted(s, SightOne(s, t, observe, states, machine, now))
    ensures |s.looks| == |s.targets| ==>
              AskedInTurn(s, SightOne(s, t, observe, states, machine, now), t, |s.looks|, observe, states, machine, now)
  {
    OneTargetIsAsked(s, t, observe, states, machine, now);
    hide SightOne, AskedAt, Announced;
    var r := SightOne(s, t, observe, states, machine, now);
    assert s.follows <= r.follows;
  }

  /** So every target of a pass is asked, with the links as they stand by then: those
      remembered and those the targets before it made. */
  lemma {:induction false} EveryTargetIsAsked(links: map<Follows.Key, Follows.Link>, targets: seq<Target>, n: nat, k: nat,
                                              observe: Target -> Look, states: map<string, StateRow>, machine: string, now: Time)
    requires k < n <= |targets|
    ensures AskedInTurn(SightFirst(links, targets, k, observe, states, machine, now),
                        SightFirst(links, targets, n, observe, states, machine, now),
                        targets[k], k, observe, states, machine, now)
  {
    var prior := SightFirst(links, targets, n - 1, observe, states, machine, now);
    SightOneMore(links, targets, n - 1, observe, states, machine, now);
    SightingOneAdds(prior, targets[n - 1], observe, states, machine, now);
    hide SightOne, AskedInTurn, MoreSighted;
    if k < n - 1 {
      EveryTargetIsAsked(links, targets, n - 1, k, observe, states, machine, now);
      StillAskedInTurn(SightFirst(links, targets, k, observe, states, machine, now), prior,
                       SightFirst(links, targets, n, observe, states, machine, now), targets[k], k, observe, states, machine, now);
    }
  }

  lemma SightingOneIsOrderly(s: Sighted, t: Target, observe: Target -> Look, states: map<string, StateRow>, machine: string, now: Time)
    ensures var r := SightOne(s, t, observe, states, machine, now);
            && |r.targets| == |s.targets| + 1 && r.targets[..|s.targets|] == s.targets && SameWatch(r.targets[|s.targets|], t)
            && s.follows <= r.follows
            && forall k :: |s.follows| <= k < |r.follows| ==> FollowMade(r.follows[k], now)
  {
    Follows.ChasingOnlyMoves(s.links, t, {});
  }

  lemma {:induction false} SightingIsOrderly(links: map<Follows.Key, Follows.Link>, targets: seq<Target>, n: nat,
                                             observe: Target -> Look, states: map<string, StateRow>, machine: string, now: Time)
    requires n <= |targets|
    ensures var s := SightFirst(links, targets, n, observe, states, machine, now);
            && (forall k :: 0 <= k < n ==> SameWatch(s.targets[k], targets[k]))
            && (forall k :: 0 <= k < |s.follows| ==> FollowMade(s.follows[k], now))
  {
    hide SightOne, SameWatch, FollowMade;
    if n > 0 {
      SightingIsOrderly(links, targets, n - 1, observe, states, machine, now);
      var s := SightFirst(links, targets, n - 1, observe, states, machine, now);
      SightingOneIsOrderly(s, targets[n - 1], observe, states, machine, now);
      var r := SightFirst(links, targets, n, observe, states, machine, now);
      forall k | 0 <= k < n - 1 ensures r.targets[k] == s.targets[k] {
        assert r.targets[..|s.targets|][k] == s.targets[k];
      }
    }
  }

  /** Nobody was seen. */
  predicate NoneSeen(looks: seq<Look>) {
    forall k :: 0 <= k < |looks| ==> !Observed(SightingOf(looks[k]))
  }

  lemma NoneSeenInMore(looks: seq<Look>, l: Look)
    ensures NoneSeen(looks + [l]) <==> NoneSeen(looks) && !Observed(SightingOf(l))
  {
    hide SightingOf;
    assert (looks + [l])[|looks|] == l;
    assert forall k :: 0 <= k < |looks| ==> (looks + [l])[k] == looks[k];
  }

  /** The loop over the targets, when `n` have been looked at. */
  ghost predicate SightedSoFar(links: map<Follows.Key, Follows.Link>, given: seq<Target>, observe: Target -> Look,
                               states: map<string, StateRow>, machine: string, now: Time,
                               s: Sighted, looks: seq<Look>, targets: seq<Target>)
  {
    && |looks| <= |given| == |targets|
    && s == SightFirst(links, given, |looks|, observe, states, machine, now)
    && looks == s.looks
    && targets == s.targets + given[|looks|..]
  }

  lemma NoneYet(links: map<Follows.Key, Follows.Link>, given: seq<Target>, observe: Target -> Look,
                states: map<string, StateRow>, machine: string, now: Time)
    ensures SightedSoFar(links, given, observe, states, machine, now, Sighted([], [], links, []), [], given)
    ensures NoneSeen([])
  {
  }

  lemma SightedWithin(links: map<Follows.Key, Follows.Link>, given: seq<Target>, observe: Target -> Look,
                      states: map<string, StateRow>, machine: string, now: Time,
                      s: Sighted, looks: seq<Look>, targets: seq<Target>)
    requires SightedSoFar(links, given, observe, states, machine, now, s, looks, targets)
    ensures |looks| <= |targets|
  {
  }

  lemma NextIsAsGiven(links: map<Follows.Key, Follows.Link>, given: seq<Target>, observe: Target -> Look,
                      states: map<string, StateRow>, machine: string, now: Time,
                      s: Sighted, looks: seq<Look>, targets: seq<Target>)
    requires SightedSoFar(links, given, observe, states, machine, now, s, looks, targets) && |looks| < |targets|
    ensures |targets| == |given| && targets[|looks|] == given[|looks|]
  {
  }

  lemma SightedOneMore(links: map<Follows.Key, Follows.Link>, given: seq<Target>, observe: Target -> Look,
                       states: map<string, StateRow>, machine: string, now: Time,
                       s: Sighted, looks: seq<Look>, targets: seq<Target>, l: Look, after: Sighted, t: Target)
    requires SightedSoFar(links, given, observe, states, machine, now, s, looks, targets) && |looks| < |targets|
    requires after == SightOne(s, targets[|looks|], observe, states, machine, now)
    requires after.looks == s.looks + [l] && after.targets == s.targets + [t]
    ensures SightedSoFar(links, given, observe, states, machine, now, after, looks + [l], targets[|looks| := t])
  {
    hide SightOne, SightFirst;
    SightOneMore(links, given, |looks|, observe, states, machine, now);
  }

  lemma SightedAll(links: map<Follows.Key, Follows.Link>, given: seq<Target>, observe: Target -> Look,
                   states: map<string, StateRow>, machine: string, now: Time,
                   s: Sighted, looks: seq<Look>, targets: seq<Target>)
    requires SightedSoFar(links, given, observe, states, machine, now, s, looks, targets) && |looks| == |targets|
    ensures s == SightFirst(links, given, |given|, observe, states, machine, now) && looks == s.looks && targets == s.targets
  {
  }

  /** One target's share of a pass, as it is put together from its look. */
  function PassFor(t: Target, l: Look, machine: string, transport: string, correlated: bool, now: Time,
                   answers: map<string, map<Condition, Outcome>>): Pass {
    Pass(t.id, t.provider, machine, transport, t.policy, SightingOf(l), correlated, now, AnswersFor(answers, t.id))
  }

  function PassesFor(s: Sighted, machine: string, transport: string, correlated: bool, now: Time,
                     answers: map<string, map<Condition, Outcome>>): (r: seq<Step>)
    requires |s.looks| == |s.targets|
    ensures |r| == |s.targets|
    ensures forall k :: 0 <= k < |r| ==>
              r[k] == Observe(PassFor(s.targets[k], s.looks[k], machine, transport, correlated, now, answers))
  {
    seq(|s.targets|, k requires 0 <= k < |s.targets| =>
      Observe(PassFor(s.targets[k], s.looks[k], machine, transport, correlated, now, answers)))
  }

  /** The steps of a whole pass, given what it read and what was looked at. */
  function StepsOfTick(jumped: bool, rows: seq<Follows.Row>, s: Sighted, machine: string, transport: string,
                       now: Time, answers: map<string, map<Condition, Outcome>>): seq<Step>
    requires |s.looks| == |s.targets|
  {
    var lost := |s.targets| > 1 && NoneSeen(s.looks);
    (if jumped then [Floor(now)] else []) + [Load(rows)] + s.follows
    + (if lost then [Floor(now)] else []) + PassesFor(s, machine, transport, lost, now, answers)
  }

  // ---- The steps of one pass ----

  /** The same target, wherever it is attached. */
  predicate SameWatch(a: Target, b: Target) {
    a == b.(attachment := a.attachment)
  }

  /** One pass's share for each of the first `n` targets, all at one moment. */
  ghost predicate PassesOver(steps: seq<Step>, targets: seq<Target>, n: nat, correlated: bool, now: Time) {
    && n <= |targets| && |steps| == n
    && forall i :: 0 <= i < n ==> PassOver(steps[i], targets[i], correlated, now)
  }

  predicate PassOver(s: Step, t: Target, correlated: bool, now: Time) {
    && s.Observe?
    && s.pass.target == t.id && s.pass.policy == t.policy && s.pass.provider == t.provider
    && s.pass.correlated == correlated && s.pass.now == now
  }

  /** A follow made in this pass, announced by an event that asserts nothing. */
  predicate FollowMade(s: Step, now: Time) {
    s.Follow? && s.link.at == now && s.event.at == now && s.event.status == Unstated && s.event.reason == ""
  }

  /** What comes before the passes: a wake if one was noticed, the recorded
      follows, and the follows made just now. */
  ghost predicate Preamble(steps: seq<Step>, jumped: bool, now: Time) {
    var skip := if jumped then 2 else 1;
    && |steps| >= skip
    && (jumped ==> steps[0] == Floor(now))
    && steps[skip - 1].Load?
    && forall k :: skip <= k < |steps| ==> FollowMade(steps[k], now)
  }

  /** A loss of every target at once, when there is more than one. */
  ghost predicate AllLost(passes: seq<Step>) {
    |passes| > 1 && forall i :: 0 <= i < |passes| ==> passes[i].Observe? && !Observed(passes[i].pass.sighting)
  }

  /** One pass over `targets`: the preamble, a floor if everything was lost, and
      then every target once, in order. */
  ghost predicate IsTick(steps: seq<Step>, targets: seq<Target>, jumped: bool, now: Time) {
    exists pre, passes :: IsTickOf(steps, pre, passes, targets, jumped, now)
  }

  ghost predicate IsTickOf(steps: seq<Step>, pre: seq<Step>, passes: seq<Step>, targets: seq<Target>, jumped: bool, now: Time) {
    && Preamble(pre, jumped, now)
    && PassesOver(passes, targets, |targets|, AllLost(passes), now)
    && steps == pre + (if AllLost(passes) then [Floor(now)] else []) + passes
  }

  // ---- Specifications of the loops below ----

  /** After resolving among the first `k` of the open incidents. */
  ghost predicate SweptSoFar(was: Db, now: Db, open: seq<nat>, k: nat, p: Pass, d: Decision, g: int) {
    && k <= |open|
    && now == was.(incs := now.incs)
    && |now.incs| == |was.incs|
    && forall i: nat :: i < |was.incs| ==>
         now.incs[i] == if i in open[..k] then SweepOne(was.incs[i], p.target, g, d.close, p.now) else was.incs[i]
  }

  /** The open incidents of one run, by condition. */
  ghost predicate OfRun(incs: seq<Incident>, ids: seq<nat>, g: int, current: map<Condition, nat>) {
    && (forall c :: c in current ==>
          && current[c] in ids && current[c] < |incs|
          && incs[current[c]].generation == g && incs[current[c]].condition == c)
    && (forall i: nat :: i in ids && i < |incs| && incs[i].generation == g ==> incs[i].condition in current)
  }

  ghost predicate NothingOwed(db: Db, target: string, c: Condition, g: int, maxAttempts: int) {
    && FindOpen(db.incs, target, c, g).Some?
    && Quieted(db.incs, db.deliveries, FindOpen(db.incs, target, c, g).value, maxAttempts)
  }

  /** Every open incident of the target by condition, for one run of it. */
  method OfThisRun(incs: seq<Incident>, open: seq<nat>, g: int) returns (current: map<Condition, nat>)
    requires forall i: nat :: i in open ==> i < |incs|
    ensures OfRun(incs, open, g, current)
  {
    current := map[];
    var k := 0;
    while k < |open|
      invariant 0 <= k <= |open|
      invariant OfRun(incs, open[..k], g, current)
    {
      assert open[k] in open;
      assert forall i: nat :: i in open[..k + 1] <==> i in open[..k] || i == open[k];
      if incs[open[k]].generation == g {
        current := current[incs[open[k]].condition := open[k]];
      }
      k := k + 1;
    }
    assert open[..k] == open;
  }

  lemma CurrentIsFound(incs: seq<Incident>, open: seq<nat>, current: map<Condition, nat>, target: string, c: Condition, g: int)
    requires UniqueOpen(incs)
    requires forall i: nat :: i in open <==> OpenFor(incs, target, i)
    requires OfRun(incs, open, g, current)
    ensures FindOpen(incs, target, c, g) == if c in current then Some(current[c]) else None
  {
    if c in current {
      assert current[c] in open;
      FindOpenFinds(incs, current[c]);
    } else if FindOpen(incs, target, c, g).Some? {
      assert OpenFor(incs, target, FindOpen(incs, target, c, g).value);
    }
  }

  lemma NothingToSweep(incs: seq<Incident>, open: seq<nat>, current: map<Condition, nat>, target: string, d: Decision, g: int)
    requires forall i: nat :: i in open <==> OpenFor(incs, target, i)
    requires OfRun(incs, open, g, current)
    requires forall j :: 0 <= j < |open| ==> open[j] < |incs| && incs[open[j]].generation >= g
    requires forall j :: 0 <= j < |d.close| ==> d.close[j] !in current
    ensures forall i :: 0 <= i < |incs| ==> !Swept(incs[i], target, g, d.close)
  {
    forall i: nat | i < |incs| ensures !Swept(incs[i], target, g, d.close) {
      if OpenFor(incs, target, i) {
        assert i in open;
        if incs[i].generation == g {
          assert incs[i].condition in current;
        }
      }
    }
  }

  /** The links once the first pass has read them. */
  function LinksRead(loaded: bool, links: map<Follows.Key, Follows.Link>, rows: seq<Follows.Row>): map<Follows.Key, Follows.Link> {
    if loaded then links else Follows.Replay(rows)
  }

  predicate Jumps(baseline: Option<Wake.Reading>, threshold: int, now: Time, mono: int) {
    baseline.Some? && Wake.Jump(baseline.value, Wake.Reading(now, mono), threshold)
  }

  lemma TickIsWhole(jumped: bool, rows: seq<Follows.Row>, s: Sighted, machine: string, transport: string,
                    now: Time, answers: map<string, map<Condition, Outcome>>)
    requires |s.looks| == |s.targets| && forall k :: 0 <= k < |s.follows| ==> FollowMade(s.follows[k], now)
    ensures IsTick(StepsOfTick(jumped, rows, s, machine, transport, now, answers), s.targets, jumped, now)
  {
    var lost := |s.targets| > 1 && NoneSeen(s.looks);
    var pre := (if jumped then [Floor(now)] else []) + [Load(rows)] + s.follows;
    var passes := PassesFor(s, machine, transport, lost, now, answers);
    assert Preamble(pre, jumped, now);
    assert forall k :: 0 <= k < |passes| ==> PassOver(passes[k], s.targets[k], lost, now);
    assert forall k :: 0 <= k < |passes| ==> passes[k].pass.sighting == SightingOf(s.looks[k]);
    assert AllLost(passes) == lost;
    assert IsTickOf(StepsOfTick(jumped, rows, s, machine, transport, now, answers), pre, passes, s.targets, jumped, now);
  }

  class Monitor {
    const machine: string
    const transport: string
    const maxAttempts: int
    const store: Store
    const wake: Wake.Detector
    var targets: seq<Target>
    var floor: Time
    var lost: set<string>
    var targetFloor: map<string, Time>
    var links: map<Follows.Key, Follows.Link>
    var loaded: bool
    ghost var calls: seq<Call>

    ghost predicate Valid()
      reads this, store
    {
      store.Valid()
    }

    ghost function View(): World
      reads this, store
    {
      World(store.View(), Memory(floor, lost, targetFloor, links, loaded), calls)
    }

    /** A process that has just begun, over a store that may be old. */
    constructor (machine: string, transport: string, maxAttempts: int, store: Store, targets: seq<Target>, ghost calls: seq<Call>)
      requires store.Valid()
      ensures Valid() && fresh(this) && fresh(wake)
      ensures this.store == store && this.targets == targets && this.maxAttempts == maxAttempts
      ensures View() == World(store.View(), FRESH_MEMORY, calls)
      ensures wake.threshold == 60000 && wake.Baseline() == None
    {
      this.machine, this.transport, this.maxAttempts, this.store := machine, transport, maxAttempts, store;
      this.targets, this.calls := targets, calls;
      wake := new Wake.Detector(60000);
      floor, lost, targetFloor, links, loaded := ZERO_TIME, {}, map[], map[], false;
    }

    method Deliver(p: Pass, c: Condition, id: nat)
      requires Valid() && id < |store.incs|
      modifies this`calls, store
      ensures Valid() && View() == W.Deliver(old(View()), p, c, id, maxAttempts)
    {
      var should := store.ShouldAttemptDelivery(id, maxAttempts);
      if !should {
        return;
      }
      var outcome := Answer(p.outcomes, c);
      calls := calls + [Call(id, outcome)];
      store.RecordDelivery(id, p.transport, outcome, p.now);
      if outcome == Delivered {
        var _ := store.StampIncident(id, Notifying, p.now);
      }
    }

    /** Opens and announces what the decision opens, then resolves what it closes
        and whatever a superseded run left open. */
    method ApplyDecision(p: Pass, d: Decision, g: int)
      requires Valid()
      modifies this`calls, store
      ensures Valid() && View() == Applied(old(View()), p, d, g, maxAttempts)
    {
      hide OpenOne, Sweep;
      ghost var w := View();
      var n := 0;
      while n < |d.open|
        invariant 0 <= n <= |d.open|
        invariant Valid() && View() == OpenFirst(w, p, g, d.open, n, maxAttempts)
      {
        OpenAndAnnounce(p, d.open[n], g);
        n := n + 1;
      }
      CloseOut(p, d, g);
    }

    method OpenAndAnnounce(p: Pass, c: Condition, g: int)
      requires Valid()
      modifies this`calls, store
      ensures Valid() && View() == OpenOne(old(View()), p, g, c, maxAttempts)
    {
      var id, isNew := store.OpenOrTouchIncident(p.target, c, g, p.now);
      if isNew || store.incs[id].notifiedAt.None? {
        Deliver(p, c, id);
      }
    }

    method CloseOut(p: Pass, d: Decision, g: int)
      requires Valid()
      modifies store
      ensures Valid()
      ensures View() == old(View()).(db := old(View()).db.(incs := Sweep(old(View()).db.incs, p.target, g, d.close, p.now)))
    {
      var incs := store.incs;
      ghost var db := store.View();
      var open := OpenIncidents(incs, p.target);
      var k := 0;
      while k < |open|
        invariant 0 <= k <= |open|
        invariant Valid() && SweptSoFar(db, store.View(), open, k, p, d, g)
      {
        var id := open[k];
        assert id in open;
        if incs[id].generation < g {
          var _ := store.StampIncident(id, Resolving, p.now);
        } else {
          CloseOne(p, d, g, id, incs[id]);
        }
        assert forall i: nat :: i in open[..k + 1] <==> i in open[..k] || i == id;
        k := k + 1;
      }
      assert open[..k] == open;
      assert store.incs == Sweep(incs, p.target, g, d.close, p.now);
    }

    /** Goes through what is to be closed for one open incident of this run or a
        later one. */
    method CloseOne(p: Pass, d: Decision, g: int, id: nat, inc: Incident)
      requires Valid() && id < |store.incs|
      requires store.incs[id] == inc || store.incs[id] == Resolved(inc, p.now)
      modifies store
      ensures Valid()
      ensures store.View() == old(store.View()).(incs := old(store.incs)[id :=
                if inc.generation == g && inc.condition in d.close then Resolved(inc, p.now) else old(store.incs[id])])
    {
      var j := 0;
      while j < |d.close|
        invariant 0 <= j <= |d.close|
        invariant Valid()
        invariant store.View() == old(store.View()).(incs := old(store.incs)[id :=
                    if inc.generation == g && inc.condition in d.close[..j] then Resolved(inc, p.now) else old(store.incs[id])])
      {
        if inc.condition == d.close[j] && inc.generation == g {
          var _ := store.StampIncident(id, Resolving, p.now);
        }
        assert d.close[..j + 1] == d.close[..j] + [d.close[j]];
        j := j + 1;
      }
      assert d.close[..j] == d.close;
    }

    /** Whether applying the decision would change nothing, found out by reading
        alone. */
    method IsSettled(target: string, d: Decision, g: int) returns (settled: bool)
      requires Valid()
      ensures settled <==> Settled(store.View(), target, d, g, maxAttempts)
    {
      var incs := store.incs;
      var open := OpenIncidents(incs, target);
      assert forall j :: 0 <= j < |open| ==> open[j] in open && open[j] < |incs|;
      var current := OfThisRun(incs, open, g);

      var n := 0;
      while n < |d.open|
        invariant 0 <= n <= |d.open|
        invariant forall m :: 0 <= m < n ==> NothingOwed(store.View(), target, d.open[m], g, maxAttempts)
      {
        var c := d.open[n];
        CurrentIsFound(incs, open, current, target, c, g);
        if c !in current {
          assert !NothingOwed(store.View(), target, d.open[n], g, maxAttempts);
          return false;
        }
        if incs[current[c]].notifiedAt.None? {
          var should := store.ShouldAttemptDelivery(current[c], maxAttempts);
          if should {
            assert !NothingOwed(store.View(), target, d.open[n], g, maxAttempts);
            return false;
          }
        }
        n := n + 1;
      }

      var k := 0;
      while k < |open|
        invariant 0 <= k <= |open|
        invariant forall j :: 0 <= j < k ==> incs[open[j]].generation >= g
      {
        assert open[k] in open;
        if incs[open[k]].generation < g {
          assert Swept(incs[open[k]], target, g, d.close);
          return false;
        }
        k := k + 1;
      }

      var m := 0;
      while m < |d.close|
        invariant 0 <= m <= |d.close|
        invariant forall j :: 0 <= j < m ==> d.close[j] !in current
      {
        if d.close[m] in current {
          assert Swept(incs[current[d.close[m]]], target, g, d.close);
          return false;
        }
        m := m + 1;
      }
      NothingToSweep(incs, open, current, target, d, g);
      return true;
    }

    /** One target's share of a pass. */
    method ObserveTarget(p: Pass)
      requires Valid()
      modifies this`lost, this`targetFloor, this`calls, store
      ensures Valid() && View() == W.ObserveTarget(old(View()), p, maxAttempts, true)
    {
      var prior := store.TargetState(p.target);
      var generation := GenerationFor(prior, p.sighting.identity);

      if Observed(p.sighting) {
        if p.target in lost {
          targetFloor, lost := targetFloor[p.target := p.now], lost - {p.target};
        }
      } else {
        lost := lost + {p.target};
      }
      assert View() == old(View()).(mem := Notice(old(View()).mem, p.target, Observed(p.sighting), p.now));

      var own := if p.target in targetFloor then targetFloor[p.target] else ZERO_TIME;
      var shown := p.sighting.obs.(
        thresholdFloor := LaterOf(floor, own),
        exitRecorded := prior.Some? && prior.value.status == Exited && prior.value.generation == generation);
      var decision := Evaluate(shown, p.policy, p.now);
      assert decision == PassDecision(old(View()), p);

      if IsRepeatTerminal(prior, p.sighting, generation) {
        var settled := IsSettled(p.target, decision, generation);
        if settled {
          return;
        }
      }
      var _, _ := store.Record(EventOf(p, generation));
      ApplyDecision(p, decision, generation);
    }

    /** Replays the stored links into memory, the first time it is called. */
    method LoadFollows() returns (ghost rows: seq<Follows.Row>)
      requires Valid()
      modifies this`links, this`loaded
      ensures Valid() && View() == Take(old(View()), Load(rows), maxAttempts, true)
      ensures !old(loaded) ==> Follows.ReplayOrder(store.follows, rows)
      ensures links == LinksRead(old(loaded), old(links), rows)
    {
      if loaded {
        return [];
      }
      var recorded := Follows.ReadFollows(store.follows);
      rows := recorded;
      links := map[];
      var i := 0;
      while i < |recorded|
        invariant 0 <= i <= |recorded|
        invariant links == Follows.Replay(recorded[..i])
      {
        assert recorded[..i + 1][..i] == recorded[..i];
        links := Follows.Remember(links, recorded[i].link);
        i := i + 1;
      }
      assert recorded[..i] == recorded;
      loaded := true;
    }

    /** Looks at a target where it is configured, and elsewhere only if its id leads
        elsewhere and nothing live was found. */
    method SightResolved(i: nat, observe: Target -> Look) returns (l: Look)
      requires i < |targets|
      modifies this`targets
      ensures targets == old(targets)[i := LookedFor(links, old(targets)[i], observe)]
      ensures targets[i] == if FoundLive(observe(old(targets)[i])) then old(targets)[i] else Follows.Chase(links, old(targets)[i], {})
      ensures SameWatch(targets[i], old(targets)[i])
      ensures l == observe(targets[i])
    {
      var resolved, changed := Follows.ResolveFollows(links, targets[i]);
      Follows.ChasingOnlyMoves(links, targets[i], {});
      TheConfiguredSessionWins(links, targets[i], observe);
      if !changed {
        return observe(targets[i]);
      }
      var first := observe(targets[i]);
      if first.Saw? && first.sighting.obs.live && first.moved.None? {
        return first;
      }
      targets := targets[i := resolved];
      return observe(resolved);
    }

    /** Announces a follow, stores and remembers its link, and moves the target. */
    method Follow(i: nat, s: Sighting, f: Moved, now: Time) returns (ghost step: Step)
      requires Valid() && i < |targets|
      modifies this`links, this`targets, store
      ensures Valid() && View() == Take(old(View()), step, maxAttempts, true)
      ensures step == Step.Follow(LinkOf(old(targets)[i].id, f, now), FollowEvent(old(targets)[i], machine, s.identity,
                GenerationFor(RowFor(old(View()).db, old(targets)[i].id), s.identity), now))
      ensures targets == old(targets)[i := Follows.MoveTo(old(targets)[i], step.link)]
      ensures links == Follows.Remember(old(links), step.link) && store.states == old(store.states)
    {
      var t := targets[i];
      var prior := store.TargetState(t.id);
      var link := LinkOf(t.id, f, now);
      var event := FollowEvent(t, machine, s.identity, GenerationFor(prior, s.identity), now);
      store.RecordFollow(link, event);
      links := Follows.Remember(links, link);
      targets := targets[i := Follows.MoveTo(t, link)];
      step := Step.Follow(link, event);
    }

    /** Looks at the i-th target, and follows it where its session went. */
    method SightNext(i: nat, observe: Target -> Look, now: Time, ghost w: World, ghost before: Sighted)
      returns (l: Look, ghost after: Sighted)
      requires Valid() && i < |targets| && links == before.links
      requires View() == Run(w, before.follows, maxAttempts, true)
      modifies this`links, this`targets, store
      ensures Valid() && View() == Run(w, after.follows, maxAttempts, true)
      ensures after == SightOne(before, old(targets)[i], observe, old(store.states), machine, now)
      ensures |targets| == |old(targets)|
      ensures after.looks == before.looks + [l] && after.targets == before.targets + [targets[i]] && after.links == links
      ensures targets == old(targets)[i := targets[i]] && store.states == old(store.states)
    {
      hide Take, LookedFor, Run;
      l := SightResolved(i, observe);
      ghost var at := targets[i];
      after := Sighted(before.looks + [l], before.targets + [at], links, before.follows);
      var moved := MovedOf(l);
      if moved.Some? {
        ghost var step := Follow(i, SightingOf(l), moved.value, now);
        RunOneMore(w, before.follows, step, maxAttempts, true);
        after := Sighted(before.looks + [l], before.targets + [targets[i]], links, before.follows + [step]);
      }
    }

    /** Sights every target, moving those whose session changed. */
    method SightAll(observe: Target -> Look, now: Time) returns (looks: seq<Look>, learned: nat, ghost sighted: Sighted)
      requires Valid()
      modifies this`links, this`targets, store
      ensures Valid() && View() == Run(old(View()), sighted.follows, maxAttempts, true)
      ensures sighted == SightFirst(old(links), old(targets), |old(targets)|, observe, old(store.states), machine, now)
      ensures looks == sighted.looks && targets == sighted.targets && links == sighted.links
      ensures learned == 0 <==> NoneSeen(looks)
    {
      hide Take, Run, SightOne, SightingOf, Observed, SightFirst;
      looks, learned := [], 0;
      sighted := Sighted([], [], links, []);
      ghost var w, links0, given, states := View(), links, targets, store.states;
      RunNothing(w, maxAttempts, true);
      NoneYet(links, targets, observe, states, machine, now);
      hide NoneSeen, SightedSoFar;
      while |looks| < |targets|
        invariant Valid() && View() == Run(w, sighted.follows, maxAttempts, true)
        invariant SightedSoFar(links0, given, observe, states, machine, now, sighted, looks, targets)
        invariant links == sighted.links && store.states == states
        invariant learned == 0 <==> NoneSeen(looks)
        invariant |targets| == |given|
        decreases |targets| - |looks|
      {
        ghost var before, was := sighted, targets;
        NextIsAsGiven(links0, given, observe, states, machine, now, sighted, looks, targets);
        var l;
        l, sighted := SightNext(|looks|, observe, now, w, sighted);
        SightedOneMore(links0, given, observe, states, machine, now, before, looks, was, l, sighted, targets[|looks|]);
        NoneSeenInMore(looks, l);
        if Observed(SightingOf(l)) {
          learned := learned + 1;
        }
        looks := looks + [l];
      }
      assert |looks| == |targets| by { SightedWithin(links0, given, observe, states, machine, now, sighted, looks, targets); }
      SightedAll(links0, given, observe, states, machine, now, sighted, looks, targets);
    }

    /** Gives every target its share of the pass. */
    method ObserveAll(looks: seq<Look>, correlated: bool, now: Time, answers: map<string, map<Condition, Outcome>>)
      returns (ghost passes: seq<Step>)
      requires Valid() && |looks| == |targets|
      modifies this`lost, this`targetFloor, this`calls, store
      ensures Valid() && View() == Run(old(View()), passes, maxAttempts, true)
      ensures |passes| == |targets|
      ensures forall k :: 0 <= k < |passes| ==>
                passes[k] == Observe(PassFor(targets[k], looks[k], machine, transport, correlated, now, answers))
    {
      hide W.ObserveTarget, Take;
      passes := [];
      ghost var w := View();
      var i := 0;
      while i < |targets|
        invariant 0 <= i <= |targets| && |passes| == i
        invariant Valid() && View() == Run(w, passes, maxAttempts, true)
        invariant forall k :: 0 <= k < i ==>
                    passes[k] == Observe(PassFor(targets[k], looks[k], machine, transport, correlated, now, answers))
      {
        var p := PassFor(targets[i], looks[i], machine, transport, correlated, now, answers);
        TakingAPass(View(), p, maxAttempts, true);
        ObserveTarget(p);
        RunOneMore(w, passes, Observe(p), maxAttempts, true);
        passes := passes + [Observe(p)];
        i := i + 1;
      }
    }

    /** Restarts every threshold at the wake, when the clocks say there was one. */
    method NoticeWake(now: Time, mono: int) returns (ghost jumped: bool, ghost steps: seq<Step>)
      requires Valid()
      modifies this`floor, wake
      ensures Valid() && View() == Run(old(View()), steps, maxAttempts, true)
      ensures jumped == Jumps(old(wake.Baseline()), wake.threshold, now, mono)
      ensures steps == if jumped then [Floor(now)] else []
    {
      hide W.ObserveTarget;
      ghost var w := View();
      var j, _, from := wake.Check(now, mono);
      jumped, steps := j, [];
      if j {
        floor := from;
        RunOneMore(w, [], Floor(now), maxAttempts, true);
        steps := [Floor(now)];
        assert [] + [Floor(now)] == steps;
      }
    }

    method Begin(now: Time, mono: int) returns (ghost jumped: bool, ghost rows: seq<Follows.Row>, ghost steps: seq<Step>)
      requires Valid()
      modifies this`floor, this`links, this`loaded, wake
      ensures Valid() && View() == Run(old(View()), steps, maxAttempts, true)
      ensures jumped == Jumps(old(wake.Baseline()), wake.threshold, now, mono)
      ensures steps == (if jumped then [Floor(now)] else []) + [Load(rows)]
      ensures !old(loaded) ==> Follows.ReplayOrder(store.follows, rows)
      ensures links == LinksRead(old(loaded), old(links), rows)
    {
      hide Take, Run, Jumps;
      ghost var w := View();
      ghost var j, woke := NoticeWake(now, mono);
      rows := LoadFollows();
      RunOneMore(w, woke, Load(rows), maxAttempts, true);
      jumped, steps := j, woke + [Load(rows)];
    }

    /** Stops measuring across a pass in which everything was lost. */
    method LoseAll(correlated: bool, now: Time) returns (ghost steps: seq<Step>)
      requires Valid()
      modifies this`floor
      ensures Valid() && View() == Run(old(View()), steps, maxAttempts, true)
      ensures steps == if correlated then [Floor(now)] else []
    {
      hide W.ObserveTarget;
      steps := [];
      if correlated {
        ghost var w := View();
        floor := now;
        RunOneMore(w, [], Floor(now), maxAttempts, true);
        steps := [Floor(now)];
        assert [] + [Floor(now)] == steps;
      }
    }

    /** One observation pass: exactly a tick of the state machine, made of what the
        clocks said, what was read, what `observe` answered about each target where
        it was looked for, and what the notifier would answer. */
    method Tick(now: Time, mono: int, observe: Target -> Look, answers: map<string, map<Condition, Outcome>>)
      returns (ghost steps: seq<Step>, ghost rows: seq<Follows.Row>)
      requires Valid()
      modifies this, wake, store
      ensures Valid() && View() == Run(old(View()), steps, maxAttempts, true)
      ensures var sighted := SightFirst(LinksRead(old(loaded), old(links), rows), old(targets), |old(targets)|, observe,
                                        old(store.states), machine, now);
              && targets == sighted.targets
              && steps == StepsOfTick(Jumps(old(wake.Baseline()), wake.threshold, now, mono), rows, sighted, machine,
                                      transport, now, answers)
      ensures !old(loaded) ==> Follows.ReplayOrder(old(store.follows), rows)
      ensures |targets| == |old(targets)| && forall k :: 0 <= k < |targets| ==> SameWatch(targets[k], old(targets)[k])
      ensures IsTick(steps, targets, Jumps(old(wake.Baseline()), wake.threshold, now, mono), now)
    {
      hide W.ObserveTarget, Run, Take, SightFirst;
      ghost var w := View();
      ghost var jumped, read, first := Begin(now, mono);
      rows := read;
      SightingIsOrderly(links, targets, |targets|, observe, store.states, machine, now);
      var looks, learned, sighted := SightAll(observe, now);
      RunInTwo(w, first, sighted.follows, maxAttempts, true);
      ghost var pre := first + sighted.follows;
      assert View() == Run(w, pre, maxAttempts, true);

      var correlated := |targets| > 1 && learned == 0;
      ghost var gap := LoseAll(correlated, now);
      RunInTwo(w, pre, gap, maxAttempts, true);

      ghost var passes := ObserveAll(looks, correlated, now, answers);
      RunInTwo(w, pre + gap, passes, maxAttempts, true);
      steps := pre + gap + passes;
      assert passes == PassesFor(sighted, machine, transport, correlated, now, answers);
      TickIsWhole(jumped, rows, sighted, machine, transport, now, answers);
    }
  }
}
