/** A session that has exited is observed for as long as it is watched. However
    long that is, the feed says so a bounded number of times. */
module Storm {
  import opened Domain
  import opened Config
  import opened Attention
  import opened TargetState
  import opened Incidents
  import opened EventLog
  import opened Store
  import opened World
  import opened Skipping
  import opened Conditions
  import opened Announcements
  import Delivery

  /** How many events of the feed are about a target. */
  function CountFor(feed: seq<Event>, target: string): nat {
    if feed == [] then 0
    else CountFor(feed[..|feed| - 1], target) + if feed[|feed| - 1].target == target then 1 else 0
  }

  lemma CountOneMore(feed: seq<Event>, e: Event, target: string)
    ensures CountFor(feed + [e], target) == CountFor(feed, target) + if e.target == target then 1 else 0
  {
    assert (feed + [e])[..|feed|] == feed;
  }

  /** A pass that sights this verified exit, under this policy. */
  predicate SightsExit(p: Pass, target: string, identity: string, policy: Policy) {
    && p.target == target && p.policy == policy
    && p.sighting.identity == identity
    && p.sighting.obs.statusKnown && p.sighting.obs.status == Exited
  }

  /** Nothing happens to the target but passes that sight its exit. Anything may
      happen to the others, and acknowledgements and restarts to all. */
  predicate OnlyTheExit(s: Step, target: string, identity: string, policy: Policy) {
    match s
    case Observe(p) => p.target == target ==> SightsExit(p, target, identity, policy)
    case Follow(f, e) => e.target != target
    case _ => true
  }

  /** The exit is on record for run g, and nothing it closes is open. */
  ghost predicate OnRecord(w: World, target: string, identity: string, policy: Policy, g: int) {
    && target in w.db.states
    && w.db.states[target].status == Exited
    && w.db.states[target].generation == g
    && GenerationFor(Some(w.db.states[target]), identity) == g
    && (forall i :: 0 <= i < |w.db.incs| ==> Leftover(w.db.incs[i], target, policy, g))
    && (policy.AlertsOn(Exit) ==> IsOpen(w.db.incs, target, Exit, g))
  }

  /** An incident an exit of run g has nothing to do about. */
  predicate Leftover(i: Incident, target: string, policy: Policy, g: int) {
    i.target == target && i.resolvedAt.None? ==>
      && i.generation >= g
      && (i.generation == g && policy.AlertsOn(i.condition) ==> i.condition == Exit)
  }

  /** How many more passes may be written for the delivery still owed. */
  function OwedOn(table: map<nat, Delivery.Record>, id: nat, notified: bool, maxAttempts: int): nat {
    if notified || !Delivery.ShouldAttempt(table, id, maxAttempts) then 0
    else if id !in table then Bound(maxAttempts)
    else maxAttempts - table[id].attempts
  }

  ghost function Owed(w: World, target: string, policy: Policy, g: int, maxAttempts: int): nat {
    var f := FindOpen(w.db.incs, target, Exit, g);
    if !policy.AlertsOn(Exit) || f.None? then 0
    else OwedOn(w.db.deliveries, f.value, w.db.incs[f.value].notifiedAt.Some?, maxAttempts)
  }

  // ---- A pass over the exit ----

  lemma ExitDecisionList(o: Observation, p: Policy, now: Time)
    requires VerifiedExit(o)
    ensures Decide(o, p, now).open == if p.AlertsOn(Exit) then [Exit] else []
    ensures forall c :: c in Decide(o, p, now).close <==> c != Exit && p.AlertsOn(c)
  {
    forall c ensures c in Decide(o, p, now).close <==> c != Exit && p.AlertsOn(c) {
      ExitDecision(o, p, now, c);
    }
  }

  /** With the exit on record and nothing owed, a pass is skipped. */
  lemma NothingOwedIsSettled(w: World, p: Pass, identity: string, policy: Policy, g: int, maxAttempts: int)
    requires SightsExit(p, p.target, identity, policy) && OnRecord(w, p.target, identity, policy, g)
    requires Owed(w, p.target, policy, g, maxAttempts) == 0
    ensures ObserveTarget(w, p, maxAttempts, true).db == w.db
  {
    ExitDecisionList(Shown(w, p), policy, p.now);
    var d := PassDecision(w, p);
    forall i | 0 <= i < |w.db.incs| ensures !Swept(w.db.incs[i], p.target, g, d.close) {
      assert Leftover(w.db.incs[i], p.target, policy, g);
    }
    if policy.AlertsOn(Exit) {
      var i :| 0 <= i < |w.db.incs| && IsOpenFor(w.db.incs[i], p.target, Exit, g);
    }
    assert Settled(w.db, p.target, d, g, maxAttempts);
  }

  /** Announcing pays off one pass of what was owed. */
  lemma AnnouncingPays(w: World, p: Pass, g: int, maxAttempts: int)
    requires UniqueOpen(w.db.incs) && AllAccounted(w, maxAttempts)
    ensures var v := OpenOne(w, p, g, Exit, maxAttempts);
            var id := TouchedId(w.db.incs, p.target, Exit, g);
            && id < |v.db.incs| && IsOpenFor(v.db.incs[id], p.target, Exit, g)
            && OwedOn(v.db.deliveries, id, v.db.incs[id].notifiedAt.Some?, maxAttempts) < Bound(maxAttempts)
            && (var f := FindOpen(w.db.incs, p.target, Exit, g);
                f.Some? && OwedOn(w.db.deliveries, id, w.db.incs[id].notifiedAt.Some?, maxAttempts) > 0 ==>
                  OwedOn(v.db.deliveries, id, v.db.incs[id].notifiedAt.Some?, maxAttempts)
                    < OwedOn(w.db.deliveries, id, w.db.incs[id].notifiedAt.Some?, maxAttempts))
  {
    var id := TouchedId(w.db.incs, p.target, Exit, g);
    if id < |w.db.incs| {
      assert Accounted(w.db.deliveries, id, w.db.incs[id].notifiedAt.Some?, OutcomesOf(w.calls, id), maxAttempts);
    }
  }

  /** What writing a pass over the exit leaves. */
  lemma WritingPays(w: World, p: Pass, identity: string, policy: Policy, maxAttempts: int)
    requires SightsExit(p, p.target, identity, policy)
    requires UniqueOpen(w.db.incs) && AllAccounted(w, maxAttempts) && Before(w, p.target, p.now)
    requires 0 < p.now
    ensures var g := PassGeneration(w, p);
            var v := ObserveTarget(w, p, maxAttempts, false);
            && OnRecord(v, p.target, identity, policy, g)
            && Owed(v, p.target, policy, g, maxAttempts) < Bound(maxAttempts)
            && (Owed(w, p.target, policy, g, maxAttempts) > 0 ==>
                  Owed(v, p.target, policy, g, maxAttempts) < Owed(w, p.target, policy, g, maxAttempts))
            && CountFor(v.db.log.history, p.target) == CountFor(w.db.log.history, p.target) + 1
  {
    var g, d := PassGeneration(w, p), PassDecision(w, p);
    var e := EventOf(p, g);
    var written := w.(mem := Notice(w.mem, p.target, Observed(p.sighting), p.now), db := Recorded(w.db, e));
    var v := ObserveTarget(w, p, maxAttempts, false);
    assert v == Applied(written, p, d, g, maxAttempts);
    AppliedOnlyIncidents(written, p, d, g, maxAttempts);
    CountOneMore(w.db.log.history, e, p.target);
    PassReflects(w, p, maxAttempts, false);
    ExitDecisionList(Shown(w, p), policy, p.now);
    LeavesOnlyTheExit(v.db.incs, p.target, policy, d, g);
    AnnouncedAlike(w, written, maxAttempts);
    OwedAfterWriting(written, p, policy, d, g, maxAttempts);
  }

  lemma LeavesOnlyTheExit(incs: seq<Incident>, target: string, policy: Policy, d: Decision, g: int)
    requires Reflects(incs, target, d, g)
    requires forall c :: c in d.close <==> c != Exit && policy.AlertsOn(c)
    ensures forall i :: 0 <= i < |incs| ==> Leftover(incs[i], target, policy, g)
  {
    forall i | 0 <= i < |incs| ensures Leftover(incs[i], target, policy, g) {
      if IsOpenFor(incs[i], target, incs[i].condition, g) {
        assert IsOpen(incs, target, incs[i].condition, g);
      }
    }
  }

  lemma OwedAfterWriting(w: World, p: Pass, policy: Policy, d: Decision, g: int, maxAttempts: int)
    requires UniqueOpen(w.db.incs) && AllAccounted(w, maxAttempts)
    requires d.open == if policy.AlertsOn(Exit) then [Exit] else []
    requires forall c :: c in d.close <==> c != Exit && policy.AlertsOn(c)
    ensures var v := Applied(w, p, d, g, maxAttempts);
            && Owed(v, p.target, policy, g, maxAttempts) < Bound(maxAttempts)
            && (Owed(w, p.target, policy, g, maxAttempts) > 0 ==>
                  Owed(v, p.target, policy, g, maxAttempts) < Owed(w, p.target, policy, g, maxAttempts))
  {
    if policy.AlertsOn(Exit) {
      var v := Applied(w, p, d, g, maxAttempts);
      assert OpenFirst(w, p, g, d.open, 0, maxAttempts) == w;
      var o := OpenOne(w, p, g, Exit, maxAttempts);
      assert OpenFirst(w, p, g, d.open, 1, maxAttempts) == o;
      AnnouncingPays(w, p, g, maxAttempts);
      OpenOneKeepsTheIndex(w, p, g, Exit, maxAttempts);
      SweepAlike(o.db.incs, o.db.incs, p.target, g, d.close, p.now);
      var id := TouchedId(w.db.incs, p.target, Exit, g);
      assert v.db.incs[id] == o.db.incs[id];
      FindOpenFinds(v.db.incs, id);
    }
  }

  // ---- Steps that are not about the target ----

  ghost predicate SameFor(w: World, v: World, target: string) {
    && RowFor(w.db, target) == RowFor(v.db, target)
    && CountFor(w.db.log.history, target) == CountFor(v.db.log.history, target)
    && (forall i :: 0 <= i < |w.db.incs| && w.db.incs[i].target == target ==>
          i < |v.db.incs| && SameExitIncident(w.db.incs[i], v.db.incs[i]))
    && (forall i :: 0 <= i < |v.db.incs| && v.db.incs[i].target == target ==> i < |w.db.incs| && w.db.incs[i].target == target)
    && (forall id: nat :: id < |w.db.incs| && w.db.incs[id].target == target ==>
          (id in v.db.deliveries <==> id in w.db.deliveries)
          && (id in w.db.deliveries ==> v.db.deliveries[id] == w.db.deliveries[id]))
  }

  /** Equal but for the acknowledgement, and perhaps resolved if overdue. */
  predicate SameExitIncident(a: Incident, b: Incident) {
    && b.target == a.target && b.condition == a.condition && b.generation == a.generation
    && b.notifiedAt == a.notifiedAt
    && (b.resolvedAt == a.resolvedAt || (a.condition == Overdue && b.resolvedAt.Some?))
  }

  lemma SameForKeeps(w: World, v: World, target: string, identity: string, policy: Policy, g: int, maxAttempts: int)
    requires SameFor(w, v, target) && UniqueOpen(v.db.incs) && OnRecord(w, target, identity, policy, g)
    ensures OnRecord(v, target, identity, policy, g)
    ensures Owed(v, target, policy, g, maxAttempts) == Owed(w, target, policy, g, maxAttempts)
  {
    forall i | 0 <= i < |v.db.incs| ensures Leftover(v.db.incs[i], target, policy, g) {
      if v.db.incs[i].target == target {
        assert Leftover(w.db.incs[i], target, policy, g) && SameExitIncident(w.db.incs[i], v.db.incs[i]);
      }
    }
    var f := FindOpen(w.db.incs, target, Exit, g);
    if f.Some? {
      assert SameExitIncident(w.db.incs[f.value], v.db.incs[f.value]);
      assert IsOpenFor(v.db.incs[f.value], target, Exit, g);
      FindOpenFinds(v.db.incs, f.value);
    }
    if policy.AlertsOn(Exit) {
      var i :| 0 <= i < |w.db.incs| && IsOpenFor(w.db.incs[i], target, Exit, g);
    }
  }

  lemma AnotherPassIsNotAboutIt(w: World, p: Pass, target: string, maxAttempts: int)
    requires p.target != target
    ensures SameFor(w, ObserveTarget(w, p, maxAttempts, true), target)
  {
    var v := ObserveTarget(w, p, maxAttempts, true);
    APassIsAboutItsTarget(w, p, maxAttempts, true);
    assert CountFor(v.db.log.history, target) == CountFor(w.db.log.history, target) by {
      var g, d := PassGeneration(w, p), PassDecision(w, p);
      var noticed := w.(mem := Notice(w.mem, p.target, Observed(p.sighting), p.now));
      AppliedOnlyIncidents(noticed.(db := Recorded(w.db, EventOf(p, g))), p, d, g, maxAttempts);
      CountOneMore(w.db.log.history, EventOf(p, g), target);
    }
    hide ObserveTarget;
    forall i | 0 <= i < |w.db.incs| && w.db.incs[i].target == target
      ensures i < |v.db.incs| && SameExitIncident(w.db.incs[i], v.db.incs[i])
    {
      assert v.db.incs[i] == w.db.incs[i];
    }
  }

  lemma OtherStepsAreNotAboutIt(w: World, s: Step, target: string, identity: string, policy: Policy, maxAttempts: int)
    requires OnlyTheExit(s, target, identity, policy)
    requires s.Observe? ==> s.pass.target != target
    ensures SameFor(w, Take(w, s, maxAttempts, true), target)
  {
    hide ObserveTarget, CountFor;
    if s.Observe? {
      hide SameFor;
      AnotherPassIsNotAboutIt(w, s.pass, target, maxAttempts);
    } else if s.Follow? {
      CountOneMore(w.db.log.history, s.event, target);
    }
  }

  // ---- Any run ----

  /** The exit is on record for run g, and what was written for it and what is
      still owed are together within the bound. */
  ghost predicate Covered(w: World, written: int, target: string, identity: string, policy: Policy, g: int, maxAttempts: int) {
    && OnRecord(w, target, identity, policy, g)
    && written + Owed(w, target, policy, g, maxAttempts) <= Bound(maxAttempts)
  }

  ghost predicate CoveredByAny(w: World, written: int, target: string, identity: string, policy: Policy, maxAttempts: int) {
    exists g :: Covered(w, written, target, identity, policy, g, maxAttempts)
  }

  /** Where the target stands when `written` events about it have been appended:
      not passed over yet, or covered. */
  ghost predicate WithinBound(w: World, written: int, target: string, identity: string, policy: Policy, maxAttempts: int) {
    written == 0 || CoveredByAny(w, written, target, identity, policy, maxAttempts)
  }

  function Written(w0: World, w: World, target: string): int {
    CountFor(w.db.log.history, target) - CountFor(w0.db.log.history, target)
  }

  lemma CoveredInThisRun(w: World, written: int, p: Pass, identity: string, policy: Policy, g: int, maxAttempts: int)
    requires SightsExit(p, p.target, identity, policy)
    requires Covered(w, written, p.target, identity, policy, g, maxAttempts)
    ensures g == PassGeneration(w, p)
  {
  }

  lemma OnePassWithinBound(w: World, written: int, p: Pass, identity: string, policy: Policy, maxAttempts: int)
    requires SightsExit(p, p.target, identity, policy)
    requires UniqueOpen(w.db.incs) && AllAccounted(w, maxAttempts) && Before(w, p.target, p.now) && 0 < p.now
    requires WithinBound(w, written, p.target, identity, policy, maxAttempts)
    ensures var v := ObserveTarget(w, p, maxAttempts, true);
            WithinBound(v, written + Written(w, v, p.target), p.target, identity, policy, maxAttempts)
  {
    hide ObserveTarget, AllAccounted, UniqueOpen, Before, Covered, Written;
    if CoveredByAny(w, written, p.target, identity, policy, maxAttempts) {
      var g :| Covered(w, written, p.target, identity, policy, g, maxAttempts);
      CoveredInThisRun(w, written, p, identity, policy, g, maxAttempts);
      CoveredStaysCovered(w, written, p, identity, policy, maxAttempts);
    } else {
      FirstPassIsCovered(w, p, identity, policy, maxAttempts);
    }
  }

  lemma CoveredStaysCovered(w: World, written: int, p: Pass, identity: string, policy: Policy, maxAttempts: int)
    requires SightsExit(p, p.target, identity, policy)
    requires UniqueOpen(w.db.incs) && AllAccounted(w, maxAttempts) && Before(w, p.target, p.now) && 0 < p.now
    requires Covered(w, written, p.target, identity, policy, PassGeneration(w, p), maxAttempts)
    ensures var v := ObserveTarget(w, p, maxAttempts, true);
            Covered(v, written + Written(w, v, p.target), p.target, identity, policy, PassGeneration(w, p), maxAttempts)
  {
    var g := PassGeneration(w, p);
    if Owed(w, p.target, policy, g, maxAttempts) == 0 {
      NothingOwedIsSettled(w, p, identity, policy, g, maxAttempts);
    } else {
      SkippedOrWritten(w, p, identity, policy, maxAttempts);
      WritingPays(w, p, identity, policy, maxAttempts);
    }
  }

  lemma FirstPassIsCovered(w: World, p: Pass, identity: string, policy: Policy, maxAttempts: int)
    requires SightsExit(p, p.target, identity, policy)
    requires UniqueOpen(w.db.incs) && AllAccounted(w, maxAttempts) && Before(w, p.target, p.now) && 0 < p.now
    ensures var v := ObserveTarget(w, p, maxAttempts, true);
            Covered(v, Written(w, v, p.target), p.target, identity, policy, PassGeneration(w, p), maxAttempts)
  {
    SkippedOrWritten(w, p, identity, policy, maxAttempts);
    WritingPays(w, p, identity, policy, maxAttempts);
  }

  lemma SkippedOrWritten(w: World, p: Pass, identity: string, policy: Policy, maxAttempts: int)
    requires SightsExit(p, p.target, identity, policy)
    ensures var v := ObserveTarget(w, p, maxAttempts, true);
            || v == ObserveTarget(w, p, maxAttempts, false)
            || (&& v.db == w.db
                && OnRecord(v, p.target, identity, policy, PassGeneration(w, p))
                && Owed(v, p.target, policy, PassGeneration(w, p), maxAttempts) == 0
                && Owed(w, p.target, policy, PassGeneration(w, p), maxAttempts) == 0)
  {
    if ObserveTarget(w, p, maxAttempts, true).db == w.db {
      SkippedIsOnRecord(w, p, identity, policy, maxAttempts);
    }
  }

  /** A pass that was skipped had the exit on record and nothing owed. */
  lemma SkippedIsOnRecord(w: World, p: Pass, identity: string, policy: Policy, maxAttempts: int)
    requires SightsExit(p, p.target, identity, policy)
    requires ObserveTarget(w, p, maxAttempts, true).db == w.db
    ensures OnRecord(w, p.target, identity, policy, PassGeneration(w, p))
    ensures Owed(w, p.target, policy, PassGeneration(w, p), maxAttempts) == 0
    ensures CountFor(ObserveTarget(w, p, maxAttempts, true).db.log.history, p.target) == CountFor(w.db.log.history, p.target)
  {
    var g, d := PassGeneration(w, p), PassDecision(w, p);
    var noticed := w.(mem := Notice(w.mem, p.target, Observed(p.sighting), p.now));
    AppliedOnlyIncidents(noticed.(db := Recorded(w.db, EventOf(p, g))), p, d, g, maxAttempts);
    assert |Recorded(w.db, EventOf(p, g)).log.history| > |w.db.log.history|;
    assert IsRepeatTerminal(RowFor(w.db, p.target), p.sighting, g) && Settled(w.db, p.target, d, g, maxAttempts);
    ExitDecisionList(Shown(w, p), policy, p.now);
    SettledReflects(w.db, p.target, d, g, maxAttempts);
    LeavesOnlyTheExit(w.db.incs, p.target, policy, d, g);
    if policy.AlertsOn(Exit) {
      assert d.open[0] == Exit && Exit in d.open;
    }
  }

  lemma StepWithinBound(w: World, written: int, s: Step, target: string, identity: string, policy: Policy, maxAttempts: int)
    requires OnlyTheExit(s, target, identity, policy)
    requires UniqueOpen(w.db.incs) && AllAccounted(w, maxAttempts)
    requires s.Observe? && s.pass.target == target ==> 0 < s.pass.now && Before(w, target, s.pass.now)
    requires WithinBound(w, written, target, identity, policy, maxAttempts)
    requires UniqueOpen(Take(w, s, maxAttempts, true).db.incs)
    ensures var v := Take(w, s, maxAttempts, true);
            WithinBound(v, written + Written(w, v, target), target, identity, policy, maxAttempts)
  {
    hide WithinBound, ObserveTarget, AllAccounted, UniqueOpen, Before, SameFor, Written;
    if s.Observe? && s.pass.target == target {
      OnePassWithinBound(w, written, s.pass, identity, policy, maxAttempts);
    } else {
      OtherStepsAreNotAboutIt(w, s, target, identity, policy, maxAttempts);
      OthersKeepTheBound(w, Take(w, s, maxAttempts, true), written, target, identity, policy, maxAttempts);
    }
  }

  lemma OthersKeepTheBound(w: World, v: World, written: int, target: string, identity: string, policy: Policy, maxAttempts: int)
    requires SameFor(w, v, target) && UniqueOpen(v.db.incs)
    requires WithinBound(w, written, target, identity, policy, maxAttempts)
    ensures WithinBound(v, written + Written(w, v, target), target, identity, policy, maxAttempts)
  {
    if CoveredByAny(w, written, target, identity, policy, maxAttempts) {
      var g :| Covered(w, written, target, identity, policy, g, maxAttempts);
      SameForKeeps(w, v, target, identity, policy, g, maxAttempts);
      assert Covered(v, written, target, identity, policy, g, maxAttempts);
    }
  }

  lemma ReadyForTheLast(w0: World, steps: seq<Step>, target: string, maxAttempts: int)
    requires steps != [] && UniqueOpen(w0.db.incs) && AllAccounted(w0, maxAttempts) && Timely(w0, steps)
    ensures var w, s := Run(w0, steps[..|steps| - 1], maxAttempts, true), steps[|steps| - 1];
            && UniqueOpen(w.db.incs) && AllAccounted(w, maxAttempts)
            && UniqueOpen(Take(w, s, maxAttempts, true).db.incs)
            && (s.Observe? && s.pass.target == target ==> 0 < s.pass.now && Before(w, target, s.pass.now))
  {
    hide Take, AllAccounted, UniqueOpen, Timely, Before;
    var before, s := steps[..|steps| - 1], steps[|steps| - 1];
    TheIndexAlwaysHolds(w0, before, maxAttempts, true);
    TheIndexAlwaysHolds(w0, steps, maxAttempts, true);
    EveryCallIsAccountedFor(w0, before, maxAttempts, true);
    if s.Observe? && s.pass.target == target {
      LastIsLatest(w0, steps);
      RunStaysBefore(w0, before, target, s.pass.now, maxAttempts, true);
    }
  }

  /** Nothing happens to the target in these steps but its exit being sighted. */
  ghost predicate OnlyExits(steps: seq<Step>, target: string, identity: string, policy: Policy) {
    forall k :: 0 <= k < |steps| ==> OnlyTheExit(steps[k], target, identity, policy)
  }

  lemma OnlyExitsPrefix(steps: seq<Step>, target: string, identity: string, policy: Policy)
    requires steps != [] && OnlyExits(steps, target, identity, policy)
    ensures OnlyExits(steps[..|steps| - 1], target, identity, policy)
    ensures OnlyTheExit(steps[|steps| - 1], target, identity, policy)
  {
    hide OnlyTheExit;
  }

  lemma NothingWritten(w: World, target: string, identity: string, policy: Policy, maxAttempts: int)
    ensures WithinBound(w, Written(w, w, target), target, identity, policy, maxAttempts)
  {
  }

  lemma {:induction false} EveryRunIsWithinBound(w0: World, steps: seq<Step>, target: string, identity: string, policy: Policy, maxAttempts: int)
    requires UniqueOpen(w0.db.incs) && AllAccounted(w0, maxAttempts) && Timely(w0, steps)
    requires OnlyExits(steps, target, identity, policy)
    ensures var w := Run(w0, steps, maxAttempts, true);
            WithinBound(w, Written(w0, w, target), target, identity, policy, maxAttempts)
  {
    hide WithinBound, Take, AllAccounted, UniqueOpen, OnlyExits, OnlyTheExit, Timely, CountFor, Before;
    if steps == [] {
      RunNothing(w0, maxAttempts, true);
      NothingWritten(w0, target, identity, policy, maxAttempts);
    } else {
      var before, s := steps[..|steps| - 1], steps[|steps| - 1];
      TimelyPrefix(w0, steps);
      OnlyExitsPrefix(steps, target, identity, policy);
      EveryRunIsWithinBound(w0, before, target, identity, policy, maxAttempts);
      ReadyForTheLast(w0, steps, target, maxAttempts);
      var w := Run(w0, before, maxAttempts, true);
      StepWithinBound(w, Written(w0, w, target), s, target, identity, policy, maxAttempts);
    }
  }

  /** However many passes sight the same verified exit, under a policy that does
      not change, at most max(1, maxAttempts) events about it are appended. */
  lemma AnExitIsRecordedABoundedNumberOfTimes(
      w0: World, steps: seq<Step>, target: string, identity: string, policy: Policy, maxAttempts: int)
    requires UniqueOpen(w0.db.incs) && AllAccounted(w0, maxAttempts) && Timely(w0, steps)
    requires OnlyExits(steps, target, identity, policy)
    ensures CountFor(Run(w0, steps, maxAttempts, true).db.log.history, target)
         <= CountFor(w0.db.log.history, target) + Bound(maxAttempts)
  {
    EveryRunIsWithinBound(w0, steps, target, identity, policy, maxAttempts);
  }
}
