/** What was sighted is what is said: the entry a pass makes in the feed, and what it
    leaves believed of its target, by what the observer answered. */
module Sightings {
  import opened Domain
  import opened Config
  import opened Attention
  import opened TargetState
  import opened EventLog
  import opened Store
  import opened World
  import opened Monitor
  import opened Incidents
  import opened Conditions
  import opened Watching
  import Follows
  import Floors

  // ---- One pass ----

  /** The status a sighting asserts, if it could be read. */
  function Asserted(s: Sighting): Status {
    if s.obs.statusKnown then s.obs.status else Unstated
  }

  /** The run this sighting is of: the one on record, unless another session than the
      one on record was identified. */
  function RunOf(row: Option<StateRow>, identity: string): int {
    if row.None? then 1
    else row.value.generation + if identity != "" && row.value.session != "" && identity != row.value.session then 1 else 0
  }

  /** The entry says of the target what was sighted of it. */
  predicate Says(e: Event, p: Pass, run: int) {
    && e.target == p.target && e.kind == ObservationEvent && e.at == p.now
    && e.source == p.provider && e.machine == p.machine
    && e.session == p.sighting.identity && e.generation == run
    && e.status == Asserted(p.sighting)
    && e.reason == p.sighting.obs.reason && e.visibility == p.sighting.obs.visibility
    && e.correlatedLoss == p.correlated
  }

  /** The history grew by one entry, which says what was sighted. */
  predicate Reported(before: seq<Event>, after: seq<Event>, p: Pass, run: int) {
    |after| == |before| + 1 && before <= after && Says(after[|before|], p, run)
  }

  /** Sighted before, in the same run, as having exited: nothing new. */
  predicate SightedAgain(w: World, p: Pass) {
    && p.sighting.obs.statusKnown && p.sighting.obs.status == Exited
    && p.target in w.db.states && w.db.states[p.target].status == Exited
    && (p.sighting.identity == "" || w.db.states[p.target].session == ""
        || p.sighting.identity == w.db.states[p.target].session)
  }

  /** A pass either reports exactly what was sighted, or repeats an exit on record
      and touches nothing stored; and without skipping it always reports. */
  lemma APassReportsWhatWasSighted(w: World, p: Pass, maxAttempts: int, skipping: bool)
    ensures var v := ObserveTarget(w, p, maxAttempts, skipping);
            || Reported(w.db.log.history, v.db.log.history, p, RunOf(RowFor(w.db, p.target), p.sighting.identity))
            || (skipping && SightedAgain(w, p) && v.db == w.db && v.calls == w.calls)
  {
    PassInParts(w, p, maxAttempts, skipping);
    hide Applied, ObserveTarget, Decide, Settled;
  }

  lemma PassInParts(w: World, p: Pass, maxAttempts: int, skipping: bool)
    ensures var v, g := ObserveTarget(w, p, maxAttempts, skipping), PassGeneration(w, p);
            || (&& v.db.log == Append(w.db.log, EventOf(p, g))
                && v.db.states == Recorded(w.db, EventOf(p, g)).states)
            || (skipping && IsRepeatTerminal(RowFor(w.db, p.target), p.sighting, g) && v.db == w.db && v.calls == w.calls)
  {
    var g, d := PassGeneration(w, p), PassDecision(w, p);
    var noticed := w.(mem := Notice(w.mem, p.target, Observed(p.sighting), p.now));
    AppliedOnlyIncidents(noticed.(db := Recorded(w.db, EventOf(p, g))), p, d, g, maxAttempts);
    hide Applied, PassDecision, Settled;
  }

  // ---- What it is decided by ----

  /** Durations are measured from the last wake or loss of everything, or from when
      this target was last regained, this pass included. */
  function MeasuredSince(mem: Memory, p: Pass): Time {
    var own := if p.target in mem.lost && (p.sighting.obs.live || p.sighting.obs.statusKnown) then p.now
               else if p.target in mem.targetFloor then mem.targetFloor[p.target] else ZERO_TIME;
    if own > mem.floor then own else mem.floor
  }

  /** An exit of this very run is on record. */
  predicate ExitOnRecord(w: World, p: Pass) {
    && p.target in w.db.states && w.db.states[p.target].status == Exited
    && RunOf(RowFor(w.db, p.target), p.sighting.identity) == w.db.states[p.target].generation
  }

  /** A condition is opened, or closed, as the sighting has it, measured no further
      back than this monitor watched, and knowing of an exit seen before. */
  lemma APassDecidesByWhatIsKnown(w: World, p: Pass, c: Condition)
    ensures var o := p.sighting.obs.(thresholdFloor := MeasuredSince(w.mem, p), exitRecorded := ExitOnRecord(w, p));
            && (c in PassDecision(w, p).open <==> c in p.policy.alertOn && Opens(o, p.policy, p.now, c))
            && (c in PassDecision(w, p).close <==> c in p.policy.alertOn && !Opens(o, p.policy, p.now, c))
  {
    EachOpensFromOneMoment(Shown(w, p), p.policy, p.now);
    var o := p.sighting.obs.(thresholdFloor := MeasuredSince(w.mem, p), exitRecorded := ExitOnRecord(w, p));
    assert Shown(w, p).thresholdFloor == o.thresholdFloor && Shown(w, p).exitRecorded == o.exitRecorded;
    assert Shown(w, p) == o;
    hide Decide, Opens, Shown;
  }

  // ---- What it leaves believed ----

  /** The row of a target after its sighting was taken in, when that is newer than
      what the row knows. A status replaces what was believed, and the reason with
      it; a reason alone replaces the reason; and a sighting with neither, nothing. */
  predicate Believes(before: Option<StateRow>, after: Option<StateRow>, p: Pass) {
    var s := p.sighting;
    if Asserted(s) != Unstated then
      && after == Some(StateRow(s.identity, RunOf(before, s.identity), s.obs.status, p.now, p.provider,
                                if s.obs.visibility == "" then "unavailable" else s.obs.visibility,
                                s.obs.reason, p.machine, p.now))
    else if s.obs.reason != "" then
      && after.Some? && after.value.reason == s.obs.reason && after.value.reasonAt == p.now
      && (before.Some? ==> after.value == before.value.(reason := s.obs.reason, reasonAt := p.now))
      && (before.None? ==>
            after.value == StateRow("", 1, Unstated, 0, p.provider, "unavailable", s.obs.reason, p.machine, p.now))
    else
      after == before
  }

  /** The pass comes after everything the target's row was told. */
  predicate NewerThanTheRow(row: Option<StateRow>, now: Time) {
    row.Some? ==> row.value.observedAt < now && row.value.reasonAt < now
  }

  lemma APassLeavesWhatWasSighted(w: World, p: Pass, maxAttempts: int, skipping: bool)
    requires NewerThanTheRow(RowFor(w.db, p.target), p.now)
    ensures var v := ObserveTarget(w, p, maxAttempts, skipping);
            || Believes(RowFor(w.db, p.target), RowFor(v.db, p.target), p)
            || (skipping && SightedAgain(w, p) && v.db == w.db)
    ensures forall t :: t != p.target ==> RowFor(ObserveTarget(w, p, maxAttempts, skipping).db, t) == RowFor(w.db, t)
  {
    PassInParts(w, p, maxAttempts, skipping);
    hide Applied, ObserveTarget, Decide, Settled;
  }

  /** Late, a sighting still opens a newer run, and otherwise cannot make the row any
      older: what was observed later stands. */
  lemma ALatePassChangesNothingNewer(w: World, p: Pass, maxAttempts: int, skipping: bool)
    requires p.target in w.db.states
    requires RunOf(RowFor(w.db, p.target), p.sighting.identity) == w.db.states[p.target].generation
    requires p.now <= w.db.states[p.target].observedAt
    ensures ObserveTarget(w, p, maxAttempts, skipping).db.states == w.db.states
  {
    PassInParts(w, p, maxAttempts, skipping);
    hide Applied, ObserveTarget, Decide, Settled;
    assert w.db.states[p.target := w.db.states[p.target]] == w.db.states;
  }

  // ---- A whole pass ----

  /** Nothing was to be seen: no answer, or neither a live session nor a status. */
  predicate SawNothing(l: Look) {
    l.Blind? || (!l.sighting.obs.live && !l.sighting.obs.statusKnown)
  }

  /** The entry says of a target what its observer answered: what it saw, or that it
      saw nothing and why. */
  predicate Relays(e: Event, t: Target, l: Look, machine: string, correlated: bool, now: Time) {
    && e.target == t.id && e.kind == ObservationEvent && e.at == now && e.source == t.provider && e.machine == machine
    && e.correlatedLoss == correlated
    && match l
       case Saw(s, _) =>
         && e.session == s.identity && e.status == Asserted(s)
         && e.reason == s.obs.reason && e.visibility == s.obs.visibility
       case Blind(reason) =>
         e.session == "" && e.status == Unstated && e.reason == reason && e.visibility == ""
  }

  /** One of the entries that came to `before` to make it `after` does. */
  predicate RelaysSince(before: seq<Event>, after: seq<Event>, t: Target, l: Look, machine: string, correlated: bool, now: Time) {
    exists i :: |before| <= i < |after| && Relays(after[i], t, l, machine, correlated, now)
  }

  predicate SawAnExit(l: Look) {
    l.Saw? && l.sighting.obs.statusKnown && l.sighting.obs.status == Exited
  }

  lemma RunOnlyAdds(w: World, steps: seq<Step>, maxAttempts: int)
    ensures w.db.log.history <= Run(w, steps, maxAttempts, true).db.log.history
  {
    if steps != [] {
      var n := |steps| - 1;
      hide Take;
      RunOnlyAdds(w, steps[..n], maxAttempts);
      StepOnlyAdds(Run(w, steps[..n], maxAttempts, true), steps[n], maxAttempts);
    }
  }

  lemma StepOnlyAdds(w: World, s: Step, maxAttempts: int)
    ensures w.db.log.history <= Take(w, s, maxAttempts, true).db.log.history
  {
    hide ObserveTarget;
    if s.Observe? {
      TakingAPass(w, s.pass, maxAttempts, true);
      PassInParts(w, s.pass, maxAttempts, true);
    }
  }

  lemma OneTargetIsReported(w: World, t: Target, l: Look, machine: string, transport: string, correlated: bool, now: Time,
                            answers: map<string, map<Condition, Outcome>>, maxAttempts: int)
    ensures var v := Take(w, Observe(PassFor(t, l, machine, transport, correlated, now, answers)), maxAttempts, true);
            || RelaysSince(w.db.log.history, v.db.log.history, t, l, machine, correlated, now)
            || SawAnExit(l)
  {
    var p := PassFor(t, l, machine, transport, correlated, now, answers);
    TakingAPass(w, p, maxAttempts, true);
    APassReportsWhatWasSighted(w, p, maxAttempts, true);
    hide ObserveTarget, Take;
    var before, after := w.db.log.history, ObserveTarget(w, p, maxAttempts, true).db.log.history;
    if |after| == |before| + 1 {
      assert Relays(after[|before|], t, l, machine, correlated, now);
    }
  }

  /** Of every target of a pass the feed is told, in that pass, what its own observer
      answered and whether everything was lost at once; or the target was sighted
      again as having exited. */
  lemma {:induction false} EveryTargetIsReported(w: World, s: Sighted, machine: string, transport: string, correlated: bool, now: Time,
                                                 answers: map<string, map<Condition, Outcome>>, n: nat, k: nat, maxAttempts: int)
    requires |s.looks| == |s.targets| && k < n <= |s.targets|
    ensures var v := Run(w, PassesFor(s, machine, transport, correlated, now, answers)[..n], maxAttempts, true);
            || RelaysSince(w.db.log.history, v.db.log.history, s.targets[k], s.looks[k], machine, correlated, now)
            || SawAnExit(s.looks[k])
  {
    hide Take, Relays, Run;
    var passes := PassesFor(s, machine, transport, correlated, now, answers);
    assert passes[..n] == passes[..n - 1] + [passes[n - 1]];
    RunOneMore(w, passes[..n - 1], passes[n - 1], maxAttempts, true);
    var u := Run(w, passes[..n - 1], maxAttempts, true);
    RunOnlyAdds(w, passes[..n - 1], maxAttempts);
    StepOnlyAdds(u, passes[n - 1], maxAttempts);
    if k < n - 1 {
      EveryTargetIsReported(w, s, machine, transport, correlated, now, answers, n - 1, k, maxAttempts);
    } else {
      OneTargetIsReported(u, s.targets[k], s.looks[k], machine, transport, correlated, now, answers, maxAttempts);
    }
  }

  /** Nothing at all was to be seen of several targets. */
  predicate AllGone(looks: seq<Look>) {
    |looks| > 1 && forall j :: 0 <= j < |looks| ==> SawNothing(looks[j])
  }

  lemma AllGoneIsLost(s: Sighted)
    requires |s.looks| == |s.targets|
    ensures AllGone(s.looks) == (|s.targets| > 1 && NoneSeen(s.looks))
  {
    forall j | 0 <= j < |s.looks| ensures SawNothing(s.looks[j]) <==> !Observed(SightingOf(s.looks[j])) {
    }
  }

  /** After a whole tick: every target is reported as its observer answered, marked as
      lost with all the others exactly when there are others and none was seen; and
      durations are measured afresh exactly if that is so or the machine woke. */
  lemma ATickReportsWhatWasSeen(w: World, jumped: bool, rows: seq<Follows.Row>, s: Sighted, machine: string, transport: string,
                                now: Time, answers: map<string, map<Condition, Outcome>>, maxAttempts: int)
    requires |s.looks| == |s.targets|
    requires forall j :: 0 <= j < |s.follows| ==> FollowMade(s.follows[j], now)
    ensures var v := Run(w, StepsOfTick(jumped, rows, s, machine, transport, now, answers), maxAttempts, true);
            && v.mem.floor == (if jumped || AllGone(s.looks) then now else w.mem.floor)
            && forall k :: 0 <= k < |s.targets| ==>
                 || RelaysSince(w.db.log.history, v.db.log.history, s.targets[k], s.looks[k], machine, AllGone(s.looks), now)
                 || SawAnExit(s.looks[k])
  {
    hide Run, AllGone, NoneSeen, Relays, Take;
    AllGoneIsLost(s);
    var lost := AllGone(s.looks);
    var passes := PassesFor(s, machine, transport, lost, now, answers);
    var pre := (if jumped then [Floor(now)] else []) + [Load(rows)] + s.follows + if lost then [Floor(now)] else [];
    assert StepsOfTick(jumped, rows, s, machine, transport, now, answers) == pre + passes;
    hide StepsOfTick;
    RunInTwo(w, pre, passes, maxAttempts, true);
    var u := Run(w, pre, maxAttempts, true);
    assert passes[..|passes|] == passes;
    forall k | 0 <= k < |s.targets|
      ensures || RelaysSince(u.db.log.history, Run(u, passes, maxAttempts, true).db.log.history, s.targets[k], s.looks[k], machine, lost, now)
              || SawAnExit(s.looks[k])
    {
      EveryTargetIsReported(u, s, machine, transport, lost, now, answers, |passes|, k, maxAttempts);
    }
    RunOnlyAdds(w, pre, maxAttempts);
    FloorAfter(w, jumped, rows, s.follows, lost, now, maxAttempts);
    PassesKeepTheFloor(u, passes, maxAttempts);
  }

  lemma {:induction false} PassesKeepTheFloor(w: World, steps: seq<Step>, maxAttempts: int)
    requires forall k :: 0 <= k < |steps| ==> steps[k].Observe? || steps[k].Follow? || steps[k].Load?
    ensures Run(w, steps, maxAttempts, true).mem.floor == w.mem.floor
  {
    if steps != [] {
      var n := |steps| - 1;
      hide Take;
      PassesKeepTheFloor(w, steps[..n], maxAttempts);
      StepKeepsTheFloor(Run(w, steps[..n], maxAttempts, true), steps[n], maxAttempts);
    }
  }

  lemma StepKeepsTheFloor(w: World, s: Step, maxAttempts: int)
    requires s.Observe? || s.Follow? || s.Load?
    ensures Take(w, s, maxAttempts, true).mem.floor == w.mem.floor
  {
    hide ObserveTarget;
    if s.Observe? {
      Floors.PassMemory(w, s.pass, maxAttempts, true);
    }
  }

  lemma FloorAfter(w: World, jumped: bool, rows: seq<Follows.Row>, follows: seq<Step>, lost: bool, now: Time, maxAttempts: int)
    requires forall j :: 0 <= j < |follows| ==> follows[j].Follow?
    ensures Run(w, (if jumped then [Floor(now)] else []) + [Load(rows)] + follows + (if lost then [Floor(now)] else []), maxAttempts, true).mem.floor
         == if jumped || lost then now else w.mem.floor
  {
    var woke, read, gap := if jumped then [Floor(now)] else [], [Load(rows)], if lost then [Floor(now)] else [];
    RunNothing(w, maxAttempts, true);
    FloorOnly(w, jumped, now, maxAttempts);
    var a := Run(w, woke, maxAttempts, true);
    RunInTwo(w, woke, read, maxAttempts, true);
    PassesKeepTheFloor(a, read, maxAttempts);
    var b := Run(w, woke + read, maxAttempts, true);
    RunInTwo(w, woke + read, follows, maxAttempts, true);
    PassesKeepTheFloor(b, follows, maxAttempts);
    var c := Run(w, woke + read + follows, maxAttempts, true);
    RunInTwo(w, woke + read + follows, gap, maxAttempts, true);
    FloorOnly(c, lost, now, maxAttempts);
  }

  lemma FloorOnly(w: World, yes: bool, now: Time, maxAttempts: int)
    ensures Run(w, if yes then [Floor(now)] else [], maxAttempts, true).mem.floor == if yes then now else w.mem.floor
  {
    if yes { assert [Floor(now)][..0] == []; }
  }

  // ---- What is open after it ----

  /** What its share of a pass is made of: the target's policy, what its observer
      answered, and what the notifier would. */
  predicate ShareOf(p: Pass, t: Target, l: Look, machine: string, transport: string, correlated: bool, now: Time,
                    answers: map<string, map<Condition, Outcome>>)
  {
    && p.target == t.id && p.provider == t.provider && p.policy == t.policy
    && p.machine == machine && p.transport == transport && p.correlated == correlated && p.now == now
    && p.outcomes == (if t.id in answers then answers[t.id] else map[])
    && match l
       case Saw(s, _) => p.sighting == s
       case Blind(reason) =>
         && !p.sighting.obs.live && !p.sighting.obs.statusKnown && p.sighting.identity == ""
         && p.sighting.obs.reason == reason && p.sighting.obs.visibility == ""
  }

  /** Each target of a pass is given its share where the others before it left the
      instance, and after the whole pass exactly those conditions of its policy are open
      that its own look and the moment say. */
  lemma ATickOpensWhatHolds(w: World, s: Sighted, machine: string, transport: string, correlated: bool, now: Time,
                            answers: map<string, map<Condition, Outcome>>, k: nat, c: Condition, maxAttempts: int)
    requires |s.looks| == |s.targets| && k < |s.targets| && UniqueOpen(w.db.incs)
    requires forall i, j :: 0 <= i < j < |s.targets| ==> s.targets[i].id != s.targets[j].id
    ensures var passes := PassesFor(s, machine, transport, correlated, now, answers);
            var t, p, at := s.targets[k], passes[k].pass, Run(w, passes[..k], maxAttempts, true);
            var o := p.sighting.obs.(thresholdFloor := MeasuredSince(at.mem, p), exitRecorded := ExitOnRecord(at, p));
            && ShareOf(p, t, s.looks[k], machine, transport, correlated, now, answers)
            && (c in t.policy.alertOn ==>
                  (IsOpen(Run(w, passes, maxAttempts, true).db.incs, t.id, c, RunOf(RowFor(at.db, t.id), p.sighting.identity))
                   <==> Opens(o, t.policy, now, c)))
  {
    var passes := PassesFor(s, machine, transport, correlated, now, answers);
    assert PassesOverDifferentTargets(passes);
    AWholePassLeavesWhatHolds(w, passes, k, maxAttempts, true);
    var p, at := passes[k].pass, Run(w, passes[..k], maxAttempts, true);
    APassDecidesByWhatIsKnown(at, p, c);
    DecideIsExact(Shown(at, p), p.policy, now);
    assert PassGeneration(at, p) == RunOf(RowFor(at.db, p.target), p.sighting.identity);
    hide Run, Take, Opens, Holds, PassesFor, Decide, IsOpen, Shown, PassGeneration, MeasuredSince, ExitOnRecord;
  }
}
