/** Silence is only ever measured across time this monitor was watching. */
module Floors {
  import opened Domain
  import opened Config
  import opened Attention
  import opened Store
  import opened World
  import Follows

  /** Positions after the last restart. */
  ghost predicate SinceRestart(steps: seq<Step>, from: nat) {
    from <= |steps| && forall k :: from <= k < |steps| ==> !steps[k].Restart?
  }

  predicate Timed(s: Step) {
    s.Floor? || s.Observe?
  }

  function TimeOf(s: Step): Time
    requires Timed(s)
  {
    if s.Floor? then s.now else s.pass.now
  }

  /** The clock does not go backwards from one timed step to a later one. */
  ghost predicate ClockForward(steps: seq<Step>, from: nat) {
    forall j, k :: from <= j < k < |steps| && Timed(steps[j]) && Timed(steps[k]) ==> TimeOf(steps[j]) <= TimeOf(steps[k])
  }

  /** What memory knows of everything since `from`: the floor is at or past every
      wake and every loss of all targets; and a pass that missed `target` leaves
      it lost, until a pass that sees it again raises its floor. */
  ghost predicate Remembers(mem: Memory, steps: seq<Step>, from: nat, target: string) {
    forall k :: from <= k < |steps| ==>
      && (steps[k].Floor? ==> steps[k].now <= mem.floor)
      && (Missed(steps[k], target) ==> target in mem.lost || steps[k].pass.now <= TargetFloor(mem, target))
  }

  predicate Missed(s: Step, target: string) {
    s.Observe? && s.pass.target == target && !Observed(s.pass.sighting)
  }

  lemma PassMemory(w: World, p: Pass, maxAttempts: int, skipping: bool)
    ensures ObserveTarget(w, p, maxAttempts, skipping).mem == Notice(w.mem, p.target, Observed(p.sighting), p.now)
  {
    var g, d := PassGeneration(w, p), PassDecision(w, p);
    var noticed := w.(mem := Notice(w.mem, p.target, Observed(p.sighting), p.now));
    AppliedOnlyIncidents(noticed.(db := Recorded(w.db, EventOf(p, g))), p, d, g, maxAttempts);
  }

  /** What a step makes of memory. */
  function MemoryAfter(mem: Memory, s: Step): Memory {
    match s
    case Floor(now) => mem.(floor := now)
    case Load(rows) => if mem.loaded then mem else mem.(links := Follows.Replay(rows), loaded := true)
    case Follow(f, e) => mem.(links := Follows.Remember(mem.links, f))
    case Observe(p) => Notice(mem, p.target, Observed(p.sighting), p.now)
    case Ack(_, _) => mem
    case Unask(_, _) => mem
    case Restart => FRESH_MEMORY
  }

  lemma StepMemory(w: World, s: Step, maxAttempts: int, skipping: bool)
    ensures Take(w, s, maxAttempts, skipping).mem == MemoryAfter(w.mem, s)
  {
    hide ObserveTarget;
    if s.Observe? {
      PassMemory(w, s.pass, maxAttempts, skipping);
    }
  }

  lemma OneMoreRemembered(mem: Memory, before: seq<Step>, s: Step, from: nat, target: string)
    requires from <= |before| && !s.Restart? && ClockForward(before + [s], from)
    requires Remembers(mem, before, from, target)
    ensures Remembers(MemoryAfter(mem, s), before + [s], from, target)
  {
    var steps, next := before + [s], MemoryAfter(mem, s);
    forall k | from <= k < |steps|
      ensures steps[k].Floor? ==> steps[k].now <= next.floor
      ensures Missed(steps[k], target) ==> target in next.lost || steps[k].pass.now <= TargetFloor(next, target)
    {
      if k < |before| {
        assert steps[k] == before[k] && steps[|before|] == s;
        assert Timed(steps[k]) && Timed(s) ==> TimeOf(steps[k]) <= TimeOf(s);
      }
    }
  }

  lemma {:induction false} MemoryRemembers(w: World, steps: seq<Step>, from: nat, target: string, maxAttempts: int, skipping: bool)
    requires SinceRestart(steps, from) && ClockForward(steps, from)
    ensures Remembers(Run(w, steps, maxAttempts, skipping).mem, steps, from, target)
  {
    if |steps| > from {
      var before, s := steps[..|steps| - 1], steps[|steps| - 1];
      assert steps == before + [s];
      assert ClockForward(before, from);
      hide Take, MemoryAfter, Remembers, ClockForward;
      MemoryRemembers(w, before, from, target, maxAttempts, skipping);
      var v := Run(w, before, maxAttempts, skipping);
      StepMemory(v, s, maxAttempts, skipping);
      OneMoreRemembered(v.mem, before, s, from, target);
    }
  }

  // ---- Exactly what memory holds ----

  /** The process began here. */
  ghost predicate BeganAt(w: World, steps: seq<Step>, from: nat) {
    && SinceRestart(steps, from)
    && if from == 0 then w.mem.floor == ZERO_TIME && w.mem.lost == {} && w.mem.targetFloor == map[]
       else steps[from - 1].Restart?
  }

  predicate Over(s: Step, target: string) {
    s.Observe? && s.pass.target == target
  }

  /** The last wake or loss of everything among the steps from `from` to `n`. */
  function LastFloor(steps: seq<Step>, from: nat, n: nat): (r: Option<nat>)
    requires from <= n <= |steps|
    ensures r.Some? ==> from <= r.value < n && steps[r.value].Floor? && forall j :: r.value < j < n ==> !steps[j].Floor?
    ensures r.None? ==> forall j :: from <= j < n ==> !steps[j].Floor?
  {
    if n == from then None else if steps[n - 1].Floor? then Some(n - 1) else LastFloor(steps, from, n - 1)
  }

  /** The last pass over a target. */
  function LastPass(steps: seq<Step>, from: nat, target: string, n: nat): (r: Option<nat>)
    requires from <= n <= |steps|
    ensures r.Some? ==>
              from <= r.value < n && Over(steps[r.value], target) && forall j :: r.value < j < n ==> !Over(steps[j], target)
    ensures r.None? ==> forall j :: from <= j < n ==> !Over(steps[j], target)
  {
    if n == from then None else if Over(steps[n - 1], target) then Some(n - 1) else LastPass(steps, from, target, n - 1)
  }

  /** Out of sight: the last pass over the target missed it. */
  predicate OutOfSight(steps: seq<Step>, from: nat, target: string, n: nat)
    requires from <= n <= |steps|
  {
    var last := LastPass(steps, from, target, n);
    last.Some? && Missed(steps[last.value], target)
  }

  /** The step saw the target again. */
  predicate Regains(steps: seq<Step>, from: nat, target: string, k: nat)
    requires from <= k < |steps|
  {
    Over(steps[k], target) && Observed(steps[k].pass.sighting) && OutOfSight(steps, from, target, k)
  }

  function LastRegain(steps: seq<Step>, from: nat, target: string, n: nat): (r: Option<nat>)
    requires from <= n <= |steps|
    ensures r.Some? ==>
              from <= r.value < n && Regains(steps, from, target, r.value)
              && forall j :: r.value < j < n ==> !Regains(steps, from, target, j)
    ensures r.None? ==> forall j :: from <= j < n ==> !Regains(steps, from, target, j)
  {
    if n == from then None else if Regains(steps, from, target, n - 1) then Some(n - 1) else LastRegain(steps, from, target, n - 1)
  }

  /** The floor is the last wake or loss of everything, a target is lost while it is
      out of sight, and its own floor is when it was last regained: no step makes
      any of them later than that. */
  predicate JustThat(mem: Memory, steps: seq<Step>, from: nat, target: string, n: nat)
    requires from <= n <= |steps|
  {
    && mem.floor == (match LastFloor(steps, from, n) case None => ZERO_TIME case Some(k) => steps[k].now)
    && (target in mem.lost <==> OutOfSight(steps, from, target, n))
    && TargetFloor(mem, target) == match LastRegain(steps, from, target, n) case None => ZERO_TIME case Some(k) => steps[k].pass.now
  }

  lemma {:induction false} FloorsAreExact(w: World, steps: seq<Step>, from: nat, target: string, n: nat, maxAttempts: int, skipping: bool)
    requires BeganAt(w, steps, from) && from <= n <= |steps|
    ensures JustThat(Run(w, steps[..n], maxAttempts, skipping).mem, steps, from, target, n)
  {
    if n == from {
      ANewProcessHasNone(w, steps, from, maxAttempts, skipping);
    } else {
      FloorsAreExact(w, steps, from, target, n - 1, maxAttempts, skipping);
      assert steps[..n] == steps[..n - 1] + [steps[n - 1]];
      RunOneMore(w, steps[..n - 1], steps[n - 1], maxAttempts, skipping);
      StepMemory(Run(w, steps[..n - 1], maxAttempts, skipping), steps[n - 1], maxAttempts, skipping);
      hide Take, Run, MemoryAfter, JustThat;
      JustOneMore(Run(w, steps[..n - 1], maxAttempts, skipping).mem, steps, from, target, n);
    }
  }

  lemma JustOneMore(mem: Memory, steps: seq<Step>, from: nat, target: string, n: nat)
    requires from < n <= |steps| && !steps[n - 1].Restart? && JustThat(mem, steps, from, target, n - 1)
    ensures JustThat(MemoryAfter(mem, steps[n - 1]), steps, from, target, n)
  {
    OneMoreLookedAt(steps, from, target, n);
    var s, before, after := steps[n - 1], LastRegain(steps, from, target, n - 1), LastRegain(steps, from, target, n);
    OneMoreInMemory(mem, s, target, OutOfSight(steps, from, target, n - 1));
    hide LastFloor, LastPass, LastRegain, OutOfSight, Regains, MemoryAfter, Over, Missed, Observed, TargetFloor;
  }

  lemma OneMoreLookedAt(steps: seq<Step>, from: nat, target: string, n: nat)
    requires from < n <= |steps|
    ensures LastFloor(steps, from, n) == if steps[n - 1].Floor? then Some(n - 1) else LastFloor(steps, from, n - 1)
    ensures OutOfSight(steps, from, target, n) <==>
              if Over(steps[n - 1], target) then Missed(steps[n - 1], target) else OutOfSight(steps, from, target, n - 1)
    ensures LastRegain(steps, from, target, n)
         == if Over(steps[n - 1], target) && Observed(steps[n - 1].pass.sighting) && OutOfSight(steps, from, target, n - 1)
            then Some(n - 1) else LastRegain(steps, from, target, n - 1)
  {
    assert OutOfSight(steps, from, target, n) <==>
             if Over(steps[n - 1], target) then Missed(steps[n - 1], target) else OutOfSight(steps, from, target, n - 1) by {
      hide LastRegain, LastFloor;
    }
    hide LastPass, OutOfSight;
  }

  lemma OneMoreInMemory(mem: Memory, s: Step, target: string, out: bool)
    requires !s.Restart? && (target in mem.lost <==> out)
    ensures var after := MemoryAfter(mem, s);
            && after.floor == (if s.Floor? then s.now else mem.floor)
            && (target in after.lost <==> if Over(s, target) then Missed(s, target) else out)
            && TargetFloor(after, target) == if Over(s, target) && Observed(s.pass.sighting) && out then s.pass.now else TargetFloor(mem, target)
  {
  }

  lemma ANewProcessHasNone(w: World, steps: seq<Step>, from: nat, maxAttempts: int, skipping: bool)
    requires BeganAt(w, steps, from)
    ensures var mem := Run(w, steps[..from], maxAttempts, skipping).mem;
            mem.floor == ZERO_TIME && mem.lost == {} && mem.targetFloor == map[]
  {
    if from > 0 {
      assert steps[..from] == steps[..from - 1] + [steps[from - 1]];
      RunOneMore(w, steps[..from - 1], steps[from - 1], maxAttempts, skipping);
      StepMemory(Run(w, steps[..from - 1], maxAttempts, skipping), steps[from - 1], maxAttempts, skipping);
    }
  }

  /** How long a silence has to be for this condition to be about it. */
  function ThresholdOf(p: Policy, c: Condition): int {
    if c == Quiet then p.quietAfter else p.noProgressAfter
  }

  lemma SilenceIsPastTheFloor(o: Observation, p: Policy, now: Time, c: Condition)
    requires c == Quiet || c == NoProgress
    requires c in Decide(o, p, now).open
    ensures o.live
    ensures o.thresholdFloor < now - ThresholdOf(p, c)
    ensures p.expectedQuietUntil.Some? ==> p.expectedQuietUntil.value < now - ThresholdOf(p, c)
  {
    DecideIsExact(o, p, now);
    assert Holds(o, p, now, c);
  }

  /** Whenever quiet or no_progress is decided open, every step of this process
      within the threshold before it was a step that watched: none was a wake or
      a loss of all targets, and every pass over the target saw it. The session
      was in sight in this pass too, and no authorised silence reached into that
      time. */
  lemma SilenceIsWitnessed(w: World, steps: seq<Step>, from: nat, p: Pass, c: Condition, k: nat, maxAttempts: int, skipping: bool)
    requires SinceRestart(steps, from) && ClockForward(steps + [Observe(p)], from)
    requires c == Quiet || c == NoProgress
    requires c in PassDecision(Run(w, steps, maxAttempts, skipping), p).open
    requires from <= k < |steps| && Timed(steps[k]) && TimeOf(steps[k]) >= p.now - ThresholdOf(p.policy, c)
    ensures !steps[k].Floor? && !Missed(steps[k], p.target)
    ensures Observed(p.sighting)
    ensures p.policy.expectedQuietUntil.Some? ==> p.policy.expectedQuietUntil.value < p.now - ThresholdOf(p.policy, c)
  {
    var all := steps + [Observe(p)];
    assert forall j :: from <= j < |steps| ==> all[j] == steps[j];
    assert all[|steps|] == Observe(p);
    var v := Run(w, steps, maxAttempts, skipping);
    SilenceIsPastTheFloor(Shown(v, p), p.policy, p.now, c);
    assert ClockForward(steps, from);
    MemoryRemembers(w, steps, from, p.target, maxAttempts, skipping);
    assert Timed(all[k]) && Timed(all[|steps|]) && TimeOf(all[k]) <= TimeOf(all[|steps|]);
  }
}
