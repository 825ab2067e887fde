/** The life of an instance: passes over its targets, and between them
    acknowledgements, policy changes and restarts. What is proved of any run of
    steps holds of every such life. */
module Watching {
  import opened Domain
  import opened Config
  import opened Attention
  import opened Incidents
  import opened World
  import opened Skipping
  import opened Conditions
  import opened Floors
  import opened Monitor

  datatype Moment =
    | Ticked(steps: seq<Step>, targets: seq<Target>, jumped: bool, now: Time)
    | Between(step: Step)

  function StepsOf(m: Moment): seq<Step> {
    match m
    case Ticked(steps, _, _, _) => steps
    case Between(s) => [s]
  }

  function AllSteps(ms: seq<Moment>): seq<Step> {
    if ms == [] then [] else AllSteps(ms[..|ms| - 1]) + StepsOf(ms[|ms| - 1])
  }

  ghost predicate DistinctIds(targets: seq<Target>) {
    forall i, j :: 0 <= i < j < |targets| ==> targets[i].id != targets[j].id
  }

  ghost predicate IsMoment(m: Moment) {
    match m
    case Ticked(steps, targets, jumped, now) => IsTick(steps, targets, jumped, now) && DistinctIds(targets) && 0 < now
    case Between(s) => s.Ack? || s.Unask? || s.Restart?
  }

  /** Passes happen one after another on a clock that moves forward. */
  ghost predicate IsLife(ms: seq<Moment>) {
    && (forall i :: 0 <= i < |ms| ==> IsMoment(ms[i]))
    && (forall i, j :: 0 <= i < j < |ms| && ms[i].Ticked? && ms[j].Ticked? ==> ms[i].now < ms[j].now)
  }

  /** Every timed step is of this moment, no target is passed over twice, and
      the follows assert nothing. */
  ghost predicate OneMoment(steps: seq<Step>, now: Time) {
    && (forall k :: 0 <= k < |steps| && Timed(steps[k]) ==> TimeOf(steps[k]) == now)
    && (forall k :: 0 <= k < |steps| && steps[k].Follow? ==> steps[k].event.status == Unstated)
    && (forall j, k :: 0 <= j < k < |steps| ==> !SameTarget(steps[j], steps[k]))
  }

  lemma ATickIsOneMoment(steps: seq<Step>, targets: seq<Target>, jumped: bool, now: Time)
    requires IsTick(steps, targets, jumped, now) && DistinctIds(targets)
    ensures OneMoment(steps, now)
  {
    var pre, passes :| IsTickOf(steps, pre, passes, targets, jumped, now);
    var lead := pre + if AllLost(passes) then [Floor(now)] else [];
    assert steps == lead + passes;
    assert forall k :: 0 <= k < |lead| ==> !lead[k].Observe?;
    assert forall k :: 0 <= k < |lead| && Timed(lead[k]) ==> TimeOf(lead[k]) == now;
    assert forall i :: 0 <= i < |passes| ==> PassOver(passes[i], targets[i], AllLost(passes), now);
    hide IsTickOf, AllLost, Preamble;
    forall k | 0 <= k < |steps|
      ensures Timed(steps[k]) ==> TimeOf(steps[k]) == now
      ensures steps[k].Follow? ==> steps[k].event.status == Unstated
    {
      if k >= |lead| { assert steps[k] == passes[k - |lead|]; }
    }
    forall j, k | 0 <= j < k < |steps| ensures !SameTarget(steps[j], steps[k]) {
      if j >= |lead| {
        assert steps[j] == passes[j - |lead|] && steps[k] == passes[k - |lead|];
      }
    }
  }

  /** Everything timed so far happened by `now`. */
  ghost predicate NothingAfter(steps: seq<Step>, now: Time) {
    forall k :: 0 <= k < |steps| && Timed(steps[k]) ==> TimeOf(steps[k]) < now
  }

  ghost predicate InOrderSoFar(steps: seq<Step>) {
    && (forall k :: 0 <= k < |steps| && steps[k].Observe? ==> 0 < steps[k].pass.now)
    && (forall j, k :: 0 <= j < k < |steps| && SameTarget(steps[j], steps[k]) ==>
          steps[j].pass.now < steps[k].pass.now)
    && FollowsAssertNothing(steps)
    && ClockForward(steps, 0)
  }

  lemma OneMoreMoment(steps: seq<Step>, more: seq<Step>, now: Time)
    requires InOrderSoFar(steps) && NothingAfter(steps, now) && OneMoment(more, now) && 0 < now
    ensures InOrderSoFar(steps + more)
  {
    var all := steps + more;
    forall k | 0 <= k < |all|
      ensures all[k].Observe? ==> 0 < all[k].pass.now
      ensures all[k].Follow? ==> all[k].event.status == Unstated
    {
      if k < |steps| { assert all[k] == steps[k]; } else { assert all[k] == more[k - |steps|]; }
    }
    forall j, k | 0 <= j < k < |all|
      ensures SameTarget(all[j], all[k]) ==> all[j].pass.now < all[k].pass.now
      ensures Timed(all[j]) && Timed(all[k]) ==> TimeOf(all[j]) <= TimeOf(all[k])
    {
      if k < |steps| {
        assert all[j] == steps[j] && all[k] == steps[k];
      } else if j < |steps| {
        assert all[j] == steps[j] && all[k] == more[k - |steps|];
        assert Timed(steps[j]) ==> TimeOf(steps[j]) < now;
      } else {
        assert all[j] == more[j - |steps|] && all[k] == more[k - |steps|];
      }
    }
  }

  lemma OneUntimedStep(steps: seq<Step>, s: Step)
    requires InOrderSoFar(steps) && !Timed(s) && !s.Follow?
    ensures InOrderSoFar(steps + [s])
  {
    var all := steps + [s];
    forall j, k | 0 <= j < k < |all|
      ensures SameTarget(all[j], all[k]) ==> all[j].pass.now < all[k].pass.now
      ensures Timed(all[j]) && Timed(all[k]) ==> TimeOf(all[j]) <= TimeOf(all[k])
    {
      if k < |steps| { assert all[j] == steps[j] && all[k] == steps[k]; }
    }
  }

  lemma {:induction false} ALifeEndsBefore(ms: seq<Moment>, now: Time)
    requires IsLife(ms)
    requires forall i :: 0 <= i < |ms| && ms[i].Ticked? ==> ms[i].now < now
    ensures NothingAfter(AllSteps(ms), now)
  {
    if ms != [] {
      var n := |ms| - 1;
      ALifeEndsBefore(ms[..n], now);
      assert IsMoment(ms[n]);
      if ms[n].Ticked? {
        ATickIsOneMoment(ms[n].steps, ms[n].targets, ms[n].jumped, ms[n].now);
      }
      var before, last, all := AllSteps(ms[..n]), StepsOf(ms[n]), AllSteps(ms);
      forall k | 0 <= k < |all| && Timed(all[k]) ensures TimeOf(all[k]) < now {
        if k < |before| { assert all[k] == before[k]; } else { assert all[k] == last[k - |before|]; }
      }
    }
  }

  lemma {:induction false} ALifeIsInOrder(ms: seq<Moment>)
    requires IsLife(ms)
    ensures InOrderSoFar(AllSteps(ms))
  {
    if ms != [] {
      var n := |ms| - 1;
      ALifeIsInOrder(ms[..n]);
      assert IsMoment(ms[n]);
      match ms[n]
      case Ticked(steps, targets, jumped, now) =>
        ATickIsOneMoment(steps, targets, jumped, now);
        ALifeEndsBefore(ms[..n], now);
        OneMoreMoment(AllSteps(ms[..n]), steps, now);
      case Between(s) => OneUntimedStep(AllSteps(ms[..n]), s);
    }
  }

  /** Nothing on record is as late as the passes to come. */
  ghost predicate AllBefore(w: World, steps: seq<Step>) {
    forall k :: 0 <= k < |steps| && steps[k].Observe? ==> Before(w, steps[k].pass.target, steps[k].pass.now)
  }

  /** Over a whole life, skipping cannot be told at any moment exactly when every
      pass that was skipped named the session on record. */
  lemma ALifeOfSkippingExactly(w: World, ms: seq<Moment>, maxAttempts: int)
    requires IsLife(ms) && UniqueOpen(w.db.incs) && ExitsRecorded(w) && AllBefore(w, AllSteps(ms))
    ensures NeverParted(w, AllSteps(ms), maxAttempts) <==> AlwaysNames(w, AllSteps(ms), maxAttempts)
  {
    ALifeIsInOrder(ms);
    hide NeverParted, AlwaysNames;
    SkippingCannotBeToldExactly(w, AllSteps(ms), maxAttempts);
  }

  /** A monitor that skips settled repeats lives a life that cannot be told from
      that of one which never does. */
  lemma ALifeOfSkippingCannotBeTold(w: World, ms: seq<Moment>, maxAttempts: int)
    requires IsLife(ms)
    requires UniqueOpen(w.db.incs) && ExitsRecorded(w) && ExitsNamed(w)
    requires AllBefore(w, AllSteps(ms)) && NamesItsExits(AllSteps(ms))
    ensures Shadows(Run(w, AllSteps(ms), maxAttempts, true), Run(w, AllSteps(ms), maxAttempts, false))
  {
    ALifeIsInOrder(ms);
    SkippingCannotBeTold(w, AllSteps(ms), maxAttempts);
  }

  // ---- What a whole pass leaves ----

  /** Where the run stands when the i-th of `passes` is reached. */
  ghost function Reached(w: World, passes: seq<Step>, i: nat, maxAttempts: int, skipping: bool): World
    requires i <= |passes|
  {
    Run(w, passes[..i], maxAttempts, skipping)
  }

  /** After the whole pass, what is open for the i-th target is what held of it
      when it was looked at. */
  ghost predicate StillHolds(w: World, passes: seq<Step>, i: nat, end: World, maxAttempts: int, skipping: bool)
    requires i < |passes| && passes[i].Observe?
  {
    var p, at := passes[i].pass, Reached(w, passes, i, maxAttempts, skipping);
    OpenIsWhatHolds(end.db.incs, p.target, Shown(at, p), p.policy, p.now, PassGeneration(at, p))
  }

  lemma OthersLeaveItOpen(w: World, v: World, other: string, target: string, o: Observation, p: Policy, now: Time, g: int)
    requires OnlyAbout(w, v, other) && other != target
    requires OpenIsWhatHolds(w.db.incs, target, o, p, now, g)
    ensures OpenIsWhatHolds(v.db.incs, target, o, p, now, g)
  {
    forall c ensures IsOpen(v.db.incs, target, c, g) <==> IsOpen(w.db.incs, target, c, g) {
      if i :| 0 <= i < |w.db.incs| && IsOpenFor(w.db.incs[i], target, c, g) {
        assert IsOpenFor(v.db.incs[i], target, c, g);
      }
      if i :| 0 <= i < |v.db.incs| && IsOpenFor(v.db.incs[i], target, c, g) {
        assert i < |w.db.incs| && w.db.incs[i] == v.db.incs[i];
      }
    }
    assert forall c :: AskedAndOpen(p, v.db.incs, target, c, g) == AskedAndOpen(p, w.db.incs, target, c, g);
    hide IsOpen, Holds, AskedAndOpen;
    forall i | 0 <= i < |v.db.incs| && v.db.incs[i].target == target && v.db.incs[i].resolvedAt.None?
      ensures v.db.incs[i].generation >= g
    {
      assert i < |w.db.incs| && w.db.incs[i] == v.db.incs[i];
    }
  }

  ghost predicate PassesOverDifferentTargets(passes: seq<Step>) {
    && (forall i :: 0 <= i < |passes| ==> passes[i].Observe?)
    && (forall i, j :: 0 <= i < j < |passes| ==> passes[i].pass.target != passes[j].pass.target)
  }

  lemma LaterPassesLeaveIt(w: World, passes: seq<Step>, i: nat, at: World, end: World, maxAttempts: int, skipping: bool)
    requires PassesOverDifferentTargets(passes) && i < |passes| - 1
    requires StillHolds(w, passes[..|passes| - 1], i, at, maxAttempts, skipping)
    requires OnlyAbout(at, end, passes[|passes| - 1].pass.target)
    ensures StillHolds(w, passes, i, end, maxAttempts, skipping)
  {
    hide Run, OpenIsWhatHolds, OnlyAbout, Shown, PassGeneration;
    assert passes[..|passes| - 1][..i] == passes[..i];
    var p, met := passes[i].pass, Reached(w, passes, i, maxAttempts, skipping);
    OthersLeaveItOpen(at, end, passes[|passes| - 1].pass.target, p.target,
                      Shown(met, p), p.policy, p.now, PassGeneration(met, p));
  }

  /** One pass of the monitor over all its targets leaves open, for each of them,
      exactly what the policy asks about and what held of it, whatever order the
      targets came in. */
  lemma {:induction false} AWholePassLeavesWhatHolds(w: World, passes: seq<Step>, i: nat, maxAttempts: int, skipping: bool)
    requires UniqueOpen(w.db.incs) && PassesOverDifferentTargets(passes) && i < |passes|
    ensures StillHolds(w, passes, i, Run(w, passes, maxAttempts, skipping), maxAttempts, skipping)
  {
    hide Run, Take, ObserveTarget, OpenIsWhatHolds, UniqueOpen, OnlyAbout, Shown, PassGeneration;
    var n := |passes| - 1;
    var at := Run(w, passes[..n], maxAttempts, skipping);
    var p := passes[n].pass;
    TheIndexAlwaysHolds(w, passes[..n], maxAttempts, skipping);
    assert Run(w, passes, maxAttempts, skipping) == ObserveTarget(at, p, maxAttempts, skipping) by {
      assert passes == passes[..n] + [Observe(p)];
      RunOneMore(w, passes[..n], Observe(p), maxAttempts, skipping);
      TakingAPass(at, p, maxAttempts, skipping);
    }
    if i == n {
      APassLeavesWhatHolds(at, p, maxAttempts, skipping);
    } else {
      AWholePassLeavesWhatHolds(w, passes[..n], i, maxAttempts, skipping);
      APassIsAboutItsTarget(at, p, maxAttempts, skipping);
      LaterPassesLeaveIt(w, passes, i, at, ObserveTarget(at, p, maxAttempts, skipping), maxAttempts, skipping);
    }
  }
}
