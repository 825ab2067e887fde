/** What is proved of runs, said of lives: ticks as the monitor takes them, with
    acknowledgements, policy changes and restarts between. */
module Lives {
  import opened Domain
  import opened Attention
  import opened Config
  import opened Follows
  import opened World
  import opened Floors
  import opened Continuity
  import opened Monitor
  import opened Watching

  // ---- Silence ----

  lemma ClockOfAPrefix(steps: seq<Step>, prefix: seq<Step>, from: nat)
    requires prefix <= steps && ClockForward(steps, 0)
    ensures ClockForward(prefix, from)
  {
  }

  /** In any life, where a pass `p` that comes after `steps` decides quiet or
      no_progress, every step of that process within the threshold before it was
      one that watched. */
  lemma SilenceInALifeIsWitnessed(w: World, ms: seq<Moment>, steps: seq<Step>, p: Pass, from: nat, c: Condition, k: nat,
                                  maxAttempts: int, skipping: bool)
    requires IsLife(ms) && steps + [Observe(p)] <= AllSteps(ms)
    requires SinceRestart(steps, from) && (c == Quiet || c == NoProgress)
    requires c in PassDecision(Run(w, steps, maxAttempts, skipping), p).open
    requires from <= k < |steps| && Timed(steps[k]) && TimeOf(steps[k]) >= p.now - ThresholdOf(p.policy, c)
    ensures !steps[k].Floor? && !Missed(steps[k], p.target)
    ensures Observed(p.sighting)
    ensures p.policy.expectedQuietUntil.Some? ==> p.policy.expectedQuietUntil.value < p.now - ThresholdOf(p.policy, c)
  {
    hide AllSteps, Run, PassDecision, IsLife;
    ALifeIsInOrder(ms);
    ClockOfAPrefix(AllSteps(ms), steps + [Observe(p)], from);
    SilenceIsWitnessed(w, steps, from, p, c, k, maxAttempts, skipping);
  }

  // ---- Links ----

  /** Every reading among the steps is of this table. */
  ghost predicate ReadsOnly(steps: seq<Step>, table: Table) {
    forall k :: 0 <= k < |steps| && steps[k].Load? ==> ReplayOrder(table, steps[k].rows)
  }

  /** A tick taken by the monitor reads what is stored, when it has to read. */
  lemma ATickReadsTheTable(jumped: bool, rows: seq<Row>, s: Sighted, machine: string, transport: string, now: Time,
                           answers: map<string, map<Condition, Outcome>>, table: Table)
    requires |s.looks| == |s.targets| && (forall k :: 0 <= k < |s.follows| ==> FollowMade(s.follows[k], now))
    requires ReplayOrder(table, rows)
    ensures ReadsOnly(StepsOfTick(jumped, rows, s, machine, transport, now, answers), table)
  {
    hide ReplayOrder;
    var lost := |s.targets| > 1 && NoneSeen(s.looks);
    var pre, gap := (if jumped then [Floor(now)] else []) + [Load(rows)], if lost then [Floor(now)] else [];
    var steps := StepsOfTick(jumped, rows, s, machine, transport, now, answers);
    forall k | 0 <= k < |steps| ensures steps[k].Load? ==> steps[k] == Load(rows) {
      if |pre| <= k < |pre| + |s.follows| { assert FollowMade(s.follows[k - |pre|], now); }
    }
  }

  /** One reading, with nothing but floors before it, and follows only after. */
  ghost predicate ReadsFirst(steps: seq<Step>, l: nat, now: Time) {
    && l < |steps| && steps[l].Load?
    && (forall j :: 0 <= j < l ==> steps[j].Floor?)
    && (forall j :: l < j < |steps| ==> AfterReading(steps[j], now))
  }

  predicate AfterReading(s: Step, now: Time) {
    s.Floor? || s.Observe? || (s.Follow? && s.link.at == now)
  }

  lemma ATickReadsFirst(steps: seq<Step>, targets: seq<Target>, jumped: bool, now: Time)
    requires IsTick(steps, targets, jumped, now)
    ensures ReadsFirst(steps, if jumped then 1 else 0, now)
  {
    var pre, passes :| IsTickOf(steps, pre, passes, targets, jumped, now);
    var lead := pre + if AllLost(passes) then [Floor(now)] else [];
    var l := if jumped then 1 else 0;
    assert steps == lead + passes;
    assert forall k :: 0 <= k < |pre| ==> steps[k] == pre[k];
    forall j | l < j < |steps| ensures AfterReading(steps[j], now) {
      if j >= |lead| {
        assert steps[j] == passes[j - |lead|] && PassOver(passes[j - |lead|], targets[j - |lead|], AllLost(passes), now);
      } else if j < |pre| {
        assert FollowMade(pre[j], now);
      }
    }
  }

  /** Where memory and the table stand inside a tick. */
  ghost predicate Midway(v: World, u: World, read: bool, now: Time) {
    && NoneAfter(u.db.follows, now)
    && (if read then u.mem.loaded else u.mem.loaded == v.mem.loaded && u.db.follows == v.db.follows)
  }

  lemma OneStepOn(v: World, u: World, s: Step, read: bool, now: Time, maxAttempts: int, skipping: bool)
    requires Midway(v, u, read, now)
    requires if read then AfterReading(s, now) else s.Floor? || s.Load?
    ensures Midway(v, Take(u, s, maxAttempts, skipping), read || s.Load?, now)
  {
    hide ObserveTarget;
    if s.Observe? {
      PassKeepsLinks(u, s.pass, maxAttempts, skipping);
    }
  }

  lemma {:induction false} ATickIsInTime(v: World, steps: seq<Step>, n: nat, l: nat, now: Time, maxAttempts: int, skipping: bool)
    requires n <= |steps| && ReadsFirst(steps, l, now) && NoneAfter(v.db.follows, now)
    requires !v.mem.loaded ==> ReadsOnly(steps, v.db.follows)
    ensures AlwaysInTime(v, steps[..n], maxAttempts, skipping)
    ensures Midway(v, Run(v, steps[..n], maxAttempts, skipping), l < n, now)
  {
    hide NoneAfter, ReplayOrder, Take, Run;
    if n == 0 {
      RunNothing(v, maxAttempts, skipping);
      assert steps[..0] == [];
    } else {
      var before := steps[..n - 1];
      ATickIsInTime(v, steps, n - 1, l, now, maxAttempts, skipping);
      assert steps[..n] == before + [steps[n - 1]];
      var u := Run(v, before, maxAttempts, skipping);
      OneStepOn(v, u, steps[n - 1], l < n - 1, now, maxAttempts, skipping);
      RunOneMore(v, before, steps[n - 1], maxAttempts, skipping);
      OneMoreInTime(v, before, steps[n - 1], maxAttempts, skipping);
    }
  }

  lemma OneMoreInTime(v: World, before: seq<Step>, s: Step, maxAttempts: int, skipping: bool)
    requires AlwaysInTime(v, before, maxAttempts, skipping) && InTime(Run(v, before, maxAttempts, skipping), s)
    ensures AlwaysInTime(v, before + [s], maxAttempts, skipping)
  {
    hide InTime, Run;
    var all := before + [s];
    forall k | 0 <= k < |all| ensures InTime(Run(v, all[..k], maxAttempts, skipping), all[k]) {
      assert all[..k] == before[..k];
      if k == |before| { assert all[..k] == before; }
    }
  }

  lemma {:induction false} InTimeInTwo(w: World, a: seq<Step>, b: seq<Step>, maxAttempts: int, skipping: bool)
    requires AlwaysInTime(w, a, maxAttempts, skipping)
    requires AlwaysInTime(Run(w, a, maxAttempts, skipping), b, maxAttempts, skipping)
    ensures AlwaysInTime(w, a + b, maxAttempts, skipping)
  {
    hide InTime, Run;
    if b == [] {
      assert a + b == a;
    } else {
      var rest, last := b[..|b| - 1], b[|b| - 1];
      assert AlwaysInTime(Run(w, a, maxAttempts, skipping), rest, maxAttempts, skipping) by {
        assert forall k :: 0 <= k < |rest| ==> rest[..k] == b[..k] && rest[k] == b[k];
      }
      InTimeInTwo(w, a, rest, maxAttempts, skipping);
      RunInTwo(w, a, rest, maxAttempts, skipping);
      OneMoreInTime(w, a + rest, last, maxAttempts, skipping);
      assert a + b == (a + rest) + [last];
    }
  }

  /** Where the life stands when its i-th moment begins. */
  ghost function At(w: World, ms: seq<Moment>, i: nat, maxAttempts: int, skipping: bool): World
    requires i <= |ms|
  {
    Run(w, AllSteps(ms[..i]), maxAttempts, skipping)
  }

  /** Each tick of a process that has not read yet reads what is stored then. */
  ghost predicate ReadsInTurn(w: World, ms: seq<Moment>, maxAttempts: int, skipping: bool) {
    forall i :: 0 <= i < |ms| && ms[i].Ticked? && !At(w, ms, i, maxAttempts, skipping).mem.loaded ==>
      ReadsOnly(ms[i].steps, At(w, ms, i, maxAttempts, skipping).db.follows)
  }

  ghost predicate EndsBefore(ms: seq<Moment>, now: Time) {
    forall i :: 0 <= i < |ms| && ms[i].Ticked? ==> ms[i].now <= now
  }

  /** A life without its last moment. */
  lemma ALifeBefore(w: World, ms: seq<Moment>, now: Time, maxAttempts: int, skipping: bool)
    requires ms != [] && IsLife(ms) && ReadsInTurn(w, ms, maxAttempts, skipping) && EndsBefore(ms, now)
    ensures var n := |ms| - 1;
            && IsLife(ms[..n]) && IsMoment(ms[n]) && ReadsInTurn(w, ms[..n], maxAttempts, skipping)
            && EndsBefore(ms[..n], if ms[n].Ticked? then ms[n].now else now)
            && (ms[n].Ticked? ==> ms[n].now <= now)
            && (ms[n].Ticked? && !Run(w, AllSteps(ms[..n]), maxAttempts, skipping).mem.loaded ==>
                  ReadsOnly(ms[n].steps, Run(w, AllSteps(ms[..n]), maxAttempts, skipping).db.follows))
  {
    hide Run, ReadsOnly, AllSteps, IsMoment;
    var n := |ms| - 1;
    forall i: nat | i < n ensures At(w, ms[..n], i, maxAttempts, skipping) == At(w, ms, i, maxAttempts, skipping) {
      assert ms[..n][..i] == ms[..i];
    }
  }

  lemma {:induction false} ALifeIsInTime(w: World, ms: seq<Moment>, now: Time, maxAttempts: int, skipping: bool)
    requires IsLife(ms) && ReadsInTurn(w, ms, maxAttempts, skipping) && EndsBefore(ms, now)
    requires NoneAfter(w.db.follows, now)
    requires forall i :: 0 <= i < |ms| && ms[i].Ticked? ==> NoneAfter(w.db.follows, ms[i].now)
    ensures AlwaysInTime(w, AllSteps(ms), maxAttempts, skipping)
    ensures NoneAfter(Run(w, AllSteps(ms), maxAttempts, skipping).db.follows, now)
  {
    hide Run, Take, NoneAfter, ReadsOnly;
    if ms == [] {
      RunNothing(w, maxAttempts, skipping);
    } else {
      var n := |ms| - 1;
      var before, m := ms[..n], ms[n];
      ALifeBefore(w, ms, now, maxAttempts, skipping);
      hide IsLife, ReadsInTurn, EndsBefore;
      ALifeIsInTime(w, before, if m.Ticked? then m.now else now, maxAttempts, skipping);
      OneMomentInTime(w, before, m, now, maxAttempts, skipping);
      assert AllSteps(ms) == AllSteps(before) + StepsOf(m);
    }
  }

  lemma OneMomentInTime(w: World, before: seq<Moment>, m: Moment, now: Time, maxAttempts: int, skipping: bool)
    requires IsMoment(m) && AlwaysInTime(w, AllSteps(before), maxAttempts, skipping)
    requires m.Ticked? ==> m.now <= now
    requires var v := Run(w, AllSteps(before), maxAttempts, skipping);
             && NoneAfter(v.db.follows, if m.Ticked? then m.now else now)
             && (m.Ticked? && !v.mem.loaded ==> ReadsOnly(m.steps, v.db.follows))
    ensures var all := AllSteps(before) + StepsOf(m);
            && AlwaysInTime(w, all, maxAttempts, skipping)
            && NoneAfter(Run(w, all, maxAttempts, skipping).db.follows, now)
  {
    var v := Run(w, AllSteps(before), maxAttempts, skipping);
    hide Run;
    RunInTwo(w, AllSteps(before), StepsOf(m), maxAttempts, skipping);
    match m
    case Ticked(steps, targets, jumped, at) =>
      ATickReadsFirst(steps, targets, jumped, at);
      assert steps[..|steps|] == steps;
      ATickIsInTime(v, steps, |steps|, if jumped then 1 else 0, at, maxAttempts, skipping);
      InTimeInTwo(w, AllSteps(before), steps, maxAttempts, skipping);
    case Between(s) =>
      OneMoreInTime(w, AllSteps(before), s, maxAttempts, skipping);
      RunOneMore(w, AllSteps(before), s, maxAttempts, skipping);
  }

  /** In any life whose ticks read what is stored when they have to, memory holds
      the links of the table from the first tick of each process on. */
  lemma ALifeRemembersItsLinks(w: World, ms: seq<Moment>, now: Time, maxAttempts: int, skipping: bool)
    requires IsLife(ms) && ReadsInTurn(w, ms, maxAttempts, skipping) && EndsBefore(ms, now) && Faithful(w)
    requires NoneAfter(w.db.follows, now)
    requires forall i :: 0 <= i < |ms| && ms[i].Ticked? ==> NoneAfter(w.db.follows, ms[i].now)
    ensures Faithful(Run(w, AllSteps(ms), maxAttempts, skipping))
  {
    ALifeIsInTime(w, ms, now, maxAttempts, skipping);
    EveryRestartRemembers(w, AllSteps(ms), maxAttempts, skipping);
  }

  /** ... and resolving a target settles. */
  lemma ALifeSettlesItsTargets(w: World, ms: seq<Moment>, t: Target, now: Time, maxAttempts: int, skipping: bool)
    requires IsLife(ms) && ReadsInTurn(w, ms, maxAttempts, skipping) && EndsBefore(ms, now) && Sane(w)
    requires NoneAfter(w.db.follows, now)
    requires forall i :: 0 <= i < |ms| && ms[i].Ticked? ==> NoneAfter(w.db.follows, ms[i].now)
    ensures var m := Run(w, AllSteps(ms), maxAttempts, skipping).mem.links;
            AtRest(m, Chase(m, t, {})) && Chase(m, Chase(m, t, {}), {}) == Chase(m, t, {})
  {
    ALifeIsInTime(w, ms, now, maxAttempts, skipping);
    assert AlwaysReadsTheTable(w, AllSteps(ms), maxAttempts, skipping) by {
      forall k | 0 <= k < |AllSteps(ms)|
        ensures ReadsTheTable(Run(w, AllSteps(ms)[..k], maxAttempts, skipping), AllSteps(ms)[k])
      {
        assert InTime(Run(w, AllSteps(ms)[..k], maxAttempts, skipping), AllSteps(ms)[k]);
      }
    }
    ResolvingAlwaysSettles(w, AllSteps(ms), t, maxAttempts, skipping);
  }
}
