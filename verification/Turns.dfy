/** The daemon's own order of things: one loop makes passes and enforces retention,
    so a retention pass meets no opening, while requests may come at any time. */
module Turns {
  import opened Domain
  import opened EventLog
  import opened Incidents
  import opened Retention
  import opened World
  import opened Store
  import opened Serving

  datatype Loop = Loop(world: World, retaining: Progress)

  datatype LoopTurn =
    | Passes(steps: seq<Step>)            // a whole pass, and what is asked meanwhile
    | Asked(step: Step)                   // an acknowledgement, or a policy that no longer asks
    | Retains(cutoff: Time, hold: int)    // a retention pass begins
    | LooksForWindow
    | LooksForHeld
    | Drops
    | Ends                                // the process ends, and another begins

  function ShelfOf(w: World): Shelf {
    Shelf(w.db.log, w.db.incs)
  }

  predicate IsRequest(s: Step) {
    s.Ack? || s.Unask?
  }

  function Pruned(w: World, n: int): World {
    if n <= 1 then w else w.(db := w.db.(log := Prune(w.db.log, n)))
  }

  /** The loop makes no pass while it enforces retention; a turn that is not due
      changes nothing. */
  ghost function Turned(l: Loop, t: LoopTurn, maxAttempts: int): Loop {
    var log, incs := l.world.db.log, l.world.db.incs;
    match (t, l.retaining)
    case (Passes(steps), Resting) => l.(world := Run(l.world, steps, maxAttempts, true))
    case (Asked(s), _) => if IsRequest(s) then l.(world := Take(l.world, s, maxAttempts, true)) else l
    case (Retains(cutoff, hold), Resting) => l.(retaining := KnowsNewest(LatestCursor(log), cutoff, hold))
    case (LooksForWindow, KnowsNewest(latest, cutoff, hold)) =>
      l.(retaining := KnowsWindow(latest, ByAge(log.rows, cutoff), cutoff, hold))
    case (LooksForHeld, KnowsWindow(latest, byAge, cutoff, hold)) =>
      l.(retaining := KnowsPoint(Combine(latest, byAge, ByHold(log.rows, incs, cutoff, hold)), cutoff, hold))
    case (Drops, KnowsPoint(n, _, _)) => Loop(Pruned(l.world, n), Resting)
    case (Ends, _) => Loop(Take(l.world, Restart, maxAttempts, true), Resting)
    case _ => l
  }

  ghost function AfterTurns(l: Loop, ts: seq<LoopTurn>, maxAttempts: int): Loop {
    if ts == [] then l else Turned(AfterTurns(l, ts[..|ts| - 1], maxAttempts), ts[|ts| - 1], maxAttempts)
  }

  // ---- What a retention pass knows stays true until it prunes ----

  ghost predicate StillTrue(p: Progress, s: Shelf) {
    match p
    case Resting => true
    case KnowsNewest(latest, _, _) => latest == LatestCursor(s.log)
    case KnowsWindow(latest, byAge, cutoff, _) => latest == LatestCursor(s.log) && byAge == ByAge(s.log.rows, cutoff)
    case KnowsPoint(n, cutoff, hold) => 1 <= n <= s.log.nextSeq && SafeFrom(s, cutoff, hold, n)
  }

  ghost predicate InTurn(l: Loop) {
    Whole(l.world.db.log) && StillTrue(l.retaining, ShelfOf(l.world))
  }

  /** Nothing is opened, and nothing acknowledged is forgotten. */
  predicate OnlyCollected(incs: seq<Incident>, after: seq<Incident>) {
    && |after| == |incs|
    && forall i :: 0 <= i < |incs| ==>
         && after[i].target == incs[i].target && after[i].generation == incs[i].generation
         && after[i].condition == incs[i].condition
         && (incs[i].acknowledgedAt.Some? ==> after[i].acknowledgedAt.Some?)
  }

  lemma RequestsOnlyCollect(w: World, s: Step, maxAttempts: int)
    requires IsRequest(s)
    ensures Take(w, s, maxAttempts, true).db.log == w.db.log
    ensures OnlyCollected(w.db.incs, Take(w, s, maxAttempts, true).db.incs)
  {
  }

  lemma CollectingKeepsUncollected(incs: seq<Incident>, after: seq<Incident>, e: Event)
    requires OnlyCollected(incs, after) && Uncollected(after, e)
    ensures Uncollected(incs, e)
  {
    assert forall i :: 0 <= i < |incs| ==> ExitOfRun(after[i], e) == ExitOfRun(incs[i], e);
    if i :| 0 <= i < |after| && ExitOfRun(after[i], e) && after[i].acknowledgedAt.None? {
      assert ExitOfRun(incs[i], e) && incs[i].acknowledgedAt.None?;
    }
  }

  lemma CollectingKeepsTrue(p: Progress, s: Shelf, t: Shelf)
    requires StillTrue(p, s) && t.log == s.log && OnlyCollected(s.incs, t.incs)
    ensures StillTrue(p, t)
  {
    hide Uncollected, OnlyCollected;
    if p.KnowsPoint? {
      forall x | x in t.log.rows && x.seqNo < p.n ensures Droppable(t.incs, x.event, p.cutoff, p.hold) {
        assert Droppable(s.incs, x.event, p.cutoff, p.hold);
        if Uncollected(t.incs, x.event) {
          CollectingKeepsUncollected(s.incs, t.incs, x.event);
        }
      }
    }
  }

  lemma StepsKeepWhole(w: World, s: Step, maxAttempts: int, skipping: bool)
    requires Whole(w.db.log)
    ensures Whole(Take(w, s, maxAttempts, skipping).db.log)
  {
    hide Whole;
    match s
    case Observe(p) =>
      var g, d := PassGeneration(w, p), PassDecision(w, p);
      var noticed := w.(mem := Notice(w.mem, p.target, Observed(p.sighting), p.now));
      AppendKeepsWhole(w.db.log, EventOf(p, g));
      AppliedOnlyIncidents(noticed.(db := Recorded(w.db, EventOf(p, g))), p, d, g, maxAttempts);
      hide Applied, PassDecision, PassGeneration, EventOf, Settled;
    case Follow(f, e) => AppendKeepsWhole(w.db.log, e);
    case _ =>
  }

  lemma {:induction false} RunsKeepWhole(w: World, steps: seq<Step>, maxAttempts: int, skipping: bool)
    requires Whole(w.db.log)
    ensures Whole(Run(w, steps, maxAttempts, skipping).db.log)
  {
    if steps != [] {
      hide Take, Whole;
      var n := |steps| - 1;
      RunsKeepWhole(w, steps[..n], maxAttempts, skipping);
      StepsKeepWhole(Run(w, steps[..n], maxAttempts, skipping), steps[n], maxAttempts, skipping);
    }
  }

  lemma OneTurnOn(l: Loop, t: LoopTurn, maxAttempts: int)
    requires InTurn(l)
    ensures InTurn(Turned(l, t, maxAttempts))
  {
    hide Whole, SafeFrom, ByAge, ByHold, Run, Take, Prune;
    var shelf := ShelfOf(l.world);
    match (t, l.retaining)
    case (Passes(steps), Resting) => RunsKeepWhole(l.world, steps, maxAttempts, true);
    case (Asked(s), _) =>
      if IsRequest(s) {
        RequestsOnlyCollect(l.world, s, maxAttempts);
        CollectingKeepsTrue(l.retaining, shelf, ShelfOf(Take(l.world, s, maxAttempts, true)));
      }
    case (LooksForHeld, KnowsWindow(latest, byAge, cutoff, hold)) => ThePointIsInRange(shelf, cutoff, hold);
    case (Drops, KnowsPoint(n, _, _)) => PruneKeepsWhole(l.world.db.log, n);
    case (Ends, _) => StepsKeepWhole(l.world, Restart, maxAttempts, true);
    case _ =>
  }

  /** From `w` to `v` only events that may go were dropped, and nothing else is
      touched. */
  ghost predicate DropsOnlyWhatMayGo(w: World, v: World, cutoff: Time, hold: int) {
    && Whole(v.db.log) && v.db.log.history == w.db.log.history
    && v == w.(db := w.db.(log := v.db.log))
    && forall x :: x in w.db.log.rows && x !in v.db.log.rows ==> Droppable(w.db.incs, x.event, cutoff, hold)
  }

  lemma PruningDropsOnlyWhatMayGo(w: World, n: int, cutoff: Time, hold: int)
    requires Whole(w.db.log) && 1 <= n <= w.db.log.nextSeq && SafeFrom(ShelfOf(w), cutoff, hold, n)
    ensures DropsOnlyWhatMayGo(w, Pruned(w, n), cutoff, hold)
  {
    PruneKeepsWhole(w.db.log, n);
    OnlyBelowGoes(w.db.log, n);
    hide Whole, Prune, Droppable;
  }

  lemma OnlyBelowGoes(log: Log, n: int)
    ensures Prune(log, n).history == log.history
    ensures forall x :: x in log.rows && x !in Prune(log, n).rows ==> x.seqNo < n
  {
    var first := FirstAbove(log.rows, n - 1, 0);
    forall x | x in log.rows && x !in Prune(log, n).rows ensures x.seqNo < n {
      var i :| 0 <= i < |log.rows| && log.rows[i] == x;
      assert i >= first ==> log.rows[first..][i - first] == x;
    }
  }

  /** In any life of the daemon's loop, whole passes with whatever they open,
      requests at any time, retention passes in their separate queries, and
      processes ending at any point: whenever a prune is due, however long ago its
      point was computed, it drops nothing recorded inside the window and no exit
      still held, and leaves the log whole. */
  lemma {:induction false} TheLoopPrunesSafely(w: World, ts: seq<LoopTurn>, maxAttempts: int)
    requires Whole(w.db.log)
    ensures var l := AfterTurns(Loop(w, Resting), ts, maxAttempts);
            var p := l.retaining;
            && InTurn(l)
            && (p.KnowsPoint? ==>
                  DropsOnlyWhatMayGo(l.world, Turned(l, Drops, maxAttempts).world, p.cutoff, p.hold))
  {
    hide Turned, DropsOnlyWhatMayGo, Whole, SafeFrom, Pruned;
    var l := AfterTurns(Loop(w, Resting), ts, maxAttempts);
    if ts != [] {
      var n := |ts| - 1;
      TheLoopPrunesSafely(w, ts[..n], maxAttempts);
      OneTurnOn(AfterTurns(Loop(w, Resting), ts[..n], maxAttempts), ts[n], maxAttempts);
    }
    if l.retaining.KnowsPoint? {
      PruningDropsOnlyWhatMayGo(l.world, l.retaining.n, l.retaining.cutoff, l.retaining.hold);
      DroppingIsPruning(l, maxAttempts);
    }
  }

  lemma DroppingIsPruning(l: Loop, maxAttempts: int)
    requires l.retaining.KnowsPoint?
    ensures Turned(l, Drops, maxAttempts).world == Pruned(l.world, l.retaining.n)
  {
  }
}
