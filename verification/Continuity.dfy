/** Follow links over whole runs: what memory holds after any number of follows,
    restarts and first passes. */
module Continuity {
  import opened Config
  import opened Store
  import opened World
  import opened Follows

  /** A first pass reads the whole table, oldest first. */
  ghost predicate ReadsTheTable(w: World, s: Step) {
    s.Load? && !w.mem.loaded ==> ReplayOrder(w.db.follows, s.rows)
  }

  ghost predicate AlwaysReadsTheTable(w: World, steps: seq<Step>, maxAttempts: int, skipping: bool) {
    forall k :: 0 <= k < |steps| ==> ReadsTheTable(Run(w, steps[..k], maxAttempts, skipping), steps[k])
  }

  ghost predicate Sane(w: World) {
    Forward(w.db.follows) && Reachable(w.mem.links)
  }

  lemma PassKeepsLinks(w: World, p: Pass, maxAttempts: int, skipping: bool)
    ensures var v := ObserveTarget(w, p, maxAttempts, skipping);
            v.db.follows == w.db.follows && v.mem.links == w.mem.links && v.mem.loaded == w.mem.loaded
  {
    var g, d := PassGeneration(w, p), PassDecision(w, p);
    var noticed := w.(mem := Notice(w.mem, p.target, Observed(p.sighting), p.now));
    AppliedOnlyIncidents(noticed.(db := Recorded(w.db, EventOf(p, g))), p, d, g, maxAttempts);
  }

  lemma NothingIsReachable()
    ensures Reachable(map[])
  {
    assert Forward(EMPTY_TABLE) && LinksOf(EMPTY_TABLE) == map[];
  }

  lemma StepKeepsSane(w: World, s: Step, maxAttempts: int, skipping: bool)
    requires Sane(w) && ReadsTheTable(w, s)
    ensures Sane(Take(w, s, maxAttempts, skipping))
  {
    hide ObserveTarget, Forward, Reachable;
    match s
    case Observe(p) => PassKeepsLinks(w, p, maxAttempts, skipping);
    case Load(rows) => if !w.mem.loaded { ReplayedIsReachable(w.db.follows, rows); }
    case Follow(f, e) =>
      RecordKeepsOrder(w.db.follows, f);
      RememberingStaysReachable(w.mem.links, f);
    case Restart => NothingIsReachable();
    case _ =>
  }

  lemma {:induction false} EveryRunStaysSane(w: World, steps: seq<Step>, maxAttempts: int, skipping: bool)
    requires Sane(w) && AlwaysReadsTheTable(w, steps, maxAttempts, skipping)
    ensures Sane(Run(w, steps, maxAttempts, skipping))
  {
    hide Sane, Take, ReadsTheTable;
    if steps == [] {
      RunNothing(w, maxAttempts, skipping);
    } else {
      var before, s := steps[..|steps| - 1], steps[|steps| - 1];
      assert AlwaysReadsTheTable(w, before, maxAttempts, skipping) by {
        forall k | 0 <= k < |before| ensures ReadsTheTable(Run(w, before[..k], maxAttempts, skipping), before[k]) {
          assert before[..k] == steps[..k] && before[k] == steps[k];
        }
      }
      EveryRunStaysSane(w, before, maxAttempts, skipping);
      StepKeepsSane(Run(w, before, maxAttempts, skipping), s, maxAttempts, skipping);
    }
  }

  /** Over any run, restarts included and whatever the clock did, resolving a
      target ends where nothing leads on or at a link of another process, and
      resolving it again moves nothing. */
  lemma ResolvingAlwaysSettles(w: World, steps: seq<Step>, t: Target, maxAttempts: int, skipping: bool)
    requires Sane(w) && AlwaysReadsTheTable(w, steps, maxAttempts, skipping)
    ensures var m := Run(w, steps, maxAttempts, skipping).mem.links;
            AtRest(m, Chase(m, t, {})) && Chase(m, Chase(m, t, {}), {}) == Chase(m, t, {})
  {
    EveryRunStaysSane(w, steps, maxAttempts, skipping);
    ResolvingIsIdempotent(Run(w, steps, maxAttempts, skipping).mem.links, t);
  }

  // ---- While the clock does not go backwards ----

  /** Memory, once read, is the image of the table. */
  ghost predicate Faithful(w: World) {
    && Forward(w.db.follows) && TimeForward(w.db.follows)
    && w.mem.links == if w.mem.loaded then LinksOf(w.db.follows) else map[]
  }

  /** A follow is made in a pass, after the first reading, and no earlier than
      those before it. */
  ghost predicate InTime(w: World, s: Step) {
    && ReadsTheTable(w, s)
    && (s.Follow? ==> w.mem.loaded && NoneAfter(w.db.follows, s.link.at))
  }

  ghost predicate AlwaysInTime(w: World, steps: seq<Step>, maxAttempts: int, skipping: bool) {
    forall k :: 0 <= k < |steps| ==> InTime(Run(w, steps[..k], maxAttempts, skipping), steps[k])
  }

  lemma StepKeepsFaithful(w: World, s: Step, maxAttempts: int, skipping: bool)
    requires Faithful(w) && InTime(w, s)
    ensures Faithful(Take(w, s, maxAttempts, skipping))
  {
    hide ObserveTarget, Forward, TimeForward, LinksOf;
    match s
    case Observe(p) => PassKeepsLinks(w, p, maxAttempts, skipping);
    case Load(rows) => if !w.mem.loaded { ReplayRebuildsExactly(w.db.follows, rows); }
    case Follow(f, e) =>
      RecordKeepsOrder(w.db.follows, f);
      MemoryMirrorsTheTable(w.db.follows, f);
    case _ =>
  }

  /** However often the process is restarted, what a first pass reads back is what
      memory held: the links of the table, no more and no fewer. */
  lemma {:induction false} EveryRestartRemembers(w: World, steps: seq<Step>, maxAttempts: int, skipping: bool)
    requires Faithful(w) && AlwaysInTime(w, steps, maxAttempts, skipping)
    ensures Faithful(Run(w, steps, maxAttempts, skipping))
  {
    hide Faithful, Take, InTime;
    if steps == [] {
      RunNothing(w, maxAttempts, skipping);
    } else {
      var before, s := steps[..|steps| - 1], steps[|steps| - 1];
      assert AlwaysInTime(w, before, maxAttempts, skipping) by {
        forall k | 0 <= k < |before| ensures InTime(Run(w, before[..k], maxAttempts, skipping), before[k]) {
          assert before[..k] == steps[..k] && before[k] == steps[k];
        }
      }
      EveryRestartRemembers(w, before, maxAttempts, skipping);
      StepKeepsFaithful(Run(w, before, maxAttempts, skipping), s, maxAttempts, skipping);
    }
  }
}
