/** The table of current belief holds nothing the feed does not say. */
module Feed {
  import opened Domain
  import opened TargetState
  import opened EventLog
  import opened Store
  import opened World
  import Follows

  /** The events about one target, in the order they were recorded. */
  function EventsFor(history: seq<Event>, target: string): seq<Event> {
    if history == [] then []
    else
      var last := history[|history| - 1];
      EventsFor(history[..|history| - 1], target) + if last.target == target then [last] else []
  }

  /** Every target's row is what its own events add up to. */
  ghost predicate Derived(db: Db) {
    forall t :: RowFor(db, t) == ApplyAll(None, EventsFor(db.log.history, t))
  }

  lemma OneMoreEvent(history: seq<Event>, e: Event, target: string)
    ensures EventsFor(history + [e], target) == EventsFor(history, target) + if e.target == target then [e] else []
  {
    assert (history + [e])[..|history|] == history;
  }

  lemma ApplyOneMore(prior: Option<StateRow>, es: seq<Event>, e: Event)
    ensures ApplyAll(prior, es + [e]) == Apply(ApplyAll(prior, es), e)
  {
    assert (es + [e])[..|es|] == es;
  }

  lemma RecordingKeepsDerived(db: Db, e: Event)
    requires Derived(db)
    ensures Derived(Recorded(db, e))
  {
    hide ApplyAll, EventsFor, Apply;
    var r := Recorded(db, e);
    forall t ensures RowFor(r, t) == ApplyAll(None, EventsFor(r.log.history, t)) {
      OneMoreEvent(db.log.history, e, t);
      ApplyOneMore(None, EventsFor(db.log.history, t), e);
      RowAfterRecording(db, e, t);
      assert EventsFor(db.log.history, t) + [] == EventsFor(db.log.history, t);
    }
  }

  lemma RowAfterRecording(db: Db, e: Event, t: string)
    ensures RowFor(Recorded(db, e), t) == if e.target == t then Apply(RowFor(db, t), e) else RowFor(db, t)
  {
  }

  /** An event that asserts neither a status nor a reason adds nothing. */
  lemma SilentEventKeepsDerived(db: Db, e: Event, follows: Follows.Table)
    requires Derived(db) && !Speaks(e)
    ensures Derived(db.(log := Append(db.log, e), follows := follows))
  {
    forall t ensures ApplyAll(None, EventsFor(db.log.history + [e], t)) == ApplyAll(None, EventsFor(db.log.history, t)) {
      OneMoreEvent(db.log.history, e, t);
      ApplyOneMore(None, EventsFor(db.log.history, t), e);
      assert EventsFor(db.log.history, t) + [] == EventsFor(db.log.history, t);
    }
  }

  lemma StepKeepsDerived(w: World, s: Step, maxAttempts: int, skipping: bool)
    requires Derived(w.db) && (s.Follow? ==> !Speaks(s.event))
    ensures Derived(Take(w, s, maxAttempts, skipping).db)
  {
    hide ApplyAll, EventsFor, Applied;
    match s
    case Observe(p) =>
      var g, d := PassGeneration(w, p), PassDecision(w, p);
      var noticed := w.(mem := Notice(w.mem, p.target, Observed(p.sighting), p.now));
      RecordingKeepsDerived(w.db, EventOf(p, g));
      AppliedOnlyIncidents(noticed.(db := Recorded(w.db, EventOf(p, g))), p, d, g, maxAttempts);
    case Follow(f, e) => SilentEventKeepsDerived(w.db, e, Follows.RecordFollow(w.db.follows, f));
    case _ =>
  }

  /** Over any run, restarts included, what is believed about each target is a
      function of the events recorded about it and of nothing else. */
  lemma {:induction false} StateIsAFunctionOfTheFeed(w: World, steps: seq<Step>, maxAttempts: int, skipping: bool)
    requires Derived(w.db)
    requires forall k :: 0 <= k < |steps| && steps[k].Follow? ==> !Speaks(steps[k].event)
    ensures Derived(Run(w, steps, maxAttempts, skipping).db)
  {
    if steps != [] {
      hide Derived, Take;
      var n := |steps| - 1;
      StateIsAFunctionOfTheFeed(w, steps[..n], maxAttempts, skipping);
      StepKeepsDerived(Run(w, steps[..n], maxAttempts, skipping), steps[n], maxAttempts, skipping);
    }
  }

  /** ... as it is of any store that began empty. */
  lemma StateBeganWithTheFeed(steps: seq<Step>, maxAttempts: int, skipping: bool)
    requires forall k :: 0 <= k < |steps| && steps[k].Follow? ==> !Speaks(steps[k].event)
    ensures Derived(Run(World(EMPTY_DB, FRESH_MEMORY, []), steps, maxAttempts, skipping).db)
  {
    assert Derived(EMPTY_DB);
    hide Derived, Run;
    StateIsAFunctionOfTheFeed(World(EMPTY_DB, FRESH_MEMORY, []), steps, maxAttempts, skipping);
  }
}
