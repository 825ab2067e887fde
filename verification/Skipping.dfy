/** A repeat of a verified exit that would change nothing is not written. This
    module shows what "would change nothing" means exactly, and that a monitor
    which skips such passes cannot be told apart, in anything that matters, from
    one that never does. */
module Skipping {
  import opened Domain
  import opened Attention
  import opened TargetState
  import opened Incidents
  import opened EventLog
  import opened Store
  import opened World
  import Delivery

  /** The same incident, whenever it was last seen. */
  predicate SameIncident(a: Incident, b: Incident) {
    a.(lastSeenAt := 0) == b.(lastSeenAt := 0)
  }

  ghost predicate SameIncidents(a: seq<Incident>, b: seq<Incident>) {
    |a| == |b| && forall i :: 0 <= i < |a| ==> SameIncident(a[i], b[i])
  }

  /** Equal apart from when incidents were last seen. */
  ghost predicate Alike(a: World, b: World) {
    && SameIncidents(a.db.incs, b.db.incs)
    && a.db.deliveries == b.db.deliveries
    && a.calls == b.calls
  }

  lemma SameOpen(a: seq<Incident>, b: seq<Incident>, target: string, c: Condition, g: int)
    requires UniqueOpen(a) && SameIncidents(a, b)
    ensures UniqueOpen(b)
    ensures FindOpen(a, target, c, g) == FindOpen(b, target, c, g)
  {
    assert forall i, t, x, n :: 0 <= i < |a| ==> IsOpenFor(a[i], t, x, n) == IsOpenFor(b[i], t, x, n);
    forall i, j | 0 <= i < j < |b| && b[i].resolvedAt.None?
      ensures !IsOpenFor(b[j], b[i].target, b[i].condition, b[i].generation)
    {
      assert !IsOpenFor(a[j], a[i].target, a[i].condition, a[i].generation);
    }
    var f, h := FindOpen(a, target, c, g), FindOpen(b, target, c, g);
    if f.Some? {
      assert IsOpenFor(b[f.value], target, c, g);
      FindOpenFinds(b, f.value);
    }
  }

  // ---- Applying a decision to two worlds that are alike ----

  lemma TouchAlike(a: seq<Incident>, b: seq<Incident>, target: string, c: Condition, g: int, at: Time)
    requires UniqueOpen(a) && SameIncidents(a, b)
    ensures TouchedId(a, target, c, g) == TouchedId(b, target, c, g) <= |a|
    ensures SameIncidents(OpenOrTouch(a, target, c, g, at), OpenOrTouch(b, target, c, g, at))
  {
    SameOpen(a, b, target, c, g);
  }

  lemma DeliverAlike(a: World, b: World, p: Pass, c: Condition, id: nat, maxAttempts: int)
    requires Alike(a, b) && id < |a.db.incs|
    ensures Alike(Deliver(a, p, c, id, maxAttempts), Deliver(b, p, c, id, maxAttempts))
  {
    assert SameIncident(a.db.incs[id], b.db.incs[id]);
  }

  lemma OpenOneAlike(a: World, b: World, p: Pass, g: int, c: Condition, maxAttempts: int)
    requires UniqueOpen(a.db.incs) && Alike(a, b)
    ensures UniqueOpen(OpenOne(a, p, g, c, maxAttempts).db.incs)
    ensures Alike(OpenOne(a, p, g, c, maxAttempts), OpenOne(b, p, g, c, maxAttempts))
  {
    OpenOneKeepsTheIndex(a, p, g, c, maxAttempts);
    TouchAlike(a.db.incs, b.db.incs, p.target, c, g, p.now);
    var id := TouchedId(a.db.incs, p.target, c, g);
    var x, y := OpenOrTouch(a.db.incs, p.target, c, g, p.now), OpenOrTouch(b.db.incs, p.target, c, g, p.now);
    assert SameIncident(x[id], y[id]);
    DeliverAlike(a.(db := a.db.(incs := x)), b.(db := b.db.(incs := y)), p, c, id, maxAttempts);
  }

  lemma OpenOneKeepsTheIndex(w: World, p: Pass, g: int, c: Condition, maxAttempts: int)
    requires UniqueOpen(w.db.incs)
    ensures UniqueOpen(OpenOne(w, p, g, c, maxAttempts).db.incs)
  {
    OpeningKeepsTheIndex(w.db.incs, p.target, c, g, p.now);
  }

  lemma {:induction false} OpenFirstAlike(a: World, b: World, p: Pass, g: int, open: seq<Condition>, n: nat, maxAttempts: int)
    requires n <= |open|
    requires UniqueOpen(a.db.incs) && Alike(a, b)
    ensures UniqueOpen(OpenFirst(a, p, g, open, n, maxAttempts).db.incs)
    ensures Alike(OpenFirst(a, p, g, open, n, maxAttempts), OpenFirst(b, p, g, open, n, maxAttempts))
  {
    if n > 0 {
      OpenFirstAlike(a, b, p, g, open, n - 1, maxAttempts);
      OpenOneAlike(OpenFirst(a, p, g, open, n - 1, maxAttempts), OpenFirst(b, p, g, open, n - 1, maxAttempts),
                   p, g, open[n - 1], maxAttempts);
    }
  }

  lemma SweepAlike(a: seq<Incident>, b: seq<Incident>, target: string, g: int, close: seq<Condition>, at: Time)
    requires UniqueOpen(a) && SameIncidents(a, b)
    ensures UniqueOpen(Sweep(a, target, g, close, at))
    ensures SameIncidents(Sweep(a, target, g, close, at), Sweep(b, target, g, close, at))
  {
    var x, y := Sweep(a, target, g, close, at), Sweep(b, target, g, close, at);
    forall i | 0 <= i < |x| ensures SameIncident(x[i], y[i]) {
      assert SameIncident(a[i], b[i]);
    }
    forall i, j | 0 <= i < j < |x| && x[i].resolvedAt.None?
      ensures !IsOpenFor(x[j], x[i].target, x[i].condition, x[i].generation)
    {
      assert !IsOpenFor(a[j], a[i].target, a[i].condition, a[i].generation);
    }
  }

  lemma AppliedAlike(a: World, b: World, p: Pass, d: Decision, g: int, maxAttempts: int)
    requires UniqueOpen(a.db.incs) && Alike(a, b)
    ensures UniqueOpen(Applied(a, p, d, g, maxAttempts).db.incs)
    ensures Alike(Applied(a, p, d, g, maxAttempts), Applied(b, p, d, g, maxAttempts))
  {
    OpenFirstAlike(a, b, p, g, d.open, |d.open|, maxAttempts);
    SweepAlike(OpenFirst(a, p, g, d.open, |d.open|, maxAttempts).db.incs,
               OpenFirst(b, p, g, d.open, |d.open|, maxAttempts).db.incs, p.target, g, d.close, p.now);
  }

  // ---- Settled is exactly "nothing would change" ----

  lemma {:induction false} SettledOpensNothing(w: World, p: Pass, d: Decision, g: int, n: nat, maxAttempts: int)
    requires n <= |d.open|
    requires UniqueOpen(w.db.incs) && Settled(w.db, p.target, d, g, maxAttempts)
    ensures Alike(w, OpenFirst(w, p, g, d.open, n, maxAttempts))
  {
    if n > 0 {
      SettledOpensNothing(w, p, d, g, n - 1, maxAttempts);
      var v := OpenFirst(w, p, g, d.open, n - 1, maxAttempts);
      var c := d.open[n - 1];
      SameOpen(w.db.incs, v.db.incs, p.target, c, g);
      var id := FindOpen(w.db.incs, p.target, c, g).value;
      assert SameIncident(w.db.incs[id], v.db.incs[id]);
      assert Quieted(v.db.incs, v.db.deliveries, id, maxAttempts);
    }
  }

  lemma SettledChangesNothing(w: World, p: Pass, d: Decision, g: int, maxAttempts: int)
    requires UniqueOpen(w.db.incs) && Settled(w.db, p.target, d, g, maxAttempts)
    ensures Alike(w, Applied(w, p, d, g, maxAttempts))
  {
    SettledOpensNothing(w, p, d, g, |d.open|, maxAttempts);
    var v := OpenFirst(w, p, g, d.open, |d.open|, maxAttempts);
    var swept := Sweep(v.db.incs, p.target, g, d.close, p.now);
    forall i | 0 <= i < |swept| ensures SameIncident(w.db.incs[i], swept[i]) {
      assert SameIncident(w.db.incs[i], v.db.incs[i]);
      assert !Swept(w.db.incs[i], p.target, g, d.close);
    }
  }

  /** Opening never alters what an existing incident is about, and marks one
      notified only by calling the notifier. */
  ghost predicate Extends(w: World, v: World) {
    && |w.db.incs| <= |v.db.incs|
    && (forall i :: 0 <= i < |w.db.incs| ==>
          SameIncident(w.db.incs[i], v.db.incs[i].(notifiedAt := w.db.incs[i].notifiedAt)))
    && w.calls <= v.calls
    && (v.calls == w.calls ==>
        && v.db.deliveries == w.db.deliveries
        && forall i :: 0 <= i < |w.db.incs| ==> SameIncident(w.db.incs[i], v.db.incs[i]))
  }

  lemma TouchExtends(w: World, v: World, p: Pass, g: int, c: Condition)
    requires Extends(w, v)
    ensures Extends(w, v.(db := v.db.(incs := OpenOrTouch(v.db.incs, p.target, c, g, p.now))))
  {
    var x := OpenOrTouch(v.db.incs, p.target, c, g, p.now);
    forall i | 0 <= i < |w.db.incs|
      ensures SameIncident(w.db.incs[i], x[i].(notifiedAt := w.db.incs[i].notifiedAt))
      ensures v.calls == w.calls ==> SameIncident(w.db.incs[i], x[i])
    {
      assert SameIncident(w.db.incs[i], v.db.incs[i].(notifiedAt := w.db.incs[i].notifiedAt));
    }
  }

  lemma DeliverExtends(w: World, v: World, p: Pass, c: Condition, id: nat, maxAttempts: int)
    requires Extends(w, v) && id < |v.db.incs|
    ensures Extends(w, Deliver(v, p, c, id, maxAttempts))
    ensures Delivery.ShouldAttempt(v.db.deliveries, id, maxAttempts) ==>
              |Deliver(v, p, c, id, maxAttempts).calls| > |v.calls|
  {
    var x := Deliver(v, p, c, id, maxAttempts);
    forall i | 0 <= i < |w.db.incs|
      ensures SameIncident(w.db.incs[i], x.db.incs[i].(notifiedAt := w.db.incs[i].notifiedAt))
    {
      assert SameIncident(w.db.incs[i], v.db.incs[i].(notifiedAt := w.db.incs[i].notifiedAt));
    }
  }

  lemma OpenOneExtends(w: World, v: World, p: Pass, g: int, c: Condition, maxAttempts: int)
    requires Extends(w, v)
    ensures Extends(w, OpenOne(v, p, g, c, maxAttempts))
    ensures |OpenOne(v, p, g, c, maxAttempts).db.incs| > |v.db.incs| || FindOpen(v.db.incs, p.target, c, g).Some?
    ensures |OpenOne(v, p, g, c, maxAttempts).calls| > |v.calls|
         || FindOpen(v.db.incs, p.target, c, g).None?
         || Quieted(v.db.incs, v.db.deliveries, FindOpen(v.db.incs, p.target, c, g).value, maxAttempts)
  {
    TouchExtends(w, v, p, g, c);
    var touched := v.(db := v.db.(incs := OpenOrTouch(v.db.incs, p.target, c, g, p.now)));
    DeliverExtends(w, touched, p, c, TouchedId(v.db.incs, p.target, c, g), maxAttempts);
  }

  lemma {:induction false} OpenFirstExtends(w: World, p: Pass, g: int, open: seq<Condition>, n: nat, maxAttempts: int)
    requires n <= |open|
    ensures Extends(w, OpenFirst(w, p, g, open, n, maxAttempts))
  {
    if n > 0 {
      OpenFirstExtends(w, p, g, open, n - 1, maxAttempts);
      OpenOneExtends(w, OpenFirst(w, p, g, open, n - 1, maxAttempts), p, g, open[n - 1], maxAttempts);
    }
  }

  lemma UnsettledByOne(w: World, v: World, p: Pass, g: int, c: Condition, maxAttempts: int)
    requires UniqueOpen(w.db.incs) && Extends(w, v)
    requires var f := FindOpen(w.db.incs, p.target, c, g);
             f.None? || !Quieted(w.db.incs, w.db.deliveries, f.value, maxAttempts)
    ensures var x := OpenOne(v, p, g, c, maxAttempts);
            |x.db.incs| > |w.db.incs| || |x.calls| > |w.calls|
  {
    OpenOneExtends(w, v, p, g, c, maxAttempts);
    if |v.db.incs| == |w.db.incs| && v.calls == w.calls {
      assert SameIncidents(w.db.incs, v.db.incs);
      SameOpen(w.db.incs, v.db.incs, p.target, c, g);
      var f := FindOpen(w.db.incs, p.target, c, g);
      if f.Some? {
        assert SameIncident(w.db.incs[f.value], v.db.incs[f.value]);
      }
    }
  }

  lemma {:induction false} UnsettledByOpening(w: World, p: Pass, open: seq<Condition>, g: int, maxAttempts: int, k: nat, n: nat)
    requires UniqueOpen(w.db.incs) && k < n <= |open|
    requires var f := FindOpen(w.db.incs, p.target, open[k], g);
             f.None? || !Quieted(w.db.incs, w.db.deliveries, f.value, maxAttempts)
    ensures var v := OpenFirst(w, p, g, open, n, maxAttempts);
            |v.db.incs| > |w.db.incs| || |v.calls| > |w.calls|
  {
    var v := OpenFirst(w, p, g, open, n - 1, maxAttempts);
    if k < n - 1 {
      UnsettledByOpening(w, p, open, g, maxAttempts, k, n - 1);
      OpenOneOnlyIncidents(v, p, g, open[n - 1], maxAttempts);
    } else {
      OpenFirstExtends(w, p, g, open, k, maxAttempts);
      UnsettledByOne(w, v, p, g, open[k], maxAttempts);
    }
  }

  /** A pass is settled exactly when applying its decision would leave every
      incident, every delivery and every call as they are, but for the time the
      open incidents were last seen. */
  lemma SettledExactly(w: World, p: Pass, d: Decision, g: int, maxAttempts: int)
    requires UniqueOpen(w.db.incs)
    ensures Settled(w.db, p.target, d, g, maxAttempts) <==> Alike(w, Applied(w, p, d, g, maxAttempts))
  {
    if Settled(w.db, p.target, d, g, maxAttempts) {
      SettledChangesNothing(w, p, d, g, maxAttempts);
    } else {
      var v := OpenFirst(w, p, g, d.open, |d.open|, maxAttempts);
      OpenFirstExtends(w, p, g, d.open, |d.open|, maxAttempts);
      if i :| 0 <= i < |w.db.incs| && Swept(w.db.incs[i], p.target, g, d.close) {
        assert SameIncident(w.db.incs[i], v.db.incs[i].(notifiedAt := w.db.incs[i].notifiedAt));
        assert !SameIncident(w.db.incs[i], Applied(w, p, d, g, maxAttempts).db.incs[i]);
      } else {
        var c :| c in d.open && !(
          && FindOpen(w.db.incs, p.target, c, g).Some?
          && Quieted(w.db.incs, w.db.deliveries, FindOpen(w.db.incs, p.target, c, g).value, maxAttempts));
        var k :| 0 <= k < |d.open| && d.open[k] == c;
        UnsettledByOpening(w, p, d.open, g, maxAttempts, k, |d.open|);
      }
    }
  }

  // ---- A monitor that skips, beside one that never does ----

  /** What later passes read of a row: its run, its status and its session. */
  ghost predicate SameRun(a: StateRow, b: StateRow) {
    a.generation == b.generation && a.status == b.status && a.session == b.session
  }

  ghost predicate SameRuns(a: map<string, StateRow>, b: map<string, StateRow>) {
    a.Keys == b.Keys && forall t :: t in a ==> SameRun(a[t], b[t])
  }

  /** `e` restates an exit the feed already carries. */
  ghost predicate Restates(feed: seq<Event>, e: Event) {
    e.status == Exited && exists i :: 0 <= i < |feed| && SameExit(feed[i], e)
  }

  predicate SameExit(x: Event, e: Event) {
    x.status == Exited && x.target == e.target && x.generation == e.generation && x.session == e.session
  }

  /** The first feed is the second with restated exits left out. */
  ghost predicate OmitsRestatements(a: seq<Event>, b: seq<Event>) {
    if b == [] then a == []
    else
      var last := b[|b| - 1];
      || (a != [] && a[|a| - 1] == last && OmitsRestatements(a[..|a| - 1], b[..|b| - 1]))
      || (Restates(a, last) && OmitsRestatements(a, b[..|b| - 1]))
  }

  /** Every exit on record is in the feed. */
  ghost predicate ExitsRecorded(w: World) {
    forall t :: t in w.db.states && w.db.states[t].status == Exited ==>
      exists i :: 0 <= i < |w.db.log.history| && RecordsExit(w.db.log.history[i], t, w.db.states[t])
  }

  predicate RecordsExit(x: Event, target: string, row: StateRow) {
    x.status == Exited && x.target == target && x.generation == row.generation && x.session == row.session
  }

  ghost predicate Shadows(a: World, b: World) {
    && a.mem == b.mem
    && a.db.follows == b.db.follows
    && UniqueOpen(a.db.incs)
    && Alike(a, b)
    && SameRuns(a.db.states, b.db.states)
    && OmitsRestatements(a.db.log.history, b.db.log.history)
    && ExitsRecorded(a)
  }

  /** The times on a target's row are all before `now`. */
  ghost predicate Before(w: World, target: string, now: Time) {
    target in w.db.states ==> w.db.states[target].observedAt < now && w.db.states[target].reasonAt < now
  }

  /** A pass that would be skipped names the session on record. */
  ghost predicate NamesTheRecorded(w: World, p: Pass, maxAttempts: int) {
    var g := PassGeneration(w, p);
    IsRepeatTerminal(RowFor(w.db, p.target), p.sighting, g) && Settled(w.db, p.target, PassDecision(w, p), g, maxAttempts) ==>
      p.sighting.identity == w.db.states[p.target].session
  }

  lemma SameView(a: World, b: World, p: Pass, maxAttempts: int)
    requires Shadows(a, b)
    ensures PassGeneration(a, p) == PassGeneration(b, p)
    ensures PassDecision(a, p) == PassDecision(b, p)
  {
  }

  lemma BothAppend(a: seq<Event>, b: seq<Event>, e: Event)
    requires OmitsRestatements(a, b)
    ensures OmitsRestatements(a + [e], b + [e])
  {
    assert (a + [e])[..|a|] == a && (b + [e])[..|b|] == b;
  }

  lemma OneOmits(a: seq<Event>, b: seq<Event>, e: Event)
    requires OmitsRestatements(a, b) && Restates(a, e)
    ensures OmitsRestatements(a, b + [e])
  {
    assert (b + [e])[..|b|] == b;
  }

  /** Both write the event: their rows go on agreeing, because to both of them
      it is the newest thing heard. */
  lemma BothRecord(a: World, b: World, e: Event)
    requires SameRuns(a.db.states, b.db.states) && ExitsRecorded(a)
    requires OmitsRestatements(a.db.log.history, b.db.log.history)
    requires Before(a, e.target, e.at) && Before(b, e.target, e.at)
    ensures SameRuns(Recorded(a.db, e).states, Recorded(b.db, e).states)
    ensures OmitsRestatements(Recorded(a.db, e).log.history, Recorded(b.db, e).log.history)
    ensures ExitsRecorded(a.(db := Recorded(a.db, e)))
  {
    BothAppend(a.db.log.history, b.db.log.history, e);
    hide OmitsRestatements;
    ExitsStayRecorded(a, e);
  }

  lemma ExitsStayRecorded(a: World, e: Event)
    requires ExitsRecorded(a) && Before(a, e.target, e.at)
    ensures ExitsRecorded(a.(db := Recorded(a.db, e)))
  {
    var x := Recorded(a.db, e);
    forall t | t in x.states && x.states[t].status == Exited
      ensures exists i :: 0 <= i < |x.log.history| && RecordsExit(x.log.history[i], t, x.states[t])
    {
      if t in a.db.states && SameRun(a.db.states[t], x.states[t]) {
        var i :| 0 <= i < |a.db.log.history| && RecordsExit(a.db.log.history[i], t, a.db.states[t]);
        assert RecordsExit(x.log.history[i], t, x.states[t]);
      } else {
        assert RecordsExit(x.log.history[|a.db.log.history|], t, x.states[t]);
      }
    }
  }

  /** One pass, skipped or not, keeps the two worlds in step. */
  lemma PassKeepsShadow(a: World, b: World, p: Pass, maxAttempts: int)
    requires Shadows(a, b) && NamesTheRecorded(a, p, maxAttempts)
    requires Before(a, p.target, p.now) && Before(b, p.target, p.now)
    ensures Shadows(ObserveTarget(a, p, maxAttempts, true), ObserveTarget(b, p, maxAttempts, false))
  {
    SameView(a, b, p, maxAttempts);
    var g, d := PassGeneration(a, p), PassDecision(a, p);
    var mem := Notice(a.mem, p.target, Observed(p.sighting), p.now);
    var a1, b1 := a.(mem := mem), b.(mem := mem);
    var e := EventOf(p, g);
    var b2 := b1.(db := Recorded(b.db, e));
    var b3 := Applied(b2, p, d, g, maxAttempts);
    assert b3 == ObserveTarget(b, p, maxAttempts, false);
    AppliedOnlyIncidents(b2, p, d, g, maxAttempts);
    if IsRepeatTerminal(RowFor(a.db, p.target), p.sighting, g) && Settled(a.db, p.target, d, g, maxAttempts) {
      assert ObserveTarget(a, p, maxAttempts, true) == a1;
      SkippedPassKeepsShadow(a, b, p, e, g, d, maxAttempts);
    } else {
      var a2 := a1.(db := Recorded(a.db, e));
      BothRecord(a1, b1, e);
      AppliedOnlyIncidents(a2, p, d, g, maxAttempts);
      AppliedAlike(a2, b2, p, d, g, maxAttempts);
      assert ObserveTarget(a, p, maxAttempts, true) == Applied(a2, p, d, g, maxAttempts);
    }
  }

  lemma SkippedPassKeepsShadow(a: World, b: World, p: Pass, e: Event, g: int, d: Decision, maxAttempts: int)
    requires Shadows(a, b) && NamesTheRecorded(a, p, maxAttempts)
    requires g == PassGeneration(a, p) && e == EventOf(p, g)
    requires d == PassDecision(a, p)
    requires IsRepeatTerminal(RowFor(a.db, p.target), p.sighting, g) && Settled(a.db, p.target, d, g, maxAttempts)
    ensures var mem := Notice(a.mem, p.target, Observed(p.sighting), p.now);
            Shadows(a.(mem := mem), Applied(b.(mem := mem, db := Recorded(b.db, e)), p, d, g, maxAttempts))
  {
    var mem := Notice(a.mem, p.target, Observed(p.sighting), p.now);
    var a1, b2 := a.(mem := mem), b.(mem := mem, db := Recorded(b.db, e));
    AppliedOnlyIncidents(b2, p, d, g, maxAttempts);
    assert Alike(a1, Applied(b2, p, d, g, maxAttempts)) by {
      SettledChangesNothing(a1, p, d, g, maxAttempts);
      AppliedAlike(a1, b2, p, d, g, maxAttempts);
      AlikeIsTransitive(a1, Applied(a1, p, d, g, maxAttempts), Applied(b2, p, d, g, maxAttempts));
    }
    RestatingChangesNoRun(a, b, p, e, g);
  }

  lemma AlikeIsTransitive(a: World, b: World, c: World)
    requires Alike(a, b) && Alike(b, c)
    ensures Alike(a, c)
  {
    forall i | 0 <= i < |a.db.incs| ensures SameIncident(a.db.incs[i], c.db.incs[i]) {
      assert SameIncident(a.db.incs[i], b.db.incs[i]) && SameIncident(b.db.incs[i], c.db.incs[i]);
    }
  }

  lemma RestatingChangesNoRun(a: World, b: World, p: Pass, e: Event, g: int)
    requires SameRuns(a.db.states, b.db.states) && ExitsRecorded(a)
    requires OmitsRestatements(a.db.log.history, b.db.log.history)
    requires g == PassGeneration(a, p) && e == EventOf(p, g)
    requires IsRepeatTerminal(RowFor(a.db, p.target), p.sighting, g)
    requires p.sighting.identity == a.db.states[p.target].session
    ensures SameRuns(a.db.states, Recorded(b.db, e).states)
    ensures OmitsRestatements(a.db.log.history, Recorded(b.db, e).log.history)
  {
    var row := a.db.states[p.target];
    var i :| 0 <= i < |a.db.log.history| && RecordsExit(a.db.log.history[i], p.target, row);
    assert SameExit(a.db.log.history[i], e);
    OneOmits(a.db.log.history, b.db.log.history, e);
  }

  // ---- ... over any run ----

  predicate SameTarget(s: Step, t: Step) {
    s.Observe? && t.Observe? && s.pass.target == t.pass.target
  }

  /** Every pass over a target is later than the passes before it and than what
      was on record to begin with. */
  ghost predicate Timely(w: World, steps: seq<Step>) {
    && (forall k :: 0 <= k < |steps| && steps[k].Observe? ==>
          0 < steps[k].pass.now && Before(w, steps[k].pass.target, steps[k].pass.now))
    && (forall j, k :: 0 <= j < k < |steps| && SameTarget(steps[j], steps[k]) ==>
          steps[j].pass.now < steps[k].pass.now)
  }

  lemma TimelyPrefix(w: World, steps: seq<Step>)
    requires steps != [] && Timely(w, steps)
    ensures Timely(w, steps[..|steps| - 1])
  {
    var before := steps[..|steps| - 1];
    forall j, k | 0 <= j < k < |before| && SameTarget(before[j], before[k])
      ensures before[j].pass.now < before[k].pass.now
    {
      assert SameTarget(steps[j], steps[k]);
    }
  }

  lemma LastIsLatest(w: World, steps: seq<Step>)
    requires steps != [] && Timely(w, steps) && steps[|steps| - 1].Observe?
    ensures var s := steps[|steps| - 1];
            && 0 < s.pass.now && Before(w, s.pass.target, s.pass.now)
            && forall k :: 0 <= k < |steps| - 1 && steps[k].Observe? && steps[k].pass.target == s.pass.target ==>
                 steps[k].pass.now < s.pass.now
  {
    var n := |steps| - 1;
    forall k | 0 <= k < n && steps[k].Observe? && steps[k].pass.target == steps[n].pass.target
      ensures steps[k].pass.now < steps[n].pass.now
    {
      assert SameTarget(steps[k], steps[n]);
    }
  }

  lemma PassStaysBefore(w: World, p: Pass, target: string, now: Time, maxAttempts: int, skipping: bool)
    requires 0 < now && Before(w, target, now) && (p.target == target ==> p.now < now)
    ensures Before(ObserveTarget(w, p, maxAttempts, skipping), target, now)
  {
    var g, d := PassGeneration(w, p), PassDecision(w, p);
    var noticed := w.(mem := Notice(w.mem, p.target, Observed(p.sighting), p.now));
    AppliedOnlyIncidents(noticed.(db := Recorded(w.db, EventOf(p, g))), p, d, g, maxAttempts);
  }

  lemma {:induction false} RunStaysBefore(w: World, steps: seq<Step>, target: string, now: Time, maxAttempts: int, skipping: bool)
    requires 0 < now && Before(w, target, now)
    requires forall k :: 0 <= k < |steps| && steps[k].Observe? && steps[k].pass.target == target ==>
               steps[k].pass.now < now
    ensures Before(Run(w, steps, maxAttempts, skipping), target, now)
  {
    if steps != [] {
      var n := |steps| - 1;
      RunStaysBefore(w, steps[..n], target, now, maxAttempts, skipping);
      if steps[n].Observe? {
        PassStaysBefore(Run(w, steps[..n], maxAttempts, skipping), steps[n].pass, target, now, maxAttempts, skipping);
      }
    }
  }

  lemma OtherStepKeepsShadow(a: World, b: World, s: Step, maxAttempts: int)
    requires Shadows(a, b) && !s.Observe?
    requires s.Follow? ==> s.event.status == Unstated
    ensures Shadows(Take(a, s, maxAttempts, true), Take(b, s, maxAttempts, false))
  {
    var x, y := Take(a, s, maxAttempts, true), Take(b, s, maxAttempts, false);
    match s
    case Follow(f, e) =>
      BothAppend(a.db.log.history, b.db.log.history, e);
      forall t | t in x.db.states && x.db.states[t].status == Exited
        ensures exists i :: 0 <= i < |x.db.log.history| && RecordsExit(x.db.log.history[i], t, x.db.states[t])
      {
        var i :| 0 <= i < |a.db.log.history| && RecordsExit(a.db.log.history[i], t, a.db.states[t]);
        assert RecordsExit(x.db.log.history[i], t, x.db.states[t]);
      }
    case Ack(id, at) => AckAlike(a.db.incs, b.db.incs, id, at);
    case Unask(target, at) => DropAlike(a.db.incs, b.db.incs, target, at);
    case Floor(_) =>
    case Load(_) =>
    case Restart =>
  }

  lemma AckAlike(a: seq<Incident>, b: seq<Incident>, id: nat, at: Time)
    requires UniqueOpen(a) && SameIncidents(a, b)
    ensures id < |a| ==> UniqueOpen(a[id := Stamped(a[id], Acknowledging, at)])
    ensures id < |a| ==> SameIncidents(a[id := Stamped(a[id], Acknowledging, at)], b[id := Stamped(b[id], Acknowledging, at)])
  {
    if id < |a| { assert SameIncident(a[id], b[id]); }
  }

  lemma DropAlike(a: seq<Incident>, b: seq<Incident>, target: string, at: Time)
    requires UniqueOpen(a) && SameIncidents(a, b)
    ensures UniqueOpen(DropOverdue(a, target, at))
    ensures SameIncidents(DropOverdue(a, target, at), DropOverdue(b, target, at))
  {
    var x, y := DropOverdue(a, target, at), DropOverdue(b, target, at);
    forall i | 0 <= i < |x| ensures SameIncident(x[i], y[i]) {
      assert SameIncident(a[i], b[i]);
    }
    forall i, j | 0 <= i < j < |x| && x[i].resolvedAt.None?
      ensures !IsOpenFor(x[j], x[i].target, x[i].condition, x[i].generation)
    {
      assert !IsOpenFor(a[j], a[i].target, a[i].condition, a[i].generation);
    }
  }

  /** The events a follow announces never assert a status. */
  ghost predicate FollowsAssertNothing(steps: seq<Step>) {
    forall k :: 0 <= k < |steps| && steps[k].Follow? ==> steps[k].event.status == Unstated
  }

  lemma {:induction false} SameFeed(h: seq<Event>)
    ensures OmitsRestatements(h, h)
  {
    if h != [] {
      SameFeed(h[..|h| - 1]);
    }
  }

  /** Where a run stands after its first `k` steps. */
  ghost function StandsAt(w: World, steps: seq<Step>, k: nat, maxAttempts: int, skipping: bool): World
    requires k <= |steps|
  {
    Run(w, steps[..k], maxAttempts, skipping)
  }

  ghost predicate ShadowsAt(w: World, steps: seq<Step>, k: nat, maxAttempts: int)
    requires k <= |steps|
  {
    Shadows(StandsAt(w, steps, k, maxAttempts, true), StandsAt(w, steps, k, maxAttempts, false))
  }

  ghost predicate NeverParted(w: World, steps: seq<Step>, maxAttempts: int) {
    forall k :: 0 <= k <= |steps| ==> ShadowsAt(w, steps, k, maxAttempts)
  }

  ghost predicate AlwaysNames(w: World, steps: seq<Step>, maxAttempts: int) {
    forall k :: 0 <= k < |steps| && steps[k].Observe? ==>
      NamesTheRecorded(StandsAt(w, steps, k, maxAttempts, true), steps[k].pass, maxAttempts)
  }

  lemma StandsStay(w: World, steps: seq<Step>, k: nat, maxAttempts: int, skipping: bool)
    requires steps != [] && k < |steps|
    ensures StandsAt(w, steps[..|steps| - 1], k, maxAttempts, skipping) == StandsAt(w, steps, k, maxAttempts, skipping)
    ensures StandsAt(w, steps, |steps| - 1, maxAttempts, skipping) == Run(w, steps[..|steps| - 1], maxAttempts, skipping)
    ensures StandsAt(w, steps, |steps|, maxAttempts, skipping) == Run(w, steps, maxAttempts, skipping)
  {
    hide Run;
    assert steps[..|steps| - 1][..k] == steps[..k] && steps[..|steps|] == steps;
  }

  lemma NeverPartedOneMore(w: World, steps: seq<Step>, maxAttempts: int)
    requires steps != []
    ensures var n := |steps| - 1;
            && (NeverParted(w, steps, maxAttempts) <==>
                  NeverParted(w, steps[..n], maxAttempts) && ShadowsAt(w, steps, n + 1, maxAttempts))
            && (NeverParted(w, steps[..n], maxAttempts) ==> ShadowsAt(w, steps, n, maxAttempts))
            && (AlwaysNames(w, steps, maxAttempts) <==>
                  && AlwaysNames(w, steps[..n], maxAttempts)
                  && (steps[n].Observe? ==> NamesTheRecorded(StandsAt(w, steps, n, maxAttempts, true), steps[n].pass, maxAttempts)))
  {
    hide Shadows, NamesTheRecorded, StandsAt;
    var n := |steps| - 1;
    forall k: nat | k <= n
      ensures StandsAt(w, steps[..n], k, maxAttempts, true) == StandsAt(w, steps, k, maxAttempts, true)
      ensures StandsAt(w, steps[..n], k, maxAttempts, false) == StandsAt(w, steps, k, maxAttempts, false)
    {
      StandsStay(w, steps, k, maxAttempts, true);
      StandsStay(w, steps, k, maxAttempts, false);
    }
    assert forall k: nat :: k <= n ==> ShadowsAt(w, steps[..n], k, maxAttempts) == ShadowsAt(w, steps, k, maxAttempts);
  }

  /** A skipped pass that does not name the session on record parts the two. */
  lemma AnotherNamePartsThem(a: World, b: World, p: Pass, maxAttempts: int)
    requires Shadows(a, b) && !NamesTheRecorded(a, p, maxAttempts)
    requires Before(b, p.target, p.now)
    ensures !Shadows(ObserveTarget(a, p, maxAttempts, true), ObserveTarget(b, p, maxAttempts, false))
  {
    SameView(a, b, p, maxAttempts);
    var g, d := PassGeneration(a, p), PassDecision(a, p);
    var noticed := b.(mem := Notice(b.mem, p.target, Observed(p.sighting), p.now));
    var written := noticed.(db := Recorded(b.db, EventOf(p, g)));
    AppliedOnlyIncidents(written, p, d, g, maxAttempts);
    hide Applied;
    assert ObserveTarget(a, p, maxAttempts, true).db == a.db;
    assert ObserveTarget(b, p, maxAttempts, false) == Applied(written, p, d, g, maxAttempts);
    assert written.db.states[p.target].session == p.sighting.identity;
    assert !SameRun(a.db.states[p.target], written.db.states[p.target]);
  }

  lemma OneStepShadowsExactly(a: World, b: World, s: Step, maxAttempts: int)
    requires Shadows(a, b)
    requires s.Observe? ==> Before(a, s.pass.target, s.pass.now) && Before(b, s.pass.target, s.pass.now)
    requires s.Follow? ==> s.event.status == Unstated
    ensures Shadows(Take(a, s, maxAttempts, true), Take(b, s, maxAttempts, false)) <==>
              (s.Observe? ==> NamesTheRecorded(a, s.pass, maxAttempts))
  {
    hide Shadows, Before, ObserveTarget, NamesTheRecorded;
    if s.Observe? {
      if NamesTheRecorded(a, s.pass, maxAttempts) {
        PassKeepsShadow(a, b, s.pass, maxAttempts);
      } else {
        AnotherNamePartsThem(a, b, s.pass, maxAttempts);
      }
    } else {
      OtherStepKeepsShadow(a, b, s, maxAttempts);
    }
  }

  /** Over any run, restarts and acknowledgements included, the monitor that
      skips settled repeats and the one that never skips hold at every moment the
      same incidents apart from when they were last seen, the same deliveries, the
      same memory and the same run, status and session of every target; they made
      the same calls to the notifier; and the first one's feed is the second's with
      nothing but restated exits left out: exactly when every pass that was skipped
      named the session on record. */
  lemma {:induction false} SkippingCannotBeToldExactly(w: World, steps: seq<Step>, maxAttempts: int)
    requires UniqueOpen(w.db.incs) && ExitsRecorded(w)
    requires Timely(w, steps) && FollowsAssertNothing(steps)
    ensures NeverParted(w, steps, maxAttempts) <==> AlwaysNames(w, steps, maxAttempts)
  {
    hide Shadows, NamesTheRecorded, Take;
    if steps == [] {
      BeginsAlike(w, maxAttempts);
    } else {
      var n := |steps| - 1;
      TimelyPrefix(w, steps);
      assert FollowsAssertNothing(steps[..n]);
      SkippingCannotBeToldExactly(w, steps[..n], maxAttempts);
      NeverPartedOneMore(w, steps, maxAttempts);
      StandsStay(w, steps, n, maxAttempts, true);
      StandsStay(w, steps, n, maxAttempts, false);
      BeforeTheLast(w, steps, maxAttempts);
      if ShadowsAt(w, steps, n, maxAttempts) {
        OneStepShadowsExactly(StandsAt(w, steps, n, maxAttempts, true), StandsAt(w, steps, n, maxAttempts, false), steps[n], maxAttempts);
      }
    }
  }

  lemma BeginsAlike(w: World, maxAttempts: int)
    requires UniqueOpen(w.db.incs) && ExitsRecorded(w)
    ensures NeverParted(w, [], maxAttempts)
  {
    SameFeed(w.db.log.history);
    var none: seq<Step> := [];
    assert none[..0] == none;
  }

  lemma BeforeTheLast(w: World, steps: seq<Step>, maxAttempts: int)
    requires steps != [] && Timely(w, steps)
    ensures var s := steps[|steps| - 1];
            s.Observe? ==>
              && Before(Run(w, steps[..|steps| - 1], maxAttempts, true), s.pass.target, s.pass.now)
              && Before(Run(w, steps[..|steps| - 1], maxAttempts, false), s.pass.target, s.pass.now)
  {
    hide Run, Before;
    var n := |steps| - 1;
    if steps[n].Observe? {
      LastIsLatest(w, steps);
      RunStaysBefore(w, steps[..n], steps[n].pass.target, steps[n].pass.now, maxAttempts, true);
      RunStaysBefore(w, steps[..n], steps[n].pass.target, steps[n].pass.now, maxAttempts, false);
    }
  }

  // ---- Where every exit sighted names its session ----

  predicate NamesItsExit(p: Pass) {
    p.sighting.obs.statusKnown && p.sighting.obs.status == Exited ==> p.sighting.identity != ""
  }

  ghost predicate NamesItsExits(steps: seq<Step>) {
    forall k :: 0 <= k < |steps| && steps[k].Observe? ==> NamesItsExit(steps[k].pass)
  }

  /** Every exit on record names its session. */
  ghost predicate ExitsNamed(w: World) {
    forall t :: t in w.db.states && w.db.states[t].status == Exited ==> w.db.states[t].session != ""
  }

  lemma RecordingKeepsExitsNamed(w: World, p: Pass)
    requires ExitsNamed(w) && NamesItsExit(p)
    ensures ExitsNamed(w.(db := Recorded(w.db, EventOf(p, PassGeneration(w, p)))))
  {
  }

  lemma StepKeepsExitsNamed(w: World, s: Step, maxAttempts: int)
    requires ExitsNamed(w) && (s.Observe? ==> NamesItsExit(s.pass))
    ensures ExitsNamed(Take(w, s, maxAttempts, true))
  {
    if s.Observe? {
      var p := s.pass;
      var g, d := PassGeneration(w, p), PassDecision(w, p);
      var noticed := w.(mem := Notice(w.mem, p.target, Observed(p.sighting), p.now));
      RecordingKeepsExitsNamed(w, p);
      AppliedOnlyIncidents(noticed.(db := Recorded(w.db, EventOf(p, g))), p, d, g, maxAttempts);
      hide Applied, Recorded, EventOf, PassGeneration, PassDecision, Settled, IsRepeatTerminal;
    }
  }

  lemma NamedExitsNameTheRecorded(w: World, p: Pass, maxAttempts: int)
    requires ExitsNamed(w) && NamesItsExit(p)
    ensures NamesTheRecorded(w, p, maxAttempts)
  {
  }

  lemma {:induction false} NamedExitsAlwaysName(w: World, steps: seq<Step>, maxAttempts: int)
    requires ExitsNamed(w) && NamesItsExits(steps)
    ensures AlwaysNames(w, steps, maxAttempts) && ExitsNamed(Run(w, steps, maxAttempts, true))
  {
    hide ExitsNamed, Take, NamesItsExit, NamesTheRecorded;
    if steps == [] {
      RunNothing(w, maxAttempts, true);
    } else {
      var n := |steps| - 1;
      NamedExitsAlwaysName(w, steps[..n], maxAttempts);
      NeverPartedOneMore(w, steps, maxAttempts);
      StandsStay(w, steps, n, maxAttempts, true);
      var v := Run(w, steps[..n], maxAttempts, true);
      StepKeepsExitsNamed(v, steps[n], maxAttempts);
      if steps[n].Observe? {
        NamedExitsNameTheRecorded(v, steps[n].pass, maxAttempts);
      }
    }
  }

  /** So where every exit sighted names its session, skipping can never be told. */
  lemma SkippingCannotBeTold(w: World, steps: seq<Step>, maxAttempts: int)
    requires UniqueOpen(w.db.incs) && ExitsRecorded(w) && ExitsNamed(w)
    requires Timely(w, steps) && NamesItsExits(steps) && FollowsAssertNothing(steps)
    ensures NeverParted(w, steps, maxAttempts)
    ensures Shadows(Run(w, steps, maxAttempts, true), Run(w, steps, maxAttempts, false))
  {
    hide Shadows, Run;
    NamedExitsAlwaysName(w, steps, maxAttempts);
    SkippingCannotBeToldExactly(w, steps, maxAttempts);
    assert ShadowsAt(w, steps, |steps|, maxAttempts) && steps[..|steps|] == steps;
  }

  /** Why an exit has to name its session: the row a skipped pass leaves behind
      agrees with the one writing it would have left exactly when the sighting
      names the session on record. */
  lemma AnUnnamedExitPartsThem(w: World, p: Pass, maxAttempts: int)
    requires IsRepeatTerminal(RowFor(w.db, p.target), p.sighting, PassGeneration(w, p))
    requires Settled(w.db, p.target, PassDecision(w, p), PassGeneration(w, p), maxAttempts)
    requires Before(w, p.target, p.now)
    ensures SameRuns(ObserveTarget(w, p, maxAttempts, true).db.states, ObserveTarget(w, p, maxAttempts, false).db.states)
       <==> p.sighting.identity == w.db.states[p.target].session
  {
    var g, d := PassGeneration(w, p), PassDecision(w, p);
    var noticed := w.(mem := Notice(w.mem, p.target, Observed(p.sighting), p.now));
    AppliedOnlyIncidents(noticed.(db := Recorded(w.db, EventOf(p, g))), p, d, g, maxAttempts);
  }

  /** A pass over an exit of a target that alerts on nothing. */
  predicate QuietExit(p: Pass, target: string, identity: string) {
    && p.target == target && p.policy.alertOn == [] && p.sighting.identity == identity
    && p.sighting.obs.statusKnown && p.sighting.obs.status == Exited
  }

  /** Two passes, of which the second no longer says whose exit it saw: skipping
      keeps the name on record, and writing would have blanked it. */
  lemma AnExitThatLosesItsNameShows(p: Pass, q: Pass, maxAttempts: int)
    requires QuietExit(p, "t", "s") && QuietExit(q, "t", "") && 0 < p.now < q.now
    ensures var w, steps := World(EMPTY_DB, FRESH_MEMORY, []), [Observe(p)] + [Observe(q)];
            && Run(w, steps, maxAttempts, true).db.states["t"].session == "s"
            && Run(w, steps, maxAttempts, false).db.states["t"].session == ""
  {
    var w := World(EMPTY_DB, FRESH_MEMORY, []);
    RunOneMore(w, [Observe(p)], Observe(q), maxAttempts, true);
    RunOneMore(w, [Observe(p)], Observe(q), maxAttempts, false);
    assert [] + [Observe(p)] == [Observe(p)];
    RunOneMore(w, [], Observe(p), maxAttempts, true);
    RunOneMore(w, [], Observe(p), maxAttempts, false);
    RunNothing(w, maxAttempts, true);
    RunNothing(w, maxAttempts, false);
    hide Run;
    var u := ObserveTarget(w, p, maxAttempts, false);
    FirstExitIsWritten(w, p, "s", maxAttempts);
    RepeatIsSkippedOrBlanked(u, q, maxAttempts);
  }

  lemma AskingNothingDecidesNothing(w: World, p: Pass)
    requires p.policy.alertOn == []
    ensures PassDecision(w, p) == Decision([], [])
  {
  }

  lemma FirstExitIsWritten(w: World, p: Pass, identity: string, maxAttempts: int)
    requires QuietExit(p, "t", identity) && w.db.states == map[] && w.db.incs == []
    ensures var u := ObserveTarget(w, p, maxAttempts, false);
            && ObserveTarget(w, p, maxAttempts, true) == u
            && "t" in u.db.states && u.db.incs == []
            && u.db.states["t"].session == identity && u.db.states["t"].status == Exited && u.db.states["t"].observedAt == p.now
  {
    AskingNothingDecidesNothing(w, p);
  }

  lemma RepeatIsSkippedOrBlanked(u: World, q: Pass, maxAttempts: int)
    requires QuietExit(q, "t", "") && u.db.incs == [] && "t" in u.db.states
    requires u.db.states["t"].status == Exited && u.db.states["t"].observedAt < q.now
    ensures ObserveTarget(u, q, maxAttempts, true).db == u.db
    ensures "t" in ObserveTarget(u, q, maxAttempts, false).db.states
    ensures ObserveTarget(u, q, maxAttempts, false).db.states["t"].session == ""
  {
    AskingNothingDecidesNothing(u, q);
    var g := PassGeneration(u, q);
    assert Settled(u.db, "t", Decision([], []), g, maxAttempts);
    assert IsRepeatTerminal(RowFor(u.db, "t"), q.sighting, g);
  }
}
