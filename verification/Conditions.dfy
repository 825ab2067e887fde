/** What a pass leaves open, written or skipped: exactly what the policy decided,
    and nothing of a superseded run. */
module Conditions {
  import opened Domain
  import opened Attention
  import opened Config
  import opened Incidents
  import opened Store
  import opened World
  import opened Skipping

  ghost predicate IsOpen(incs: seq<Incident>, target: string, c: Condition, g: int) {
    exists i :: 0 <= i < |incs| && IsOpenFor(incs[i], target, c, g)
  }

  // ---- Opening ----

  predicate SameKey(a: Incident, b: Incident) {
    && a.target == b.target && a.condition == b.condition && a.generation == b.generation
    && a.resolvedAt == b.resolvedAt
  }

  lemma KeysStay(a: seq<Incident>, b: seq<Incident>)
    requires |a| <= |b| && forall i :: 0 <= i < |a| ==> SameKey(a[i], b[i])
    ensures forall t, x, n :: IsOpen(a, t, x, n) ==> IsOpen(b, t, x, n)
  {
    forall t, x, n | IsOpen(a, t, x, n) ensures IsOpen(b, t, x, n) {
      var i :| 0 <= i < |a| && IsOpenFor(a[i], t, x, n);
      assert IsOpenFor(b[i], t, x, n);
    }
  }

  lemma OpenOneKeepsKeys(w: World, p: Pass, g: int, c: Condition, maxAttempts: int)
    ensures var v := OpenOne(w, p, g, c, maxAttempts);
            && |w.db.incs| <= |v.db.incs|
            && forall i :: 0 <= i < |w.db.incs| ==> SameKey(w.db.incs[i], v.db.incs[i])
  {
    hide FindOpen;
  }

  lemma OpenOneOpens(w: World, p: Pass, g: int, c: Condition, maxAttempts: int)
    ensures IsOpen(OpenOne(w, p, g, c, maxAttempts).db.incs, p.target, c, g)
    ensures forall t, x, n :: IsOpen(w.db.incs, t, x, n) ==> IsOpen(OpenOne(w, p, g, c, maxAttempts).db.incs, t, x, n)
  {
    var v := OpenOne(w, p, g, c, maxAttempts);
    var id := TouchedId(w.db.incs, p.target, c, g);
    assert IsOpen(v.db.incs, p.target, c, g) by {
      assert IsOpenFor(v.db.incs[id], p.target, c, g);
    }
    OpenOneKeepsKeys(w, p, g, c, maxAttempts);
    hide OpenOne, TouchedId, FindOpen, IsOpen;
    KeysStay(w.db.incs, v.db.incs);
  }

  lemma {:induction false} OpenFirstOpens(w: World, p: Pass, g: int, open: seq<Condition>, n: nat, maxAttempts: int)
    requires n <= |open|
    ensures forall k :: 0 <= k < n ==> IsOpen(OpenFirst(w, p, g, open, n, maxAttempts).db.incs, p.target, open[k], g)
  {
    if n > 0 {
      OpenFirstOpens(w, p, g, open, n - 1, maxAttempts);
      OpenOneOpens(OpenFirst(w, p, g, open, n - 1, maxAttempts), p, g, open[n - 1], maxAttempts);
    }
  }

  /** Open for this key, and seen at this moment. */
  ghost predicate IsSeen(incs: seq<Incident>, target: string, c: Condition, g: int, at: Time) {
    exists i :: 0 <= i < |incs| && IsOpenFor(incs[i], target, c, g) && incs[i].lastSeenAt == at
  }

  /** The same key, and seen at the same time or just now. */
  predicate SameKeySeen(a: Incident, b: Incident, now: Time) {
    SameKey(a, b) && (b.lastSeenAt == a.lastSeenAt || b.lastSeenAt == now)
  }

  lemma OpenOneKeepsSeen(w: World, p: Pass, g: int, c: Condition, maxAttempts: int)
    ensures var v := OpenOne(w, p, g, c, maxAttempts);
            && |w.db.incs| <= |v.db.incs|
            && forall i :: 0 <= i < |w.db.incs| ==> SameKeySeen(w.db.incs[i], v.db.incs[i], p.now)
  {
    hide FindOpen;
  }

  lemma OpenOneSees(w: World, p: Pass, g: int, c: Condition, maxAttempts: int)
    ensures IsSeen(OpenOne(w, p, g, c, maxAttempts).db.incs, p.target, c, g, p.now)
  {
    var v := OpenOne(w, p, g, c, maxAttempts);
    var id := TouchedId(w.db.incs, p.target, c, g);
    assert IsOpenFor(v.db.incs[id], p.target, c, g) && v.db.incs[id].lastSeenAt == p.now;
    hide OpenOne, TouchedId, FindOpen;
  }

  lemma {:induction false} OpenFirstSees(w: World, p: Pass, g: int, open: seq<Condition>, n: nat, k: nat, maxAttempts: int)
    requires k < n <= |open|
    ensures IsSeen(OpenFirst(w, p, g, open, n, maxAttempts).db.incs, p.target, open[k], g, p.now)
  {
    var before := OpenFirst(w, p, g, open, n - 1, maxAttempts);
    OpenOneSees(before, p, g, open[n - 1], maxAttempts);
    OpenOneKeepsSeen(before, p, g, open[n - 1], maxAttempts);
    hide OpenOne;
    if k < n - 1 {
      OpenFirstSees(w, p, g, open, n - 1, k, maxAttempts);
      var after := OpenFirst(w, p, g, open, n, maxAttempts);
      var i :| 0 <= i < |before.db.incs| && IsOpenFor(before.db.incs[i], p.target, open[k], g) && before.db.incs[i].lastSeenAt == p.now;
      assert SameKeySeen(before.db.incs[i], after.db.incs[i], p.now);
      assert IsOpenFor(after.db.incs[i], p.target, open[k], g);
    }
  }

  /** A written pass leaves every condition it opens seen at its own moment. */
  lemma AWrittenPassSeesWhatItOpens(w: World, p: Pass, c: Condition, maxAttempts: int)
    requires c in PassDecision(w, p).open
    ensures IsSeen(ObserveTarget(w, p, maxAttempts, false).db.incs, p.target, c, PassGeneration(w, p), p.now)
  {
    var g, d := PassGeneration(w, p), PassDecision(w, p);
    DecideIsExact(Shown(w, p), p.policy, p.now);
    assert c !in d.close;
    hide PassDecision, PassGeneration, Decide, OpenFirst;
    var written := w.(mem := Notice(w.mem, p.target, Observed(p.sighting), p.now), db := Recorded(w.db, EventOf(p, g)));
    var k :| 0 <= k < |d.open| && d.open[k] == c;
    OpenFirstSees(written, p, g, d.open, |d.open|, k, maxAttempts);
    var o := OpenFirst(written, p, g, d.open, |d.open|, maxAttempts);
    var i :| 0 <= i < |o.db.incs| && IsOpenFor(o.db.incs[i], p.target, c, g) && o.db.incs[i].lastSeenAt == p.now;
    assert Applied(written, p, d, g, maxAttempts).db.incs[i] == o.db.incs[i];
  }

  // ---- What is open after a pass ----

  /** `incs` holds open for a target, at or before run `g`, exactly what a
      decision opened. */
  ghost predicate Reflects(incs: seq<Incident>, target: string, d: Decision, g: int) {
    && (forall i :: 0 <= i < |incs| && incs[i].target == target && incs[i].resolvedAt.None? ==> incs[i].generation >= g)
    && (forall c :: c in d.open ==> IsOpen(incs, target, c, g))
    && (forall c :: c in d.close ==> !IsOpen(incs, target, c, g))
  }

  lemma AppliedReflects(w: World, p: Pass, d: Decision, g: int, maxAttempts: int)
    requires forall c :: c in d.open ==> c !in d.close
    ensures Reflects(Applied(w, p, d, g, maxAttempts).db.incs, p.target, d, g)
  {
    var o := OpenFirst(w, p, g, d.open, |d.open|, maxAttempts);
    var r := Applied(w, p, d, g, maxAttempts).db.incs;
    OpenFirstOpens(w, p, g, d.open, |d.open|, maxAttempts);
    forall c | c in d.open ensures IsOpen(r, p.target, c, g) {
      var k :| 0 <= k < |d.open| && d.open[k] == c;
      var i :| 0 <= i < |o.db.incs| && IsOpenFor(o.db.incs[i], p.target, c, g);
      assert IsOpenFor(r[i], p.target, c, g);
    }
  }

  lemma SettledReflects(db: Db, target: string, d: Decision, g: int, maxAttempts: int)
    requires Settled(db, target, d, g, maxAttempts)
    ensures Reflects(db.incs, target, d, g)
  {
    forall c | c in d.open ensures IsOpen(db.incs, target, c, g) {
      assert FindOpen(db.incs, target, c, g).Some?;
    }
    forall i | 0 <= i < |db.incs| && db.incs[i].target == target && db.incs[i].resolvedAt.None?
      ensures db.incs[i].generation >= g
    {
      assert !Swept(db.incs[i], target, g, d.close);
    }
    forall c | c in d.close ensures !IsOpen(db.incs, target, c, g) {
      forall i | 0 <= i < |db.incs| ensures !IsOpenFor(db.incs[i], target, c, g) {
        assert !Swept(db.incs[i], target, g, d.close);
      }
    }
  }

  ghost predicate AskedAndOpen(p: Policy, incs: seq<Incident>, target: string, c: Condition, g: int) {
    p.AlertsOn(c) && IsOpen(incs, target, c, g)
  }

  /** Open for a target are exactly the asked conditions that hold, at most one
      of them apart from overdue, never an exit that is also overdue, and nothing
      of an earlier run. */
  ghost predicate OpenIsWhatHolds(incs: seq<Incident>, target: string, o: Observation, p: Policy, now: Time, g: int) {
    && (forall i :: 0 <= i < |incs| && incs[i].target == target && incs[i].resolvedAt.None? ==> incs[i].generation >= g)
    && (forall c :: p.AlertsOn(c) ==> (IsOpen(incs, target, c, g) <==> Holds(o, p, now, c)))
    && (forall b, c :: AskedAndOpen(p, incs, target, b, g) && AskedAndOpen(p, incs, target, c, g) ==>
          (b == c || b == Overdue || c == Overdue) && {b, c} != {Exit, Overdue})
  }

  lemma ReflectingIsWhatHolds(incs: seq<Incident>, target: string, o: Observation, p: Policy, now: Time, g: int)
    requires Reflects(incs, target, Decide(o, p, now), g)
    ensures OpenIsWhatHolds(incs, target, o, p, now, g)
  {
    DecideIsExact(o, p, now);
    hide Decide, Holds;
    forall b, c | AskedAndOpen(p, incs, target, b, g) && AskedAndOpen(p, incs, target, c, g)
      ensures (b == c || b == Overdue || c == Overdue) && {b, c} != {Exit, Overdue}
    {
      AtMostOneExplanation(o, p, now, b, c);
    }
  }

  /** After every pass over a target, written or skipped, what is open is what
      holds of what was observed, and the index is intact. */
  lemma APassLeavesWhatHolds(w: World, p: Pass, maxAttempts: int, skipping: bool)
    requires UniqueOpen(w.db.incs)
    ensures UniqueOpen(ObserveTarget(w, p, maxAttempts, skipping).db.incs)
    ensures OpenIsWhatHolds(ObserveTarget(w, p, maxAttempts, skipping).db.incs, p.target,
                            Shown(w, p), p.policy, p.now, PassGeneration(w, p))
  {
    PassReflects(w, p, maxAttempts, skipping);
    ReflectingIsWhatHolds(ObserveTarget(w, p, maxAttempts, skipping).db.incs, p.target,
                          Shown(w, p), p.policy, p.now, PassGeneration(w, p));
  }

  lemma PassReflects(w: World, p: Pass, maxAttempts: int, skipping: bool)
    requires UniqueOpen(w.db.incs)
    ensures UniqueOpen(ObserveTarget(w, p, maxAttempts, skipping).db.incs)
    ensures Reflects(ObserveTarget(w, p, maxAttempts, skipping).db.incs, p.target, PassDecision(w, p), PassGeneration(w, p))
  {
    var g, d := PassGeneration(w, p), PassDecision(w, p);
    DecideIsExact(Shown(w, p), p.policy, p.now);
    if skipping && IsRepeatTerminal(RowFor(w.db, p.target), p.sighting, g) && Settled(w.db, p.target, d, g, maxAttempts) {
      SettledReflects(w.db, p.target, d, g, maxAttempts);
    } else {
      var written := w.(mem := Notice(w.mem, p.target, Observed(p.sighting), p.now), db := Recorded(w.db, EventOf(p, g)));
      AppliedAlike(written, written, p, d, g, maxAttempts);
      AppliedReflects(written, p, d, g, maxAttempts);
    }
  }

  /** The unique index is never violated, whatever the run. */
  lemma {:induction false} TheIndexAlwaysHolds(w: World, steps: seq<Step>, maxAttempts: int, skipping: bool)
    requires UniqueOpen(w.db.incs)
    ensures UniqueOpen(Run(w, steps, maxAttempts, skipping).db.incs)
  {
    if steps != [] {
      var n := |steps| - 1;
      TheIndexAlwaysHolds(w, steps[..n], maxAttempts, skipping);
      var v := Run(w, steps[..n], maxAttempts, skipping);
      match steps[n]
      case Observe(p) => PassReflects(v, p, maxAttempts, skipping);
      case Ack(id, at) => AckAlike(v.db.incs, v.db.incs, id, at);
      case Unask(target, at) => DropAlike(v.db.incs, v.db.incs, target, at);
      case _ =>
    }
  }

  // ---- What a pass leaves alone ----

  /** Between `w` and `v` only incidents of `target` were opened, touched,
      resolved or announced. */
  ghost predicate OnlyAbout(w: World, v: World, target: string) {
    && |w.db.incs| <= |v.db.incs|
    && (forall i :: 0 <= i < |w.db.incs| && w.db.incs[i].target != target ==> v.db.incs[i] == w.db.incs[i])
    && (forall i :: 0 <= i < |w.db.incs| ==> v.db.incs[i].target == w.db.incs[i].target)
    && (forall i :: |w.db.incs| <= i < |v.db.incs| ==> v.db.incs[i].target == target)
    && (forall id: nat :: id < |w.db.incs| && w.db.incs[id].target != target ==>
          (id in v.db.deliveries <==> id in w.db.deliveries)
          && (id in w.db.deliveries ==> v.db.deliveries[id] == w.db.deliveries[id]))
  }

  lemma TouchOnlyAbout(w: World, v: World, p: Pass, g: int, c: Condition)
    requires OnlyAbout(w, v, p.target)
    ensures OnlyAbout(w, v.(db := v.db.(incs := OpenOrTouch(v.db.incs, p.target, c, g, p.now))), p.target)
  {
  }

  lemma DeliverOnlyAbout(w: World, v: World, p: Pass, c: Condition, id: nat, maxAttempts: int)
    requires OnlyAbout(w, v, p.target) && id < |v.db.incs| && v.db.incs[id].target == p.target
    ensures OnlyAbout(w, Deliver(v, p, c, id, maxAttempts), p.target)
  {
  }

  lemma OpenOneOnlyAbout(w: World, v: World, p: Pass, g: int, c: Condition, maxAttempts: int)
    requires OnlyAbout(w, v, p.target)
    ensures OnlyAbout(w, OpenOne(v, p, g, c, maxAttempts), p.target)
  {
    TouchOnlyAbout(w, v, p, g, c);
    var touched := v.(db := v.db.(incs := OpenOrTouch(v.db.incs, p.target, c, g, p.now)));
    DeliverOnlyAbout(w, touched, p, c, TouchedId(v.db.incs, p.target, c, g), maxAttempts);
  }

  lemma {:induction false} OpenFirstOnlyAbout(w: World, p: Pass, g: int, open: seq<Condition>, n: nat, maxAttempts: int)
    requires n <= |open|
    ensures OnlyAbout(w, OpenFirst(w, p, g, open, n, maxAttempts), p.target)
  {
    if n > 0 {
      OpenFirstOnlyAbout(w, p, g, open, n - 1, maxAttempts);
      OpenOneOnlyAbout(w, OpenFirst(w, p, g, open, n - 1, maxAttempts), p, g, open[n - 1], maxAttempts);
    }
  }

  /** A pass over one target changes nothing about any other. */
  lemma APassIsAboutItsTarget(w: World, p: Pass, maxAttempts: int, skipping: bool)
    ensures OnlyAbout(w, ObserveTarget(w, p, maxAttempts, skipping), p.target)
    ensures forall t :: t != p.target ==> RowFor(ObserveTarget(w, p, maxAttempts, skipping).db, t) == RowFor(w.db, t)
  {
    var g, d := PassGeneration(w, p), PassDecision(w, p);
    var noticed := w.(mem := Notice(w.mem, p.target, Observed(p.sighting), p.now));
    var written := noticed.(db := Recorded(w.db, EventOf(p, g)));
    AppliedOnlyIncidents(written, p, d, g, maxAttempts);
    OpenFirstOnlyAbout(written, p, g, d.open, |d.open|, maxAttempts);
    var o := OpenFirst(written, p, g, d.open, |d.open|, maxAttempts);
    assert OnlyAbout(w, Applied(written, p, d, g, maxAttempts), p.target);
  }
}
