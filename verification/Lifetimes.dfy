/** The life of one incident, field by field: what each step of an instance does to
    it, and what no run ever changes. */
module Lifetimes {
  import opened Domain
  import opened Attention
  import opened Incidents
  import opened Store
  import opened World
  import opened Skipping
  import opened Conditions
  import opened Announcements
  import opened Retries

  // ---- Opening ----

  /** Seen again now; and announced now, if a call that is due was delivered. */
  function SeenAgain(i: Incident, p: Pass, due: bool): Incident {
    i.(lastSeenAt := p.now,
       notifiedAt := if due && AnswerFor(p, i.condition) == Delivered then Some(p.now) else i.notifiedAt)
  }

  /** An incident opened by this pass. */
  predicate BornNow(i: Incident, p: Pass, g: int) {
    i == Incident(p.target, i.condition, g, p.now, p.now, None,
                  if AnswerFor(p, i.condition) == Delivered then Some(p.now) else None, None)
  }

  lemma WhatOpeningDoes(w: World, p: Pass, g: int, c: Condition, maxAttempts: int)
    requires AllAccounted(w, maxAttempts)
    ensures var v, id := OpenOne(w, p, g, c, maxAttempts), TouchedId(w.db.incs, p.target, c, g);
            && |w.db.incs| <= |v.db.incs| && id < |v.db.incs|
            && (|v.db.incs| > |w.db.incs| ==> |v.db.incs| == |w.db.incs| + 1 && id == |w.db.incs|)
            && (forall i :: 0 <= i < |w.db.incs| && i != id ==> v.db.incs[i] == w.db.incs[i])
            && (id < |w.db.incs| ==>
                  && IsOpenFor(w.db.incs[id], p.target, c, g)
                  && v.db.incs[id] == SeenAgain(w.db.incs[id], p, StillDue(OutcomesOf(w.calls, id), maxAttempts)))
            && (id == |w.db.incs| ==> v.db.incs[id].condition == c && BornNow(v.db.incs[id], p, g))
  {
    var id := TouchedId(w.db.incs, p.target, c, g);
    if id < |w.db.incs| {
      assert Accounted(w.db.deliveries, id, w.db.incs[id].notifiedAt.Some?, OutcomesOf(w.calls, id), maxAttempts);
    }
  }

  /** What has become of an incident when the first conditions were opened. */
  predicate OpenedSoFar(before: seq<Incident>, after: seq<Incident>, calls: seq<Call>, id: nat, p: Pass, g: int,
                        open: seq<Condition>, maxAttempts: int)
  {
    && |before| <= |after|
    && (id < |before| ==>
          after[id] == if IsOpenFor(before[id], p.target, before[id].condition, g) && before[id].condition in open
                       then SeenAgain(before[id], p, StillDue(OutcomesOf(calls, id), maxAttempts)) else before[id])
    && (|before| <= id < |after| ==> after[id].condition in open && BornNow(after[id], p, g))
  }

  lemma {:induction false} WhatOpeningEachDoes(w: World, p: Pass, g: int, open: seq<Condition>, n: nat, id: nat, maxAttempts: int)
    requires n <= |open| && Distinct(open) && AllAccounted(w, maxAttempts) && UniqueOpen(w.db.incs)
    ensures OpenedSoFar(w.db.incs, OpenFirst(w, p, g, open, n, maxAttempts).db.incs, w.calls, id, p, g, open[..n], maxAttempts)
  {
    hide AllAccounted, OpenOne, UniqueOpen, Distinct, OutcomesOf, StillDue, SeenAgain, BornNow;
    if n > 0 {
      WhatOpeningEachDoes(w, p, g, open, n - 1, id, maxAttempts);
      OpeningCallsForEach(w, p, g, open, n - 1, id, maxAttempts);
      var u := OpenFirst(w, p, g, open, n - 1, maxAttempts);
      hide OpenedSoFar, Called;
      OneMoreOpened(w, u, p, g, open, n, id, maxAttempts);
    }
  }

  lemma OneMoreOpened(w: World, u: World, p: Pass, g: int, open: seq<Condition>, n: nat, id: nat, maxAttempts: int)
    requires 0 < n <= |open| && Distinct(open) && AllAccounted(u, maxAttempts) && UniqueOpen(u.db.incs)
    requires OpenedSoFar(w.db.incs, u.db.incs, w.calls, id, p, g, open[..n - 1], maxAttempts)
    requires OutcomesOf(u.calls, id)
          == OutcomesOf(w.calls, id) + Called(u.db.incs, id, p, g, open[..n - 1], OutcomesOf(w.calls, id), maxAttempts)
    ensures OpenedSoFar(w.db.incs, OpenOne(u, p, g, open[n - 1], maxAttempts).db.incs, w.calls, id, p, g, open[..n], maxAttempts)
  {
    var c := open[n - 1];
    var v, touched := OpenOne(u, p, g, c, maxAttempts), TouchedId(u.db.incs, p.target, c, g);
    WhatOpeningDoes(u, p, g, c, maxAttempts);
    OpenOneKeepsTheIndex(u, p, g, c, maxAttempts);
    OpeningCallsIfDue(u, p, g, c, maxAttempts);
    OnlyTheTouched(u, p, g, c, maxAttempts);
    assert OneMoreOpen(u.db.incs, v.db.incs, touched, p, g, open, n);
    hide OpenOne, TouchedId, AllAccounted, OutcomesOf, FindOpen, AnswerFor;
    var os := OutcomesOf(w.calls, id);
    if id == touched {
      TouchedIsCalled(u.db.incs, v.db.incs, touched, os, p, g, open, n, maxAttempts);
      assert OutcomesOf(u.calls, id) == os;
      TheTouchedSoFar(w.db.incs, u.db.incs, v.db.incs, w.calls, os, id, p, g, open, n, maxAttempts);
    } else {
      TheOthersSoFar(w.db.incs, u.db.incs, v.db.incs, w.calls, touched, id, p, g, open, n, maxAttempts);
    }
  }

  lemma TheTouchedSoFar(w: seq<Incident>, u: seq<Incident>, v: seq<Incident>, calls: seq<Call>, os: seq<Outcome>, id: nat,
                        p: Pass, g: int, open: seq<Condition>, n: nat, maxAttempts: int)
    requires OneMoreOpen(u, v, id, p, g, open, n) && os == OutcomesOf(calls, id)
    requires OpenedSoFar(w, u, calls, id, p, g, open[..n - 1], maxAttempts)
    requires id < |u| ==> IsOpenFor(u[id], p.target, open[n - 1], g) && v[id] == SeenAgain(u[id], p, StillDue(os, maxAttempts))
    requires id == |u| ==> v[id].condition == open[n - 1] && BornNow(v[id], p, g)
    ensures OpenedSoFar(w, v, calls, id, p, g, open[..n], maxAttempts)
  {
    hide StillDue, OutcomesOf, AnswerFor;
    var c := open[n - 1];
    assert c in open[..n] by { assert open[..n][n - 1] == c; }
    assert c !in open[..n - 1];
  }

  lemma TheOthersSoFar(w: seq<Incident>, u: seq<Incident>, v: seq<Incident>, calls: seq<Call>, touched: nat, id: nat,
                       p: Pass, g: int, open: seq<Condition>, n: nat, maxAttempts: int)
    requires OneMoreOpen(u, v, touched, p, g, open, n) && UniqueOpen(v) && id != touched
    requires forall i :: 0 <= i < |u| && i != touched ==> v[i] == u[i]
    requires OpenedSoFar(w, u, calls, id, p, g, open[..n - 1], maxAttempts)
    ensures OpenedSoFar(w, v, calls, id, p, g, open[..n], maxAttempts)
  {
    hide StillDue, OutcomesOf, AnswerFor, UniqueOpen, Distinct;
    var c := open[n - 1];
    assert forall x :: x in open[..n] <==> x in open[..n - 1] || x == c by {
      assert open[..n] == open[..n - 1] + [c];
    }
    if id < |v| {
      assert id < |u| && v[id] == u[id];
      OneOpenForEach(v, id, touched, p.target, c, g);
    }
  }

  // ---- One pass ----

  /** What a written pass makes of an incident there before: one of another target, or
      one that ended, it leaves alone; one that is over it ends; one still asked about
      it sees again. */
  function Lived(i: Incident, p: Pass, g: int, opens: Condition -> bool, due: bool): Incident {
    if i.target != p.target || i.resolvedAt.Some? then i
    else if i.generation < g then i.(resolvedAt := Some(p.now))
    else if i.generation > g || i.condition !in p.policy.alertOn then i
    else if opens(i.condition) then SeenAgain(i, p, due)
    else i.(resolvedAt := Some(p.now))
  }

  /** The table after a written pass: those there before as they lived on, and those
      born now, one for each asked condition that opens and was not open. */
  ghost predicate LivedThrough(before: seq<Incident>, after: seq<Incident>, calls: seq<Call>, p: Pass, g: int,
                               opens: Condition -> bool, maxAttempts: int)
  {
    && |before| <= |after|
    && (forall id: nat :: id < |before| ==>
          after[id] == Lived(before[id], p, g, opens, StillDue(OutcomesOf(calls, id), maxAttempts)))
    && (forall id: nat :: |before| <= id < |after| ==>
          after[id].condition in p.policy.alertOn && opens(after[id].condition) && BornNow(after[id], p, g))
  }

  ghost function OpensFor(w: World, p: Pass): Condition -> bool {
    (c: Condition) => Opens(Shown(w, p), p.policy, p.now, c)
  }

  lemma WhatAPassDoesToIncidents(w: World, p: Pass, maxAttempts: int)
    requires AllAccounted(w, maxAttempts) && UniqueOpen(w.db.incs)
    ensures LivedThrough(w.db.incs, ObserveTarget(w, p, maxAttempts, false).db.incs, w.calls, p, PassGeneration(w, p),
                         OpensFor(w, p), maxAttempts)
  {
    var g, d := PassGeneration(w, p), PassDecision(w, p);
    DecideIsExact(Shown(w, p), p.policy, p.now);
    EachOpensFromOneMoment(Shown(w, p), p.policy, p.now);
    var written := w.(mem := Notice(w.mem, p.target, Observed(p.sighting), p.now), db := Recorded(w.db, EventOf(p, g)));
    AnnouncedAlike(w, written, maxAttempts);
    assert ObserveTarget(w, p, maxAttempts, false) == Applied(written, p, d, g, maxAttempts);
    var o := OpenFirst(written, p, g, d.open, |d.open|, maxAttempts);
    assert d.open[..|d.open|] == d.open;
    var opens := OpensFor(w, p);
    hide ObserveTarget, PassGeneration, PassDecision, Shown, Opens, Decide, Holds, OpenFirst, AllAccounted, UniqueOpen, Distinct;
    forall id: nat ensures OpenedSoFar(w.db.incs, o.db.incs, w.calls, id, p, g, d.open, maxAttempts) {
      WhatOpeningEachDoes(written, p, g, d.open, |d.open|, id, maxAttempts);
    }
    SweepingEnds(w.db.incs, o.db.incs, w.calls, p, g, d, opens, maxAttempts);
  }

  lemma SweepingEnds(before: seq<Incident>, opened': seq<Incident>, calls: seq<Call>, p: Pass, g: int, d: Decision,
                     opens: Condition -> bool, maxAttempts: int)
    requires forall id: nat :: OpenedSoFar(before, opened', calls, id, p, g, d.open, maxAttempts)
    requires forall c :: c in d.open <==> c in p.policy.alertOn && opens(c)
    requires forall c :: c in d.close <==> c in p.policy.alertOn && !opens(c)
    ensures LivedThrough(before, Sweep(opened', p.target, g, d.close, p.now), calls, p, g, opens, maxAttempts)
  {
    hide StillDue, OutcomesOf, AnswerFor;
    var after := Sweep(opened', p.target, g, d.close, p.now);
    assert OpenedSoFar(before, opened', calls, 0, p, g, d.open, maxAttempts);
    forall id: nat | id < |before|
      ensures after[id] == Lived(before[id], p, g, opens, StillDue(OutcomesOf(calls, id), maxAttempts))
    {
      assert OpenedSoFar(before, opened', calls, id, p, g, d.open, maxAttempts);
    }
    forall id: nat | |before| <= id < |after|
      ensures after[id].condition in p.policy.alertOn && opens(after[id].condition) && BornNow(after[id], p, g)
    {
      assert OpenedSoFar(before, opened', calls, id, p, g, d.open, maxAttempts);
    }
  }

  // ---- Any step ----

  /** What a step makes of an incident there before. A skipped pass leaves all as they
      are; an acknowledgement is that and nothing more. */
  lemma WhatAStepDoesToAnIncident(w: World, s: Step, id: nat, maxAttempts: int, skipping: bool)
    requires AllAccounted(w, maxAttempts) && UniqueOpen(w.db.incs) && id < |w.db.incs|
    ensures var i, after := w.db.incs[id], Take(w, s, maxAttempts, skipping).db.incs;
            && |after| >= |w.db.incs| && (|after| > |w.db.incs| ==> s.Observe?)
            && match s
               case Observe(p) =>
                 || after == w.db.incs
                 || after[id] == Lived(i, p, PassGeneration(w, p), OpensFor(w, p), StillDue(OutcomesOf(w.calls, id), maxAttempts))
               case Ack(x, at) => after[id] == if x == id then i.(acknowledgedAt := Some(at)) else i
               case Unask(target, at) =>
                 after[id] == if i.target == target && i.condition == Overdue && i.resolvedAt.None? then i.(resolvedAt := Some(at)) else i
               case _ => after[id] == i
  {
    if s.Observe? {
      WhatAPassDoesToIncidents(w, s.pass, maxAttempts);
      TakingAPass(w, s.pass, maxAttempts, skipping);
      SkippedOrWritten(w, s.pass, maxAttempts, skipping);
      hide Take, ObserveTarget, AllAccounted, UniqueOpen, OutcomesOf, StillDue, OpensFor, PassGeneration, Lived;
    }
  }

  lemma SkippedOrWritten(w: World, p: Pass, maxAttempts: int, skipping: bool)
    ensures || ObserveTarget(w, p, maxAttempts, skipping).db == w.db
            || ObserveTarget(w, p, maxAttempts, skipping) == ObserveTarget(w, p, maxAttempts, false)
  {
    hide Settled, IsRepeatTerminal, Applied, PassDecision, PassGeneration, EventOf;
  }

  /** What no step takes back: whose incident it is, about what and of which run, and
      since when; that it was acknowledged; that it ended, and when, after which it is
      neither seen nor announced again. */
  predicate PastKept(before: Incident, after: Incident) {
    && after.target == before.target && after.condition == before.condition && after.generation == before.generation
    && after.openedAt == before.openedAt
    && (before.acknowledgedAt.Some? ==> after.acknowledgedAt.Some?)
    && (before.notifiedAt.Some? ==> after.notifiedAt.Some?)
    && (before.resolvedAt.Some? ==> after == before.(acknowledgedAt := after.acknowledgedAt))
  }

  lemma AStepKeepsThePast(w: World, s: Step, id: nat, maxAttempts: int, skipping: bool)
    requires AllAccounted(w, maxAttempts) && UniqueOpen(w.db.incs) && id < |w.db.incs|
    ensures |Take(w, s, maxAttempts, skipping).db.incs| >= |w.db.incs|
    ensures PastKept(w.db.incs[id], Take(w, s, maxAttempts, skipping).db.incs[id])
  {
    WhatAStepDoesToAnIncident(w, s, id, maxAttempts, skipping);
    hide Take, AllAccounted, UniqueOpen, OutcomesOf, StillDue, OpensFor, PassGeneration;
  }

  /** Over any run, restarts included, an incident's past stands. */
  lemma {:induction false} AnIncidentKeepsItsPast(w: World, steps: seq<Step>, id: nat, maxAttempts: int, skipping: bool)
    requires AllAccounted(w, maxAttempts) && UniqueOpen(w.db.incs) && id < |w.db.incs|
    ensures |Run(w, steps, maxAttempts, skipping).db.incs| >= |w.db.incs|
    ensures PastKept(w.db.incs[id], Run(w, steps, maxAttempts, skipping).db.incs[id])
  {
    if steps != [] {
      hide Take, AllAccounted, UniqueOpen;
      var n := |steps| - 1;
      AnIncidentKeepsItsPast(w, steps[..n], id, maxAttempts, skipping);
      EveryCallIsAccountedFor(w, steps[..n], maxAttempts, skipping);
      TheIndexAlwaysHolds(w, steps[..n], maxAttempts, skipping);
      AStepKeepsThePast(Run(w, steps[..n], maxAttempts, skipping), steps[n], id, maxAttempts, skipping);
    }
  }
}
