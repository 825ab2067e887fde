/** The other half of the delivery bound: a call that is due is made. Over any run
    the calls about an incident are exactly the first of the answers offered, up to
    one that is no failure or the bound. */
module Retries {
  import opened Domain
  import opened Attention
  import opened Incidents
  import opened Store
  import opened World
  import opened Skipping
  import opened Conditions
  import opened Announcements
  import Delivery

  /** Every call so far failed, and there were fewer than the bound. */
  predicate StillDue(os: seq<Outcome>, maxAttempts: int) {
    |os| < Bound(maxAttempts) && forall k :: 0 <= k < |os| ==> os[k] == Failed
  }

  function AnswerFor(p: Pass, c: Condition): Outcome {
    if c in p.outcomes then p.outcomes[c] else Suppressed
  }

  // ---- One condition ----

  /** Opening a condition makes one call about its incident if one is due, and none
      otherwise. */
  lemma OpeningCallsIfDue(w: World, p: Pass, g: int, c: Condition, maxAttempts: int)
    requires AllAccounted(w, maxAttempts)
    ensures var v, id := OpenOne(w, p, g, c, maxAttempts), TouchedId(w.db.incs, p.target, c, g);
            && id < |v.db.incs| && IsOpenFor(v.db.incs[id], p.target, c, g)
            && v.calls == w.calls + if StillDue(OutcomesOf(w.calls, id), maxAttempts) then [Call(id, AnswerFor(p, c))] else []
  {
    var id := TouchedId(w.db.incs, p.target, c, g);
    if id < |w.db.incs| {
      assert Accounted(w.db.deliveries, id, w.db.incs[id].notifiedAt.Some?, OutcomesOf(w.calls, id), maxAttempts);
    } else {
      NoCallsNoOutcomes(w.calls, id);
    }
  }

  lemma OutcomesOfMore(calls: seq<Call>, more: seq<Call>, id: nat)
    requires |more| <= 1
    ensures OutcomesOf(calls + more, id)
         == OutcomesOf(calls, id) + if |more| == 1 && more[0].incident == id then [more[0].outcome] else []
  {
    if |more| == 1 {
      OutcomesOfOneMore(calls, more[0], id);
      assert more == [more[0]];
    } else {
      assert calls + more == calls;
    }
  }

  /** What the decision's first conditions have so far called about this incident. */
  function Called(incs: seq<Incident>, id: nat, p: Pass, g: int, open: seq<Condition>, os: seq<Outcome>, maxAttempts: int): seq<Outcome> {
    if id < |incs| && IsOpenFor(incs[id], p.target, incs[id].condition, g) && incs[id].condition in open && StillDue(os, maxAttempts)
    then [AnswerFor(p, incs[id].condition)] else []
  }

  lemma {:induction false} OpeningCallsForEach(w: World, p: Pass, g: int, open: seq<Condition>, n: nat, id: nat, maxAttempts: int)
    requires n <= |open| && Distinct(open) && AllAccounted(w, maxAttempts) && UniqueOpen(w.db.incs)
    ensures var v, os := OpenFirst(w, p, g, open, n, maxAttempts), OutcomesOf(w.calls, id);
            && AllAccounted(v, maxAttempts) && UniqueOpen(v.db.incs)
            && OutcomesOf(v.calls, id) == os + Called(v.db.incs, id, p, g, open[..n], os, maxAttempts)
  {
    hide AllAccounted, OpenOne, StillDue, UniqueOpen, Distinct, OutcomesOf, IsOpenFor;
    if n > 0 {
      OpeningCallsForEach(w, p, g, open, n - 1, id, maxAttempts);
      var u := OpenFirst(w, p, g, open, n - 1, maxAttempts);
      OpenOneAccounts(u, p, g, open[n - 1], maxAttempts);
      hide Called;
      OneMoreIsOpened(u, OutcomesOf(w.calls, id), p, g, open, n, id, maxAttempts);
    }
  }

  lemma OneMoreIsOpened(u: World, os: seq<Outcome>, p: Pass, g: int, open: seq<Condition>, n: nat, id: nat, maxAttempts: int)
    requires 0 < n <= |open| && Distinct(open) && AllAccounted(u, maxAttempts) && UniqueOpen(u.db.incs)
    requires OutcomesOf(u.calls, id) == os + Called(u.db.incs, id, p, g, open[..n - 1], os, maxAttempts)
    ensures var v := OpenOne(u, p, g, open[n - 1], maxAttempts);
            && UniqueOpen(v.db.incs)
            && OutcomesOf(v.calls, id) == os + Called(v.db.incs, id, p, g, open[..n], os, maxAttempts)
  {
    var c := open[n - 1];
    var v, touched := OpenOne(u, p, g, c, maxAttempts), TouchedId(u.db.incs, p.target, c, g);
    OpenOneKeepsTheIndex(u, p, g, c, maxAttempts);
    OpeningCallsIfDue(u, p, g, c, maxAttempts);
    OnlyTheTouched(u, p, g, c, maxAttempts);
    hide OpenOne, TouchedId, AllAccounted, OutcomesOf, UniqueOpen, Distinct, StillDue, AnswerFor, FindOpen, SameKey, Called, IsOpenFor;
    var more := if StillDue(OutcomesOf(u.calls, touched), maxAttempts) then [Call(touched, AnswerFor(p, c))] else [];
    OutcomesOfMore(u.calls, more, id);
    assert os + [] == os && OutcomesOf(u.calls, id) + [] == OutcomesOf(u.calls, id);
    if id == touched {
      TouchedIsCalled(u.db.incs, v.db.incs, touched, os, p, g, open, n, maxAttempts);
    } else {
      OthersAreCalledAsBefore(u.db.incs, v.db.incs, touched, os, p, g, open, n, id, maxAttempts);
    }
  }

  /** One condition more was opened, about the touched incident. */
  ghost predicate OneMoreOpen(u: seq<Incident>, v: seq<Incident>, touched: nat, p: Pass, g: int, open: seq<Condition>, n: nat) {
    && 0 < n <= |open| && Distinct(open)
    && |u| <= |v| && (|v| > |u| ==> |v| == |u| + 1 && touched == |u|)
    && (forall i :: 0 <= i < |u| ==> SameKey(u[i], v[i]))
    && touched < |v| && IsOpenFor(v[touched], p.target, open[n - 1], g)
  }

  lemma TouchedIsCalled(u: seq<Incident>, v: seq<Incident>, touched: nat, os: seq<Outcome>, p: Pass, g: int,
                        open: seq<Condition>, n: nat, maxAttempts: int)
    requires OneMoreOpen(u, v, touched, p, g, open, n)
    ensures Called(u, touched, p, g, open[..n - 1], os, maxAttempts) == []
    ensures Called(v, touched, p, g, open[..n], os, maxAttempts)
         == if StillDue(os, maxAttempts) then [AnswerFor(p, open[n - 1])] else []
  {
    hide StillDue, AnswerFor;
    var c := open[n - 1];
    assert c in open[..n] by { assert open[..n][n - 1] == c; }
    assert c !in open[..n - 1];
    if touched < |u| { assert SameKey(u[touched], v[touched]); }
  }

  lemma OthersAreCalledAsBefore(u: seq<Incident>, v: seq<Incident>, touched: nat, os: seq<Outcome>, p: Pass, g: int,
                                open: seq<Condition>, n: nat, id: nat, maxAttempts: int)
    requires OneMoreOpen(u, v, touched, p, g, open, n) && UniqueOpen(v) && id != touched
    ensures Called(v, id, p, g, open[..n], os, maxAttempts) == Called(u, id, p, g, open[..n - 1], os, maxAttempts)
  {
    hide StillDue, AnswerFor, UniqueOpen;
    if id < |v| {
      var c := open[n - 1];
      assert id < |u| && SameKey(u[id], v[id]);
      OneOpenForEach(v, id, touched, p.target, c, g);
      assert v[id].condition != c ==> (v[id].condition in open[..n] <==> v[id].condition in open[..n - 1]);
    }
  }

  lemma OneOpenForEach(incs: seq<Incident>, a: nat, b: nat, target: string, c: Condition, g: int)
    requires UniqueOpen(incs) && a < |incs| && b < |incs| && a != b && IsOpenFor(incs[b], target, c, g)
    ensures !IsOpenFor(incs[a], target, c, g)
  {
    var i, j := if a < b then a else b, if a < b then b else a;
    assert incs[i].resolvedAt.None? ==> !IsOpenFor(incs[j], incs[i].target, incs[i].condition, incs[i].generation);
  }

  lemma OnlyTheTouched(w: World, p: Pass, g: int, c: Condition, maxAttempts: int)
    ensures var v, id := OpenOne(w, p, g, c, maxAttempts), TouchedId(w.db.incs, p.target, c, g);
            && |w.db.incs| <= |v.db.incs| && (|v.db.incs| > |w.db.incs| ==> |v.db.incs| == |w.db.incs| + 1 && id == |w.db.incs|)
            && forall i :: 0 <= i < |w.db.incs| ==> SameKey(w.db.incs[i], v.db.incs[i])
  {
    OpenOneKeepsKeys(w, p, g, c, maxAttempts);
  }

  // ---- One pass ----

  /** The pass opens the condition that this incident is open about. */
  ghost predicate AsksAbout(w: World, p: Pass, maxAttempts: int, skipping: bool, id: nat) {
    var incs := ObserveTarget(w, p, maxAttempts, skipping).db.incs;
    && id < |incs| && IsOpenFor(incs[id], p.target, incs[id].condition, PassGeneration(w, p))
    && incs[id].condition in PassDecision(w, p).open
  }

  /** What the notifier would answer about it in this pass. */
  ghost function Offer(w: World, p: Pass, maxAttempts: int, skipping: bool, id: nat): seq<Outcome> {
    if AsksAbout(w, p, maxAttempts, skipping, id)
    then [AnswerFor(p, ObserveTarget(w, p, maxAttempts, skipping).db.incs[id].condition)] else []
  }

  /** Whatever is due of what the pass opens is called about, once; and nothing else
      is, of this target or any other. */
  lemma APassCallsWhatIsDue(w: World, p: Pass, maxAttempts: int, skipping: bool, id: nat)
    requires AllAccounted(w, maxAttempts) && UniqueOpen(w.db.incs)
    ensures OutcomesOf(ObserveTarget(w, p, maxAttempts, skipping).calls, id)
         == OutcomesOf(w.calls, id)
            + if StillDue(OutcomesOf(w.calls, id), maxAttempts) then Offer(w, p, maxAttempts, skipping, id) else []
  {
    var g, d := PassGeneration(w, p), PassDecision(w, p);
    DecideIsExact(Shown(w, p), p.policy, p.now);
    if skipping && IsRepeatTerminal(RowFor(w.db, p.target), p.sighting, g) && Settled(w.db, p.target, d, g, maxAttempts) {
      var v := ObserveTarget(w, p, maxAttempts, skipping);
      assert v.db == w.db && v.calls == w.calls;
      hide ObserveTarget, AllAccounted, UniqueOpen, PassDecision, PassGeneration, Settled, StillDue;
      if AsksAbout(w, p, maxAttempts, skipping, id) {
        SettledOwesNothing(w, p, d, g, maxAttempts, id);
      }
    } else {
      var written := w.(mem := Notice(w.mem, p.target, Observed(p.sighting), p.now), db := Recorded(w.db, EventOf(p, g)));
      AnnouncedAlike(w, written, maxAttempts);
      assert ObserveTarget(w, p, maxAttempts, skipping) == Applied(written, p, d, g, maxAttempts);
      hide ObserveTarget, AllAccounted, UniqueOpen, PassDecision, PassGeneration, Applied, StillDue, Decide, Distinct, Settled, Holds;
      ApplyingCallsWhatIsDue(written, p, d, g, id, maxAttempts);
    }
  }

  lemma ApplyingCallsWhatIsDue(w: World, p: Pass, d: Decision, g: int, id: nat, maxAttempts: int)
    requires AllAccounted(w, maxAttempts) && UniqueOpen(w.db.incs) && Distinct(d.open)
    requires forall c :: c in d.open ==> c !in d.close
    ensures var v, os := Applied(w, p, d, g, maxAttempts), OutcomesOf(w.calls, id);
            OutcomesOf(v.calls, id) == os + Called(v.db.incs, id, p, g, d.open, os, maxAttempts)
  {
    OpeningCallsForEach(w, p, g, d.open, |d.open|, id, maxAttempts);
    var o := OpenFirst(w, p, g, d.open, |d.open|, maxAttempts);
    assert d.open[..|d.open|] == d.open;
    SweepLeavesTheAsked(o.db.incs, p, d, g, id);
    hide OpenFirst, StillDue, OutcomesOf, AllAccounted, UniqueOpen, Distinct;
  }

  lemma SettledOwesNothing(w: World, p: Pass, d: Decision, g: int, maxAttempts: int, id: nat)
    requires AllAccounted(w, maxAttempts) && UniqueOpen(w.db.incs) && Settled(w.db, p.target, d, g, maxAttempts)
    requires id < |w.db.incs| && IsOpenFor(w.db.incs[id], p.target, w.db.incs[id].condition, g) && w.db.incs[id].condition in d.open
    ensures !StillDue(OutcomesOf(w.calls, id), maxAttempts)
  {
    FindOpenFinds(w.db.incs, id);
    assert Accounted(w.db.deliveries, id, w.db.incs[id].notifiedAt.Some?, OutcomesOf(w.calls, id), maxAttempts);
  }

  lemma SweepLeavesTheAsked(incs: seq<Incident>, p: Pass, d: Decision, g: int, id: nat)
    requires forall c :: c in d.open ==> c !in d.close
    ensures var after := Sweep(incs, p.target, g, d.close, p.now);
            id < |incs| ==>
              && after[id].condition == incs[id].condition
              && (incs[id].condition in d.open ==>
                    (IsOpenFor(after[id], p.target, after[id].condition, g) <==> IsOpenFor(incs[id], p.target, incs[id].condition, g)))
  {
  }

  // ---- Any run ----

  /** The answers offered about an incident over a run, one for each pass that opened
      its condition. */
  ghost function Offers(w: World, steps: seq<Step>, maxAttempts: int, skipping: bool, id: nat): seq<Outcome> {
    if steps == [] then []
    else
      var before, s := steps[..|steps| - 1], steps[|steps| - 1];
      Offers(w, before, maxAttempts, skipping, id)
      + if s.Observe? then Offer(Run(w, before, maxAttempts, skipping), s.pass, maxAttempts, skipping, id) else []
  }

  /** The first of the answers, as many as it takes: no more once one is not a
      failure or the bound is reached, and no fewer. */
  predicate JustEnough(os: seq<Outcome>, offered: seq<Outcome>, maxAttempts: int) {
    && os <= offered
    && (os == offered || !StillDue(os, maxAttempts))
  }

  lemma OtherStepsCallNobody(w: World, s: Step, maxAttempts: int, skipping: bool)
    requires !s.Observe?
    ensures Take(w, s, maxAttempts, skipping).calls == w.calls
  {
  }

  /** Over any run, restarts included, the calls about an incident are what was called
      before and then the answers offered, in order, until one is not a failure or
      there were max(1, maxAttempts). */
  lemma {:induction false} EveryDueCallIsMade(w: World, steps: seq<Step>, maxAttempts: int, skipping: bool, id: nat)
    requires AllAccounted(w, maxAttempts) && UniqueOpen(w.db.incs)
    ensures JustEnough(OutcomesOf(Run(w, steps, maxAttempts, skipping).calls, id),
                       OutcomesOf(w.calls, id) + Offers(w, steps, maxAttempts, skipping, id), maxAttempts)
  {
    if steps == [] {
      RunNothing(w, maxAttempts, skipping);
    } else {
      hide Take, AllAccounted, UniqueOpen, OutcomesOf, StillDue, Offer, JustEnough, ObserveTarget;
      var before, s := steps[..|steps| - 1], steps[|steps| - 1];
      EveryDueCallIsMade(w, before, maxAttempts, skipping, id);
      EveryCallIsAccountedFor(w, before, maxAttempts, skipping);
      TheIndexAlwaysHolds(w, before, maxAttempts, skipping);
      var u := Run(w, before, maxAttempts, skipping);
      var os, offered := OutcomesOf(u.calls, id), OutcomesOf(w.calls, id) + Offers(w, before, maxAttempts, skipping, id);
      if s.Observe? {
        TakingAPass(u, s.pass, maxAttempts, skipping);
        APassCallsWhatIsDue(u, s.pass, maxAttempts, skipping, id);
        var offer := Offer(u, s.pass, maxAttempts, skipping, id);
        OneOfferMore(os, offered, offer, maxAttempts);
        assert OutcomesOf(w.calls, id) + Offers(w, steps, maxAttempts, skipping, id) == offered + offer;
      } else {
        OtherStepsCallNobody(u, s, maxAttempts, skipping);
        assert Offers(w, steps, maxAttempts, skipping, id) == Offers(w, before, maxAttempts, skipping, id);
      }
    }
  }

  lemma OneOfferMore(os: seq<Outcome>, offered: seq<Outcome>, offer: seq<Outcome>, maxAttempts: int)
    requires JustEnough(os, offered, maxAttempts)
    ensures JustEnough(os + if StillDue(os, maxAttempts) then offer else [], offered + offer, maxAttempts)
  {
    hide StillDue;
    assert os + [] == os;
  }

  /** So while every call fails, there are as many as passes that opened the condition,
      up to max(1, maxAttempts). */
  lemma FailingCallsAreRepeated(w: World, steps: seq<Step>, maxAttempts: int, skipping: bool, id: nat)
    requires AllAccounted(w, maxAttempts) && UniqueOpen(w.db.incs)
    requires forall o :: o in OutcomesOf(w.calls, id) + Offers(w, steps, maxAttempts, skipping, id) ==> o == Failed
    ensures var made, offered := |OutcomesOf(Run(w, steps, maxAttempts, skipping).calls, id)|,
                                 |OutcomesOf(w.calls, id)| + |Offers(w, steps, maxAttempts, skipping, id)|;
            made == if offered < Bound(maxAttempts) then offered else Bound(maxAttempts)
  {
    hide AllAccounted, Run, Offers, OutcomesOf, UniqueOpen;
    EveryDueCallIsMade(w, steps, maxAttempts, skipping, id);
    WithinTheBound(w, steps, maxAttempts, skipping, id);
    var os, offered := OutcomesOf(Run(w, steps, maxAttempts, skipping).calls, id),
                       OutcomesOf(w.calls, id) + Offers(w, steps, maxAttempts, skipping, id);
    forall k | 0 <= k < |os| ensures os[k] == Failed {
      assert os[k] == offered[k] && offered[k] in offered;
    }
  }

  lemma WithinTheBound(w: World, steps: seq<Step>, maxAttempts: int, skipping: bool, id: nat)
    requires AllAccounted(w, maxAttempts)
    ensures |OutcomesOf(Run(w, steps, maxAttempts, skipping).calls, id)| <= Bound(maxAttempts)
  {
    EveryCallIsAccountedFor(w, steps, maxAttempts, skipping);
    var v := Run(w, steps, maxAttempts, skipping);
    if id < |v.db.incs| {
      assert Accounted(v.db.deliveries, id, v.db.incs[id].notifiedAt.Some?, OutcomesOf(v.calls, id), maxAttempts);
    } else {
      NoCallsNoOutcomes(v.calls, id);
    }
  }
}
