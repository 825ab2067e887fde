/** A pass leaves alone what its policy does not ask about. So an overdue incident
    whose target has stopped asking stays open for the rest of its run, unless
    the change of policy closes it. */
module Unasked {
  import opened Domain
  import opened Config
  import opened Attention
  import opened Incidents
  import opened Store
  import opened World
  import opened WatchList

  /** Open about being overdue, on one of the first `n` targets, which no longer
      asks. */
  ghost predicate Stranded(i: Incident, targets: seq<Target>, n: nat)
    requires n <= |targets|
  {
    && i.resolvedAt.None? && i.condition == Overdue
    && exists k :: 0 <= k < n && targets[k].id == i.target && !targets[k].policy.AlertsOn(Overdue)
  }

  ghost predicate NoneStranded(incs: seq<Incident>, targets: seq<Target>) {
    forall i :: 0 <= i < |incs| ==> !Stranded(incs[i], targets, |targets|)
  }

  /** The table after every stranded incident was resolved. */
  ghost function DropStranded(incs: seq<Incident>, targets: seq<Target>, n: nat, at: Time): (r: seq<Incident>)
    requires n <= |targets|
    ensures |r| == |incs|
    ensures forall i :: 0 <= i < |incs| ==>
              r[i] == if Stranded(incs[i], targets, n) then Resolved(incs[i], at) else incs[i]
  {
    seq(|incs|, i requires 0 <= i < |incs| =>
      if Stranded(incs[i], targets, n) then Resolved(incs[i], at) else incs[i])
  }

  lemma DroppingLeavesNone(incs: seq<Incident>, targets: seq<Target>, at: Time)
    ensures NoneStranded(DropStranded(incs, targets, |targets|, at), targets)
  {
  }

  lemma DropOneMore(incs: seq<Incident>, targets: seq<Target>, n: nat, at: Time)
    requires n < |targets|
    ensures DropStranded(incs, targets, n + 1, at)
         == if targets[n].policy.AlertsOn(Overdue) then DropStranded(incs, targets, n, at)
            else DropOverdue(DropStranded(incs, targets, n, at), targets[n].id, at)
  {
    forall i | 0 <= i < |incs|
      ensures Stranded(incs[i], targets, n + 1) <==>
              || Stranded(incs[i], targets, n)
              || (incs[i].resolvedAt.None? && incs[i].condition == Overdue && targets[n].id == incs[i].target
                  && !targets[n].policy.AlertsOn(Overdue))
    {
      if Stranded(incs[i], targets, n) {
        var k :| 0 <= k < n && targets[k].id == incs[i].target && !targets[k].policy.AlertsOn(Overdue);
        assert 0 <= k < n + 1;
      }
    }
    var a := DropStranded(incs, targets, n + 1, at);
    var b := DropStranded(incs, targets, n, at);
    var c := if targets[n].policy.AlertsOn(Overdue) then b else DropOverdue(b, targets[n].id, at);
    assert |a| == |c| && forall i :: 0 <= i < |a| ==> a[i] == c[i];
  }

  // ---- Passes strand nothing ----

  /** Everything `after` holds open about being overdue was open before, or is
      about a target that asks. */
  ghost predicate OverdueOnlyIfAsked(before: seq<Incident>, after: seq<Incident>, target: string, asks: bool) {
    && |before| <= |after|
    && (forall i :: 0 <= i < |before| ==>
          && after[i].target == before[i].target && after[i].condition == before[i].condition
          && (after[i].resolvedAt.None? ==> before[i].resolvedAt.None?))
    && (forall i :: |before| <= i < |after| ==> after[i].target == target && (after[i].condition == Overdue ==> asks))
  }

  lemma OpenOneOnlyIfAsked(w: World, v: World, p: Pass, g: int, c: Condition, maxAttempts: int)
    requires OverdueOnlyIfAsked(w.db.incs, v.db.incs, p.target, p.policy.AlertsOn(Overdue))
    requires p.policy.AlertsOn(c)
    ensures OverdueOnlyIfAsked(w.db.incs, OpenOne(v, p, g, c, maxAttempts).db.incs, p.target, p.policy.AlertsOn(Overdue))
  {
    hide FindOpen;
  }

  lemma {:induction false} OpenFirstOnlyIfAsked(w: World, p: Pass, g: int, open: seq<Condition>, n: nat, maxAttempts: int)
    requires n <= |open| && forall c :: c in open ==> p.policy.AlertsOn(c)
    ensures OverdueOnlyIfAsked(w.db.incs, OpenFirst(w, p, g, open, n, maxAttempts).db.incs, p.target, p.policy.AlertsOn(Overdue))
  {
    if n > 0 {
      OpenFirstOnlyIfAsked(w, p, g, open, n - 1, maxAttempts);
      OpenOneOnlyIfAsked(w, OpenFirst(w, p, g, open, n - 1, maxAttempts), p, g, open[n - 1], maxAttempts);
    }
  }

  lemma PassOnlyIfAsked(w: World, p: Pass, maxAttempts: int, skipping: bool)
    ensures OverdueOnlyIfAsked(w.db.incs, ObserveTarget(w, p, maxAttempts, skipping).db.incs, p.target, p.policy.AlertsOn(Overdue))
  {
    var g, d := PassGeneration(w, p), PassDecision(w, p);
    DecideIsExact(Shown(w, p), p.policy, p.now);
    var written := w.(mem := Notice(w.mem, p.target, Observed(p.sighting), p.now), db := Recorded(w.db, EventOf(p, g)));
    OpenFirstOnlyIfAsked(written, p, g, d.open, |d.open|, maxAttempts);
  }

  lemma OnlyIfAskedStrandsNone(before: seq<Incident>, after: seq<Incident>, targets: seq<Target>, k: nat)
    requires WatchList.DistinctIds(targets) && k < |targets|
    requires NoneStranded(before, targets)
    requires OverdueOnlyIfAsked(before, after, targets[k].id, targets[k].policy.AlertsOn(Overdue))
    ensures NoneStranded(after, targets)
  {
    forall i | 0 <= i < |after| ensures !Stranded(after[i], targets, |targets|) {
      if i < |before| {
        assert !Stranded(before[i], targets, |targets|);
      }
    }
  }

  /** Every pass is over one of the targets, under the policy it now has. */
  ghost predicate PassesUnder(s: Step, targets: seq<Target>) {
    s.Observe? ==> exists k :: 0 <= k < |targets| && targets[k].id == s.pass.target && targets[k].policy == s.pass.policy
  }

  /** While the watch list stands, no run of passes, restarts or acknowledgements
      strands an overdue incident. */
  lemma {:induction false} PassesStrandNone(w: World, steps: seq<Step>, targets: seq<Target>, maxAttempts: int, skipping: bool)
    requires WatchList.DistinctIds(targets) && NoneStranded(w.db.incs, targets)
    requires forall k :: 0 <= k < |steps| ==> PassesUnder(steps[k], targets)
    ensures NoneStranded(Run(w, steps, maxAttempts, skipping).db.incs, targets)
  {
    if steps != [] {
      var n := |steps| - 1;
      PassesStrandNone(w, steps[..n], targets, maxAttempts, skipping);
      StepStrandsNone(Run(w, steps[..n], maxAttempts, skipping), steps[n], targets, maxAttempts, skipping);
    }
  }

  lemma StepStrandsNone(w: World, s: Step, targets: seq<Target>, maxAttempts: int, skipping: bool)
    requires WatchList.DistinctIds(targets) && NoneStranded(w.db.incs, targets) && PassesUnder(s, targets)
    ensures NoneStranded(Take(w, s, maxAttempts, skipping).db.incs, targets)
  {
    match s
    case Observe(p) =>
      var k :| 0 <= k < |targets| && targets[k].id == p.target && targets[k].policy == p.policy;
      PassOnlyIfAsked(w, p, maxAttempts, skipping);
      hide ObserveTarget, OverdueOnlyIfAsked;
      OnlyIfAskedStrandsNone(w.db.incs, ObserveTarget(w, p, maxAttempts, skipping).db.incs, targets, k);
    case Ack(id, at) =>
      if id < |w.db.incs| { assert !Stranded(w.db.incs[id], targets, |targets|); }
    case Unask(t, at) =>
      var after := DropOverdue(w.db.incs, t, at);
      forall i | 0 <= i < |after| ensures !Stranded(after[i], targets, |targets|) {
        assert !Stranded(w.db.incs[i], targets, |targets|);
      }
    case _ =>
  }

  // ---- Taking targets on can ----

  /** An overdue incident of this id is open. */
  ghost predicate LeftOpen(incs: seq<Incident>, id: string) {
    exists i :: 0 <= i < |incs| && incs[i].resolvedAt.None? && incs[i].condition == Overdue && incs[i].target == id
  }

  /** One of these does not ask, and was left one. */
  ghost predicate TakesOnUnasked(incs: seq<Incident>, targets: seq<Target>) {
    exists k :: 0 <= k < |targets| && !targets[k].policy.AlertsOn(Overdue) && LeftOpen(incs, targets[k].id)
  }

  /** The same targets under alert lists that agree about overdue, as a process
      takes on what it is given, strand none exactly when none of those given
      fails to ask while one of its id is open. */
  lemma TakingOnStrandsNoneExactly(incs: seq<Incident>, given: seq<Target>, taken: seq<Target>)
    requires |given| == |taken|
    requires forall k :: 0 <= k < |given| ==>
               taken[k].id == given[k].id && taken[k].policy.alertOn == given[k].policy.alertOn
    ensures NoneStranded(incs, taken) <==> !TakesOnUnasked(incs, given)
  {
    if i :| 0 <= i < |incs| && Stranded(incs[i], taken, |taken|) {
      var k :| 0 <= k < |taken| && taken[k].id == incs[i].target && !taken[k].policy.AlertsOn(Overdue);
      assert !given[k].policy.AlertsOn(Overdue) && LeftOpen(incs, given[k].id);
    }
    if k :| 0 <= k < |given| && !given[k].policy.AlertsOn(Overdue) && LeftOpen(incs, given[k].id) {
      var i :| 0 <= i < |incs| && incs[i].resolvedAt.None? && incs[i].condition == Overdue && incs[i].target == given[k].id;
      assert taken[k].id == incs[i].target && !taken[k].policy.AlertsOn(Overdue);
      assert Stranded(incs[i], taken, |taken|);
    }
  }

  /** Adding a target strands nothing exactly when it asks about overdue or no
      earlier target of its id left one open. */
  lemma AddingStrandsNoneExactly(incs: seq<Incident>, targets: seq<Target>, t: Target)
    requires NoneStranded(incs, targets)
    ensures NoneStranded(incs, targets + [t]) <==> t.policy.AlertsOn(Overdue) || !LeftOpen(incs, t.id)
  {
    var more := targets + [t];
    forall i | 0 <= i < |incs|
      ensures Stranded(incs[i], more, |more|) <==>
        incs[i].resolvedAt.None? && incs[i].condition == Overdue && t.id == incs[i].target && !t.policy.AlertsOn(Overdue)
    {
      assert !Stranded(incs[i], targets, |targets|);
      assert more[|targets|] == t;
    }
  }
}
