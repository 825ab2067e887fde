/** The whole life of an instance and its watch list: which steps of it can leave an
    overdue incident open on a target that does not ask about overdue. */
module Stranding {
  import opened Domain
  import opened Config
  import opened Incidents
  import opened World
  import opened WatchList
  import opened Deadlines
  import opened Unasked

  datatype Instance = Instance(world: World, watch: Watch)

  datatype Deed =
    | Happened(step: Step)                  // a step of the monitor
    | Changed(edit: Edit, at: Time)         // a change of the watch list
    | Began(watch: Watch, started: Time)    // a process begins over what is stored, with a file's list

  /** Steps are passes over what is watched; lists name a target once. */
  ghost predicate Fits(i: Instance, d: Deed) {
    match d
    case Happened(s) => PassesUnder(s, i.watch.targets)
    case Changed(e, _) => WellFormed(e)
    case Began(w, _) => WatchList.DistinctIds(w.targets)
  }

  function TakenOnAll(w: Watch, started: Time): (r: Watch)
    ensures |r.targets| == |w.targets|
    ensures forall k :: 0 <= k < |r.targets| ==>
              r.targets[k] == w.targets[k].(policy := ResolveDeadline(w.targets[k].policy, started))
  {
    w.(targets := seq(|w.targets|, k requires 0 <= k < |w.targets| =>
         w.targets[k].(policy := ResolveDeadline(w.targets[k].policy, started))))
  }

  /** What a change of the list does to the incidents: a sync that changed
      something closes what nobody asks about, and so does an accepted update. */
  ghost function IncidentsAfter(i: Instance, e: Edit, at: Time): seq<Incident> {
    var incs, after := i.world.db.incs, Edited(i.watch, e);
    match e
    case Sync(f, links, now) =>
      if WatchChanged(i.watch, f, links, now) then DropStranded(incs, after.targets, |after.targets|, now) else incs
    case Update(id, change) =>
      var k := IndexOf(i.watch.targets, id);
      if k.None? then incs
      else
        var p := ApplyPolicyUpdate(i.watch.targets[k.value].policy, change);
        if p.None? || p.value.AlertsOn(Overdue) then incs else DropOverdue(incs, id, at)
    case _ => incs
  }

  ghost function Do(i: Instance, d: Deed, maxAttempts: int): Instance {
    match d
    case Happened(s) => i.(world := Take(i.world, s, maxAttempts, true))
    case Changed(e, at) =>
      Instance(i.world.(db := i.world.db.(incs := IncidentsAfter(i, e, at))), Edited(i.watch, e))
    case Began(w, started) => Instance(Take(i.world, Restart, maxAttempts, true), TakenOnAll(w, started))
  }

  ghost function After(i: Instance, ds: seq<Deed>, maxAttempts: int): Instance {
    if ds == [] then i else Do(After(i, ds[..|ds| - 1], maxAttempts), ds[|ds| - 1], maxAttempts)
  }

  ghost predicate Clean(i: Instance) {
    NoneStranded(i.world.db.incs, i.watch.targets)
  }

  /** The two ways: adding a target that does not ask, or beginning with one, while
      an overdue incident of its id is open. */
  ghost predicate Strands(i: Instance, d: Deed) {
    match d
    case Changed(Add(t, _), _) =>
      && !Names(i.watch.targets, t.id) && ValidDeadline(t.policy)
      && !t.policy.AlertsOn(Overdue) && LeftOpen(i.world.db.incs, t.id)
    case Began(w, _) => TakesOnUnasked(i.world.db.incs, w.targets)
    case _ => false
  }

  lemma EditKeepsDistinct(w: Watch, e: Edit)
    requires WatchList.DistinctIds(w.targets) && WellFormed(e)
    ensures WatchList.DistinctIds(Edited(w, e).targets)
  {
    hide Synced;
    match e
    case Sync(f, links, now) => SyncedNames(w, f, links, now);
    case Remove(id) => WithoutKeepsDistinct(w.targets, id);
    case _ =>
  }

  lemma SyncClosesExactly(i: Instance, f: File, links: Links, now: Time, at: Time, maxAttempts: int)
    ensures Clean(Do(i, Changed(Edit.Sync(f, links, now), at), maxAttempts)) <==>
              WatchChanged(i.watch, f, links, now) || Clean(i)
  {
    hide WatchChanged, NextTargets;
    var after := Edited(i.watch, Edit.Sync(f, links, now));
    if WatchChanged(i.watch, f, links, now) {
      DroppingLeavesNone(i.world.db.incs, after.targets, now);
    }
  }

  lemma UpdateStrandsNone(i: Instance, id: string, c: Change, at: Time, maxAttempts: int)
    requires WatchList.DistinctIds(i.watch.targets) && Clean(i)
    ensures Clean(Do(i, Changed(Update(id, c), at), maxAttempts))
  {
    hide ApplyPolicyUpdate;
    var after := Do(i, Changed(Update(id, c), at), maxAttempts);
    var incs, targets := after.world.db.incs, after.watch.targets;
    forall k | 0 <= k < |incs| ensures !Stranded(incs[k], targets, |targets|) {
      assert !Stranded(i.world.db.incs[k], i.watch.targets, |i.watch.targets|);
    }
  }

  lemma RemovingStrandsNone(incs: seq<Incident>, targets: seq<Target>, id: string)
    requires NoneStranded(incs, targets)
    ensures NoneStranded(incs, Without(targets, id))
  {
    var r := Without(targets, id);
    forall i | 0 <= i < |incs| ensures !Stranded(incs[i], r, |r|) {
      assert !Stranded(incs[i], targets, |targets|);
      if k :| 0 <= k < |r| && r[k].id == incs[i].target && !r[k].policy.AlertsOn(Overdue) {
        assert r[k] in targets;
        var j :| 0 <= j < |targets| && targets[j] == r[k];
      }
    }
  }

  lemma MovingStrandsNone(incs: seq<Incident>, targets: seq<Target>, k: nat, a: Attachment)
    requires NoneStranded(incs, targets) && k < |targets|
    ensures NoneStranded(incs, targets[k := targets[k].(attachment := a)])
  {
    var r := targets[k := targets[k].(attachment := a)];
    forall i | 0 <= i < |incs| ensures !Stranded(incs[i], r, |r|) {
      assert !Stranded(incs[i], targets, |targets|);
      assert forall j :: 0 <= j < |r| ==> r[j].id == targets[j].id && r[j].policy == targets[j].policy;
    }
  }

  lemma EditStrandsExactly(i: Instance, e: Edit, at: Time, maxAttempts: int)
    requires WatchList.DistinctIds(i.watch.targets) && Clean(i)
    ensures Clean(Do(i, Changed(e, at), maxAttempts)) <==> !Strands(i, Changed(e, at))
  {
    hide Synced, WatchChanged, NoneStranded, LeftOpen, ApplyPolicyUpdate, ResolveDeadline;
    match e
    case Sync(f, links, now) => SyncClosesExactly(i, f, links, now, at, maxAttempts);
    case Update(id, change) => UpdateStrandsNone(i, id, change, at, maxAttempts);
    case Remove(id) => RemovingStrandsNone(i.world.db.incs, i.watch.targets, id);
    case Moved(id, a) =>
      var k := IndexOf(i.watch.targets, id);
      if k.Some? { MovingStrandsNone(i.world.db.incs, i.watch.targets, k.value, a); }
    case Add(t, now) =>
      var taken := t.(policy := ResolveDeadline(t.policy, now));
      ResolvingKeepsAlerts(t.policy, now);
      AddingStrandsNoneExactly(i.world.db.incs, i.watch.targets, taken);
  }

  lemma ResolvingKeepsAlerts(p: Policy, now: Time)
    ensures ResolveDeadline(p, now).alertOn == p.alertOn
  {
  }

  /** A step from a clean instance leaves it clean exactly when it is not one of
      the two that can strand. */
  lemma OneDeedExactly(i: Instance, d: Deed, maxAttempts: int)
    requires WatchList.DistinctIds(i.watch.targets) && Fits(i, d) && Clean(i)
    ensures Clean(Do(i, d, maxAttempts)) <==> !Strands(i, d)
    ensures WatchList.DistinctIds(Do(i, d, maxAttempts).watch.targets)
  {
    hide Take, NoneStranded, TakesOnUnasked, IncidentsAfter, Edited, ResolveDeadline;
    match d
    case Happened(s) => StepStrandsNone(i.world, s, i.watch.targets, maxAttempts, true);
    case Changed(e, at) =>
      EditStrandsExactly(i, e, at, maxAttempts);
      EditKeepsDistinct(i.watch, e);
    case Began(w, started) =>
      RestartKeepsIncidents(i.world, maxAttempts);
      var taken := TakenOnAll(w, started);
      forall k | 0 <= k < |taken.targets| ensures taken.targets[k].policy.alertOn == w.targets[k].policy.alertOn {
        ResolvingKeepsAlerts(w.targets[k].policy, started);
      }
      TakingOnStrandsNoneExactly(i.world.db.incs, w.targets, taken.targets);
  }

  lemma RestartKeepsIncidents(w: World, maxAttempts: int)
    ensures Take(w, Restart, maxAttempts, true).db == w.db
  {
  }

  /** Where the life stands after its first `k` deeds. */
  ghost function StandsAt(i: Instance, ds: seq<Deed>, k: nat, maxAttempts: int): Instance
    requires k <= |ds|
  {
    After(i, ds[..k], maxAttempts)
  }

  ghost predicate AllFit(i: Instance, ds: seq<Deed>, maxAttempts: int) {
    forall k :: 0 <= k < |ds| ==> Fits(StandsAt(i, ds, k, maxAttempts), ds[k])
  }

  ghost predicate NeverStrands(i: Instance, ds: seq<Deed>, maxAttempts: int) {
    forall k :: 0 <= k < |ds| ==> !Strands(StandsAt(i, ds, k, maxAttempts), ds[k])
  }

  ghost predicate AlwaysClean(i: Instance, ds: seq<Deed>, maxAttempts: int) {
    forall k :: 0 <= k <= |ds| ==> Clean(StandsAt(i, ds, k, maxAttempts))
  }

  lemma StandsStay(i: Instance, ds: seq<Deed>, k: nat, maxAttempts: int)
    requires ds != [] && k < |ds|
    ensures StandsAt(i, ds[..|ds| - 1], k, maxAttempts) == StandsAt(i, ds, k, maxAttempts)
    ensures StandsAt(i, ds, |ds| - 1, maxAttempts) == After(i, ds[..|ds| - 1], maxAttempts)
    ensures StandsAt(i, ds, |ds|, maxAttempts) == Do(After(i, ds[..|ds| - 1], maxAttempts), ds[|ds| - 1], maxAttempts)
  {
    hide Do;
    assert ds[..|ds| - 1][..k] == ds[..k] && ds[..|ds|] == ds;
  }

  /** Over any life of passes, acknowledgements, syncs, additions, removals,
      updates, follows and restarts, no overdue incident is ever open on a target
      that does not ask exactly when no target was added, and none begun with,
      that does not ask while one of its id was left open. */
  lemma {:induction false} ALifeStaysCleanExactly(i: Instance, ds: seq<Deed>, maxAttempts: int)
    requires WatchList.DistinctIds(i.watch.targets) && Clean(i) && AllFit(i, ds, maxAttempts)
    ensures AlwaysClean(i, ds, maxAttempts) <==> NeverStrands(i, ds, maxAttempts)
    ensures NeverStrands(i, ds, maxAttempts) ==> WatchList.DistinctIds(After(i, ds, maxAttempts).watch.targets)
  {
    hide Clean, Strands, Fits, Do, WatchList.DistinctIds;
    if ds == [] {
      assert StandsAt(i, ds, 0, maxAttempts) == i;
    } else {
      var n := |ds| - 1;
      OneMoreDeed(i, ds, maxAttempts);
      hide AllFit, AlwaysClean, NeverStrands;
      ALifeStaysCleanExactly(i, ds[..n], maxAttempts);
      if NeverStrands(i, ds[..n], maxAttempts) {
        OneDeedExactly(After(i, ds[..n], maxAttempts), ds[n], maxAttempts);
      }
    }
  }

  lemma OneMoreDeed(i: Instance, ds: seq<Deed>, maxAttempts: int)
    requires ds != []
    ensures var n := |ds| - 1;
            && (NeverStrands(i, ds, maxAttempts) <==>
                  NeverStrands(i, ds[..n], maxAttempts) && !Strands(After(i, ds[..n], maxAttempts), ds[n]))
            && (AlwaysClean(i, ds, maxAttempts) <==>
                  AlwaysClean(i, ds[..n], maxAttempts) && Clean(Do(After(i, ds[..n], maxAttempts), ds[n], maxAttempts)))
            && (AlwaysClean(i, ds[..n], maxAttempts) ==> Clean(After(i, ds[..n], maxAttempts)))
            && (AllFit(i, ds, maxAttempts) ==>
                  AllFit(i, ds[..n], maxAttempts) && Fits(After(i, ds[..n], maxAttempts), ds[n]))
  {
    hide Clean, Strands, Do, Fits, StandsAt, After;
    var n := |ds| - 1;
    forall k: nat | k <= n ensures StandsAt(i, ds[..n], k, maxAttempts) == StandsAt(i, ds, k, maxAttempts) {
      StandsStay(i, ds, k, maxAttempts);
    }
    StandsStay(i, ds, n, maxAttempts);
  }

  /** A target that asks, with an overdue incident open, is removed, and one of its
      id that does not ask is added: the incident is left open on it. */
  lemma AddingAgainStrands(i: Instance, t: Target, asks: Target, overdue: Incident, at: Time, maxAttempts: int)
    requires asks.id == t.id && Overdue in asks.policy.alertOn && t.policy.alertOn == [Exit]
    requires FileFormat(t.policy) && i.watch.targets == [asks]
    requires i.world.db.incs == [overdue] && IsOpenFor(overdue, t.id, Overdue, 1)
    ensures Clean(i)
    ensures Clean(After(i, [Changed(Remove(t.id), at)], maxAttempts))
    ensures !Clean(After(i, [Changed(Remove(t.id), at)] + [Changed(Add(t, at), at)], maxAttempts))
  {
    var removed := [Changed(Remove(t.id), at)];
    var both := removed + [Changed(Add(t, at), at)];
    assert removed[..0] == [] && both[..1] == removed;
    var j := Do(i, removed[0], maxAttempts);
    assert Clean(i);
    assert WatchList.DistinctIds(i.watch.targets);
    assert j.world.db.incs == i.world.db.incs && j.watch.targets == Without(i.watch.targets, t.id);
    FirstIsIn(j.watch.targets);
    assert j.watch.targets == [];
    assert LeftOpen(j.world.db.incs, t.id) && Strands(j, both[1]) by {
      assert j.world.db.incs[0] == overdue;
    }
    hide Clean, Strands, Do, LeftOpen, IsOpenFor;
    assert After(i, removed, maxAttempts) == j;
    assert After(i, both, maxAttempts) == Do(j, both[1], maxAttempts);
    OneDeedExactly(i, removed[0], maxAttempts);
    OneDeedExactly(j, both[1], maxAttempts);
  }

  lemma FirstIsIn(targets: seq<Target>)
    ensures targets == [] || targets[0] in targets
  {
  }
}
