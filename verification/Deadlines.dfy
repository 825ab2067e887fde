/** Deadlines across every change to a watch list: re-reading its file, adding,
    removing and updating targets, and passes that follow a session. */
module Deadlines {
  import opened Domain
  import opened Config
  import opened WatchList
  import Follows

  /** The fields an update supplies. An inner `None` clears. */
  datatype Change = Change(
    alertOn: Option<seq<Condition>>,
    quietAfterSeconds: Option<int>,
    idleGraceSeconds: Option<int>,
    expectedQuietUntil: Option<Option<Time>>,
    expectedQuietReason: string,
    deadline: Option<Option<Time>>)

  function Or<T>(o: Option<T>, otherwise: T): T {
    if o.Some? then o.value else otherwise
  }

  /** The updated policy, or the refusal. */
  function ApplyPolicyUpdate(current: Policy, c: Change): Option<Policy> {
    if c.quietAfterSeconds.Some? && c.quietAfterSeconds.value <= 0 then None
    else if c.idleGraceSeconds.Some? && c.idleGraceSeconds.value < 0 then None
    else
      var override := c.expectedQuietUntil;
      var p := current.(
        alertOn := Or(c.alertOn, current.alertOn),
        quietAfter := if c.quietAfterSeconds.Some? then c.quietAfterSeconds.value * 1000 else current.quietAfter,
        idleGrace := if c.idleGraceSeconds.Some? then c.idleGraceSeconds.value * 1000 else current.idleGrace,
        expectedQuietUntil := Or(override, current.expectedQuietUntil),
        expectedQuietReason := if override.None? then current.expectedQuietReason
                               else if override.value.None? then ""
                               else c.expectedQuietReason,
        deadline := Or(c.deadline, current.deadline),
        deadlineByUpdate := c.deadline.Some? || current.deadlineByUpdate);
      if ValidDeadline(p) then Some(p) else None
  }

  /** The new policy is the old one but for what was supplied, which it has as
      supplied: lengths of time in milliseconds, and an override that is cleared
      without its reason. */
  predicate AsSupplied(before: Policy, after: Policy, c: Change) {
    && (match c.alertOn case None => after.alertOn == before.alertOn case Some(list) => after.alertOn == list)
    && (match c.quietAfterSeconds
        case None => after.quietAfter == before.quietAfter
        case Some(s) => s > 0 && after.quietAfter == 1000 * s)
    && (match c.idleGraceSeconds
        case None => after.idleGrace == before.idleGrace
        case Some(s) => s >= 0 && after.idleGrace == 1000 * s)
    && (match c.expectedQuietUntil
        case None => after.expectedQuietUntil == before.expectedQuietUntil
                     && after.expectedQuietReason == before.expectedQuietReason
        case Some(None) => after.expectedQuietUntil == None && after.expectedQuietReason == ""
        case Some(Some(t)) => after.expectedQuietUntil == Some(t) && after.expectedQuietReason == c.expectedQuietReason)
    && (match c.deadline
        case None => after.deadline == before.deadline && after.deadlineByUpdate == before.deadlineByUpdate
        case Some(d) => after.deadline == d && after.deadlineByUpdate)
    && after.noProgressAfter == before.noProgressAfter
    && after.deadlineAfter == before.deadlineAfter && after.fileDeadline == before.fileDeadline
  }

  /** A change is turned down for a length of time that is none, or when it would
      leave a deadline, set or still to be resolved, that the alert list leaves out. */
  predicate TurnedDown(before: Policy, c: Change) {
    || (c.quietAfterSeconds.Some? && c.quietAfterSeconds.value < 1)
    || (c.idleGraceSeconds.Some? && c.idleGraceSeconds.value < 0)
    || (&& Overdue !in (match c.alertOn case None => before.alertOn case Some(list) => list)
        && match c.deadline
           case Some(d) => d.Some?
           case None => before.deadline.Some? || (before.deadlineAfter > 0 && !before.deadlineByUpdate))
  }

  /** Only the target of this id differs, and only in its policy. */
  ghost predicate OnlyUpdated(before: seq<Target>, after: seq<Target>, id: string, c: Change) {
    && |after| == |before|
    && forall i :: 0 <= i < |before| ==>
         if before[i].id != id then after[i] == before[i]
         else after[i] == before[i].(policy := after[i].policy) && AsSupplied(before[i].policy, after[i].policy, c)
  }

  lemma UpdatedAsSupplied(before: Policy, c: Change)
    ensures ApplyPolicyUpdate(before, c).None? <==> TurnedDown(before, c)
    ensures ApplyPolicyUpdate(before, c).Some? ==> AsSupplied(before, ApplyPolicyUpdate(before, c).value, c)
  {
  }

  datatype Edit =
    | Sync(file: File, links: Links, now: Time)
    | Add(target: Target, now: Time)
    | Remove(id: string)
    | Update(id: string, change: Change)
    | Moved(id: string, attachment: Attachment)  // a pass followed the session

  ghost function IndexOf(targets: seq<Target>, id: string): (r: Option<nat>)
    ensures r.Some? ==> r.value < |targets| && targets[r.value].id == id
    ensures r.None? ==> forall i :: 0 <= i < |targets| ==> targets[i].id != id
  {
    if i: nat :| i < |targets| && targets[i].id == id then Some(i) else None
  }

  function Without(targets: seq<Target>, id: string): (r: seq<Target>)
    ensures forall t :: t in r <==> t in targets && t.id != id
    ensures |r| <= |targets|
  {
    if targets == [] then []
    else
      var n := |targets| - 1;
      assert targets == targets[..n] + [targets[n]];
      Without(targets[..n], id) + if targets[n].id == id then [] else [targets[n]]
  }

  /** A refused edit changes nothing. */
  ghost function Edited(w: Watch, e: Edit): Watch {
    match e
    case Sync(f, links, now) => Synced(w, f, links, now)
    case Add(t, now) =>
      if Names(w.targets, t.id) || !ValidDeadline(t.policy) then w
      else
        Watch(w.targets + [t.(policy := ResolveDeadline(t.policy, now))], w.addedAt[t.id := now],
              w.revision + 1, w.retention, w.followFile)
    case Remove(id) =>
      if !Names(w.targets, id) then w
      else w.(targets := Without(w.targets, id), addedAt := w.addedAt - {id}, revision := w.revision + 1)
    case Update(id, change) =>
      (match IndexOf(w.targets, id)
       case None => w
       case Some(i) =>
         match ApplyPolicyUpdate(w.targets[i].policy, change)
         case None => w
         case Some(p) => w.(targets := w.targets[i := w.targets[i].(policy := p)], revision := w.revision + 1))
    case Moved(id, a) =>
      (match IndexOf(w.targets, id)
       case None => w
       case Some(i) => w.(targets := w.targets[i := w.targets[i].(attachment := a)]))
  }

  /** An id new to the list, with a deadline that can alert, is taken on last. */
  lemma WhatAddingLeaves(w: Watch, t: Target, now: Time)
    ensures var w1 := Edited(w, Add(t, now));
            if (exists i :: 0 <= i < |w.targets| && w.targets[i].id == t.id) || !ValidDeadline(t.policy) then w1 == w
            else
              && |w1.targets| == |w.targets| + 1 && w1.targets[..|w.targets|] == w.targets
              && w1.targets[|w.targets|].policy.deadline ==
                   (if t.policy.deadline.None? && t.policy.deadlineAfter > 0 then Some(now + t.policy.deadlineAfter) else t.policy.deadline)
              && w1.targets[|w.targets|] == t.(policy := t.policy.(deadline := w1.targets[|w.targets|].policy.deadline))
              && w1 == w.(targets := w1.targets, addedAt := w.addedAt[t.id := now], revision := w.revision + 1)
  {
  }

  lemma WithoutLast(before: seq<Target>, t: Target, id: string)
    ensures Without(before + [t], id) == Without(before, id) + if t.id == id then [] else [t]
  {
    assert (before + [t])[..|before|] == before;
  }

  lemma WithoutNothing(id: string)
    ensures Without([], id) == []
  {
  }

  lemma {:induction false} WithoutNone(targets: seq<Target>, id: string)
    requires forall i :: 0 <= i < |targets| ==> targets[i].id != id
    ensures Without(targets, id) == targets
  {
    hide Without;
    if targets == [] {
      WithoutNothing(id);
    } else {
      var n := |targets| - 1;
      WithoutNone(targets[..n], id);
      WithoutLast(targets[..n], targets[n], id);
      assert targets == targets[..n] + [targets[n]];
    }
  }

  lemma {:induction false} WithoutOne(before: seq<Target>, t: Target, after: seq<Target>)
    requires forall i :: 0 <= i < |before| ==> before[i].id != t.id
    requires forall i :: 0 <= i < |after| ==> after[i].id != t.id
    ensures Without(before + [t] + after, t.id) == before + after
  {
    hide Without;
    if after == [] {
      WithoutNone(before, t.id);
      WithoutLast(before, t, t.id);
      assert before + [t] + after == before + [t] && before + after == before;
    } else {
      var n := |after| - 1;
      WithoutOne(before, t, after[..n]);
      WithoutLast(before + [t] + after[..n], after[n], t.id);
      assert before + [t] + after == before + [t] + after[..n] + [after[n]];
      assert before + after == before + after[..n] + [after[n]];
    }
  }

  lemma OnlyOneNamed(targets: seq<Target>, k: nat)
    requires DistinctIds(targets) && k < |targets|
    ensures var before, after := targets[..k], targets[k + 1..];
            && (forall i :: 0 <= i < |before| ==> before[i].id != targets[k].id)
            && (forall i :: 0 <= i < |after| ==> after[i].id != targets[k].id)
  {
  }

  /** A target removed is taken out of the list, and when it was taken on forgotten;
      the others stay as they were, in order. */
  lemma WhatRemovingLeaves(w: Watch, id: string)
    requires DistinctIds(w.targets)
    ensures var w1 := Edited(w, Remove(id));
            && ((forall i :: 0 <= i < |w.targets| ==> w.targets[i].id != id) ==> w1 == w)
            && forall k :: 0 <= k < |w.targets| && w.targets[k].id == id ==>
                 w1 == w.(targets := w.targets[..k] + w.targets[k + 1..], addedAt := w.addedAt - {id}, revision := w.revision + 1)
  {
    hide Without, DistinctIds;
    forall k | 0 <= k < |w.targets| && w.targets[k].id == id
      ensures Without(w.targets, id) == w.targets[..k] + w.targets[k + 1..]
    {
      assert w.targets == w.targets[..k] + [w.targets[k]] + w.targets[k + 1..];
      OnlyOneNamed(w.targets, k);
      WithoutOne(w.targets[..k], w.targets[k], w.targets[k + 1..]);
    }
  }

  /** A policy updated is that of the one target, in its place; a change turned down,
      or for nobody, changes nothing. */
  lemma WhatUpdatingLeaves(w: Watch, id: string, c: Change)
    requires DistinctIds(w.targets)
    ensures var w1 := Edited(w, Update(id, c));
            && w1 == w.(targets := w1.targets, revision := w1.revision)
            && if exists k :: 0 <= k < |w.targets| && w.targets[k].id == id && !TurnedDown(w.targets[k].policy, c)
               then w1.revision == w.revision + 1 && OnlyUpdated(w.targets, w1.targets, id, c)
               else w1 == w
  {
    var at := IndexOf(w.targets, id);
    if at.Some? {
      UpdatedAsSupplied(w.targets[at.value].policy, c);
      hide ApplyPolicyUpdate, TurnedDown, AsSupplied;
    }
  }

  ghost function EditAll(w: Watch, es: seq<Edit>): Watch {
    if es == [] then w else Edited(EditAll(w, es[..|es| - 1]), es[|es| - 1])
  }

  /** Files and added targets are in the file's format. */
  ghost predicate WellFormed(e: Edit) {
    match e
    case Sync(f, _, _) => Accepted(f)
    case Add(t, _) => FileFormat(t.policy)
    case _ => true
  }

  // ---- No deadline that cannot alert ----

  /** A deadline not set by an update is there exactly when the file has one, and
      none is there that nobody would hear of. */
  predicate Sound(p: Policy) {
    && ValidDeadline(p)
    && p.deadlineAfter >= 0
    && (p.deadlineAfter > 0 ==> p.fileDeadline.None?)
    && (!p.deadlineByUpdate ==> (p.deadline.Some? <==> p.fileDeadline.Some? || p.deadlineAfter > 0))
  }

  ghost predicate AllSound(w: Watch) {
    && DistinctIds(w.targets)
    && forall i :: 0 <= i < |w.targets| ==> Sound(w.targets[i].policy)
  }

  lemma ResolvingIsSound(p: Policy, now: Time)
    requires FileFormat(p)
    ensures Sound(ResolveDeadline(p, now))
  {
  }

  /** The one case that needs care: what is kept of the deadline in force is
      asked about, because the file either states it too or, where an update set
      it, still asks. */
  lemma KeepingIsSound(fromFile: Policy, current: Policy, addedAt: Time, now: Time)
    requires FileFormat(fromFile) && Sound(current)
    ensures Sound(KeepDeadline(KeepRuntimeOverride(fromFile, current, now), current, addedAt))
  {
  }

  lemma JudgedIsSound(w: Watch, t: Target, links: Links, now: Time)
    requires AllSound(w) && FileFormat(t.policy)
    ensures Sound(Judged(w, t, links, now).1.policy)
  {
    match Named(w.targets, t.id)
    case None => ResolvingIsSound(t.policy, now);
    case Some(current) => KeepingIsSound(t.policy, current.policy, TakenOn(w.addedAt, t.id, now), now);
  }

  lemma SyncKeepsSound(w: Watch, f: File, links: Links, now: Time)
    requires AllSound(w) && Accepted(f)
    ensures AllSound(Synced(w, f, links, now))
  {
    hide Judged, Sound;
    SyncedNames(w, f, links, now);
    var w1 := Synced(w, f, links, now);
    if WatchChanged(w, f, links, now) {
      forall i | 0 <= i < |w1.targets| ensures Sound(w1.targets[i].policy) {
        JudgedIsSound(w, f.targets[i], links, now);
      }
    }
  }

  lemma {:induction false} WithoutKeepsDistinct(targets: seq<Target>, id: string)
    requires DistinctIds(targets)
    ensures DistinctIds(Without(targets, id))
  {
    if targets != [] {
      var n := |targets| - 1;
      WithoutKeepsDistinct(targets[..n], id);
      var r := Without(targets[..n], id);
      forall j | 0 <= j < |r| ensures r[j].id != targets[n].id {
        assert r[j] in r;
      }
    }
  }

  lemma UpdatingIsSound(p: Policy, c: Change)
    requires Sound(p)
    ensures ApplyPolicyUpdate(p, c).Some? ==> Sound(ApplyPolicyUpdate(p, c).value)
  {
  }

  lemma EditKeepsSound(w: Watch, e: Edit)
    requires AllSound(w) && WellFormed(e)
    ensures AllSound(Edited(w, e))
  {
    hide Sound, FileFormat, Synced, ApplyPolicyUpdate, ResolveDeadline, Accepted, ValidDeadline;
    match e
    case Sync(f, links, now) => SyncKeepsSound(w, f, links, now);
    case Add(t, now) => ResolvingIsSound(t.policy, now);
    case Remove(id) =>
      WithoutKeepsDistinct(w.targets, id);
      var r := Without(w.targets, id);
      forall i | 0 <= i < |r| ensures Sound(r[i].policy) {
        assert r[i] in r;
      }
    case Update(id, change) =>
      var at := IndexOf(w.targets, id);
      if at.Some? { UpdatingIsSound(w.targets[at.value].policy, change); }
    case Moved(id, a) =>
  }

  /** Whatever is synced, added, removed, updated or followed, no watched target
      ever holds a deadline its alert list leaves out. */
  lemma {:induction false} EveryDeadlineCanAlert(w: Watch, es: seq<Edit>)
    requires AllSound(w) && forall k :: 0 <= k < |es| ==> WellFormed(es[k])
    ensures AllSound(EditAll(w, es))
    ensures forall t :: t in EditAll(w, es).targets && t.policy.deadline.Some? ==> t.policy.AlertsOn(Overdue)
  {
    if es != [] {
      var n := |es| - 1;
      EveryDeadlineCanAlert(w, es[..n]);
      EditKeepsSound(EditAll(w, es[..n]), es[n]);
    }
  }

  // ---- Where a deadline comes from ----

  /** The target is watched since `takenOn`, and the deadline in force is the one
      a file's policy gives a target taken on then. */
  ghost predicate Stands(w: Watch, id: string, p: Policy, takenOn: Time) {
    && id in w.addedAt && w.addedAt[id] == takenOn
    && Named(w.targets, id).Some?
    && var c := Named(w.targets, id).value.policy;
       SameAsFile(p, c) && !c.deadlineByUpdate && c.deadline == ResolveDeadline(p, takenOn).deadline
  }

  /** What the deadline in force is, said without the code that keeps it: the
      time written in the file, or the take-on time plus the relative one, or
      none. */
  lemma WhatStands(w: Watch, id: string, p: Policy, takenOn: Time)
    requires FileFormat(p) && Stands(w, id, p, takenOn)
    ensures Named(w.targets, id).value.policy.deadline ==
              if p.fileDeadline.Some? then p.fileDeadline
              else if p.deadlineAfter > 0 then Some(takenOn + p.deadlineAfter)
              else None
  {
  }

  /** Nothing but syncs whose file names the target, and edits to other targets.
      Passes may follow it. */
  ghost predicate KeepsWatching(e: Edit, id: string) {
    match e
    case Sync(f, _, _) => Names(f.targets, id)
    case Add(t, _) => true
    case Remove(x) => x != id
    case Update(x, _) => x != id
    case Moved(_, _) => true
  }

  /** The policy for a target in the last file synced. */
  ghost function LastWritten(p: Policy, es: seq<Edit>, id: string): Policy {
    if es == [] then p
    else
      var e := es[|es| - 1];
      if e.Sync? && Named(e.file.targets, id).Some? then Named(e.file.targets, id).value.policy
      else LastWritten(p, es[..|es| - 1], id)
  }

  lemma SyncStands(w: Watch, f: File, links: Links, now: Time, id: string, p: Policy, takenOn: Time)
    requires DistinctIds(w.targets) && Accepted(f) && Names(f.targets, id) && FileFormat(p)
    requires Stands(w, id, p, takenOn)
    ensures Stands(Synced(w, f, links, now), id, Named(f.targets, id).value.policy, takenOn)
  {
    var i :| 0 <= i < |f.targets| && f.targets[i].id == id;
    var t, w1 := f.targets[i], Synced(w, f, links, now);
    NamedIs(f.targets, i);
    SyncedNames(w, f, links, now);
    StillTakenOn(w, f, links, now, i, takenOn);
    hide Synced, FileFormat, Accepted;
    JudgedStands(w, t, links, now, p, takenOn);
  }

  lemma JudgedStands(w: Watch, t: Target, links: Links, now: Time, p: Policy, takenOn: Time)
    requires Stands(w, t.id, p, takenOn) && FileFormat(p) && FileFormat(t.policy)
    ensures var c := Judged(w, t, links, now).1.policy;
            SameAsFile(t.policy, c) && !c.deadlineByUpdate && c.deadline == ResolveDeadline(t.policy, takenOn).deadline
  {
    var current := Named(w.targets, t.id).value;
    var refreshed := Refreshed(t, current, takenOn, now);
    Follows.ChasingOnlyMoves(links, refreshed, {});
    assert Judged(w, t, links, now).1.policy == refreshed.policy;
  }

  lemma StillTakenOn(w: Watch, f: File, links: Links, now: Time, i: nat, takenOn: Time)
    requires DistinctIds(w.targets) && Accepted(f) && i < |f.targets|
    requires var id := f.targets[i].id;
             id in w.addedAt && w.addedAt[id] == takenOn && Named(w.targets, id).Some?
    ensures var id, w1 := f.targets[i].id, Synced(w, f, links, now);
            id in w1.addedAt && w1.addedAt[id] == takenOn
  {
    var id := f.targets[i].id;
    GoneExactly(w.targets, f, |w.targets|);
    NamedOrNot(f.targets, id);
    assert Names(f.targets, id);
    assert id !in Removed(w, f) && id !in Fresh(w, f);
  }

  lemma OtherEditStands(w: Watch, e: Edit, id: string, p: Policy, takenOn: Time)
    requires DistinctIds(w.targets) && !e.Sync? && KeepsWatching(e, id) && DistinctIds(Edited(w, e).targets)
    requires Stands(w, id, p, takenOn)
    ensures Stands(Edited(w, e), id, p, takenOn)
  {
    var w1 := Edited(w, e);
    var c := Named(w.targets, id).value;
    var i :| 0 <= i < |w.targets| && w.targets[i] == c;
    match e
    case Add(t, now) =>
      assert Names(w.targets, id);
      NamedIs(w1.targets, i);
    case Remove(x) =>
      if Names(w.targets, x) {
        assert c in w1.targets;
        var j :| 0 <= j < |w1.targets| && w1.targets[j] == c;
        NamedIs(w1.targets, j);
      }
    case Update(x, change) => NamedIs(w1.targets, i);
    case Moved(x, a) => NamedIs(w1.targets, i);
  }

  /** With no update of a target, its deadline is a function of when the instance
      took it on and of the last file alone, whenever and however often files
      were read, and whatever happened to the other targets. */
  lemma {:induction false} DeadlineIsFromTheLastFile(w: Watch, es: seq<Edit>, id: string, p: Policy, takenOn: Time)
    requires AllSound(w) && FileFormat(p) && Stands(w, id, p, takenOn)
    requires forall k :: 0 <= k < |es| ==> WellFormed(es[k]) && KeepsWatching(es[k], id)
    ensures FileFormat(LastWritten(p, es, id))
    ensures Stands(EditAll(w, es), id, LastWritten(p, es, id), takenOn)
  {
    if es != [] {
      var n := |es| - 1;
      var e := es[n];
      DeadlineIsFromTheLastFile(w, es[..n], id, p, takenOn);
      EveryDeadlineCanAlert(w, es[..n]);
      var v := EditAll(w, es[..n]);
      EditKeepsSound(v, e);
      if e.Sync? {
        NamedOrNot(e.file.targets, id);
        SyncStands(v, e.file, e.links, e.now, id, LastWritten(p, es[..n], id), takenOn);
      } else {
        OtherEditStands(v, e, id, LastWritten(p, es[..n], id), takenOn);
      }
    }
  }

  /** Two histories that took a target on at one moment and last read the same
      policy for it agree on its deadline. */
  lemma WhenAndHowOftenDoNotMatter(
      w: Watch, es: seq<Edit>, v: Watch, fs: seq<Edit>, id: string, p: Policy, q: Policy, takenOn: Time)
    requires AllSound(w) && FileFormat(p) && Stands(w, id, p, takenOn)
    requires AllSound(v) && FileFormat(q) && Stands(v, id, q, takenOn)
    requires forall k :: 0 <= k < |es| ==> WellFormed(es[k]) && KeepsWatching(es[k], id)
    requires forall k :: 0 <= k < |fs| ==> WellFormed(fs[k]) && KeepsWatching(fs[k], id)
    requires LastWritten(p, es, id) == LastWritten(q, fs, id)
    ensures Named(EditAll(w, es).targets, id).Some? && Named(EditAll(v, fs).targets, id).Some?
    ensures Named(EditAll(w, es).targets, id).value.policy.deadline == Named(EditAll(v, fs).targets, id).value.policy.deadline
  {
    DeadlineIsFromTheLastFile(w, es, id, p, takenOn);
    DeadlineIsFromTheLastFile(v, fs, id, q, takenOn);
  }

  /** Taking a target on, by adding it or by a file that names it anew, is where
      such a history begins. */
  lemma TakingOnStands(w: Watch, e: Edit, id: string)
    requires DistinctIds(w.targets) && WellFormed(e) && !Names(w.targets, id)
    requires e.Add? || e.Sync?
    requires e.Add? ==> e.target.id == id
    requires e.Sync? ==> Names(e.file.targets, id)
    ensures Stands(Edited(w, e), id, if e.Add? then e.target.policy else Named(e.file.targets, id).value.policy, e.now)
  {
    var w1 := Edited(w, e);
    match e
    case Add(t, now) =>
      assert DistinctIds(w1.targets);
      NamedIs(w1.targets, |w.targets|);
    case Sync(f, links, now) =>
      var i :| 0 <= i < |f.targets| && f.targets[i].id == id;
      NamedIs(f.targets, i);
      NamedOrNot(w.targets, id);
      SyncedNames(w, f, links, now);
      NewlyTakenOn(w, f, links, now, i);
  }

  lemma NewlyTakenOn(w: Watch, f: File, links: Links, now: Time, i: nat)
    requires DistinctIds(w.targets) && Accepted(f) && i < |f.targets| && Named(w.targets, f.targets[i].id).None?
    ensures var id, w1 := f.targets[i].id, Synced(w, f, links, now);
            id in w1.addedAt && w1.addedAt[id] == now
  {
    var id := f.targets[i].id;
    NoneWith(w, f, links, now, Added);
    assert Judged(w, f.targets[i], links, now).0 == Added;
    GoneExactly(w.targets, f, |w.targets|);
    assert id in Fresh(w, f);
  }
}
