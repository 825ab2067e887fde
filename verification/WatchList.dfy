/** What an instance watches, and how re-reading a configuration file, adding,
    removing and updating change it. */
module WatchList {
  import opened Domain
  import opened Config
  import Follows

  type Links = map<Follows.Key, Follows.Link>

  datatype Window = Window(maxAge: int, holdUncollected: int)

  datatype Watch = Watch(
    targets: seq<Target>,
    addedAt: map<string, Time>,
    revision: int,
    retention: Option<Window>,
    followFile: bool)

  /** A configuration file that was accepted. Its ids are distinct. */
  datatype File = File(targets: seq<Target>, retention: Option<Window>, followFile: bool)

  ghost predicate DistinctIds(targets: seq<Target>) {
    forall i, j :: 0 <= i < j < |targets| ==> targets[i].id != targets[j].id
  }

  ghost predicate Accepted(f: File) {
    DistinctIds(f.targets) && forall i :: 0 <= i < |f.targets| ==> FileFormat(f.targets[i].policy)
  }

  /** The target of this id, if there is one. */
  ghost function Named(targets: seq<Target>, id: string): (r: Option<Target>)
    ensures r.Some? ==> r.value in targets && r.value.id == id
    ensures r.None? ==> forall i :: 0 <= i < |targets| ==> targets[i].id != id
  {
    if i :| 0 <= i < |targets| && targets[i].id == id then Some(targets[i]) else None
  }

  lemma NamedIs(targets: seq<Target>, i: nat)
    requires DistinctIds(targets) && i < |targets|
    ensures Named(targets, targets[i].id) == Some(targets[i])
  {
    var r := Named(targets, targets[i].id);
    var j :| 0 <= j < |targets| && targets[j] == r.value;
    assert i == j;
  }

  // ---- Re-reading a file ----

  /** An override set at runtime outlives a file that does not mention one,
      until it lapses. */
  function KeepRuntimeOverride(fromFile: Policy, current: Policy, now: Time): Policy {
    if fromFile.expectedQuietUntil.Some? || current.expectedQuietUntil.None? then fromFile
    else if now >= current.expectedQuietUntil.value then fromFile
    else fromFile.(expectedQuietUntil := current.expectedQuietUntil, expectedQuietReason := current.expectedQuietReason)
  }

  predicate SameAsFile(fromFile: Policy, current: Policy) {
    fromFile.deadlineAfter == current.deadlineAfter && fromFile.fileDeadline == current.fileDeadline
  }

  /** What is in force is replaced only by a file whose own deadline has changed, or
      dropped when it was set by an update and the file no longer alerts on it. */
  function KeepDeadline(fromFile: Policy, current: Policy, addedAt: Time): Policy {
    if !SameAsFile(fromFile, current) then ResolveDeadline(fromFile, addedAt)
    else if current.deadlineByUpdate && current.deadline.Some? && !fromFile.AlertsOn(Overdue) then fromFile
    else fromFile.(deadline := current.deadline, deadlineByUpdate := current.deadlineByUpdate)
  }

  /** A file's target with what is kept of the one already watched. */
  function Refreshed(t: Target, current: Target, addedAt: Time, now: Time): Target {
    t.(policy := KeepDeadline(KeepRuntimeOverride(t.policy, current.policy, now), current.policy, addedAt))
  }

  /** What a file makes of the policy of a target already watched: the file's own,
      with an override still running that it does not mention; and with the deadline in
      force, as long as its own is the one last read, unless that was set by an update
      and the file no longer alerts on it. */
  predicate AsRead(file: Policy, current: Policy, r: Policy, addedAt: Time, now: Time) {
    && r == file.(deadline := r.deadline, deadlineByUpdate := r.deadlineByUpdate,
                  expectedQuietUntil := r.expectedQuietUntil, expectedQuietReason := r.expectedQuietReason)
    && (var running := file.expectedQuietUntil.None? && current.expectedQuietUntil.Some? && now < current.expectedQuietUntil.value;
        && r.expectedQuietUntil == (if running then current.expectedQuietUntil else file.expectedQuietUntil)
        && r.expectedQuietReason == (if running then current.expectedQuietReason else file.expectedQuietReason))
    && (var (deadline, byUpdate) :=
          if file.deadlineAfter != current.deadlineAfter || file.fileDeadline != current.fileDeadline then
            (if file.deadline.None? && file.deadlineAfter > 0 then Some(addedAt + file.deadlineAfter) else file.deadline,
             file.deadlineByUpdate)
          else if current.deadlineByUpdate && current.deadline != None && Overdue !in file.alertOn then
            (file.deadline, file.deadlineByUpdate)
          else (current.deadline, current.deadlineByUpdate);
        r.deadline == deadline && r.deadlineByUpdate == byUpdate)
  }

  /** What is said of a target the file names and the instance watches: with this
      policy it is kept as it is when it is what the file says, or where its session was
      followed to; and otherwise becomes what the file says. */
  predicate Taken(current: Target, t: Target, p: Policy, links: Links, v: Verdict, r: Target) {
    var said := t.(policy := p);
    if current == said || current == Follows.Chase(links, said, {}) then v == Unchanged && r == current
    else v == Updated && r == said
  }

  /** A file is taken at its word: a target not watched is taken on now, and one
      watched is judged by the policy the file gives it. */
  lemma AFileIsTakenAtItsWord(w: Watch, t: Target, links: Links, now: Time)
    ensures var (v, r) := Judged(w, t, links, now);
            match Named(w.targets, t.id)
            case None =>
              && v == Added
              && r.policy.deadline == (if t.policy.deadline.None? && t.policy.deadlineAfter > 0
                                       then Some(now + t.policy.deadlineAfter) else t.policy.deadline)
              && r == t.(policy := t.policy.(deadline := r.policy.deadline))
            case Some(current) =>
              exists p :: AsRead(t.policy, current.policy, p, if t.id in w.addedAt then w.addedAt[t.id] else now, now)
                          && Taken(current, t, p, links, v, r)
  {
    if Named(w.targets, t.id).Some? {
      var current := Named(w.targets, t.id).value;
      var added := if t.id in w.addedAt then w.addedAt[t.id] else now;
      var p := KeepDeadline(KeepRuntimeOverride(t.policy, current.policy, now), current.policy, added);
      RereadAsSaid(t.policy, current.policy, added, now);
      var (v, r) := Judged(w, t, links, now);
      assert Taken(current, t, p, links, v, r);
    }
  }

  lemma RereadAsSaid(file: Policy, current: Policy, addedAt: Time, now: Time)
    ensures AsRead(file, current, KeepDeadline(KeepRuntimeOverride(file, current, now), current, addedAt), addedAt, now)
  {
  }

  datatype Verdict = Added | Updated | Unchanged

  function TakenOn(addedAt: map<string, Time>, id: string, now: Time): Time {
    if id in addedAt then addedAt[id] else now
  }

  /** What is watched is what the file says, or where its session leads by the
      recorded links. */
  predicate SameTarget(current: Target, refreshed: Target, links: Links) {
    current == refreshed || current == Follows.Chase(links, refreshed, {})
  }

  ghost function Judged(w: Watch, t: Target, links: Links, now: Time): (Verdict, Target) {
    match Named(w.targets, t.id)
    case None => (Added, t.(policy := ResolveDeadline(t.policy, now)))
    case Some(current) =>
      var refreshed := Refreshed(t, current, TakenOn(w.addedAt, t.id, now), now);
      if SameTarget(current, refreshed, links) then (Unchanged, current) else (Updated, refreshed)
  }

  /** The ids of the first `n` targets of a file that get one verdict, in order. */
  ghost function IdsWith(w: Watch, f: File, links: Links, now: Time, v: Verdict, n: nat): seq<string>
    requires n <= |f.targets|
  {
    if n == 0 then []
    else
      var t := f.targets[n - 1];
      IdsWith(w, f, links, now, v, n - 1) + if Judged(w, t, links, now).0 == v then [t.id] else []
  }

  /** The ids among the first `n` watched that the file no longer names. */
  ghost function Gone(targets: seq<Target>, f: File, n: nat): seq<string>
    requires n <= |targets|
  {
    if n == 0 then []
    else Gone(targets, f, n - 1) + if Named(f.targets, targets[n - 1].id).None? then [targets[n - 1].id] else []
  }

  ghost function NextTargets(w: Watch, f: File, links: Links, now: Time): (r: seq<Target>)
    ensures |r| == |f.targets|
    ensures forall i :: 0 <= i < |r| ==> r[i] == Judged(w, f.targets[i], links, now).1
  {
    seq(|f.targets|, i requires 0 <= i < |f.targets| => Judged(w, f.targets[i], links, now).1)
  }

  datatype Report = Report(
    added: seq<string>,
    removed: seq<string>,
    updated: seq<string>,
    kept: seq<string>,
    retentionChanged: bool,
    followFileChanged: bool,
    changed: bool,
    revision: int)

  ghost function Split(w: Watch, f: File, links: Links, now: Time, v: Verdict): seq<string> {
    IdsWith(w, f, links, now, v, |f.targets|)
  }

  ghost function Removed(w: Watch, f: File): seq<string> {
    Gone(w.targets, f, |w.targets|)
  }

  ghost predicate WatchChanged(w: Watch, f: File, links: Links, now: Time) {
    || Split(w, f, links, now, Added) != [] || Removed(w, f) != [] || Split(w, f, links, now, Updated) != []
    || f.retention != w.retention
  }

  /** The watch list after a file was applied. */
  ghost function Synced(w: Watch, f: File, links: Links, now: Time): Watch {
    if !WatchChanged(w, f, links, now) then w.(followFile := f.followFile)
    else
      Watch(
        NextTargets(w, f, links, now),
        (map id | id in w.addedAt.Keys + Fresh(w, f) && id !in Removed(w, f)
           :: if id in Fresh(w, f) then now else w.addedAt[id]),
        w.revision + 1,
        f.retention,
        f.followFile)
  }

  /** The ids a file names that are not watched yet. */
  ghost function Fresh(w: Watch, f: File): set<string> {
    set i | 0 <= i < |f.targets| && Named(w.targets, f.targets[i].id).None? :: f.targets[i].id
  }

  ghost function ReportOf(w: Watch, f: File, links: Links, now: Time, dryRun: bool): Report {
    var watchChanged := WatchChanged(w, f, links, now);
    Report(
      Split(w, f, links, now, Added), Removed(w, f), Split(w, f, links, now, Updated), Split(w, f, links, now, Unchanged),
      f.retention != w.retention,
      f.followFile != w.followFile,
      watchChanged || f.followFile != w.followFile,
      if watchChanged && !dryRun then w.revision + 1 else w.revision)
  }

  // ---- The split ----

  ghost predicate NoRepeats(ids: seq<string>) {
    forall i, j :: 0 <= i < j < |ids| ==> ids[i] != ids[j]
  }

  ghost predicate Names(targets: seq<Target>, id: string) {
    exists i :: 0 <= i < |targets| && targets[i].id == id
  }

  /** One of the first `n` targets of the file is of this id and gets this verdict. */
  ghost predicate Earned(w: Watch, f: File, links: Links, now: Time, v: Verdict, n: nat, id: string)
    requires n <= |f.targets|
  {
    exists i :: 0 <= i < n && f.targets[i].id == id && Judged(w, f.targets[i], links, now).0 == v
  }

  lemma {:induction false} IdsWithExactly(w: Watch, f: File, links: Links, now: Time, v: Verdict, n: nat)
    requires n <= |f.targets| && DistinctIds(f.targets)
    ensures forall id :: id in IdsWith(w, f, links, now, v, n) <==> Earned(w, f, links, now, v, n, id)
    ensures NoRepeats(IdsWith(w, f, links, now, v, n))
  {
    if n > 0 {
      IdsWithExactly(w, f, links, now, v, n - 1);
      var before, t := IdsWith(w, f, links, now, v, n - 1), f.targets[n - 1];
      forall id ensures Earned(w, f, links, now, v, n, id) <==>
          Earned(w, f, links, now, v, n - 1, id) || (id == t.id && Judged(w, t, links, now).0 == v)
      {
        EarnedOneMore(w, f, links, now, v, n, id);
      }
      assert t.id !in before;
      hide Judged, Named, Earned;
    }
  }

  lemma EarnedOneMore(w: Watch, f: File, links: Links, now: Time, v: Verdict, n: nat, id: string)
    requires 0 < n <= |f.targets|
    ensures Earned(w, f, links, now, v, n, id) <==>
              Earned(w, f, links, now, v, n - 1, id) || (id == f.targets[n - 1].id && Judged(w, f.targets[n - 1], links, now).0 == v)
  {
    hide Judged;
    if Earned(w, f, links, now, v, n - 1, id) {
      var i :| 0 <= i < n - 1 && f.targets[i].id == id && Judged(w, f.targets[i], links, now).0 == v;
      assert i < n;
    }
  }

  lemma {:induction false} GoneExactly(targets: seq<Target>, f: File, n: nat)
    requires n <= |targets| && DistinctIds(targets)
    ensures forall id :: id in Gone(targets, f, n) <==>
              (exists i :: 0 <= i < n && targets[i].id == id) && Named(f.targets, id).None?
    ensures NoRepeats(Gone(targets, f, n))
  {
    if n > 0 {
      GoneExactly(targets, f, n - 1);
      assert targets[n - 1].id !in Gone(targets, f, n - 1);
    }
  }

  lemma NamedOrNot(targets: seq<Target>, id: string)
    ensures Named(targets, id).Some? <==> Names(targets, id)
  {
    var r := Named(targets, id);
    if r.Some? {
      var i :| 0 <= i < |targets| && targets[i] == r.value;
      assert targets[i].id == id;
    }
  }

  /** The verdict a file and a watch list give an id, said without reading either
      in order. */
  ghost predicate SplitInto(w: Watch, f: File, links: Links, now: Time, id: string) {
    && (id in Split(w, f, links, now, Added) <==> Names(f.targets, id) && !Names(w.targets, id))
    && (id in Removed(w, f) <==> Names(w.targets, id) && !Names(f.targets, id))
    && (id in Split(w, f, links, now, Updated) || id in Split(w, f, links, now, Unchanged) <==>
          Names(f.targets, id) && Names(w.targets, id))
    && !(id in Split(w, f, links, now, Updated) && id in Split(w, f, links, now, Unchanged))
  }

  /** A sync puts every id of the old and the new list in exactly one of added,
      removed, updated and unchanged, once. */
  lemma SplitIsAPartition(w: Watch, f: File, links: Links, now: Time)
    requires DistinctIds(w.targets) && DistinctIds(f.targets)
    ensures forall id :: SplitInto(w, f, links, now, id)
    ensures forall v :: NoRepeats(Split(w, f, links, now, v))
    ensures NoRepeats(Removed(w, f))
  {
    GoneExactly(w.targets, f, |w.targets|);
    forall v ensures NoRepeats(Split(w, f, links, now, v)) {
      IdsWithExactly(w, f, links, now, v, |f.targets|);
    }
    forall id ensures SplitInto(w, f, links, now, id) {
      OneVerdict(w, f, links, now, id);
      NamedOrNot(f.targets, id);
    }
  }

  lemma OneVerdict(w: Watch, f: File, links: Links, now: Time, id: string)
    requires DistinctIds(w.targets) && DistinctIds(f.targets)
    ensures id in Split(w, f, links, now, Added) <==> Names(f.targets, id) && !Names(w.targets, id)
    ensures id in Split(w, f, links, now, Updated) || id in Split(w, f, links, now, Unchanged) <==>
              Names(f.targets, id) && Names(w.targets, id)
    ensures !(id in Split(w, f, links, now, Updated) && id in Split(w, f, links, now, Unchanged))
  {
    IdsWithExactly(w, f, links, now, Added, |f.targets|);
    IdsWithExactly(w, f, links, now, Updated, |f.targets|);
    IdsWithExactly(w, f, links, now, Unchanged, |f.targets|);
    NamedOrNot(w.targets, id);
    if i :| 0 <= i < |f.targets| && f.targets[i].id == id {
      assert Judged(w, f.targets[i], links, now).0 == Added <==> Named(w.targets, id).None?;
      assert forall j :: 0 <= j < |f.targets| && f.targets[j].id == id ==> j == i;
    }
  }

  // ---- Reading the same file again ----

  /** An override that was carried over a file which does not mention one, and
      has ended since. */
  predicate Lapsed(fromFile: Policy, stored: Policy, now: Time) {
    fromFile.expectedQuietUntil.None? && stored.expectedQuietUntil.Some? && stored.expectedQuietUntil.value <= now
  }

  /** `stored` is what a file's policy looks like once applied. */
  predicate Agrees(fromFile: Policy, stored: Policy) {
    && stored == fromFile.(
         deadline := stored.deadline, deadlineByUpdate := stored.deadlineByUpdate,
         expectedQuietUntil := stored.expectedQuietUntil, expectedQuietReason := stored.expectedQuietReason)
    && (fromFile.expectedQuietUntil.Some? || stored.expectedQuietUntil.None? ==>
          && stored.expectedQuietUntil == fromFile.expectedQuietUntil
          && stored.expectedQuietReason == fromFile.expectedQuietReason)
    && (stored.deadline.Some? && stored.deadlineByUpdate ==> fromFile.AlertsOn(Overdue))
  }

  lemma RefreshingAgrees(t: Target, current: Target, addedAt: Time, now: Time)
    requires FileFormat(t.policy)
    ensures Agrees(t.policy, Refreshed(t, current, addedAt, now).policy)
    ensures Agrees(t.policy, ResolveDeadline(t.policy, now))
  {
  }

  lemma RefreshingAgain(t: Target, stored: Target, addedAt: Time, now: Time)
    requires Agrees(t.policy, stored.policy)
    ensures Refreshed(t, stored, addedAt, now).policy == stored.policy <==> !Lapsed(t.policy, stored.policy, now)
  {
  }

  /** What the file's target became on the first reading is what it is on the
      second, unless an override it does not mention has lapsed between. */
  lemma JudgedAgain(w: Watch, w1: Watch, t: Target, links: Links, now: Time, later: Time)
    requires FileFormat(t.policy)
    requires Named(w1.targets, t.id) == Some(Judged(w, t, links, now).1)
    ensures Judged(w1, t, links, later).0 ==
              if Lapsed(t.policy, Judged(w, t, links, now).1.policy, later) then Updated else Unchanged
  {
    var stored := Judged(w, t, links, now).1;
    var again := Refreshed(t, stored, TakenOn(w1.addedAt, t.id, later), later);
    match Named(w.targets, t.id) {
      case None =>
        RefreshingAgrees(t, t, now, now);
      case Some(current) =>
        var refreshed := Refreshed(t, current, TakenOn(w.addedAt, t.id, now), now);
        RefreshingAgrees(t, current, TakenOn(w.addedAt, t.id, now), now);
        Follows.ChasingOnlyMoves(links, refreshed, {});
        assert stored.policy == refreshed.policy;
    }
    RefreshingAgain(t, stored, TakenOn(w1.addedAt, t.id, later), later);
    Follows.ChasingOnlyMoves(links, again, {});
  }

  ghost predicate AnyLapsed(w: Watch, f: File, links: Links, now: Time, later: Time) {
    exists i :: 0 <= i < |f.targets| && Lapsed(f.targets[i].policy, Judged(w, f.targets[i], links, now).1.policy, later)
  }

  /** After a sync, the file's targets are the ones watched. */
  lemma SyncedNames(w: Watch, f: File, links: Links, now: Time)
    requires DistinctIds(w.targets) && Accepted(f)
    ensures var w1 := Synced(w, f, links, now);
            && DistinctIds(w1.targets)
            && (forall i :: 0 <= i < |f.targets| ==>
                  Named(w1.targets, f.targets[i].id) == Some(Judged(w, f.targets[i], links, now).1))
            && (forall i :: 0 <= i < |w1.targets| ==> Names(f.targets, w1.targets[i].id))
  {
    var w1 := Synced(w, f, links, now);
    forall i | 0 <= i < |f.targets| ensures Judged(w, f.targets[i], links, now).1.id == f.targets[i].id {
    }
    if WatchChanged(w, f, links, now) {
      SyncedNamesChanged(w, f, links, now);
    } else {
      SyncedNamesSame(w, f, links, now);
    }
  }

  lemma SyncedNamesChanged(w: Watch, f: File, links: Links, now: Time)
    requires DistinctIds(w.targets) && Accepted(f) && WatchChanged(w, f, links, now)
    requires forall i :: 0 <= i < |f.targets| ==> Judged(w, f.targets[i], links, now).1.id == f.targets[i].id
    ensures var w1 := Synced(w, f, links, now);
            && DistinctIds(w1.targets)
            && (forall i :: 0 <= i < |f.targets| ==>
                  Named(w1.targets, f.targets[i].id) == Some(Judged(w, f.targets[i], links, now).1))
            && (forall i :: 0 <= i < |w1.targets| ==> Names(f.targets, w1.targets[i].id))
  {
    hide Judged, WatchChanged;
    var w1 := Synced(w, f, links, now);
    var next := NextTargets(w, f, links, now);
    assert w1.targets == next;
    forall i | 0 <= i < |f.targets|
      ensures Named(next, f.targets[i].id) == Some(Judged(w, f.targets[i], links, now).1)
      ensures Names(f.targets, next[i].id)
    {
      assert next[i].id == f.targets[i].id;
      NamedIs(next, i);
    }
  }

  lemma SyncedNamesSame(w: Watch, f: File, links: Links, now: Time)
    requires DistinctIds(w.targets) && Accepted(f) && !WatchChanged(w, f, links, now)
    ensures forall i :: 0 <= i < |f.targets| ==>
              Named(w.targets, f.targets[i].id) == Some(Judged(w, f.targets[i], links, now).1)
    ensures forall i :: 0 <= i < |w.targets| ==> Names(f.targets, w.targets[i].id)
  {
    SplitIsAPartition(w, f, links, now);
    forall i | 0 <= i < |f.targets|
      ensures Named(w.targets, f.targets[i].id) == Some(Judged(w, f.targets[i], links, now).1)
    {
      var id := f.targets[i].id;
      IdsWithExactly(w, f, links, now, Added, |f.targets|);
      IdsWithExactly(w, f, links, now, Updated, |f.targets|);
      assert id !in Split(w, f, links, now, Added) && id !in Split(w, f, links, now, Updated);
      assert Judged(w, f.targets[i], links, now).0 == Unchanged;
    }
    forall i | 0 <= i < |w.targets| ensures Names(f.targets, w.targets[i].id) {
      assert Names(w.targets, w.targets[i].id);
      assert SplitInto(w, f, links, now, w.targets[i].id);
    }
  }

  /** Reading the same file a second time, with no pass or update between,
      reports a change exactly when an override the file does not mention has
      lapsed; otherwise the list and its revision are as they were. */
  lemma TheSameFileAgain(w: Watch, f: File, links: Links, now: Time, later: Time)
    requires DistinctIds(w.targets) && Accepted(f)
    ensures var w1 := Synced(w, f, links, now);
            && (ReportOf(w1, f, links, later, false).changed <==> AnyLapsed(w, f, links, now, later))
            && (!AnyLapsed(w, f, links, now, later) ==> Synced(w1, f, links, later) == w1)
  {
    var w1 := Synced(w, f, links, now);
    SyncedNames(w, f, links, now);
    forall i | 0 <= i < |f.targets|
      ensures Judged(w1, f.targets[i], links, later).0 ==
                if Lapsed(f.targets[i].policy, Judged(w, f.targets[i], links, now).1.policy, later) then Updated else Unchanged
    {
      JudgedAgain(w, w1, f.targets[i], links, now, later);
    }
    hide Judged;
    SameFileReport(w, w1, f, links, now, later);
  }

  /** A list of one target with an override to 10 that its file does not mention:
      read at 5 the file changes nothing, and read again at 20 it does. */
  lemma AnOverrideLapses(t: Target, w: Watch, f: File, links: Links)
    requires FileFormat(t.policy) && t.policy.expectedQuietUntil.None?
    requires w.targets == [t.(policy := t.policy.(expectedQuietUntil := Some(10)))] && f.targets == [t]
    requires w.retention == f.retention && w.followFile == f.followFile && t.policy.expectedQuietReason == ""
    ensures !ReportOf(w, f, links, 5, false).changed && Synced(w, f, links, 5) == w
    ensures ReportOf(Synced(w, f, links, 5), f, links, 20, false).changed
  {
    NamedIs(w.targets, 0);
    NamedIs(f.targets, 0);
    assert Judged(w, f.targets[0], links, 5) == (Unchanged, w.targets[0]);
    NothingGone(w.targets, f);
    NoneWith(w, f, links, 5, Added);
    NoneWith(w, f, links, 5, Updated);
    hide Judged;
    TheSameFileAgain(w, f, links, 5, 20);
    assert Lapsed(f.targets[0].policy, Judged(w, f.targets[0], links, 5).1.policy, 20);
  }

  /** Somebody came, went or was changed, or the window was. */
  ghost predicate SomethingChanged(w: Watch, f: File, links: Links, now: Time) {
    || (exists i :: 0 <= i < |f.targets| && Judged(w, f.targets[i], links, now).0 != Unchanged)
    || (exists i :: 0 <= i < |w.targets| && !Names(f.targets, w.targets[i].id))
    || f.retention != w.retention
  }

  /** A sync that finds something changed replaces the list by the file's, in its
      order, with one new revision, remembering since when each is watched; one that
      does not only heeds whether to follow the file. */
  lemma WhatASyncLeaves(w: Watch, f: File, links: Links, now: Time, id: string)
    requires DistinctIds(w.targets) && DistinctIds(f.targets)
    ensures var w1 := Synced(w, f, links, now);
            && w1.retention == f.retention && w1.followFile == f.followFile
            && if SomethingChanged(w, f, links, now) then
                 && w1.revision == w.revision + 1
                 && |w1.targets| == |f.targets|
                 && (forall i :: 0 <= i < |f.targets| ==> w1.targets[i] == Judged(w, f.targets[i], links, now).1)
                 && (id in w1.addedAt <==>
                       (Names(f.targets, id) && !Names(w.targets, id))
                       || (id in w.addedAt && (Names(f.targets, id) || !Names(w.targets, id))))
                 && (id in w1.addedAt ==>
                       w1.addedAt[id] == if Names(f.targets, id) && !Names(w.targets, id) then now else w.addedAt[id])
               else w1 == w.(followFile := f.followFile)
  {
    hide Judged;
    ChangedIsSomething(w, f, links, now);
    NamedOrNot(w.targets, id);
    NamedOrNot(f.targets, id);
    GoneExactly(w.targets, f, |w.targets|);
    assert id in Fresh(w, f) <==> Names(f.targets, id) && !Names(w.targets, id);
    hide Gone, WatchChanged, Named;
  }

  lemma ChangedIsSomething(w: Watch, f: File, links: Links, now: Time)
    requires DistinctIds(w.targets) && DistinctIds(f.targets)
    ensures WatchChanged(w, f, links, now) <==> SomethingChanged(w, f, links, now)
  {
    NoneWith(w, f, links, now, Added);
    NoneWith(w, f, links, now, Updated);
    NobodyGone(w.targets, f);
    hide Judged, Split, Gone;
  }

  lemma NobodyGone(targets: seq<Target>, f: File)
    requires DistinctIds(targets)
    ensures Gone(targets, f, |targets|) == [] <==> forall i :: 0 <= i < |targets| ==> Names(f.targets, targets[i].id)
  {
    var gone := Gone(targets, f, |targets|);
    GoneExactly(targets, f, |targets|);
    forall i | 0 <= i < |targets| ensures Names(f.targets, targets[i].id) <==> targets[i].id !in gone {
      NamedOrNot(f.targets, targets[i].id);
    }
    if gone != [] {
      assert gone[0] in gone;
      var i :| 0 <= i < |targets| && targets[i].id == gone[0];
    }
  }

  lemma NothingGone(targets: seq<Target>, f: File)
    requires DistinctIds(targets)
    requires forall i :: 0 <= i < |targets| ==> Names(f.targets, targets[i].id)
    ensures Gone(targets, f, |targets|) == []
  {
    var gone := Gone(targets, f, |targets|);
    GoneExactly(targets, f, |targets|);
    if gone != [] {
      assert gone[0] in gone;
      NamedOrNot(f.targets, gone[0]);
    }
  }

  /** No id gets a verdict exactly when no target does. */
  lemma NoneWith(w: Watch, f: File, links: Links, now: Time, v: Verdict)
    requires DistinctIds(f.targets)
    ensures Split(w, f, links, now, v) == [] <==>
              forall i :: 0 <= i < |f.targets| ==> Judged(w, f.targets[i], links, now).0 != v
  {
    hide Judged;
    var ids := Split(w, f, links, now, v);
    IdsWithExactly(w, f, links, now, v, |f.targets|);
    if ids != [] {
      assert ids[0] in ids;
    } else {
      forall i | 0 <= i < |f.targets| ensures Judged(w, f.targets[i], links, now).0 != v {
        assert f.targets[i].id !in ids;
      }
    }
  }

  lemma SameFileReport(w: Watch, w1: Watch, f: File, links: Links, now: Time, later: Time)
    requires DistinctIds(w1.targets) && DistinctIds(f.targets)
    requires w1.retention == f.retention && w1.followFile == f.followFile
    requires forall i :: 0 <= i < |w1.targets| ==> Names(f.targets, w1.targets[i].id)
    requires forall i :: 0 <= i < |f.targets| ==>
               Judged(w1, f.targets[i], links, later).0 ==
                 if Lapsed(f.targets[i].policy, Judged(w, f.targets[i], links, now).1.policy, later) then Updated else Unchanged
    ensures ReportOf(w1, f, links, later, false).changed <==> AnyLapsed(w, f, links, now, later)
    ensures WatchChanged(w1, f, links, later) <==> AnyLapsed(w, f, links, now, later)
  {
    hide Judged, Lapsed, Gone, Split;
    NothingGone(w1.targets, f);
    NoneWith(w1, f, links, later, Added);
    NoneWith(w1, f, links, later, Updated);
  }
}
