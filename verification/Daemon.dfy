/** The daemon's side: changes to what is watched, the event feed and retention,
    each an operation on the same monitor and store the passes run over. */
module Daemon {
  import opened Domain
  import opened Config
  import opened Incidents
  import opened EventLog
  import opened WatchList
  import opened Deadlines
  import opened Unasked
  import opened W = World
  import Follows
  import M = Monitor
  import R = Retention
  import S = Store

  datatype Answer = CursorStale | Caught(events: seq<Row>, cursor: int)

  const DEFAULT_PAGE := 100
  const LARGEST_PAGE := 1000

  function PageSize(limit: int): nat {
    if limit <= 0 || limit > LARGEST_PAGE then DEFAULT_PAGE else limit
  }

  /** A page as it is handed out, with the cursor to come back with. */
  method EventsResult(page: seq<Row>) returns (events: seq<Row>, cursor: int)
    ensures events == page && cursor == CursorAfter(0, page)
  {
    events, cursor := [], 0;
    while |events| < |page|
      invariant |events| <= |page| && events == page[..|events|]
      invariant cursor == CursorAfter(0, events)
      decreases |page| - |events|
    {
      cursor := page[|events|].seqNo;
      events := events + [page[|events|]];
    }
  }

  /** After resolving among the first `k` of a target's open incidents. */
  ghost predicate DroppedSoFar(was: S.Db, now: S.Db, open: seq<nat>, k: nat, at: Time) {
    && k <= |open|
    && now == was.(incs := now.incs)
    && |now.incs| == |was.incs|
    && forall i: nat :: i < |was.incs| ==>
         now.incs[i] == if i in open[..k] && was.incs[i].condition == Overdue then Resolved(was.incs[i], at) else was.incs[i]
  }

  /** `current` is what is watched and not among the first `n` of the file. */
  ghost predicate Remaining(w: Watch, f: File, n: nat, current: map<string, Target>) {
    && n <= |f.targets|
    && (forall id :: id in current <==> Named(w.targets, id).Some? && !(exists i :: 0 <= i < n && f.targets[i].id == id))
    && (forall id :: id in current ==> Some(current[id]) == Named(w.targets, id))
  }

  /** The ids among the first `n` of the file that were not watched. */
  ghost function FreshSoFar(w: Watch, f: File, n: nat): set<string>
    requires n <= |f.targets|
  {
    set i | 0 <= i < n && Named(w.targets, f.targets[i].id).None? :: f.targets[i].id
  }

  ghost function TakenAt(addedAt: map<string, Time>, ids: set<string>, now: Time): map<string, Time> {
    map id | id in addedAt.Keys + ids :: if id in ids then now else addedAt[id]
  }

  /** How far a sync has got when it has judged the first `n` of the file. */
  ghost predicate JudgedSoFar(w: Watch, f: File, links: Links, now: Time, n: nat,
                              added: seq<string>, updated: seq<string>, kept: seq<string>, next: seq<Target>)
  {
    && n <= |f.targets| && |next| == n
    && added == IdsWith(w, f, links, now, Added, n)
    && updated == IdsWith(w, f, links, now, Updated, n)
    && kept == IdsWith(w, f, links, now, Unchanged, n)
    && forall i :: 0 <= i < n ==> next[i] == Judged(w, f.targets[i], links, now).1
  }

  lemma RemainingOneMore(w: Watch, f: File, n: nat, current: map<string, Target>)
    requires n < |f.targets| && WatchList.DistinctIds(f.targets) && Remaining(w, f, n, current)
    ensures var id := f.targets[n].id;
            && Named(w.targets, id) == (if id in current then Some(current[id]) else None)
            && Remaining(w, f, n + 1, current - {id})
  {
    var id := f.targets[n].id;
    forall x ensures x in current - {id} <==> Named(w.targets, x).Some? && !(exists i :: 0 <= i < n + 1 && f.targets[i].id == x) {
      if x in current && x != id {
        assert forall i :: 0 <= i < n + 1 ==> f.targets[i].id != x;
      }
      if Named(w.targets, x).Some? && !(exists i :: 0 <= i < n + 1 && f.targets[i].id == x) {
        assert forall i :: 0 <= i < n ==> f.targets[i].id != x;
        assert f.targets[n].id != x;
      }
    }
  }

  lemma RemainingIsGone(w: Watch, f: File, current: map<string, Target>, id: string)
    requires Remaining(w, f, |f.targets|, current)
    ensures id in current <==> Named(w.targets, id).Some? && Named(f.targets, id).None?
  {
    NamedOrNot(f.targets, id);
  }

  lemma FreshOneMore(w: Watch, f: File, links: Links, now: Time, n: nat)
    requires n < |f.targets|
    ensures FreshSoFar(w, f, n + 1)
         == FreshSoFar(w, f, n) + if Judged(w, f.targets[n], links, now).0 == Added then {f.targets[n].id} else {}
  {
  }

  lemma NothingJudged(w: Watch, f: File, links: Links, now: Time, current: map<string, Target>)
    requires forall id :: id in current <==> Named(w.targets, id).Some?
    requires forall id :: id in current ==> Some(current[id]) == Named(w.targets, id)
    ensures JudgedSoFar(w, f, links, now, 0, [], [], [], [])
    ensures Remaining(w, f, 0, current)
    ensures TakenAt(w.addedAt, FreshSoFar(w, f, 0), now) == w.addedAt
  {
  }

  lemma TakenOneMore(w: Watch, f: File, links: Links, now: Time, n: nat)
    requires n < |f.targets| && WatchList.DistinctIds(f.targets)
    ensures var t, taken := f.targets[n], TakenAt(w.addedAt, FreshSoFar(w, f, n), now);
            && (Named(w.targets, t.id).Some? ==> TakenOn(taken, t.id, now) == TakenOn(w.addedAt, t.id, now))
            && TakenAt(w.addedAt, FreshSoFar(w, f, n + 1), now)
               == if Judged(w, t, links, now).0 == Added then taken[t.id := now] else taken
  {
    FreshOneMore(w, f, links, now, n);
  }

  lemma JudgedOneMore(w: Watch, f: File, links: Links, now: Time, n: nat,
                      added: seq<string>, updated: seq<string>, kept: seq<string>, next: seq<Target>)
    requires n < |f.targets| && JudgedSoFar(w, f, links, now, n, added, updated, kept, next)
    ensures var (v, r), id := Judged(w, f.targets[n], links, now), f.targets[n].id;
            JudgedSoFar(w, f, links, now, n + 1,
                        if v == Added then added + [id] else added,
                        if v == Updated then updated + [id] else updated,
                        if v == Unchanged then kept + [id] else kept,
                        next + [r])
  {
    hide Judged;
  }

  lemma NothingFresh(w: Watch, f: File, links: Links, now: Time)
    requires WatchList.DistinctIds(f.targets) && Split(w, f, links, now, Added) == []
    ensures FreshSoFar(w, f, |f.targets|) == {}
  {
    NoneWith(w, f, links, now, Added);
  }

  lemma SyncedAddedAt(w: Watch, f: File, links: Links, now: Time)
    requires WatchChanged(w, f, links, now)
    ensures var taken := TakenAt(w.addedAt, FreshSoFar(w, f, |f.targets|), now);
            Synced(w, f, links, now).addedAt == map id | id in taken && id !in Removed(w, f) :: taken[id]
  {
    assert FreshSoFar(w, f, |f.targets|) == WatchList.Fresh(w, f);
  }

  /** The list after a file, if there is one to apply. */
  ghost function Listed(w: Watch, file: Option<File>, links: Links, now: Time): Watch {
    match file
    case None => w
    case Some(f) => Edited(w, Edit.Sync(f, links, now))
  }

  /** The instance after it: overdue incidents nobody asks about any more are
      closed if the list changed, and nothing else is touched. */
  ghost function Synchronised(v: W.World, w: Watch, file: Option<File>, now: Time): W.World {
    if file.Some? && WatchChanged(w, file.value, v.mem.links, now) then
      var targets := Synced(w, file.value, v.mem.links, now).targets;
      v.(db := v.db.(incs := DropStranded(v.db.incs, targets, |targets|, now)))
    else v
  }

  predicate TakenOnAt(given: Target, taken: Target, addedAt: map<string, Time>, at: Time) {
    && taken == given.(policy := ResolveDeadline(given.policy, at))
    && given.id in addedAt && addedAt[given.id] == at
  }

  lemma WithoutOneMore(targets: seq<Target>, i: nat, id: string)
    requires i < |targets|
    ensures Without(targets[..i + 1], id)
         == Without(targets[..i], id) + if targets[i].id == id then [] else [targets[i]]
  {
    assert targets[..i + 1] == targets[..i] + [targets[i]];
    WithoutLast(targets[..i], targets[i], id);
  }

  /** What a retention pass does to a whole log: it drops the longest stretch it
      may, and the floor does not fall. */
  ghost predicate Retained(shelf: R.Shelf, after: Log, w: Window, now: Time) {
    var n := R.RetainFrom(shelf, now - w.maxAge, w.holdUncollected);
    && after == (if n <= 1 then shelf.log else Prune(shelf.log, n))
    && Whole(after)
    && FloorOf(shelf.log) <= FloorOf(after)
    && R.SafeFrom(shelf, now - w.maxAge, w.holdUncollected, n)
  }

  lemma RetainingIsSafe(shelf: R.Shelf, w: Window, now: Time)
    requires Whole(shelf.log)
    ensures var n := R.RetainFrom(shelf, now - w.maxAge, w.holdUncollected);
            Retained(shelf, if n <= 1 then shelf.log else Prune(shelf.log, n), w, now)
  {
    hide R.RetainFrom, R.SafeFrom, Prune, Whole;
    R.ThePointIsInRange(shelf, now - w.maxAge, w.holdUncollected);
    R.FloorRises(shelf.log, R.RetainFrom(shelf, now - w.maxAge, w.holdUncollected));
  }

  /** Past the window; and, if it is an exit nobody has collected, past the hold too. */
  ghost predicate TooOld(e: Event, incs: seq<Incident>, w: Window, now: Time) {
    e.at < now - w.maxAge && (e.status == Exited ==> R.Collected(incs, e) || e.at <= now - w.maxAge - w.holdUncollected)
  }

  /** The stretch at the front that is all too old is gone, and nothing else is: what
      is left is the end of what there was, and begins with something to be kept. */
  ghost predicate OnlyTheOld(before: seq<Row>, after: seq<Row>, incs: seq<Incident>, w: Window, now: Time) {
    && |after| <= |before| && before[|before| - |after|..] == after
    && (forall i :: 0 <= i < |before| - |after| ==> TooOld(before[i].event, incs, w, now))
    && (after != [] ==> !TooOld(after[0].event, incs, w, now))
  }

  /** Where a log is cut: so many rows are below the point. */
  ghost predicate CutAt(rows: seq<Row>, after: seq<Row>, n: int, gone: nat) {
    && gone <= |rows| && after == rows[gone..]
    && (forall i :: 0 <= i < gone ==> rows[i].seqNo < n)
    && (gone < |rows| ==> rows[gone].seqNo >= n)
  }

  lemma PruningCuts(log: Log, n: int) returns (gone: nat)
    requires Whole(log) && 1 <= n <= log.nextSeq
    ensures CutAt(log.rows, Prune(log, n).rows, n, gone)
    ensures n == 1 ==> CutAt(log.rows, log.rows, n, gone)
  {
    RowsAboveOfWhole(log, n - 1);
    gone := if n - 1 <= FloorOf(log) then 0 else n - 1 - FloorOf(log);
  }

  /** The row a safe point stops at is one to be kept. */
  lemma StopsAtOneToKeep(shelf: R.Shelf, cutoff: Time, hold: int, gone: nat)
    requires Whole(shelf.log) && gone < |shelf.log.rows|
    requires var n := R.RetainFrom(shelf, cutoff, hold);
             && R.SafeFrom(shelf, cutoff, hold, n) && shelf.log.rows[gone].seqNo >= n
             && forall i :: 0 <= i < gone ==> shelf.log.rows[i].seqNo < n
    ensures !R.Droppable(shelf.incs, shelf.log.rows[gone].event, cutoff, hold)
  {
    hide R.RetainFrom, R.Droppable;
    var rows, n := shelf.log.rows, R.RetainFrom(shelf, cutoff, hold);
    var k := rows[gone].seqNo;
    R.RowOfWhole(shelf.log, rows[gone]);
    if R.Droppable(shelf.incs, rows[gone].event, cutoff, hold) {
      forall x | x in rows && x.seqNo < k + 1 ensures R.Droppable(shelf.incs, x.event, cutoff, hold) {
        var i :| 0 <= i < |rows| && rows[i] == x;
        assert i <= gone;
        assert i < gone ==> rows[i].seqNo < n;
      }
      R.RetainFromIsExact(shelf, cutoff, hold, k + 1);
    }
  }

  lemma RetainingIsExact(shelf: R.Shelf, after: Log, w: Window, now: Time)
    requires Whole(shelf.log) && Retained(shelf, after, w, now)
    ensures OnlyTheOld(shelf.log.rows, after.rows, shelf.incs, w, now)
  {
    hide R.RetainFrom, R.Droppable, Prune, Whole, TooOld, FloorOf;
    var rows, cutoff, hold := shelf.log.rows, now - w.maxAge, w.holdUncollected;
    var n := R.RetainFrom(shelf, cutoff, hold);
    R.ThePointIsInRange(shelf, cutoff, hold);
    var gone := PruningCuts(shelf.log, n);
    forall i | 0 <= i < |rows| ensures TooOld(rows[i].event, shelf.incs, w, now) == R.Droppable(shelf.incs, rows[i].event, cutoff, hold) {
      TooOldMayGo(rows[i].event, shelf.incs, w, now);
    }
    if gone < |rows| {
      StopsAtOneToKeep(shelf, cutoff, hold, gone);
    }
  }

  lemma TooOldMayGo(e: Event, incs: seq<Incident>, w: Window, now: Time)
    ensures TooOld(e, incs, w, now) == R.Droppable(incs, e, now - w.maxAge, w.holdUncollected)
  {
    R.WhatMayGo(incs, e, now - w.maxAge, w.holdUncollected);
  }

  class Daemon {
    const monitor: M.Monitor
    var addedAt: map<string, Time>
    var revision: int
    var retention: Option<Window>
    var followFile: bool

    ghost predicate Valid()
      reads this, monitor, monitor.store
    {
      monitor.Valid() && WatchList.DistinctIds(monitor.targets)
    }

    ghost function Watching(): Watch
      reads this, monitor
    {
      Watch(monitor.targets, addedAt, revision, retention, followFile)
    }

    /** Takes on everything the monitor was given: a relative deadline runs from
        now, and a restart starts it again. */
    constructor (monitor: M.Monitor, started: Time, retention: Option<Window>, followFile: bool)
      requires monitor.Valid() && WatchList.DistinctIds(monitor.targets)
      modifies monitor`targets
      ensures Valid() && this.monitor == monitor && revision == 0
      ensures this.retention == retention && this.followFile == followFile
      ensures |monitor.targets| == |old(monitor.targets)|
      ensures forall i :: 0 <= i < |monitor.targets| ==>
                TakenOnAt(old(monitor.targets)[i], monitor.targets[i], addedAt, started)
      ensures NoneStranded(monitor.store.incs, monitor.targets) <==> !TakesOnUnasked(monitor.store.incs, old(monitor.targets))
    {
      this.monitor, this.revision, this.retention, this.followFile := monitor, 0, retention, followFile;
      addedAt := map[];
      new;
      var i := 0;
      while i < |monitor.targets|
        invariant 0 <= i <= |monitor.targets| == |old(monitor.targets)|
        invariant forall k :: 0 <= k < |monitor.targets| ==> monitor.targets[k].id == old(monitor.targets)[k].id
        invariant forall k :: i <= k < |monitor.targets| ==> monitor.targets[k] == old(monitor.targets)[k]
        invariant forall k :: 0 <= k < i ==> TakenOnAt(old(monitor.targets)[k], monitor.targets[k], addedAt, started)
        modifies this`addedAt, monitor`targets
      {
        var t := monitor.targets[i];
        addedAt := addedAt[t.id := started];
        monitor.targets := monitor.targets[i := t.(policy := ResolveDeadline(t.policy, started))];
        i := i + 1;
      }
      TakingOnStrandsNoneExactly(monitor.store.incs, old(monitor.targets), monitor.targets);
    }

    // ---- The feed ----

    /** One answer about the feed. A refusal leaves nothing out: it says the
        cursor has fallen behind. */
    method Events(after: int, limit: int) returns (r: Answer)
      requires Valid()
      ensures r == match EventLog.After(monitor.store.View().log, after, PageSize(limit))
                   case Stale => CursorStale
                   case Page(page) => Caught(page, CursorAfter(after, page))
      ensures r.Caught? ==> |r.events| <= if 1 <= limit <= 1000 then limit else 100
    {
      var reading := monitor.store.ReadAfter(after, PageSize(limit));
      match reading
      case Stale => return CursorStale;
      case Page(page) =>
        if page == [] {
          return Caught([], after);
        }
        var events, cursor := EventsResult(page);
        return Caught(events, cursor);
    }

    method StatusCursor() returns (cursor: int)
      requires Valid()
      ensures cursor == LatestCursor(monitor.store.View().log)
    {
      cursor := monitor.store.NewestCursor();
    }

    /** Drops what is past the window. What must be kept is kept, and the log
        stays whole, so a cursor either still works or is refused. */
    method RetentionPass(now: Time)
      requires Valid()
      modifies monitor.store
      ensures Valid()
      ensures monitor.store.View() == old(monitor.store.View()).(log := monitor.store.View().log)
      ensures retention.None? ==> monitor.store.View().log == old(monitor.store.View()).log
      ensures retention.Some? && Whole(old(monitor.store.View()).log) ==>
                Retained(R.Shelf(old(monitor.store.View()).log, monitor.store.incs), monitor.store.View().log,
                         retention.value, now)
      ensures retention.Some? && Whole(old(monitor.store.View()).log) ==>
                OnlyTheOld(old(monitor.store.rows), monitor.store.rows, monitor.store.incs, retention.value, now)
    {
      hide Whole, R.RetainFrom, Prune, Retained;
      if retention.None? {
        return;
      }
      ghost var shelf := R.Shelf(monitor.store.View().log, monitor.store.incs);
      var from := monitor.store.RetainFrom(now - retention.value.maxAge, retention.value.holdUncollected);
      if from > 1 {
        monitor.store.PruneBefore(from);
      }
      if Whole(shelf.log) {
        RetainingIsSafe(shelf, retention.value, now);
        RetainingIsExact(shelf, monitor.store.View().log, retention.value, now);
      }
    }

    /** Stamps an incident as seen, if there is one of this id. */
    method Acknowledge(id: nat, now: Time) returns (found: bool)
      requires Valid()
      modifies monitor.store
      ensures Valid() && (found <==> id < |old(monitor.store.incs)|)
      ensures monitor.View() == Take(old(monitor.View()), Ack(id, now), monitor.maxAttempts, true)
    {
      found := monitor.store.StampIncident(id, S.Acknowledging, now);
    }

    // ---- A pass ----

    /** One turn of the loop: a file that changed is applied first, when the
        instance follows its file, and then every target is observed as it is
        now watched. A paused instance does neither. */
    method Pass(paused: bool, changed: Option<File>, now: Time, mono: int,
                observe: Target -> M.Look, answers: map<string, map<Condition, Outcome>>)
      returns (ghost listed: Watch, ghost synced: W.World, ghost steps: seq<W.Step>, ghost rows: seq<Follows.Row>)
      requires Valid()
      requires changed.Some? ==> WatchList.DistinctIds(changed.value.targets)
      modifies this, monitor, monitor.wake, monitor.store
      ensures Valid()
      ensures paused ==> Watching() == old(Watching()) && monitor.View() == old(monitor.View())
      ensures !paused ==>
                var file := if old(followFile) then changed else None;
                && listed == Listed(old(Watching()), file, old(monitor.links), now)
                && synced == Synchronised(old(monitor.View()), old(Watching()), file, now)
                && Watching() == listed.(targets := monitor.targets)
                && monitor.View() == Run(synced, steps, monitor.maxAttempts, true)
                && var sighted := M.SightFirst(M.LinksRead(old(monitor.loaded), old(monitor.links), rows), listed.targets,
                                               |listed.targets|, observe, old(monitor.store.states), monitor.machine, now);
                && monitor.targets == sighted.targets
                && steps == M.StepsOfTick(M.Jumps(old(monitor.wake.Baseline()), monitor.wake.threshold, now, mono), rows,
                                          sighted, monitor.machine, monitor.transport, now, answers)
                && (!old(monitor.loaded) ==> Follows.ReplayOrder(old(monitor.store.follows), rows))
    {
      hide M.SightFirst, M.StepsOfTick, M.Jumps, Run, Synced, DropStranded, WatchChanged;
      listed, synced, steps, rows := Watching(), monitor.View(), [], [];
      if paused {
        return;
      }
      if followFile && changed.Some? {
        var _ := Sync(changed.value, false, now);
      }
      listed, synced := Watching(), monitor.View();
      steps, rows := monitor.Tick(now, mono, observe, answers);
    }

    // ---- What is watched ----

    /** Closes what is open about a target being overdue, if it does not ask. */
    method ResolveUnaskedOverdue(t: Target, now: Time)
      requires Valid()
      modifies monitor.store
      ensures Valid()
      ensures monitor.View() == if t.policy.AlertsOn(Overdue) then old(monitor.View())
                                else Take(old(monitor.View()), Unask(t.id, now), monitor.maxAttempts, true)
    {
      if t.policy.AlertsOn(Overdue) {
        return;
      }
      var incs := monitor.store.incs;
      ghost var db := monitor.store.View();
      var open := OpenIncidents(incs, t.id);
      var k := 0;
      while k < |open|
        invariant 0 <= k <= |open|
        invariant Valid() && DroppedSoFar(db, monitor.store.View(), open, k, now)
      {
        assert open[k] in open;
        assert forall i: nat :: i in open[..k + 1] <==> i in open[..k] || i == open[k];
        if incs[open[k]].condition == Overdue {
          var _ := monitor.store.StampIncident(open[k], S.Resolving, now);
        }
        k := k + 1;
      }
      assert open[..k] == open;
      assert monitor.store.incs == DropOverdue(incs, t.id, now);
    }

    method WatchAdd(t: Target, now: Time) returns (added: bool)
      requires Valid()
      modifies this`addedAt, this`revision, monitor`targets
      ensures Valid() && Watching() == Edited(old(Watching()), Add(t, now))
      ensures added <==> !Names(old(monitor.targets), t.id) && ValidDeadline(t.policy)
    {
      var i := 0;
      while i < |monitor.targets|
        invariant 0 <= i <= |monitor.targets|
        invariant forall k :: 0 <= k < i ==> monitor.targets[k].id != t.id
      {
        if monitor.targets[i].id == t.id {
          return false;
        }
        i := i + 1;
      }
      if !ValidDeadline(t.policy) {
        return false;
      }
      addedAt := addedAt[t.id := now];
      monitor.targets := monitor.targets + [t.(policy := ResolveDeadline(t.policy, now))];
      revision := revision + 1;
      return true;
    }

    /** Takes a target off the list. No table is touched. */
    method WatchRemove(id: string) returns (removed: bool)
      requires Valid()
      modifies this`addedAt, this`revision, monitor`targets
      ensures Valid() && Watching() == Edited(old(Watching()), Remove(id))
      ensures removed <==> Names(old(monitor.targets), id)
    {
      hide Without;
      var targets := monitor.targets;
      var kept: seq<Target> := [];
      WithoutNothing(id);
      assert targets[..0] == [];
      var i := 0;
      removed := false;
      while i < |targets|
        invariant 0 <= i <= |targets|
        invariant kept == Without(targets[..i], id)
        invariant removed ==> Names(targets, id)
        invariant !removed ==> forall k :: 0 <= k < i ==> targets[k].id != id
        modifies {}
      {
        WithoutOneMore(targets, i, id);
        if targets[i].id == id {
          removed := true;
        } else {
          kept := kept + [targets[i]];
        }
        i := i + 1;
      }
      assert targets[..i] == targets;
      if !removed {
        return;
      }
      WithoutKeepsDistinct(targets, id);
      monitor.targets := kept;
      addedAt := addedAt - {id};
      revision := revision + 1;
    }

    /** Gives a target a changed policy, or refuses and changes nothing at all. */
    method WatchUpdate(id: string, change: Change, now: Time) returns (updated: bool)
      requires Valid()
      modifies this`revision, monitor`targets, monitor.store
      ensures Valid() && Watching() == Edited(old(Watching()), Update(id, change))
      ensures !updated ==> monitor.View() == old(monitor.View()) && Watching() == old(Watching())
      ensures !updated <==>
                forall i :: 0 <= i < |old(monitor.targets)| && old(monitor.targets)[i].id == id ==>
                  TurnedDown(old(monitor.targets)[i].policy, change)
      ensures updated ==> OnlyUpdated(old(monitor.targets), monitor.targets, id, change)
      ensures updated ==>
                exists i :: 0 <= i < |monitor.targets| && monitor.targets[i].id == id
                  && monitor.View() == (if monitor.targets[i].policy.AlertsOn(Overdue) then old(monitor.View())
                                        else Take(old(monitor.View()), Unask(id, now), monitor.maxAttempts, true))
    {
      var i := 0;
      while i < |monitor.targets|
        invariant 0 <= i <= |monitor.targets|
        invariant forall k :: 0 <= k < i ==> monitor.targets[k].id != id
      {
        if monitor.targets[i].id == id {
          assert IndexOf(monitor.targets, id) == Some(i);
          var p := ApplyPolicyUpdate(monitor.targets[i].policy, change);
          UpdatedAsSupplied(monitor.targets[i].policy, change);
          if p.None? {
            return false;
          }
          monitor.targets := monitor.targets[i := monitor.targets[i].(policy := p.value)];
          ResolveUnaskedOverdue(monitor.targets[i], now);
          revision := revision + 1;
          return true;
        }
        i := i + 1;
      }
      return false;
    }

    /** What a file makes of one target. */
    method JudgeOne(ghost w: Watch, t: Target, current: map<string, Target>, dryRun: bool, now: Time)
      returns (verdict: Verdict, result: Target)
      requires Valid()
      requires Named(w.targets, t.id) == if t.id in current then Some(current[t.id]) else None
      requires t.id in current ==> TakenOn(addedAt, t.id, now) == TakenOn(w.addedAt, t.id, now)
      modifies this`addedAt
      ensures (verdict, result) == Judged(w, t, monitor.links, now)
      ensures addedAt == if verdict == Added && !dryRun then old(addedAt)[t.id := now] else old(addedAt)
    {
      if t.id !in current {
        if !dryRun {
          addedAt := addedAt[t.id := now];
        }
        return Added, t.(policy := ResolveDeadline(t.policy, now));
      }
      var cur := current[t.id];
      var policy := KeepRuntimeOverride(t.policy, cur.policy, now);
      var added := if t.id in addedAt then addedAt[t.id] else now;
      var refreshed := t.(policy := KeepDeadline(policy, cur.policy, added));
      var resolved, _ := Follows.ResolveFollows(monitor.links, refreshed);
      if cur == refreshed || cur == resolved {
        return Unchanged, cur;
      }
      return Updated, refreshed;
    }

    /** Goes through the file, target by target. */
    method JudgeAll(file: File, dryRun: bool, now: Time)
      returns (added: seq<string>, updated: seq<string>, kept: seq<string>, next: seq<Target>, current: map<string, Target>)
      requires Valid() && WatchList.DistinctIds(file.targets)
      modifies this`addedAt
      ensures JudgedSoFar(old(Watching()), file, monitor.links, now, |file.targets|, added, updated, kept, next)
      ensures Remaining(old(Watching()), file, |file.targets|, current)
      ensures addedAt == if dryRun then old(addedAt) else TakenAt(old(addedAt), FreshSoFar(old(Watching()), file, |file.targets|), now)
    {
      ghost var w := Watching();
      hide Judged, JudgedSoFar, Remaining, TakenAt, FreshSoFar, TakenOn, Named, IdsWith;
      added, updated, kept, next := [], [], [], [];
      current := ByName(monitor.targets);
      NothingJudged(w, file, monitor.links, now, current);
      var n := 0;
      while n < |file.targets|
        invariant 0 <= n <= |file.targets|
        invariant JudgedSoFar(w, file, monitor.links, now, n, added, updated, kept, next)
        invariant Remaining(w, file, n, current)
        invariant addedAt == if dryRun then w.addedAt else TakenAt(w.addedAt, FreshSoFar(w, file, n), now)
      {
        var t := file.targets[n];
        RemainingOneMore(w, file, n, current);
        TakenOneMore(w, file, monitor.links, now, n);
        var verdict, result := JudgeOne(w, t, current, dryRun, now);
        JudgedOneMore(w, file, monitor.links, now, n, added, updated, kept, next);
        current := current - {t.id};
        match verdict {
          case Added => added := added + [t.id];
          case Updated => updated := updated + [t.id];
          case Unchanged => kept := kept + [t.id];
        }
        next := next + [result];
        n := n + 1;
      }
    }

    static method ByName(targets: seq<Target>) returns (current: map<string, Target>)
      requires WatchList.DistinctIds(targets)
      ensures forall id :: id in current <==> Named(targets, id).Some?
      ensures forall id :: id in current ==> Some(current[id]) == Named(targets, id)
    {
      current := map[];
      var i := 0;
      while i < |targets|
        invariant 0 <= i <= |targets|
        invariant forall k :: 0 <= k < i ==> targets[k].id in current && current[targets[k].id] == targets[k]
        invariant forall id :: id in current ==> exists k :: 0 <= k < i && targets[k].id == id
      {
        current := current[targets[i].id := targets[i]];
        i := i + 1;
      }
      forall id ensures id in current <==> Named(targets, id).Some?
                ensures id in current ==> Some(current[id]) == Named(targets, id)
      {
        if Named(targets, id).Some? {
          var k :| 0 <= k < |targets| && targets[k] == Named(targets, id).value;
        }
        if id in current {
          var k :| 0 <= k < |targets| && targets[k].id == id;
          NamedIs(targets, k);
        }
      }
    }

    /** Those watched that the file does not name. */
    static method GoneFrom(targets: seq<Target>, current: map<string, Target>, ghost w: Watch, ghost file: File)
      returns (removed: seq<string>)
      requires targets == w.targets && Remaining(w, file, |file.targets|, current)
      ensures removed == Removed(w, file)
    {
      removed := [];
      var i := 0;
      while i < |targets|
        invariant 0 <= i <= |targets|
        invariant removed == Gone(targets, file, i)
      {
        RemainingIsGone(w, file, current, targets[i].id);
        if targets[i].id in current {
          removed := removed + [targets[i].id];
        }
        i := i + 1;
      }
    }

    /** Brings the list in line with a file, or on a dry run only says how. */
    method Sync(file: File, dryRun: bool, now: Time) returns (report: Report)
      requires Valid() && WatchList.DistinctIds(file.targets)
      modifies this, monitor`targets, monitor.store
      ensures Valid()
      ensures report == ReportOf(old(Watching()), file, monitor.links, now, dryRun)
      ensures Watching() == if dryRun then old(Watching()) else Edited(old(Watching()), Edit.Sync(file, monitor.links, now))
      ensures dryRun || !WatchChanged(old(Watching()), file, monitor.links, now) ==> monitor.View() == old(monitor.View())
      ensures !dryRun && WatchChanged(old(Watching()), file, monitor.links, now) ==>
                NoneStranded(monitor.store.incs, monitor.targets)
      ensures !dryRun && WatchChanged(old(Watching()), file, monitor.links, now) ==>
                monitor.View() == old(monitor.View()).(db := old(monitor.View()).db.(
                  incs := DropStranded(old(monitor.store.incs), monitor.targets, |monitor.targets|, now)))
    {
      hide Judged, IdsWith, Gone, DropStranded;
      ghost var w := Watching();
      var added, updated, kept, next, current := JudgeAll(file, dryRun, now);
      var removed := GoneFrom(monitor.targets, current, w, file);

      var retentionChanged := file.retention != retention;
      var followFileChanged := file.followFile != followFile;
      var watchChanged := |added| + |removed| + |updated| > 0 || retentionChanged;
      assert watchChanged == WatchChanged(w, file, monitor.links, now);
      if followFileChanged && !dryRun {
        followFile := file.followFile;
      }
      report := Report(added, removed, updated, kept, retentionChanged, followFileChanged,
                       watchChanged || followFileChanged, revision);
      if dryRun || !watchChanged {
        if !dryRun {
          NothingFresh(w, file, monitor.links, now);
          assert addedAt == w.addedAt;
        }
        return;
      }
      ghost var incs := monitor.store.incs;
      Apply(w, file, next, removed, now);
      DroppingLeavesNone(incs, next, now);
      report := report.(revision := revision);
    }

    method Apply(ghost w: Watch, file: File, next: seq<Target>, removed: seq<string>, now: Time)
      requires Valid() && WatchList.DistinctIds(w.targets) && WatchList.DistinctIds(file.targets)
      requires WatchChanged(w, file, monitor.links, now)
      requires next == NextTargets(w, file, monitor.links, now) && removed == Removed(w, file)
      requires addedAt == TakenAt(w.addedAt, FreshSoFar(w, file, |file.targets|), now)
      requires revision == w.revision
      modifies this, monitor`targets, monitor.store
      ensures Valid() && Watching() == Synced(w, file, monitor.links, now)
      ensures monitor.View() == old(monitor.View()).(db := old(monitor.View()).db.(
                incs := DropStranded(old(monitor.store.incs), next, |next|, now)))
    {
      hide Gone, DropStranded;
      SyncedAddedAt(w, file, monitor.links, now);
      hide TakenAt, FreshSoFar, WatchList.Fresh;
      forall i | 0 <= i < |next| ensures next[i].id == file.targets[i].id {
        assert next[i] == Judged(w, file.targets[i], monitor.links, now).1;
      }
      hide Judged, WatchChanged;
      monitor.targets := next;
      ForgetRemoved(removed);
      ResolveStranded(next, now);
      retention, followFile := file.retention, file.followFile;
      revision := revision + 1;
    }

    method ForgetRemoved(removed: seq<string>)
      modifies this`addedAt
      ensures addedAt == map id | id in old(addedAt) && id !in removed :: old(addedAt)[id]
    {
      var i := 0;
      while i < |removed|
        invariant 0 <= i <= |removed|
        invariant addedAt == map id | id in old(addedAt) && id !in removed[..i] :: old(addedAt)[id]
      {
        assert forall id :: id in removed[..i + 1] <==> id in removed[..i] || id == removed[i];
        addedAt := addedAt - {removed[i]};
        i := i + 1;
      }
      assert removed[..i] == removed;
    }

    method ResolveStranded(targets: seq<Target>, now: Time)
      requires Valid()
      modifies monitor.store
      ensures Valid()
      ensures monitor.View() == old(monitor.View()).(db := old(monitor.View()).db.(
                incs := DropStranded(old(monitor.store.incs), targets, |targets|, now)))
    {
      ghost var w := monitor.View();
      assert DropStranded(w.db.incs, targets, 0, now) == w.db.incs;
      var i := 0;
      while i < |targets|
        invariant 0 <= i <= |targets|
        invariant Valid()
        invariant monitor.View() == w.(db := w.db.(incs := DropStranded(w.db.incs, targets, i, now)))
      {
        DropOneMore(w.db.incs, targets, i, now);
        hide DropStranded;
        ResolveUnaskedOverdue(targets[i], now);
        i := i + 1;
      }
    }
  }
}
