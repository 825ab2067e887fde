/** The prune point: everything old goes, except a terminal outcome nobody has
    collected, which is held for a while longer. */
module Retention {
  import opened Domain
  import opened EventLog
  import opened Incidents

  /** The log and the incidents, which the three queries read at three moments. */
  datatype Shelf = Shelf(log: Log, incs: seq<Incident>)

  predicate ExitOfRun(i: Incident, e: Event) {
    i.target == e.target && i.generation == e.generation && i.condition == Exit
  }

  /** The left join: an exit is uncollected when no exit incident matches its
      run, or one that does is unacknowledged. */
  predicate Uncollected(incs: seq<Incident>, e: Event) {
    || (forall i :: 0 <= i < |incs| ==> !ExitOfRun(incs[i], e))
    || (exists i :: 0 <= i < |incs| && ExitOfRun(incs[i], e) && incs[i].acknowledgedAt.None?)
  }

  predicate InsideWindow(e: Event, cutoff: Time) {
    e.at >= cutoff
  }

  predicate Held(incs: seq<Incident>, e: Event, cutoff: Time, hold: int) {
    && e.status == Exited
    && cutoff - hold < e.at < cutoff
    && Uncollected(incs, e)
  }

  /** SELECT MIN(seq) over the rows `want` selects. */
  function MinSeq(rows: seq<Row>, want: Row -> bool): (r: Option<int>)
    ensures r.None? ==> forall x :: x in rows ==> !want(x)
    ensures r.Some? ==> (exists x :: x in rows && want(x) && x.seqNo == r.value)
    ensures r.Some? ==> forall x :: x in rows && want(x) ==> r.value <= x.seqNo
  {
    if rows == [] then None
    else
      var n := |rows| - 1;
      assert rows == rows[..n] + [rows[n]] && rows[n] in rows;
      var rest := MinSeq(rows[..n], want);
      if !want(rows[n]) then rest
      else if rest.Some? && rest.value < rows[n].seqNo then rest
      else Some(rows[n].seqNo)
  }

  function ByAge(rows: seq<Row>, cutoff: Time): Option<int> {
    MinSeq(rows, (r: Row) => InsideWindow(r.event, cutoff))
  }

  function ByHold(rows: seq<Row>, incs: seq<Incident>, cutoff: Time, hold: int): Option<int> {
    MinSeq(rows, (r: Row) => Held(incs, r.event, cutoff, hold))
  }

  /** How the answers of the three queries combine. */
  function Combine(latest: int, byAge: Option<int>, held: Option<int>): int {
    if held.Some? && byAge.Some? then (if held.value < byAge.value then held.value else byAge.value)
    else if held.Some? then held.value
    else if byAge.Some? then byAge.value
    else latest + 1
  }

  function RetainFrom(s: Shelf, cutoff: Time, hold: int): int {
    Combine(LatestCursor(s.log), ByAge(s.log.rows, cutoff), ByHold(s.log.rows, s.incs, cutoff, hold))
  }

  /** Old enough to go and not held: what a prune is allowed to drop. */
  predicate Droppable(incs: seq<Incident>, e: Event, cutoff: Time, hold: int) {
    !InsideWindow(e, cutoff) && !Held(incs, e, cutoff, hold)
  }

  ghost predicate SafeFrom(s: Shelf, cutoff: Time, hold: int, n: int) {
    forall x :: x in s.log.rows && x.seqNo < n ==> Droppable(s.incs, x.event, cutoff, hold)
  }

  /** Somebody has seen the end of this run: an incident was opened about it, and
      every one that was is acknowledged. */
  ghost predicate Collected(incs: seq<Incident>, e: Event) {
    && (exists i :: 0 <= i < |incs| && ExitOfRun(incs[i], e))
    && forall i :: 0 <= i < |incs| && incs[i].target == e.target && incs[i].generation == e.generation && incs[i].condition == Exit ==>
         incs[i].acknowledgedAt.Some?
  }

  /** An event may go once it is older than the window, unless it is an exit nobody
      has collected that is not yet older than the window and the hold together. */
  lemma WhatMayGo(incs: seq<Incident>, e: Event, cutoff: Time, hold: int)
    ensures Droppable(incs, e, cutoff, hold) <==>
              e.at < cutoff && (e.status == Exited ==> Collected(incs, e) || e.at <= cutoff - hold)
  {
  }

  /** Read at one moment, it is the highest safe prune point there is: anything
      below it may go, and one step further either drops something that must be
      kept or runs past the newest event. */
  lemma RetainFromIsExact(s: Shelf, cutoff: Time, hold: int, n: int)
    requires Whole(s.log) && n <= s.log.nextSeq
    ensures SafeFrom(s, cutoff, hold, n) <==> n <= RetainFrom(s, cutoff, hold)
    ensures 0 < RetainFrom(s, cutoff, hold) <= s.log.nextSeq
  {
    LatestOfWhole(s.log);
    var byAge, held := ByAge(s.log.rows, cutoff), ByHold(s.log.rows, s.incs, cutoff, hold);
    if n > RetainFrom(s, cutoff, hold) {
      var x :| x in s.log.rows && x.seqNo == RetainFrom(s, cutoff, hold)
            && (InsideWindow(x.event, cutoff) || Held(s.incs, x.event, cutoff, hold));
      assert !SafeFrom(s, cutoff, hold, n);
    }
  }

  lemma ThePointIsInRange(s: Shelf, cutoff: Time, hold: int)
    requires Whole(s.log)
    ensures 0 < RetainFrom(s, cutoff, hold) <= s.log.nextSeq
    ensures SafeFrom(s, cutoff, hold, RetainFrom(s, cutoff, hold))
  {
    RetainFromIsExact(s, cutoff, hold, 0);
    hide RetainFrom, SafeFrom, Whole;
    RetainFromIsExact(s, cutoff, hold, RetainFrom(s, cutoff, hold));
  }

  // ---- What may land between the queries and the prune ----

  /** New events; incidents opened, and acknowledged; and the other times of an
      incident moved, as a touch, a resolution or a delivery does. */
  datatype Meanwhile =
    | Landed(event: Event)
    | Opened(target: string, condition: Condition, generation: int, at: Time)
    | Acked(id: nat, at: Time)
    | Timed(id: nat, seen: Time, resolved: Option<Time>, notified: Option<Time>)

  function IncidentsAfter(incs: seq<Incident>, m: Meanwhile): seq<Incident> {
    match m
    case Landed(_) => incs
    case Opened(t, c, g, at) => incs + [Fresh(t, c, g, at)]
    case Acked(id, at) => if id < |incs| then incs[id := incs[id].(acknowledgedAt := Some(at))] else incs
    case Timed(id, seen, resolved, notified) =>
      if id < |incs| then incs[id := incs[id].(lastSeenAt := seen, resolvedAt := resolved, notifiedAt := notified)] else incs
  }

  function Happen(s: Shelf, m: Meanwhile): Shelf {
    Shelf(if m.Landed? then Append(s.log, m.event) else s.log, IncidentsAfter(s.incs, m))
  }

  function HappenAll(s: Shelf, ms: seq<Meanwhile>): Shelf {
    if ms == [] then s else Happen(HappenAll(s, ms[..|ms| - 1]), ms[|ms| - 1])
  }

  ghost predicate Recent(ms: seq<Meanwhile>, cutoff: Time) {
    forall m :: m in ms && m.Landed? ==> m.event.at >= cutoff
  }

  /** Only opening an exit incident can make an exit uncollected again, and only
      one of its own run. */
  lemma OnlyOpeningUncollects(incs: seq<Incident>, m: Meanwhile, e: Event)
    requires Uncollected(IncidentsAfter(incs, m), e) && !Uncollected(incs, e)
    ensures m.Opened? && m.condition == Exit && m.target == e.target && m.generation == e.generation
  {
    var after := IncidentsAfter(incs, m);
    assert forall i :: 0 <= i < |incs| ==> ExitOfRun(after[i], e) == ExitOfRun(incs[i], e);
    var i :| 0 <= i < |incs| && ExitOfRun(incs[i], e);
    assert ExitOfRun(after[i], e);
    if !m.Opened? || m.condition != Exit || m.target != e.target || m.generation != e.generation {
      assert forall j :: 0 <= j < |after| && ExitOfRun(after[j], e) ==>
          j < |incs| && incs[j].acknowledgedAt.Some? && after[j].acknowledgedAt.Some?;
    }
  }

  lemma OpeningUncollects(incs: seq<Incident>, m: Meanwhile, e: Event)
    requires m.Opened? && m.condition == Exit && m.target == e.target && m.generation == e.generation
    ensures Uncollected(IncidentsAfter(incs, m), e)
  {
    var after := IncidentsAfter(incs, m);
    assert ExitOfRun(after[|incs|], e) && after[|incs|].acknowledgedAt.None?;
  }

  /** What happens meanwhile adds rows above all others, and keeps the rest as
      they were. */
  ghost predicate Grown(s: Shelf, t: Shelf, cutoff: Time) {
    && Whole(t.log)
    && s.log.history <= t.log.history
    && FloorOf(s.log) == FloorOf(t.log) && s.log.floor == t.log.floor
    && (forall i :: |s.log.history| <= i < |t.log.history| ==> t.log.history[i].at >= cutoff)
  }

  lemma {:induction false} MeanwhileOnlyGrows(s: Shelf, ms: seq<Meanwhile>, cutoff: Time)
    requires Whole(s.log) && Recent(ms, cutoff)
    ensures Grown(s, HappenAll(s, ms), cutoff)
  {
    if ms != [] {
      var n := |ms| - 1;
      assert forall m :: m in ms[..n] ==> m in ms;
      MeanwhileOnlyGrows(s, ms[..n], cutoff);
      assert ms[n] in ms;
      if ms[n].Landed? {
        AppendKeepsWhole(HappenAll(s, ms[..n]).log, ms[n].event);
      }
    }
  }

  /** A row of a whole log is the event of history with its number. */
  lemma RowOfWhole(log: Log, x: Row)
    requires Whole(log) && x in log.rows
    ensures FloorOf(log) < x.seqNo <= |log.history| && x.event == log.history[x.seqNo - 1]
  {
    var i :| 0 <= i < |log.rows| && log.rows[i] == x;
  }

  lemma RowInWhole(log: Log, k: int)
    requires Whole(log) && FloorOf(log) < k <= |log.history|
    ensures Row(k, log.history[k - 1]) in log.rows
  {
    assert log.rows[k - FloorOf(log) - 1] == Row(k, log.history[k - 1]);
  }

  /** The prune point when the newest cursor was read at `s0`, the window at `s1`
      and the held exits at `s2`. */
  function PointOf(s0: Shelf, s1: Shelf, s2: Shelf, cutoff: Time, hold: int): int {
    Combine(LatestCursor(s0.log), ByAge(s1.log.rows, cutoff), ByHold(s2.log.rows, s2.incs, cutoff, hold))
  }

  /** An exit below the point, past the window and not yet past its hold, made
      uncollected again by opening its incident anew. */
  ghost predicate Revives(s: Shelf, m: Meanwhile, n: int, cutoff: Time, hold: int) {
    m.Opened? && m.condition == Exit && exists x :: x in s.log.rows && x.seqNo < n && Revived(m, x.event, cutoff, hold)
  }

  predicate Revived(m: Meanwhile, e: Event, cutoff: Time, hold: int) {
    m.Opened? && e.target == m.target && e.generation == m.generation && e.status == Exited && cutoff - hold < e.at < cutoff
  }

  /** Pruning at `n` a shelf that has become `now`, in a pass that began at
      `began`: nothing recorded since goes, nothing that must be kept now goes,
      and the log stays whole with its floor no lower and short of the end. */
  ghost predicate SafePoint(began: Shelf, now: Shelf, n: int, cutoff: Time, hold: int) {
    && 1 <= n <= |began.log.history| + 1
    && SafeFrom(now, cutoff, hold, n)
    && Whole(Prune(now.log, n))
    && FloorOf(now.log) <= FloorOf(Prune(now.log, n)) < now.log.nextSeq
  }

  /** The shelf after the first `j` of what happened. */
  function ShelfAt(read: Shelf, ms: seq<Meanwhile>, j: nat): Shelf
    requires j <= |ms|
  {
    HappenAll(read, ms[..j])
  }

  ghost predicate SafeThroughout(began: Shelf, read: Shelf, ms: seq<Meanwhile>, n: int, cutoff: Time, hold: int) {
    forall j :: 0 <= j <= |ms| ==> SafePoint(began, ShelfAt(read, ms, j), n, cutoff, hold)
  }

  ghost predicate NoneRevives(read: Shelf, ms: seq<Meanwhile>, n: int, cutoff: Time, hold: int) {
    forall k :: 0 <= k < |ms| ==> !Revives(ShelfAt(read, ms, k), ms[k], n, cutoff, hold)
  }

  /** A prune point computed from three separate reads, with anything landing after
      each of them: however long the prune then takes, applying it deletes
      nothing recorded after the pass began, nothing inside the window and no
      terminal outcome still held, and leaves the log whole with no hidden gap,
      exactly when no exit incident opened after the last read revives an exit
      below the point. */
  lemma RetentionIsSafeUnderInterleaving(
      s0: Shelf, m1: seq<Meanwhile>, m2: seq<Meanwhile>, m3: seq<Meanwhile>, cutoff: Time, hold: int)
    requires Whole(s0.log)
    requires Recent(m1, cutoff) && Recent(m2, cutoff) && Recent(m3, cutoff)
    ensures var s1 := HappenAll(s0, m1);
            var s2 := HappenAll(s1, m2);
            var n := PointOf(s0, s1, s2, cutoff, hold);
            SafeThroughout(s0, s2, m3, n, cutoff, hold) <==> NoneRevives(s2, m3, n, cutoff, hold)
  {
    var s1 := HappenAll(s0, m1);
    var s2 := HappenAll(s1, m2);
    var n := PointOf(s0, s1, s2, cutoff, hold);
    MeanwhileOnlyGrows(s0, m1, cutoff);
    MeanwhileOnlyGrows(s1, m2, cutoff);
    OldPoint(s0, s1, s2, cutoff, hold);
    SafeWhenRead(s0, s1, s2, cutoff, hold);
    hide HappenAll, PointOf, SafeFrom, Recent;
    SafeExactlyUntilRevived(s0, s1, s2, m3, n, cutoff, hold);
  }

  /** Where nothing is opened after the last read, the point stays safe however
      long the prune takes. */
  lemma WithoutOpeningsThePointStaysSafe(
      s0: Shelf, m1: seq<Meanwhile>, m2: seq<Meanwhile>, m3: seq<Meanwhile>, cutoff: Time, hold: int)
    requires Whole(s0.log)
    requires Recent(m1, cutoff) && Recent(m2, cutoff) && Recent(m3, cutoff)
    requires forall m :: m in m3 ==> !m.Opened?
    ensures var s1 := HappenAll(s0, m1);
            var s2 := HappenAll(s1, m2);
            SafeThroughout(s0, s2, m3, PointOf(s0, s1, s2, cutoff, hold), cutoff, hold)
  {
    hide HappenAll, PointOf, SafeThroughout, Recent;
    RetentionIsSafeUnderInterleaving(s0, m1, m2, m3, cutoff, hold);
    assert forall k :: 0 <= k < |m3| ==> m3[k] in m3;
  }

  /** The store's calls alone do not ensure that: an exit that has been collected,
      past its window and within its hold, and the point at which it may go; once
      an incident is opened about it again, it may not. */
  lemma AnOpeningMakesThePointUnsafe(exit: Event, i: Incident, s: Shelf, again: Meanwhile)
    requires exit.status == Exited && exit.at == 95 && ExitOfRun(i, exit) && i.acknowledgedAt.Some?
    requires s == Shelf(Append(EMPTY_LOG, exit), [i])
    requires again == Opened(exit.target, Exit, exit.generation, 120)
    ensures var n := PointOf(s, s, s, 100, 10);
            && n == 2 && SafeFrom(s, 100, 10, n) && !SafeFrom(Happen(s, again), 100, 10, n)
  {
    assert s.log.rows == [Row(1, exit)] && Whole(s.log);
    assert ExitOfRun(s.incs[0], exit);
    assert !Uncollected(s.incs, exit) && !InsideWindow(exit, 100);
    assert ByAge(s.log.rows, 100) == None && ByHold(s.log.rows, s.incs, 100, 10) == None;
    LatestOfWhole(s.log);
    OpeningUncollects(s.incs, again, exit);
    assert Row(1, exit) in Happen(s, again).log.rows;
  }

  /** At the last read the point is safe. */
  lemma SafeWhenRead(s0: Shelf, s1: Shelf, s2: Shelf, cutoff: Time, hold: int)
    requires Whole(s0.log) && Grown(s0, s1, cutoff) && Grown(s1, s2, cutoff)
    ensures SafeFrom(s2, cutoff, hold, PointOf(s0, s1, s2, cutoff, hold))
  {
    var n := PointOf(s0, s1, s2, cutoff, hold);
    OldPoint(s0, s1, s2, cutoff, hold);
    forall x | x in s2.log.rows && x.seqNo < n ensures Droppable(s2.incs, x.event, cutoff, hold) {
      OldRow(s0, s1, s2, cutoff, x);
      BelowThePoint(s1, s2, cutoff, hold, x);
    }
  }

  lemma {:induction false} SafeExactlyUntilRevived(
      s0: Shelf, s1: Shelf, s2: Shelf, ms: seq<Meanwhile>, n: int, cutoff: Time, hold: int)
    requires Whole(s0.log) && Grown(s0, s1, cutoff) && Grown(s1, s2, cutoff) && Recent(ms, cutoff)
    requires 1 <= n <= |s0.log.history| + 1 && SafeFrom(s2, cutoff, hold, n)
    ensures SafeThroughout(s0, s2, ms, n, cutoff, hold) <==> NoneRevives(s2, ms, n, cutoff, hold)
  {
    hide Whole, SafeFrom, Revives, FloorOf, Prune, Recent, Happen;
    if ms == [] {
      GrownOnItself(s2, cutoff);
      SafePointNow(s0, s1, s2, s2, n, cutoff, hold);
      assert forall j :: 0 <= j <= |ms| ==> ShelfAt(s2, ms, j) == s2;
    } else {
      var k := |ms| - 1;
      RecentPrefix(ms, cutoff);
      SafeExactlyUntilRevived(s0, s1, s2, ms[..k], n, cutoff, hold);
      MeanwhileOnlyGrows(s2, ms[..k], cutoff);
      MeanwhileOnlyGrows(s2, ms, cutoff);
      var before, now := HappenAll(s2, ms[..k]), HappenAll(s2, ms);
      SafePointNow(s0, s1, s2, before, n, cutoff, hold);
      SafePointNow(s0, s1, s2, now, n, cutoff, hold);
      PointAfterGrowth(s0, s1, s2, before, n, cutoff);
      LastIsRecent(ms, cutoff);
      if SafeFrom(before, cutoff, hold, n) {
        OneMoreKeepsSafeExactly(before, ms[k], n, cutoff, hold);
      }
      ThroughoutOneMore(s0, s2, ms, n, cutoff, hold);
    }
  }

  lemma GrownOnItself(s: Shelf, cutoff: Time)
    requires Whole(s.log)
    ensures Grown(s, s, cutoff)
  {
  }

  lemma RecentPrefix(ms: seq<Meanwhile>, cutoff: Time)
    requires ms != [] && Recent(ms, cutoff)
    ensures Recent(ms[..|ms| - 1], cutoff)
  {
    assert forall m :: m in ms[..|ms| - 1] ==> m in ms;
  }

  lemma LastIsRecent(ms: seq<Meanwhile>, cutoff: Time)
    requires ms != [] && Recent(ms, cutoff)
    ensures ms[|ms| - 1].Landed? ==> ms[|ms| - 1].event.at >= cutoff
  {
    assert ms[|ms| - 1] in ms;
  }

  lemma ShelvesStay(read: Shelf, ms: seq<Meanwhile>, j: nat)
    requires ms != [] && j < |ms|
    ensures ShelfAt(read, ms[..|ms| - 1], j) == ShelfAt(read, ms, j)
    ensures ShelfAt(read, ms, |ms| - 1) == HappenAll(read, ms[..|ms| - 1])
    ensures ShelfAt(read, ms, |ms|) == HappenAll(read, ms)
  {
    assert ms[..|ms| - 1][..j] == ms[..j] && ms[..|ms|] == ms;
  }

  lemma ThroughoutOneMore(s0: Shelf, s2: Shelf, ms: seq<Meanwhile>, n: int, cutoff: Time, hold: int)
    requires ms != []
    ensures var k := |ms| - 1;
            && (SafeThroughout(s0, s2, ms, n, cutoff, hold) <==>
                  SafeThroughout(s0, s2, ms[..k], n, cutoff, hold) && SafePoint(s0, HappenAll(s2, ms), n, cutoff, hold))
            && (NoneRevives(s2, ms, n, cutoff, hold) <==>
                  NoneRevives(s2, ms[..k], n, cutoff, hold) && !Revives(HappenAll(s2, ms[..k]), ms[k], n, cutoff, hold))
            && (SafeThroughout(s0, s2, ms[..k], n, cutoff, hold) ==> SafePoint(s0, HappenAll(s2, ms[..k]), n, cutoff, hold))
  {
    hide SafePoint, Revives, HappenAll, ShelfAt;
    var k := |ms| - 1;
    forall j: nat | j <= k ensures ShelfAt(s2, ms[..k], j) == ShelfAt(s2, ms, j) {
      ShelvesStay(s2, ms, j);
    }
    ShelvesStay(s2, ms, k);
  }

  lemma PointAfterGrowth(s0: Shelf, s1: Shelf, s2: Shelf, now: Shelf, n: int, cutoff: Time)
    requires Whole(s0.log) && Grown(s0, s1, cutoff) && Grown(s1, s2, cutoff) && Grown(s2, now, cutoff)
    requires 1 <= n <= |s0.log.history| + 1
    ensures Whole(now.log) && n <= now.log.nextSeq
  {
  }

  /** On a shelf that has only grown, a point is safe to prune at exactly when
      what is below it may go. */
  lemma SafePointNow(s0: Shelf, s1: Shelf, s2: Shelf, now: Shelf, n: int, cutoff: Time, hold: int)
    requires Whole(s0.log) && Grown(s0, s1, cutoff) && Grown(s1, s2, cutoff) && Grown(s2, now, cutoff)
    requires 1 <= n <= |s0.log.history| + 1
    ensures SafePoint(s0, now, n, cutoff, hold) <==> SafeFrom(now, cutoff, hold, n)
  {
    PointAfterGrowth(s0, s1, s2, now, n, cutoff);
    hide SafeFrom;
    FloorRises(now.log, n);
  }

  lemma FloorRises(log: Log, n: int)
    requires Whole(log) && 1 <= n <= log.nextSeq
    ensures Whole(Prune(log, n))
    ensures FloorOf(log) <= FloorOf(Prune(log, n)) < log.nextSeq
  {
    PruneKeepsWhole(log, n);
  }

  /** One more thing happening keeps a safe point safe exactly when it revives no
      exit below it. */
  lemma OneMoreKeepsSafeExactly(s: Shelf, m: Meanwhile, n: int, cutoff: Time, hold: int)
    requires Whole(s.log) && n <= s.log.nextSeq && SafeFrom(s, cutoff, hold, n)
    requires m.Landed? ==> m.event.at >= cutoff
    ensures SafeFrom(Happen(s, m), cutoff, hold, n) <==> !Revives(s, m, n, cutoff, hold)
  {
    var t := Happen(s, m);
    if Revives(s, m, n, cutoff, hold) {
      var x :| x in s.log.rows && x.seqNo < n && Revived(m, x.event, cutoff, hold);
      OpeningUncollects(s.incs, m, x.event);
      assert x in t.log.rows && !Droppable(t.incs, x.event, cutoff, hold);
    } else {
      forall x | x in t.log.rows && x.seqNo < n ensures Droppable(t.incs, x.event, cutoff, hold) {
        assert x in s.log.rows;
        if Held(t.incs, x.event, cutoff, hold) {
          OnlyOpeningUncollects(s.incs, m, x.event);
        }
      }
    }
  }

  lemma OldRow(s0: Shelf, s1: Shelf, s2: Shelf, cutoff: Time, x: Row)
    requires Whole(s0.log) && Grown(s0, s1, cutoff) && Grown(s1, s2, cutoff)
    requires x in s2.log.rows && x.seqNo <= |s0.log.history|
    ensures x in s1.log.rows
  {
    RowOfWhole(s2.log, x);
    RowUnchanged(s0, s1, cutoff, x.seqNo);
    RowUnchanged(s1, s2, cutoff, x.seqNo);
  }

  lemma RowUnchanged(s: Shelf, t: Shelf, cutoff: Time, k: int)
    requires Whole(s.log) && Grown(s, t, cutoff) && FloorOf(s.log) < k <= |s.log.history|
    ensures Row(k, s.log.history[k - 1]) in s.log.rows
    ensures Row(k, s.log.history[k - 1]) in t.log.rows
    ensures t.log.history[k - 1] == s.log.history[k - 1]
  {
    RowInWhole(s.log, k);
    RowInWhole(t.log, k);
  }

  lemma BelowThePoint(s1: Shelf, s2: Shelf, cutoff: Time, hold: int, x: Row)
    requires x in s1.log.rows && x in s2.log.rows
    requires ByAge(s1.log.rows, cutoff).Some? ==> x.seqNo < ByAge(s1.log.rows, cutoff).value
    requires ByHold(s2.log.rows, s2.incs, cutoff, hold).Some? ==> x.seqNo < ByHold(s2.log.rows, s2.incs, cutoff, hold).value
    ensures Droppable(s2.incs, x.event, cutoff, hold)
  {
    assert !InsideWindow(x.event, cutoff);
    assert !Held(s2.incs, x.event, cutoff, hold);
  }

  /** Whatever landed between the reads, the point they give is not past the
      newest event there was when the first of them was made. */
  lemma OldPoint(s0: Shelf, s1: Shelf, s2: Shelf, cutoff: Time, hold: int)
    requires Whole(s0.log) && Grown(s0, s1, cutoff) && Grown(s1, s2, cutoff)
    ensures 1 <= PointOf(s0, s1, s2, cutoff, hold) <= |s0.log.history| + 1
  {
    LatestOfWhole(s0.log);
    AgePoint(s0, s1, cutoff);
    HoldPoint(s0, s1, s2, cutoff, hold);
  }

  lemma AgePoint(s0: Shelf, s1: Shelf, cutoff: Time)
    requires Whole(s0.log) && Grown(s0, s1, cutoff)
    ensures ByAge(s1.log.rows, cutoff).Some? ==> 1 <= ByAge(s1.log.rows, cutoff).value <= |s0.log.history| + 1
  {
    var byAge := ByAge(s1.log.rows, cutoff);
    if byAge.Some? {
      var x :| x in s1.log.rows && InsideWindow(x.event, cutoff) && x.seqNo == byAge.value;
      RowOfWhole(s1.log, x);
      if x.seqNo > |s0.log.history| {
        var k := |s0.log.history| + 1;
        RowInWhole(s1.log, k);
        assert InsideWindow(s1.log.history[k - 1], cutoff);
      }
    }
  }

  lemma HoldPoint(s0: Shelf, s1: Shelf, s2: Shelf, cutoff: Time, hold: int)
    requires Whole(s0.log) && Grown(s0, s1, cutoff) && Grown(s1, s2, cutoff)
    ensures ByHold(s2.log.rows, s2.incs, cutoff, hold).Some? ==> 1 <= ByHold(s2.log.rows, s2.incs, cutoff, hold).value <= |s0.log.history|
  {
    var held := ByHold(s2.log.rows, s2.incs, cutoff, hold);
    if held.Some? {
      var x :| x in s2.log.rows && Held(s2.incs, x.event, cutoff, hold) && x.seqNo == held.value;
      RowOfWhole(s2.log, x);
    }
  }
}
