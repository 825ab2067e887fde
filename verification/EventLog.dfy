/** The append-only event log: cursors, pages, pruning and the floor. */
module EventLog {
  import opened Domain

  datatype Row = Row(seqNo: int, event: Event)

  /** `rows` is what is stored, in the order of the primary key; `nextSeq` is never reused;
      `floor` is the highest pruned sequence number, absent until something was
      pruned. `history` is everything ever recorded and is only specification:
      no operation reads it. */
  datatype Log = Log(rows: seq<Row>, nextSeq: int, floor: Option<int>, history: seq<Event>)

  const EMPTY_LOG := Log([], 1, None, [])

  function FloorOf(log: Log): int {
    if log.floor.None? then 0 else log.floor.value
  }

  function Append(log: Log, e: Event): Log {
    log.(rows := log.rows + [Row(log.nextSeq, e)], nextSeq := log.nextSeq + 1, history := log.history + [e])
  }

  /** Where the rows numbered above `k` begin, at or after position `i`. */
  function FirstAbove(rows: seq<Row>, k: int, i: nat): (r: nat)
    requires i <= |rows|
    ensures i <= r <= |rows|
    ensures forall j :: i <= j < r ==> rows[j].seqNo <= k
    ensures r < |rows| ==> rows[r].seqNo > k
    decreases |rows| - i
  {
    if i == |rows| || rows[i].seqNo > k then i else FirstAbove(rows, k, i + 1)
  }

  /** SELECT ... WHERE seq > k ORDER BY seq. */
  function RowsAbove(rows: seq<Row>, k: int): seq<Row> {
    rows[FirstAbove(rows, k, 0)..]
  }

  function MaxSeq(rows: seq<Row>): Option<int> {
    if rows == [] then None else Some(rows[|rows| - 1].seqNo)
  }

  /** The newest cursor, or the floor when retention has emptied the log. */
  function LatestCursor(log: Log): int {
    var m := MaxSeq(log.rows);
    if m.None? || m.value < FloorOf(log) then FloorOf(log) else m.value
  }

  /** Drops everything below `n` and raises the floor, which never falls. */
  function Prune(log: Log, n: int): Log {
    log.(rows := RowsAbove(log.rows, n - 1),
         floor := Some(if log.floor.Some? && log.floor.value > n - 1 then log.floor.value else n - 1))
  }

  datatype Reading = Stale | Page(rows: seq<Row>)

  /** Up to `limit` events following a cursor, or the refusal of one that has
      fallen behind what is retained. */
  function After(log: Log, cursor: int, limit: nat): Reading {
    if cursor < FloorOf(log) then Stale
    else
      var all := RowsAbove(log.rows, cursor);
      Page(if |all| <= limit then all else all[..limit])
  }

  /** The cursor handed back with a page read from `cursor`. */
  function CursorAfter(cursor: int, page: seq<Row>): int {
    if page == [] then cursor else page[|page| - 1].seqNo
  }

  function Events(page: seq<Row>): (r: seq<Event>)
    ensures |r| == |page| && forall i :: 0 <= i < |page| ==> r[i] == page[i].event
  {
    seq(|page|, i requires 0 <= i < |page| => page[i].event)
  }

  // ---- What every reachable log looks like ----

  /** What is stored is exactly the history above the floor, numbered as it was
      recorded. */
  ghost predicate Whole(log: Log) {
    var floor := FloorOf(log);
    && log.nextSeq == |log.history| + 1
    && 0 <= floor <= |log.history|
    && |log.rows| == |log.history| - floor
    && (forall i :: 0 <= i < |log.rows| ==> log.rows[i] == Row(floor + 1 + i, log.history[floor + i]))
  }

  lemma AppendKeepsWhole(log: Log, e: Event)
    requires Whole(log)
    ensures Whole(Append(log, e))
  {
  }

  lemma RowsAboveOfWhole(log: Log, k: int)
    requires Whole(log)
    ensures RowsAbove(log.rows, k)
         == if k <= FloorOf(log) then log.rows else if k <= |log.history| then log.rows[k - FloorOf(log)..] else []
  {
    var r := FirstAbove(log.rows, k, 0);
    if 0 < r { assert log.rows[r - 1].seqNo <= k; }
  }

  lemma PruneKeepsWhole(log: Log, n: int)
    requires Whole(log) && n <= log.nextSeq && (log.floor.None? ==> 1 <= n)
    ensures Whole(Prune(log, n))
  {
    RowsAboveOfWhole(log, n - 1);
  }

  /** Pruning leaves the stored log whole exactly when it does not reach past
      the newest event (nor, the first time, below the first). */
  lemma PruneKeepsWholeExactly(log: Log, n: int)
    requires Whole(log)
    ensures Whole(Prune(log, n)) <==> n <= log.nextSeq && (log.floor.None? ==> 1 <= n)
  {
    if n <= log.nextSeq && (log.floor.None? ==> 1 <= n) {
      PruneKeepsWhole(log, n);
    } else {
      assert !(0 <= FloorOf(Prune(log, n)) <= |log.history|);
    }
  }

  /** Why that bound matters: past it, the event recorded next is one the newest
      cursor never delivers. */
  lemma PruningPastTheEndLosesAnEvent(log: Log, n: int, e: Event, limit: nat)
    requires Whole(log) && n > log.nextSeq
    ensures var pruned := Prune(log, n);
            After(Append(pruned, e), LatestCursor(pruned), limit) == Page([])
  {
    var pruned := Prune(log, n);
    RowsAboveOfWhole(log, n - 1);
    assert pruned.rows == [];
    assert Append(pruned, e).rows == [Row(log.nextSeq, e)];
  }

  lemma LatestOfWhole(log: Log)
    requires Whole(log)
    ensures LatestCursor(log) == |log.history|
  {
  }

  /** On a whole log a reading is decided by the history alone. */
  lemma ReadingIsASlice(log: Log, cursor: int, limit: nat)
    requires Whole(log) && 0 <= cursor <= |log.history|
    ensures After(log, cursor, limit).Stale? <==> exists k :: cursor < k <= |log.history| && !Stored(log, k)
    ensures After(log, cursor, limit).Page? ==>
              var page := After(log, cursor, limit).rows;
              && cursor <= CursorAfter(cursor, page) <= |log.history|
              && Events(page) == log.history[cursor..CursorAfter(cursor, page)]
              && |page| == (if |log.history| - cursor < limit then |log.history| - cursor else limit)
  {
    if cursor < FloorOf(log) {
      assert !Stored(log, FloorOf(log));
    } else {
      StoredAbove(log, cursor);
      PageIsASlice(log, cursor, limit);
    }
  }

  lemma StoredAbove(log: Log, cursor: int)
    requires Whole(log) && FloorOf(log) <= cursor
    ensures forall k :: cursor < k <= |log.history| ==> Stored(log, k)
  {
    forall k | cursor < k <= |log.history| ensures Stored(log, k) {
      assert log.rows[k - FloorOf(log) - 1].seqNo == k;
    }
  }

  lemma PageIsASlice(log: Log, cursor: int, limit: nat)
    requires Whole(log) && FloorOf(log) <= cursor <= |log.history|
    ensures After(log, cursor, limit).Page?
    ensures var page := After(log, cursor, limit).rows;
            && cursor <= CursorAfter(cursor, page) <= |log.history|
            && Events(page) == log.history[cursor..CursorAfter(cursor, page)]
            && |page| == (if |log.history| - cursor < limit then |log.history| - cursor else limit)
  {
    var skipped := cursor - FloorOf(log);
    var page := PageOf(log, cursor, limit);
    SliceOfRows(log, skipped, |page|);
  }

  lemma PageOf(log: Log, cursor: int, limit: nat) returns (page: seq<Row>)
    requires Whole(log) && FloorOf(log) <= cursor <= |log.history|
    ensures After(log, cursor, limit) == Page(page)
    ensures var skipped := cursor - FloorOf(log);
            && skipped + |page| <= |log.rows|
            && page == log.rows[skipped..skipped + |page|]
            && |page| == (if |log.history| - cursor < limit then |log.history| - cursor else limit)
  {
    RowsAboveOfWhole(log, cursor);
    page := After(log, cursor, limit).rows;
  }

  lemma SliceOfRows(log: Log, i: nat, len: nat)
    requires Whole(log) && i + len <= |log.rows|
    ensures var page := log.rows[i..i + len];
            && Events(page) == log.history[FloorOf(log) + i..FloorOf(log) + i + len]
            && (len > 0 ==> page[len - 1].seqNo == FloorOf(log) + i + len)
  {
    var page, slice := log.rows[i..i + len], log.history[FloorOf(log) + i..FloorOf(log) + i + len];
    assert |Events(page)| == |slice|;
    forall j | 0 <= j < len ensures Events(page)[j] == slice[j] {
      assert page[j] == log.rows[i + j];
    }
    if len > 0 { assert page[len - 1] == log.rows[i + len - 1]; }
  }

  ghost predicate Stored(log: Log, k: int) {
    exists i :: 0 <= i < |log.rows| && log.rows[i].seqNo == k
  }

  // ---- A consumer following the log while it grows and is pruned ----

  datatype Consumer = Consumer(cursor: int, got: seq<Event>, refused: bool)

  datatype Action = Arrived(event: Event) | Trimmed(below: int) | Polled(limit: nat)

  datatype Scene = Scene(log: Log, consumer: Consumer)

  /** The consumer hands back the cursor it was last given. */
  function Poll(log: Log, c: Consumer, limit: nat): Consumer {
    match After(log, c.cursor, limit)
    case Stale => c.(refused := true)
    case Page(page) => c.(cursor := CursorAfter(c.cursor, page), got := c.got + Events(page))
  }

  function Act(s: Scene, a: Action): Scene {
    match a
    case Arrived(e) => s.(log := Append(s.log, e))
    case Trimmed(n) => s.(log := Prune(s.log, n))
    case Polled(limit) => s.(consumer := Poll(s.log, s.consumer, limit))
  }

  function ActAll(s: Scene, acts: seq<Action>): Scene {
    if acts == [] then s else Act(ActAll(s, acts[..|acts| - 1]), acts[|acts| - 1])
  }

  /** Every prune in the run is one retention could have asked for: between the
      first event and one past the newest. */
  ghost predicate PrunesWithinHistory(s: Scene, acts: seq<Action>) {
    forall k :: 0 <= k < |acts| && acts[k].Trimmed? ==> 1 <= acts[k].below <= ActAll(s, acts[..k]).log.nextSeq
  }

  /** A consumer that starts at the cursor `status` reports. */
  function Following(log: Log): Scene {
    Scene(log, Consumer(LatestCursor(log), [], false))
  }

  /** The consumer that started at `from` holds the contiguous slice of history
      up to its cursor, and is refused only once something after that is gone. */
  ghost predicate UpToDate(s: Scene, from: int) {
    && Whole(s.log)
    && 0 <= from <= s.consumer.cursor <= |s.log.history|
    && s.consumer.got == s.log.history[from..s.consumer.cursor]
    && (s.consumer.refused ==> s.consumer.cursor < FloorOf(s.log))
  }

  lemma ActKeepsUpToDate(s: Scene, from: int, a: Action)
    requires UpToDate(s, from)
    requires a.Trimmed? ==> 1 <= a.below <= s.log.nextSeq
    ensures UpToDate(Act(s, a), from)
    ensures s.log.history <= Act(s, a).log.history
    ensures FloorOf(s.log) <= FloorOf(Act(s, a).log)
  {
    match a
    case Arrived(e) => AppendKeepsWhole(s.log, e);
    case Trimmed(m) => PruneKeepsWhole(s.log, m);
    case Polled(limit) => PollKeepsUpToDate(s.log, s.consumer, from, limit);
  }

  lemma PollKeepsUpToDate(log: Log, c: Consumer, from: int, limit: nat)
    requires UpToDate(Scene(log, c), from)
    ensures UpToDate(Scene(log, Poll(log, c, limit)), from)
  {
    if c.cursor >= FloorOf(log) {
      PageIsASlice(log, c.cursor, limit);
      var to := Poll(log, c, limit).cursor;
      assert log.history[from..c.cursor] + log.history[c.cursor..to] == log.history[from..to];
    }
  }

  /** Whatever happens in between, what the consumer has been given is the
      contiguous slice of history from where it started to where it is, and the
      floor only rises. */
  lemma {:induction false} FollowingMissesNothing(log: Log, acts: seq<Action>)
    requires Whole(log) && PrunesWithinHistory(Following(log), acts)
    ensures UpToDate(ActAll(Following(log), acts), LatestCursor(log))
    ensures log.history <= ActAll(Following(log), acts).log.history
    ensures FloorOf(log) <= FloorOf(ActAll(Following(log), acts).log)
  {
    if acts == [] {
      LatestOfWhole(log);
    } else {
      var n := |acts| - 1;
      ShorterRun(Following(log), acts);
      FollowingMissesNothing(log, acts[..n]);
      ActKeepsUpToDate(ActAll(Following(log), acts[..n]), LatestCursor(log), acts[n]);
    }
  }

  lemma ShorterRun(s: Scene, acts: seq<Action>)
    requires acts != [] && PrunesWithinHistory(s, acts)
    ensures PrunesWithinHistory(s, acts[..|acts| - 1])
    ensures acts[|acts| - 1].Trimmed? ==>
              1 <= acts[|acts| - 1].below <= ActAll(s, acts[..|acts| - 1]).log.nextSeq
  {
    var before := acts[..|acts| - 1];
    forall k | 0 <= k < |before| && before[k].Trimmed?
      ensures 1 <= before[k].below <= ActAll(s, before[..k]).log.nextSeq
    {
      assert acts[k] == before[k] && acts[..k] == before[..k];
    }
  }

  /** A cursor just reported is always accepted: it is caught up, and what it
      delivers next is whatever is recorded next. */
  lemma AReportedCursorIsAccepted(log: Log, e: Event, limit: nat)
    requires Whole(log) && limit > 0
    ensures After(log, LatestCursor(log), limit) == Page([])
    ensures var next := After(Append(log, e), LatestCursor(log), limit);
            next.Page? && Events(next.rows) == [e] && CursorAfter(LatestCursor(log), next.rows) == log.nextSeq
  {
    LatestOfWhole(log);
    PageIsASlice(log, |log.history|, limit);
    AppendKeepsWhole(log, e);
    PageIsASlice(Append(log, e), |log.history|, limit);
  }

  /** Once refused, a cursor is refused for good. */
  lemma StaleStaysStale(log: Log, acts: seq<Action>, limit: nat)
    requires Whole(log) && PrunesWithinHistory(Following(log), acts)
    ensures var s := ActAll(Following(log), acts);
            s.consumer.refused ==> After(s.log, s.consumer.cursor, limit) == Stale
  {
    FollowingMissesNothing(log, acts);
  }
}
