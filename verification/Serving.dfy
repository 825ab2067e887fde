/** One consumer of the feed, events landing, and retention passes that make three
    readings before they prune, each of these a turn, taken in any order. */
module Serving {
  import opened Domain
  import opened EventLog
  import opened Retention

  /** How far a retention pass has got. */
  datatype Progress =
    | Resting
    | KnowsNewest(latest: int, cutoff: Time, hold: int)
    | KnowsWindow(latest: int, byAge: Option<int>, cutoff: Time, hold: int)
    | KnowsPoint(n: int, cutoff: Time, hold: int)

  datatype Service = Service(shelf: Shelf, consumer: Consumer, progress: Progress)

  datatype Turn =
    | Happens(what: Meanwhile)
    | Polls(limit: nat)
    | Begins(cutoff: Time, hold: int)  // reads the newest cursor
    | ReadsWindow
    | ReadsHeld
    | Prunes

  /** A turn that is not due changes nothing. A point of one or less is not pruned
      at. */
  function Serve(s: Service, t: Turn): Service {
    match (t, s.progress)
    case (Happens(m), _) => s.(shelf := Happen(s.shelf, m))
    case (Polls(limit), _) => s.(consumer := Poll(s.shelf.log, s.consumer, limit))
    case (Begins(cutoff, hold), Resting) => s.(progress := KnowsNewest(LatestCursor(s.shelf.log), cutoff, hold))
    case (ReadsWindow, KnowsNewest(latest, cutoff, hold)) =>
      s.(progress := KnowsWindow(latest, ByAge(s.shelf.log.rows, cutoff), cutoff, hold))
    case (ReadsHeld, KnowsWindow(latest, byAge, cutoff, hold)) =>
      s.(progress := KnowsPoint(Combine(latest, byAge, ByHold(s.shelf.log.rows, s.shelf.incs, cutoff, hold)), cutoff, hold))
    case (Prunes, KnowsPoint(n, _, _)) =>
      s.(progress := Resting, shelf := if n <= 1 then s.shelf else s.shelf.(log := Prune(s.shelf.log, n)))
    case _ => s
  }

  function ServeAll(s: Service, ts: seq<Turn>): Service {
    if ts == [] then s else Serve(ServeAll(s, ts[..|ts| - 1]), ts[|ts| - 1])
  }

  predicate WithinLog(n: int, log: Log) {
    1 <= n <= log.nextSeq
  }

  /** What a pass has read so far keeps its point within the log. */
  predicate Bounded(p: Progress, log: Log) {
    match p
    case Resting => true
    case KnowsNewest(latest, _, _) => WithinLog(latest + 1, log)
    case KnowsWindow(latest, byAge, _, _) => WithinLog(latest + 1, log) && (byAge.Some? ==> WithinLog(byAge.value, log))
    case KnowsPoint(n, _, _) => WithinLog(n, log)
  }

  lemma FoundWithinLog(log: Log, r: Option<int>, want: Row -> bool)
    requires Whole(log) && r == MinSeq(log.rows, want) && r.Some?
    ensures WithinLog(r.value, log)
  {
    var x :| x in log.rows && want(x) && x.seqNo == r.value;
    RowOfWhole(log, x);
  }

  lemma LaterStillBounded(p: Progress, log: Log, later: Log)
    requires Bounded(p, log) && log.nextSeq <= later.nextSeq
    ensures Bounded(p, later)
  {
  }

  ghost predicate InService(s: Service, from: int) {
    UpToDate(Scene(s.shelf.log, s.consumer), from) && Bounded(s.progress, s.shelf.log)
  }

  lemma OneTurn(s: Service, from: int, t: Turn)
    requires InService(s, from)
    ensures InService(Serve(s, t), from)
  {
    hide MinSeq, RowsAbove, Poll;
    var log := s.shelf.log;
    match (t, s.progress)
    case (Happens(m), _) =>
      if m.Landed? {
        ActKeepsUpToDate(Scene(log, s.consumer), from, Arrived(m.event));
        LaterStillBounded(s.progress, log, Append(log, m.event));
      }
    case (Polls(limit), _) => PollKeepsUpToDate(log, s.consumer, from, limit);
    case (Begins(cutoff, hold), Resting) => LatestOfWhole(log);
    case (ReadsWindow, KnowsNewest(latest, cutoff, hold)) =>
      if ByAge(log.rows, cutoff).Some? {
        FoundWithinLog(log, ByAge(log.rows, cutoff), (r: Row) => InsideWindow(r.event, cutoff));
      }
    case (ReadsHeld, KnowsWindow(latest, byAge, cutoff, hold)) =>
      var incs := s.shelf.incs;
      if ByHold(log.rows, incs, cutoff, hold).Some? {
        FoundWithinLog(log, ByHold(log.rows, incs, cutoff, hold), (r: Row) => Held(incs, r.event, cutoff, hold));
      }
    case (Prunes, KnowsPoint(n, _, _)) =>
      if n > 1 { ActKeepsUpToDate(Scene(log, s.consumer), from, Trimmed(n)); }
    case _ =>
  }

  /** However appends, readings of the feed and the steps of retention passes are
      interleaved, whatever their windows and holds, a consumer that starts at the
      reported cursor and hands back what it is given holds the contiguous history
      from there, and is refused only once something it has not seen is gone. */
  lemma {:induction false} ServiceMissesNothing(shelf: Shelf, ts: seq<Turn>)
    requires Whole(shelf.log)
    ensures InService(ServeAll(Service(shelf, Following(shelf.log).consumer, Resting), ts), LatestCursor(shelf.log))
  {
    hide Serve, InService;
    var start := Service(shelf, Following(shelf.log).consumer, Resting);
    if ts == [] {
      BeginsInService(shelf);
    } else {
      ServiceMissesNothing(shelf, ts[..|ts| - 1]);
      OneTurn(ServeAll(start, ts[..|ts| - 1]), LatestCursor(shelf.log), ts[|ts| - 1]);
    }
  }

  lemma BeginsInService(shelf: Shelf)
    requires Whole(shelf.log)
    ensures InService(Service(shelf, Following(shelf.log).consumer, Resting), LatestCursor(shelf.log))
  {
    LatestOfWhole(shelf.log);
  }
}
