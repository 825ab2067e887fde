/** The durable store: one value holding every table, what each call does to it,
    and the object whose methods do it in place. Each call is one atomic step. */
module Store {
  import opened Domain
  import opened EventLog
  import opened TargetState
  import opened Incidents
  import Delivery
  import Follows
  import Retention

  datatype Db = Db(
    log: Log,
    states: map<string, StateRow>,
    incs: seq<Incident>,
    deliveries: map<nat, Delivery.Record>,
    follows: Follows.Table)

  const EMPTY_DB := Db(EMPTY_LOG, map[], [], map[], Follows.EMPTY_TABLE)

  function RowFor(db: Db, target: string): Option<StateRow> {
    if target in db.states then Some(db.states[target]) else None
  }

  function WithRow(states: map<string, StateRow>, target: string, row: Option<StateRow>): map<string, StateRow> {
    match row
    case None => states
    case Some(r) => states[target := r]
  }

  /** An event and what it does to its target's row, together. */
  function Recorded(db: Db, e: Event): Db {
    db.(log := Append(db.log, e),
        states := WithRow(db.states, e.target, Apply(RowFor(db, e.target), e)))
  }

  /** A follow and the event announcing it, together. */
  function FollowRecorded(db: Db, f: Follows.Link, e: Event): Db {
    db.(log := Append(db.log, e), follows := Follows.RecordFollow(db.follows, f))
  }

  datatype Stamp = Resolving | Notifying | Acknowledging

  function Stamped(i: Incident, s: Stamp, at: Time): Incident {
    match s
    case Resolving => i.(resolvedAt := Some(at))
    case Notifying => i.(notifiedAt := Some(at))
    case Acknowledging => i.(acknowledgedAt := Some(at))
  }

  class Store {
    var rows: seq<Row>
    var nextSeq: int
    var floor: Option<int>
    ghost var history: seq<Event>
    var states: map<string, StateRow>
    var incs: seq<Incident>
    var deliveries: map<nat, Delivery.Record>
    var follows: Follows.Table

    ghost function View(): Db
      reads this
    {
      Db(Log(rows, nextSeq, floor, history), states, incs, deliveries, follows)
    }

    /** The indexes the database enforces. */
    ghost predicate Valid()
      reads this
    {
      && UniqueOpen(incs)
      && Follows.Forward(follows)
      && Follows.DistinctRowids(follows)
    }

    constructor ()
      ensures Valid() && View() == EMPTY_DB
    {
      rows, nextSeq, floor, history := [], 1, None, [];
      states, incs, deliveries, follows := map[], [], map[], Follows.EMPTY_TABLE;
    }

    /** Appends an event and, when it asserts a status or a reason, applies it.
        The flag says whether the target's row was written. */
    method Record(e: Event) returns (seqNo: int, applied: bool)
      requires Valid()
      modifies this
      ensures Valid() && View() == Recorded(old(View()), e)
      ensures seqNo == old(nextSeq)
      ensures applied <==> RowFor(View(), e.target) != RowFor(old(View()), e.target)
    {
      seqNo := nextSeq;
      rows, nextSeq, history := rows + [Row(nextSeq, e)], nextSeq + 1, history + [e];
      applied := false;
      if e.status != Unstated {
        applied := ApplyStateInPlace(e);
      } else if e.reason != "" {
        applied := ApplyReasonInPlace(e);
      }
    }

    method ApplyStateInPlace(e: Event) returns (applied: bool)
      modifies this`states
      ensures states == WithRow(old(states), e.target, ApplyState(RowFor(old(View()), e.target), e))
      ensures applied <==> RowFor(View(), e.target) != RowFor(old(View()), e.target)
    {
      if e.target !in states {
        states := states[e.target := StateRow(e.session, e.generation, e.status, e.at, e.source,
                                              VisibilityOf(e), e.reason, e.machine, e.at)];
        return true;
      }
      var cur := states[e.target];
      if e.generation < cur.generation {
        return false;
      }
      if e.generation == cur.generation && e.at <= cur.observedAt {
        return false;
      }
      var next := cur.(session := e.session, status := e.status, observedAt := e.at, source := e.source,
                       visibility := VisibilityOf(e));
      if e.generation > cur.generation || e.at > cur.reasonAt {
        next := next.(reason := e.reason, reasonAt := e.at);
      }
      states := states[e.target := next.(generation := e.generation, machine := e.machine)];
      return true;
    }

    method ApplyReasonInPlace(e: Event) returns (applied: bool)
      modifies this`states
      ensures states == WithRow(old(states), e.target, ApplyReason(RowFor(old(View()), e.target), e))
      ensures applied <==> RowFor(View(), e.target) != RowFor(old(View()), e.target)
    {
      if e.target !in states {
        states := states[e.target := StateRow("", e.generation, Unstated, 0, e.source, "unavailable",
                                              e.reason, e.machine, e.at)];
        return true;
      }
      var cur := states[e.target];
      if e.generation < cur.generation || e.at <= cur.reasonAt {
        return false;
      }
      if e.generation == cur.generation && e.at <= cur.observedAt {
        return false;
      }
      states := states[e.target := cur.(reason := e.reason, reasonAt := e.at)];
      return true;
    }

    method TargetState(target: string) returns (row: Option<StateRow>)
      ensures row == RowFor(View(), target)
    {
      row := if target in states then Some(states[target]) else None;
    }

    /** Up to `limit` events following a cursor, or the refusal. */
    method ReadAfter(cursor: int, limit: nat) returns (r: Reading)
      ensures r == After(View().log, cursor, limit)
    {
      var retained := if floor.None? then 0 else floor.value;
      if cursor < retained {
        return Stale;
      }
      var first := FirstAbove(rows, cursor, 0);
      var page: seq<Row> := [];
      while |page| < limit && first + |page| < |rows|
        invariant |page| <= limit && first + |page| <= |rows|
        invariant page == rows[first..first + |page|]
        decreases limit - |page|
      {
        page := page + [rows[first + |page|]];
      }
      r := Page(page);
    }

    method NewestCursor() returns (c: int)
      ensures c == LatestCursor(View().log)
    {
      var retained := if floor.None? then 0 else floor.value;
      var newest := MaxSeq(rows);
      if newest.None? || newest.value < retained {
        return retained;
      }
      return newest.value;
    }

    method PruneBefore(n: int)
      requires Valid()
      modifies this
      ensures Valid() && View() == old(View()).(log := Prune(old(View()).log, n))
    {
      rows := RowsAbove(rows, n - 1);
      floor := if floor.Some? && floor.value > n - 1 then floor else Some(n - 1);
    }

    method OpenOrTouchIncident(target: string, c: Condition, generation: int, at: Time) returns (id: nat, isNew: bool)
      requires Valid()
      modifies this
      ensures Valid()
      ensures View() == old(View()).(incs := OpenOrTouch(old(incs), target, c, generation, at))
      ensures id == TouchedId(old(incs), target, c, generation) && id < |incs|
      ensures isNew <==> FindOpen(old(incs), target, c, generation).None?
    {
      OpeningKeepsTheIndex(incs, target, c, generation, at);
      id, isNew := 0, true;
      while id < |incs| && isNew
        invariant 0 <= id <= |incs|
        invariant isNew ==> forall i :: 0 <= i < id ==> !IsOpenFor(incs[i], target, c, generation)
        invariant !isNew ==> id < |incs| && IsOpenFor(incs[id], target, c, generation)
        decreases |incs| - id, isNew
      {
        if IsOpenFor(incs[id], target, c, generation) {
          isNew := false;
        } else {
          id := id + 1;
        }
      }
      if isNew {
        incs := incs + [Fresh(target, c, generation, at)];
      } else {
        FindOpenFinds(incs, id);
        incs := incs[id := incs[id].(lastSeenAt := at)];
      }
    }

    method StampIncident(id: nat, s: Stamp, at: Time) returns (found: bool)
      requires Valid()
      modifies this
      ensures Valid()
      ensures found <==> id < |old(incs)|
      ensures View() == if found then old(View()).(incs := old(incs)[id := Stamped(old(incs)[id], s, at)]) else old(View())
    {
      found := id < |incs|;
      if found {
        incs := incs[id := Stamped(incs[id], s, at)];
      }
    }

    method RecordDelivery(id: nat, transport: string, outcome: Outcome, at: Time)
      requires Valid()
      modifies this
      ensures Valid()
      ensures View() == old(View()).(deliveries := Delivery.RecordAttempt(old(deliveries), id, transport, outcome, at))
      ensures id in deliveries && deliveries[id].transport == transport
      ensures deliveries[id].outcome == outcome && deliveries[id].lastAt == at
      ensures deliveries[id].attempts == if id in old(deliveries) then old(deliveries)[id].attempts + 1 else 1
      ensures forall x :: x != id ==> (x in deliveries <==> x in old(deliveries)) && (x in deliveries ==> deliveries[x] == old(deliveries)[x])
    {
      var attempts := 1;
      if id in deliveries {
        attempts := deliveries[id].attempts + 1;
      }
      deliveries := deliveries[id := Delivery.Record(transport, outcome, attempts, at)];
    }

    method ShouldAttemptDelivery(id: nat, maxAttempts: int) returns (should: bool)
      ensures should <==> Delivery.ShouldAttempt(deliveries, id, maxAttempts)
    {
      if id !in deliveries {
        return true;
      }
      match deliveries[id].outcome
      case Failed => should := deliveries[id].attempts < maxAttempts;
      case _ => should := false;
    }

    method RecordFollow(f: Follows.Link, e: Event)
      requires Valid()
      modifies this
      ensures Valid() && View() == FollowRecorded(old(View()), f, e)
    {
      rows, nextSeq, history := rows + [Row(nextSeq, e)], nextSeq + 1, history + [e];
      Follows.RecordKeepsOrder(follows, f);
      follows := Follows.Upsert(follows, f);
      follows := follows.(rows := follows.rows - {Follows.NextKey(f)});
    }

    /** One retention query after another. */
    method RetainFrom(cutoff: Time, hold: int) returns (n: int)
      ensures n == Retention.RetainFrom(Retention.Shelf(View().log, incs), cutoff, hold)
    {
      var latest := NewestCursor();
      var byAge := Retention.ByAge(rows, cutoff);
      var held := Retention.ByHold(rows, incs, cutoff, hold);
      n := Retention.Combine(latest, byAge, held);
    }
  }
}
