/** Incidents: one attention condition of one run of one target, held open for
    as long as it lasts. Rows are never deleted, so a row's position is its id. */
module Incidents {
  import opened Domain

  datatype Incident = Incident(
    target: string,
    condition: Condition,
    generation: int,
    openedAt: Time,
    lastSeenAt: Time,
    resolvedAt: Option<Time>,
    notifiedAt: Option<Time>,
    acknowledgedAt: Option<Time>)

  /** `i` is open for exactly this target, condition and run. */
  predicate IsOpenFor(i: Incident, target: string, c: Condition, generation: int) {
    i.resolvedAt.None? && i.target == target && i.condition == c && i.generation == generation
  }

  /** An incident already open for a key, if there is one. */
  ghost function FindOpen(incs: seq<Incident>, target: string, c: Condition, generation: int): (r: Option<nat>)
    ensures r.Some? ==> r.value < |incs| && IsOpenFor(incs[r.value], target, c, generation)
    ensures r.None? ==> forall i :: 0 <= i < |incs| ==> !IsOpenFor(incs[i], target, c, generation)
  {
    if exists i :: 0 <= i < |incs| && IsOpenFor(incs[i], target, c, generation) then
      var i: nat :| i < |incs| && IsOpenFor(incs[i], target, c, generation);
      Some(i)
    else
      None
  }

  function Fresh(target: string, c: Condition, generation: int, at: Time): Incident {
    Incident(target, c, generation, at, at, None, None, None)
  }

  /** The table after a condition was observed to hold. */
  ghost function OpenOrTouch(incs: seq<Incident>, target: string, c: Condition, generation: int, at: Time): seq<Incident> {
    match FindOpen(incs, target, c, generation)
    case None => incs + [Fresh(target, c, generation, at)]
    case Some(i) => incs[i := incs[i].(lastSeenAt := at)]
  }

  /** The id of the incident that call opened or touched. */
  ghost function TouchedId(incs: seq<Incident>, target: string, c: Condition, generation: int): (id: nat)
    ensures id <= |incs|
  {
    match FindOpen(incs, target, c, generation)
    case None => |incs|
    case Some(i) => i
  }

  /** Whether a pass at run `g` that closes `close` resolves this incident: one
      of a superseded run always, one of this run if its condition ended. */
  predicate Swept(i: Incident, target: string, g: int, close: seq<Condition>) {
    && i.resolvedAt.None?
    && i.target == target
    && (i.generation < g || (i.generation == g && i.condition in close))
  }

  function Resolved(i: Incident, at: Time): Incident {
    i.(resolvedAt := Some(at))
  }

  function SweepOne(i: Incident, target: string, g: int, close: seq<Condition>, at: Time): Incident {
    if Swept(i, target, g, close) then Resolved(i, at) else i
  }

  function Sweep(incs: seq<Incident>, target: string, g: int, close: seq<Condition>, at: Time): (r: seq<Incident>)
    ensures |r| == |incs|
    ensures forall i :: 0 <= i < |incs| ==> r[i] == SweepOne(incs[i], target, g, close, at)
  {
    seq(|incs|, i requires 0 <= i < |incs| => SweepOne(incs[i], target, g, close, at))
  }

  /** Resolves every open overdue incident of a target. */
  function DropOverdue(incs: seq<Incident>, target: string, at: Time): (r: seq<Incident>)
    ensures |r| == |incs|
    ensures forall i :: 0 <= i < |incs| ==>
              r[i] == if incs[i].resolvedAt.None? && incs[i].target == target && incs[i].condition == Overdue
                      then Resolved(incs[i], at) else incs[i]
  {
    seq(|incs|, i requires 0 <= i < |incs| =>
      if incs[i].resolvedAt.None? && incs[i].target == target && incs[i].condition == Overdue
      then Resolved(incs[i], at) else incs[i])
  }

  /** The unique index: at most one open incident per target, condition and run. */
  ghost predicate UniqueOpen(incs: seq<Incident>) {
    forall i, j :: 0 <= i < j < |incs| && incs[i].resolvedAt.None? ==>
      !IsOpenFor(incs[j], incs[i].target, incs[i].condition, incs[i].generation)
  }

  lemma OpeningKeepsTheIndex(incs: seq<Incident>, target: string, c: Condition, g: int, at: Time)
    requires UniqueOpen(incs)
    ensures UniqueOpen(OpenOrTouch(incs, target, c, g, at))
  {
    var r := OpenOrTouch(incs, target, c, g, at);
    forall i, j | 0 <= i < j < |r| && r[i].resolvedAt.None?
      ensures !IsOpenFor(r[j], r[i].target, r[i].condition, r[i].generation)
    {
      if j < |incs| {
        assert incs[i].resolvedAt.None?;
        assert !IsOpenFor(incs[j], incs[i].target, incs[i].condition, incs[i].generation);
      } else {
        assert !IsOpenFor(incs[i], target, c, g);
      }
    }
  }

  /** With the index in force there is only one row FindOpen could return. */
  lemma FindOpenFinds(incs: seq<Incident>, i: nat)
    requires UniqueOpen(incs) && i < |incs| && incs[i].resolvedAt.None?
    ensures FindOpen(incs, incs[i].target, incs[i].condition, incs[i].generation) == Some(i)
  {
    var r := FindOpen(incs, incs[i].target, incs[i].condition, incs[i].generation);
    assert IsOpenFor(incs[i], incs[i].target, incs[i].condition, incs[i].generation);
    assert r.Some?;
    assert i == r.value;
  }

  // ---- Listing ----

  /** Oldest first, by when it was opened and then by id. */
  predicate Older(incs: seq<Incident>, a: nat, b: nat) {
    && a < |incs| && b < |incs|
    && (incs[a].openedAt < incs[b].openedAt || (incs[a].openedAt == incs[b].openedAt && a < b))
  }

  ghost predicate OldestFirst(incs: seq<Incident>, ids: seq<nat>) {
    forall j, k :: 0 <= j < k < |ids| ==> Older(incs, ids[j], ids[k])
  }

  predicate OpenFor(incs: seq<Incident>, target: string, i: nat) {
    i < |incs| && incs[i].target == target && incs[i].resolvedAt.None?
  }

  /** Puts a newly read row after every row opened no later. */
  function Place(incs: seq<Incident>, ids: seq<nat>, i: nat): (r: seq<nat>)
    requires i < |incs| && forall x: nat :: x in ids ==> x < i
    ensures forall x: nat :: x in r <==> x in ids || x == i
  {
    if ids == [] then [i]
    else
      var n := |ids| - 1;
      assert ids == ids[..n] + [ids[n]] && ids[n] in ids;
      assert forall x: nat :: x in ids[..n] ==> x in ids;
      if incs[ids[n]].openedAt <= incs[i].openedAt then ids + [i]
      else Place(incs, ids[..n], i) + [ids[n]]
  }

  lemma {:induction false} PlaceKeepsOrder(incs: seq<Incident>, ids: seq<nat>, i: nat)
    requires i < |incs| && forall x: nat :: x in ids ==> x < i
    requires OldestFirst(incs, ids)
    ensures OldestFirst(incs, Place(incs, ids, i))
  {
    if ids != [] {
      var n := |ids| - 1;
      assert ids[n] in ids && forall x: nat :: x in ids[..n] ==> x in ids;
      if incs[ids[n]].openedAt <= incs[i].openedAt {
        forall j | 0 <= j < |ids| ensures Older(incs, ids[j], i) {
          assert ids[j] in ids;
          assert j < n ==> Older(incs, ids[j], ids[n]);
        }
      } else {
        PlaceKeepsOrder(incs, ids[..n], i);
        var r := Place(incs, ids[..n], i);
        forall j | 0 <= j < |r| ensures Older(incs, r[j], ids[n]) {
          assert r[j] in r;
          if r[j] != i {
            var k :| 0 <= k < n && ids[..n][k] == r[j];
            assert Older(incs, ids[k], ids[n]);
          }
        }
      }
    }
  }

  /** A target's unresolved incidents, oldest first. */
  method OpenIncidents(incs: seq<Incident>, target: string) returns (ids: seq<nat>)
    ensures forall i: nat :: i in ids <==> OpenFor(incs, target, i)
    ensures OldestFirst(incs, ids)
  {
    ids := [];
    var i := 0;
    while i < |incs|
      invariant 0 <= i <= |incs|
      invariant forall x: nat :: x in ids <==> x < i && OpenFor(incs, target, x)
      invariant OldestFirst(incs, ids)
    {
      if incs[i].target == target && incs[i].resolvedAt.None? {
        PlaceKeepsOrder(incs, ids, i);
        ids := Place(incs, ids, i);
      }
      i := i + 1;
    }
  }
}
