/** One row per target: what is currently believed about it, kept up to date
    from events that may arrive late. The status and the reason run on separate
    clocks. */
module TargetState {
  import opened Domain

  datatype StateRow = StateRow(
    session: string,
    generation: int,
    status: Status,
    observedAt: Time,
    source: string,
    visibility: string,
    reason: string,
    machine: string,
    reasonAt: Time)

  function VisibilityOf(e: Event): string {
    if e.visibility == "" then "unavailable" else e.visibility
  }

  /** Writes a status-bearing event unless something newer is already there.
      The reason is taken too, unless a later reason of the same run already
      spoke. */
  function ApplyState(prior: Option<StateRow>, e: Event): Option<StateRow> {
    match prior
    case None =>
      Some(StateRow(e.session, e.generation, e.status, e.at, e.source, VisibilityOf(e), e.reason, e.machine, e.at))
    case Some(cur) =>
      if e.generation < cur.generation then prior
      else if e.generation == cur.generation && e.at <= cur.observedAt then prior
      else
        var speaks := e.generation > cur.generation || e.at > cur.reasonAt;
        Some(StateRow(
          e.session, e.generation, e.status, e.at, e.source, VisibilityOf(e),
          if speaks then e.reason else cur.reason,
          e.machine,
          if speaks then e.at else cur.reasonAt))
  }

  /** Records why a target is not observed. No status is invented for a target
      with no row, and the run in force does not move. */
  function ApplyReason(prior: Option<StateRow>, e: Event): Option<StateRow> {
    match prior
    case None =>
      Some(StateRow("", e.generation, Unstated, 0, e.source, "unavailable", e.reason, e.machine, e.at))
    case Some(cur) =>
      if e.generation < cur.generation || e.at <= cur.reasonAt then prior
      else if e.generation == cur.generation && e.at <= cur.observedAt then prior
      else Some(cur.(reason := e.reason, reasonAt := e.at))
  }

  /** What recording an event does to its target's row. */
  function Apply(prior: Option<StateRow>, e: Event): Option<StateRow> {
    if e.status != Unstated then ApplyState(prior, e)
    else if e.reason != "" then ApplyReason(prior, e)
    else prior
  }

  function ApplyAll(prior: Option<StateRow>, es: seq<Event>): Option<StateRow> {
    if es == [] then prior
    else Apply(ApplyAll(prior, es[..|es| - 1]), es[|es| - 1])
  }

  // ---- The stored run and time only move forward ----

  /** (generation, observed time), compared lexicographically. */
  ghost predicate NotBehind(a: StateRow, b: StateRow) {
    || a.generation < b.generation
    || (a.generation == b.generation && a.observedAt <= b.observedAt)
  }

  lemma {:induction false} NeverGoesBack(prior: Option<StateRow>, es: seq<Event>)
    requires prior.Some?
    ensures ApplyAll(prior, es).Some? && NotBehind(prior.value, ApplyAll(prior, es).value)
  {
    if es != [] {
      NeverGoesBack(prior, es[..|es| - 1]);
    }
  }

  /** An event of a run that has been replaced changes nothing at all. */
  lemma {:induction false} ReplacedRunsAreIgnored(prior: Option<StateRow>, es: seq<Event>)
    requires prior.Some?
    requires forall e :: e in es ==> e.generation < prior.value.generation
    ensures ApplyAll(prior, es) == prior
  {
    if es != [] {
      ReplacedRunsAreIgnored(prior, es[..|es| - 1]);
      assert es[|es| - 1] in es;
    }
  }

  // ---- Within one run, arrival order does not matter ----

  predicate Speaks(e: Event) {
    e.status != Unstated || e.reason != ""
  }

  /** Events of one run, at distinct and positive times. */
  ghost predicate OneRun(es: seq<Event>, g: int) {
    && (forall e :: e in es ==> e.generation == g && e.at > 0)
    && (forall i, j :: 0 <= i < j < |es| ==> es[i].at != es[j].at)
  }

  ghost predicate NewestStatus(es: seq<Event>, e: Event) {
    && e in es && e.status != Unstated
    && forall x :: x in es && x.status != Unstated ==> x.at <= e.at
  }

  ghost predicate NewestSpeaker(es: seq<Event>, e: Event) {
    && e in es && Speaks(e)
    && forall x :: x in es && Speaks(x) ==> x.at <= e.at
  }

  /** What a run of events leaves behind, said without reference to the order
      they arrived in. */
  ghost predicate Summarises(row: Option<StateRow>, es: seq<Event>, g: int) {
    && (row.None? <==> forall e :: e in es ==> !Speaks(e))
    && (row.Some? ==>
        && row.value.generation == g
        && (exists n :: NewestSpeaker(es, n) && row.value.reason == n.reason && row.value.reasonAt == n.at)
        && (if row.value.status == Unstated then
              row.value.observedAt == 0 && forall e :: e in es ==> e.status == Unstated
            else
              exists s ::
                && NewestStatus(es, s)
                && row.value.status == s.status && row.value.observedAt == s.at
                && row.value.session == s.session && row.value.source == s.source
                && row.value.machine == s.machine && row.value.visibility == VisibilityOf(s)))
  }

  lemma {:induction false} ARunIsSummarised(es: seq<Event>, g: int)
    requires OneRun(es, g)
    ensures Summarises(ApplyAll(None, es), es, g)
  {
    if es == [] {
      return;
    }
    var rest, e := es[..|es| - 1], es[|es| - 1];
    assert es == rest + [e];
    ARunIsSummarised(rest, g);
    var before, after := ApplyAll(None, rest), ApplyAll(None, es);
    assert after == Apply(before, e);
    assert forall x :: x in es <==> x in rest || x == e;
    assert forall x :: x in rest ==> x.at != e.at by {
      forall x | x in rest ensures x.at != e.at {
        var i :| 0 <= i < |rest| && rest[i] == x;
        assert es[i].at != es[|es| - 1].at;
      }
    }
    SummaryOfOneMore(before, rest, e, es, g);
  }

  lemma SummaryOfOneMore(before: Option<StateRow>, rest: seq<Event>, e: Event, es: seq<Event>, g: int)
    requires es == rest + [e] && OneRun(es, g)
    requires Summarises(before, rest, g)
    requires forall x :: x in es <==> x in rest || x == e
    requires forall x :: x in rest ==> x.at != e.at
    ensures Summarises(Apply(before, e), es, g)
  {
    var after := Apply(before, e);
    assert e in es;
    if before.None? {
      if Speaks(e) {
        assert NewestSpeaker(es, e);
        if e.status != Unstated { assert NewestStatus(es, e); }
      }
      return;
    }
    var n :| NewestSpeaker(rest, n) && before.value.reason == n.reason && before.value.reasonAt == n.at;
    assert n in es;
    if Speaks(e) && e.at > n.at {
      assert NewestSpeaker(es, e);
    } else {
      assert NewestSpeaker(es, n);
    }
    if before.value.status == Unstated {
      if e.status != Unstated { assert NewestStatus(es, e); }
    } else {
      var s :| && NewestStatus(rest, s)
               && before.value.status == s.status && before.value.observedAt == s.at
               && before.value.session == s.session && before.value.source == s.source
               && before.value.machine == s.machine && before.value.visibility == VisibilityOf(s);
      assert s in es && s.at <= n.at;
      if e.status != Unstated && e.at > s.at {
        assert NewestStatus(es, e);
      } else {
        assert NewestStatus(es, s);
      }
    }
  }

  /** Whatever order the events of one run arrive in, the row says the same. */
  lemma ArrivalOrderDoesNotMatter(a: seq<Event>, b: seq<Event>, g: int)
    requires OneRun(a, g) && multiset(a) == multiset(b)
    ensures OneRun(b, g)
    ensures var x, y := ApplyAll(None, a), ApplyAll(None, b);
            && x.Some? == y.Some?
            && (x.Some? ==>
                && x.value.status == y.value.status
                && x.value.observedAt == y.value.observedAt
                && x.value.reason == y.value.reason
                && x.value.reasonAt == y.value.reasonAt
                && (x.value.status != Unstated ==> x.value == y.value))
  {
    SameMembers(a, b);
    DistinctTimesTravel(a, b);
    ARunIsSummarised(a, g);
    ARunIsSummarised(b, g);
    var x, y := ApplyAll(None, a), ApplyAll(None, b);
    if x.Some? {
      var n :| NewestSpeaker(a, n) && x.value.reason == n.reason && x.value.reasonAt == n.at;
      var m :| NewestSpeaker(b, m) && y.value.reason == m.reason && y.value.reasonAt == m.at;
      SameTimeSameEvent(a, n, m);
    }
    if x.Some? && x.value.status != Unstated && y.value.status != Unstated {
      var s :| && NewestStatus(a, s)
               && x.value.status == s.status && x.value.observedAt == s.at
               && x.value.session == s.session && x.value.source == s.source
               && x.value.machine == s.machine && x.value.visibility == VisibilityOf(s);
      var t :| && NewestStatus(b, t)
               && y.value.status == t.status && y.value.observedAt == t.at
               && y.value.session == t.session && y.value.source == t.source
               && y.value.machine == t.machine && y.value.visibility == VisibilityOf(t);
      SameTimeSameEvent(a, s, t);
    }
  }

  lemma SameMembers(a: seq<Event>, b: seq<Event>)
    requires multiset(a) == multiset(b)
    ensures forall e :: e in a <==> e in b
  {
    forall e ensures e in a <==> e in b {
      assert e in multiset(a) <==> e in multiset(b);
    }
  }

  lemma SameTimeSameEvent(es: seq<Event>, x: Event, y: Event)
    requires forall i, j :: 0 <= i < j < |es| ==> es[i].at != es[j].at
    requires x in es && y in es && x.at <= y.at && y.at <= x.at
    ensures x == y
  {
    var i :| 0 <= i < |es| && es[i] == x;
    var j :| 0 <= j < |es| && es[j] == y;
    assert i == j;
  }

  lemma DistinctTimesTravel(a: seq<Event>, b: seq<Event>)
    requires multiset(a) == multiset(b)
    requires forall i, j :: 0 <= i < j < |a| ==> a[i].at != a[j].at
    ensures forall i, j :: 0 <= i < j < |b| ==> b[i].at != b[j].at
  {
    SameMembers(a, b);
    forall i, j | 0 <= i < j < |b| ensures b[i].at != b[j].at {
      if b[i].at == b[j].at {
        assert b[i] in a && b[j] in a;
        SameTimeSameEvent(a, b[i], b[j]);
        TwiceInOne(b, i, j);
        OnceInOther(a, b[i]);
      }
    }
  }

  lemma TwiceInOne(b: seq<Event>, i: int, j: int)
    requires 0 <= i < j < |b| && b[i] == b[j]
    ensures multiset(b)[b[i]] >= 2
  {
    var head, tail := b[..j], b[j..];
    assert b == head + tail;
    assert head[i] in multiset(head) && tail[0] in multiset(tail);
  }

  lemma {:induction false} OnceInOther(a: seq<Event>, e: Event)
    requires forall i, j :: 0 <= i < j < |a| ==> a[i].at != a[j].at
    ensures multiset(a)[e] <= 1
  {
    if a != [] {
      var n := |a| - 1;
      OnceInOther(a[..n], e);
      assert a == a[..n] + [a[n]];
      if a[n] == e {
        assert e !in a[..n] by {
          forall i | 0 <= i < n ensures a[..n][i] != e {
            assert a[i].at != a[n].at;
          }
        }
      }
    }
  }
}
