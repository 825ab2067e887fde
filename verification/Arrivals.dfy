/** Events of several runs, arriving in any order: when the order can be seen in
    what is believed of a target, and when it cannot. */
module Arrivals {
  import opened Domain
  import opened TargetState

  /** Two events of different runs, met by a target with no row: their order
      cannot be seen exactly when the later run's event bears a status or one of
      the two says nothing. */
  lemma TwoRunsAgreeExactly(a: Event, b: Event)
    requires 0 < a.at && 0 < b.at && a.generation < b.generation
    ensures ApplyAll(None, [a, b]) == ApplyAll(None, [b, a]) <==>
              b.status != Unstated || !Speaks(a) || !Speaks(b)
  {
    ApplyTwo(None, a, b);
    ApplyTwo(None, b, a);
  }

  lemma ApplyTwo(prior: Option<StateRow>, a: Event, b: Event)
    ensures ApplyAll(prior, [a, b]) == Apply(Apply(prior, a), b)
  {
    assert [a, b][..1] == [a] && [a][..0] == [];
    assert ApplyAll(prior, [a]) == Apply(prior, a);
  }

  /** What a row believes, apart from why it may not be current and who said so. */
  predicate SameBelief(x: Option<StateRow>, y: Option<StateRow>) {
    match (x, y)
    case (None, None) => true
    case (Some(a), Some(b)) =>
      && a.generation == b.generation && a.status == b.status
      && a.observedAt == b.observedAt && a.session == b.session
    case _ => false
  }

  /** Events of any runs, no two of one run that say something at one time, and
      none that does before time began. */
  ghost predicate AnyRuns(es: seq<Event>) {
    && (forall e :: e in es && Speaks(e) ==> e.at > 0)
    && (forall i, j :: 0 <= i < j < |es| && Speaks(es[i]) && Speaks(es[j]) && es[i].generation == es[j].generation ==>
          es[i].at != es[j].at)
  }

  /** The highest run that says anything bears a status, or no other run says
      anything. */
  ghost predicate HighestRunStands(es: seq<Event>) {
    || (exists s :: HighestStatus(es, s))
    || (forall x, y :: x in es && y in es && Speaks(x) && Speaks(y) ==> x.generation == y.generation)
  }

  ghost predicate HighestStatus(es: seq<Event>, s: Event) {
    s in es && s.status != Unstated && forall x :: x in es && Speaks(x) ==> x.generation <= s.generation
  }

  /** A status-bearing event that the row there before gives way to. */
  predicate Beats(prior: Option<StateRow>, e: Event) {
    && e.status != Unstated
    && (prior.None? || e.generation > prior.value.generation
        || (e.generation == prior.value.generation && e.at > prior.value.observedAt))
  }

  /** No status-bearing event is of a later run, or of this one and later. */
  ghost predicate Newest(es: seq<Event>, s: Event) {
    && s in es && s.status != Unstated
    && forall x :: x in es && x.status != Unstated ==>
         x.generation < s.generation || (x.generation == s.generation && x.at <= s.at)
  }

  /** The row a status-bearing event leaves when it is the first there is. */
  function RowOf(s: Event): StateRow {
    StateRow(s.session, s.generation, s.status, s.at, s.source, VisibilityOf(s), s.reason, s.machine, s.at)
  }

  predicate SameButReason(x: StateRow, y: StateRow) {
    x == y.(reason := x.reason, reasonAt := x.reasonAt)
  }

  predicate Holds(row: StateRow, s: Event) {
    SameButReason(row, RowOf(s))
  }

  /** What is believed of a target that has a row, said without order. */
  ghost predicate BelievedOver(prior: StateRow, es: seq<Event>, row: Option<StateRow>) {
    && row.Some?
    && if forall e :: e in es ==> !Beats(Some(prior), e) then SameButReason(row.value, prior)
       else exists s :: s in es && Beats(Some(prior), s) && Newest(es, s) && Holds(row.value, s)
  }

  lemma {:induction false} EventsOverARow(prior: StateRow, es: seq<Event>)
    ensures BelievedOver(prior, es, ApplyAll(Some(prior), es))
  {
    if es != [] {
      var n := |es| - 1;
      var rest, e := es[..n], es[n];
      assert es == rest + [e];
      assert forall x :: x in es <==> x in rest || x == e;
      EventsOverARow(prior, rest);
      OneMoreOverARow(prior, rest, e, es, ApplyAll(Some(prior), rest));
    }
  }

  lemma OneMoreOverARow(prior: StateRow, rest: seq<Event>, e: Event, es: seq<Event>, row: Option<StateRow>)
    requires forall x :: x in es <==> x in rest || x == e
    requires BelievedOver(prior, rest, row)
    ensures BelievedOver(prior, es, Apply(row, e))
  {
    if forall x :: x in rest ==> !Beats(Some(prior), x) {
      if Beats(Some(prior), e) {
        assert Newest(es, e) by {
          forall x | x in es && x.status != Unstated
            ensures x.generation < e.generation || (x.generation == e.generation && x.at <= e.at)
          {
            if x in rest { assert !Beats(Some(prior), x); }
          }
        }
        assert e in es && Holds(Apply(row, e).value, e);
      }
    } else {
      var s :| s in rest && Beats(Some(prior), s) && Newest(rest, s) && Holds(row.value, s);
      if e.status != Unstated && (e.generation > s.generation || (e.generation == s.generation && e.at > s.at)) {
        assert e in es && Beats(Some(prior), e) && Newest(es, e) && Holds(Apply(row, e).value, e);
      } else {
        assert s in es && Newest(es, s) && Holds(Apply(row, e).value, s);
      }
    }
  }

  /** What is believed of a target met without a row: its newest status, unless a
      reason came first from a run no status is as late as. */
  ghost predicate BelievedAfresh(es: seq<Event>, row: Option<StateRow>) {
    && (row.None? <==> forall e :: e in es ==> !Speaks(e))
    && (row.Some? && row.value.status != Unstated ==> exists s :: Newest(es, s) && Holds(row.value, s))
    && (row.Some? && row.value.status == Unstated ==>
          && row.value.observedAt == 0 && row.value.session == ""
          && (exists f :: f in es && Speaks(f) && f.generation == row.value.generation)
          && forall x :: x in es && x.status != Unstated ==> x.generation < row.value.generation)
  }

  lemma {:induction false} EventsAfresh(es: seq<Event>)
    requires forall e :: e in es && Speaks(e) ==> e.at > 0
    ensures BelievedAfresh(es, ApplyAll(None, es))
  {
    if es != [] {
      var n := |es| - 1;
      var rest, e := es[..n], es[n];
      assert es == rest + [e];
      assert forall x :: x in es <==> x in rest || x == e;
      EventsAfresh(rest);
      OneMoreAfresh(rest, e, es, ApplyAll(None, rest));
    }
  }

  lemma OneMoreAfresh(rest: seq<Event>, e: Event, es: seq<Event>, row: Option<StateRow>)
    requires (Speaks(e) ==> e.at > 0) && forall x :: x in es <==> x in rest || x == e
    requires BelievedAfresh(rest, row)
    ensures BelievedAfresh(es, Apply(row, e))
  {
    var after := Apply(row, e);
    if row.None? {
      if e.status != Unstated { assert Newest(es, e) && Holds(after.value, e); }
    } else if row.value.status != Unstated {
      var s :| Newest(rest, s) && Holds(row.value, s);
      if Beats(row, e) {
        assert Newest(es, e) && Holds(after.value, e);
      } else {
        assert Newest(es, s) && Holds(after.value, s);
      }
    } else {
      var f :| f in rest && Speaks(f) && f.generation == row.value.generation;
      if Beats(row, e) {
        assert Newest(es, e) && Holds(after.value, e);
      } else {
        assert f in es;
      }
    }
  }

  lemma NewestIsOne(es: seq<Event>, a: Event, b: Event)
    requires AnyRuns(es) && Newest(es, a) && Newest(es, b)
    ensures a == b
  {
    var i :| 0 <= i < |es| && es[i] == a;
    var j :| 0 <= j < |es| && es[j] == b;
    assert i == j;
  }

  ghost predicate Reordered(es: seq<Event>, fs: seq<Event>) {
    multiset(es) == multiset(fs)
  }

  ghost predicate EveryOrderAgrees(prior: Option<StateRow>, es: seq<Event>) {
    forall fs :: Reordered(es, fs) ==> SameBelief(ApplyAll(prior, es), ApplyAll(prior, fs))
  }

  ghost predicate EveryOrderKeepsAllButTheReason(prior: StateRow, es: seq<Event>) {
    forall fs :: Reordered(es, fs) ==>
      && ApplyAll(Some(prior), es).Some? && ApplyAll(Some(prior), fs).Some?
      && SameButReason(ApplyAll(Some(prior), es).value, ApplyAll(Some(prior), fs).value)
  }

  /** A target that has a row believes the same whatever the order. */
  lemma OverARowEveryOrderAgrees(prior: StateRow, es: seq<Event>)
    requires AnyRuns(es)
    ensures EveryOrderAgrees(Some(prior), es) && EveryOrderKeepsAllButTheReason(prior, es)
  {
    forall fs | Reordered(es, fs)
      ensures SameBelief(ApplyAll(Some(prior), es), ApplyAll(Some(prior), fs))
      ensures ApplyAll(Some(prior), es).Some? && ApplyAll(Some(prior), fs).Some?
      ensures SameButReason(ApplyAll(Some(prior), es).value, ApplyAll(Some(prior), fs).value)
    {
      SameMembers(es, fs);
      EventsOverARow(prior, es);
      EventsOverARow(prior, fs);
      if e :| e in es && Beats(Some(prior), e) {
        assert e in fs;
        var x, y := ApplyAll(Some(prior), es).value, ApplyAll(Some(prior), fs).value;
        var s :| s in es && Beats(Some(prior), s) && Newest(es, s) && Holds(x, s);
        var t :| t in fs && Beats(Some(prior), t) && Newest(fs, t) && Holds(y, t);
        assert Newest(es, t);
        NewestIsOne(es, s, t);
      }
    }
  }

  /** A row that still shows no status, over events that bear one, began with a
      reason from too late a run. */
  lemma ALateReasonUnsettles(es: seq<Event>, row: Option<StateRow>, s: Event)
    requires BelievedAfresh(es, row) && row.Some? && row.value.status == Unstated
    requires s in es && s.status != Unstated
    ensures !HighestRunStands(es)
  {
    var f :| f in es && Speaks(f) && f.generation == row.value.generation;
    assert Speaks(s) && s.generation < f.generation;
  }

  lemma AStandingStatusShows(es: seq<Event>, row: Option<StateRow>, s: Event)
    requires HighestRunStands(es) && BelievedAfresh(es, row)
    requires s in es && s.status != Unstated
    ensures row.Some? && row.value.status != Unstated
  {
    hide HighestRunStands;
    if row.Some? && row.value.status == Unstated {
      ALateReasonUnsettles(es, row, s);
    }
  }

  lemma StandingRunsAgree(es: seq<Event>, fs: seq<Event>)
    requires AnyRuns(es) && HighestRunStands(es) && HighestRunStands(fs) && (forall e :: e in es <==> e in fs)
    requires BelievedAfresh(es, ApplyAll(None, es)) && BelievedAfresh(fs, ApplyAll(None, fs))
    ensures SameBelief(ApplyAll(None, es), ApplyAll(None, fs))
  {
    var x, y := ApplyAll(None, es), ApplyAll(None, fs);
    if e :| e in es && e.status != Unstated {
      AStandingStatusShows(es, x, e);
      AStandingStatusShows(fs, y, e);
      var s :| Newest(es, s) && Holds(x.value, s);
      var t :| Newest(fs, t) && Holds(y.value, t);
      assert Newest(es, t);
      NewestIsOne(es, s, t);
    } else if x.Some? {
      assert !exists s :: HighestStatus(es, s);
      var f :| f in es && Speaks(f) && f.generation == x.value.generation;
      var g :| g in fs && Speaks(g) && g.generation == y.value.generation;
    }
  }

  lemma StandingIsOrderless(es: seq<Event>, fs: seq<Event>)
    requires HighestRunStands(es) && forall e :: e in es <==> e in fs
    ensures HighestRunStands(fs)
  {
    if s :| HighestStatus(es, s) {
      assert HighestStatus(fs, s);
    }
  }

  /** The event at one place, first. */
  function Foremost(es: seq<Event>, i: nat): seq<Event>
    requires i < |es|
  {
    [es[i]] + (es[..i] + es[i + 1..])
  }

  lemma ForemostReorders(es: seq<Event>, i: nat)
    requires i < |es|
    ensures Reordered(es, Foremost(es, i))
  {
    assert es == es[..i] + ([es[i]] + es[i + 1..]);
  }

  lemma {:induction false} ApplyInTwo(prior: Option<StateRow>, a: seq<Event>, b: seq<Event>)
    ensures ApplyAll(prior, a + b) == ApplyAll(ApplyAll(prior, a), b)
  {
    if b == [] {
      assert a + b == a;
    } else {
      var n := |b| - 1;
      ApplyInTwo(prior, a, b[..n]);
      assert (a + b)[..|a| + n] == a + b[..n];
    }
  }

  /** Whichever run speaks first is the one a row begins in; after that only a
      status moves it. */
  lemma ARowBeginsWhereItsFirstEventSays(es: seq<Event>, i: nat)
    requires i < |es| && Speaks(es[i])
    ensures var row := ApplyAll(None, Foremost(es, i));
            && row.Some? && row.value.generation >= es[i].generation
            && (row.value.generation == es[i].generation
                || exists s :: s in es && s.status != Unstated && s.generation == row.value.generation)
  {
    var first, rest := es[i], es[..i] + es[i + 1..];
    ApplyInTwo(None, [first], rest);
    assert [first][..0] == [];
    var prior := Apply(None, first);
    assert ApplyAll(None, [first]) == prior;
    NeverGoesBack(prior, rest);
    EventsOverARow(prior.value, rest);
    assert forall x :: x in rest ==> x in es;
  }

  /** For a target met without a row, every order of arrival leaves the same run,
      status, observed time and session exactly when the highest run that says
      anything bears a status, or no lower run says anything. A target that has a
      row always agrees. */
  lemma EveryOrderAgreesExactly(prior: Option<StateRow>, es: seq<Event>)
    requires AnyRuns(es)
    ensures EveryOrderAgrees(prior, es) <==> prior.Some? || HighestRunStands(es)
  {
    if prior.Some? {
      OverARowEveryOrderAgrees(prior.value, es);
    } else if HighestRunStands(es) {
      forall fs | Reordered(es, fs) ensures SameBelief(ApplyAll(None, es), ApplyAll(None, fs)) {
        SameMembers(es, fs);
        EventsAfresh(es);
        EventsAfresh(fs);
        StandingIsOrderless(es, fs);
        StandingRunsAgree(es, fs);
      }
    } else {
      TwoOrdersDisagree(es);
    }
  }

  lemma TwoOrdersDisagree(es: seq<Event>)
    requires AnyRuns(es) && !HighestRunStands(es)
    ensures !EveryOrderAgrees(None, es)
  {
    var i := HighestSpeaker(es);
    var low :| low in es && Speaks(low) && low.generation < es[i].generation;
    var j :| 0 <= j < |es| && es[j] == low;
    ForemostReorders(es, i);
    ForemostReorders(es, j);
    ARowBeginsWhereItsFirstEventSays(es, i);
    ARowBeginsWhereItsFirstEventSays(es, j);
    hide Foremost, ApplyAll, HighestRunStands;
    var high, under := ApplyAll(None, Foremost(es, i)), ApplyAll(None, Foremost(es, j));
    assert high.value.generation > under.value.generation;
    BeliefJoins(ApplyAll(None, es), high, under);
    hide SameBelief;
  }

  lemma BeliefJoins(a: Option<StateRow>, x: Option<StateRow>, y: Option<StateRow>)
    requires x.Some? && y.Some? && x.value.generation != y.value.generation
    ensures !(SameBelief(a, x) && SameBelief(a, y))
  {
  }

  lemma HighestSpeaker(es: seq<Event>) returns (i: nat)
    requires !HighestRunStands(es)
    ensures i < |es| && Speaks(es[i])
    ensures forall x :: x in es && Speaks(x) ==> x.generation <= es[i].generation
    ensures forall s :: s in es && s.status != Unstated ==> s.generation < es[i].generation
    ensures exists low :: low in es && Speaks(low) && low.generation < es[i].generation
  {
    var x, y :| x in es && y in es && Speaks(x) && Speaks(y) && x.generation != y.generation;
    var a :| 0 <= a < |es| && es[a] == x;
    i := a;
    var k := 0;
    while k < |es|
      invariant 0 <= k <= |es| && i < |es| && Speaks(es[i])
      invariant forall m :: 0 <= m < k && Speaks(es[m]) ==> es[m].generation <= es[i].generation
    {
      if Speaks(es[k]) && es[k].generation > es[i].generation {
        i := k;
      }
      k := k + 1;
    }
    forall s | s in es && s.status != Unstated ensures s.generation < es[i].generation {
      assert !HighestStatus(es, s);
    }
    assert x.generation < es[i].generation || y.generation < es[i].generation;
  }

  /** A concrete pair: a reason heard from the next run, before the target has any
      row, hides the status of this one. */
  lemma OrderMattersAcrossRuns(status: Event, reason: Event)
    requires status.generation == 1 && status.status == Active && status.at == 10
    requires reason.generation == 2 && reason.status == Unstated && reason.reason == "contact_lost" && reason.at == 20
    ensures ApplyAll(None, [status, reason]).value.status == Active
    ensures ApplyAll(None, [reason, status]).value.status == Unstated
  {
    ApplyTwo(None, status, reason);
    ApplyTwo(None, reason, status);
  }
}
