/** Why a target may not be current, when events of several runs arrive in any
    order: the exact extent to which that order can be seen in the reason. */
module Reasons {
  import opened Domain
  import opened TargetState
  import opened Arrivals

  predicate OnlyReason(e: Event) {
    e.status == Unstated && e.reason != ""
  }

  // ---- Two events ----

  /** Heard first, the reason is wiped by a status of a newer run than the row's;
      heard second, it stands. */
  predicate Loses(row: StateRow, s: Event, r: Event) {
    && s.status != Unstated && OnlyReason(r)
    && row.generation < s.generation <= r.generation && s.at < r.at
  }

  /** Two events over any row leave the same row in either order exactly when
      neither is such a reason to the other. */
  lemma TwoOverARowAgreeExactly(row: StateRow, a: Event, b: Event)
    requires Speaks(a) && Speaks(b) ==> a.at != b.at
    ensures ApplyAll(Some(row), [a, b]) == ApplyAll(Some(row), [b, a]) <==> !Loses(row, a, b) && !Loses(row, b, a)
  {
    ApplyTwo(Some(row), a, b);
    ApplyTwo(Some(row), b, a);
  }

  /** Over a row of run 1, a status of run 2 at 10, and a reason of that run or of
      the next at 20. */
  lemma AReasonIsLost(row: StateRow, status: Event, reason: Event)
    requires row.generation == 1 && row.reasonAt < 10
    requires status.generation == 2 && status.status == Active && status.at == 10 && status.reason == ""
    requires 2 <= reason.generation <= 3
    requires reason.status == Unstated && reason.reason == "contact_lost" && reason.at == 20
    ensures ApplyAll(Some(row), [status, reason]).value.reason == "contact_lost"
    ensures ApplyAll(Some(row), [reason, status]).value.reason == ""
  {
    ApplyTwo(Some(row), status, reason);
    ApplyTwo(Some(row), reason, status);
  }

  // ---- Any number of events ----

  /** What is said of a target: what is believed, and why it may not be current. */
  predicate SameSaid(x: Option<StateRow>, y: Option<StateRow>) {
    && SameBelief(x, y)
    && (x.Some? && y.Some? ==> x.value.reason == y.value.reason && x.value.reasonAt == y.value.reasonAt)
  }

  ghost predicate EveryOrderSaysTheSame(prior: Option<StateRow>, es: seq<Event>) {
    forall fs :: Reordered(es, fs) ==> SameSaid(ApplyAll(prior, es), ApplyAll(prior, fs))
  }

  ghost predicate EveryOrderLeavesOneRow(prior: Option<StateRow>, es: seq<Event>) {
    forall fs :: Reordered(es, fs) ==> ApplyAll(prior, es) == ApplyAll(prior, fs)
  }

  /** No two events say something at one time, and none before time began. */
  ghost predicate Apart(es: seq<Event>) {
    && (forall e :: e in es && Speaks(e) ==> e.at > 0)
    && (forall i, j :: 0 <= i < j < |es| && Speaks(es[i]) && Speaks(es[j]) ==> es[i].at != es[j].at)
  }

  /** A reason that stands once `s` is the newest status, and that `s` wipes when
      it comes later. */
  predicate Outlasts(r: Event, s: Event) {
    OnlyReason(r) && r.generation >= s.generation && r.at > s.at
  }

  /** No reason outlasts the newest status, if that one is of a newer run than the
      row's. */
  ghost predicate ReasonsStand(row: StateRow, es: seq<Event>) {
    forall s, r :: Newest(es, s) && s.generation > row.generation && r in es ==> !Outlasts(r, s)
  }

  // ---- Events after which the newest status has the last word ----

  predicate Older(e: Event, s: Event) {
    e.generation < s.generation || (e.generation == s.generation && e.at < s.at)
  }

  /** Nothing but `s` itself can follow or outlast it. */
  predicate GivesWay(e: Event, s: Event, met: bool) {
    || e == s || !Speaks(e)
    || (e.status != Unstated && Older(e, s))
    || (OnlyReason(e) && !Outlasts(e, s) && e.at != s.at && (met || e.generation <= s.generation))
  }

  predicate NotYet(row: Option<StateRow>, s: Event) {
    row.Some? ==>
      || row.value.generation < s.generation
      || (row.value.generation == s.generation && row.value.observedAt < s.at && row.value.reasonAt < s.at)
  }

  lemma {:induction false} TheNewestHasTheLastWord(prior: Option<StateRow>, es: seq<Event>, s: Event)
    requires s.status != Unstated && s.at > 0 && NotYet(prior, s)
    requires forall e :: e in es ==> GivesWay(e, s, prior.Some?)
    ensures if s in es then ApplyAll(prior, es) == Some(RowOf(s)) else NotYet(ApplyAll(prior, es), s)
    ensures prior.Some? ==> ApplyAll(prior, es).Some?
  {
    if es != [] {
      var n := |es| - 1;
      var rest, e := es[..n], es[n];
      assert es == rest + [e] && e in es;
      assert forall x :: x in es <==> x in rest || x == e;
      TheNewestHasTheLastWord(prior, rest, s);
    }
  }

  // ---- Events that never move the row to another run ----

  /** An event that can give the row its reason, as long as its run does not
      change. */
  predicate Counts(row: StateRow, e: Event) {
    || (e.status != Unstated && e.generation == row.generation && e.at > row.observedAt)
    || (OnlyReason(e) && e.generation >= row.generation && (e.generation == row.generation ==> e.at > row.observedAt))
  }

  /** The reason is that of the newest event that counts, or the row's own. */
  ghost predicate SaidOver(row: StateRow, es: seq<Event>, after: StateRow) {
    && after.generation == row.generation
    && row.observedAt <= after.observedAt
    && (after.observedAt == row.observedAt || after.observedAt <= after.reasonAt)
    && (forall e :: e in es && Counts(row, e) ==> e.at <= after.reasonAt)
    && ((after.reason == row.reason && after.reasonAt == row.reasonAt)
        || exists n :: n in es && Counts(row, n) && n.at > row.reasonAt && after.reason == n.reason && after.reasonAt == n.at)
  }

  lemma {:induction false} OneRunsReason(row: StateRow, es: seq<Event>)
    requires forall e :: e in es && e.status != Unstated ==> e.generation <= row.generation
    ensures ApplyAll(Some(row), es).Some? && SaidOver(row, es, ApplyAll(Some(row), es).value)
  {
    if es != [] {
      var n := |es| - 1;
      var rest, e := es[..n], es[n];
      assert es == rest + [e] && e in es;
      assert forall x :: x in es <==> x in rest || x == e;
      OneRunsReason(row, rest);
      OneMoreReason(row, rest, e, es, ApplyAll(Some(row), rest).value);
    }
  }

  lemma OneMoreReason(row: StateRow, rest: seq<Event>, e: Event, es: seq<Event>, before: StateRow)
    requires forall x :: x in es <==> x in rest || x == e
    requires e.status != Unstated ==> e.generation <= row.generation
    requires SaidOver(row, rest, before)
    ensures Apply(Some(before), e).Some? && SaidOver(row, es, Apply(Some(before), e).value)
  {
    var after := Apply(Some(before), e).value;
    if after.reason != before.reason || after.reasonAt != before.reasonAt {
      assert e in es && Counts(row, e);
    }
  }

  lemma SaidOnce(row: StateRow, es: seq<Event>, fs: seq<Event>, x: StateRow, y: StateRow)
    requires Apart(es) && (forall e :: e in es <==> e in fs)
    requires SaidOver(row, es, x) && SaidOver(row, fs, y)
    ensures x.reason == y.reason && x.reasonAt == y.reasonAt
  {
    if n :| n in es && Counts(row, n) && n.at > row.reasonAt && x.reason == n.reason && x.reasonAt == n.at {
      if m :| m in fs && Counts(row, m) && m.at > row.reasonAt && y.reason == m.reason && y.reasonAt == m.at {
        var i :| 0 <= i < |es| && es[i] == n;
        var j :| 0 <= j < |es| && es[j] == m;
        assert i == j;
      }
    }
  }

  // ---- Over a row ----

  lemma StandingReasonsAgree(row: StateRow, es: seq<Event>, fs: seq<Event>)
    requires Apart(es) && ReasonsStand(row, es) && Reordered(es, fs)
    ensures ApplyAll(Some(row), es) == ApplyAll(Some(row), fs)
  {
    SameMembers(es, fs);
    if s :| Newest(es, s) && s.generation > row.generation {
      TheLastWordIsOrderless(row, es, fs, s);
    } else {
      NoStatusPastTheRun(row, es);
      OneRunsReason(row, es);
      OneRunsReason(row, fs);
      var x, y := ApplyAll(Some(row), es).value, ApplyAll(Some(row), fs).value;
      SaidOnce(row, es, fs, x, y);
      assert AnyRuns(es);
      OverARowEveryOrderAgrees(row, es);
    }
  }

  lemma TheLastWordIsOrderless(row: StateRow, es: seq<Event>, fs: seq<Event>, s: Event)
    requires Apart(es) && ReasonsStand(row, es) && (forall e :: e in es <==> e in fs)
    requires Newest(es, s) && s.generation > row.generation
    ensures ApplyAll(Some(row), es) == ApplyAll(Some(row), fs) == Some(RowOf(s))
  {
    forall e | e in es ensures GivesWay(e, s, true) {
      assert !Outlasts(e, s);
      if Speaks(e) { OneTimeOneEvent(es, e, s); }
    }
    TheNewestHasTheLastWord(Some(row), es, s);
    TheNewestHasTheLastWord(Some(row), fs, s);
  }

  lemma OneTimeOneEvent(es: seq<Event>, a: Event, b: Event)
    requires Apart(es) && a in es && b in es && Speaks(a) && Speaks(b)
    ensures a.at == b.at ==> a == b
  {
    var i :| 0 <= i < |es| && es[i] == a;
    var j :| 0 <= j < |es| && es[j] == b;
    assert a.at == b.at ==> i == j;
  }

  /** The newest status there is, as long as there is one. */
  lemma {:induction false} SomeNewest(es: seq<Event>, e: Event)
    requires e in es && e.status != Unstated
    ensures exists s :: Newest(es, s)
  {
    var n := |es| - 1;
    var rest, last := es[..n], es[n];
    assert es == rest + [last];
    assert forall x :: x in es <==> x in rest || x == last;
    if x :| x in rest && x.status != Unstated {
      SomeNewest(rest, x);
      var s :| Newest(rest, s);
      if last.status != Unstated && !Older(last, s) && last.at != s.at {
        assert Newest(es, last);
      } else if last.status != Unstated && last.generation > s.generation {
        assert Newest(es, last);
      } else {
        assert Newest(es, s);
      }
    } else {
      assert Newest(es, last);
    }
  }

  lemma NoStatusPastTheRun(row: StateRow, es: seq<Event>)
    requires forall s :: Newest(es, s) ==> s.generation <= row.generation
    ensures forall e :: e in es && e.status != Unstated ==> e.generation <= row.generation
  {
    forall e | e in es && e.status != Unstated ensures e.generation <= row.generation {
      SomeNewest(es, e);
    }
  }

  // ---- Two orders that can be told apart ----

  /** Once the newest status has been met, later reasons only replace earlier
      ones. */
  lemma {:induction false} ReasonsOnlyMoveOn(row: StateRow, es: seq<Event>, bound: Time)
    requires forall e :: e in es ==> !Beats(Some(row), e)
    requires forall e :: e in es && OnlyReason(e) && e.generation >= row.generation ==> e.at < bound || e.at <= row.reasonAt
    ensures ApplyAll(Some(row), es).Some?
    ensures SameButReason(ApplyAll(Some(row), es).value, row)
    ensures row.reasonAt <= ApplyAll(Some(row), es).value.reasonAt
    ensures row.reasonAt < bound ==> ApplyAll(Some(row), es).value.reasonAt < bound
  {
    if es != [] {
      var n := |es| - 1;
      var rest, e := es[..n], es[n];
      assert es == rest + [e] && e in es;
      assert forall x :: x in rest ==> x in es;
      ReasonsOnlyMoveOn(row, rest, bound);
    }
  }

  /** Status then reason, and reason then status, before anything else. */
  lemma TheTwoOrdersDiffer(row: StateRow, s: Event, r: Event, rest: seq<Event>)
    requires s.status != Unstated && s.generation > row.generation && Outlasts(r, s)
    requires forall e :: e in rest && e.status != Unstated ==> Older(e, s) || (e.generation == s.generation && e.at <= s.at)
    requires forall e :: e in rest && Outlasts(e, s) ==> e.at < r.at
    ensures var x, y := ApplyAll(Some(row), [s, r] + rest), ApplyAll(Some(row), [r, s] + rest);
            x.Some? && y.Some? && x.value.reasonAt > y.value.reasonAt
  {
    ApplyInTwo(Some(row), [s, r], rest);
    ApplyInTwo(Some(row), [r, s], rest);
    ApplyTwo(Some(row), s, r);
    ApplyTwo(Some(row), r, s);
    var kept, lost := ApplyAll(Some(row), [s, r]).value, ApplyAll(Some(row), [r, s]).value;
    assert kept.reasonAt == r.at && lost == RowOf(s);
    hide ApplyAll, Apply, ApplyState, ApplyReason;
    ReasonsOnlyMoveOn(kept, rest, r.at);
    ReasonsOnlyMoveOn(lost, rest, r.at);
  }

  /** The latest of the reasons that outlast a status. */
  lemma LastToOutlast(es: seq<Event>, s: Event, some: Event) returns (i: nat)
    requires some in es && Outlasts(some, s)
    ensures i < |es| && Outlasts(es[i], s)
    ensures forall e :: e in es && Outlasts(e, s) ==> e.at <= es[i].at
  {
    i :| i < |es| && es[i] == some;
    var k := 0;
    while k < |es|
      invariant 0 <= k <= |es| && i < |es| && Outlasts(es[i], s)
      invariant forall m :: 0 <= m < k && Outlasts(es[m], s) ==> es[m].at <= es[i].at
    {
      if Outlasts(es[k], s) && es[k].at > es[i].at {
        i := k;
      }
      k := k + 1;
    }
  }

  /** Two events of a sequence, and the rest of it. */
  lemma TwoFirst(es: seq<Event>, a: Event, i: nat) returns (rest: seq<Event>)
    requires a in es && i < |es| && es[i] != a
    ensures multiset(es) == multiset{a} + multiset{es[i]} + multiset(rest)
  {
    var mid := es[..i] + es[i + 1..];
    ForemostReorders(es, i);
    assert multiset(es) == multiset{es[i]} + multiset(mid);
    assert a in multiset(es);
    assert a in multiset(mid);
    var k :| 0 <= k < |mid| && mid[k] == a;
    ForemostReorders(mid, k);
    rest := mid[..k] + mid[k + 1..];
  }

  lemma PartsReorder(es: seq<Event>, a: Event, b: Event, rest: seq<Event>)
    requires multiset(es) == multiset{a} + multiset{b} + multiset(rest)
    ensures Reordered(es, [a, b] + rest) && Reordered(es, [b, a] + rest)
    ensures forall e :: e in rest ==> e in es
  {
    forall e | e in rest ensures e in es {
      assert e in multiset(rest);
      assert e in multiset(es);
    }
  }

  lemma AnOutlastingReasonShows(row: StateRow, es: seq<Event>, s: Event, some: Event)
    requires Apart(es) && Newest(es, s) && s.generation > row.generation && some in es && Outlasts(some, s)
    ensures !EveryOrderSaysTheSame(Some(row), es)
  {
    var i := LastToOutlast(es, s, some);
    var r := es[i];
    var rest := TwoFirst(es, s, i);
    PartsReorder(es, s, r, rest);
    OnlyOnce(es, r, i);
    assert r !in multiset(rest);
    forall e | e in rest && Outlasts(e, s) ensures e.at < r.at {
      OneTimeOneEvent(es, e, r);
    }
    TheTwoOrdersDiffer(row, s, r, rest);
    hide ApplyAll;
    var x, y := ApplyAll(Some(row), [s, r] + rest), ApplyAll(Some(row), [r, s] + rest);
    assert !(SameSaid(ApplyAll(Some(row), es), x) && SameSaid(ApplyAll(Some(row), es), y));
  }

  lemma OnlyOnce(es: seq<Event>, e: Event, i: nat)
    requires Apart(es) && i < |es| && es[i] == e && Speaks(e)
    ensures multiset(es)[e] == 1
  {
    assert es == es[..i] + [e] + es[i + 1..];
    assert e !in es[..i] && e !in es[i + 1..];
  }

  /** Over a row, every order of events of any runs leaves the same reason and
      time, and indeed the same row, exactly when no reason of the newest status's
      run or a later is later than it, or that status is not of a newer run than
      the row's. */
  lemma OverARowReasonsAgreeExactly(row: StateRow, es: seq<Event>)
    requires Apart(es)
    ensures EveryOrderSaysTheSame(Some(row), es) <==> ReasonsStand(row, es)
    ensures EveryOrderLeavesOneRow(Some(row), es) <==> ReasonsStand(row, es)
  {
    hide Apart, ApplyAll;
    if ReasonsStand(row, es) {
      forall fs | Reordered(es, fs) ensures ApplyAll(Some(row), es) == ApplyAll(Some(row), fs) {
        StandingReasonsAgree(row, es, fs);
      }
    } else {
      var s, r :| Newest(es, s) && s.generation > row.generation && r in es && Outlasts(r, s);
      AnOutlastingReasonShows(row, es, s, r);
      assert EveryOrderLeavesOneRow(Some(row), es) ==> EveryOrderSaysTheSame(Some(row), es);
    }
  }

  // ---- Without a row ----

  ghost predicate OneRunSpeaks(es: seq<Event>) {
    forall x, y :: x in es && y in es && Speaks(x) && Speaks(y) ==> x.generation == y.generation
  }

  /** The highest run that says anything bears a status, and none of its reasons
      is later than its newest. */
  ghost predicate HighestStatusStands(es: seq<Event>) {
    exists s :: Newest(es, s) && HighestStatus(es, s) && forall r :: r in es ==> !Outlasts(r, s)
  }

  lemma TheHighestHasTheLastWord(es: seq<Event>, fs: seq<Event>, s: Event)
    requires Apart(es) && (forall e :: e in es <==> e in fs)
    requires Newest(es, s) && HighestStatus(es, s) && forall r :: r in es ==> !Outlasts(r, s)
    ensures ApplyAll(None, es) == ApplyAll(None, fs) == Some(RowOf(s))
  {
    forall e | e in es ensures GivesWay(e, s, false) {
      if Speaks(e) { OneTimeOneEvent(es, e, s); }
    }
    TheNewestHasTheLastWord(None, es, s);
    TheNewestHasTheLastWord(None, fs, s);
  }

  /** What a target has before one run is heard of, as a row. */
  function Unheard(g: int): StateRow {
    StateRow("", g, Unstated, 0, "", "unavailable", "", "", 0)
  }

  lemma {:induction false} OneRunAfresh(es: seq<Event>, g: int)
    requires forall e :: e in es && Speaks(e) ==> e.generation == g && e.at > 0
    ensures if exists e :: e in es && Speaks(e)
            then SameSaid(ApplyAll(None, es), ApplyAll(Some(Unheard(g)), es)) && ApplyAll(None, es).Some?
            else ApplyAll(None, es).None? && ApplyAll(Some(Unheard(g)), es) == Some(Unheard(g))
  {
    if es != [] {
      var n := |es| - 1;
      var rest, e := es[..n], es[n];
      assert es == rest + [e] && e in es;
      assert forall x :: x in es <==> x in rest || x == e;
      OneRunAfresh(rest, g);
    }
  }

  lemma OneRunSaysTheSame(es: seq<Event>, fs: seq<Event>)
    requires Apart(es) && OneRunSpeaks(es) && Reordered(es, fs)
    ensures SameSaid(ApplyAll(None, es), ApplyAll(None, fs))
  {
    SameMembers(es, fs);
    var g := if e :| e in es && Speaks(e) then e.generation else 0;
    OneRunAfresh(es, g);
    OneRunAfresh(fs, g);
    assert ReasonsStand(Unheard(g), es);
    StandingReasonsAgree(Unheard(g), es, fs);
  }

  /** A reason that outlasts the highest status shows once a lower run has spoken. */
  lemma ALowerRunLetsItShow(es: seq<Event>, s: Event, r: Event, low: Event)
    requires Apart(es) && Newest(es, s) && HighestStatus(es, s) && r in es && Outlasts(r, s)
    requires low in es && Speaks(low) && low.generation < s.generation
    ensures !EveryOrderSaysTheSame(None, es)
  {
    var j :| 0 <= j < |es| && es[j] == low;
    var rest := es[..j] + es[j + 1..];
    LessOne(es, j, rest);
    AfterOne(low, rest);
    var row := Apply(None, low).value;
    assert Newest(rest, s) && s.generation > row.generation && r in rest && Outlasts(r, s);
    assert !ReasonsStand(row, rest);
    OverARowReasonsAgreeExactly(row, rest);
    DifferAfterOne(es, low, rest, row);
  }

  lemma DifferAfterOne(es: seq<Event>, low: Event, rest: seq<Event>, row: StateRow)
    requires Speaks(low) && Apply(None, low) == Some(row) && !EveryOrderSaysTheSame(Some(row), rest)
    requires multiset(es) == multiset{low} + multiset(rest)
    ensures !EveryOrderSaysTheSame(None, es)
  {
    hide ApplyAll, Apply, SameBelief;
    var fs :| Reordered(rest, fs) && !SameSaid(ApplyAll(Some(row), rest), ApplyAll(Some(row), fs));
    AfterOne(low, rest);
    AfterOne(low, fs);
    assert Reordered(es, [low] + rest) && Reordered(es, [low] + fs);
    var x, y := ApplyAll(None, [low] + rest), ApplyAll(None, [low] + fs);
    SameSaidJoins(ApplyAll(None, es), x, y);
  }

  lemma SameSaidJoins(a: Option<StateRow>, x: Option<StateRow>, y: Option<StateRow>)
    ensures SameSaid(a, x) && SameSaid(a, y) ==> SameSaid(x, y)
  {
  }

  lemma AfterOne(low: Event, rest: seq<Event>)
    requires Speaks(low)
    ensures Apply(None, low).Some? && ApplyAll(None, [low] + rest) == ApplyAll(Apply(None, low), rest)
  {
    ApplyInTwo(None, [low], rest);
    assert [low][..0] == [];
    assert ApplyAll(None, [low]) == Apply(None, low);
  }

  lemma LessOne(es: seq<Event>, j: nat, rest: seq<Event>)
    requires Apart(es) && j < |es| && rest == es[..j] + es[j + 1..]
    ensures Apart(rest) && multiset(es) == multiset{es[j]} + multiset(rest)
    ensures forall e :: e in es && e != es[j] ==> e in rest
    ensures forall s :: Newest(es, s) && s != es[j] ==> Newest(rest, s)
  {
    ForemostReorders(es, j);
    assert multiset(es) == multiset{es[j]} + multiset(rest);
    forall e ensures (e in rest ==> e in es) && (e in es && e != es[j] ==> e in rest) {
      assert (e in rest <==> e in multiset(rest)) && (e in es <==> e in multiset(es));
    }
    LessOneIsApart(es, j, rest);
    hide Apart;
  }

  lemma LessOneIsApart(es: seq<Event>, j: nat, rest: seq<Event>)
    requires Apart(es) && j < |es| && rest == es[..j] + es[j + 1..]
    ensures Apart(rest)
  {
    hide Speaks;
    assert forall i :: 0 <= i < |rest| ==> rest[i] == if i < j then es[i] else es[i + 1];
  }

  /** Met without a row, every order of events of any runs says the same, the
      reason and its time included, exactly when one run alone says anything, or
      the highest that does bears a status and none of its reasons is later than
      its newest. Over a row, exactly when its reasons stand. */
  lemma EveryOrderSaysTheSameExactly(prior: Option<StateRow>, es: seq<Event>)
    requires Apart(es)
    ensures EveryOrderSaysTheSame(prior, es) <==>
              match prior
              case Some(row) => ReasonsStand(row, es)
              case None => OneRunSpeaks(es) || HighestStatusStands(es)
  {
    hide ApplyAll;
    if prior.Some? {
      OverARowReasonsAgreeExactly(prior.value, es);
    } else if OneRunSpeaks(es) || HighestStatusStands(es) {
      forall fs | Reordered(es, fs) ensures SameSaid(ApplyAll(None, es), ApplyAll(None, fs)) {
        if OneRunSpeaks(es) {
          OneRunSaysTheSame(es, fs);
        } else {
          SameMembers(es, fs);
          var s :| Newest(es, s) && HighestStatus(es, s) && forall r :: r in es ==> !Outlasts(r, s);
          TheHighestHasTheLastWord(es, fs, s);
        }
      }
    } else {
      SomeOrderSaysOtherwise(es);
    }
  }

  lemma SomeOrderSaysOtherwise(es: seq<Event>)
    requires Apart(es) && !OneRunSpeaks(es) && !HighestStatusStands(es)
    ensures !EveryOrderSaysTheSame(None, es)
  {
    hide ApplyAll;
    assert AnyRuns(es);
    if h :| HighestStatus(es, h) {
      SomeNewest(es, h);
      var s :| Newest(es, s);
      assert HighestStatus(es, s);
      var r :| r in es && Outlasts(r, s);
      var x, y :| x in es && y in es && Speaks(x) && Speaks(y) && x.generation != y.generation;
      ALowerRunLetsItShow(es, s, r, if x.generation < s.generation then x else y);
    } else {
      EveryOrderAgreesExactly(None, es);
      assert EveryOrderSaysTheSame(None, es) ==> EveryOrderAgrees(None, es);
    }
  }
}
