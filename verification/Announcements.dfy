/** How often the orchestrator is told: bounded retries, and only of a definite
    failure, over any run and across restarts. Every store call is taken to
    succeed: a crash between an attempt and its record is not part of a run. */
module Announcements {
  import opened Domain
  import opened Incidents
  import opened Store
  import opened World
  import Delivery

  /** What each attempt about one incident established, in order. */
  function OutcomesOf(calls: seq<Call>, id: nat): seq<Outcome> {
    if calls == [] then []
    else
      var last := calls[|calls| - 1];
      OutcomesOf(calls[..|calls| - 1], id) + if last.incident == id then [last.outcome] else []
  }

  function Bound(maxAttempts: int): nat {
    if maxAttempts > 1 then maxAttempts else 1
  }

  /** What is recorded about an incident says exactly what was attempted. */
  ghost predicate Accounted(table: map<nat, Delivery.Record>, id: nat, notified: bool, os: seq<Outcome>, maxAttempts: int) {
    && |os| <= Bound(maxAttempts)
    && (forall k :: 0 <= k < |os| - 1 ==> os[k] == Failed)
    && (id in table <==> os != [])
    && (os != [] ==> table[id].attempts == |os| && table[id].outcome == os[|os| - 1])
    && (notified <==> os != [] && os[|os| - 1] == Delivered)
  }

  ghost predicate AllAccounted(w: World, maxAttempts: int) {
    && (forall i :: 0 <= i < |w.calls| ==> w.calls[i].incident < |w.db.incs|)
    && (forall id :: id in w.db.deliveries ==> id < |w.db.incs|)
    && (forall id: nat :: id < |w.db.incs| ==>
          Accounted(w.db.deliveries, id, w.db.incs[id].notifiedAt.Some?, OutcomesOf(w.calls, id), maxAttempts))
  }

  lemma {:induction false} NoCallsNoOutcomes(calls: seq<Call>, id: nat)
    requires forall i :: 0 <= i < |calls| ==> calls[i].incident != id
    ensures OutcomesOf(calls, id) == []
  {
    if calls != [] {
      NoCallsNoOutcomes(calls[..|calls| - 1], id);
    }
  }

  lemma OutcomesOfOneMore(calls: seq<Call>, c: Call, id: nat)
    ensures OutcomesOf(calls + [c], id) == OutcomesOf(calls, id) + if c.incident == id then [c.outcome] else []
  {
    assert (calls + [c])[..|calls|] == calls;
  }

  /** The incidents may change in any way but in whether they were announced. */
  lemma AnnouncedAlike(w: World, v: World, maxAttempts: int)
    requires AllAccounted(w, maxAttempts)
    requires v.calls == w.calls && v.db.deliveries == w.db.deliveries && |v.db.incs| >= |w.db.incs|
    requires forall i :: 0 <= i < |w.db.incs| ==> v.db.incs[i].notifiedAt == w.db.incs[i].notifiedAt
    requires forall i :: |w.db.incs| <= i < |v.db.incs| ==> v.db.incs[i].notifiedAt.None?
    ensures AllAccounted(v, maxAttempts)
  {
    forall id: nat | id < |v.db.incs|
      ensures Accounted(v.db.deliveries, id, v.db.incs[id].notifiedAt.Some?, OutcomesOf(v.calls, id), maxAttempts)
    {
      if id < |w.db.incs| {
        assert Accounted(w.db.deliveries, id, w.db.incs[id].notifiedAt.Some?, OutcomesOf(w.calls, id), maxAttempts);
      } else {
        NoCallsNoOutcomes(v.calls, id);
      }
    }
  }

  lemma DeliverAccounts(w: World, p: Pass, c: Condition, id: nat, maxAttempts: int)
    requires AllAccounted(w, maxAttempts) && id < |w.db.incs|
    ensures AllAccounted(Deliver(w, p, c, id, maxAttempts), maxAttempts)
  {
    var v := Deliver(w, p, c, id, maxAttempts);
    if Delivery.ShouldAttempt(w.db.deliveries, id, maxAttempts) {
      var call := Call(id, Answer(p.outcomes, c));
      forall x: nat | x < |v.db.incs|
        ensures Accounted(v.db.deliveries, x, v.db.incs[x].notifiedAt.Some?, OutcomesOf(v.calls, x), maxAttempts)
      {
        OutcomesOfOneMore(w.calls, call, x);
        assert Accounted(w.db.deliveries, x, w.db.incs[x].notifiedAt.Some?, OutcomesOf(w.calls, x), maxAttempts);
      }
    }
  }

  lemma OpenOneAccounts(w: World, p: Pass, g: int, c: Condition, maxAttempts: int)
    requires AllAccounted(w, maxAttempts)
    ensures AllAccounted(OpenOne(w, p, g, c, maxAttempts), maxAttempts)
  {
    var touched := w.(db := w.db.(incs := OpenOrTouch(w.db.incs, p.target, c, g, p.now)));
    AnnouncedAlike(w, touched, maxAttempts);
    DeliverAccounts(touched, p, c, TouchedId(w.db.incs, p.target, c, g), maxAttempts);
  }

  lemma {:induction false} OpenFirstAccounts(w: World, p: Pass, g: int, open: seq<Condition>, n: nat, maxAttempts: int)
    requires n <= |open| && AllAccounted(w, maxAttempts)
    ensures AllAccounted(OpenFirst(w, p, g, open, n, maxAttempts), maxAttempts)
  {
    if n > 0 {
      OpenFirstAccounts(w, p, g, open, n - 1, maxAttempts);
      OpenOneAccounts(OpenFirst(w, p, g, open, n - 1, maxAttempts), p, g, open[n - 1], maxAttempts);
    }
  }

  lemma PassAccounts(w: World, p: Pass, maxAttempts: int, skipping: bool)
    requires AllAccounted(w, maxAttempts)
    ensures AllAccounted(ObserveTarget(w, p, maxAttempts, skipping), maxAttempts)
  {
    var g, d := PassGeneration(w, p), PassDecision(w, p);
    var noticed := w.(mem := Notice(w.mem, p.target, Observed(p.sighting), p.now));
    var written := noticed.(db := Recorded(w.db, EventOf(p, g)));
    AnnouncedAlike(w, written, maxAttempts);
    OpenFirstAccounts(written, p, g, d.open, |d.open|, maxAttempts);
    AnnouncedAlike(OpenFirst(written, p, g, d.open, |d.open|, maxAttempts), Applied(written, p, d, g, maxAttempts), maxAttempts);
  }

  /** Kept by any run, restarts included: at most max(1, maxAttempts) calls per
      incident; every one but the last definitely failed; the stored count is the
      number of calls; and the incident is marked notified exactly when the last of
      them was delivered. */
  lemma {:induction false} EveryCallIsAccountedFor(w: World, steps: seq<Step>, maxAttempts: int, skipping: bool)
    requires AllAccounted(w, maxAttempts)
    ensures AllAccounted(Run(w, steps, maxAttempts, skipping), maxAttempts)
  {
    if steps != [] {
      var n := |steps| - 1;
      EveryCallIsAccountedFor(w, steps[..n], maxAttempts, skipping);
      var v := Run(w, steps[..n], maxAttempts, skipping);
      match steps[n]
      case Observe(p) => PassAccounts(v, p, maxAttempts, skipping);
      case Follow(f, e) => AnnouncedAlike(v, Take(v, steps[n], maxAttempts, skipping), maxAttempts);
      case Ack(id, at) => AnnouncedAlike(v, Take(v, steps[n], maxAttempts, skipping), maxAttempts);
      case Unask(target, at) => AnnouncedAlike(v, Take(v, steps[n], maxAttempts, skipping), maxAttempts);
      case _ =>
    }
  }

  lemma AnEmptyInstanceIsAccounted(maxAttempts: int)
    ensures AllAccounted(World(EMPTY_DB, FRESH_MEMORY, []), maxAttempts)
  {
  }
}
