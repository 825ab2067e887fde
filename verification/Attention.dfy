/** The attention policy: which conditions an observation opens and closes. */
module Attention {
  import opened Domain
  import opened Config

  datatype Observation = Observation(
    live: bool,
    status: Status,
    statusKnown: bool,
    statusSince: Time,
    lastActivityAt: Time,
    reason: string,
    visibility: string,
    exitRecorded: bool,
    thresholdFloor: Time)

  datatype Decision = Decision(open: seq<Condition>, close: seq<Condition>)

  predicate SuppressedBy(p: Policy, now: Time) {
    p.expectedQuietUntil.Some? && now < p.expectedQuietUntil.value
  }

  /** The moment a lapsed override ended, or the zero time. */
  function OverrideFloor(p: Policy, now: Time): Time {
    if p.expectedQuietUntil.None? || now < p.expectedQuietUntil.value then ZERO_TIME
    else p.expectedQuietUntil.value
  }

  /** The earliest moment a duration may be measured from. */
  function MeasuredFrom(o: Observation, p: Policy, now: Time): Time {
    LaterOf(OverrideFloor(p, now), o.thresholdFloor)
  }

  predicate VerifiedExit(o: Observation) {
    o.status == Exited && o.statusKnown
  }

  predicate Readable(o: Observation) {
    o.live && o.statusKnown
  }

  predicate Working(o: Observation) {
    Readable(o) && (o.status == Active || o.status == RunningTool)
  }

  predicate IdleLongEnough(o: Observation, p: Policy, now: Time) {
    && Readable(o)
    && o.status == IdleStatus
    && now >= LaterOf(o.statusSince, MeasuredFrom(o, p, now)) + p.idleGrace
  }

  /** Something already explains why nothing has been seen to happen. */
  predicate SilenceExplained(o: Observation, p: Policy, now: Time) {
    || (Readable(o) && o.status == WaitingInput)
    || IdleLongEnough(o, p, now)
    || VerifiedExit(o)
    || Working(o)
  }

  /** Whether a condition holds of an observation, asked about or not. */
  predicate Holds(o: Observation, p: Policy, now: Time, c: Condition) {
    match c
    case Exit => VerifiedExit(o)
    case ObservationLost => !VerifiedExit(o) && !o.live
    case InputRequested => Readable(o) && o.status == WaitingInput
    case Idle => IdleLongEnough(o, p, now) && !SuppressedBy(p, now)
    case NoProgress =>
      && Working(o)
      && p.noProgressAfter > 0
      && o.lastActivityAt != ZERO_TIME
      && now > LaterOf(o.lastActivityAt, MeasuredFrom(o, p, now)) + p.noProgressAfter
      && !SuppressedBy(p, now)
    case Quiet =>
      && o.live
      && !VerifiedExit(o)
      && !SilenceExplained(o, p, now)
      && now > LaterOf(o.lastActivityAt, MeasuredFrom(o, p, now)) + p.quietAfter
      && !SuppressedBy(p, now)
    case Overdue =>
      && !VerifiedExit(o)
      && !o.exitRecorded
      && p.deadline.Some?
      && now >= p.deadline.value
  }

  /** Records a condition as open or closed, if the policy asks about it. */
  function Set(d: Decision, p: Policy, c: Condition, holds: bool): Decision {
    if !p.AlertsOn(c) then d
    else if holds then d.(open := d.open + [c])
    else d.(close := d.close + [c])
  }

  /** Every condition in turn; the order shows only in the order of the lists. */
  function Decide(o: Observation, p: Policy, now: Time): Decision {
    var d := Decision([], []);
    var d := Set(d, p, Exit, Holds(o, p, now, Exit));
    var d := Set(d, p, ObservationLost, Holds(o, p, now, ObservationLost));
    var d := Set(d, p, InputRequested, Holds(o, p, now, InputRequested));
    var d := Set(d, p, Idle, Holds(o, p, now, Idle));
    var d := Set(d, p, NoProgress, Holds(o, p, now, NoProgress));
    var d := Set(d, p, Quiet, Holds(o, p, now, Quiet));
    Set(d, p, Overdue, Holds(o, p, now, Overdue))
  }

  ghost predicate Distinct(cs: seq<Condition>) {
    forall i, j :: 0 <= i < j < |cs| ==> cs[i] != cs[j]
  }

  /** The decision about the conditions `cs`, in that order. */
  ghost function DecideOn(o: Observation, p: Policy, now: Time, cs: seq<Condition>): Decision {
    if cs == [] then Decision([], [])
    else
      var n := |cs| - 1;
      Set(DecideOn(o, p, now, cs[..n]), p, cs[n], Holds(o, p, now, cs[n]))
  }

  lemma {:induction false} DecideOnIsExact(o: Observation, p: Policy, now: Time, cs: seq<Condition>)
    requires Distinct(cs)
    ensures forall c :: c in DecideOn(o, p, now, cs).open <==> c in cs && p.AlertsOn(c) && Holds(o, p, now, c)
    ensures forall c :: c in DecideOn(o, p, now, cs).close <==> c in cs && p.AlertsOn(c) && !Holds(o, p, now, c)
    ensures Distinct(DecideOn(o, p, now, cs).open) && Distinct(DecideOn(o, p, now, cs).close)
  {
    if cs == [] {
    } else {
      var n := |cs| - 1;
      DecideOnIsExact(o, p, now, cs[..n]);
      assert cs == cs[..n] + [cs[n]];
      var d := DecideOn(o, p, now, cs[..n]);
      assert forall x :: x in d.open + [cs[n]] <==> x in d.open || x == cs[n];
      assert forall x :: x in d.close + [cs[n]] <==> x in d.close || x == cs[n];
    }
  }

  lemma DecideOnOneMore(o: Observation, p: Policy, now: Time, cs: seq<Condition>, c: Condition)
    ensures DecideOn(o, p, now, cs + [c]) == Set(DecideOn(o, p, now, cs), p, c, Holds(o, p, now, c))
  {
    assert (cs + [c])[..|cs|] == cs;
  }

  /** Every condition the policy asks about is in exactly one of the two lists,
      once, and which one is decided by whether it holds. */
  lemma DecideIsExact(o: Observation, p: Policy, now: Time)
    ensures forall c :: c in Decide(o, p, now).open <==> p.AlertsOn(c) && Holds(o, p, now, c)
    ensures forall c :: c in Decide(o, p, now).close <==> p.AlertsOn(c) && !Holds(o, p, now, c)
    ensures Distinct(Decide(o, p, now).open) && Distinct(Decide(o, p, now).close)
  {
    var order := [Exit, ObservationLost, InputRequested, Idle, NoProgress, Quiet, Overdue];
    DecideOnIsExact(o, p, now, order);
    DecideIsInOrder(o, p, now);
    forall c: Condition ensures c in order {
      EveryConditionIsListed(c);
    }
  }

  lemma EveryConditionIsListed(c: Condition)
    ensures c in [Exit, ObservationLost, InputRequested, Idle, NoProgress, Quiet, Overdue]
  {
    match c
    case Exit =>
    case ObservationLost =>
    case InputRequested =>
    case Idle =>
    case NoProgress =>
    case Quiet =>
    case Overdue =>
  }

  lemma DecideIsInOrder(o: Observation, p: Policy, now: Time)
    ensures Decide(o, p, now)
         == DecideOn(o, p, now, [Exit, ObservationLost, InputRequested, Idle, NoProgress, Quiet, Overdue])
  {
    DecideOnOneMore(o, p, now, [], Exit);
    DecideOnOneMore(o, p, now, [Exit], ObservationLost);
    DecideOnOneMore(o, p, now, [Exit, ObservationLost], InputRequested);
    DecideOnOneMore(o, p, now, [Exit, ObservationLost, InputRequested], Idle);
    DecideOnOneMore(o, p, now, [Exit, ObservationLost, InputRequested, Idle], NoProgress);
    DecideOnOneMore(o, p, now, [Exit, ObservationLost, InputRequested, Idle, NoProgress], Quiet);
    DecideOnOneMore(o, p, now, [Exit, ObservationLost, InputRequested, Idle, NoProgress, Quiet], Overdue);
    assert [] + [Exit] == [Exit];
    assert [Exit] + [ObservationLost] == [Exit, ObservationLost];
    assert [Exit, ObservationLost] + [InputRequested] == [Exit, ObservationLost, InputRequested];
    assert [Exit, ObservationLost, InputRequested] + [Idle] == [Exit, ObservationLost, InputRequested, Idle];
    assert [Exit, ObservationLost, InputRequested, Idle] + [NoProgress]
        == [Exit, ObservationLost, InputRequested, Idle, NoProgress];
    assert [Exit, ObservationLost, InputRequested, Idle, NoProgress] + [Quiet]
        == [Exit, ObservationLost, InputRequested, Idle, NoProgress, Quiet];
    assert [Exit, ObservationLost, InputRequested, Idle, NoProgress, Quiet] + [Overdue]
        == [Exit, ObservationLost, InputRequested, Idle, NoProgress, Quiet, Overdue];
  }

  // ---- When each condition opens, by what was observed ----

  /** The last of the moments. */
  function Latest(ts: seq<Time>): (r: Time)
    requires ts != []
    ensures r in ts && forall t :: t in ts ==> t <= r
  {
    if |ts| == 1 then ts[0]
    else
      var rest := Latest(ts[1..]);
      assert ts == [ts[0]] + ts[1..];
      if ts[0] > rest then ts[0] else rest
  }

  /** The end of an override, lapsed or not; the zero time without one. */
  function QuietEnd(p: Policy): Time {
    match p.expectedQuietUntil case None => ZERO_TIME case Some(t) => t
  }

  /** So long after `since`, the floor or the override's end, whichever came last;
      and never while an override is in force. */
  function MomentAfter(o: Observation, p: Policy, since: Time, howLong: int): Time {
    var moment := Latest([since, o.thresholdFloor, QuietEnd(p)]) + howLong;
    if p.expectedQuietUntil.Some? then Latest([QuietEnd(p), moment]) else moment
  }

  /** The first moment an idle session opens idle: a grace after it became so. */
  function IdleFrom(o: Observation, p: Policy): Time {
    MomentAfter(o, p, o.statusSince, p.idleGrace)
  }

  /** The first moment a silence is longer than the threshold. */
  function SilentFrom(o: Observation, p: Policy, threshold: int): Time {
    MomentAfter(o, p, o.lastActivityAt, threshold + 1)
  }

  /** Whether a condition is open by the decision, for one the policy asks about. */
  predicate Opens(o: Observation, p: Policy, now: Time, c: Condition) {
    var gone := o.statusKnown && o.status == Exited;
    match c
    case Exit => gone
    case ObservationLost => !o.live && !gone
    case InputRequested => o.live && o.statusKnown && o.status == WaitingInput
    case Idle => o.live && o.statusKnown && o.status == IdleStatus && IdleFrom(o, p) <= now
    case NoProgress =>
      && o.live && o.statusKnown && o.status in {Active, RunningTool}
      && p.noProgressAfter > 0 && o.lastActivityAt != ZERO_TIME && SilentFrom(o, p, p.noProgressAfter) <= now
    case Quiet =>
      && o.live && SilentFrom(o, p, p.quietAfter) <= now
      && (o.statusKnown ==> o.status in {Unstated, UnknownStatus, IdleStatus})
      && (o.statusKnown && o.status == IdleStatus ==> now < IdleFrom(o, p))
    case Overdue =>
      !gone && !o.exitRecorded && p.deadline.Some? && p.deadline.value <= now
  }

  /** Each condition is open from one moment on, which the observation and the
      policy fix: nothing else of the present matters, not even whether an override
      is in force. Quiet ends where idle begins. */
  lemma EachOpensFromOneMoment(o: Observation, p: Policy, now: Time)
    ensures forall c :: c in Decide(o, p, now).open <==> c in p.alertOn && Opens(o, p, now, c)
    ensures forall c :: c in Decide(o, p, now).close <==> c in p.alertOn && !Opens(o, p, now, c)
  {
    DecideIsExact(o, p, now);
    forall c ensures Holds(o, p, now, c) <==> Opens(o, p, now, c) {
      HoldsFromOneMoment(o, p, now, c);
    }
  }

  lemma HoldsFromOneMoment(o: Observation, p: Policy, now: Time, c: Condition)
    ensures Holds(o, p, now, c) <==> Opens(o, p, now, c)
  {
    hide MomentAfter;
    MomentReached(o, p, o.statusSince, p.idleGrace, now);
    MomentReached(o, p, o.lastActivityAt, p.noProgressAfter + 1, now);
    MomentReached(o, p, o.lastActivityAt, p.quietAfter + 1, now);
  }

  lemma MomentReached(o: Observation, p: Policy, since: Time, howLong: int, now: Time)
    ensures MomentAfter(o, p, since, howLong) <= now <==>
              !SuppressedBy(p, now) && LaterOf(since, MeasuredFrom(o, p, now)) + howLong <= now
  {
    var three, moment := [since, o.thresholdFloor, QuietEnd(p)], Latest([since, o.thresholdFloor, QuietEnd(p)]) + howLong;
    var two := [QuietEnd(p), moment];
    assert three[0] in three && three[1] in three && three[2] in three;
    assert two[0] in two && two[1] in two;
  }

  /** Works out one condition after another, each filling the decision in. */
  method Evaluate(o: Observation, p: Policy, now: Time) returns (d: Decision)
    ensures d == Decide(o, p, now)
    ensures forall c :: c in d.open <==> c in p.alertOn && Opens(o, p, now, c)
    ensures forall c :: c in d.close <==> c in p.alertOn && !Opens(o, p, now, c)
  {
    EachOpensFromOneMoment(o, p, now);
    hide Opens;
    d := Decision([], []);
    var suppressed := SuppressedBy(p, now);
    var from := LaterOf(OverrideFloor(p, now), o.thresholdFloor);
    var exited := o.status == Exited && o.statusKnown;
    var inContact := o.live;
    var readable := o.live && o.statusKnown;

    d := Set(d, p, Exit, exited);
    d := Set(d, p, ObservationLost, !exited && !inContact);

    var waiting := readable && o.status == WaitingInput;
    d := Set(d, p, InputRequested, waiting);

    var idle := readable && o.status == IdleStatus && now >= LaterOf(o.statusSince, from) + p.idleGrace;
    d := Set(d, p, Idle, idle && !suppressed);

    var working := readable && (o.status == Active || o.status == RunningTool);
    var silenceExplained := waiting || idle || exited || working;

    var noProgress := && working && p.noProgressAfter > 0 && o.lastActivityAt != ZERO_TIME
                      && now > LaterOf(o.lastActivityAt, from) + p.noProgressAfter;
    d := Set(d, p, NoProgress, noProgress && !suppressed);

    var quiet := && inContact && !exited && !silenceExplained
                 && now > LaterOf(o.lastActivityAt, from) + p.quietAfter;
    d := Set(d, p, Quiet, quiet && !suppressed);

    var overdue := !exited && !o.exitRecorded && p.deadline.Some? && now >= p.deadline.value;
    d := Set(d, p, Overdue, overdue);
  }

  /** Apart from overdue, which is about the clock, no two conditions are ever
      opened by the same observation; and an exit is never overdue. */
  lemma AtMostOneExplanation(o: Observation, p: Policy, now: Time, a: Condition, b: Condition)
    requires a in Decide(o, p, now).open && b in Decide(o, p, now).open
    ensures a == b || a == Overdue || b == Overdue
    ensures !({a, b} == {Exit, Overdue})
  {
    DecideIsExact(o, p, now);
  }

  /** What a verified exit opens and closes depends on the alert list alone:
      not on the time, the thresholds or what else was seen. */
  lemma ExitDecision(o: Observation, p: Policy, now: Time, c: Condition)
    requires VerifiedExit(o)
    ensures c in Decide(o, p, now).open <==> c == Exit && p.AlertsOn(Exit)
    ensures c in Decide(o, p, now).close <==> c != Exit && p.AlertsOn(c)
  {
    DecideIsExact(o, p, now);
  }
}
