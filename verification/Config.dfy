/** A watched target, its policy, and how a deadline is written and resolved. */
module Config {
  import opened Domain

  datatype Policy = Policy(
    alertOn: seq<Condition>,
    quietAfter: int,
    idleGrace: int,
    noProgressAfter: int,
    expectedQuietUntil: Option<Time>,
    expectedQuietReason: string,
    deadline: Option<Time>,
    deadlineAfter: int,
    fileDeadline: Option<Time>,
    deadlineByUpdate: bool)
  {
    predicate AlertsOn(c: Condition) {
      c in alertOn
    }
  }

  datatype Attachment = Attachment(session: string, pid: int, procStart: string)

  datatype Target = Target(
    id: string,
    provider: string,
    attachment: Attachment,
    workspace: string,
    labels: map<string, string>,
    policy: Policy)

  /** No deadline is set, or due to be, that the alert list would never report. */
  predicate ValidDeadline(p: Policy) {
    var pending := p.deadlineAfter > 0 && p.deadline.None? && !p.deadlineByUpdate;
    p.deadline.Some? || pending ==> p.AlertsOn(Overdue)
  }

  /** A deadline given as a length of time, made the moment that far after `now`. */
  function ResolveDeadline(p: Policy, now: Time): Policy {
    if p.deadlineAfter > 0 && p.deadline.None? then
      p.(deadline := Some(now + p.deadlineAfter))
    else
      p
  }

  const MAX_DEADLINE_SECONDS := 10 * 365 * 24 * 60 * 60

  /** The deadline half of building a policy from a file: an absolute deadline
      and a relative one are alternatives, the relative one is bounded, and the
      outcome must be able to alert. `None` is the refusal. */
  function BuildDeadline(p: Policy, deadline: Option<Time>, afterSeconds: Option<int>): (r: Option<Policy>)
    requires p.deadline.None? && p.fileDeadline.None? && p.deadlineAfter == 0 && !p.deadlineByUpdate
    ensures r.Some? ==> FileFormat(r.value)
    ensures r.Some? ==>
              && r.value.deadline == deadline && r.value.fileDeadline == deadline
              && r.value.deadlineAfter == (match afterSeconds case None => 0 case Some(s) => 1000 * s)
              && r.value == p.(deadline := deadline, fileDeadline := deadline, deadlineAfter := r.value.deadlineAfter)
    ensures r.None? <==>
            || (deadline.Some? && afterSeconds.Some?)
            || (afterSeconds.Some? && !(0 < afterSeconds.value <= MAX_DEADLINE_SECONDS))
            || ((deadline.Some? || afterSeconds.Some?) && Overdue !in p.alertOn)
  {
    if deadline.Some? && afterSeconds.Some? then
      None
    else if afterSeconds.Some? && (afterSeconds.value <= 0 || afterSeconds.value > MAX_DEADLINE_SECONDS) then
      None
    else
      var built :=
        if deadline.Some? then p.(deadline := deadline, fileDeadline := deadline)
        else if afterSeconds.Some? then p.(deadlineAfter := afterSeconds.value * 1000)
        else p;
      if ValidDeadline(built) then Some(built) else None
  }

  /** What a policy read from a configuration file always looks like. */
  predicate FileFormat(p: Policy) {
    && p.deadline == p.fileDeadline
    && p.deadlineAfter >= 0
    && (p.deadlineAfter > 0 ==> p.fileDeadline.None?)
    && !p.deadlineByUpdate
    && ValidDeadline(p)
  }
}
