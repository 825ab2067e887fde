/** Calls over one stream of replies: any number of callers and one reader, each
    step of each taken in any order. */
module Rpc {
  import opened Domain

  /** One line that carried an id, or none: a notification has none. */
  datatype Message = Message(id: Option<int>, body: string)

  /** Where the reader is: between lines, about to hand a message to a waiter's
      channel, or at the end of the stream. */
  datatype Reader = Reading | Handing(id: int, message: Message) | Ended

  datatype Outcome = Pending | Replied(message: Message) | Unanswered

  /** A channel is known by the id it was made for, since each call makes its own.
      `waiters` is the table under the lock; `slots` are the one-place channels;
      `calls` is what each call has come to. */
  datatype Conn = Conn(
    nextId: int,
    waiters: set<int>,
    slots: map<int, seq<Message>>,
    reader: Reader,
    calls: map<int, Outcome>)

  const CAPACITY := 1

  const FRESH := Conn(1, {}, map[], Reading, map[])

  datatype Step =
    | Begin                    // a call takes an id, makes its channel and registers
    | GiveUp(id: int)          // sending the request failed, or the stream was seen to end
    | Take(id: int)            // a call receives from its channel
    | Leave(id: int)           // a call that has returned deregisters
    | Line(message: Message)   // the reader takes a line and looks its waiter up
    | Hand                     // the reader sends on the channel
    | Eof                      // the stream ends

  /** Whether a step can happen. The reader's send waits for room; nothing else
      waits for anything but its turn. */
  predicate Enabled(c: Conn, s: Step) {
    match s
    case Begin => true
    case GiveUp(id) => id in c.calls && c.calls[id].Pending?
    case Take(id) => id in c.calls && c.calls[id].Pending? && id in c.slots && c.slots[id] != []
    case Leave(id) => id in c.calls && !c.calls[id].Pending?
    case Line(_) => c.reader.Reading?
    case Hand => c.reader.Handing? && c.reader.id in c.slots && |c.slots[c.reader.id]| < CAPACITY
    case Eof => c.reader.Reading?
  }

  function Do(c: Conn, s: Step): Conn
    requires Enabled(c, s)
  {
    match s
    case Begin =>
      var id := c.nextId;
      c.(nextId := id + 1, waiters := c.waiters + {id}, slots := c.slots[id := []], calls := c.calls[id := Pending])
    case GiveUp(id) => c.(calls := c.calls[id := Unanswered])
    case Take(id) => c.(calls := c.calls[id := Replied(c.slots[id][0])], slots := c.slots[id := c.slots[id][1..]])
    case Leave(id) => c.(waiters := c.waiters - {id})
    case Line(m) =>
      if m.id.Some? && m.id.value in c.waiters then
        c.(waiters := c.waiters - {m.id.value}, reader := Handing(m.id.value, m))
      else c
    case Hand => c.(slots := c.slots[c.reader.id := c.slots[c.reader.id] + [c.reader.message]], reader := Reading)
    case Eof => c.(reader := Ended)
  }

  /** A schedule: every step in it was one that could be taken. */
  ghost predicate Runs(c: Conn, steps: seq<Step>)
    decreases |steps|, 0
  {
    steps == [] || (Runs(c, steps[..|steps| - 1]) && Enabled(After(c, steps[..|steps| - 1]), steps[|steps| - 1]))
  }

  ghost function After(c: Conn, steps: seq<Step>): Conn
    requires Runs(c, steps)
    decreases |steps|, 1
  {
    if steps == [] then c else Do(After(c, steps[..|steps| - 1]), steps[|steps| - 1])
  }

  /** How many ways are left in which a call could still be handed a message:
      registered, in the reader's hand, on its channel, or handed over. */
  function Tokens(c: Conn, id: int): nat {
    (if id in c.waiters then 1 else 0)
    + (if c.reader.Handing? && c.reader.id == id then 1 else 0)
    + (if id in c.slots then |c.slots[id]| else 0)
    + (if id in c.calls && c.calls[id].Replied? then 1 else 0)
  }

  predicate Carries(m: Message, id: int) {
    m.id == Some(id)
  }

  ghost predicate Good(c: Conn) {
    && (forall id :: id in c.calls <==> id in c.slots)
    && (forall id :: id in c.calls || id in c.waiters ==> id < c.nextId)
    && (forall id :: id in c.waiters ==> id in c.slots)
    && (forall id :: Tokens(c, id) <= 1)
    && (c.reader.Handing? ==> c.reader.id in c.slots && Carries(c.reader.message, c.reader.id))
    && (forall id :: id in c.slots ==> forall k :: 0 <= k < |c.slots[id]| ==> Carries(c.slots[id][k], id))
    && (forall id :: id in c.calls && c.calls[id].Replied? ==> Carries(c.calls[id].message, id))
  }

  lemma StepKeepsGood(c: Conn, s: Step)
    requires Good(c) && Enabled(c, s)
    ensures Good(Do(c, s))
  {
    var d := Do(c, s);
    forall id ensures Tokens(d, id) <= 1 {
      assert Tokens(c, id) <= 1;
      if s.Begin? && id == c.nextId {
        assert id !in c.waiters && id !in c.slots && id !in c.calls;
      }
    }
    forall id, k | id in d.slots && 0 <= k < |d.slots[id]| ensures Carries(d.slots[id][k], id) {
      if id in c.slots && k < |c.slots[id]| { assert Carries(c.slots[id][k], id); }
    }
  }

  lemma {:induction false} EveryScheduleIsGood(steps: seq<Step>)
    requires Runs(FRESH, steps)
    ensures Good(After(FRESH, steps))
  {
    if steps != [] {
      EveryScheduleIsGood(steps[..|steps| - 1]);
      StepKeepsGood(After(FRESH, steps[..|steps| - 1]), steps[|steps| - 1]);
    }
  }

  /** In every interleaving of callers and reader: a channel never holds more than
      its one message, so the reader's send never waits; and whatever a call
      returns carries the id that call asked under. */
  lemma RepliesGoWhereTheyBelong(steps: seq<Step>)
    requires Runs(FRESH, steps)
    ensures var c := After(FRESH, steps);
            && (forall id :: id in c.slots ==> |c.slots[id]| <= CAPACITY)
            && (c.reader.Handing? ==> Enabled(c, Hand))
            && (forall id :: id in c.calls && c.calls[id].Replied? ==> c.calls[id].message.id == Some(id))
  {
    EveryScheduleIsGood(steps);
    var c := After(FRESH, steps);
    forall id | id in c.slots ensures |c.slots[id]| <= CAPACITY {
      assert Tokens(c, id) <= 1;
    }
    if c.reader.Handing? {
      assert Tokens(c, c.reader.id) <= 1;
    }
  }

  // ---- Which reply ----

  /** The message a call has been given or is about to be, if any. */
  function Held(c: Conn, id: int): Option<Message> {
    if id in c.calls && c.calls[id].Replied? then Some(c.calls[id].message)
    else if id in c.slots && c.slots[id] != [] then Some(c.slots[id][0])
    else if c.reader.Handing? && c.reader.id == id then Some(c.reader.message)
    else None
  }

  lemma HeldOneMore(c: Conn, s: Step, id: int)
    requires Good(c) && Enabled(c, s) && Held(c, id).Some?
    ensures Held(Do(c, s), id) == Held(c, id)
  {
    assert Tokens(c, id) <= 1;
  }

  /** A message once held for a call is never replaced: if the call returns one at
      all, it is the first that came while it was registered, whatever came later. */
  lemma {:induction false} TheFirstReplyStands(steps: seq<Step>, more: seq<Step>, id: int)
    requires Runs(FRESH, steps + more) && Runs(FRESH, steps)
    requires Held(After(FRESH, steps), id).Some?
    ensures Held(After(FRESH, steps + more), id) == Held(After(FRESH, steps), id)
  {
    if more == [] {
      assert steps + more == steps;
    } else {
      var n := |more| - 1;
      assert (steps + more)[..|steps| + n] == steps + more[..n];
      TheFirstReplyStands(steps, more[..n], id);
      EveryScheduleIsGood(steps + more[..n]);
      HeldOneMore(After(FRESH, steps + more[..n]), more[n], id);
    }
  }

  /** A reply that is read while its call is registered is held for that call
      from then on; one that nobody is registered for is dropped. */
  lemma AReplyIsHeldForItsCall(steps: seq<Step>, m: Message, id: int)
    requires Runs(FRESH, steps) && After(FRESH, steps).reader.Reading? && m.id == Some(id)
    ensures Runs(FRESH, steps + [Line(m)])
    ensures var c, d := After(FRESH, steps), After(FRESH, steps + [Line(m)]);
            if id in c.waiters then Held(d, id) == Some(m) else d == c
  {
    assert (steps + [Line(m)])[..|steps|] == steps;
    EveryScheduleIsGood(steps);
    assert Tokens(After(FRESH, steps), id) <= 1;
  }
}
