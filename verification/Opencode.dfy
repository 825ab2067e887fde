/** The plugin's view of the sessions in one opencode process, folded from the
    events it is handed. */
module Opencode {
  import opened Domain

  datatype Tool = Tool(name: string, startedAt: int)

  datatype Permission = Permission(id: string, askedAt: int, kind: Option<string>, detail: Option<string>)

  datatype State = Working | Free | Waiting | Running

  datatype Info = Info(slug: string, title: string, directory: string, version: string)

  datatype Snapshot = Snapshot(
    info: Info,
    state: State,
    currentTool: Option<Tool>,
    pending: Option<Permission>,
    lastActivityAt: int)

  /** Outstanding tool calls by id, in the order they were first recorded. */
  datatype Tracked = Tracked(snapshot: Snapshot, tools: seq<(string, Tool)>)

  /** What opencode reports. A session is absent when an event names none. An
      event that is none of these, or too sparse to use, is `Ignored`. */
  datatype Event =
    | Described(id: string, info: Info, adopted: bool)  // created or updated; or adopted, never having been seen to begin
    | Deleted(id: string)
    | Based(session: Option<string>, free: bool)
    | Asked(session: Option<string>, request: Option<string>, kind: Option<string>, detail: Option<string>)
    | Replied(session: Option<string>, request: Option<string>)
    | Started(session: Option<string>, tool: Option<string>, call: Option<string>)
    | Finished(session: Option<string>, tool: Option<string>, call: Option<string>)
    | Ignored

  // ---- Outstanding calls: a map that remembers insertion order ----

  type Calls = seq<(string, Tool)>

  predicate HasCall(tools: Calls, call: string) {
    exists i :: 0 <= i < |tools| && tools[i].0 == call
  }

  ghost predicate OnePerCall(tools: Calls) {
    forall i, j :: 0 <= i < j < |tools| ==> tools[i].0 != tools[j].0
  }

  /** The first entry at or after `i` of this call, or the end. */
  function FindCall(tools: Calls, call: string, i: nat): (r: nat)
    requires i <= |tools|
    ensures i <= r <= |tools|
    ensures forall k :: i <= k < r ==> tools[k].0 != call
    ensures r < |tools| ==> tools[r].0 == call
    decreases |tools| - i
  {
    if i == |tools| || tools[i].0 == call then i else FindCall(tools, call, i + 1)
  }

  function FindName(tools: Calls, name: Option<string>, i: nat): (r: nat)
    requires i <= |tools|
    ensures i <= r <= |tools|
    ensures forall k :: i <= k < r ==> Some(tools[k].1.name) != name
    ensures r < |tools| ==> Some(tools[r].1.name) == name
    decreases |tools| - i
  {
    if i == |tools| || Some(tools[i].1.name) == name then i else FindName(tools, name, i + 1)
  }

  /** Recorded again under the same id, a call keeps its place. */
  function SetCall(tools: Calls, call: string, t: Tool): Calls {
    var i := FindCall(tools, call, 0);
    if i < |tools| then tools[i := (call, t)] else tools + [(call, t)]
  }

  function DropAt(tools: Calls, i: nat): Calls
    requires i <= |tools|
  {
    if i == |tools| then tools else tools[..i] + tools[i + 1..]
  }

  lemma SetCallHas(tools: Calls, call: string, t: Tool, c: string)
    requires OnePerCall(tools)
    ensures OnePerCall(SetCall(tools, call, t))
    ensures HasCall(SetCall(tools, call, t), c) <==> c == call || HasCall(tools, c)
  {
    var r, i := SetCall(tools, call, t), FindCall(tools, call, 0);
    assert r[i].0 == call;
    assert forall k :: 0 <= k < |tools| ==> r[k].0 == tools[k].0;
    if HasCall(tools, c) {
      var k :| 0 <= k < |tools| && tools[k].0 == c;
      assert r[k].0 == c;
    }
  }

  lemma DropAtHas(tools: Calls, i: nat, c: string)
    requires OnePerCall(tools) && i <= |tools|
    ensures OnePerCall(DropAt(tools, i))
    ensures HasCall(DropAt(tools, i), c) <==> HasCall(tools, c) && !(i < |tools| && tools[i].0 == c)
  {
    var r := DropAt(tools, i);
    assert forall k :: 0 <= k < |r| ==> r[k] == if k < i then tools[k] else tools[k + 1];
    if HasCall(tools, c) {
      var k :| 0 <= k < |tools| && tools[k].0 == c;
      assert k < i ==> r[k].0 == c;
      assert k > i ==> r[k - 1].0 == c;
    }
  }

  function Decimal(n: nat): string {
    var digit := ["0", "1", "2", "3", "4", "5", "6", "7", "8", "9"][n % 10];
    if n < 10 then digit else Decimal(n / 10) + digit
  }

  /** A start that names no call is given a name of its own. */
  function CallKey(tool: Option<string>, call: Option<string>, outstanding: nat): string {
    match call
    case Some(c) => c
    case None => (if tool.Some? then tool.value else "tool") + "-" + Decimal(outstanding)
  }

  /** The longest-running of the first `n` calls; of those begun together, the
      first recorded. */
  predicate OldestAt(tools: Calls, n: nat, k: nat) {
    && k < n <= |tools|
    && (forall i :: 0 <= i < k ==> tools[k].1.startedAt < tools[i].1.startedAt)
    && (forall i :: k < i < n ==> tools[k].1.startedAt <= tools[i].1.startedAt)
  }

  ghost predicate IsOldest(tools: Calls, t: Tool) {
    exists k: nat :: OldestAt(tools, |tools|, k) && tools[k].1 == t
  }

  function OldestIndex(tools: Calls, n: nat): (k: nat)
    requires 0 < n <= |tools|
    ensures OldestAt(tools, n, k)
  {
    if n == 1 then 0
    else
      var k := OldestIndex(tools, n - 1);
      if tools[n - 1].1.startedAt < tools[k].1.startedAt then n - 1 else k
  }

  function OldestOf(tools: Calls): Tool
    requires tools != []
  {
    tools[OldestIndex(tools, |tools|)].1
  }

  method Oldest(tools: Calls) returns (chosen: Tool)
    requires tools != []
    ensures chosen == OldestOf(tools)
  {
    chosen := tools[0].1;
    var n := 1;
    while n < |tools|
      invariant 1 <= n <= |tools| && chosen == tools[OldestIndex(tools, n)].1
    {
      if tools[n].1.startedAt < chosen.startedAt {
        chosen := tools[n].1;
      }
      n := n + 1;
    }
  }

  // ---- What one event does ----

  /** Waiting on a human outranks everything, and work in progress outranks the
      base state. */
  function Touch(t: Tracked, now: int): Tracked {
    var s := t.snapshot;
    var shown :=
      if s.pending.Some? then s.(state := Waiting, currentTool := None)
      else if t.tools != [] then s.(state := Running, currentTool := Some(OldestOf(t.tools)))
      else s.(state := if s.state == Waiting || s.state == Running then Working else s.state, currentTool := None);
    t.(snapshot := shown.(lastActivityAt := now))
  }

  /** The session an event is about, when it names one. */
  function SessionOf(e: Event): Option<string> {
    match e
    case Described(id, _, _) => Some(id)
    case Deleted(id) => Some(id)
    case Based(s, _) => s
    case Asked(s, _, _, _) => s
    case Replied(s, _) => s
    case Started(s, _, _) => s
    case Finished(s, _, _) => s
    case Ignored => None
  }

  function PermissionOf(e: Event, now: int): Permission
    requires e.Asked?
  {
    Permission(if e.request.Some? then e.request.value else "unknown", now, e.kind, e.detail)
  }

  /** A reply that names a different request than the one still waiting. */
  predicate AboutAnother(pending: Option<Permission>, request: Option<string>) {
    pending.Some? && request.Some? && pending.value.id != request.value
  }

  /** What an event does to the session it names, once that is tracked. */
  function Changed(t: Tracked, e: Event, now: int): Tracked {
    match e
    case Described(_, info, adopted) => if adopted then t else Touch(t.(snapshot := t.snapshot.(info := info)), now)
    case Based(_, free) =>
      Touch(Tracked(t.snapshot.(state := if free then Free else Working), if free then [] else t.tools), now)
    case Asked(_, _, _, _) => Touch(t.(snapshot := t.snapshot.(pending := Some(PermissionOf(e, now)))), now)
    case Replied(_, request) =>
      if AboutAnother(t.snapshot.pending, request) then t
      else Touch(t.(snapshot := t.snapshot.(pending := None)), now)
    case Started(_, tool, call) =>
      Touch(t.(tools := SetCall(t.tools, CallKey(tool, call, |t.tools|),
                                Tool(if tool.Some? then tool.value else "unknown", now))), now)
    case Finished(_, tool, call) =>
      Touch(t.(tools := DropAt(t.tools, if call.Some? then FindCall(t.tools, call.value, 0) else FindName(t.tools, tool, 0))), now)
    case _ => t
  }

  function Begun(info: Info, now: int): Tracked {
    Tracked(Snapshot(info, Working, None, None, now), [])
  }

  function Applied(sessions: map<string, Tracked>, e: Event, now: int): map<string, Tracked> {
    match SessionOf(e)
    case None => sessions
    case Some(id) =>
      if e.Deleted? then sessions - {id}
      else if id in sessions then sessions[id := Changed(sessions[id], e, now)]
      else if e.Described? then sessions[id := Begun(e.info, now)]
      else sessions
  }

  // ---- The tracker ----

  class SessionTracker {
    var sessions: map<string, Tracked>
    var unattributed: nat
    var unknown: set<string>

    constructor ()
      ensures sessions == map[] && unattributed == 0 && unknown == {}
    {
      sessions, unattributed, unknown := map[], 0, {};
    }

    /** Whether the session named is tracked; if not, one more event is counted as
        nobody's, and the name is kept to be looked up. */
    method Resolve(session: Option<string>) returns (tracked: bool)
      modifies this`unattributed, this`unknown
      ensures tracked <==> session.Some? && session.value in sessions
      ensures unattributed == old(unattributed) + if tracked then 0 else 1
      ensures unknown == if session.Some? && !tracked then old(unknown) + {session.value} else old(unknown)
    {
      if session.None? {
        unattributed := unattributed + 1;
        return false;
      }
      tracked := session.value in sessions;
      if !tracked {
        unattributed, unknown := unattributed + 1, unknown + {session.value};
      }
    }

    /** Recomputes what a session shows, and when it was last heard from. */
    method TouchSession(id: string, t: Tracked, now: int)
      modifies this`sessions
      ensures sessions == old(sessions)[id := Touch(t, now)]
    {
      var snapshot := t.snapshot;
      if snapshot.pending.Some? {
        snapshot := snapshot.(state := Waiting, currentTool := None);
      } else if |t.tools| > 0 {
        var oldest := Oldest(t.tools);
        snapshot := snapshot.(state := Running, currentTool := Some(oldest));
      } else {
        snapshot := snapshot.(currentTool := None);
        if snapshot.state == Waiting || snapshot.state == Running {
          snapshot := snapshot.(state := Working);
        }
      }
      sessions := sessions[id := t.(snapshot := snapshot.(lastActivityAt := now))];
    }

    /** Takes in one event. */
    method Apply(e: Event, now: int)
      modifies this
      ensures sessions == Applied(old(sessions), e, now)
      ensures unattributed == old(unattributed) + if Attributed(old(sessions), e) then 0 else 1
      ensures unknown == if !Attributed(old(sessions), e) && SessionOf(e).Some? then old(unknown) + {SessionOf(e).value} else old(unknown)
    {
      match e
      case Ignored =>
      case Described(id, info, adopted) =>
        if !adopted || id !in sessions {
          Upsert(id, info, now);
        } else {
          assert sessions[id := sessions[id]] == sessions;
        }
      case Deleted(id) => sessions := sessions - {id};
      case Based(session, free) => SetBaseState(session, free, now);
      case Asked(session, _, _, _) =>
        var tracked := Resolve(session);
        if tracked {
          var t := sessions[session.value];
          TouchSession(session.value, t.(snapshot := t.snapshot.(pending := Some(PermissionOf(e, now)))), now);
        }
      case Replied(session, request) => PermissionReplied(session, request, now);
      case Started(session, tool, call) => ToolStarted(session, tool, call, now);
      case Finished(session, tool, call) => ToolFinished(session, tool, call, now);
    }

    method Upsert(id: string, info: Info, now: int)
      modifies this`sessions
      ensures sessions == Applied(old(sessions), Described(id, info, id !in old(sessions)), now)
    {
      if id in sessions {
        var t := sessions[id];
        TouchSession(id, t.(snapshot := t.snapshot.(info := info)), now);
      } else {
        sessions := sessions[id := Begun(info, now)];
      }
    }

    method SetBaseState(session: Option<string>, free: bool, now: int)
      modifies this
      ensures sessions == Applied(old(sessions), Based(session, free), now)
      ensures unattributed == old(unattributed) + if Attributed(old(sessions), Based(session, free)) then 0 else 1
      ensures unknown == if session.Some? && session.value !in old(sessions) then old(unknown) + {session.value} else old(unknown)
    {
      var tracked := Resolve(session);
      if tracked {
        var t := sessions[session.value];
        if free {
          t := t.(tools := []);
        }
        t := t.(snapshot := t.snapshot.(state := if free then Free else Working));
        TouchSession(session.value, t, now);
      }
    }

    method PermissionReplied(session: Option<string>, request: Option<string>, now: int)
      modifies this
      ensures sessions == Applied(old(sessions), Replied(session, request), now)
      ensures unattributed == old(unattributed) + if Attributed(old(sessions), Replied(session, request)) then 0 else 1
      ensures unknown == if session.Some? && session.value !in old(sessions) then old(unknown) + {session.value} else old(unknown)
    {
      var tracked := Resolve(session);
      if tracked {
        var t := sessions[session.value];
        if AboutAnother(t.snapshot.pending, request) {
          assert sessions[session.value := t] == sessions;
          return;
        }
        TouchSession(session.value, t.(snapshot := t.snapshot.(pending := None)), now);
      }
    }

    method ToolStarted(session: Option<string>, tool: Option<string>, call: Option<string>, now: int)
      modifies this
      ensures sessions == Applied(old(sessions), Started(session, tool, call), now)
      ensures unattributed == old(unattributed) + if Attributed(old(sessions), Started(session, tool, call)) then 0 else 1
      ensures unknown == if session.Some? && session.value !in old(sessions) then old(unknown) + {session.value} else old(unknown)
    {
      var tracked := Resolve(session);
      if tracked {
        var t := sessions[session.value];
        var key := CallKey(tool, call, |t.tools|);
        var begun := Tool(if tool.Some? then tool.value else "unknown", now);
        TouchSession(session.value, t.(tools := SetCall(t.tools, key, begun)), now);
      }
    }

    method ToolFinished(session: Option<string>, tool: Option<string>, call: Option<string>, now: int)
      modifies this
      ensures sessions == Applied(old(sessions), Finished(session, tool, call), now)
      ensures unattributed == old(unattributed) + if Attributed(old(sessions), Finished(session, tool, call)) then 0 else 1
      ensures unknown == if session.Some? && session.value !in old(sessions) then old(unknown) + {session.value} else old(unknown)
    {
      var tracked := Resolve(session);
      if tracked {
        var t := sessions[session.value];
        var i := if call.Some? then FindCall(t.tools, call.value, 0) else FindName(t.tools, tool, 0);
        TouchSession(session.value, t.(tools := DropAt(t.tools, i)), now);
      }
    }

    /** The sessions named by events and not tracked, once. */
    method TakeUnknown() returns (ids: set<string>)
      modifies this`unknown
      ensures ids == old(unknown) && unknown == {}
    {
      ids, unknown := unknown, {};
    }
  }

  /** An event that needs no session, or names one that is tracked. */
  predicate Attributed(sessions: map<string, Tracked>, e: Event) {
    e.Ignored? || e.Described? || e.Deleted? || (SessionOf(e).Some? && SessionOf(e).value in sessions)
  }

  // ---- What a tracked session shows ----

  /** Waiting exactly while a permission is pending; else running the oldest
      outstanding call while there is one; else at work or free, with no tool. */
  ghost predicate Shown(t: Tracked) {
    var s := t.snapshot;
    && OnePerCall(t.tools)
    && (s.state == Waiting <==> s.pending.Some?)
    && (s.state == Running <==> s.pending.None? && t.tools != [])
    && (s.currentTool.Some? <==> s.state == Running)
    && (s.currentTool.Some? ==> IsOldest(t.tools, s.currentTool.value))
  }

  lemma TouchShows(t: Tracked, now: int)
    requires OnePerCall(t.tools)
    ensures Shown(Touch(t, now))
  {
  }

  lemma ChangedShows(t: Tracked, e: Event, now: int)
    requires Shown(t)
    ensures Shown(Changed(t, e, now))
  {
    match e
    case Started(_, tool, call) =>
      var key, begun := CallKey(tool, call, |t.tools|), Tool(if tool.Some? then tool.value else "unknown", now);
      SetCallHas(t.tools, key, begun, key);
      TouchShows(t.(tools := SetCall(t.tools, key, begun)), now);
    case Finished(_, tool, call) =>
      var i := if call.Some? then FindCall(t.tools, call.value, 0) else FindName(t.tools, tool, 0);
      DropAtHas(t.tools, i, "");
      TouchShows(t.(tools := DropAt(t.tools, i)), now);
    case Based(_, free) =>
      TouchShows(Tracked(t.snapshot.(state := if free then Free else Working), if free then [] else t.tools), now);
    case Described(_, info, _) => TouchShows(t.(snapshot := t.snapshot.(info := info)), now);
    case Asked(_, _, _, _) => TouchShows(t.(snapshot := t.snapshot.(pending := Some(PermissionOf(e, now)))), now);
    case Replied(_, _) => TouchShows(t.(snapshot := t.snapshot.(pending := None)), now);
    case _ =>
  }

  /** An event and when it was handled. */
  datatype Heard = Heard(event: Event, at: int)

  function After(heard: seq<Heard>): map<string, Tracked> {
    if heard == [] then map[] else Applied(After(heard[..|heard| - 1]), heard[|heard| - 1].event, heard[|heard| - 1].at)
  }

  /** Whatever opencode reports, every tracked session shows what outranks what. */
  lemma {:induction false} EverySessionIsShown(heard: seq<Heard>)
    ensures forall id :: id in After(heard) ==> Shown(After(heard)[id])
  {
    if heard != [] {
      var n := |heard| - 1;
      EverySessionIsShown(heard[..n]);
      var before, e := After(heard[..n]), heard[n].event;
      hide Shown, Changed;
      forall id | id in After(heard) ensures Shown(After(heard)[id]) {
        if id in before {
          ChangedShows(before[id], e, heard[n].at);
        } else if e.Described? && id == e.id {
          BegunShows(e.info, heard[n].at);
        }
      }
    }
  }

  lemma BegunShows(info: Info, now: int)
    ensures Shown(Begun(info, now))
  {
  }

  /** An event never changes a session other than the one it names. */
  lemma OnlyTheNamedSession(sessions: map<string, Tracked>, e: Event, now: int, id: string)
    requires SessionOf(e) != Some(id)
    ensures id in Applied(sessions, e, now) <==> id in sessions
    ensures id in sessions ==> Applied(sessions, e, now)[id] == sessions[id]
  {
  }

  // ---- ... said by what was reported, without the fold ----

  /** Tracked since the k-th event, which described it. */
  ghost predicate TrackedSince(heard: seq<Heard>, id: string, k: int) {
    && 0 <= k < |heard| && heard[k].event.Described? && heard[k].event.id == id
    && forall j :: k < j < |heard| ==> heard[j].event != Deleted(id)
  }

  ghost predicate IsTracked(heard: seq<Heard>, id: string) {
    exists k :: TrackedSince(heard, id, k)
  }

  lemma {:induction false} TrackedExactly(heard: seq<Heard>, id: string)
    ensures id in After(heard) <==> IsTracked(heard, id)
  {
    if heard != [] {
      var n := |heard| - 1;
      TrackedExactly(heard[..n], id);
      var e := heard[n].event;
      TrackedOneMore(heard, id);
      hide Changed;
      assert id in After(heard) <==> (e.Described? && e.id == id) || (id in After(heard[..n]) && e != Deleted(id));
    }
  }

  lemma TrackedOneMore(heard: seq<Heard>, id: string)
    requires heard != []
    ensures var n, e := |heard| - 1, heard[|heard| - 1].event;
            IsTracked(heard, id) <==> (e.Described? && e.id == id) || (IsTracked(heard[..n], id) && e != Deleted(id))
  {
    var n := |heard| - 1;
    var before, e := heard[..n], heard[n].event;
    assert forall j :: 0 <= j < n ==> before[j] == heard[j];
    if e.Described? && e.id == id { assert TrackedSince(heard, id, n); }
    if IsTracked(before, id) && e != Deleted(id) {
      var k :| TrackedSince(before, id, k);
      assert TrackedSince(heard, id, k);
    }
    if IsTracked(heard, id) {
      var k :| TrackedSince(heard, id, k);
      if k < n { assert TrackedSince(before, id, k); }
    }
  }

  function RequestOf(e: Event): string
    requires e.Asked?
  {
    if e.request.Some? then e.request.value else "unknown"
  }

  /** Ends the wait a permission asked for: a reply that names it or none, asking
      again, or the end of the session. */
  predicate EndsAsk(e: Event, id: string, request: string) {
    || e == Deleted(id)
    || (e.Asked? && e.session == Some(id))
    || (e.Replied? && e.session == Some(id) && (e.request == None || e.request == Some(request)))
  }

  /** The k-th event asked a tracked session's human for something, and nothing
      since has ended the wait. */
  ghost predicate StillAsks(heard: seq<Heard>, id: string, k: int) {
    && 0 <= k < |heard| && heard[k].event.Asked? && heard[k].event.session == Some(id)
    && IsTracked(heard[..k], id)
    && forall j :: k < j < |heard| ==> !EndsAsk(heard[j].event, id, RequestOf(heard[k].event))
  }

  lemma StillAsksOneMore(heard: seq<Heard>, id: string, k: int)
    requires heard != []
    ensures var n := |heard| - 1;
            StillAsks(heard, id, k) <==>
              if k == n then heard[n].event.Asked? && heard[n].event.session == Some(id) && IsTracked(heard[..n], id)
              else StillAsks(heard[..n], id, k) && !EndsAsk(heard[n].event, id, RequestOf(heard[k].event))
  {
    var n := |heard| - 1;
    var before := heard[..n];
    assert forall j :: 0 <= j < n ==> before[j] == heard[j];
    if 0 <= k < n { assert before[..k] == heard[..k]; }
  }

  /** What is pending of a request: what was asked, under its own name if it has one,
      and since when. */
  predicate PendingOf(h: Heard, p: Permission) {
    && h.event.Asked? && p.askedAt == h.at && p.kind == h.event.kind && p.detail == h.event.detail
    && match h.event.request case None => p.id == "unknown" case Some(name) => p.id == name
  }

  /** What is pending is what was asked last and not settled since. */
  ghost predicate PendingIs(heard: seq<Heard>, id: string, pending: Option<Permission>) {
    && (pending.Some? ==> exists k :: StillAsks(heard, id, k) && PendingOf(heard[k], pending.value))
    && (pending.None? ==> forall k :: !StillAsks(heard, id, k))
  }

  /** A session waits on a human exactly when the permission it asked for last
      has had no matching reply. */
  lemma {:induction false} PendingExactly(heard: seq<Heard>, id: string)
    requires id in After(heard)
    ensures PendingIs(heard, id, After(heard)[id].snapshot.pending)
  {
    var n := |heard| - 1;
    var before, e, at := After(heard[..n]), heard[n].event, heard[n].at;
    TrackedExactly(heard[..n], id);
    if id !in before {
      forall k ensures !StillAsks(heard, id, k) {
        StillAsksOneMore(heard, id, k);
        if StillAsks(heard[..n], id, k) { AsksAreTracked(heard[..n], id, k); }
      }
    } else {
      PendingExactly(heard[..n], id);
      PendingOneMore(heard, id, before[id].snapshot.pending);
    }
  }

  /** A session whose human is still being asked is tracked. */
  lemma AsksAreTracked(heard: seq<Heard>, id: string, k: int)
    requires StillAsks(heard, id, k)
    ensures IsTracked(heard, id)
  {
    var i :| TrackedSince(heard[..k], id, i);
    assert TrackedSince(heard, id, i) by {
      forall j | i < j < |heard| ensures heard[j].event != Deleted(id) {
        if j < k { assert heard[..k][j] == heard[j]; }
      }
    }
  }

  lemma PendingOneMore(heard: seq<Heard>, id: string, pending: Option<Permission>)
    requires heard != [] && PendingIs(heard[..|heard| - 1], id, pending)
    requires IsTracked(heard[..|heard| - 1], id) && heard[|heard| - 1].event != Deleted(id)
    ensures var n, e := |heard| - 1, heard[|heard| - 1].event;
            PendingIs(heard, id,
                      if e.Asked? && e.session == Some(id) then Some(PermissionOf(e, heard[n].at))
                      else if e.Replied? && e.session == Some(id) && !AboutAnother(pending, e.request) then None
                      else pending)
  {
    var n := |heard| - 1;
    var before, e := heard[..n], heard[n].event;
    forall k ensures StillAsks(heard, id, k) <==>
        if k == n then e.Asked? && e.session == Some(id)
        else StillAsks(before, id, k) && !EndsAsk(e, id, RequestOf(heard[k].event))
    {
      StillAsksOneMore(heard, id, k);
    }
    if e.Asked? && e.session == Some(id) {
      assert StillAsks(heard, id, n);
    } else if pending.Some? {
      var k :| StillAsks(before, id, k) && PendingOf(before[k], pending.value);
      assert heard[k] == before[k];
      OneAskStands(before, id, k);
      assert StillAsks(heard, id, k) <==> !EndsAsk(e, id, RequestOf(heard[k].event));
    }
  }

  lemma OneAskStands(heard: seq<Heard>, id: string, k: int)
    requires StillAsks(heard, id, k)
    ensures forall j :: StillAsks(heard, id, j) ==> j == k
  {
  }

  // ---- Free or at work ----

  predicate SaysBusy(e: Event, id: string) {
    e == Based(Some(id), false)
  }

  predicate SaysFree(e: Event, id: string) {
    e == Based(Some(id), true)
  }

  /** Tracked, with nothing asked and no call outstanding. */
  ghost predicate Unoccupied(sessions: map<string, Tracked>, id: string) {
    id in sessions && sessions[id].snapshot.pending.None? && sessions[id].tools == []
  }

  /** The sessions once the first `n` events were taken in. */
  function AfterFirst(heard: seq<Heard>, n: nat): map<string, Tracked>
    requires n <= |heard|
  {
    After(heard[..n])
  }

  /** The k-th event said a tracked session was free, and from then on it was
      unoccupied and nothing said otherwise. */
  ghost predicate FreeSince(heard: seq<Heard>, id: string, k: int) {
    && 0 <= k < |heard| && SaysFree(heard[k].event, id) && id in AfterFirst(heard, k)
    && (forall j :: k < j <= |heard| ==> Unoccupied(AfterFirst(heard, j), id))
    && (forall j :: k < j < |heard| ==> !SaysBusy(heard[j].event, id))
  }

  lemma FirstsStay(heard: seq<Heard>)
    requires heard != []
    ensures forall j :: 0 <= j < |heard| ==> AfterFirst(heard[..|heard| - 1], j) == AfterFirst(heard, j)
    ensures AfterFirst(heard, |heard|) == After(heard)
  {
    hide After;
    assert heard[..|heard|] == heard;
    forall j | 0 <= j < |heard| ensures AfterFirst(heard[..|heard| - 1], j) == AfterFirst(heard, j) {
      assert heard[..|heard| - 1][..j] == heard[..j];
    }
  }

  lemma FreeIsTracked(heard: seq<Heard>, id: string, k: int)
    ensures FreeSince(heard, id, k) ==> id in After(heard)
  {
    assert heard[..|heard|] == heard;
    if FreeSince(heard, id, k) { assert Unoccupied(AfterFirst(heard, |heard|), id); }
  }

  lemma FreeOneMore(heard: seq<Heard>, id: string, k: int)
    requires heard != []
    ensures var n := |heard| - 1;
            FreeSince(heard, id, k) <==>
              && (if k == n then SaysFree(heard[n].event, id) && id in After(heard[..n])
                  else FreeSince(heard[..n], id, k) && !SaysBusy(heard[n].event, id))
              && Unoccupied(After(heard), id)
  {
    hide Unoccupied, AfterFirst, SaysFree, SaysBusy, After;
    FirstsStay(heard);
    FirstsOfAll(heard);
    var n := |heard| - 1;
    if k < n {
      hide FreeSince;
      if FreeSince(heard, id, k) { FreeBefore(heard, id, k); }
      if FreeSince(heard[..n], id, k) && !SaysBusy(heard[n].event, id) && Unoccupied(After(heard), id) { FreeStill(heard, id, k); }
    }
  }

  lemma FreeBefore(heard: seq<Heard>, id: string, k: int)
    requires heard != [] && k < |heard| - 1 && FreeSince(heard, id, k)
    ensures FreeSince(heard[..|heard| - 1], id, k) && !SaysBusy(heard[|heard| - 1].event, id) && Unoccupied(After(heard), id)
  {
    hide Unoccupied, AfterFirst, SaysFree, SaysBusy, After;
    FirstsStay(heard);
    var n, before := |heard| - 1, heard[..|heard| - 1];
    FirstsOfAll(heard);
    assert before[..n] == before;
    AllOfIt(before);
    forall j | k < j <= n ensures Unoccupied(AfterFirst(before, j), id) {
      assert Unoccupied(AfterFirst(heard, j), id);
    }
    assert Unoccupied(AfterFirst(heard, |heard|), id);
  }

  lemma FreeStill(heard: seq<Heard>, id: string, k: int)
    requires heard != [] && k < |heard| - 1
    requires FreeSince(heard[..|heard| - 1], id, k) && !SaysBusy(heard[|heard| - 1].event, id) && Unoccupied(After(heard), id)
    ensures FreeSince(heard, id, k)
  {
    hide Unoccupied, AfterFirst, SaysFree, SaysBusy, After;
    FirstsStay(heard);
    FirstsOfAll(heard);
    var n, before := |heard| - 1, heard[..|heard| - 1];
    AllOfIt(before);
    forall j | k < j <= |heard| ensures Unoccupied(AfterFirst(heard, j), id) {
      if j <= n { assert Unoccupied(AfterFirst(before, j), id); }
    }
    forall j | k < j < |heard| ensures !SaysBusy(heard[j].event, id) {
      if j < n { assert !SaysBusy(before[j].event, id); }
    }
  }

  lemma AllOfIt(heard: seq<Heard>)
    ensures AfterFirst(heard, |heard|) == After(heard)
  {
    assert heard[..|heard|] == heard;
  }

  lemma FirstsOfAll(heard: seq<Heard>)
    requires heard != []
    ensures AfterFirst(heard, |heard| - 1) == After(heard[..|heard| - 1])
  {
  }

  lemma OneEventFrees(t: Tracked, e: Event, now: int)
    requires Shown(t)
    ensures var after := Changed(t, e, now);
            after.snapshot.state == Free <==>
              && after.snapshot.pending.None? && after.tools == []
              && (if e.Based? then e.free else t.snapshot.state == Free)
  {
  }

  /** A session neither waiting nor running is free, rather than at work, exactly when
      it was said to be free and has been left alone since: what ends a wait or a call
      puts it back to work. */
  lemma {:induction false} FreeExactly(heard: seq<Heard>, id: string)
    requires id in After(heard)
    ensures After(heard)[id].snapshot.state == Free <==> exists k :: FreeSince(heard, id, k)
  {
    var n := |heard| - 1;
    var before, e, at := After(heard[..n]), heard[n].event, heard[n].at;
    EverySessionIsShown(heard[..n]);
    EverySessionIsShown(heard);
    forall k ensures FreeSince(heard, id, k) <==>
      && (if k == n then SaysFree(e, id) && id in before else FreeSince(heard[..n], id, k) && !SaysBusy(e, id))
      && Unoccupied(After(heard), id)
    {
      FreeOneMore(heard, id, k);
    }
    if id in before {
      FreeExactly(heard[..n], id);
      if SessionOf(e) == Some(id) {
        OneEventFrees(before[id], e, at);
      } else if before[id].snapshot.state == Free {
        FreeIsUnoccupied(before[id]);
      }
      hide FreeSince, Changed, Shown;
      assert FreeSince(heard, id, n) <==> SaysFree(e, id) && Unoccupied(After(heard), id);
    } else {
      assert After(heard)[id] == Begun(e.info, at);
      forall k ensures !FreeSince(heard[..n], id, k) {
        FreeIsTracked(heard[..n], id, k);
      }
    }
  }

  lemma FreeIsUnoccupied(t: Tracked)
    requires Shown(t) && t.snapshot.state == Free
    ensures t.snapshot.pending.None? && t.tools == []
  {
  }

  // ---- Calls ----

  /** The entry a completion takes away, or the end. */
  function FinishedAt(tools: Calls, e: Event): nat
    requires e.Finished?
  {
    if e.call.Some? then FindCall(tools, e.call.value, 0) else FindName(tools, e.tool, 0)
  }

  function KeyOf(tools: Calls, e: Event): string
    requires e.Started?
  {
    CallKey(e.tool, e.call, |tools|)
  }

  /** An event that begins a call under this key, for a session with these calls. */
  predicate Begins(tools: Calls, e: Event, call: string) {
    e.Started? && KeyOf(tools, e) == call
  }

  /** ... or takes the call of this key away: its completion, or going idle. */
  predicate TakesAway(tools: Calls, e: Event, call: string) {
    || (e.Based? && e.free)
    || (e.Finished? && FinishedAt(tools, e) < |tools| && tools[FinishedAt(tools, e)].0 == call)
  }

  /** The k-th event begins this call of a session that is then tracked. */
  ghost predicate BeginsAt(heard: seq<Heard>, id: string, call: string, k: int) {
    && 0 <= k < |heard| && SessionOf(heard[k].event) == Some(id) && id in After(heard[..k])
    && Begins(After(heard[..k])[id].tools, heard[k].event, call)
  }

  /** The k-th event ends this call: taken away, or gone with its session. */
  ghost predicate EndsAt(heard: seq<Heard>, id: string, call: string, k: int) {
    && 0 <= k < |heard| && SessionOf(heard[k].event) == Some(id) && id in After(heard[..k])
    && (heard[k].event.Deleted? || TakesAway(After(heard[..k])[id].tools, heard[k].event, call))
  }

  ghost predicate StillOut(heard: seq<Heard>, id: string, call: string, k: int) {
    BeginsAt(heard, id, call, k) && forall j :: k < j < |heard| ==> !EndsAt(heard, id, call, j)
  }

  ghost predicate IsOut(heard: seq<Heard>, id: string, call: string) {
    exists k :: StillOut(heard, id, call, k)
  }

  lemma PositionsStay(heard: seq<Heard>, id: string, call: string, k: int)
    requires heard != [] && k < |heard| - 1
    ensures BeginsAt(heard, id, call, k) <==> BeginsAt(heard[..|heard| - 1], id, call, k)
    ensures EndsAt(heard, id, call, k) <==> EndsAt(heard[..|heard| - 1], id, call, k)
  {
    if k >= 0 { assert heard[..|heard| - 1][..k] == heard[..k]; }
  }

  lemma OutOneMore(heard: seq<Heard>, id: string, call: string)
    requires heard != []
    ensures var n := |heard| - 1;
            IsOut(heard, id, call) <==>
              BeginsAt(heard, id, call, n) || (IsOut(heard[..n], id, call) && !EndsAt(heard, id, call, n))
  {
    hide BeginsAt, EndsAt;
    var n := |heard| - 1;
    var before := heard[..n];
    forall k | k < n
      ensures BeginsAt(heard, id, call, k) <==> BeginsAt(before, id, call, k)
      ensures EndsAt(heard, id, call, k) <==> EndsAt(before, id, call, k)
    {
      PositionsStay(heard, id, call, k);
    }
    if k :| StillOut(heard, id, call, k) {
      assert BeginsAt(heard, id, call, k) ==> k <= n by { BeginsInRange(heard, id, call, k); }
      if k < n { assert StillOut(before, id, call, k); }
    }
    if BeginsAt(heard, id, call, n) { assert StillOut(heard, id, call, n); }
    if IsOut(before, id, call) && !EndsAt(heard, id, call, n) {
      var k :| StillOut(before, id, call, k);
      BeginsInRange(before, id, call, k);
      assert StillOut(heard, id, call, k);
    }
  }

  lemma BeginsInRange(heard: seq<Heard>, id: string, call: string, k: int)
    ensures BeginsAt(heard, id, call, k) ==> 0 <= k < |heard|
  {
  }

  lemma OneEventOnKeys(t: Tracked, e: Event, now: int, call: string)
    requires OnePerCall(t.tools) && !e.Deleted?
    ensures HasCall(Changed(t, e, now).tools, call) <==>
              Begins(t.tools, e, call) || (HasCall(t.tools, call) && !TakesAway(t.tools, e, call))
  {
    match e
    case Started(_, tool, _) =>
      SetCallHas(t.tools, KeyOf(t.tools, e), Tool(if tool.Some? then tool.value else "unknown", now), call);
    case Finished(_, _, _) => DropAtHas(t.tools, FinishedAt(t.tools, e), call);
    case _ =>
  }

  /** What is outstanding is exactly the keys begun and not ended since, whether or
      not tool events name their calls. */
  lemma {:induction false} OutstandingKeysExactly(heard: seq<Heard>, id: string, call: string)
    requires id in After(heard)
    ensures HasCall(After(heard)[id].tools, call) <==> IsOut(heard, id, call)
  {
    var n := |heard| - 1;
    var before, e, at := After(heard[..n]), heard[n].event, heard[n].at;
    OutOneMore(heard, id, call);
    EverySessionIsShown(heard[..n]);
    hide IsOut, Changed, Begins, TakesAway;
    if id !in before {
      OutIsTracked(heard[..n], id, call);
    } else {
      OutstandingKeysExactly(heard[..n], id, call);
      if SessionOf(e) == Some(id) {
        OneEventOnKeys(before[id], e, at, call);
      }
    }
  }

  /** A call outstanding is a tracked session's. */
  lemma {:induction false} OutIsTracked(heard: seq<Heard>, id: string, call: string)
    ensures IsOut(heard, id, call) ==> id in After(heard)
  {
    if heard == [] {
    } else {
      OutIsTracked(heard[..|heard| - 1], id, call);
      OutOneMore(heard, id, call);
      hide IsOut, Changed, Begins, TakesAway;
    }
  }

  // ---- Which tool, and since when ----

  /** What is recorded under a key, when something is. */
  function CallUnder(tools: Calls, call: string): Option<Tool> {
    var i := FindCall(tools, call, 0);
    if i < |tools| then Some(tools[i].1) else None
  }

  lemma SetCallUnder(tools: Calls, call: string, t: Tool, c: string)
    requires OnePerCall(tools)
    ensures CallUnder(SetCall(tools, call, t), c) == if c == call then Some(t) else CallUnder(tools, c)
  {
    var r, i := SetCall(tools, call, t), FindCall(tools, call, 0);
    assert r[i] == (call, t);
    assert forall k :: 0 <= k < |tools| && k != i ==> r[k] == tools[k];
    if c != call && FindCall(tools, c, 0) < |tools| { assert r[FindCall(tools, c, 0)].0 == c; }
  }

  lemma DropAtUnder(tools: Calls, i: nat, c: string)
    requires OnePerCall(tools) && i <= |tools|
    ensures CallUnder(DropAt(tools, i), c) == if i < |tools| && tools[i].0 == c then None else CallUnder(tools, c)
  {
    var r, k := DropAt(tools, i), FindCall(tools, c, 0);
    assert forall j :: 0 <= j < |r| ==> r[j] == if j < i then tools[j] else tools[j + 1];
    if k < |tools| && k != i { assert r[if k < i then k else k - 1] == tools[k]; }
  }

  /** A call begun by an event: under its tool's name, if that is given, and begun when
      the event was handled. */
  predicate ToolOf(h: Heard, t: Tool) {
    && h.event.Started? && t.startedAt == h.at
    && match h.event.tool case None => t.name == "unknown" case Some(name) => t.name == name
  }

  /** The k-th event began the call of this key that is out now: nothing since ended
      it, and none began under its key. */
  ghost predicate LastBegun(heard: seq<Heard>, id: string, call: string, k: int) {
    StillOut(heard, id, call, k) && forall j :: k < j < |heard| ==> !BeginsAt(heard, id, call, j)
  }

  ghost predicate ToolIs(heard: seq<Heard>, id: string, call: string, t: Option<Tool>) {
    t.Some? ==> exists k :: LastBegun(heard, id, call, k) && ToolOf(heard[k], t.value)
  }

  lemma LastBegunOneMore(heard: seq<Heard>, id: string, call: string, k: int)
    requires heard != []
    ensures var n := |heard| - 1;
            LastBegun(heard, id, call, k) <==>
              if k == n then BeginsAt(heard, id, call, n)
              else LastBegun(heard[..n], id, call, k) && !EndsAt(heard, id, call, n) && !BeginsAt(heard, id, call, n)
  {
    hide BeginsAt, EndsAt;
    var n := |heard| - 1;
    forall j | j < n
      ensures BeginsAt(heard, id, call, j) <==> BeginsAt(heard[..n], id, call, j)
      ensures EndsAt(heard, id, call, j) <==> EndsAt(heard[..n], id, call, j)
    {
      PositionsStay(heard, id, call, j);
    }
    BeginsInRange(heard, id, call, k);
    BeginsInRange(heard[..n], id, call, k);
  }

  lemma OneEventOnTools(t: Tracked, h: Heard, call: string)
    requires OnePerCall(t.tools) && !h.event.Deleted?
    ensures var after := CallUnder(Changed(t, h.event, h.at).tools, call);
            && (Begins(t.tools, h.event, call) ==> after.Some? && ToolOf(h, after.value))
            && (!Begins(t.tools, h.event, call) && after.Some? ==>
                  !TakesAway(t.tools, h.event, call) && after == CallUnder(t.tools, call))
  {
    var e := h.event;
    match e
    case Started(_, tool, _) =>
      SetCallUnder(t.tools, KeyOf(t.tools, e), Tool(if tool.Some? then tool.value else "unknown", h.at), call);
    case Finished(_, _, _) => DropAtUnder(t.tools, FinishedAt(t.tools, e), call);
    case _ =>
  }

  /** What is outstanding under a key is the tool of the event that last began it, by
      name and since that was handled. */
  lemma {:induction false} OutstandingToolsExactly(heard: seq<Heard>, id: string, call: string)
    requires id in After(heard)
    ensures ToolIs(heard, id, call, CallUnder(After(heard)[id].tools, call))
  {
    var n := |heard| - 1;
    var before, h := After(heard[..n]), heard[n];
    EverySessionIsShown(heard[..n]);
    if id in before {
      OutstandingToolsExactly(heard[..n], id, call);
      ToolOneMore(heard, id, call);
    }
  }

  lemma ToolOneMore(heard: seq<Heard>, id: string, call: string)
    requires heard != [] && id in After(heard) && id in After(heard[..|heard| - 1])
    requires OnePerCall(After(heard[..|heard| - 1])[id].tools)
    requires ToolIs(heard[..|heard| - 1], id, call, CallUnder(After(heard[..|heard| - 1])[id].tools, call))
    ensures ToolIs(heard, id, call, CallUnder(After(heard)[id].tools, call))
  {
    var n := |heard| - 1;
    var before, h := After(heard[..n]), heard[n];
    var was, now' := CallUnder(before[id].tools, call), CallUnder(After(heard)[id].tools, call);
    if now'.Some? {
      LastBegunOneMore(heard, id, call, n);
      if SessionOf(h.event) == Some(id) {
        OneEventOnTools(before[id], h, call);
      }
      if BeginsAt(heard, id, call, n) {
        assert LastBegun(heard, id, call, n) && ToolOf(heard[n], now'.value);
      } else {
        assert now' == was && !EndsAt(heard, id, call, n);
        hide BeginsAt, EndsAt, After, CallUnder;
        var k :| LastBegun(heard[..n], id, call, k) && ToolOf(heard[..n][k], was.value);
        LastBegunOneMore(heard, id, call, k);
        BeginsInRange(heard[..n], id, call, k);
      }
    }
  }

  // ---- What else is shown ----

  /** Heard about the session, and counted as its activity: anything but taking in a
      session already known, and a reply to a request other than the one waiting. */
  predicate IsActivity(t: Tracked, e: Event) {
    match e
    case Described(_, _, adopted) => !adopted
    case Replied(_, request) =>
      t.snapshot.pending == None || request == None || request == Some(t.snapshot.pending.value.id)
    case Ignored => false
    case Deleted(_) => false
    case _ => true
  }

  /** A session is described as it was last, and was last active when it was last heard
      from. */
  lemma WhatElseIsShown(t: Tracked, e: Event, now: int)
    ensures var after := Changed(t, e, now).snapshot;
            && after.info == (if e.Described? && !e.adopted then e.info else t.snapshot.info)
            && after.lastActivityAt == (if IsActivity(t, e) then now else t.snapshot.lastActivityAt)
            && (!IsActivity(t, e) ==> Changed(t, e, now) == t)
  {
  }

  // ---- How many ----

  /** A start adds a call exactly when the key it goes under is not in use. */
  lemma AStartAddsExactly(tools: Calls, e: Event, t: Tool)
    requires e.Started?
    ensures |SetCall(tools, KeyOf(tools, e), t)| == |tools| + 1 <==> !HasCall(tools, KeyOf(tools, e))
  {
    var i := FindCall(tools, KeyOf(tools, e), 0);
    if i < |tools| { assert tools[i].0 == KeyOf(tools, e); }
  }

  /** Since a session was last idle or begun: the calls begun, those of them begun
      under a key still in use, and the completions that found their call. */
  datatype Tally = Tally(begun: nat, reused: nat, ended: nat)

  function Tallied(count: Tally, tools: Calls, e: Event): Tally {
    match e
    case Based(_, free) => if free then Tally(0, 0, 0) else count
    case Started(_, _, _) =>
      count.(begun := count.begun + 1, reused := count.reused + if HasCall(tools, KeyOf(tools, e)) then 1 else 0)
    case Finished(_, _, _) => count.(ended := count.ended + if FinishedAt(tools, e) < |tools| then 1 else 0)
    case _ => count
  }

  function TallyOf(heard: seq<Heard>, id: string): Tally {
    if heard == [] then Tally(0, 0, 0)
    else
      var n := |heard| - 1;
      var before := After(heard[..n]);
      if id !in before || heard[n].event == Deleted(id) then Tally(0, 0, 0)
      else if SessionOf(heard[n].event) != Some(id) then TallyOf(heard[..n], id)
      else Tallied(TallyOf(heard[..n], id), before[id].tools, heard[n].event)
  }

  lemma OneEventCounts(t: Tracked, count: Tally, e: Event, now: int)
    requires OnePerCall(t.tools) && !e.Deleted?
    requires |t.tools| + count.ended + count.reused == count.begun
    ensures var after := Tallied(count, t.tools, e);
            |Changed(t, e, now).tools| + after.ended + after.reused == after.begun
  {
    match e
    case Started(_, tool, _) =>
      AStartAddsExactly(t.tools, e, Tool(if tool.Some? then tool.value else "unknown", now));
    case _ =>
  }

  /** Over any events, every call begun is outstanding, or was ended, or was lost
      to a later one begun under its key. So the number outstanding is what began
      less what ended exactly when no start reused a key in use. */
  lemma {:induction false} CallsAreConserved(heard: seq<Heard>, id: string)
    requires id in After(heard)
    ensures var count := TallyOf(heard, id);
            && |After(heard)[id].tools| + count.ended + count.reused == count.begun
            && (|After(heard)[id].tools| == count.begun - count.ended <==> count.reused == 0)
  {
    var n := |heard| - 1;
    var before, e, at := After(heard[..n]), heard[n].event, heard[n].at;
    EverySessionIsShown(heard[..n]);
    if id in before {
      CallsAreConserved(heard[..n], id);
      if SessionOf(e) == Some(id) {
        hide Changed, Tallied, Shown;
        ShownIsOnePerCall(before[id]);
        OneEventCounts(before[id], TallyOf(heard[..n], id), e, at);
      }
    }
  }

  lemma ShownIsOnePerCall(t: Tracked)
    requires Shown(t)
    ensures OnePerCall(t.tools)
  {
  }

  lemma OneEventLater(heard: seq<Heard>, h: Heard, id: string)
    requires id in After(heard) && SessionOf(h.event) == Some(id) && !h.event.Deleted?
    ensures id in After(heard + [h])
    ensures After(heard + [h])[id] == Changed(After(heard)[id], h.event, h.at)
    ensures TallyOf(heard + [h], id) == Tallied(TallyOf(heard, id), After(heard)[id].tools, h.event)
  {
    assert (heard + [h])[..|heard|] == heard;
  }

  lemma JustBegun(id: string, info: Info, at: int)
    ensures var heard := [Heard(Described(id, info, false), at)];
            id in After(heard) && After(heard)[id] == Begun(info, at) && TallyOf(heard, id) == Tally(0, 0, 0)
  {
    var heard := [Heard(Described(id, info, false), at)];
    assert heard[..0] == [];
  }

  lemma UnnamedKeysDiffer(tool: Option<string>)
    ensures CallKey(tool, None, 0) != CallKey(tool, None, 1)
  {
    var name := (if tool.Some? then tool.value else "tool") + "-";
    assert CallKey(tool, None, 0) == name + "0" && CallKey(tool, None, 1) == name + "1";
    assert (name + "0")[|name|] != (name + "1")[|name|];
  }

  /** The reused key, in the calls alone. */
  lemma CallsThatReuseAKey(tool: Tool, k0: string, k1: string, a: Tool, b: Tool, c: Tool)
    requires k0 != k1 && tool.name == a.name == b.name == c.name
    ensures SetCall([], k0, a) == [(k0, a)]
    ensures SetCall([(k0, a)], k1, b) == [(k0, a), (k1, b)]
    ensures DropAt([(k0, a), (k1, b)], FindName([(k0, a), (k1, b)], Some(tool.name), 0)) == [(k1, b)]
    ensures FindName([(k1, b)], Some(tool.name), 0) == 0
    ensures SetCall([(k1, b)], k1, c) == [(k1, c)]
    ensures DropAt([(k1, c)], FindName([(k1, c)], Some(tool.name), 0)) == []
    ensures !HasCall([], k0) && !HasCall([(k0, a)], k1) && HasCall([(k1, b)], k1)
  {
    assert [(k1, b)][0].0 == k1;
  }

  lemma OneCallByName(key: string, t: Tool)
    ensures FindName([(key, t)], Some(t.name), 0) == 0 && DropAt([(key, t)], 0) == []
  {
  }

  function UnnamedStart(id: string, tool: string): Event {
    Started(Some(id), Some(tool), None)
  }

  function UnnamedFinish(id: string, tool: string): Event {
    Finished(Some(id), Some(tool), None)
  }

  lemma OneUnnamedStart(heard: seq<Heard>, id: string, tool: string, at: int)
    requires id in After(heard)
    ensures var tools, after := After(heard)[id].tools, heard + [Heard(UnnamedStart(id, tool), at)];
            var key, count := CallKey(Some(tool), None, |tools|), TallyOf(heard, id);
            && id in After(after)
            && After(after)[id].tools == SetCall(tools, key, Tool(tool, at))
            && TallyOf(after, id) == Tally(count.begun + 1, count.reused + if HasCall(tools, key) then 1 else 0, count.ended)
  {
    OneEventLater(heard, Heard(UnnamedStart(id, tool), at), id);
  }

  lemma OneUnnamedFinish(heard: seq<Heard>, id: string, tool: string, at: int)
    requires id in After(heard)
    ensures var tools, after := After(heard)[id].tools, heard + [Heard(UnnamedFinish(id, tool), at)];
            var k, count := FindName(tools, Some(tool), 0), TallyOf(heard, id);
            && id in After(after)
            && After(after)[id].tools == DropAt(tools, k)
            && TallyOf(after, id) == Tally(count.begun, count.reused, count.ended + if k < |tools| then 1 else 0)
  {
    OneEventLater(heard, Heard(UnnamedFinish(id, tool), at), id);
  }

  function FiveHeard(id: string, info: Info): seq<Heard> {
    [Heard(Described(id, info, false), 1)] + [Heard(UnnamedStart(id, "bash"), 2)] + [Heard(UnnamedStart(id, "bash"), 3)]
    + [Heard(UnnamedFinish(id, "bash"), 4)] + [Heard(UnnamedStart(id, "bash"), 5)]
  }

  lemma OfThreeBegunOneIsLeft(id: string, info: Info)
    ensures var heard := FiveHeard(id, info);
            && id in After(heard)
            && After(heard)[id].tools == [(CallKey(Some("bash"), None, 1), Tool("bash", 5))]
            && TallyOf(heard, id) == Tally(3, 1, 1)
  {
    var k0, k1 := CallKey(Some("bash"), None, 0), CallKey(Some("bash"), None, 1);
    var a, b, c := Tool("bash", 2), Tool("bash", 3), Tool("bash", 5);
    var h1 := [Heard(Described(id, info, false), 1)];
    JustBegun(id, info, 1);
    UnnamedKeysDiffer(Some("bash"));
    CallsThatReuseAKey(a, k0, k1, a, b, c);
    hide CallKey, SetCall, DropAt, FindName, HasCall, After, TallyOf;
    OneUnnamedStart(h1, id, "bash", 2);
    var h2 := h1 + [Heard(UnnamedStart(id, "bash"), 2)];
    OneUnnamedStart(h2, id, "bash", 3);
    var h3 := h2 + [Heard(UnnamedStart(id, "bash"), 3)];
    OneUnnamedFinish(h3, id, "bash", 4);
    var h4 := h3 + [Heard(UnnamedFinish(id, "bash"), 4)];
    OneUnnamedStart(h4, id, "bash", 5);
  }

  /** Where keys are reused a running call is lost: of three begun without an id
      and two finished, none is left and the session no longer shows a tool. */
  lemma AReusedKeyLosesACall(id: string, info: Info)
    ensures var heard := FiveHeard(id, info) + [Heard(UnnamedFinish(id, "bash"), 6)];
            && id in After(heard) && After(heard)[id].tools == []
            && After(heard)[id].snapshot.state != Running && After(heard)[id].snapshot.currentTool == None
            && TallyOf(heard, id) == Tally(3, 1, 2)
  {
    var k1, c := CallKey(Some("bash"), None, 1), Tool("bash", 5);
    OfThreeBegunOneIsLeft(id, info);
    OneCallByName(k1, c);
    hide CallKey, DropAt, FindName, After, TallyOf, FiveHeard;
    OneUnnamedFinish(FiveHeard(id, info), id, "bash", 6);
    EverySessionIsShown(FiveHeard(id, info) + [Heard(UnnamedFinish(id, "bash"), 6)]);
  }

  // ---- ... where every tool event names its own ----

  predicate NamesItsCall(e: Event) {
    (e.Started? ==> e.call.Some?) && (e.Finished? ==> e.call.Some?)
  }

  /** Ends a call: its completion, the session going idle, or its end. */
  predicate EndsCall(e: Event, id: string, call: string) {
    || e == Deleted(id)
    || (e.Based? && e.free && e.session == Some(id))
    || (e.Finished? && e.session == Some(id) && e.call == Some(call))
  }

  /** The k-th event began a call of a tracked session that nothing has ended. */
  ghost predicate StillRuns(heard: seq<Heard>, id: string, call: string, k: int) {
    && 0 <= k < |heard| && heard[k].event.Started? && heard[k].event.session == Some(id) && heard[k].event.call == Some(call)
    && IsTracked(heard[..k], id)
    && forall j :: k < j < |heard| ==> !EndsCall(heard[j].event, id, call)
  }

  ghost predicate Runs(heard: seq<Heard>, id: string, call: string) {
    exists k :: StillRuns(heard, id, call, k)
  }

  lemma RunsOneMore(heard: seq<Heard>, id: string, call: string)
    requires heard != []
    ensures var n, e := |heard| - 1, heard[|heard| - 1].event;
            Runs(heard, id, call) <==>
              || (e.Started? && e.session == Some(id) && e.call == Some(call) && IsTracked(heard[..n], id))
              || (Runs(heard[..n], id, call) && !EndsCall(e, id, call))
  {
    var n := |heard| - 1;
    var before, e := heard[..n], heard[n].event;
    assert forall j :: 0 <= j < n ==> before[j] == heard[j];
    if Runs(heard, id, call) {
      var k :| StillRuns(heard, id, call, k);
      if k < n {
        assert before[..k] == heard[..k];
        assert StillRuns(before, id, call, k);
      }
    }
    if e.Started? && e.session == Some(id) && e.call == Some(call) && IsTracked(before, id) {
      assert StillRuns(heard, id, call, n);
    }
    if Runs(before, id, call) && !EndsCall(e, id, call) {
      var k :| StillRuns(before, id, call, k);
      assert before[..k] == heard[..k];
      assert StillRuns(heard, id, call, k);
    }
  }

  lemma RunningIsTracked(heard: seq<Heard>, id: string, call: string)
    requires Runs(heard, id, call)
    ensures IsTracked(heard, id)
  {
    var k :| StillRuns(heard, id, call, k);
    var i :| TrackedSince(heard[..k], id, i);
    assert TrackedSince(heard, id, i) by {
      forall j | i < j < |heard| ensures heard[j].event != Deleted(id) {
        if j < k { assert heard[..k][j] == heard[j]; }
      }
    }
  }

  /** Where a session's tool events name their calls, the keys are those names, and
      what is outstanding can be told without the fold: what was begun and has
      been ended by nothing since. */
  lemma {:induction false} OutstandingExactly(heard: seq<Heard>, id: string, call: string)
    requires id in After(heard)
    requires forall k :: 0 <= k < |heard| && SessionOf(heard[k].event) == Some(id) ==> NamesItsCall(heard[k].event)
    ensures OnePerCall(After(heard)[id].tools)
    ensures HasCall(After(heard)[id].tools, call) <==> Runs(heard, id, call)
  {
    var n := |heard| - 1;
    var before, e, at := After(heard[..n]), heard[n].event, heard[n].at;
    EverySessionIsShown(heard);
    TrackedExactly(heard[..n], id);
    RunsOneMore(heard, id, call);
    if id !in before {
      if Runs(heard[..n], id, call) { RunningIsTracked(heard[..n], id, call); }
    } else {
      OutstandingExactly(heard[..n], id, call);
      if SessionOf(e) == Some(id) {
        OneEventOnCalls(before[id], e, at, id, call);
      }
    }
  }

  lemma OneEventOnCalls(t: Tracked, e: Event, now: int, id: string, call: string)
    requires OnePerCall(t.tools) && NamesItsCall(e) && SessionOf(e) == Some(id) && !e.Deleted?
    ensures HasCall(Changed(t, e, now).tools, call) <==>
              || (e.Started? && e.call == Some(call))
              || (HasCall(t.tools, call) && !EndsCall(e, id, call))
  {
    match e
    case Started(_, tool, c) => SetCallHas(t.tools, c.value, Tool(if tool.Some? then tool.value else "unknown", now), call);
    case Finished(_, _, c) => DropAtHas(t.tools, FindCall(t.tools, c.value, 0), call);
    case _ =>
  }
}
