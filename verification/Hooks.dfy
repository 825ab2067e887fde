/** Installing and removing birddog's hook handlers in a settings document that
    belongs to somebody else. */
module Hooks {
  import opened Domain

  datatype Json =
    | Null
    | Bool(b: bool)
    | Num(n: int)
    | Str(s: string)
    | Arr(items: seq<Json>)
    | Obj(fields: map<string, Json>)

  const MARKER := " hook"

  const EVENTS: seq<string> := [
    "PreToolUse", "PostToolUse", "PermissionRequest", "PermissionDenied", "Stop", "SubagentStop", "SessionEnd"]

  lemma EventsAreDistinct()
    ensures DistinctEvents(EVENTS)
  {
    assert EVENTS[0][1] == 'r' && EVENTS[6][1] == 'e';
    assert |EVENTS[0]| == 10 && |EVENTS[1]| == 11 && |EVENTS[2]| == 17 && |EVENTS[3]| == 16;
    assert |EVENTS[4]| == 4 && |EVENTS[5]| == 12 && |EVENTS[6]| == 10;
  }

  // ---- Recognising birddog's handlers ----

  /** What follows the last slash among the first `n` characters. */
  function LastSegment(path: string, n: nat): string
    requires n <= |path|
  {
    if n == 0 then path
    else if path[n - 1] == '/' then path[n..]
    else LastSegment(path, n - 1)
  }

  predicate EndsWithBinary(path: string) {
    LastSegment(path, |path|) == "birddog"
  }

  predicate IsBirddog(h: Json) {
    && h.Obj? && "command" in h.fields && h.fields["command"].Str?
    && var command := h.fields["command"].s;
       && |command| > |MARKER|
       && command[|command| - |MARKER|..] == MARKER
       && EndsWithBinary(command[..|command| - |MARKER|])
  }

  function Handler(command: string): Json {
    Obj(map["type" := Str("command"), "command" := Str(command)])
  }

  function GroupOf(command: string): Json {
    Obj(map["hooks" := Arr([Handler(command)])])
  }

  /** A handler that installing writes is recognised as birddog's exactly when the
      binary is called birddog. */
  lemma AHandlerIsRecognisedExactly(binary: string)
    ensures IsBirddog(Handler(binary + MARKER)) <==> EndsWithBinary(binary)
  {
    var command := binary + MARKER;
    assert EndsWithBinary(binary) ==> binary != "";
    assert command[|command| - |MARKER|..] == MARKER && command[..|command| - |MARKER|] == binary;
  }

  // ---- Groups of handlers ----

  /** The handlers of a matcher group, if it has a list of them. */
  function HandlersOf(group: Json): Option<seq<Json>> {
    if group.Obj? && "hooks" in group.fields && group.fields["hooks"].Arr? then Some(group.fields["hooks"].items) else None
  }

  function WithHandlers(group: Json, hs: seq<Json>): Json
    requires group.Obj?
  {
    Obj(group.fields["hooks" := Arr(hs)])
  }

  function Others(hs: seq<Json>): seq<Json> {
    if hs == [] then []
    else Others(hs[..|hs| - 1]) + if IsBirddog(hs[|hs| - 1]) then [] else [hs[|hs| - 1]]
  }

  predicate AnyBirddog(hs: seq<Json>) {
    exists i :: 0 <= i < |hs| && IsBirddog(hs[i])
  }

  /** What is left of one group: nothing, when it existed only for birddog. */
  function Cleaned(group: Json): seq<Json> {
    match HandlersOf(group)
    case None => [group]
    case Some(hs) => if Others(hs) == [] then [] else [WithHandlers(group, Others(hs))]
  }

  function WithoutBirddog(groups: seq<Json>): seq<Json> {
    if groups == [] then [] else WithoutBirddog(groups[..|groups| - 1]) + Cleaned(groups[|groups| - 1])
  }

  predicate GroupHasBirddog(group: Json) {
    HandlersOf(group).Some? && AnyBirddog(HandlersOf(group).value)
  }

  predicate HasBirddog(groups: seq<Json>) {
    exists i :: 0 <= i < |groups| && GroupHasBirddog(groups[i])
  }

  /** Every handler of an event that is not birddog's, in order. */
  function ForeignHandlers(groups: seq<Json>): seq<Json> {
    if groups == [] then []
    else
      var g := groups[|groups| - 1];
      ForeignHandlers(groups[..|groups| - 1]) + if HandlersOf(g).Some? then Others(HandlersOf(g).value) else []
  }

  lemma {:induction false} OthersOfTwo(a: seq<Json>, b: seq<Json>)
    ensures Others(a + b) == Others(a) + Others(b)
  {
    if b == [] {
      assert a + b == a;
    } else {
      var n := |b| - 1;
      OthersOfTwo(a, b[..n]);
      assert (a + b)[..|a| + n] == a + b[..n];
    }
  }

  lemma AnyOfTwo(a: seq<Json>, b: seq<Json>)
    ensures AnyBirddog(a + b) <==> AnyBirddog(a) || AnyBirddog(b)
  {
    hide IsBirddog;
    if AnyBirddog(a) {
      var i :| 0 <= i < |a| && IsBirddog(a[i]);
      assert (a + b)[i] == a[i];
    }
    if AnyBirddog(b) {
      var i :| 0 <= i < |b| && IsBirddog(b[i]);
      assert (a + b)[|a| + i] == b[i];
    }
  }

  lemma OthersOfOne(h: Json)
    ensures Others([h]) == if IsBirddog(h) then [] else [h]
    ensures AnyBirddog([h]) <==> IsBirddog(h)
  {
    hide IsBirddog;
    assert [h][..0] == [];
    if IsBirddog(h) { assert IsBirddog([h][0]); }
  }

  lemma {:induction false} OthersHasNone(hs: seq<Json>)
    ensures !AnyBirddog(Others(hs))
    ensures Others(Others(hs)) == Others(hs)
    ensures Others(hs) == hs <==> !AnyBirddog(hs)
    ensures |Others(hs)| <= |hs|
  {
    if hs != [] {
      var n := |hs| - 1;
      var rest, h := hs[..n], hs[n];
      assert hs == rest + [h];
      OthersHasNone(rest);
      OthersOfOne(h);
      hide IsBirddog, AnyBirddog, Others;
      OthersOfTwo(rest, [h]);
      OthersOfTwo(Others(rest), Others([h]));
      OthersOfOne(h);
      AnyOfTwo(rest, [h]);
      AnyOfTwo(Others(rest), Others([h]));
      OthersNone();
      if !IsBirddog(h) {
        assert Others(hs) == Others(rest) + [h];
        assert Others(hs) == hs ==> Others(rest) == rest by {
          assert (Others(rest) + [h])[..|Others(rest)|] == Others(rest);
        }
      }
    }
  }

  lemma OthersNone()
    ensures Others([]) == [] && !AnyBirddog([])
  {
  }

  lemma {:induction false} WithoutOfTwo(a: seq<Json>, b: seq<Json>)
    ensures WithoutBirddog(a + b) == WithoutBirddog(a) + WithoutBirddog(b)
  {
    hide Cleaned;
    if b == [] {
      assert a + b == a;
    } else {
      var n := |b| - 1;
      WithoutOfTwo(a, b[..n]);
      assert (a + b)[..|a| + n] == a + b[..n];
    }
  }

  lemma {:induction false} ForeignOfTwo(a: seq<Json>, b: seq<Json>)
    ensures ForeignHandlers(a + b) == ForeignHandlers(a) + ForeignHandlers(b)
  {
    hide Others, HandlersOf;
    if b == [] {
      assert a + b == a;
    } else {
      var n := |b| - 1;
      ForeignOfTwo(a, b[..n]);
      assert (a + b)[..|a| + n] == a + b[..n];
    }
  }

  lemma HasOfTwo(a: seq<Json>, b: seq<Json>)
    ensures HasBirddog(a + b) <==> HasBirddog(a) || HasBirddog(b)
  {
    if HasBirddog(a) {
      var i :| 0 <= i < |a| && GroupHasBirddog(a[i]);
      assert (a + b)[i] == a[i];
    }
    if HasBirddog(b) {
      var i :| 0 <= i < |b| && GroupHasBirddog(b[i]);
      assert (a + b)[|a| + i] == b[i];
    }
  }

  /** A group that keeps some handlers, cleaned. */
  lemma Narrowed(g: Json, o: seq<Json>)
    requires HandlersOf(g).Some? && o == Others(HandlersOf(g).value) && o != []
    ensures Cleaned(g) == [WithHandlers(g, o)]
    ensures HandlersOf(WithHandlers(g, o)) == Some(o)
    ensures Cleaned(WithHandlers(g, o)) == [WithHandlers(g, o)]
    ensures !GroupHasBirddog(WithHandlers(g, o))
    ensures WithHandlers(g, o) == g <==> o == HandlersOf(g).value
  {
    hide IsBirddog, AnyBirddog, Others;
    OthersHasNone(HandlersOf(g).value);
    var x := WithHandlers(g, o);
    assert x.fields["hooks" := Arr(o)] == x.fields;
    assert g.fields["hooks" := Arr(HandlersOf(g).value)] == g.fields;
  }

  lemma CleanedOnce(g: Json)
    ensures WithoutBirddog(Cleaned(g)) == Cleaned(g)
    ensures ForeignHandlers(Cleaned(g)) == if HandlersOf(g).Some? then Others(HandlersOf(g).value) else []
    ensures !HasBirddog(Cleaned(g))
    ensures Cleaned(g) == [g] <==> !GroupHasBirddog(g) && HandlersOf(g) != Some([])
    ensures |Cleaned(g)| <= 1
  {
    hide IsBirddog, AnyBirddog, Others;
    OneGroup(g);
    if HandlersOf(g).None? {
    } else {
      var o := Others(HandlersOf(g).value);
      OthersHasNone(HandlersOf(g).value);
      OthersNone();
      if o != [] {
        Narrowed(g, o);
        OneGroup(WithHandlers(g, o));
        hide WithHandlers, HandlersOf, Cleaned, WithoutBirddog, ForeignHandlers, HasBirddog;
      }
    }
  }

  lemma OneGroup(g: Json)
    ensures WithoutBirddog([g]) == Cleaned(g)
    ensures ForeignHandlers([g]) == if HandlersOf(g).Some? then Others(HandlersOf(g).value) else []
    ensures HasBirddog([g]) <==> GroupHasBirddog(g)
  {
    hide Others, GroupHasBirddog;
    assert [g][..0] == [];
    if GroupHasBirddog(g) { assert GroupHasBirddog([g][0]); }
  }

  /** No group exists only for a handler it no longer has. */
  predicate NoHollowGroup(groups: seq<Json>) {
    forall i :: 0 <= i < |groups| ==> HandlersOf(groups[i]) != Some([])
  }

  /** Cleaning keeps every other handler, leaves none of birddog's, and does
      nothing the second time. */
  lemma {:induction false} CleaningIsExact(groups: seq<Json>)
    ensures ForeignHandlers(WithoutBirddog(groups)) == ForeignHandlers(groups)
    ensures !HasBirddog(WithoutBirddog(groups))
    ensures WithoutBirddog(WithoutBirddog(groups)) == WithoutBirddog(groups)
    ensures WithoutBirddog(groups) == groups <==> !HasBirddog(groups) && NoHollowGroup(groups)
    ensures |WithoutBirddog(groups)| <= |groups|
  {
    if groups != [] {
      var n := |groups| - 1;
      var rest, g := groups[..n], groups[n];
      assert groups == rest + [g];
      CleaningIsExact(rest);
      CleanedOnce(g);
      OneGroup(g);
      WithoutOfTwo(rest, [g]);
      WithoutOfTwo(WithoutBirddog(rest), Cleaned(g));
      ForeignOfTwo(rest, [g]);
      ForeignOfTwo(WithoutBirddog(rest), Cleaned(g));
      HasOfTwo(rest, [g]);
      HasOfTwo(WithoutBirddog(rest), Cleaned(g));
      hide Cleaned, HandlersOf, Others, GroupHasBirddog, HasBirddog, NoHollowGroup;
      CleanedWhole(rest, g, groups);
    }
  }

  lemma CleanedWhole(rest: seq<Json>, g: Json, groups: seq<Json>)
    requires groups == rest + [g]
    requires |WithoutBirddog(rest)| <= |rest| && |Cleaned(g)| <= 1
    ensures WithoutBirddog(rest) + Cleaned(g) == groups <==> WithoutBirddog(rest) == rest && Cleaned(g) == [g]
    ensures NoHollowGroup(groups) <==> NoHollowGroup(rest) && HandlersOf(g) != Some([])
  {
    var a, b := WithoutBirddog(rest), Cleaned(g);
    if a + b == groups {
      assert |a| == |rest| && |b| == 1;
      assert a == (a + b)[..|rest|] && b == (a + b)[|rest|..];
    }
    assert groups[|rest|] == g;
    assert forall i :: 0 <= i < |rest| ==> groups[i] == rest[i];
  }

  // ---- Documents ----

  type Doc = map<string, Json>

  /** The hooks of a document: none, an object, or something that is not one. */
  function HooksOf(doc: Doc): Option<map<string, Json>> {
    if "hooks" !in doc then Some(map[])
    else if doc["hooks"].Obj? then Some(doc["hooks"].fields)
    else None
  }

  function GroupsFor(hooks: map<string, Json>, event: string): seq<Json> {
    if event in hooks && hooks[event].Arr? then hooks[event].items else []
  }

  predicate HasCommand(groups: seq<Json>, command: string) {
    exists i :: 0 <= i < |groups| && GroupHasCommand(groups[i], command)
  }

  predicate GroupHasCommand(group: Json, command: string) {
    HandlersOf(group).Some? && exists j :: 0 <= j < |HandlersOf(group).value| && Runs(HandlersOf(group).value[j], command)
  }

  predicate Runs(h: Json, command: string) {
    h.Obj? && "command" in h.fields && h.fields["command"] == Str(command)
  }

  predicate MatchesInstall(hooks: map<string, Json>, command: string) {
    forall k :: 0 <= k < |EVENTS| ==> HasCommand(GroupsFor(hooks, EVENTS[k]), command)
  }

  function InstalledEntry(hooks: map<string, Json>, event: string, command: string): Json {
    Arr(WithoutBirddog(GroupsFor(hooks, event)) + [GroupOf(command)])
  }

  function InstalledFor(hooks: map<string, Json>, command: string, events: seq<string>): map<string, Json> {
    map e | e in hooks.Keys + (set k | 0 <= k < |events| :: events[k]) ::
      if e in events then InstalledEntry(hooks, e, command) else hooks[e]
  }

  function InstalledHooks(hooks: map<string, Json>, command: string): map<string, Json> {
    InstalledFor(hooks, command, EVENTS)
  }

  datatype Edit = Refused | Edited(doc: Doc, changed: bool)

  function Install(doc: Doc, binary: string): Edit {
    if binary == "" || HooksOf(doc).None? then Refused
    else
      var hooks, command := HooksOf(doc).value, binary + MARKER;
      if MatchesInstall(hooks, command) then Edited(doc["hooks" := Obj(hooks)], false)
      else Edited(doc["hooks" := Obj(InstalledHooks(hooks, command))], true)
  }

  /** What uninstalling leaves of one entry: `None` when it goes. */
  function UninstalledEntry(entry: Json): Option<Json> {
    if !entry.Arr? || !HasBirddog(entry.items) then Some(entry)
    else if WithoutBirddog(entry.items) == [] then None
    else Some(Arr(WithoutBirddog(entry.items)))
  }

  function UninstalledHooks(hooks: map<string, Json>): map<string, Json> {
    map e | e in hooks && UninstalledEntry(hooks[e]).Some? :: UninstalledEntry(hooks[e]).value
  }

  predicate Uninstallable(hooks: map<string, Json>) {
    exists e :: e in hooks && hooks[e].Arr? && HasBirddog(hooks[e].items)
  }

  function Uninstall(doc: Doc): Edit {
    if HooksOf(doc).None? then Refused
    else
      var hooks := UninstalledHooks(HooksOf(doc).value);
      Edited(if "hooks" !in doc then doc else if hooks == map[] then doc - {"hooks"} else doc["hooks" := Obj(hooks)],
             Uninstallable(HooksOf(doc).value))
  }

  /** What is somebody else's under an event: every group with its matcher, less
      birddog's handlers and the groups that have no others. */
  function Theirs(doc: Doc, event: string): seq<Json> {
    if HooksOf(doc).None? then [] else WithoutBirddog(GroupsFor(HooksOf(doc).value, event))
  }

  // ---- What is never touched ----

  lemma OurGroup(binary: string)
    ensures var h, g := Handler(binary + MARKER), GroupOf(binary + MARKER);
            && HandlersOf(g) == Some([h]) && WithHandlers(g, [h]) == g
            && (GroupHasBirddog(g) <==> EndsWithBinary(binary))
            && Cleaned(g) == if EndsWithBinary(binary) then [] else [g]
  {
    var h, g := Handler(binary + MARKER), GroupOf(binary + MARKER);
    AHandlerIsRecognisedExactly(binary);
    OthersOfOne(h);
    hide EndsWithBinary, IsBirddog, Handler, Others, AnyBirddog;
    assert g.fields["hooks" := Arr([h])] == g.fields;
  }

  /** The group installing appends, cleaned away when it is recognised. */
  lemma AddingOurs(groups: seq<Json>, binary: string)
    ensures var g := GroupOf(binary + MARKER);
            && WithoutBirddog(WithoutBirddog(groups) + [g])
               == WithoutBirddog(groups) + (if EndsWithBinary(binary) then [] else [g])
            && (HasBirddog(WithoutBirddog(groups) + [g]) <==> EndsWithBinary(binary))
  {
    hide EndsWithBinary, GroupOf, WithoutBirddog, Cleaned, HasBirddog, GroupHasBirddog;
    var g := GroupOf(binary + MARKER);
    CleaningIsExact(groups);
    WithoutOfTwo(WithoutBirddog(groups), [g]);
    HasOfTwo(WithoutBirddog(groups), [g]);
    OneGroup(g);
    OurGroup(binary);
  }

  /** Installs a handler that later edits will take for somebody else's. */
  predicate Disowns(doc: Doc, op: Op, event: string) {
    && op.InstallOp? && !EndsWithBinary(op.binary) && event in EVENTS
    && Install(doc, op.binary).Edited? && Install(doc, op.binary).changed
  }

  predicate OutsideKept(before: Doc, after: Doc) {
    forall f :: f in before && f != "hooks" ==> f in after && after[f] == before[f]
  }

  lemma InstallKeepsTheirs(doc: Doc, binary: string, event: string)
    requires Install(doc, binary).Edited?
    ensures Theirs(Install(doc, binary).doc, event)
         == Theirs(doc, event) + if Disowns(doc, InstallOp(binary), event) then [GroupOf(binary + MARKER)] else []
    ensures OutsideKept(doc, Install(doc, binary).doc)
  {
    hide WithoutBirddog, MatchesInstall, EndsWithBinary, GroupOf;
    var hooks := HooksOf(doc).value;
    AddingOurs(GroupsFor(hooks, event), binary);
    if event in EVENTS {
      var k :| 0 <= k < |EVENTS| && EVENTS[k] == event;
    }
  }

  lemma UninstallKeepsTheirs(doc: Doc, event: string)
    requires Uninstall(doc).Edited?
    ensures Theirs(Uninstall(doc).doc, event) == Theirs(doc, event)
    ensures OutsideKept(doc, Uninstall(doc).doc)
  {
    var hooks := HooksOf(doc).value;
    assert WithoutBirddog([]) == [];
    hide WithoutBirddog, HasBirddog;
    CleaningIsExact(GroupsFor(hooks, event));
    var after := UninstalledHooks(hooks);
    assert WithoutBirddog(GroupsFor(after, event)) == WithoutBirddog(GroupsFor(hooks, event));
  }

  datatype Op = InstallOp(binary: string) | UninstallOp

  /** A refused edit leaves the document as it was. */
  function Do(doc: Doc, op: Op): Doc {
    var r := match op case InstallOp(b) => Install(doc, b) case UninstallOp => Uninstall(doc);
    if r.Edited? then r.doc else doc
  }

  function DoAll(doc: Doc, ops: seq<Op>): Doc {
    if ops == [] then doc else Do(DoAll(doc, ops[..|ops| - 1]), ops[|ops| - 1])
  }

  lemma DoKeepsTheirs(doc: Doc, op: Op, event: string)
    ensures Theirs(doc, event) <= Theirs(Do(doc, op), event)
    ensures Theirs(Do(doc, op), event) == Theirs(doc, event) <==> !Disowns(doc, op, event)
    ensures OutsideKept(doc, Do(doc, op))
  {
    hide Theirs, Disowns, GroupOf;
    match op
    case InstallOp(b) =>
      if Install(doc, b).Edited? { InstallKeepsTheirs(doc, b, event); } else { RefusedDisownsNothing(doc, b, event); }
    case UninstallOp =>
      UninstallDisownsNothing(doc, event);
      if Uninstall(doc).Edited? { UninstallKeepsTheirs(doc, event); }
  }

  lemma RefusedDisownsNothing(doc: Doc, binary: string, event: string)
    requires Install(doc, binary).Refused?
    ensures !Disowns(doc, InstallOp(binary), event)
  {
  }

  lemma UninstallDisownsNothing(doc: Doc, event: string)
    ensures !Disowns(doc, UninstallOp, event)
  {
  }

  /** The document after the first `k` of the edits. */
  function DocAt(doc: Doc, ops: seq<Op>, k: nat): Doc
    requires k <= |ops|
  {
    DoAll(doc, ops[..k])
  }

  ghost predicate NoneDisowns(doc: Doc, ops: seq<Op>, event: string) {
    forall k :: 0 <= k < |ops| ==> !Disowns(DocAt(doc, ops, k), ops[k], event)
  }

  lemma DocStays(doc: Doc, ops: seq<Op>, k: nat)
    requires ops != [] && k < |ops|
    ensures DocAt(doc, ops[..|ops| - 1], k) == DocAt(doc, ops, k) || k == |ops| - 1
    ensures DocAt(doc, ops, |ops| - 1) == DoAll(doc, ops[..|ops| - 1])
  {
    assert k < |ops| - 1 ==> ops[..|ops| - 1][..k] == ops[..k];
  }

  lemma NothingDisownsNothing(doc: Doc, event: string)
    ensures NoneDisowns(doc, [], event)
  {
  }

  lemma NoneDisownsOneMore(doc: Doc, ops: seq<Op>, event: string)
    requires ops != []
    ensures var n := |ops| - 1;
            NoneDisowns(doc, ops, event) <==>
              NoneDisowns(doc, ops[..n], event) && !Disowns(DoAll(doc, ops[..n]), ops[n], event)
  {
    hide Disowns, DocAt;
    var n := |ops| - 1;
    forall k: nat | k < n ensures DocAt(doc, ops[..n], k) == DocAt(doc, ops, k) {
      DocStays(doc, ops, k);
    }
    DocStays(doc, ops, n);
  }

  /** However often hooks are installed and removed, under whatever name, every
      event keeps the groups that are not birddog's, each with its matcher and in
      order, and nothing outside the hooks changes. Nothing is added to them
      exactly unless some install, under another name, wrote something. */
  lemma {:induction false} OthersAreNeverTouched(doc: Doc, ops: seq<Op>, event: string)
    ensures Theirs(doc, event) <= Theirs(DoAll(doc, ops), event)
    ensures Theirs(DoAll(doc, ops), event) == Theirs(doc, event) <==> NoneDisowns(doc, ops, event)
    ensures OutsideKept(doc, DoAll(doc, ops))
  {
    hide Theirs, Disowns, Do, NoneDisowns;
    if ops == [] {
      NothingDisownsNothing(doc, event);
    } else {
      var n := |ops| - 1;
      OthersAreNeverTouched(doc, ops[..n], event);
      DoKeepsTheirs(DoAll(doc, ops[..n]), ops[n], event);
      NoneDisownsOneMore(doc, ops, event);
    }
  }

  // ---- Installing twice, and undoing ----

  lemma InstalledMatches(hooks: map<string, Json>, command: string)
    ensures MatchesInstall(InstalledHooks(hooks, command), command)
  {
    var r := InstalledHooks(hooks, command);
    forall k | 0 <= k < |EVENTS| ensures HasCommand(GroupsFor(r, EVENTS[k]), command) {
      var e := EVENTS[k];
      assert e in (set j | 0 <= j < |EVENTS| :: EVENTS[j]);
      var groups := GroupsFor(r, e);
      assert groups == WithoutBirddog(GroupsFor(hooks, e)) + [GroupOf(command)];
      var g := groups[|groups| - 1];
      assert g == GroupOf(command) && HandlersOf(g) == Some([Handler(command)]);
      assert Runs(HandlersOf(g).value[0], command);
      assert GroupHasCommand(g, command);
    }
  }

  /** Installing what is already installed changes nothing and says so. */
  lemma InstallTwice(doc: Doc, binary: string)
    requires Install(doc, binary).Edited?
    ensures Install(Install(doc, binary).doc, binary) == Edited(Install(doc, binary).doc, false)
  {
    InstalledMatches(HooksOf(doc).value, binary + MARKER);
  }

  /** After an uninstall none of birddog's handlers is left in a list, so a
      second one has nothing to do. */
  lemma UninstallTwice(doc: Doc)
    requires Uninstall(doc).Edited?
    ensures Uninstall(Uninstall(doc).doc).Edited? && !Uninstall(Uninstall(doc).doc).changed
  {
    var hooks := HooksOf(doc).value;
    forall e | e in hooks && hooks[e].Arr? ensures !HasBirddog(WithoutBirddog(hooks[e].items)) {
      CleaningIsExact(hooks[e].items);
    }
  }

  /** An entry that installing and then removing gives back. */
  predicate Restorable(hooks: map<string, Json>, event: string) {
    event in hooks ==>
      if event in EVENTS then
        && hooks[event].Arr? && hooks[event].items != []
        && !HasBirddog(hooks[event].items) && NoHollowGroup(hooks[event].items)
      else
        hooks[event].Arr? ==> !HasBirddog(hooks[event].items)
  }

  lemma EntryThereAndBack(hooks: map<string, Json>, event: string, binary: string)
    requires EndsWithBinary(binary)
    ensures var there := InstalledHooks(hooks, binary + MARKER);
            (Restorable(hooks, event) <==>
              if event in there && UninstalledEntry(there[event]).Some?
              then event in hooks && UninstalledEntry(there[event]).value == hooks[event]
              else event !in hooks)
  {
    hide ForeignHandlers, WithoutBirddog, HasBirddog, NoHollowGroup, EndsWithBinary, GroupOf;
    var groups := GroupsFor(hooks, event);
    AddingOurs(groups, binary);
    CleaningIsExact(groups);
    if event in hooks && hooks[event].Arr? && event !in EVENTS {
      if HasBirddog(groups) { assert WithoutBirddog(groups) != groups; }
    }
    if event in EVENTS {
      var k :| 0 <= k < |EVENTS| && EVENTS[k] == event;
    }
  }

  lemma OurCommandIsOurs(groups: seq<Json>, binary: string)
    requires EndsWithBinary(binary) && HasCommand(groups, binary + MARKER)
    ensures HasBirddog(groups)
  {
    AHandlerIsRecognisedExactly(binary);
    var i :| 0 <= i < |groups| && GroupHasCommand(groups[i], binary + MARKER);
    var hs := HandlersOf(groups[i]).value;
    var j :| 0 <= j < |hs| && Runs(hs[j], binary + MARKER);
    assert IsBirddog(hs[j]);
    assert GroupHasBirddog(groups[i]);
  }

  /** Where it was installed already, removing it removes something. */
  lemma AlreadyInstalledIsNotRestored(doc: Doc, binary: string)
    requires EndsWithBinary(binary) && HooksOf(doc).Some? && MatchesInstall(HooksOf(doc).value, binary + MARKER)
    ensures !Restorable(HooksOf(doc).value, EVENTS[0])
    ensures Uninstall(Install(doc, binary).doc).Edited? && Uninstall(Install(doc, binary).doc).doc != doc
  {
    var hooks := HooksOf(doc).value;
    var e := EVENTS[0];
    var groups := GroupsFor(hooks, e);
    assert HasCommand(groups, binary + MARKER);
    OurCommandIsOurs(groups, binary);
    assert e in hooks && hooks[e].Arr?;
    CleaningIsExact(groups);
    assert doc["hooks" := Obj(hooks)] == doc;
    assert e !in UninstalledHooks(hooks) || UninstalledHooks(hooks)[e] != hooks[e];
    assert UninstalledHooks(hooks) != hooks;
  }

  lemma InstallingAddsOurs(hooks: map<string, Json>, binary: string)
    requires EndsWithBinary(binary)
    ensures Uninstallable(InstalledHooks(hooks, binary + MARKER))
  {
    var there, e := InstalledHooks(hooks, binary + MARKER), EVENTS[0];
    AddingOurs(GroupsFor(hooks, e), binary);
    assert e in (set j | 0 <= j < |EVENTS| :: EVENTS[j]);
    assert e in there && there[e] == InstalledEntry(hooks, e, binary + MARKER);
  }

  lemma HooksThereAndBack(hooks: map<string, Json>, binary: string)
    requires EndsWithBinary(binary)
    ensures UninstalledHooks(InstalledHooks(hooks, binary + MARKER)) == hooks <==> forall e :: Restorable(hooks, e)
  {
    var there := InstalledHooks(hooks, binary + MARKER);
    var back := UninstalledHooks(there);
    forall e ensures Restorable(hooks, e) <==> if e in back then e in hooks && back[e] == hooks[e] else e !in hooks {
      EntryThereAndBack(hooks, e, binary);
    }
  }

  /** Under another name, whatever was written stays. */
  lemma AnotherNameStays(doc: Doc, binary: string)
    requires !EndsWithBinary(binary) && Install(doc, binary).Edited?
    requires !MatchesInstall(HooksOf(doc).value, binary + MARKER)
    ensures Uninstall(Install(doc, binary).doc).Edited? && Uninstall(Install(doc, binary).doc).doc != doc
  {
    var there, back := Install(doc, binary).doc, Uninstall(Install(doc, binary).doc).doc;
    var event := EVENTS[0];
    assert Disowns(doc, InstallOp(binary), event);
    InstallKeepsTheirs(doc, binary, event);
    UninstallKeepsTheirs(there, event);
    hide Theirs, Disowns, Install, Uninstall;
    assert |Theirs(back, event)| > |Theirs(doc, event)|;
  }

  lemma NothingUninstalled(doc: Doc)
    requires HooksOf(doc).Some? && "hooks" in doc && HooksOf(doc).value != map[]
    ensures Uninstall(doc).Edited? && (Uninstall(doc).doc == doc <==> !Uninstallable(HooksOf(doc).value))
  {
    var hooks := HooksOf(doc).value;
    assert doc["hooks" := Obj(hooks)] == doc;
    if e :| e in hooks && hooks[e].Arr? && HasBirddog(hooks[e].items) {
      CleaningIsExact(hooks[e].items);
      assert e in UninstalledHooks(hooks) ==> UninstalledHooks(hooks)[e] != hooks[e];
      assert UninstalledHooks(hooks) != hooks;
    } else {
      assert UninstalledHooks(hooks) == hooks;
    }
  }

  lemma MatchedHasHooks(doc: Doc, command: string)
    requires HooksOf(doc).Some? && MatchesInstall(HooksOf(doc).value, command)
    ensures "hooks" in doc && HooksOf(doc).value != map[]
    ensures doc["hooks" := Obj(HooksOf(doc).value)] == doc
  {
    assert HasCommand(GroupsFor(HooksOf(doc).value, EVENTS[0]), command);
  }

  /** When uninstalling gives back the very document installing was given.
      Installed under birddog's name: exactly when no list held a handler of
      birddog's, the hooks were absent or not empty, and the entries for the
      installed events were absent or lists with something in them and no hollow
      group. Under another name: only when installing had nothing to write and
      uninstalling nothing to remove. */
  ghost predicate ComesBack(doc: Doc, binary: string)
    requires HooksOf(doc).Some?
  {
    var hooks := HooksOf(doc).value;
    if EndsWithBinary(binary) then ("hooks" in doc ==> hooks != map[]) && forall e :: Restorable(hooks, e)
    else MatchesInstall(hooks, binary + MARKER) && !Uninstallable(hooks)
  }

  lemma UninstallRestoresExactly(doc: Doc, binary: string)
    requires Install(doc, binary).Edited?
    ensures Uninstall(Install(doc, binary).doc).Edited?
    ensures Uninstall(Install(doc, binary).doc).doc == doc <==> ComesBack(doc, binary)
    ensures EndsWithBinary(binary) && ComesBack(doc, binary) ==> Uninstall(Install(doc, binary).doc).changed
  {
    hide EndsWithBinary, InstalledHooks, UninstalledHooks, Restorable, Uninstallable, MatchesInstall;
    var hooks := HooksOf(doc).value;
    if MatchesInstall(hooks, binary + MARKER) {
      MatchedHasHooks(doc, binary + MARKER);
      if EndsWithBinary(binary) {
        AlreadyInstalledIsNotRestored(doc, binary);
      } else {
        NothingUninstalled(doc);
      }
    } else if EndsWithBinary(binary) {
      HooksThereAndBack(hooks, binary);
      InstallingAddsOurs(hooks, binary);
      var there := InstalledHooks(hooks, binary + MARKER);
      var with := doc["hooks" := Obj(there)];
      assert "hooks" !in doc ==> with - {"hooks"} == doc;
      assert "hooks" in doc ==> doc["hooks" := Obj(hooks)] == doc;
      assert with["hooks" := Obj(UninstalledHooks(there))] == doc["hooks" := Obj(UninstalledHooks(there))];
    } else {
      AnotherNameStays(doc, binary);
    }
  }

  /** An empty document, and a binary of another name: every entry could come
      back, and none does. */
  lemma ARenamedBinaryIsNotUndone()
    ensures Install(map[], "/opt/bin/bd").Edited? && (forall e :: Restorable(map[], e))
    ensures Uninstall(Install(map[], "/opt/bin/bd").doc).doc != map[]
  {
    var binary := "/opt/bin/bd";
    assert binary[|binary| - 3] == '/' && binary[|binary| - 1] != '/' && binary[|binary| - 2] != '/';
    assert LastSegment(binary, |binary| - 2) == binary[|binary| - 2..];
    assert LastSegment(binary, |binary|) == binary[|binary| - 2..];
    assert |binary[|binary| - 2..]| == 2 && |"birddog"| == 7;
    assert !HasCommand(GroupsFor(map[], EVENTS[0]), binary + MARKER);
    AnotherNameStays(map[], binary);
  }

  // ---- Editing a parsed document in place ----

  method KeepOthers(handlers: seq<Json>) returns (kept: seq<Json>, removed: bool)
    ensures kept == Others(handlers) && (removed <==> AnyBirddog(handlers))
  {
    hide IsBirddog;
    kept, removed := [], false;
    var i := 0;
    while i < |handlers|
      invariant 0 <= i <= |handlers|
      invariant kept == Others(handlers[..i]) && (removed <==> AnyBirddog(handlers[..i]))
    {
      assert handlers[..i + 1] == handlers[..i] + [handlers[i]];
      AnyOfTwo(handlers[..i], [handlers[i]]);
      OthersOfTwo(handlers[..i], [handlers[i]]);
      OthersOfOne(handlers[i]);
      if IsBirddog(handlers[i]) {
        removed := true;
      } else {
        kept := kept + [handlers[i]];
      }
      i := i + 1;
    }
    assert handlers[..i] == handlers;
  }

  method DropOurs(groups: seq<Json>) returns (kept: seq<Json>, removed: bool)
    ensures kept == WithoutBirddog(groups) && (removed <==> HasBirddog(groups))
  {
    hide Others, AnyBirddog;
    kept, removed := [], false;
    var i := 0;
    while i < |groups|
      invariant 0 <= i <= |groups|
      invariant kept == WithoutBirddog(groups[..i]) && (removed <==> HasBirddog(groups[..i]))
    {
      var group := groups[i];
      assert groups[..i + 1] == groups[..i] + [group];
      WithoutOfTwo(groups[..i], [group]);
      HasOfTwo(groups[..i], [group]);
      OneGroup(group);
      if HandlersOf(group).None? {
        kept := kept + [group];
      } else {
        var keptHandlers, ours := KeepOthers(group.fields["hooks"].items);
        removed := removed || ours;
        if keptHandlers != [] {
          kept := kept + [WithHandlers(group, keptHandlers)];
        }
      }
      i := i + 1;
    }
    assert groups[..i] == groups;
  }

  /** The first `n` of the installed events done. */
  ghost predicate InstalledSoFar(was: map<string, Json>, now: map<string, Json>, command: string, events: seq<string>, n: nat) {
    && n <= |events|
    && (forall e :: e in now <==> e in was || e in events[..n])
    && (forall e :: e in now ==> now[e] == if e in events[..n] then InstalledEntry(was, e, command) else was[e])
  }

  ghost predicate DistinctEvents(events: seq<string>) {
    forall i, j :: 0 <= i < j < |events| ==> events[i] != events[j]
  }

  /** The entries of `left` still to be looked at. */
  ghost predicate UninstalledSoFar(was: map<string, Json>, now: map<string, Json>, left: set<string>, changed: bool) {
    && (forall e :: e in now <==> e in was && (e in left || UninstalledEntry(was[e]).Some?))
    && (forall e :: e in now ==> now[e] == if e in left then was[e] else UninstalledEntry(was[e]).value)
    && (changed <==> exists e :: e in was && e !in left && was[e].Arr? && HasBirddog(was[e].items))
  }

  class Settings {
    var doc: Doc

    constructor (doc: Doc)
      ensures this.doc == doc
    {
      this.doc := doc;
    }

    method InstallInPlace(binary: string) returns (r: Edit)
      modifies this
      ensures r == Install(old(doc), binary)
      ensures doc == if r.Edited? then r.doc else old(doc)
    {
      if binary == "" {
        return Refused;
      }
      if "hooks" in doc && !doc["hooks"].Obj? {
        return Refused;
      }
      var hooks: map<string, Json> := if "hooks" in doc then doc["hooks"].fields else map[];
      var command := binary + MARKER;
      if MatchesInstall(hooks, command) {
        doc := doc["hooks" := Obj(hooks)];
        return Edited(doc, false);
      }
      EventsAreDistinct();
      hooks := InstallEvents(hooks, command, EVENTS);
      doc := doc["hooks" := Obj(hooks)];
      return Edited(doc, true);
    }

    static method InstallEvents(was: map<string, Json>, command: string, events: seq<string>) returns (hooks: map<string, Json>)
      requires DistinctEvents(events)
      ensures hooks == InstalledFor(was, command, events)
    {
      hide WithoutBirddog;
      hooks := was;
      var n := 0;
      while n < |events|
        invariant 0 <= n <= |events| && InstalledSoFar(was, hooks, command, events, n)
      {
        var event := events[n];
        assert event !in events[..n];
        assert forall e :: e in events[..n + 1] <==> e in events[..n] || e == event;
        var groups := if event in hooks && hooks[event].Arr? then hooks[event].items else [];
        var kept, _ := DropOurs(groups);
        hooks := hooks[event := Arr(kept + [GroupOf(command)])];
        n := n + 1;
      }
      assert events[..n] == events;
      assert forall e :: e in events <==> e in (set k | 0 <= k < |events| :: events[k]);
    }

    method UninstallInPlace() returns (r: Edit)
      modifies this
      ensures r == Uninstall(old(doc))
      ensures doc == if r.Edited? then r.doc else old(doc)
    {
      if "hooks" !in doc {
        return Edited(doc, false);
      }
      if !doc["hooks"].Obj? {
        return Refused;
      }
      var hooks, changed := UninstallEvents(doc["hooks"].fields);
      if hooks == map[] {
        doc := doc - {"hooks"};
      } else {
        doc := doc["hooks" := Obj(hooks)];
      }
      return Edited(doc, changed);
    }

    static method UninstallEvents(was: map<string, Json>) returns (hooks: map<string, Json>, changed: bool)
      ensures hooks == UninstalledHooks(was) && (changed <==> Uninstallable(was))
    {
      hide WithoutBirddog, HasBirddog;
      hooks, changed := was, false;
      var left := was.Keys;
      while left != {}
        invariant left <= was.Keys && UninstalledSoFar(was, hooks, left, changed)
        decreases |left|
      {
        var event :| event in left;
        left := left - {event};
        if hooks[event].Arr? {
          var kept, removed := DropOurs(hooks[event].items);
          if removed {
            changed := true;
            if kept == [] {
              hooks := hooks - {event};
            } else {
              hooks := hooks[event := Arr(kept)];
            }
          }
        }
      }
    }
  }
}
