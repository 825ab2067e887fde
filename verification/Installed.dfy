/** What an install leaves of birddog's own handlers: when each event it asks for
    ends with exactly one, the one just installed. */
module Installed {
  import opened Domain
  import opened Hooks

  /** Birddog's handlers among these, in order. */
  function Ours(hs: seq<Json>): seq<Json> {
    if hs == [] then []
    else Ours(hs[..|hs| - 1]) + if IsBirddog(hs[|hs| - 1]) then [hs[|hs| - 1]] else []
  }

  function OursOf(group: Json): seq<Json> {
    match HandlersOf(group) case None => [] case Some(hs) => Ours(hs)
  }

  function OursIn(groups: seq<Json>): seq<Json> {
    if groups == [] then [] else OursIn(groups[..|groups| - 1]) + OursOf(groups[|groups| - 1])
  }

  lemma {:induction false} OursExactly(hs: seq<Json>)
    ensures forall h :: h in Ours(hs) <==> h in hs && IsBirddog(h)
  {
    if hs != [] {
      hide IsBirddog;
      var n := |hs| - 1;
      OursExactly(hs[..n]);
      assert hs == hs[..n] + [hs[n]];
    }
  }

  lemma {:induction false} OursInExactly(groups: seq<Json>)
    ensures forall h :: h in OursIn(groups) <==> exists g :: g in groups && h in OursOf(g)
  {
    if groups != [] {
      hide Ours, HandlersOf;
      var n := |groups| - 1;
      OursInExactly(groups[..n]);
      assert groups == groups[..n] + [groups[n]];
      forall h ensures h in OursIn(groups) <==> exists g :: g in groups && h in OursOf(g) {
        if h in OursOf(groups[n]) { assert groups[n] in groups; }
        if g :| g in groups[..n] && h in OursOf(g) { assert g in groups; }
      }
    }
  }

  lemma {:induction false} OursInTwo(a: seq<Json>, b: seq<Json>)
    ensures OursIn(a + b) == OursIn(a) + OursIn(b)
  {
    hide OursOf;
    if b == [] {
      assert a + b == a;
    } else {
      var n := |b| - 1;
      OursInTwo(a, b[..n]);
      assert (a + b)[..|a| + n] == a + b[..n];
    }
  }

  lemma FirstIsIn(hs: seq<Json>)
    ensures hs == [] || hs[0] in hs
  {
  }

  lemma NoneOfOurs(g: Json)
    requires !GroupHasBirddog(g)
    ensures OursOf(g) == []
  {
    hide IsBirddog;
    if HandlersOf(g).Some? {
      OursExactly(HandlersOf(g).value);
      FirstIsIn(Ours(HandlersOf(g).value));
      assert forall h :: h in HandlersOf(g).value ==> !IsBirddog(h);
    }
  }

  /** What cleaning leaves holds none. */
  lemma CleanedHoldsNone(groups: seq<Json>)
    requires !HasBirddog(groups)
    ensures OursIn(groups) == []
  {
    hide OursIn, GroupHasBirddog, OursOf;
    OursInExactly(groups);
    forall g | g in groups ensures OursOf(g) == [] {
      NoneOfOurs(g);
    }
    FirstIsIn(OursIn(groups));
  }

  /** Exactly one handler of birddog's, and it runs this command. */
  predicate JustThis(groups: seq<Json>, command: string) {
    |OursIn(groups)| == 1 && Runs(OursIn(groups)[0], command)
  }

  /** Each event birddog asks to be told of ends with exactly that. */
  ghost predicate NothingStale(hooks: map<string, Json>, command: string) {
    forall k :: 0 <= k < |EVENTS| ==> JustThis(GroupsFor(hooks, EVENTS[k]), command)
  }

  /** Some event birddog asks for holds more than one of its handlers. */
  ghost predicate Doubled(hooks: map<string, Json>) {
    exists k :: 0 <= k < |EVENTS| && |OursIn(GroupsFor(hooks, EVENTS[k]))| > 1
  }

  lemma OnlyOurNameRunsOurs(h: Json, binary: string)
    requires Runs(h, binary + MARKER)
    ensures IsBirddog(h) <==> EndsWithBinary(binary)
  {
    AHandlerIsRecognisedExactly(binary);
    hide EndsWithBinary;
  }

  lemma HeldInOne(groups: seq<Json>, command: string)
    requires HasCommand(groups, command) && (forall h :: Runs(h, command) ==> IsBirddog(h))
    ensures exists h :: h in OursIn(groups) && Runs(h, command)
  {
    hide IsBirddog, OursIn;
    OursInExactly(groups);
    var i :| 0 <= i < |groups| && GroupHasCommand(groups[i], command);
    var hs := HandlersOf(groups[i]).value;
    var j :| 0 <= j < |hs| && Runs(hs[j], command);
    OursExactly(hs);
    assert hs[j] in hs && hs[j] in OursOf(groups[i]) && groups[i] in groups;
  }

  lemma RewrittenHoldsOne(hooks: map<string, Json>, event: string, binary: string)
    requires event in EVENTS
    ensures var after := GroupsFor(InstalledHooks(hooks, binary + MARKER), event);
            OursIn(after) == if EndsWithBinary(binary) then [Handler(binary + MARKER)] else []
  {
    var command := binary + MARKER;
    var kept, g := WithoutBirddog(GroupsFor(hooks, event)), GroupOf(binary + MARKER);
    var k :| 0 <= k < |EVENTS| && EVENTS[k] == event;
    assert event in (set j | 0 <= j < |EVENTS| :: EVENTS[j]);
    assert GroupsFor(InstalledHooks(hooks, command), event) == kept + [g];
    CleaningIsExact(GroupsFor(hooks, event));
    CleanedHoldsNone(kept);
    OurGroup(binary);
    AHandlerIsRecognisedExactly(binary);
    OursInTwo(kept, [g]);
    OneGroupOfOurs(g, Handler(command));
    hide EndsWithBinary, IsBirddog, OursIn, WithoutBirddog;
  }

  lemma OneGroupOfOurs(g: Json, h: Json)
    requires HandlersOf(g) == Some([h])
    ensures OursIn([g]) == if IsBirddog(h) then [h] else []
  {
    hide IsBirddog, HandlersOf;
    assert [g][..0] == [] && [h][..0] == [];
    assert Ours([h]) == if IsBirddog(h) then [h] else [];
  }

  /** An install leaves each of its events with exactly one handler of birddog's,
      running the binary named, exactly when that binary is called birddog and the
      document did not both hold the command under every event already and another
      handler of birddog's beside it: such a document is taken to be up to date. */
  lemma AnInstallLeavesNothingStaleExactly(doc: Doc, binary: string)
    requires Install(doc, binary).Edited?
    ensures var hooks, command := HooksOf(doc).value, binary + MARKER;
            NothingStale(HooksOf(Install(doc, binary).doc).value, command) <==>
              EndsWithBinary(binary) && !(MatchesInstall(hooks, command) && Doubled(hooks))
  {
    var hooks, command := HooksOf(doc).value, binary + MARKER;
    if MatchesInstall(hooks, command) {
      UntouchedIsNotStaleExactly(hooks, binary);
    } else {
      RewrittenIsNotStaleExactly(hooks, binary);
    }
    hide EndsWithBinary, NothingStale, Doubled, MatchesInstall, InstalledHooks;
  }

  lemma NothingStaleIsOurs(hooks: map<string, Json>, binary: string)
    requires NothingStale(hooks, binary + MARKER)
    ensures EndsWithBinary(binary)
  {
    hide EndsWithBinary, IsBirddog, OursIn;
    var groups := GroupsFor(hooks, EVENTS[0]);
    assert JustThis(groups, binary + MARKER);
    OursAreOurs(groups);
    FirstIsIn(OursIn(groups));
    OnlyOurNameRunsOurs(OursIn(groups)[0], binary);
  }

  lemma RewrittenIsNotStaleExactly(hooks: map<string, Json>, binary: string)
    ensures NothingStale(InstalledHooks(hooks, binary + MARKER), binary + MARKER) <==> EndsWithBinary(binary)
  {
    hide EndsWithBinary, IsBirddog, OursIn, InstalledHooks;
    var command := binary + MARKER;
    if EndsWithBinary(binary) {
      forall k | 0 <= k < |EVENTS| ensures JustThis(GroupsFor(InstalledHooks(hooks, command), EVENTS[k]), command) {
        RewrittenHoldsOne(hooks, EVENTS[k], binary);
      }
    } else if NothingStale(InstalledHooks(hooks, command), command) {
      NothingStaleIsOurs(InstalledHooks(hooks, command), binary);
    }
  }

  lemma UntouchedIsNotStaleExactly(hooks: map<string, Json>, binary: string)
    requires MatchesInstall(hooks, binary + MARKER)
    ensures NothingStale(hooks, binary + MARKER) <==> EndsWithBinary(binary) && !Doubled(hooks)
  {
    hide EndsWithBinary, IsBirddog, OursIn;
    var command := binary + MARKER;
    if EndsWithBinary(binary) {
      forall k | 0 <= k < |EVENTS|
        ensures JustThis(GroupsFor(hooks, EVENTS[k]), command) <==> |OursIn(GroupsFor(hooks, EVENTS[k]))| <= 1
      {
        OneIsThis(GroupsFor(hooks, EVENTS[k]), binary);
      }
    } else if NothingStale(hooks, command) {
      NothingStaleIsOurs(hooks, binary);
    }
  }

  lemma OneIsThis(groups: seq<Json>, binary: string)
    requires EndsWithBinary(binary) && HasCommand(groups, binary + MARKER)
    ensures JustThis(groups, binary + MARKER) <==> |OursIn(groups)| <= 1
  {
    hide EndsWithBinary, IsBirddog, OursIn;
    forall h | Runs(h, binary + MARKER) ensures IsBirddog(h) { OnlyOurNameRunsOurs(h, binary); }
    HeldInOne(groups, binary + MARKER);
  }

  lemma OursAreOurs(groups: seq<Json>)
    ensures forall h :: h in OursIn(groups) ==> IsBirddog(h)
  {
    hide IsBirddog, OursIn;
    OursInExactly(groups);
    forall g, h | g in groups && h in OursOf(g) ensures IsBirddog(h) {
      OursExactly(HandlersOf(g).value);
    }
  }

  // ---- A stale handler that stays ----

  const HERE := "birddog"
  const OLD := "/old/birddog"

  /** The handler asked for, and beside it the one of an older path. */
  function BothHandlers(): Json {
    Arr([Obj(map["hooks" := Arr([Handler(HERE + MARKER), Handler(OLD + MARKER)])])])
  }

  function BothEverywhere(): map<string, Json> {
    map e | e in EVENTS :: BothHandlers()
  }

  /** Every event holds both: installing writes nothing, and the old path stays. */
  lemma AStaleHandlerStays()
    ensures var doc: Doc := map["hooks" := Obj(BothEverywhere())];
            Install(doc, HERE) == Edited(doc, false)
    ensures forall e :: e in BothEverywhere() ==>
              OursIn(GroupsFor(BothEverywhere(), e)) == [Handler(HERE + MARKER), Handler(OLD + MARKER)]
  {
    var doc: Doc := map["hooks" := Obj(BothEverywhere())];
    var here, old' := Handler(HERE + MARKER), Handler(OLD + MARKER);
    var g := Obj(map["hooks" := Arr([here, old'])]);
    var groups := [g];
    BothAreOurs();
    hide IsBirddog;
    assert HandlersOf(g) == Some([here, old']);
    assert Runs(HandlersOf(g).value[0], HERE + MARKER);
    assert GroupHasCommand(groups[0], HERE + MARKER);
    assert HasCommand(groups, HERE + MARKER);
    forall e | e in EVENTS ensures GroupsFor(BothEverywhere(), e) == groups {
    }
    TwoOfOurs(g, here, old');
    hide Handler, HasCommand, BothEverywhere;
    assert doc["hooks" := Obj(BothEverywhere())] == doc;
  }

  lemma TwoOfOurs(g: Json, a: Json, b: Json)
    requires HandlersOf(g) == Some([a, b]) && IsBirddog(a) && IsBirddog(b)
    ensures OursIn([g]) == [a, b]
  {
    hide IsBirddog, HandlersOf;
    assert [g][..0] == [] && [a, b][..1] == [a] && [a][..0] == [];
    assert Ours([a]) == [a] && Ours([a, b]) == [a, b];
  }

  lemma BothAreOurs()
    ensures IsBirddog(Handler(HERE + MARKER)) && IsBirddog(Handler(OLD + MARKER))
  {
    NoSlash(HERE, 7);
    assert HERE[..7] == HERE;
    AHandlerIsRecognisedExactly(HERE);
    assert OLD == "/old/" + HERE && OLD[4] == '/';
    SlashBefore(OLD, 5, 12);
    assert OLD[5..] == HERE;
    AHandlerIsRecognisedExactly(OLD);
  }

  lemma {:induction false} NoSlash(path: string, n: nat)
    requires n <= |path| && forall i :: 0 <= i < n ==> path[i] != '/'
    ensures LastSegment(path, n) == path
  {
    if n > 0 { NoSlash(path, n - 1); }
  }

  lemma {:induction false} SlashBefore(path: string, from: nat, n: nat)
    requires 0 < from <= n <= |path| && path[from - 1] == '/' && forall i :: from <= i < n ==> path[i] != '/'
    ensures LastSegment(path, n) == path[from..]
  {
    if n > from { SlashBefore(path, from, n - 1); }
  }

  // ---- Whose a handler is ----

  /** A path to a program called birddog: the bare name, or one that ends in it after
      a slash. */
  ghost predicate PathToBirddog(path: string) {
    path == "birddog" || exists dir :: path == dir + "/birddog"
  }

  lemma {:induction false} WhereTheSegmentBegins(path: string, n: nat) returns (from: nat)
    requires n <= |path|
    ensures from <= n && LastSegment(path, n) == path[from..]
    ensures from == 0 || path[from - 1] == '/'
  {
    if n == 0 || path[n - 1] == '/' {
      from := n;
    } else {
      from := WhereTheSegmentBegins(path, n - 1);
    }
  }

  lemma PathsExactly(path: string)
    ensures EndsWithBinary(path) <==> PathToBirddog(path)
  {
    var name := "birddog";
    assert forall i :: 0 <= i < 7 ==> name[i] != '/';
    if EndsWithBinary(path) {
      var from := WhereTheSegmentBegins(path, |path|);
      assert path == path[..from] + path[from..];
      if from > 0 { assert path == path[..from - 1] + "/birddog"; }
    }
    if path == name { NoSlash(path, 7); }
    if dir :| path == dir + "/birddog" {
      assert path[|dir| + 1..] == name;
      assert forall i :: |dir| + 1 <= i < |path| ==> path[i] == name[i - |dir| - 1];
      SlashBefore(path, |dir| + 1, |path|);
    }
  }

  /** A handler is birddog's exactly when it runs a program of that name, wherever it
      is, with the one argument. */
  lemma AHandlerIsOursExactly(h: Json)
    ensures IsBirddog(h) <==> h.Obj? && "command" in h.fields && exists path :: PathToBirddog(path) && h.fields["command"] == Str(path + " hook")
  {
    if IsBirddog(h) {
      var command := h.fields["command"].s;
      var path := command[..|command| - 5];
      PathsExactly(path);
      assert command == path + " hook";
    }
    if h.Obj? && "command" in h.fields {
      if path :| PathToBirddog(path) && h.fields["command"] == Str(path + " hook") {
        PathsExactly(path);
        var command := path + " hook";
        assert command[|command| - 5..] == " hook" && command[..|command| - 5] == path;
      }
    }
  }

  // ---- What an install adds ----

  /** Somebody's groups, and after them one that runs this command and nothing else. */
  predicate OursLast(groups: seq<Json>, theirs: seq<Json>, command: string) {
    && |groups| == |theirs| + 1 && groups[..|theirs|] == theirs
    && groups[|theirs|] == Obj(map["hooks" := Arr([Obj(map["type" := Str("command"), "command" := Str(command)])])])
  }

  /** An install that writes puts one group after everybody else's, for each event it
      asks for, and leaves every other event as it was. */
  lemma AnInstallAppends(doc: Doc, binary: string, event: string)
    requires Install(doc, binary).Edited? && Install(doc, binary).changed
    ensures var before, after := HooksOf(doc).value, HooksOf(Install(doc, binary).doc).value;
            if event in ["PreToolUse", "PostToolUse", "PermissionRequest", "PermissionDenied", "Stop", "SubagentStop", "SessionEnd"]
            then OursLast(GroupsFor(after, event), Theirs(doc, event), binary + " hook")
            else (event in after <==> event in before) && (event in before ==> after[event] == before[event])
  {
    hide WithoutBirddog, MatchesInstall;
    if event in EVENTS {
      var k :| 0 <= k < |EVENTS| && EVENTS[k] == event;
    }
  }
}
