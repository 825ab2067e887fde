/** Finding the question a session is waiting on, in as much of its transcript
    as was read. */
module Detect {
  import opened Domain
  import opened Tail

  datatype PartKind = TextPart | ToolUse | ToolResult | OtherPart

  datatype Part = Part(kind: PartKind, text: string, name: string, id: string, toolUseId: string, input: string)

  datatype Record = Record(role: string, isSidechain: bool, parts: seq<Part>)

  datatype Question = Exact(detail: string) | Inferred(detail: string)

  const ASK_TOOL := "AskUserQuestion"

  predicate IsAsk(p: Part) {
    p.kind == ToolUse && p.name == ASK_TOOL
  }

  // ---- What is asked and what is answered ----

  predicate Answers(p: Part, id: string) {
    p.kind == ToolResult && p.toolUseId != "" && p.toolUseId == id
  }

  /** A message outside any sidechain holds a result for this call. */
  ghost predicate Answered(recs: seq<Record>, id: string) {
    exists i, j :: 0 <= i < |recs| && 0 <= j < |recs[i].parts| && !recs[i].isSidechain && Answers(recs[i].parts[j], id)
  }

  /** A message that settles the question either way. */
  predicate Settles(r: Record) {
    !r.isSidechain && r.parts != []
  }

  /** The newest of them. */
  ghost predicate Newest(recs: seq<Record>, i: int) {
    0 <= i < |recs| && Settles(recs[i]) && forall k :: i < k < |recs| ==> !Settles(recs[k])
  }

  /** The first call in a message that asks and has no answer. */
  ghost predicate FirstUnanswered(recs: seq<Record>, parts: seq<Part>, j: int) {
    && 0 <= j < |parts|
    && IsAsk(parts[j]) && !Answered(recs, parts[j].id)
    && forall k :: 0 <= k < j && IsAsk(parts[k]) ==> Answered(recs, parts[k].id)
  }

  ghost predicate NoneUnanswered(recs: seq<Record>, parts: seq<Part>) {
    forall k :: 0 <= k < |parts| && IsAsk(parts[k]) ==> Answered(recs, parts[k].id)
  }

  /** The last text part of a message. */
  function TrailingText(parts: seq<Part>, n: nat): string
    requires n <= |parts|
  {
    if n == 0 then ""
    else if parts[n - 1].kind == TextPart then parts[n - 1].text
    else TrailingText(parts, n - 1)
  }

  predicate EndsInQuestion(s: string) {
    s != "" && s[|s| - 1] == '?'
  }

  /** What a message that asks nothing exactly still suggests, of an idle session. */
  function Suggests(r: Record, idle: bool, lastSentence: string -> string): Option<Question> {
    if !idle || r.role != "assistant" then None
    else
      var s := lastSentence(TrailingText(r.parts, |r.parts|));
      if EndsInQuestion(s) then Some(Inferred(s)) else None
  }

  /** What is reported, said without the walk: nothing when no message settles
      it; the first unanswered ask of the newest that does; else what that
      message suggests. */
  ghost predicate Reports(recs: seq<Record>, idle: bool, askText: string -> string, lastSentence: string -> string,
                          q: Option<Question>)
  {
    && ((forall k :: 0 <= k < |recs| ==> !Settles(recs[k])) ==> q == None)
    && (forall i, j :: Newest(recs, i) && FirstUnanswered(recs, recs[i].parts, j) ==>
          q == Some(Exact(askText(recs[i].parts[j].input))))
    && (forall i :: Newest(recs, i) && NoneUnanswered(recs, recs[i].parts) ==> q == Suggests(recs[i], idle, lastSentence))
  }

  // ---- The detector ----

  method AnsweredCalls(recs: seq<Record>) returns (answered: set<string>)
    ensures forall id :: id in answered <==> Answered(recs, id)
  {
    answered := {};
    var i := 0;
    while i < |recs|
      invariant 0 <= i <= |recs|
      invariant forall id :: id in answered <==> AnsweredBefore(recs, id, i, 0)
    {
      if !recs[i].isSidechain {
        var j := 0;
        while j < |recs[i].parts|
          invariant 0 <= j <= |recs[i].parts|
          invariant forall id :: id in answered <==> AnsweredBefore(recs, id, i, j)
        {
          var p := recs[i].parts[j];
          forall id ensures AnsweredBefore(recs, id, i, j + 1) <==> AnsweredBefore(recs, id, i, j) || Answers(p, id) {
            OnePartOn(recs, id, i, j);
          }
          if p.kind == ToolResult && p.toolUseId != "" {
            answered := answered + {p.toolUseId};
          }
          j := j + 1;
        }
      }
      ghost var m, next := if recs[i].isSidechain then 0 else |recs[i].parts|, i + 1;
      forall id ensures AnsweredBefore(recs, id, next, 0) <==> AnsweredBefore(recs, id, i, m) {
        OneRecordOn(recs, id, i);
      }
      i := i + 1;
    }
  }

  /** Answered in the first `n` records or the first `m` parts of the next. */
  ghost predicate AnsweredBefore(recs: seq<Record>, id: string, n: nat, m: nat) {
    exists i, j :: 0 <= i < |recs| && 0 <= j < |recs[i].parts| && !recs[i].isSidechain && Answers(recs[i].parts[j], id)
                && (i < n || (i == n && j < m))
  }

  lemma OnePartOn(recs: seq<Record>, id: string, i: nat, j: nat)
    requires i < |recs| && j < |recs[i].parts| && !recs[i].isSidechain
    ensures AnsweredBefore(recs, id, i, j + 1) <==> AnsweredBefore(recs, id, i, j) || Answers(recs[i].parts[j], id)
  {
    if AnsweredBefore(recs, id, i, j) {
      var a, b :| 0 <= a < |recs| && 0 <= b < |recs[a].parts| && !recs[a].isSidechain && Answers(recs[a].parts[b], id)
               && (a < i || (a == i && b < j));
      assert a < i || (a == i && b < j + 1);
    }
  }

  lemma OneRecordOn(recs: seq<Record>, id: string, i: nat)
    requires i < |recs|
    ensures AnsweredBefore(recs, id, i + 1, 0) <==>
              AnsweredBefore(recs, id, i, if recs[i].isSidechain then 0 else |recs[i].parts|)
  {
    var m := if recs[i].isSidechain then 0 else |recs[i].parts|;
    if AnsweredBefore(recs, id, i + 1, 0) {
      var a, b :| 0 <= a < |recs| && 0 <= b < |recs[a].parts| && !recs[a].isSidechain && Answers(recs[a].parts[b], id)
               && (a < i + 1 || (a == i + 1 && b < 0));
      assert a < i || (a == i && b < m);
    }
    if AnsweredBefore(recs, id, i, m) {
      var a, b :| 0 <= a < |recs| && 0 <= b < |recs[a].parts| && !recs[a].isSidechain && Answers(recs[a].parts[b], id)
               && (a < i || (a == i && b < m));
      assert a < i + 1;
    }
  }

  /** Looks from the end for the first message that settles anything. */
  method Detect(recs: seq<Record>, idle: bool, askText: string -> string, lastSentence: string -> string)
    returns (q: Option<Question>)
    ensures Reports(recs, idle, askText, lastSentence, q)
  {
    var answered := AnsweredCalls(recs);
    var i := |recs| - 1;
    while i >= 0
      invariant -1 <= i < |recs|
      invariant forall k :: i < k < |recs| ==> !Settles(recs[k])
    {
      var r := recs[i];
      if !r.isSidechain {
        var j := 0;
        while j < |r.parts|
          invariant 0 <= j <= |r.parts|
          invariant forall k :: 0 <= k < j && IsAsk(r.parts[k]) ==> Answered(recs, r.parts[k].id)
        {
          if IsAsk(r.parts[j]) && r.parts[j].id !in answered {
            assert Newest(recs, i) && FirstUnanswered(recs, r.parts, j);
            return Some(Exact(askText(r.parts[j].input)));
          }
          j := j + 1;
        }
        if r.parts != [] {
          assert Newest(recs, i) && NoneUnanswered(recs, r.parts);
          if !idle || r.role != "assistant" {
            return None;
          }
          var s := lastSentence(TrailingText(r.parts, |r.parts|));
          if EndsInQuestion(s) {
            return Some(Inferred(s));
          }
          return None;
        }
      }
      i := i - 1;
    }
    return None;
  }

  lemma NewestIsOne(recs: seq<Record>, a: int, b: int)
    requires Newest(recs, a) && Newest(recs, b)
    ensures a == b
  {
  }

  /** An exact question is reported precisely when the newest message that is not
      a sidechain's and says anything asks something nothing has answered. */
  lemma ExactExactly(recs: seq<Record>, idle: bool, askText: string -> string, lastSentence: string -> string,
                     q: Option<Question>)
    requires Reports(recs, idle, askText, lastSentence, q)
    ensures q.Some? && q.value.Exact? <==> exists i, j :: OpenAsk(recs, i, j)
  {
    hide Answered;
    var i := NewestOf(recs);
    if i >= 0 {
      var parts := recs[i].parts;
      var j := FirstUnansweredOf(recs, parts);
      if j < |parts| {
        assert OpenAsk(recs, i, j);
      } else {
        assert q == Suggests(recs[i], idle, lastSentence);
        forall a, b ensures !OpenAsk(recs, a, b) {
          if Newest(recs, a) { NewestIsOne(recs, a, i); }
        }
      }
    }
  }

  /** Said of the parts alone: the k-th part of the i-th message asks the human; no
      message after it, outside a sidechain, has any part; and no message outside a
      sidechain holds a result for that call, before it or after. */
  ghost predicate StillAsked(recs: seq<Record>, i: int, j: int) {
    && 0 <= i < |recs| && 0 <= j < |recs[i].parts| && !recs[i].isSidechain
    && recs[i].parts[j].kind == ToolUse && recs[i].parts[j].name == "AskUserQuestion"
    && (forall k :: i < k < |recs| ==> recs[k].isSidechain || recs[k].parts == [])
    && (forall a, b :: 0 <= a < |recs| && 0 <= b < |recs[a].parts| && !recs[a].isSidechain && recs[a].parts[b].kind == ToolResult ==>
          recs[a].parts[b].toolUseId == "" || recs[a].parts[b].toolUseId != recs[i].parts[j].id)
  }

  lemma OpenIsStillAsked(recs: seq<Record>, i: int, j: int)
    ensures OpenAsk(recs, i, j) <==> StillAsked(recs, i, j)
  {
    if OpenAsk(recs, i, j) {
      forall a, b | 0 <= a < |recs| && 0 <= b < |recs[a].parts| && !recs[a].isSidechain && recs[a].parts[b].kind == ToolResult
        ensures recs[a].parts[b].toolUseId == "" || recs[a].parts[b].toolUseId != recs[i].parts[j].id
      {
        assert !Answers(recs[a].parts[b], recs[i].parts[j].id);
      }
    }
  }

  /** A question is reported as exact precisely when one is still asked ... */
  lemma AskedExactly(recs: seq<Record>, idle: bool, askText: string -> string, lastSentence: string -> string,
                     q: Option<Question>)
    requires Reports(recs, idle, askText, lastSentence, q)
    ensures q.Some? && q.value.Exact? <==> exists i, j :: StillAsked(recs, i, j)
  {
    ExactExactly(recs, idle, askText, lastSentence, q);
    hide OpenAsk, StillAsked, Reports;
    if i, j :| OpenAsk(recs, i, j) {
      OpenIsStillAsked(recs, i, j);
    }
    if i, j :| StillAsked(recs, i, j) {
      OpenIsStillAsked(recs, i, j);
    }
  }

  /** ... and it is then the first of those still asked. */
  lemma TheFirstAskedIsReported(recs: seq<Record>, idle: bool, askText: string -> string, lastSentence: string -> string,
                                q: Option<Question>, i: int, j: int)
    requires Reports(recs, idle, askText, lastSentence, q)
    requires StillAsked(recs, i, j) && forall k :: 0 <= k < j ==> !StillAsked(recs, i, k)
    ensures q == Some(Exact(askText(recs[i].parts[j].input)))
  {
    hide StillAsked, Answered, Reports;
    OpenIsStillAsked(recs, i, j);
    forall k | 0 <= k < j ensures !OpenAsk(recs, i, k) {
      OpenIsStillAsked(recs, i, k);
    }
    forall k | 0 <= k < j && IsAsk(recs[i].parts[k]) ensures Answered(recs, recs[i].parts[k].id) {
      assert !OpenAsk(recs, i, k);
    }
    FirstIsReported(recs, idle, askText, lastSentence, q, i, j);
  }

  lemma FirstIsReported(recs: seq<Record>, idle: bool, askText: string -> string, lastSentence: string -> string,
                        q: Option<Question>, i: int, j: int)
    requires Reports(recs, idle, askText, lastSentence, q)
    requires Newest(recs, i) && FirstUnanswered(recs, recs[i].parts, j)
    ensures q == Some(Exact(askText(recs[i].parts[j].input)))
  {
  }

  /** A call in the newest settling message that asks and has no answer. */
  ghost predicate OpenAsk(recs: seq<Record>, i: int, j: int) {
    && Newest(recs, i) && 0 <= j < |recs[i].parts|
    && IsAsk(recs[i].parts[j]) && !Answered(recs, recs[i].parts[j].id)
  }

  lemma NewestOf(recs: seq<Record>) returns (i: int)
    ensures i >= 0 ==> Newest(recs, i)
    ensures i < 0 ==> forall k :: 0 <= k < |recs| ==> !Settles(recs[k])
  {
    i := |recs| - 1;
    while i >= 0 && !Settles(recs[i])
      invariant -1 <= i < |recs| && forall k :: i < k < |recs| ==> !Settles(recs[k])
    {
      i := i - 1;
    }
  }

  lemma FirstUnansweredOf(recs: seq<Record>, parts: seq<Part>) returns (j: nat)
    ensures j <= |parts|
    ensures j < |parts| ==> FirstUnanswered(recs, parts, j)
    ensures j == |parts| ==> NoneUnanswered(recs, parts)
  {
    j := 0;
    while j < |parts| && !(IsAsk(parts[j]) && !Answered(recs, parts[j].id))
      invariant j <= |parts|
      invariant forall k :: 0 <= k < j && IsAsk(parts[k]) ==> Answered(recs, parts[k].id)
    {
      j := j + 1;
    }
  }

  /** The text of the last part that is text; none, when no part is. */
  ghost predicate IsLastText(parts: seq<Part>, text: string) {
    || (text == "" && forall j :: 0 <= j < |parts| ==> parts[j].kind != TextPart)
    || (exists j :: 0 <= j < |parts| && parts[j].kind == TextPart && parts[j].text == text
                 && forall k :: j < k < |parts| ==> parts[k].kind != TextPart)
  }

  lemma {:induction false} TrailingTextIsLast(parts: seq<Part>, n: nat)
    requires n <= |parts| && forall k :: n <= k < |parts| ==> parts[k].kind != TextPart
    ensures IsLastText(parts, TrailingText(parts, n))
  {
    if n > 0 && parts[n - 1].kind != TextPart {
      TrailingTextIsLast(parts, n - 1);
    }
  }

  lemma OneLastText(parts: seq<Part>, a: string, b: string)
    requires IsLastText(parts, a) && IsLastText(parts, b)
    ensures a == b
  {
  }

  /** The message's last sentence is a question the assistant ended on. */
  ghost predicate EndsOn(r: Record, lastSentence: string -> string, s: string) {
    && r.role == "assistant" && s != "" && s[|s| - 1] == '?'
    && exists text :: IsLastText(r.parts, text) && s == lastSentence(text)
  }

  /** A question is guessed at precisely when the session is idle and the newest
      message that settles it is the assistant's, asks nothing that is open, and ends
      on a question. */
  lemma InferredExactly(recs: seq<Record>, idle: bool, askText: string -> string, lastSentence: string -> string,
                        q: Option<Question>, s: string)
    requires Reports(recs, idle, askText, lastSentence, q)
    ensures q == Some(Inferred(s)) <==>
              idle && exists i :: Newest(recs, i) && (forall j :: !OpenAsk(recs, i, j)) && EndsOn(recs[i], lastSentence, s)
  {
    hide Answered;
    var i := NewestOf(recs);
    if i >= 0 {
      var parts := recs[i].parts;
      var text := TrailingText(parts, |parts|);
      TrailingTextIsLast(parts, |parts|);
      assert EndsOn(recs[i], lastSentence, s) <==>
               recs[i].role == "assistant" && s != "" && s[|s| - 1] == '?' && s == lastSentence(text) by {
        if other :| IsLastText(parts, other) && s == lastSentence(other) { OneLastText(parts, text, other); }
      }
      hide IsLastText, TrailingText;
      var j := FirstUnansweredOf(recs, parts);
      if j < |parts| {
        assert OpenAsk(recs, i, j);
        assert q.Some? && q.value.Exact?;
        forall a | Newest(recs, a) ensures a == i { NewestIsOne(recs, a, i); }
      } else {
        assert q == Suggests(recs[i], idle, lastSentence);
        assert forall j :: !OpenAsk(recs, i, j);
        forall a | Newest(recs, a) ensures a == i { NewestIsOne(recs, a, i); }
      }
    }
  }

  // ---- A window and the whole ----

  /** What the whole has before the window. */
  function Before(window: seq<Record>, whole: seq<Record>): seq<Record> {
    if |window| <= |whole| then whole[..|whole| - |window|] else []
  }

  lemma AnsweredInTwo(window: seq<Record>, whole: seq<Record>, id: string)
    requires EndsWith(whole, window)
    ensures Answered(whole, id) <==> Answered(Before(window, whole), id) || Answered(window, id)
  {
    var n := |whole| - |window|;
    assert forall i :: n <= i < |whole| ==> whole[i] == window[i - n];
    if Answered(window, id) {
      var i, j :| 0 <= i < |window| && 0 <= j < |window[i].parts| && !window[i].isSidechain && Answers(window[i].parts[j], id);
      assert whole[n + i] == window[i];
    }
    if Answered(Before(window, whole), id) {
      var b := Before(window, whole);
      var i, j :| 0 <= i < |b| && 0 <= j < |b[i].parts| && !b[i].isSidechain && Answers(b[i].parts[j], id);
      assert whole[i] == b[i];
    }
    if Answered(whole, id) {
      var i, j :| 0 <= i < |whole| && 0 <= j < |whole[i].parts| && !whole[i].isSidechain && Answers(whole[i].parts[j], id);
      if i < n { assert Before(window, whole)[i] == whole[i]; } else { assert window[i - n] == whole[i]; }
    }
  }

  lemma NewestInTwo(window: seq<Record>, whole: seq<Record>, i: int)
    requires EndsWith(whole, window) && Newest(window, i)
    ensures Newest(whole, |whole| - |window| + i)
  {
    var n := |whole| - |window|;
    forall k | n + i < k < |whole| ensures !Settles(whole[k]) {
      assert whole[k] == window[k - n];
    }
  }

  /** What the detector goes on: the newest settling message, and which of its
      asks is open. `None` when there is neither. */
  ghost predicate Pending(recs: seq<Record>, p: Option<Part>) {
    && (p.Some? ==> exists i, j :: Newest(recs, i) && FirstUnanswered(recs, recs[i].parts, j) && recs[i].parts[j] == p.value)
    && (p.None? ==> forall i :: Newest(recs, i) ==> NoneUnanswered(recs, recs[i].parts))
  }

  /** Once the window holds a message that settles it, the open ask it shows is
      the one the whole transcript shows, exactly unless that ask was answered
      before the window begins. */
  lemma WindowShowsTheSameAsk(window: seq<Record>, whole: seq<Record>, p: Option<Part>, q: Option<Part>)
    requires EndsWith(whole, window) && (exists i :: Newest(window, i))
    requires Pending(window, p) && Pending(whole, q)
    ensures p == q <==> p.None? || !Answered(Before(window, whole), p.value.id)
  {
    var i :| Newest(window, i);
    var n := |whole| - |window|;
    NewestInTwo(window, whole, i);
    assert whole[n + i] == window[i];
    var parts := window[i].parts;
    forall id ensures Answered(whole, id) <==> Answered(Before(window, whole), id) || Answered(window, id) {
      AnsweredInTwo(window, whole, id);
    }
    SameMessage(window, whole, parts, p, q, i, n + i);
  }

  lemma SameMessage(window: seq<Record>, whole: seq<Record>, parts: seq<Part>, p: Option<Part>, q: Option<Part>, i: int, k: int)
    requires EndsWith(whole, window)
    requires Newest(window, i) && Newest(whole, k) && window[i].parts == parts && whole[k].parts == parts
    requires Pending(window, p) && Pending(whole, q)
    requires forall id :: Answered(whole, id) <==> Answered(Before(window, whole), id) || Answered(window, id)
    ensures p == q <==> p.None? || !Answered(Before(window, whole), p.value.id)
  {
    hide Answered;
    if p.Some? {
      var a, b :| Newest(window, a) && FirstUnanswered(window, window[a].parts, b) && window[a].parts[b] == p.value;
      NewestIsOne(window, a, i);
      if q.Some? {
        var c, d :| Newest(whole, c) && FirstUnanswered(whole, whole[c].parts, d) && whole[c].parts[d] == q.value;
        NewestIsOne(whole, c, k);
      }
    } else if q.Some? {
      var c, d :| Newest(whole, c) && FirstUnanswered(whole, whole[c].parts, d) && whole[c].parts[d] == q.value;
      NewestIsOne(whole, c, k);
      assert false;
    }
  }

  /** A result that comes before the call it names: a window that begins after it
      shows an open ask, and the whole shows none. */
  lemma AnAnswerBeforeItsQuestion(answer: Record, ask: Record, p: Part)
    requires !answer.isSidechain && !ask.isSidechain && ask.parts == [p]
    requires IsAsk(p) && p.id == "a" && answer.parts == [Part(ToolResult, "", "", "", "a", "")]
    ensures EndsWith([answer, ask], [ask])
    ensures Pending([ask], Some(p)) && Pending([answer, ask], None)
  {
    var whole, window := [answer, ask], [ask];
    assert Newest(window, 0) && FirstUnanswered(window, window[0].parts, 0);
    assert Answers(whole[0].parts[0], "a");
    assert whole[1] == ask && Newest(whole, 1);
    assert Answered(whole, "a");
  }

  /** No ask of a message is answered before it: what a transcript written in
      order always is. */
  ghost predicate AnsweredAfterwards(window: seq<Record>, whole: seq<Record>) {
    forall i, j :: Newest(window, i) && 0 <= j < |window[i].parts| && IsAsk(window[i].parts[j]) ==>
      !Answered(Before(window, whole), window[i].parts[j].id)
  }

  /** So in a transcript where answers follow their questions, a window that
      holds a settling message reports what reading everything would. */
  lemma AWindowIsEnough(window: seq<Record>, whole: seq<Record>, idle: bool, askText: string -> string,
                        lastSentence: string -> string, q: Option<Question>)
    requires EndsWith(whole, window) && (exists i :: Newest(window, i)) && AnsweredAfterwards(window, whole)
    requires Reports(window, idle, askText, lastSentence, q)
    ensures Reports(whole, idle, askText, lastSentence, q)
  {
    var i :| Newest(window, i);
    var k := |whole| - |window| + i;
    NewestInTwo(window, whole, i);
    assert whole[k] == window[i];
    forall id ensures Answered(whole, id) <==> Answered(Before(window, whole), id) || Answered(window, id) {
      AnsweredInTwo(window, whole, id);
    }
    var parts := window[i].parts;
    assert forall j :: 0 <= j < |parts| && IsAsk(parts[j]) ==> (Answered(whole, parts[j].id) <==> Answered(window, parts[j].id));
    hide Answered;
    forall c, j | Newest(whole, c) && FirstUnanswered(whole, whole[c].parts, j)
      ensures q == Some(Exact(askText(whole[c].parts[j].input)))
    {
      NewestIsOne(whole, c, k);
      assert FirstUnanswered(window, window[i].parts, j);
    }
    forall c | Newest(whole, c) && NoneUnanswered(whole, whole[c].parts)
      ensures q == Suggests(whole[c], idle, lastSentence)
    {
      NewestIsOne(whole, c, k);
      assert NoneUnanswered(window, window[i].parts);
    }
  }
}
