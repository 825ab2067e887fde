/** What the end of a transcript adds to a sighting: whether birddog could look, and
    what it found. */
module Looking {
  import opened Domain
  import opened Tail
  import opened Detect

  datatype Look = Unavailable | NotObserved | Asks(question: Question)

  predicate FromQuestion(look: Look, q: Option<Question>) {
    match q case None => look == NotObserved case Some(x) => look == Asks(x)
  }

  /** What a window of a file holds. */
  function InWindow(file: seq<Byte>, size: nat, window: int, parse: seq<Byte> -> Option<Record>): seq<Record> {
    RecordsFrom(file, WindowStart(size, window), parse)
  }

  function InAll(file: seq<Byte>, parse: seq<Byte> -> Option<Record>): seq<Record> {
    RecordsFrom(file, 0, parse)
  }

  /** Reads the end of the file and looks for a question in it. A window that held
      nothing and did not reach the start is no look at all. */
  method LookAtTheEnd(file: seq<Byte>, size: nat, window: int, parse: seq<Byte> -> Option<Record>, idle: bool,
                      askText: string -> string, lastSentence: string -> string) returns (look: Look)
    ensures look.Unavailable? <==> InWindow(file, size, window, parse) == [] && size > window
    ensures !look.Unavailable? ==>
              exists q :: FromQuestion(look, q) && Reports(InWindow(file, size, window, parse), idle, askText, lastSentence, q)
  {
    hide Reports;
    var recs, reachedStart := Tail.Tail(file, size, window, parse);
    if |recs| == 0 && !reachedStart {
      return Unavailable;
    }
    var q := Detect.Detect(recs, idle, askText, lastSentence);
    look := if q.None? then NotObserved else Asks(q.value);
    assert FromQuestion(look, q);
  }

  // ---- A look and the whole file ----

  lemma TheWindowEndsTheFile(file: seq<Byte>, size: nat, window: int, parse: seq<Byte> -> Option<Record>)
    ensures EndsWith(InAll(file, parse), InWindow(file, size, window, parse))
    ensures size <= window ==> InWindow(file, size, window, parse) == InAll(file, parse)
  {
    hide RecordsFrom;
    AWiderWindowOnlyAdds(file, size, window, window, parse);
  }

  /** A message settles it. */
  ghost predicate Settled(recs: seq<Record>) {
    exists i :: Newest(recs, i)
  }

  /** The open ask a window shows is the one the whole file shows exactly in these
      cases: the window holds a settling message, whose ask was not answered before
      the window; or it holds none, and the file shows none either. */
  lemma ALookShowsTheSameAskExactly(file: seq<Byte>, size: nat, window: int, parse: seq<Byte> -> Option<Record>,
                                    p: Option<Part>, q: Option<Part>)
    requires Pending(InWindow(file, size, window, parse), p) && Pending(InAll(file, parse), q)
    ensures var tail, all := InWindow(file, size, window, parse), InAll(file, parse);
            p == q <==> if Settled(tail) then p.None? || !Answered(Before(tail, all), p.value.id) else q.None?
  {
    hide RecordsFrom;
    TheWindowEndsTheFile(file, size, window, parse);
    var tail, all := InWindow(file, size, window, parse), InAll(file, parse);
    if Settled(tail) {
      WindowShowsTheSameAsk(tail, all, p, q);
    } else {
      hide FirstUnanswered, NoneUnanswered, Answered;
      assert p.None?;
    }
  }

  /** Where answers follow their questions, what is detected in a window is what
      would be detected in all of the file, as soon as the window holds a settling
      message or reaches the start. */
  lemma ALookIsEnough(file: seq<Byte>, size: nat, window: int, parse: seq<Byte> -> Option<Record>, idle: bool,
                      askText: string -> string, lastSentence: string -> string, q: Option<Question>)
    requires Settled(InWindow(file, size, window, parse)) || size <= window
    requires AnsweredAfterwards(InWindow(file, size, window, parse), InAll(file, parse))
    requires Reports(InWindow(file, size, window, parse), idle, askText, lastSentence, q)
    ensures Reports(InAll(file, parse), idle, askText, lastSentence, q)
  {
    hide RecordsFrom, Reports, AnsweredAfterwards;
    TheWindowEndsTheFile(file, size, window, parse);
    if size > window {
      AWindowIsEnough(InWindow(file, size, window, parse), InAll(file, parse), idle, askText, lastSentence, q);
    }
  }

  /** A window that holds only a sidechain's message: what is pending in the file
      is reported as looked for and not there. */
  lemma AQuietWindowHidesAnAsk(parse: seq<Byte> -> Option<Record>, ask: Record, aside: Record, p: Part)
    requires parse([65]) == Some(ask) && parse([66]) == Some(aside)
    requires !ask.isSidechain && ask.parts == [p] && IsAsk(p) && aside.isSidechain && aside.parts == []
    ensures InWindow([65, 10, 66], 3, 1, parse) == [aside] && InAll([65, 10, 66], parse) == [ask, aside]
    ensures Pending([aside], None) && Pending([ask, aside], Some(p))
  {
    var file: seq<Byte> := [65, 10, 66];
    LineEndIs(file, 0, 1);
    LineEndIs(file, 2, 3);
    OneLine(file, 0, parse);
    OneLine(file, 2, parse);
    PastTheEnd(file, parse);
    assert file[0..1] == [65] && file[2..3] == [66];
    assert !Blank([65]) && !Blank([66]) by {
      assert !IsSpace([65][0]) && !IsSpace([66][0]);
    }
    var all := [ask, aside];
    assert Newest(all, 0) && FirstUnanswered(all, all[0].parts, 0);
  }
}
