/** Reading the end of a transcript: which lines a window of bytes yields,
    whatever bytes it opens on and while the file is being written. */
module Tail {
  import opened Domain

  type Byte = x: int | 0 <= x < 256

  const NEWLINE: Byte := 10

  /** What trimming removes of an ASCII line. */
  predicate IsSpace(b: Byte) {
    9 <= b <= 13 || b == 32
  }

  predicate Blank(raw: seq<Byte>) {
    forall i :: 0 <= i < |raw| ==> IsSpace(raw[i])
  }

  /** The record of one line, if it is one: a blank line is not, nor is one that
      does not parse. */
  function RecordOf<R>(raw: seq<Byte>, parse: seq<Byte> -> Option<R>): seq<R> {
    if Blank(raw) then []
    else match parse(raw) case None => [] case Some(r) => [r]
  }

  // ---- What the records of a file are, by position ----

  predicate LineStart(file: seq<Byte>, p: nat) {
    p <= |file| && (p == 0 || file[p - 1] == NEWLINE)
  }

  /** The first newline at or after `p`, or the end. */
  function LineEnd(file: seq<Byte>, p: nat): (e: nat)
    requires p <= |file|
    ensures p <= e <= |file|
    ensures forall i :: p <= i < e ==> file[i] != NEWLINE
    ensures e < |file| ==> file[e] == NEWLINE
    decreases |file| - p
  {
    if p == |file| || file[p] == NEWLINE then p else LineEnd(file, p + 1)
  }

  /** The records of the lines that start at or after `p`, in order. */
  function RecordsFrom<R>(file: seq<Byte>, p: nat, parse: seq<Byte> -> Option<R>): seq<R>
    decreases |file| + 1 - p
  {
    if p > |file| then []
    else if LineStart(file, p) then RecordOf(file[p..LineEnd(file, p)], parse) + RecordsFrom(file, p + 1, parse)
    else RecordsFrom(file, p + 1, parse)
  }

  /** No line starts strictly between two positions. */
  ghost predicate NoStart(file: seq<Byte>, p: nat, q: nat) {
    forall i :: p <= i < q ==> !LineStart(file, i)
  }

  lemma {:induction false} SkipToStart<R>(file: seq<Byte>, p: nat, q: nat, parse: seq<Byte> -> Option<R>)
    requires p <= q <= |file| + 1 && NoStart(file, p, q)
    ensures RecordsFrom(file, p, parse) == RecordsFrom(file, q, parse)
    decreases q - p
  {
    if p < q {
      SkipToStart(file, p + 1, q, parse);
    }
  }

  /** From the start of a line: its record, and then those of the next line on. */
  lemma OneLine<R>(file: seq<Byte>, p: nat, parse: seq<Byte> -> Option<R>)
    requires LineStart(file, p)
    ensures RecordsFrom(file, p, parse)
         == RecordOf(file[p..LineEnd(file, p)], parse) + RecordsFrom(file, LineEnd(file, p) + 1, parse)
  {
    var e := LineEnd(file, p);
    assert NoStart(file, p + 1, e + 1) by {
      forall i | p + 1 <= i < e + 1 ensures !LineStart(file, i) {
        assert file[i - 1] != NEWLINE;
      }
    }
    SkipToStart(file, p + 1, e + 1, parse);
  }

  // ---- ... and by what lines it is made of ----

  /** Lines written one after another, a newline between each and the next. */
  function Written(lines: seq<seq<Byte>>): seq<Byte> {
    if lines == [] then [] else if |lines| == 1 then lines[0] else lines[0] + [NEWLINE] + Written(lines[1..])
  }

  /** What each line holds, in order: nothing, when it is all white space or is not a
      record. */
  function Parsed<R>(lines: seq<seq<Byte>>, parse: seq<Byte> -> Option<R>): seq<R> {
    if lines == [] then []
    else
      var line := lines[0];
      (if forall i :: 0 <= i < |line| ==> line[i] in {9, 10, 11, 12, 13, 32} then []
       else match parse(line) case None => [] case Some(r) => [r])
      + Parsed(lines[1..], parse)
  }

  predicate OneLineEach(lines: seq<seq<Byte>>) {
    forall k :: 0 <= k < |lines| ==> NEWLINE !in lines[k]
  }

  lemma TheFirstLine<R>(lines: seq<seq<Byte>>, parse: seq<Byte> -> Option<R>)
    requires OneLineEach(lines) && lines != []
    ensures var file, end := Written(lines), |lines[0]|;
            && RecordsFrom(file, 0, parse) == RecordOf(lines[0], parse) + RecordsFrom(file, end + 1, parse)
            && (|lines| == 1 ==> end == |file|)
            && (|lines| > 1 ==> end < |file| && file[end] == NEWLINE && file[end + 1..] == Written(lines[1..]))
  {
    hide RecordsFrom, RecordOf, LineEnd;
    var file, line, end := Written(lines), lines[0], |lines[0]|;
    assert forall i :: 0 <= i < end ==> file[i] == line[i] && line[i] in line;
    LineEndIs(file, 0, end);
    assert file[0..end] == line;
    OneLine(file, 0, parse);
  }

  lemma FirstParsed<R>(lines: seq<seq<Byte>>, parse: seq<Byte> -> Option<R>)
    requires lines != []
    ensures Parsed(lines, parse) == RecordOf(lines[0], parse) + Parsed(lines[1..], parse)
    ensures Parsed<R>([], parse) == []
  {
    var line := lines[0];
    assert Blank(line) <==> forall i :: 0 <= i < |line| ==> line[i] in {9, 10, 11, 12, 13, 32};
  }

  /** The records of a file are those of the lines it was written as. */
  lemma {:induction false} TheRecordsAreTheLines<R>(lines: seq<seq<Byte>>, parse: seq<Byte> -> Option<R>)
    requires OneLineEach(lines)
    ensures RecordsFrom(Written(lines), 0, parse) == Parsed(lines, parse)
  {
    var file := Written(lines);
    PastTheEnd(file, parse);
    if lines != [] {
      hide RecordsFrom, RecordOf, Parsed, Written;
      TheFirstLine(lines, parse);
      FirstParsed(lines, parse);
      if |lines| > 1 {
        RestAlone(file, |lines[0]| + 1, 0, parse);
        TheRecordsAreTheLines(lines[1..], parse);
      }
    }
  }

  // ---- The reader ----

  method IndexByte(buf: seq<Byte>, b: Byte) returns (i: nat)
    ensures i <= |buf|
    ensures forall k :: 0 <= k < i ==> buf[k] != b
    ensures i < |buf| ==> buf[i] == b
  {
    i := 0;
    while i < |buf| && buf[i] != b
      invariant i <= |buf|
      invariant forall k :: 0 <= k < i ==> buf[k] != b
    {
      i := i + 1;
    }
  }

  /** The lines of a buffer up to the one that ends at `e`, and where each begins:
      the first at the start, each next one just past the end of the one before. */
  ghost predicate CutTo(buf: seq<Byte>, lines: seq<seq<Byte>>, starts: seq<nat>, e: nat) {
    && |lines| == |starts| > 0
    && starts[0] == 0
    && (forall k :: 0 <= k < |starts| ==> starts[k] <= |buf| && lines[k] == buf[starts[k]..LineEnd(buf, starts[k])])
    && (forall k :: 0 <= k < |starts| - 1 ==> LineEnd(buf, starts[k]) < |buf| && starts[k + 1] == LineEnd(buf, starts[k]) + 1)
    && LineEnd(buf, starts[|starts| - 1]) == e
  }

  ghost predicate Cut(buf: seq<Byte>, lines: seq<seq<Byte>>, starts: seq<nat>) {
    CutTo(buf, lines, starts, |buf|)
  }

  lemma CutOneMore(buf: seq<Byte>, lines: seq<seq<Byte>>, starts: seq<nat>, i: nat, e: nat)
    requires i < |buf| && CutTo(buf, lines, starts, i) && LineEnd(buf, i + 1) == e
    ensures CutTo(buf, lines + [buf[i + 1..e]], starts + [i + 1], e)
  {
    hide LineEnd;
  }

  /** Cuts a buffer at its newlines. An empty buffer is one empty line. */
  method Split(buf: seq<Byte>) returns (lines: seq<seq<Byte>>, ghost starts: seq<nat>)
    ensures Cut(buf, lines, starts)
  {
    hide LineEnd;
    var i := IndexByte(buf, NEWLINE);
    LineEndIs(buf, 0, i);
    lines, starts := [buf[..i]], [0];
    assert CutTo(buf, lines, starts, i);
    hide CutTo;
    while i < |buf|
      invariant i <= |buf| && CutTo(buf, lines, starts, i)
      decreases |buf| - i
    {
      var at := i + 1;
      var j := IndexByte(buf[at..], NEWLINE);
      LineEndIs(buf, at, at + j);
      CutOneMore(buf, lines, starts, i, at + j);
      i := at + j;
      lines, starts := lines + [buf[at..i]], starts + [at];
    }
  }

  lemma {:induction false} LineEndIs(buf: seq<Byte>, p: nat, e: nat)
    requires p <= e <= |buf|
    requires forall k :: p <= k < e ==> buf[k] != NEWLINE
    requires e < |buf| ==> buf[e] == NEWLINE
    ensures LineEnd(buf, p) == e
  {
  }

  /** Where the lines of the rest of a file begin does not depend on what went
      before, once the rest begins with a line. */
  lemma {:induction false} RestAlone<R>(file: seq<Byte>, at: nat, p: nat, parse: seq<Byte> -> Option<R>)
    requires at <= |file| && LineStart(file, at) && p <= |file| - at + 1
    ensures RecordsFrom(file[at..], p, parse) == RecordsFrom(file, at + p, parse)
    decreases |file| + 1 - at - p
  {
    hide RecordOf, LineStart, LineEnd;
    if p <= |file| - at {
      RestAlone(file, at, p + 1, parse);
      SameLine(file, at, p);
    }
  }

  lemma SameLine(file: seq<Byte>, at: nat, p: nat)
    requires at <= |file| && LineStart(file, at) && p <= |file| - at
    ensures LineStart(file[at..], p) == LineStart(file, at + p)
    ensures file[at..][p..LineEnd(file[at..], p)] == file[at + p..LineEnd(file, at + p)]
  {
    LineEndIs(file[at..], p, LineEnd(file, at + p) - at);
  }

  lemma PastTheEnd<R>(file: seq<Byte>, parse: seq<Byte> -> Option<R>)
    ensures RecordsFrom(file, |file| + 1, parse) == []
    ensures RecordsFrom<R>([], 0, parse) == []
  {
  }

  /** Goes through the lines, keeping what parses. */
  method Collect<R>(lines: seq<seq<Byte>>, parse: seq<Byte> -> Option<R>, ghost buf: seq<Byte>, ghost starts: seq<nat>)
    returns (out: seq<R>)
    requires Cut(buf, lines, starts)
    ensures out == RecordsFrom(buf, 0, parse)
  {
    hide LineEnd, RecordsFrom, RecordOf;
    out := [];
    PastTheEnd(buf, parse);
    var k := 0;
    while k < |lines|
      invariant 0 <= k <= |lines|
      invariant out + RecordsFrom(buf, if k < |lines| then starts[k] else |buf| + 1, parse) == RecordsFrom(buf, 0, parse)
    {
      assert LineStart(buf, starts[k]) by {
        if k > 0 { assert starts[k - 1 + 1] == LineEnd(buf, starts[k - 1]) + 1; }
      }
      OneLine(buf, starts[k], parse);
      out := out + RecordOf(lines[k], parse);
      k := k + 1;
    }
  }

  /** Where the window begins, for a file of this size. */
  function WindowStart(size: nat, window: int): nat {
    if size > window then size - window else 0
  }

  lemma NothingPastTheEnd<R>(file: seq<Byte>, start: nat, parse: seq<Byte> -> Option<R>)
    requires start > |file| || NoStart(file, start, |file| + 1)
    ensures RecordsFrom(file, start, parse) == []
  {
    if start <= |file| {
      SkipToStart(file, start, |file| + 1, parse);
    }
  }

  /** A window that opens inside a line meets no start before that line's end. */
  lemma PastThePartialLine(file: seq<Byte>, start: nat, e: nat)
    requires 0 < start <= e <= |file| && file[start - 1] != NEWLINE
    requires forall k :: start <= k < e ==> file[k] != NEWLINE
    ensures NoStart(file, start, e + 1)
  {
    forall p | start <= p < e + 1 ensures !LineStart(file, p) {
      if p > start { assert file[p - 1] != NEWLINE; }
    }
  }

  /** Drops what is left of a line the window opened inside. */
  method DropPartialLine<R>(file: seq<Byte>, start: nat, parse: seq<Byte> -> Option<R>) returns (buf: seq<Byte>)
    requires 0 < start <= |file| && file[start - 1] != NEWLINE
    ensures RecordsFrom(buf, 0, parse) == RecordsFrom(file, start, parse)
  {
    hide RecordsFrom;
    buf := file[start..];
    var i := IndexByte(buf, NEWLINE);
    assert forall k :: start <= k < start + i ==> file[k] == buf[k - start];
    PastThePartialLine(file, start, start + i);
    if i < |buf| {
      assert file[start + i] == NEWLINE;
      SkipToStart(file, start, start + i + 1, parse);
      RestAlone(file, start + i + 1, 0, parse);
      assert buf[i + 1..] == file[start + i + 1..];
      buf := buf[i + 1..];
    } else {
      NothingPastTheEnd(file, start, parse);
      PastTheEnd(file, parse);
      buf := [];
    }
  }

  /** The window is set by how long the file was when it was measured; what is read
      is what it holds by then, be it longer or shorter. What comes back is exactly the
      records of those of its lines that begin inside the window, and whether the
      window reached the start of the file. */
  method Tail<R>(file: seq<Byte>, size: nat, window: int, parse: seq<Byte> -> Option<R>) returns (out: seq<R>, whole: bool)
    ensures out == RecordsFrom(file, WindowStart(size, window), parse)
    ensures whole <==> size <= window
  {
    hide RecordsFrom;
    var start := 0;
    var truncated := false;
    if size > window {
      start := size - window;
      truncated := true;
    }
    var from := if truncated then start - 1 else start;
    var buf := if from <= |file| then file[from..] else [];

    if truncated && |buf| > 0 {
      var aligned := buf[0] == NEWLINE;
      buf := buf[1..];
      assert buf == file[start..];
      if aligned {
        RestAlone(file, start, 0, parse);
      } else {
        buf := DropPartialLine(file, start, parse);
      }
    } else if truncated {
      PastTheEnd(file, parse);
      NothingPastTheEnd(file, start, parse);
    } else {
      assert buf == file;
    }
    var lines, starts := Split(buf);
    out := Collect(lines, parse, buf, starts);
    whole := !truncated;
  }

  // ---- What widening the window does ----

  /** What comes before, when a reader starts earlier: everything it yields later
      on it yields already. */
  lemma {:induction false} AnEarlierStartOnlyAdds<R>(file: seq<Byte>, p: nat, q: nat, parse: seq<Byte> -> Option<R>) returns (more: seq<R>)
    requires p <= q
    ensures RecordsFrom(file, p, parse) == more + RecordsFrom(file, q, parse)
    decreases q - p
  {
    more := [];
    if p < q && p <= |file| {
      var rest := AnEarlierStartOnlyAdds(file, p + 1, q, parse);
      more := if LineStart(file, p) then RecordOf(file[p..LineEnd(file, p)], parse) + rest else rest;
      if LineStart(file, p) {
        var first := RecordOf(file[p..LineEnd(file, p)], parse);
        assert first + (rest + RecordsFrom(file, q, parse)) == (first + rest) + RecordsFrom(file, q, parse);
      }
    }
  }

  predicate EndsWith<R(==)>(all: seq<R>, last: seq<R>) {
    |last| <= |all| && all[|all| - |last|..] == last
  }

  /** The records a window yields are the last of those a wider one yields, and
      of those the whole file does. */
  lemma AWiderWindowOnlyAdds<R>(file: seq<Byte>, size: nat, narrow: int, wide: int, parse: seq<Byte> -> Option<R>)
    requires narrow <= wide
    ensures EndsWith(RecordsFrom(file, WindowStart(size, wide), parse), RecordsFrom(file, WindowStart(size, narrow), parse))
    ensures EndsWith(RecordsFrom(file, 0, parse), RecordsFrom(file, WindowStart(size, narrow), parse))
  {
    hide RecordsFrom;
    var a := AnEarlierStartOnlyAdds(file, WindowStart(size, wide), WindowStart(size, narrow), parse);
    var b := AnEarlierStartOnlyAdds(file, 0, WindowStart(size, narrow), parse);
  }
}
