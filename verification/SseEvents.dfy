/** The rewritten stream as its receiver reads it. The standard ends a line at a carriage return, at a
    newline, or at both together, and an event at an empty line, while the proxy looks for newlines. */
module SseEvents {
  import opened Basics
  import opened Stripping
  import opened SseStream

  // ----- the standard's lines -----

  predicate IsBreak(c: char) { c == '\n' || c == '\r' }

  function StdEnd(b: Bytes): (i: nat)
    ensures i <= |b| && (i < |b| ==> IsBreak(b[i]))
  {
    if b == [] || IsBreak(b[0]) then 0 else 1 + StdEnd(b[1..])
  }

  /** What follows a line end at position `i`. */
  function RestAt(b: Bytes, i: nat): Bytes
    requires i < |b|
  {
    if b[i] == '\r' && i + 1 < |b| && b[i + 1] == '\n' then b[i + 2..] else b[i + 1..]
  }

  function StdRest(b: Bytes): Bytes
    requires StdEnd(b) < |b|
  {
    RestAt(b, StdEnd(b))
  }

  function StdLines(b: Bytes): seq<Bytes>
    decreases |b|
  {
    if StdEnd(b) == |b| then [] else [b[..StdEnd(b)]] + StdLines(StdRest(b))
  }

  function StdTail(b: Bytes): Bytes
    decreases |b|
  {
    if StdEnd(b) == |b| then b else StdTail(StdRest(b))
  }

  lemma StdStep(b: Bytes, first: Bytes, rest: Bytes)
    requires StdEnd(b) < |b| && b[..StdEnd(b)] == first && StdRest(b) == rest
    ensures StdLines(b) == [first] + StdLines(rest) && StdTail(b) == StdTail(rest)
  {
  }

  /** No line end of either kind. */
  predicate Plain(b: Bytes) { StdEnd(b) == |b| }

  ghost predicate AllPlain(lines: seq<Bytes>)
    decreases |lines|
  {
    lines == [] || (Plain(lines[0]) && AllPlain(lines[1..]))
  }

  lemma {:induction false} PlainConcat(line: Bytes, rest: Bytes)
    requires Plain(line)
    ensures StdEnd(line + rest) == |line| + StdEnd(rest)
    decreases |line|
  {
    if line == [] {
      assert line + rest == rest;
    } else {
      PlainConcat(line[1..], rest);
      assert (line + rest)[1..] == line[1..] + rest;
    }
  }

  lemma {:induction false} FirstIsPlain(b: Bytes)
    ensures Plain(b[..StdEnd(b)])
    decreases |b|
  {
    if b != [] && !IsBreak(b[0]) {
      FirstIsPlain(b[1..]);
      assert b[..StdEnd(b)][1..] == b[1..][..StdEnd(b[1..])];
    }
  }

  lemma {:induction false} StdTailIsPlain(b: Bytes)
    ensures Plain(StdTail(b))
    decreases |b|
  {
    if StdEnd(b) < |b| { StdTailIsPlain(StdRest(b)); }
  }

  /** No line end is split between the two parts. */
  predicate Apart(p: Bytes, x: Bytes) {
    p == [] || p[|p| - 1] != '\r' || x == [] || x[0] != '\n'
  }

  lemma {:induction false} EndOfConcat(p: Bytes, x: Bytes)
    requires StdEnd(p) < |p|
    ensures StdEnd(p + x) == StdEnd(p)
    decreases |p|
  {
    if !IsBreak(p[0]) {
      EndOfConcat(p[1..], x);
      assert (p + x)[1..] == p[1..] + x;
    }
  }

  lemma DropConcat(p: Bytes, x: Bytes, i: nat)
    requires i <= |p|
    ensures (p + x)[i..] == p[i..] + x && (p + x)[..i] == p[..i]
  {
  }

  lemma RestOfConcat(p: Bytes, x: Bytes, i: nat)
    requires Apart(p, x) && i < |p|
    ensures RestAt(p + x, i) == RestAt(p, i) + x && Apart(RestAt(p, i), x)
  {
    DropConcat(p, x, i + 1);
    if i + 1 < |p| {
      DropConcat(p, x, i + 2);
      assert (p + x)[i + 1] == p[i + 1];
    }
  }

  lemma FirstOfConcat(p: Bytes, x: Bytes)
    requires Apart(p, x) && StdEnd(p) < |p|
    ensures StdEnd(p + x) == StdEnd(p) && (p + x)[..StdEnd(p)] == p[..StdEnd(p)]
    ensures StdRest(p + x) == StdRest(p) + x && Apart(StdRest(p), x)
  {
    EndOfConcat(p, x);
    DropConcat(p, x, StdEnd(p));
    RestOfConcat(p, x, StdEnd(p));
  }

  /** More bytes only continue the tail. */
  lemma {:induction false} StdContinue(p: Bytes, x: Bytes)
    requires Apart(p, x)
    ensures StdLines(p + x) == StdLines(p) + StdLines(StdTail(p) + x)
    ensures StdTail(p + x) == StdTail(StdTail(p) + x)
    decreases |p|
  {
    if StdEnd(p) < |p| {
      FirstOfConcat(p, x);
      StdContinue(StdRest(p), x);
      Regroup([p[..StdEnd(p)]], StdLines(StdRest(p)), StdLines(StdTail(p) + x));
    }
  }

  lemma StdFirstLine(line: Bytes, rest: Bytes)
    requires Plain(line)
    ensures StdLines(line + "\n" + rest) == [line] + StdLines(rest)
    ensures StdTail(line + "\n" + rest) == StdTail(rest)
  {
    var b := line + "\n" + rest;
    assert b == line + ("\n" + rest);
    PlainConcat(line, "\n" + rest);
    assert b[..|line|] == line && b[|line| + 1..] == rest;
  }

  lemma {:induction false} StdUnlines(lines: seq<Bytes>)
    requires AllPlain(lines)
    ensures StdLines(Unlines(lines)) == lines && StdTail(Unlines(lines)) == []
    decreases |lines|
  {
    if lines != [] {
      StdUnlines(lines[1..]);
      StdFirstLine(lines[0], Unlines(lines[1..]));
    }
  }

  /** Complete lines leave no tail. */
  lemma {:induction false} EndsLeaveNoTail(b: Bytes)
    requires b != [] ==> b[|b| - 1] == '\n'
    ensures StdTail(b) == []
    decreases |b|
  {
    if StdEnd(b) < |b| {
      EndsLeaveNoTail(StdRest(b));
    } else if b != [] {
      FirstIsPlain(b);
      LastIsNoBreak(b);
    }
  }

  lemma {:induction false} LastIsNoBreak(b: Bytes)
    requires Plain(b) && b != []
    ensures !IsBreak(b[|b| - 1])
    decreases |b|
  {
    if |b| > 1 { LastIsNoBreak(b[1..]); }
  }

  lemma {:induction false} UnlinesEnds(lines: seq<Bytes>)
    ensures var b := Unlines(lines); b != [] ==> b[|b| - 1] == '\n'
    decreases |lines|
  {
    if lines != [] { UnlinesEnds(lines[1..]); }
  }

  // ----- the output -----

  /** What the output holds of the bytes received. */
  function Passed(received: Bytes): Bytes { Unlines(Kept(Lines(received))) + Tail(received) }

  /** A JSON object printed without line ends. */
  predicate IsPlainObject(json: Bytes) {
    Plain(json) && json != [] && json[0] == '{' && json[|json| - 1] == '}'
  }

  lemma AddedPlain(t: Bytes, event: Bytes, data: Bytes, done: Bytes)
    requires Plain(t) && Plain(event) && Plain(data) && Plain(done)
    ensures AllPlain(Added(t, event, data, done))
  {
    PlainConcat(t, event);
    AllPlainCons(t + event, [data] + ([[]] + ([done] + [[]])));
    AllPlainCons(data, [[]] + ([done] + [[]]));
    AllPlainCons([], [done] + [[]]);
    AllPlainCons(done, [[]]);
    AllPlainCons([], []);
  }

  lemma AllPlainCons(line: Bytes, lines: seq<Bytes>)
    ensures AllPlain([line] + lines) <==> Plain(line) && AllPlain(lines)
  {
    assert ([line] + lines)[1..] == lines;
  }

  lemma EventIsPlain()
    ensures Plain(EVENT)
  {
  }

  lemma DoneIsPlain()
    ensures Plain(DATA) && Plain(DONE)
  {
  }

  /** The output's lines, by the standard: those of what is passed on, and then the metadata event, whose
      first line continues an unterminated tail, and the final `[DONE]`. */
  lemma OutputStdLines(received: Bytes, json: Bytes)
    requires IsPlainObject(json)
    ensures var p, out := Passed(received), Rewritten(received, json);
      && StdLines(out) == StdLines(p) + Added(StdTail(p), EVENT, DATA + json, DONE)
      && StdTail(out) == []
  {
    EventIsPlain();
    DoneIsPlain();
    PlainConcat(DATA, json);
    OutputStdLinesFor(Passed(received), EVENT, DATA, json, DONE, Rewritten(received, json));
  }

  lemma OutputStdLinesFor(p: Bytes, event: Bytes, key: Bytes, json: Bytes, done: Bytes, out: Bytes)
    requires Plain(event) && event != [] && Plain(key + json) && Plain(done)
    requires out == p + (event + "\n" + key + json + "\n\n") + (done + "\n\n")
    ensures StdLines(out) == StdLines(p) + Added(StdTail(p), event, key + json, done) && StdTail(out) == []
  {
    var meta, t := event + "\n" + key + json + "\n\n", StdTail(p);
    Regroup(p, meta, done + "\n\n");
    PlainStart(event);
    StdContinue(p, meta + (done + "\n\n"));
    AddedText(t, event, key, json, done);
    Regroup(t, meta, done + "\n\n");
    StdTailIsPlain(p);
    AddedPlain(t, event, key + json, done);
    StdUnlines(Added(t, event, key + json, done));
  }

  lemma PlainStart(b: Bytes)
    requires Plain(b) && b != []
    ensures !IsBreak(b[0])
  {
  }

  // ----- the final marker -----

  /** A line of the proxy that it does not hold back although the receiver finds a `[DONE]` line in it. */
  predicate HidesDone(line: Bytes) { !IsDone(line) && DoneCount(StdLines(line + "\n")) > 0 }

  ghost predicate NoneHides(lines: seq<Bytes>)
    decreases |lines|
  {
    lines == [] || (!HidesDone(lines[0]) && NoneHides(lines[1..]))
  }

  lemma {:induction false} DonesPassed(lines: seq<Bytes>)
    ensures DoneCount(StdLines(Unlines(Kept(lines)))) == 0 <==> NoneHides(lines)
    decreases |lines|
  {
    if lines != [] {
      var line, rest := lines[0], Kept(lines[1..]);
      DonesPassed(lines[1..]);
      if !IsDone(line) {
        UnlinesCons(line, rest);
        EndsLeaveNoTail(line + "\n");
        StdContinue(line + "\n", Unlines(rest));
        assert [] + Unlines(rest) == Unlines(rest);
        KeptConcat(StdLines(line + "\n"), StdLines(Unlines(rest)));
      }
    }
  }

  lemma DonesPassedOn(received: Bytes)
    ensures DoneCount(StdLines(Passed(received))) == 0 <==>
      NoneHides(Lines(received)) && DoneCount(StdLines(Tail(received))) == 0
  {
    var kept := Unlines(Kept(Lines(received)));
    UnlinesEnds(Kept(Lines(received)));
    EndsLeaveNoTail(kept);
    StdContinue(kept, Tail(received));
    assert [] + Tail(received) == Tail(received);
    KeptConcat(StdLines(kept), StdLines(Tail(received)));
    DonesPassed(Lines(received));
  }

  lemma AddedLinesNotDone(t: Bytes, json: Bytes)
    requires IsPlainObject(json)
    ensures !IsDone(t + EVENT) && !IsDone(DATA + json) && IsDone(DONE)
  {
    DoneIsDone();
    NotDone(t + EVENT);
    NotDone(DATA + json);
  }

  /** By the standard's lines the output ends with a `[DONE]` line and an empty one, and that line is the
      only one exactly when no line received hides one behind a carriage return. */
  lemma OneDoneAndLast(received: Bytes, json: Bytes)
    requires IsPlainObject(json)
    ensures var lines := StdLines(Rewritten(received, json));
      && |lines| >= 5 && lines[|lines| - 2] == DONE && IsDone(DONE) && lines[|lines| - 1] == []
      && DoneCount(lines) >= 1
      && (DoneCount(lines) == 1 <==> NoneHides(Lines(received)) && DoneCount(StdLines(Tail(received))) == 0)
  {
    OutputStdLines(received, json);
    AddedLinesNotDone(StdTail(Passed(received)), json);
    OneDoneFor(received, EVENT, DATA + json, DONE);
  }

  lemma OneDoneFor(received: Bytes, event: Bytes, data: Bytes, done: Bytes)
    requires var t := StdTail(Passed(received)); !IsDone(t + event) && !IsDone(data) && IsDone(done)
    ensures var p := Passed(received);
      var lines := StdLines(p) + Added(StdTail(p), event, data, done);
      && |lines| >= 5 && lines[|lines| - 2] == done && lines[|lines| - 1] == []
      && DoneCount(lines) >= 1
      && (DoneCount(lines) == 1 <==> NoneHides(Lines(received)) && DoneCount(StdLines(Tail(received))) == 0)
  {
    var p := Passed(received);
    AddedDone(StdTail(p), event, data, done);
    KeptConcat(StdLines(p), Added(StdTail(p), event, data, done));
    DonesPassedOn(received);
  }

  /** A line whose only carriage return, if any, stands before its newline hides nothing. */
  lemma PlainHidesNothing(line: Bytes)
    requires Plain(line)
    ensures !HidesDone(line) && !HidesDone(line + "\r") && DoneCount(StdLines(line)) == 0
  {
    StdFirstLine(line, []);
    assert line + "\n" + [] == line + "\n";
    ReturnFirstLine(line);
    DoneBeforeReturn(line);
    KeptConcat([line], []);
  }

  lemma ReturnFirstLine(line: Bytes)
    requires Plain(line)
    ensures StdLines(line + "\r" + "\n") == [line]
  {
    var b := line + "\r" + "\n";
    assert b == line + "\r\n";
    PlainConcat(line, "\r\n");
    assert b[..|line|] == line && b[|line| + 2..] == [];
  }

  lemma {:induction false} StripLeftSnoc(s: string, c: char)
    ensures StripLeft(s, White) != [] ==> StripLeft(s + [c], White) == StripLeft(s, White) + [c]
    ensures StripLeft(s, White) == [] && White(c) ==> StripLeft(s + [c], White) == []
    decreases |s|
  {
    if s == [] {
      assert s + [c] == [c];
    } else {
      StripLeftSnoc(s[1..], c);
      assert (s + [c])[1..] == s[1..] + [c];
    }
  }

  lemma DoneBeforeReturn(line: Bytes)
    ensures IsDone(line + "\r") <==> IsDone(line)
  {
    if |line| >= 5 {
      assert (line + "\r")[..5] == line[..5] && (line + "\r")[5..] == line[5..] + "\r";
      StripLeftSnoc(line[5..], '\r');
      var left := StripLeft(line[5..], White);
      assert (left + "\r")[..|left|] == left;
    } else if |line| == 4 {
      assert (line + "\r")[4] == '\r';
    }
  }

  /** A `[DONE]` line after which the line goes on behind a carriage return is passed on, and the receiver
      sees two. */
  lemma HiddenDone(json: Bytes)
    requires IsPlainObject(json)
    ensures DoneCount(StdLines(Rewritten(DONE + "\rx" + "\n", json))) > 1
  {
    DoneIsPlain();
    DoneIsOneLine();
    DoneIsDone();
    HidesFor(DONE);
    OneDoneAndLast(DONE + "\rx" + "\n", json);
  }

  lemma HidesFor(done: Bytes)
    requires Plain(done) && OneLine(done) && IsDone(done)
    ensures !NoneHides(Lines(done + "\rx" + "\n"))
  {
    NotDone(done + "\rx");
    var b := done + "\rx" + "\n";
    assert b == done + "\rx\n";
    PlainConcat(done, "\rx\n");
    assert b[..|done|] == done && b[|done|..] == "\rx\n" && b[|done| + 1..] == "x\n";
    LineEndOfConcat(done, "\rx");
    FirstLine(done + "\rx", []);
    assert b + [] == b;
  }

  // ----- events -----

  /** The lines after the last empty line. */
  function Open(lines: seq<Bytes>): seq<Bytes>
    decreases |lines|
  {
    if lines == [] || lines[|lines| - 1] == [] then [] else Open(lines[..|lines| - 1]) + [lines[|lines| - 1]]
  }

  /** The blocks of lines that an empty line ends: the receiver's events. */
  function Events(lines: seq<Bytes>): seq<seq<Bytes>>
    decreases |lines|
  {
    if lines == [] then []
    else
      var front := lines[..|lines| - 1];
      Events(front) + if lines[|lines| - 1] == [] && Open(front) != [] then [Open(front)] else []
  }

  lemma OneMore(lines: seq<Bytes>, x: Bytes)
    ensures Open(lines + [x]) == if x == [] then [] else Open(lines) + [x]
    ensures Events(lines + [x]) == Events(lines) + if x == [] && Open(lines) != [] then [Open(lines)] else []
  {
    assert (lines + [x])[..|lines|] == lines;
  }

  /** The events of the output: those of what is passed on; one that the metadata ends; and last `[DONE]`.
      The metadata is an event of its own exactly when what is passed on ends with an empty line, or is
      empty itself. */
  lemma OutputEvents(received: Bytes, json: Bytes)
    requires IsPlainObject(json)
    ensures var p := Passed(received);
      var meta := Open(StdLines(p)) + [StdTail(p) + EVENT, DATA + json];
      && Events(StdLines(Rewritten(received, json))) == Events(StdLines(p)) + [meta] + [[DONE]]
      && (meta == [EVENT, DATA + json] <==>
          StdTail(p) == [] && (StdLines(p) == [] || StdLines(p)[|StdLines(p)| - 1] == []))
  {
    OutputStdLines(received, json);
    EventsFor(StdLines(Passed(received)), StdTail(Passed(received)), EVENT, DATA + json, DONE);
  }

  lemma EventsFor(lines: seq<Bytes>, t: Bytes, event: Bytes, data: Bytes, done: Bytes)
    requires event != [] && data != [] && done != []
    ensures var meta := Open(lines) + [t + event, data];
      && Events(lines + Added(t, event, data, done)) == Events(lines) + [meta] + [[done]]
      && (meta == [event, data] <==> t == [] && (lines == [] || lines[|lines| - 1] == []))
  {
    var l0 := lines + [t + event];
    var l := l0 + [data];
    TwoMore(lines, t + event, data);
    Closed(l, done);
    OneByOne(lines, t + event, data, [], done, []);
    OwnEvent(Open(lines), t, event, data);
  }

  lemma OneByOne<T>(s: seq<T>, a: T, b: T, c: T, d: T, e: T)
    ensures s + ([a] + ([b] + ([c] + ([d] + [e])))) == s + [a] + [b] + [c] + [d] + [e]
  {
  }

  lemma TwoMore(lines: seq<Bytes>, x: Bytes, y: Bytes)
    requires x != [] && y != []
    ensures Open(lines + [x] + [y]) == Open(lines) + [x, y]
    ensures Events(lines + [x] + [y]) == Events(lines)
  {
    OneMore(lines, x);
    OneMore(lines + [x], y);
  }

  /** An empty line ends the open event, and the one after the last line ends that. */
  lemma Closed(lines: seq<Bytes>, last: Bytes)
    requires Open(lines) != [] && last != []
    ensures Events(lines + [[]] + [last] + [[]]) == Events(lines) + [Open(lines)] + [[last]]
  {
    var l1 := lines + [[]];
    var l2 := l1 + [last];
    OneMore(lines, []);
    OneMore(l1, last);
    OneMore(l2, []);
    assert Open(l2) == [last];
    assert Events(l2) == Events(lines) + [Open(lines)] + [];
  }

  lemma OwnEvent(begun: seq<Bytes>, t: Bytes, event: Bytes, data: Bytes)
    ensures begun + [t + event, data] == [event, data] <==> t == [] && begun == []
  {
    var meta := begun + [t + event, data];
    assert |meta| == 2 ==> meta[0] == t + event;
    assert |t + event| == |event| ==> t == [];
    assert [] + event == event;
  }
}
