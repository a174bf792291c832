/** The proxy's rewriting of a chat stream of server-sent events: whatever way the bytes arrive in
    chunks, the `[DONE]` lines it sees are held back, and at the end the request's metadata and a final
    `[DONE]` are sent. Bytes are characters with codes below 256. */
module SseStream {
  import opened Basics
  import opened Stripping

  type Bytes = string

  const EVENT := "event: " + "cacheroute_meta"
  const DATA := "data: "
  const DONE := "data: " + "[DONE]"

  function MetaEvent(json: Bytes): Bytes { EVENT + "\n" + DATA + json + "\n\n" }

  // ----- lines -----

  /** The position of the first newline, or the length. */
  function LineEnd(b: Bytes): (i: nat)
    ensures i <= |b| && (i < |b| ==> b[i] == '\n')
  {
    if b == [] || b[0] == '\n' then 0 else 1 + LineEnd(b[1..])
  }

  predicate OneLine(b: Bytes) { LineEnd(b) == |b| }

  /** The complete lines of a stream, without their newlines. */
  function Lines(b: Bytes): seq<Bytes>
    decreases |b|
  {
    var i := LineEnd(b);
    if i == |b| then [] else [b[..i]] + Lines(b[i + 1..])
  }

  /** What follows the last newline. */
  function Tail(b: Bytes): Bytes
    decreases |b|
  {
    var i := LineEnd(b);
    if i == |b| then b else Tail(b[i + 1..])
  }

  function Unlines(lines: seq<Bytes>): Bytes
    decreases |lines|
  {
    if lines == [] then [] else lines[0] + "\n" + Unlines(lines[1..])
  }

  ghost predicate AllOneLine(lines: seq<Bytes>)
    decreases |lines|
  {
    lines == [] || (OneLine(lines[0]) && AllOneLine(lines[1..]))
  }

  lemma {:induction false} LineEndOfConcat(line: Bytes, rest: Bytes)
    requires OneLine(line)
    ensures LineEnd(line + rest) == |line| + LineEnd(rest)
    decreases |line|
  {
    if line == [] {
      assert line + rest == rest;
    } else {
      LineEndOfConcat(line[1..], rest);
      assert (line + rest)[1..] == line[1..] + rest;
    }
  }

  lemma {:induction false} FirstIsOneLine(b: Bytes)
    ensures OneLine(b[..LineEnd(b)])
    decreases |b|
  {
    if b != [] && b[0] != '\n' {
      FirstIsOneLine(b[1..]);
      assert b[..LineEnd(b)][1..] == b[1..][..LineEnd(b[1..])];
    }
  }

  lemma FirstLine(line: Bytes, rest: Bytes)
    requires OneLine(line)
    ensures Lines(line + "\n" + rest) == [line] + Lines(rest)
    ensures Tail(line + "\n" + rest) == Tail(rest)
  {
    var b := line + "\n" + rest;
    assert b == line + ("\n" + rest);
    LineEndOfConcat(line, "\n" + rest);
    assert b[..|line|] == line && b[|line| + 1..] == rest;
  }

  lemma UnlinesCons(line: Bytes, lines: seq<Bytes>)
    ensures Unlines([line] + lines) == line + "\n" + Unlines(lines)
  {
    assert ([line] + lines)[1..] == lines;
  }

  lemma {:induction false} UnlinesConcat(a: seq<Bytes>, b: seq<Bytes>)
    ensures Unlines(a + b) == Unlines(a) + Unlines(b)
    decreases |a|
  {
    if a == [] {
      assert a + b == b;
    } else {
      UnlinesConcat(a[1..], b);
      assert (a + b)[1..] == a[1..] + b;
    }
  }

  lemma Recombine(b: Bytes, i: nat, x: Bytes, y: Bytes)
    requires i < |b| && b[i] == '\n' && b[i + 1..] == x + y
    ensures b == b[..i] + "\n" + x + y
  {
    assert b == b[..i] + [b[i]] + b[i + 1..];
  }

  lemma {:induction false} JoinLines(b: Bytes)
    ensures b == Unlines(Lines(b)) + Tail(b)
    decreases |b|
  {
    var i := LineEnd(b);
    if i < |b| {
      var rest := b[i + 1..];
      JoinLines(rest);
      UnlinesCons(b[..i], Lines(rest));
      Recombine(b, i, Unlines(Lines(rest)), Tail(rest));
    }
  }

  lemma {:induction false} LinesAreLines(b: Bytes)
    ensures OneLine(Tail(b)) && AllOneLine(Lines(b))
    decreases |b|
  {
    var i := LineEnd(b);
    if i < |b| {
      LinesAreLines(b[i + 1..]);
      FirstIsOneLine(b);
      AllOneLineCons(b[..i], Lines(b[i + 1..]));
    }
  }

  lemma AllOneLineCons(line: Bytes, lines: seq<Bytes>)
    ensures AllOneLine([line] + lines) <==> OneLine(line) && AllOneLine(lines)
  {
    assert ([line] + lines)[1..] == lines;
  }

  /** A stream is its complete lines and then its tail. */
  lemma LinesInverse(b: Bytes)
    ensures b == Unlines(Lines(b)) + Tail(b)
    ensures OneLine(Tail(b)) && AllOneLine(Lines(b))
  {
    JoinLines(b);
    LinesAreLines(b);
  }

  /** And in one way only. */
  lemma {:induction false} UnlinesInverse(lines: seq<Bytes>, rest: Bytes)
    requires AllOneLine(lines)
    ensures Lines(Unlines(lines) + rest) == lines + Lines(rest)
    ensures Tail(Unlines(lines) + rest) == Tail(rest)
    decreases |lines|
  {
    if lines == [] {
      assert Unlines(lines) + rest == rest;
    } else {
      UnlinesInverse(lines[1..], rest);
      FirstLine(lines[0], Unlines(lines[1..]) + rest);
      Regroup(lines[0] + "\n", Unlines(lines[1..]), rest);
      Regroup([lines[0]], lines[1..], Lines(rest));
      assert lines == [lines[0]] + lines[1..];
    }
  }

  /** More bytes only continue the tail. */
  lemma Continue(a: Bytes, b: Bytes)
    ensures Lines(a + b) == Lines(a) + Lines(Tail(a) + b)
    ensures Tail(a + b) == Tail(Tail(a) + b)
  {
    LinesInverse(a);
    UnlinesInverse(Lines(a), Tail(a) + b);
    assert a + b == Unlines(Lines(a)) + (Tail(a) + b);
  }

  // ----- the lines held back -----

  predicate White(c: char) { c in [' ', '\t', '\n', '\r', '\U{0B}', '\U{0C}'] }

  predicate IsDone(line: Bytes) {
    |line| >= 5 && line[..5] == "data:" && Strip(line[5..], White) == "[DONE]"
  }

  /** `core` with only white space around it. */
  predicate Pads(s: Bytes, left: Bytes, core: Bytes, right: Bytes) {
    s == left + (core + right) && AllWhite(left, White) && AllWhite(right, White)
  }

  lemma StripMeaning(s: Bytes, core: Bytes)
    requires core != [] && Bare(core, White)
    ensures Strip(s, White) == core <==> exists left, right :: Pads(s, left, core, right)
  {
    if Strip(s, White) == core {
      StripIsBare(s, White);
      var i: nat, j: nat :| IsCore(s, White, i, j) && core == s[i..j];
      assert Pads(s, s[..i], core, s[j..]);
    }
    if left, right :| Pads(s, left, core, right) {
      StripPadded(left, core, right, White);
    }
  }

  /** A line is held back exactly when it is `data:` and the marker, with only white space around it. */
  lemma IsDoneMeaning(line: Bytes)
    ensures IsDone(line) <==>
      |line| >= 5 && line[..5] == "data:" && exists left, right :: Pads(line[5..], left, "[DONE]", right)
  {
    if |line| >= 5 { StripMeaning(line[5..], "[DONE]"); }
  }

  function Kept(lines: seq<Bytes>): seq<Bytes>
    decreases |lines|
  {
    if lines == [] then []
    else if IsDone(lines[0]) then Kept(lines[1..])
    else [lines[0]] + Kept(lines[1..])
  }

  /** How many `[DONE]` lines there are. */
  function DoneCount(lines: seq<Bytes>): nat
    decreases |lines|
  {
    if lines == [] then 0 else (if IsDone(lines[0]) then 1 else 0) + DoneCount(lines[1..])
  }

  lemma {:induction false} KeptConcat(a: seq<Bytes>, b: seq<Bytes>)
    ensures Kept(a + b) == Kept(a) + Kept(b)
    ensures DoneCount(a + b) == DoneCount(a) + DoneCount(b)
    decreases |a|
  {
    if a == [] {
      assert a + b == b;
    } else {
      KeptConcat(a[1..], b);
      assert (a + b)[1..] == a[1..] + b;
      Regroup([a[0]], Kept(a[1..]), Kept(b));
    }
  }

  /** Of the lines that are not held back each is kept as often as it came. */
  lemma {:induction false} KeptCounts(lines: seq<Bytes>, line: Bytes)
    ensures multiset(Kept(lines))[line] == if IsDone(line) then 0 else multiset(lines)[line]
    decreases |lines|
  {
    if lines != [] {
      KeptCounts(lines[1..], line);
      assert lines == [lines[0]] + lines[1..];
    }
  }

  lemma {:induction false} KeptHasNoDone(lines: seq<Bytes>)
    ensures DoneCount(Kept(lines)) == 0
    ensures DoneCount(lines) == 0 ==> Kept(lines) == lines
    ensures AllOneLine(lines) ==> AllOneLine(Kept(lines))
    decreases |lines|
  {
    if lines != [] {
      KeptHasNoDone(lines[1..]);
      assert ([lines[0]] + Kept(lines[1..]))[1..] == Kept(lines[1..]);
      assert lines == [lines[0]] + lines[1..];
    }
  }

  lemma {:induction false} StripLeftKeepsLast(b: Bytes)
    requires b != [] && !White(b[|b| - 1])
    ensures var t := StripLeft(b, White); t != [] && t[|t| - 1] == b[|b| - 1]
  {
    if White(b[0]) { StripLeftKeepsLast(b[1..]); }
  }

  /** A line that ends in a visible byte other than `]` is not held back. */
  lemma NotDone(line: Bytes)
    requires |line| > 5 && !White(line[|line| - 1]) && line[|line| - 1] != ']'
    ensures !IsDone(line)
  {
    StripLeftKeepsLast(line[5..]);
  }

  // ----- the whole stream -----

  /** The rewritten stream as a function of all the bytes received. */
  function Rewritten(received: Bytes, json: Bytes): Bytes {
    Unlines(Kept(Lines(received))) + Tail(received) + MetaEvent(json) + (DONE + "\n\n")
  }

  /** What the output adds after the kept lines and the tail `t`, line by line. */
  function Added(t: Bytes, event: Bytes, data: Bytes, done: Bytes): seq<Bytes> {
    [t + event] + ([data] + ([[]] + ([done] + [[]])))
  }

  lemma AddedText(t: Bytes, event: Bytes, key: Bytes, json: Bytes, done: Bytes)
    ensures Unlines(Added(t, event, key + json, done)) ==
      t + (event + "\n" + key + json + "\n\n") + (done + "\n\n")
  {
    UnlinesCons(t + event, [key + json] + ([[]] + ([done] + [[]])));
    UnlinesCons(key + json, [[]] + ([done] + [[]]));
    UnlinesCons([], [done] + [[]]);
    UnlinesCons(done, [[]]);
    UnlinesCons([], []);
    var empty: Bytes := "";
    assert [empty] + [] == [empty];
  }

  lemma AddedLines(t: Bytes, event: Bytes, data: Bytes, done: Bytes)
    requires OneLine(t) && OneLine(event) && OneLine(data) && OneLine(done)
    ensures AllOneLine(Added(t, event, data, done))
  {
    LineEndOfConcat(t, event);
    AllOneLineCons(t + event, [data] + ([[]] + ([done] + [[]])));
    AllOneLineCons(data, [[]] + ([done] + [[]]));
    AllOneLineCons([], [done] + [[]]);
    AllOneLineCons(done, [[]]);
    AllOneLineCons([], []);
  }

  lemma AddedDone(t: Bytes, event: Bytes, data: Bytes, done: Bytes)
    requires !IsDone(t + event) && !IsDone(data) && IsDone(done)
    ensures DoneCount(Added(t, event, data, done)) == 1
  {
    KeptConcat([t + event], [data] + ([[]] + ([done] + [[]])));
    KeptConcat([data], [[]] + ([done] + [[]]));
    KeptConcat([[]], [done] + [[]]);
    KeptConcat([done], [[]]);
  }

  lemma EventIsOneLine()
    ensures OneLine(EVENT)
  {
  }

  lemma DoneIsOneLine()
    ensures OneLine(DATA) && OneLine(DONE)
  {
  }

  lemma DoneIsDone()
    ensures IsDone(DONE)
  {
    assert DONE[..5] == "data:" && DONE[5..] == " [DONE]" && " [DONE]"[1..] == "[DONE]";
  }

  /** The lines of the output: the lines received, except the `[DONE]` lines; then the metadata event,
      whose first line continues an unterminated tail; then the final `[DONE]`. */
  lemma OutputLines(received: Bytes, json: Bytes)
    requires OneLine(json)
    ensures Lines(Rewritten(received, json)) ==
      Kept(Lines(received)) + Added(Tail(received), EVENT, DATA + json, DONE)
    ensures Tail(Rewritten(received, json)) == []
  {
    EventIsOneLine();
    DoneIsOneLine();
    LinesInverse(received);
    KeptHasNoDone(Lines(received));
    LineEndOfConcat(DATA, json);
    OutputLinesFor(Kept(Lines(received)), Tail(received), EVENT, DATA, json, DONE, Rewritten(received, json));
  }

  lemma OutputLinesFor(kept: seq<Bytes>, t: Bytes, event: Bytes, key: Bytes, json: Bytes, done: Bytes, out: Bytes)
    requires AllOneLine(kept) && OneLine(t) && OneLine(event) && OneLine(key + json) && OneLine(done)
    requires out == Unlines(kept) + t + (event + "\n" + key + json + "\n\n") + (done + "\n\n")
    ensures Lines(out) == kept + Added(t, event, key + json, done) && Tail(out) == []
  {
    var added := Added(t, event, key + json, done);
    AddedText(t, event, key, json, done);
    AddedLines(t, event, key + json, done);
    Regroup(Unlines(kept), t, event + "\n" + key + json + "\n\n");
    Regroup(Unlines(kept), t + (event + "\n" + key + json + "\n\n"), done + "\n\n");
    assert Unlines(added) == Unlines(added) + [];
    UnlinesInverse(kept, Unlines(added));
    UnlinesInverse(added, []);
  }

  /** Without `[DONE]` lines in the input nothing of it is lost. */
  lemma NothingElseIsLost(received: Bytes, json: Bytes)
    ensures DoneCount(Lines(received)) == 0 ==>
      Rewritten(received, json) == received + MetaEvent(json) + (DONE + "\n\n")
  {
    LinesInverse(received);
    KeptHasNoDone(Lines(received));
  }

  /** Takes the complete lines out of `pending` and sends those that are not held back. */
  method Drain(sent: Bytes, pending: Bytes) returns (sentNow: Bytes, left: Bytes)
    ensures sentNow == sent + Unlines(Kept(Lines(pending))) && left == Tail(pending)
  {
    sentNow, left := sent, pending;
    while LineEnd(left) < |left|
      invariant sentNow + Unlines(Kept(Lines(left))) == sent + Unlines(Kept(Lines(pending)))
      invariant Tail(left) == Tail(pending)
      decreases |left|
    {
      var line, rest := left[..LineEnd(left)], left[LineEnd(left) + 1..];
      OneLineLess(line, Lines(rest));
      left := rest;
      if IsDone(line) {
        continue;
      }
      sentNow := sentNow + line + "\n";
    }
  }

  lemma OneLineLess(line: Bytes, rest: seq<Bytes>)
    ensures Unlines(Kept([line] + rest)) == if IsDone(line) then Unlines(Kept(rest)) else line + "\n" + Unlines(Kept(rest))
  {
    assert ([line] + rest)[1..] == rest;
    UnlinesCons(line, Kept(rest));
  }

  /** What one more chunk adds to the lines kept. */
  lemma KeptContinue(received: Bytes, chunk: Bytes)
    ensures Unlines(Kept(Lines(received + chunk))) ==
      Unlines(Kept(Lines(received))) + Unlines(Kept(Lines(Tail(received) + chunk)))
  {
    Continue(received, chunk);
    KeptConcat(Lines(received), Lines(Tail(received) + chunk));
    UnlinesConcat(Kept(Lines(received)), Kept(Lines(Tail(received) + chunk)));
  }

  function Concat(chunks: seq<Bytes>): Bytes
    decreases |chunks|
  {
    if chunks == [] then [] else Concat(chunks[..|chunks| - 1]) + chunks[|chunks| - 1]
  }

  /** The generator's state: the bytes it has sent and the incomplete line it holds. */
  class StreamWrapper {
    var pending: Bytes
    var sent: Bytes
    ghost var received: Bytes

    ghost predicate Valid()
      reads this
    {
      pending == Tail(received) && sent == Unlines(Kept(Lines(received)))
    }

    constructor ()
      ensures Valid() && received == [] && sent == []
    {
      pending, sent, received := [], [], [];
    }

    /** Takes one chunk from the instance. */
    method Feed(chunk: Bytes)
      requires Valid()
      modifies this
      ensures Valid() && received == old(received) + chunk
    {
      if chunk == [] {
        assert received + chunk == received;
        return;
      }
      Continue(received, chunk);
      KeptContinue(received, chunk);
      received := received + chunk;
      pending := pending + chunk;
      sent, pending := Drain(sent, pending);
    }

    /** Ends the stream, whether the instance finished or failed. */
    method Finish(json: Bytes)
      requires Valid()
      modifies this`pending, this`sent
      ensures sent == Rewritten(received, json)
    {
      if pending != [] {
        sent := sent + pending;
        pending := [];
      }
      sent := sent + MetaEvent(json);
      sent := sent + (DONE + "\n\n");
    }
  }

  /** A whole request: `delivered` are the chunks that arrive before the instance ends the stream or
      fails. The output does not depend on how the bytes were cut into chunks. */
  method WrapChatStream(delivered: seq<Bytes>, json: Bytes) returns (sent: Bytes)
    ensures sent == Rewritten(Concat(delivered), json)
  {
    var w := new StreamWrapper();
    var i := 0;
    assert delivered[..0] == [];
    while i < |delivered|
      invariant 0 <= i <= |delivered| && w.Valid() && fresh(w)
      invariant w.received == Concat(delivered[..i])
    {
      assert delivered[..i + 1][..i] == delivered[..i];
      w.Feed(delivered[i]);
      i := i + 1;
    }
    assert delivered[..|delivered|] == delivered;
    w.Finish(json);
    return w.sent;
  }
}
