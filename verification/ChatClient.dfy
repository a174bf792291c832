/** The client's reading of a chat stream: which metadata it has found when it stops at the final marker.
    How its HTTP library cuts the bytes into lines is not part of this model; lines are the standard's. */
module ChatClient {
  import opened Outcomes
  import opened Stripping
  import opened SseStream
  import opened SseEvents

  const META := "cacheroute_meta"
  const MESSAGE := "message"
  const EVENT_KEY := "event:"

  /** The current event's name, the metadata found last, and whether the marker has been read. */
  datatype Reader = Reader(event: string, meta: Option<Bytes>, done: bool)

  predicate NamesEvent(line: Bytes) { |line| >= 6 && line[..6] == EVENT_KEY }

  predicate HasData(line: Bytes) { |line| >= 5 && line[..5] == "data:" }

  function Read(r: Reader, line: Bytes): Reader {
    if r.done then r
    else if line == [] then r.(event := MESSAGE)
    else if NamesEvent(line) then r.(event := Strip(line[6..], White))
    else if !HasData(line) then r
    else if IsDone(line) then r.(done := true)
    else if r.event == META then r.(meta := Some(Strip(line[5..], White)))
    else r
  }

  function ReadAll(r: Reader, lines: seq<Bytes>): Reader
    decreases |lines|
  {
    if lines == [] then r else ReadAll(Read(r, lines[0]), lines[1..])
  }

  /** The client's loop. */
  method StreamMeta(lines: seq<Bytes>) returns (meta: Option<Bytes>)
    ensures meta == ReadAll(Reader(MESSAGE, None, false), lines).meta
  {
    var event := MESSAGE;
    meta := None;
    var i := 0;
    while i < |lines|
      invariant 0 <= i <= |lines|
      invariant ReadAll(Reader(MESSAGE, None, false), lines) == ReadAll(Reader(event, meta, false), lines[i..])
    {
      var line := lines[i];
      assert lines[i..][1..] == lines[i + 1..];
      i := i + 1;
      if line == [] {
        event := MESSAGE;
        continue;
      }
      if NamesEvent(line) {
        event := Strip(line[6..], White);
        continue;
      }
      if !HasData(line) {
        continue;
      }
      if IsDone(line) {
        DoneStays(Reader(event, meta, true), lines[i..]);
        break;
      }
      if event == META {
        meta := Some(Strip(line[5..], White));
      }
    }
  }

  lemma {:induction false} DoneStays(r: Reader, lines: seq<Bytes>)
    requires r.done
    ensures ReadAll(r, lines) == r
    decreases |lines|
  {
    if lines != [] { DoneStays(r, lines[1..]); }
  }

  lemma {:induction false} ReadConcat(r: Reader, a: seq<Bytes>, b: seq<Bytes>)
    ensures ReadAll(r, a + b) == ReadAll(ReadAll(r, a), b)
    decreases |a|
  {
    if a == [] {
      assert a + b == b;
    } else {
      ReadConcat(Read(r, a[0]), a[1..], b);
      assert (a + b)[1..] == a[1..] + b;
    }
  }

  const START := Reader(MESSAGE, None, false)

  lemma ReadSnoc(r: Reader, front: seq<Bytes>, line: Bytes)
    ensures ReadAll(r, front + [line]) == Read(ReadAll(r, front), line)
  {
    ReadConcat(r, front, [line]);
  }

  predicate SetsEvent(line: Bytes) { line == [] || NamesEvent(line) }

  /** Before the marker, the event in force is the one that the last line to set it names; an empty line sets it
      back. */
  lemma {:induction false} EventInForce(lines: seq<Bytes>, k: nat)
    requires DoneCount(lines) == 0 && k <= |lines| && (k > 0 ==> SetsEvent(lines[k - 1]))
    requires forall j :: k <= j < |lines| ==> !SetsEvent(lines[j])
    ensures ReadAll(START, lines).event ==
      if k == 0 || lines[k - 1] == [] then "message" else Strip(lines[k - 1][6..], White)
    decreases |lines|
  {
    if lines != [] {
      var front, last := lines[..|lines| - 1], lines[|lines| - 1];
      assert lines == front + [last];
      KeptConcat(front, [last]);
      StopsAtDone(START, front);
      ReadSnoc(START, front, last);
      if k < |lines| { EventInForce(front, k); }
    }
  }

  /** Line `j` has data for the metadata event. */
  predicate HasMeta(lines: seq<Bytes>, j: nat)
    requires j < |lines|
  {
    HasData(lines[j]) && ReadAll(START, lines[..j]).event == "cacheroute_meta"
  }

  /** Before the marker, the metadata is the data of the last line that has some in a metadata event. */
  lemma {:induction false} MetaInForce(lines: seq<Bytes>, k: nat)
    requires DoneCount(lines) == 0 && k <= |lines| && (k > 0 ==> HasMeta(lines, k - 1))
    requires forall j :: k <= j < |lines| ==> !HasMeta(lines, j)
    ensures ReadAll(START, lines).meta == if k == 0 then None else Some(Strip(lines[k - 1][5..], White))
    decreases |lines|
  {
    if lines != [] {
      var front, last := lines[..|lines| - 1], lines[|lines| - 1];
      assert lines == front + [last];
      forall j | 0 <= j < |front| ensures HasMeta(front, j) == HasMeta(lines, j) {
        assert front[..j] == lines[..j];
      }
      KeptConcat(front, [last]);
      StopsAtDone(START, front);
      ReadSnoc(START, front, last);
      if HasData(last) { DoneHasData(last); }
      if k < |lines| {
        assert !HasMeta(lines, |front|);
        MetaInForce(front, k);
      }
    }
  }

  lemma DoneHasData(line: Bytes)
    requires HasData(line)
    ensures line != [] && !NamesEvent(line)
  {
    assert line[..5][0] == 'd';
  }

  /** The client stops exactly at a `[DONE]` line. */
  lemma {:induction false} StopsAtDone(r: Reader, lines: seq<Bytes>)
    ensures ReadAll(r, lines).done <==> r.done || DoneCount(lines) > 0
    decreases |lines|
  {
    if lines != [] {
      if HasData(lines[0]) { DoneHasData(lines[0]); }
      StopsAtDone(Read(r, lines[0]), lines[1..]);
    }
  }

  lemma {:induction false} StripLeftKeeps(s: string, c: char)
    requires c in s && !White(c)
    ensures c in StripLeft(s, White)
    decreases |s|
  {
    if White(s[0]) { StripLeftKeeps(s[1..], c); }
  }

  lemma {:induction false} StripRightKeeps(s: string, c: char)
    requires c in s && !White(c)
    ensures c in StripRight(s, White)
    decreases |s|
  {
    if White(s[|s| - 1]) { StripRightKeeps(s[..|s| - 1], c); }
  }

  /** A tail before the event line spoils the event's name. */
  lemma SpoiledName(t: Bytes, event: Bytes, name: string)
    requires t != [] && |event| > 5 && event[5] == ':' && ':' !in name
    ensures NamesEvent(t + event) ==> Strip((t + event)[6..], White) != name
  {
    var line := t + event;
    assert line[6..][|t| - 1] == ':';
    StripLeftKeeps(line[6..], ':');
    StripRightKeeps(StripLeft(line[6..], White), ':');
  }

  lemma NameOfEvent()
    ensures NamesEvent(EVENT) && Strip(EVENT[6..], White) == META
    ensures ':' !in META && |EVENT| > 5 && EVENT[5] == ':'
  {
    assert EVENT[6..] == " " + META;
    assert (" " + META)[1..] == META && META[0] == 'c' && META[|META| - 1] == 'a';
    StripOfBare(META, White);
  }

  lemma ReadData(r: Reader, data: Bytes)
    requires !r.done && HasData(data) && !IsDone(data)
    ensures Read(r, data) == if r.event == META then r.(meta := Some(Strip(data[5..], White))) else r
  {
    DoneHasData(data);
  }

  lemma ReadEnd(r: Reader, done: Bytes)
    requires IsDone(done)
    ensures ReadAll(r, [[]] + ([done] + [[]])).meta == r.meta
  {
    DoneHasData(done);
    var r1 := Read(r, []);
    ReadCons(r, [], [done] + [[]]);
    ReadCons(r1, done, [[]]);
    DoneStays(Read(r1, done), [[]]);
  }

  /** What the client has after the lines that the proxy adds. */
  lemma ReadAdded(r: Reader, line: Bytes, data: Bytes, done: Bytes)
    requires !Read(r, line).done && HasData(data) && !IsDone(data) && IsDone(done)
    ensures var named := Read(r, line);
      ReadAll(r, [line] + ([data] + ([[]] + ([done] + [[]])))).meta ==
        if named.event == META then Some(Strip(data[5..], White)) else named.meta
  {
    var named := Read(r, line);
    ReadCons(r, line, [data] + ([[]] + ([done] + [[]])));
    ReadCons(named, data, [[]] + ([done] + [[]]));
    ReadData(named, data);
    ReadEnd(Read(named, data), done);
  }

  lemma ReadCons(r: Reader, line: Bytes, rest: seq<Bytes>)
    ensures ReadAll(r, [line] + rest) == ReadAll(Read(r, line), rest)
  {
    assert ([line] + rest)[1..] == rest;
  }

  lemma JsonOfData(json: Bytes)
    requires IsPlainObject(json)
    ensures HasData(DATA + json) && Strip((DATA + json)[5..], White) == json
  {
    assert (DATA + json)[..5] == "data:" && (DATA + json)[5..] == " " + json && (" " + json)[1..] == json;
    assert !White(json[0]) && !White(json[|json| - 1]);
    StripOfBare(json, White);
  }

  lemma NameAfter(r: Reader, t: Bytes)
    requires !r.done && !IsDone(t + EVENT) && r.event != META
    ensures var named := Read(r, t + EVENT);
      named.meta == r.meta && (named.event == META <==> t == [])
  {
    NameOfEvent();
    if t == [] {
      assert t + EVENT == EVENT;
    } else {
      SpoiledName(t, EVENT, META);
    }
  }

  /** End to end: a client that has read what the proxy passed on, without meeting a `[DONE]` line or being
      inside an event of the metadata's name, finds the request's metadata exactly when the bytes received
      left no unfinished line. */
  lemma ClientFindsMetadata(received: Bytes, json: Bytes)
    requires IsPlainObject(json)
    ensures var p := Passed(received);
      var before := ReadAll(Reader(MESSAGE, None, false), StdLines(p));
      var after := ReadAll(Reader(MESSAGE, None, false), StdLines(Rewritten(received, json)));
      && after.done && (before.done <==> DoneCount(StdLines(p)) > 0)
      && (before.done ==> after == before)
      && (!before.done && before.event != META ==>
          after.meta == if StdTail(p) == [] then Some(json) else before.meta)
  {
    var p, r := Passed(received), Reader(MESSAGE, None, false);
    var before, t := ReadAll(r, StdLines(p)), StdTail(p);
    var added := Added(t, EVENT, DATA + json, DONE);
    OutputStdLines(received, json);
    AddedLinesNotDone(t, json);
    ReadConcat(r, StdLines(p), added);
    StopsAtDone(r, StdLines(p));
    StopsAtDone(before, added);
    AddedDone(t, EVENT, DATA + json, DONE);
    if before.done {
      DoneStays(before, added);
    } else {
      ReadAdded(before, t + EVENT, DATA + json, DONE);
      JsonOfData(json);
      if before.event != META {
        NameAfter(before, t);
      }
    }
  }
}
