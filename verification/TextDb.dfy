/** The content-addressed text store: an index of rows and one text file per row, named by the hash
    of the normalized text. */
module TextDb {
  import opened Basics
  import opened Outcomes
  import opened Stripping
  import SseEvents
  import SseStream

  // ----- normalization -----

  function ReplaceCrLf(s: string): string {
    if s == [] then []
    else if |s| > 1 && s[0] == '\r' && s[1] == '\n' then ['\n'] + ReplaceCrLf(s[2..])
    else [s[0]] + ReplaceCrLf(s[1..])
  }

  function ReplaceCr(s: string): string {
    if s == [] then [] else [if s[0] == '\r' then '\n' else s[0]] + ReplaceCr(s[1..])
  }

  /** Every line end as a newline; also what reading a text file does. */
  function Newlines(s: string): string { ReplaceCr(ReplaceCrLf(s)) }

  /** The characters that `str.strip` removes. */
  predicate White(c: char) {
    '\U{09}' <= c <= '\U{0D}' || '\U{1C}' <= c <= '\U{20}' || c == '\U{85}' || c == '\U{A0}' || c == '\U{1680}'
    || '\U{2000}' <= c <= '\U{200A}' || c == '\U{2028}' || c == '\U{2029}' || c == '\U{202F}' || c == '\U{205F}'
    || c == '\U{3000}'
  }

  function Normalize(s: string): string { Strip(Newlines(s), White) }

  predicate NoCr(s: string) { forall i :: 0 <= i < |s| ==> s[i] != '\r' }

  lemma {:induction false} ReplaceCrHasNone(s: string)
    ensures NoCr(ReplaceCr(s))
  {
    if s != [] { ReplaceCrHasNone(s[1..]); }
  }

  lemma {:induction false} NewlinesOfNoCr(s: string)
    requires NoCr(s)
    ensures ReplaceCrLf(s) == s && ReplaceCr(s) == s
  {
    if s != [] { NewlinesOfNoCr(s[1..]); }
  }

  /** Normalizing twice, or reading a normalized file, changes nothing. */
  lemma NormalizeIsIdempotent(s: string)
    ensures Normalize(Normalize(s)) == Normalize(s) && Newlines(Normalize(s)) == Normalize(s)
  {
    ReplaceCrHasNone(ReplaceCrLf(s));
    StripIsBare(Newlines(s), White);
    NewlinesOfNoCr(Normalize(s));
    StripOfBare(Normalize(s), White);
  }

  lemma NewlinesStep(s: string)
    requires s != []
    ensures Newlines(s) ==
      if SseEvents.IsBreak(s[0]) then ['\n'] + Newlines(SseEvents.RestAt(s, 0)) else [s[0]] + Newlines(s[1..])
  {
    var t := if |s| > 1 && s[0] == '\r' && s[1] == '\n' then s[2..] else s[1..];
    assert ReplaceCrLf(s)[1..] == ReplaceCrLf(t);
  }

  /** A character more at the beginning of the first line. */
  function Grown(c: char, lines: seq<string>): seq<string> {
    if lines == [] then [] else [[c] + lines[0]] + lines[1..]
  }

  lemma GrowFirst(c: char, first: string, lines: seq<string>)
    ensures Grown(c, [first] + lines) == [[c] + first] + lines
  {
  }

  lemma GrowFirstLine(c: char, first: string, rest: string)
    requires c != '\n' && SseStream.OneLine(first)
    ensures var t := [c] + (first + "\n" + rest);
      SseStream.Lines(t) == [[c] + first] + SseStream.Lines(rest) && SseStream.Tail(t) == SseStream.Tail(rest)
  {
    assert ([c] + first)[1..] == first;
    assert [c] + (first + "\n" + rest) == [c] + first + "\n" + rest;
    SseStream.FirstLine([c] + first, rest);
  }

  lemma GrowLine(c: char, b: string)
    requires c != '\n'
    ensures SseStream.Lines([c] + b) == Grown(c, SseStream.Lines(b))
    ensures SseStream.Tail([c] + b) == if SseStream.Lines(b) == [] then [c] + b else SseStream.Tail(b)
  {
    var i := SseStream.LineEnd(b);
    if i < |b| {
      var first, rest := b[..i], b[i + 1..];
      SseStream.FirstIsOneLine(b);
      CutAt(b, i);
      SseStream.FirstLine(first, rest);
      GrowFirstLine(c, first, rest);
      GrowFirst(c, first, SseStream.Lines(rest));
    } else {
      assert ([c] + b)[1..] == b;
    }
  }

  lemma GrowRest(c: char, b: string, i: nat)
    requires i < |b|
    ensures SseEvents.RestAt([c] + b, i + 1) == SseEvents.RestAt(b, i)
  {
    Shifted(c, b, i + 1);
    if i + 1 < |b| { Shifted(c, b, i + 2); }
  }

  lemma GrowFirstStdLine(c: char, b: string)
    requires !SseEvents.IsBreak(c) && SseEvents.StdEnd(b) < |b|
    ensures var t, rest := [c] + b, SseEvents.StdRest(b);
      && SseEvents.StdLines(t) == [[c] + b[..SseEvents.StdEnd(b)]] + SseEvents.StdLines(rest)
      && SseEvents.StdTail(t) == SseEvents.StdTail(rest)
  {
    var i := SseEvents.StdEnd(b);
    assert ([c] + b)[1..] == b;
    Shifted(c, b, i);
    GrowRest(c, b, i);
    SseEvents.StdStep([c] + b, [c] + b[..i], SseEvents.StdRest(b));
  }

  lemma GrowStdLine(c: char, b: string)
    requires !SseEvents.IsBreak(c)
    ensures SseEvents.StdLines([c] + b) == Grown(c, SseEvents.StdLines(b))
    ensures SseEvents.StdTail([c] + b) == if SseEvents.StdLines(b) == [] then [c] + b else SseEvents.StdTail(b)
  {
    var i := SseEvents.StdEnd(b);
    if i < |b| {
      GrowFirstStdLine(c, b);
      GrowFirst(c, b[..i], SseEvents.StdLines(SseEvents.StdRest(b)));
    } else {
      assert ([c] + b)[1..] == b;
    }
  }

  /** The text keeps its lines, however they ended: its newlines now stand where a carriage return, a newline
      or both together stood. */
  lemma {:induction false} NewlinesKeepLines(s: string)
    ensures SseStream.Lines(Newlines(s)) == SseEvents.StdLines(s) && SseStream.Tail(Newlines(s)) == SseEvents.StdTail(s)
    decreases |s|
  {
    if s != [] {
      NewlinesStep(s);
      if SseEvents.IsBreak(s[0]) {
        var rest := SseEvents.RestAt(s, 0);
        NewlinesKeepLines(rest);
        SseStream.FirstLine("", Newlines(rest));
        assert "" + "\n" + Newlines(rest) == Newlines(s);
      } else {
        NewlinesKeepLines(s[1..]);
        GrowLine(s[0], Newlines(s[1..]));
        GrowStdLine(s[0], s[1..]);
        assert s == [s[0]] + s[1..];
        NoLines(s[1..]);
      }
    }
  }

  lemma NoLines(s: string)
    ensures SseStream.Lines(s) == [] ==> SseStream.Tail(s) == s
    ensures SseEvents.StdLines(s) == [] ==> SseEvents.StdTail(s) == s
  {
  }

  // ----- hashes -----

  predicate HexDigit(c: char) { '0' <= c <= '9' || 'a' <= c <= 'f' }

  /** A SHA-256 digest as printed by `hexdigest`. */
  predicate IsKid(k: string) { |k| == 64 && forall i :: 0 <= i < |k| ==> HexDigit(k[i]) }

  type Digest = k: string | IsKid(k) witness seq(64, _ => '0')

  /** Some function from texts to digests. Nothing else about it is used. */
  type Sha = string -> Digest

  function Kid(sha: Sha, content: string): string { sha(Normalize(content)) }

  function Lower(s: string): string {
    seq(|s|, i requires 0 <= i < |s| => if 'A' <= s[i] <= 'Z' then s[i] - 'A' + 'a' else s[i])
  }

  /** How callers' ids are cleaned. */
  function CleanKid(kid: string): string { Lower(Strip(kid, White)) }

  lemma CleanKidOfKid(kid: string)
    requires IsKid(kid)
    ensures CleanKid(kid) == kid
  {
    assert HexDigit(kid[0]) && HexDigit(kid[63]);
    StripOfBare(kid, White);
  }

  /** `s` is `kid` with some of its letters in upper case. */
  predicate SpellsKid(s: string, kid: string) {
    |s| == |kid| && forall i :: 0 <= i < |s| ==> s[i] == kid[i] || ('a' <= kid[i] <= 'z' && s[i] == kid[i] - 'a' + 'A')
  }

  /** An id may be padded and in upper case. */
  lemma CleanKidOfSpelling(left: string, s: string, right: string, kid: string)
    requires IsKid(kid) && SpellsKid(s, kid) && AllWhite(left, White) && AllWhite(right, White)
    ensures CleanKid(left + (s + right)) == kid
  {
    assert HexDigit(kid[0]) && HexDigit(kid[63]);
    StripPadded(left, s, right, White);
    forall i | 0 <= i < 64 ensures Lower(s)[i] == kid[i] {
      assert HexDigit(kid[i]);
    }
    assert Lower(s) == kid;
  }

  /** A file below the base directory: `blocks/<kid>.txt`, or any other. */
  datatype RelPath = TextFile(kid: string) | OtherFile(name: string)

  // ----- the index -----

  datatype Row = Row(relPath: RelPath, length: nat, createdAt: int, kvReady: bool, kvRelDir: Option<string>,
                     kvDumpedKeys: Option<int>, kvUpdatedAt: Option<int>)

  datatype KBItem = KBItem(id: string, content: string, row: Row)

  datatype Db = Db(rows: map<string, Row>, files: map<RelPath, string>)
  {
    /** The row's file, if it is there, holds the normalized text that the row's id is the hash of. */
    ghost predicate Good(sha: Sha, kid: string)
      requires kid in rows
    {
      && rows[kid].relPath == TextFile(kid)
      && (TextFile(kid) in files ==>
          var text := files[TextFile(kid)];
          text != "" && Normalize(text) == text && sha(text) == kid && rows[kid].length == |text|)
    }

    ghost predicate Valid(sha: Sha) { forall kid :: kid in rows ==> Good(sha, kid) }

    predicate Stored(kid: string) { kid in rows && rows[kid].relPath in files }

    function ItemOf(kid: string): KBItem
      requires Stored(kid)
    {
      KBItem(kid, Newlines(files[rows[kid].relPath]), rows[kid])
    }

    /** The items found among the first `k` ids, and the ids missed. */
    function Found(kids: seq<string>, k: nat): seq<KBItem>
      requires k <= |kids|
    {
      if k == 0 then []
      else if Stored(kids[k - 1]) then Found(kids, k - 1) + [ItemOf(kids[k - 1])]
      else Found(kids, k - 1)
    }

    function Missed(kids: seq<string>, k: nat): seq<string>
      requires k <= |kids|
    {
      if k == 0 then []
      else if Stored(kids[k - 1]) then Missed(kids, k - 1)
      else Missed(kids, k - 1) + [kids[k - 1]]
    }
  }

  /** Items and misses put back together: at each position the next item if the flag is set, else the
      next miss. */
  function Merge(items: seq<KBItem>, miss: seq<string>, flags: seq<bool>): seq<string>
    decreases |flags|
  {
    if flags == [] then []
    else if flags[|flags| - 1] then
      if items == [] then [] else Merge(items[..|items| - 1], miss, flags[..|flags| - 1]) + [items[|items| - 1].id]
    else
      if miss == [] then [] else Merge(items, miss[..|miss| - 1], flags[..|flags| - 1]) + [miss[|miss| - 1]]
  }

  function Flags(db: Db, kids: seq<string>, k: nat): seq<bool>
    requires k <= |kids|
  {
    if k == 0 then [] else Flags(db, kids, k - 1) + [db.Stored(kids[k - 1])]
  }

  lemma ItemSnoc(items: seq<KBItem>, miss: seq<string>, flags: seq<bool>, item: KBItem)
    ensures Merge(items + [item], miss, flags + [true]) == Merge(items, miss, flags) + [item.id]
  {
    assert (items + [item])[..|items|] == items && (flags + [true])[..|flags|] == flags;
  }

  lemma MissSnoc(items: seq<KBItem>, miss: seq<string>, flags: seq<bool>, kid: string)
    ensures Merge(items, miss + [kid], flags + [false]) == Merge(items, miss, flags) + [kid]
  {
    assert (miss + [kid])[..|miss|] == miss && (flags + [false])[..|flags|] == flags;
  }

  lemma MergeStored(db: Db, kids: seq<string>, k: nat)
    requires 0 < k <= |kids| && db.Stored(kids[k - 1])
    ensures Merge(db.Found(kids, k), db.Missed(kids, k), Flags(db, kids, k)) ==
      Merge(db.Found(kids, k - 1), db.Missed(kids, k - 1), Flags(db, kids, k - 1)) + [kids[k - 1]]
  {
    ItemSnoc(db.Found(kids, k - 1), db.Missed(kids, k - 1), Flags(db, kids, k - 1), db.ItemOf(kids[k - 1]));
  }

  lemma MergeMissed(db: Db, kids: seq<string>, k: nat)
    requires 0 < k <= |kids| && !db.Stored(kids[k - 1])
    ensures Merge(db.Found(kids, k), db.Missed(kids, k), Flags(db, kids, k)) ==
      Merge(db.Found(kids, k - 1), db.Missed(kids, k - 1), Flags(db, kids, k - 1)) + [kids[k - 1]]
  {
    MissSnoc(db.Found(kids, k - 1), db.Missed(kids, k - 1), Flags(db, kids, k - 1), kids[k - 1]);
  }

  /** Nothing is lost, added or reordered: items and misses merge back to the ids asked for. */
  lemma {:induction false} MergesBack(db: Db, kids: seq<string>, k: nat)
    requires k <= |kids|
    ensures Merge(db.Found(kids, k), db.Missed(kids, k), Flags(db, kids, k)) == kids[..k]
  {
    if k > 0 {
      MergesBack(db, kids, k - 1);
      assert kids[..k] == kids[..k - 1] + [kids[k - 1]];
      if db.Stored(kids[k - 1]) {
        MergeStored(db, kids, k);
      } else {
        MergeMissed(db, kids, k);
      }
    }
  }

  /** A stored id's item holds the very text the id is the hash of. */
  lemma ItemHashesToItsId(sha: Sha, db: Db, kid: string)
    requires db.Valid(sha) && db.Stored(kid)
    ensures var item := db.ItemOf(kid);
      && Kid(sha, item.content) == kid == item.id && item.row.length == |item.content|
      && item.content != "" && Normalize(item.content) == item.content
  {
    assert db.Good(sha, kid);
    NormalizeIsIdempotent(db.files[TextFile(kid)]);
  }

  /** What is found has a row and a file, and comes with that row and the text of that file; what is missed has
      not both. */
  lemma {:induction false} FoundAreStored(db: Db, kids: seq<string>, k: nat)
    requires k <= |kids|
    ensures forall item :: item in db.Found(kids, k) ==>
      && item.id in db.rows && item.row == db.rows[item.id]
      && item.row.relPath in db.files && item.content == Newlines(db.files[item.row.relPath])
    ensures forall kid :: kid in db.Missed(kids, k) ==> !(kid in db.rows && db.rows[kid].relPath in db.files)
  {
    if k > 0 { FoundAreStored(db, kids, k - 1); }
  }

  /** Registering a text: a new hash gets a row and a file, anything else changes nothing. */
  function Register(sha: Sha, db: Db, content: string, now: int): Db {
    var norm := Normalize(content);
    var kid := sha(norm);
    if norm == "" || kid in db.rows then db
    else Db(db.rows[kid := Row(TextFile(kid), |norm|, now, false, None, None, None)], db.files[TextFile(kid) := norm])
  }

  /** Texts that differ only in line ends and outer white space are the same text: registering a second
      one, or the same one again, changes nothing. */
  lemma RegisterIsIdempotent(sha: Sha, db: Db, content: string, again: string, now: int, later: int)
    requires Normalize(content) == Normalize(again)
    ensures Register(sha, Register(sha, db, content, now), again, later) == Register(sha, db, content, now)
    ensures Register(sha, db, Normalize(content), now) == Register(sha, db, content, now)
  {
    NormalizeIsIdempotent(content);
  }

  lemma RegisteredIsValid(sha: Sha, db: Db, kid: string, text: string, now: int)
    requires db.Valid(sha) && kid !in db.rows && text != "" && Normalize(text) == text && sha(text) == kid
    ensures Db(db.rows[kid := Row(TextFile(kid), |text|, now, false, None, None, None)], db.files[TextFile(kid) := text]).Valid(sha)
  {
    var next := Db(db.rows[kid := Row(TextFile(kid), |text|, now, false, None, None, None)], db.files[TextFile(kid) := text]);
    forall id | id in next.rows ensures next.Good(sha, id) {
      assert id in db.rows ==> db.Good(sha, id);
    }
  }

  class TextDatabase {
    const sha: Sha
    var rows: map<string, Row>
    var files: map<RelPath, string>

    ghost function State(): Db
      reads this
    {
      Db(rows, files)
    }

    ghost predicate Valid()
      reads this
    {
      State().Valid(sha)
    }

    constructor (sha: Sha)
      ensures Valid() && rows == map[] && files == map[] && this.sha == sha
    {
      this.sha := sha;
      rows, files := map[], map[];
    }

    /** Stores a new text under its hash; a known text is left as it is. */
    method RegisterText(content: string, now: int) returns (r: Outcome<(string, bool, nat)>)
      requires Valid()
      modifies this
      ensures Valid()
      ensures r.failure == Some(ValueError) <==> Normalize(content) == ""
      ensures r.failure.Some? ==> unchanged(this)
      ensures r.failure.None? ==>
        var (kid, created, length) := r.result;
        && kid == sha(Normalize(content)) && length == |Normalize(content)|
        && created == (kid !in old(rows))
        && rows == (if created then old(rows)[kid := Row(TextFile(kid), length, now, false, None, None, None)] else old(rows))
        && files == (if created then old(files)[TextFile(kid) := Normalize(content)] else old(files))
        && State() == Register(sha, old(State()), content, now)
    {
      var norm := Normalize(content);
      if norm == "" {
        return Outcome(("", false, 0), Some(ValueError));
      }
      var kid := sha(norm);
      if kid in rows {
        return Done((kid, false, |norm|));
      }
      NormalizeIsIdempotent(content);
      RegisteredIsValid(sha, State(), kid, norm, now);
      files := files[TextFile(kid) := norm];
      rows := rows[kid := Row(TextFile(kid), |norm|, now, false, None, None, None)];
      r := Done((kid, true, |norm|));
    }

    /** Marks the KV artifact of a registered text as ready. */
    method MarkKvReady(kid: string, kvRelDir: string, dumpedKeys: int, updatedAt: int) returns (failure: Option<Failure>)
      requires Valid()
      modifies this`rows
      ensures Valid()
      ensures var k := CleanKid(kid);
        && failure == (if k == "" then Some(ValueError) else if k !in old(rows) then Some(KeyError) else None)
        && rows == if failure.Some? then old(rows)
                   else old(rows)[k := old(rows)[k].(kvReady := true, kvRelDir := Some(kvRelDir),
                                                     kvDumpedKeys := Some(dumpedKeys), kvUpdatedAt := Some(updatedAt))]
    {
      var k := CleanKid(kid);
      if k == "" {
        return Some(ValueError);
      }
      if k !in rows {
        return Some(KeyError);
      }
      assert State().Good(sha, k);
      ghost var before := State();
      rows := rows[k := rows[k].(kvReady := true, kvRelDir := Some(kvRelDir), kvDumpedKeys := Some(dumpedKeys),
                                 kvUpdatedAt := Some(updatedAt))];
      assert forall id :: id in before.rows ==> before.Good(sha, id);
      return None;
    }

    /** The items for the ids that are stored, and the other ids, both in the order asked for. */
    method GetMany(kids: seq<string>) returns (items: seq<KBItem>, miss: seq<string>)
      ensures items == State().Found(kids, |kids|) && miss == State().Missed(kids, |kids|)
    {
      items, miss := [], [];
      var i := 0;
      while i < |kids|
        invariant 0 <= i <= |kids| && items == State().Found(kids, i) && miss == State().Missed(kids, i)
      {
        var kid := kids[i];
        i := i + 1;
        if kid !in rows {
          miss := miss + [kid];
          continue;
        }
        var row := rows[kid];
        if row.relPath !in files {
          miss := miss + [kid];
          continue;
        }
        items := items + [KBItem(kid, Newlines(files[row.relPath]), row)];
      }
    }

    /** Deletes a row, and its file if the file system allows it. */
    method DeleteOne(kid: string, fileCanGo: bool) returns (deleted: bool)
      requires Valid()
      modifies this
      ensures Valid()
      ensures var k := CleanKid(kid);
        && deleted == (k != "" && k in old(rows))
        && (!deleted ==> unchanged(this))
        && (deleted ==> rows == old(rows) - {k} && files == if fileCanGo then old(files) - {TextFile(k)} else old(files))
    {
      var k := CleanKid(kid);
      if k == "" || k !in rows {
        return false;
      }
      assert State().Good(sha, k);
      Deleted(sha, State(), k);
      var path := rows[k].relPath;
      rows := rows - {k};
      if path in files {
        if fileCanGo {
          files := files - {path};
        }
      } else {
        assert files - {path} == files;
      }
      return true;
    }
  }

  /** A text file that disappears from the disk takes only its own text along. */
  lemma FileLost(sha: Sha, db: Db, path: RelPath, kid: string)
    requires db.Valid(sha)
    ensures var left := Db(db.rows, db.files - {path});
      && left.Valid(sha)
      && (left.Stored(kid) <==> db.Stored(kid) && db.rows[kid].relPath != path)
      && (left.Stored(kid) ==> left.ItemOf(kid) == db.ItemOf(kid))
  {
    var left := Db(db.rows, db.files - {path});
    forall id | id in db.rows ensures left.Good(sha, id) {
      assert db.Good(sha, id);
    }
  }

  lemma Deleted(sha: Sha, db: Db, kid: string)
    requires db.Valid(sha)
    ensures Db(db.rows - {kid}, db.files).Valid(sha) && Db(db.rows - {kid}, db.files - {TextFile(kid)}).Valid(sha)
  {
    forall id | id in db.rows && id != kid
      ensures Db(db.rows - {kid}, db.files).Good(sha, id) && Db(db.rows - {kid}, db.files - {TextFile(kid)}).Good(sha, id)
    {
      assert db.Good(sha, id);
    }
  }
}
