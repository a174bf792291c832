/** Segments of a token sequence: the pieces between occurrences of a separator, with the spans
    and keys that stand for them. */
module SegmentSplit {
  import opened Basics
  import opened Outcomes
  import opened TokenKeys

  ghost predicate MatchAt(tokens: seq<Token>, sep: seq<Token>, i: int) {
    0 <= i && i + |sep| <= |tokens| && tokens[i..i + |sep|] == sep
  }

  /** Two occurrences of the separator share a token. */
  ghost predicate Overlapping(tokens: seq<Token>, sep: seq<Token>) {
    exists p, q :: MatchAt(tokens, sep, p) && MatchAt(tokens, sep, q) && p < q < p + |sep|
  }

  /** The positions from `i` on where the separator occurs, overlapping ones included. An empty one occurs
      everywhere, also at the end. */
  function Matches(tokens: seq<Token>, sep: seq<Token>, i: nat): seq<nat>
    decreases |tokens| + 1 - i
  {
    if i + |sep| > |tokens| then []
    else if tokens[i..i + |sep|] == sep then [i] + Matches(tokens, sep, i + 1)
    else Matches(tokens, sep, i + 1)
  }

  ghost predicate AllMatch(tokens: seq<Token>, sep: seq<Token>, ms: seq<nat>)
    decreases |ms|
  {
    ms == [] || (MatchAt(tokens, sep, ms[0]) && AllMatch(tokens, sep, ms[1..]))
  }

  lemma {:induction false} MatchesAreMatches(tokens: seq<Token>, sep: seq<Token>, i: nat)
    ensures AllMatch(tokens, sep, Matches(tokens, sep, i))
    decreases |tokens| + 1 - i
  {
    if i + |sep| <= |tokens| {
      MatchesAreMatches(tokens, sep, i + 1);
    }
  }

  lemma FirstMatch(i: nat, rest: seq<nat>, p: nat)
    ensures p in [i] + rest <==> p == i || p in rest
  {
  }

  /** Every occurrence is found. */
  lemma {:induction false} AllFound(tokens: seq<Token>, sep: seq<Token>, i: nat, p: nat)
    ensures p in Matches(tokens, sep, i) <==> i <= p && MatchAt(tokens, sep, p)
    decreases |tokens| + 1 - i
  {
    if i + |sep| <= |tokens| {
      AllFound(tokens, sep, i + 1, p);
      FirstMatch(i, Matches(tokens, sep, i + 1), p);
    }
  }

  /** Each is found once, and in order. */
  lemma {:induction false} FoundInOrder(tokens: seq<Token>, sep: seq<Token>, i: nat, j: nat, k: nat)
    requires j < k < |Matches(tokens, sep, i)|
    ensures i <= Matches(tokens, sep, i)[j] < Matches(tokens, sep, i)[k]
    decreases |tokens| + 1 - i
  {
    var ms, rest := Matches(tokens, sep, i), Matches(tokens, sep, i + 1);
    if ms == rest {
      FoundInOrder(tokens, sep, i + 1, j, k);
    } else if j > 0 {
      FoundInOrder(tokens, sep, i + 1, j - 1, k - 1);
    } else {
      AllFound(tokens, sep, i + 1, rest[k - 1]);
    }
  }

  /** Torch slicing: an empty slice when the end comes before the start. */
  function Slice(tokens: seq<Token>, a: nat, b: nat): seq<Token> {
    if a <= b <= |tokens| then tokens[a..b] else []
  }

  /** The pieces from `start` on, cut before and after each match. */
  function Pieces(tokens: seq<Token>, len: nat, start: nat, ms: seq<nat>): seq<seq<Token>>
    decreases |ms|
  {
    if ms == [] then [Slice(tokens, start, |tokens|)]
    else [Slice(tokens, start, ms[0])] + Pieces(tokens, len, ms[0] + len, ms[1..])
  }

  /** Piece `k` lies between the end of the match before it and the start of its own. */
  lemma {:induction false} PieceAt(tokens: seq<Token>, len: nat, start: nat, ms: seq<nat>, k: nat)
    requires k <= |ms|
    ensures var parts := Pieces(tokens, len, start, ms);
      |parts| == |ms| + 1 &&
      parts[k] == Slice(tokens, if k == 0 then start else ms[k - 1] + len, if k == |ms| then |tokens| else ms[k])
    decreases |ms|
  {
    if ms != [] { PieceAt(tokens, len, ms[0] + len, ms[1..], if k == 0 then 0 else k - 1); }
  }

  function Segments(tokens: seq<Token>, sep: seq<Token>): seq<seq<Token>> {
    Pieces(tokens, |sep|, 0, Matches(tokens, sep, 0))
  }

  function Join(parts: seq<seq<Token>>, sep: seq<Token>): seq<Token>
    decreases |parts|
  {
    if |parts| == 0 then []
    else if |parts| == 1 then parts[0]
    else parts[0] + sep + Join(parts[1..], sep)
  }

  /** Each match starts at or after the end of the one before it. */
  ghost predicate Apart(len: nat, start: nat, ms: seq<nat>)
    decreases |ms|
  {
    ms == [] || (start <= ms[0] && Apart(len, ms[0] + len, ms[1..]))
  }

  lemma ApartCons(len: nat, start: nat, m: nat, ms: seq<nat>)
    ensures Apart(len, start, [m] + ms) <==> start <= m && Apart(len, m + len, ms)
  {
    assert ([m] + ms)[1..] == ms;
  }

  ghost predicate NoneBefore(tokens: seq<Token>, sep: seq<Token>, i: nat, start: nat) {
    forall p :: MatchAt(tokens, sep, p) && i <= p ==> start <= p
  }

  ghost predicate NoneOverlapFrom(tokens: seq<Token>, sep: seq<Token>, i: nat) {
    forall p: nat :: MatchAt(tokens, sep, p) && i <= p ==> NoneBefore(tokens, sep, p + 1, p + |sep|)
  }

  lemma NoneBeforeStep(tokens: seq<Token>, sep: seq<Token>, i: nat, start: nat)
    ensures NoneBefore(tokens, sep, i, start) <==>
      NoneBefore(tokens, sep, i + 1, start) && (MatchAt(tokens, sep, i) ==> start <= i)
    ensures start <= i ==> NoneBefore(tokens, sep, i, start)
  {
  }

  lemma NoneOverlapStep(tokens: seq<Token>, sep: seq<Token>, i: nat)
    ensures NoneOverlapFrom(tokens, sep, i) <==>
      NoneOverlapFrom(tokens, sep, i + 1) && (MatchAt(tokens, sep, i) ==> NoneBefore(tokens, sep, i + 1, i + |sep|))
  {
  }

  lemma {:induction false} ApartMeansNoOverlap(tokens: seq<Token>, sep: seq<Token>, i: nat, start: nat)
    ensures Apart(|sep|, start, Matches(tokens, sep, i)) <==>
      NoneBefore(tokens, sep, i, start) && NoneOverlapFrom(tokens, sep, i)
    decreases |tokens| + 1 - i
  {
    if i + |sep| <= |tokens| {
      var found := tokens[i..i + |sep|] == sep;
      assert found <==> MatchAt(tokens, sep, i);
      ApartCons(|sep|, start, i, Matches(tokens, sep, i + 1));
      NoneBeforeStep(tokens, sep, i, start);
      NoneOverlapStep(tokens, sep, i);
      ApartMeansNoOverlap(tokens, sep, i + 1, if found then i + |sep| else start);
    }
  }

  lemma OverlapsFrom(tokens: seq<Token>, sep: seq<Token>)
    ensures NoneOverlapFrom(tokens, sep, 0) <==> !Overlapping(tokens, sep)
  {
    if Overlapping(tokens, sep) {
      var p, q :| MatchAt(tokens, sep, p) && MatchAt(tokens, sep, q) && p < q < p + |sep|;
      assert !NoneBefore(tokens, sep, p + 1, p + |sep|);
    }
  }

  lemma JoinCons(part: seq<Token>, rest: seq<seq<Token>>, sep: seq<Token>)
    requires rest != []
    ensures Join([part] + rest, sep) == part + sep + Join(rest, sep)
  {
    assert ([part] + rest)[1..] == rest;
  }

  lemma {:induction false} JoinPieces(tokens: seq<Token>, sep: seq<Token>, start: nat, ms: seq<nat>)
    requires start <= |tokens| && AllMatch(tokens, sep, ms)
    requires Apart(|sep|, start, ms)
    ensures Join(Pieces(tokens, |sep|, start, ms), sep) == tokens[start..]
    decreases |ms|
  {
    if ms != [] {
      var m := ms[0];
      JoinPieces(tokens, sep, m + |sep|, ms[1..]);
      JoinCons(Slice(tokens, start, m), Pieces(tokens, |sep|, m + |sep|, ms[1..]), sep);
      CutTwice(tokens, start, m, m + |sep|);
    }
  }

  lemma CutTwice<T>(s: seq<T>, a: nat, b: nat, c: nat)
    requires a <= b <= c <= |s|
    ensures s[a..] == s[a..b] + s[b..c] + s[c..]
  {
  }

  lemma {:induction false} JoinLength(tokens: seq<Token>, sep: seq<Token>, start: nat, ms: seq<nat>)
    requires start <= |tokens| && AllMatch(tokens, sep, ms)
    ensures var n := |Join(Pieces(tokens, |sep|, start, ms), sep)|;
      if Apart(|sep|, start, ms) then n == |tokens| - start else n > |tokens| - start
    decreases |ms|
  {
    if ms != [] {
      var m := ms[0];
      JoinLength(tokens, sep, m + |sep|, ms[1..]);
      JoinCons(Slice(tokens, start, m), Pieces(tokens, |sep|, m + |sep|, ms[1..]), sep);
    }
  }

  /** Splitting and joining are inverse exactly when no two occurrences of the separator overlap. */
  lemma JoinInvertsSplit(tokens: seq<Token>, sep: seq<Token>)
    ensures Join(Segments(tokens, sep), sep) == tokens <==> !Overlapping(tokens, sep)
    ensures |Join(Segments(tokens, sep), sep)| == |tokens| <==> !Overlapping(tokens, sep)
  {
    var ms := Matches(tokens, sep, 0);
    MatchesAreMatches(tokens, sep, 0);
    ApartMeansNoOverlap(tokens, sep, 0, 0);
    OverlapsFrom(tokens, sep);
    JoinLength(tokens, sep, 0, ms);
    if Apart(|sep|, 0, ms) {
      JoinPieces(tokens, sep, 0, ms);
    }
    assert tokens[0..] == tokens;
  }

  /** A separator whose proper prefix is also its suffix. */
  ghost predicate Bordered(sep: seq<Token>) {
    exists k :: 0 < k < |sep| && sep[k..] == sep[..|sep| - k]
  }

  lemma OverlapMakesBorder(tokens: seq<Token>, sep: seq<Token>)
    ensures Overlapping(tokens, sep) ==> Bordered(sep)
  {
    if Overlapping(tokens, sep) {
      var p, q :| MatchAt(tokens, sep, p) && MatchAt(tokens, sep, q) && p < q < p + |sep|;
      var k := q - p;
      assert sep[k..] == tokens[p..p + |sep|][k..] == tokens[q..p + |sep|];
      assert sep[..|sep| - k] == tokens[q..q + |sep|][..|sep| - k] == tokens[q..p + |sep|];
    }
  }

  /** Which separators split every sequence into parts that join back: those without a border. */
  lemma AlwaysInverse(sep: seq<Token>)
    ensures (forall tokens :: Join(Segments(tokens, sep), sep) == tokens) <==> !Bordered(sep)
  {
    if Bordered(sep) {
      var k :| 0 < k < |sep| && sep[k..] == sep[..|sep| - k];
      var tokens := sep[..k] + sep;
      assert tokens[0..|sep|] == sep[..k] + sep[..|sep| - k] == sep[..k] + sep[k..] == sep;
      assert tokens[k..k + |sep|] == sep;
      assert MatchAt(tokens, sep, 0) && MatchAt(tokens, sep, k);
      JoinInvertsSplit(tokens, sep);
    } else {
      forall tokens ensures Join(Segments(tokens, sep), sep) == tokens {
        OverlapMakesBorder(tokens, sep);
        JoinInvertsSplit(tokens, sep);
      }
    }
  }

  // ----- spans -----

  /** Where part `k` starts: after the parts before it and one separator for each of them. */
  function SpanStart(parts: seq<seq<Token>>, len: nat, k: nat): nat
    requires k <= |parts|
  {
    if k == 0 then 0 else SpanStart(parts, len, k - 1) + |parts[k - 1]| + len
  }

  lemma {:induction false} SpanStartTail(parts: seq<seq<Token>>, len: nat, k: nat)
    requires 0 < k <= |parts|
    ensures SpanStart(parts, len, k) == |parts[0]| + len + SpanStart(parts[1..], len, k - 1)
  {
    if k > 1 {
      SpanStartTail(parts, len, k - 1);
    }
  }

  /** `piece` lies in `t` at position `at`. */
  ghost predicate LiesAt(t: seq<Token>, at: int, piece: seq<Token>) {
    0 <= at && at + |piece| <= |t| && t[at..at + |piece|] == piece
  }

  lemma LiesBehind(t: seq<Token>, d: nat, at: nat, piece: seq<Token>)
    requires d <= |t| && LiesAt(t[d..], at, piece)
    ensures LiesAt(t, d + at, piece)
  {
    SliceOfDrop(t, d, at, at + |piece|);
  }

  lemma JoinHead(parts: seq<seq<Token>>, sep: seq<Token>)
    requires |parts| > 1
    ensures var t, n := Join(parts, sep), |parts[0]|;
      && n + |sep| <= |t| && LiesAt(t, 0, parts[0]) && LiesAt(t, n, sep) && t[n + |sep|..] == Join(parts[1..], sep)
  {
  }

  /** Part `k` lies where its span says, with one separator after it, or the end if it is the last. */
  ghost predicate SpanHolds(parts: seq<seq<Token>>, sep: seq<Token>, k: nat)
    requires k < |parts|
  {
    var t, start := Join(parts, sep), SpanStart(parts, |sep|, k);
    var end := start + |parts[k]|;
    && LiesAt(t, start, parts[k])
    && (k + 1 < |parts| ==> LiesAt(t, end, sep))
    && (k + 1 == |parts| ==> end == |t|)
  }

  lemma FirstSpan(parts: seq<seq<Token>>, sep: seq<Token>)
    requires parts != []
    ensures SpanHolds(parts, sep, 0)
  {
    if |parts| == 1 {
      assert parts[0][0..|parts[0]|] == parts[0];
    } else {
      JoinHead(parts, sep);
    }
  }

  lemma NextSpan(parts: seq<seq<Token>>, sep: seq<Token>, k: nat)
    requires k + 1 < |parts| && SpanHolds(parts[1..], sep, k)
    ensures SpanHolds(parts, sep, k + 1)
  {
    var t, d, start := Join(parts, sep), |parts[0]| + |sep|, SpanStart(parts[1..], |sep|, k);
    SpanStartTail(parts, |sep|, k + 1);
    JoinHead(parts, sep);
    assert parts[1..][k] == parts[k + 1] && SpanStart(parts, |sep|, k + 1) == d + start;
    LiesBehind(t, d, start, parts[k + 1]);
    if k + 2 < |parts| {
      LiesBehind(t, d, start + |parts[k + 1]|, sep);
    }
  }

  /** The spans of the parts of a joined sequence hold the parts. */
  lemma {:induction false} SpansOfJoin(parts: seq<seq<Token>>, sep: seq<Token>, k: nat)
    requires k < |parts|
    ensures SpanHolds(parts, sep, k)
    decreases |parts|
  {
    if k == 0 {
      FirstSpan(parts, sep);
    } else {
      SpansOfJoin(parts[1..], sep, k - 1);
      NextSpan(parts, sep, k - 1);
    }
  }

  datatype SegmentTokenDatabase = SegmentTokenDatabase(base: TokenDatabase, sepTokens: seq<Token>)
  {
    /** Keys can always be made: the database is built from its metadata. */
    predicate Ready() { base.metadata.Some? }

    /** The pieces; with an empty separator the whole sequence comes first, and then its pieces all the same. */
    function Parts(tokens: seq<Token>): seq<seq<Token>> {
      (if sepTokens == [] then [tokens] else []) + Segments(tokens, sepTokens)
    }

    function EntryOf(parts: seq<seq<Token>>, k: nat, makeKey: bool): Entry
      requires Ready() && k < |parts|
    {
      var start := SpanStart(parts, |sepTokens|, k);
      Entry(start, start + |parts[k]|, base.MakeKey(base.HashTokens(parts[k], None), makeKey))
    }

    /** Of the first `k` parts, the entries that start at or after the masked tokens. */
    function Entries(parts: seq<seq<Token>>, k: nat, numFalses: nat, makeKey: bool): seq<Entry>
      requires Ready() && k <= |parts|
    {
      if k == 0 then []
      else
        var e := EntryOf(parts, k - 1, makeKey);
        Entries(parts, k - 1, numFalses, makeKey) + if e.start >= numFalses then [e] else []
    }

    /** The pieces, or, for tokens shorter than the separator, the tokens themselves and then the
        failure of the sliding window. */
    method FastSplit(tokens: seq<Token>) returns (r: Outcome<seq<seq<Token>>>)
      requires Ready()
      ensures r == if |tokens| < |sepTokens| then Outcome([tokens], Some(RuntimeError)) else Done(Parts(tokens))
    {
      var parts: seq<seq<Token>> := [];
      if |sepTokens| == 0 || |tokens| < |sepTokens| {
        parts := [tokens];
      }
      if |tokens| < |sepTokens| {
        return Outcome(parts, Some(RuntimeError));
      }
      var matches := Matches(tokens, sepTokens, 0);
      var start: nat, i: nat := 0, 0;
      while i < |matches|
        invariant 0 <= i <= |matches|
        invariant parts + Pieces(tokens, |sepTokens|, start, matches[i..]) == Parts(tokens)
      {
        var idx := matches[i];
        assert matches[i..][1..] == matches[i + 1..];
        Regroup(parts, [Slice(tokens, start, idx)], Pieces(tokens, |sepTokens|, idx + |sepTokens|, matches[i + 1..]));
        parts := parts + [Slice(tokens, start, idx)];
        start := idx + |sepTokens|;
        i := i + 1;
      }
      return Done(parts + [Slice(tokens, start, |tokens|)]);
    }

    /** Walks over the parts and lists those that start at or after the masked tokens. */
    method ListEntries(parts: seq<seq<Token>>, numFalses: nat, makeKey: bool) returns (entries: seq<Entry>)
      requires Ready()
      ensures entries == Entries(parts, |parts|, numFalses, makeKey)
    {
      entries := [];
      var startIdx, idx := 0, 0;
      while idx < |parts|
        invariant 0 <= idx <= |parts|
        invariant startIdx == if idx == 0 then 0 else SpanStart(parts, |sepTokens|, idx) - |sepTokens|
        invariant entries == Entries(parts, idx, numFalses, makeKey)
      {
        var endIdx := startIdx + |parts[idx]|;
        if idx > 0 {
          startIdx := startIdx + |sepTokens|;
          endIdx := endIdx + |sepTokens|;
        }
        if startIdx >= numFalses {
          entries := entries + [Entry(startIdx, endIdx, base.MakeKey(base.HashTokens(parts[idx], None), makeKey))];
        }
        startIdx := endIdx;
        idx := idx + 1;
      }
    }

    /** The entries of the pieces, in order, that start at or after the masked tokens. */
    method ProcessTokens(tokens: seq<Token>, mask: Option<seq<bool>>, makeKey: bool) returns (r: Outcome<seq<Entry>>)
      requires Ready()
      ensures var falses := if mask.Some? then CountFalse(mask.value) else 0;
        r == if falses >= |tokens| then Outcome([], Some(AssertionError))
             else if |tokens| < |sepTokens| then Outcome(Entries([tokens], 1, falses, makeKey), Some(RuntimeError))
             else Done(Entries(Parts(tokens), |Parts(tokens)|, falses, makeKey))
    {
      var numFalses := if mask.Some? then CountFalse(mask.value) else 0;
      if numFalses >= |tokens| {
        return Outcome([], Some(AssertionError));
      }
      var split := FastSplit(tokens);
      var entries := ListEntries(split.result, numFalses, makeKey);
      return Outcome(entries, split.failure);
    }

    /** Every entry of a sequence without overlapping separators names the tokens that were hashed,
        neighbours are exactly one separator apart, and the last span ends with the sequence. With
        overlapping separators the last span ends past the end of the sequence. */
    lemma EntryMeaning(tokens: seq<Token>, k: nat, makeKey: bool)
      requires Ready() && sepTokens != [] && k < |Parts(tokens)|
      ensures var parts := Parts(tokens);
        var e := EntryOf(parts, k, makeKey);
        && (!Overlapping(tokens, sepTokens) ==>
            && e.end == e.start + |parts[k]| && LiesAt(tokens, e.start, parts[k])
            && (k + 1 < |parts| ==>
                e.end + |sepTokens| == EntryOf(parts, k + 1, makeKey).start && LiesAt(tokens, e.end, sepTokens)))
        && (k + 1 == |parts| ==> (e.end == |tokens| <==> !Overlapping(tokens, sepTokens)))
    {
      assert Parts(tokens) == Segments(tokens, sepTokens);
      JoinInvertsSplit(tokens, sepTokens);
      SpansOfJoin(Parts(tokens), sepTokens, k);
    }

    /** With an empty separator the first span is the whole sequence, the pieces lie one sequence too far,
        and the last span ends at twice the length. */
    lemma EmptySeparator(tokens: seq<Token>, k: nat, makeKey: bool)
      requires Ready() && sepTokens == [] && k < |Parts(tokens)|
      ensures var parts := Parts(tokens);
        var e := EntryOf(parts, k, makeKey);
        && e.end == e.start + |parts[k]|
        && (k == 0 ==> parts[k] == tokens && e.start == 0)
        && (k > 0 ==> LiesAt(tokens, e.start - |tokens|, parts[k]))
        && (k + 1 == |parts| ==> k > 0 && e.end == 2 * |tokens|)
    {
      var parts, segments := Parts(tokens), Segments(tokens, sepTokens);
      assert parts[1..] == segments && segments != [];
      JoinInvertsSplit(tokens, sepTokens);
      if k > 0 {
        SpanStartTail(parts, 0, k);
        SpansOfJoin(segments, sepTokens, k - 1);
      }
    }

    lemma {:induction false} UnmaskedAt(parts: seq<seq<Token>>, k: nat, j: nat, makeKey: bool)
      requires Ready() && j < k <= |parts|
      ensures |Entries(parts, k, 0, makeKey)| == k
      ensures Entries(parts, k, 0, makeKey)[j] == EntryOf(parts, j, makeKey)
    {
      if k > 1 {
        UnmaskedAt(parts, k - 1, if j < k - 1 then j else k - 2, makeKey);
      }
    }

    /** A part's key is made of the hash of its tokens alone, and two parts have the same key exactly when
        these hashes agree. */
    lemma EntryKeys(parts: seq<seq<Token>>, i: nat, j: nat, makeKey: bool)
      requires Ready() && i < |parts| && j < |parts|
      ensures EntryOf(parts, i, false).key == Hash(Normalize(base.hashFunc(None, parts[i])))
      ensures EntryOf(parts, i, makeKey).key == EntryOf(parts, j, makeKey).key <==>
        Normalize(base.hashFunc(None, parts[i])) == Normalize(base.hashFunc(None, parts[j]))
    {
      MadeKeys(base, base.HashTokens(parts[i], None), base.HashTokens(parts[j], None), makeKey);
    }

    /** The masked entries are a prefix: what is left is a suffix of all entries, the one from the
        first part on that starts at or after the masked tokens. */
    lemma {:induction false} MaskDropsPrefix(parts: seq<seq<Token>>, k: nat, numFalses: nat, makeKey: bool) returns (skip: nat)
      requires Ready() && k <= |parts|
      ensures skip <= |Entries(parts, k, 0, makeKey)| == k
      ensures Entries(parts, k, numFalses, makeKey) == Entries(parts, k, 0, makeKey)[skip..]
      ensures skip > 0 ==> SpanStart(parts, |sepTokens|, skip - 1) < numFalses
      ensures skip < k ==> SpanStart(parts, |sepTokens|, k - 1) >= numFalses && SpanStart(parts, |sepTokens|, skip) >= numFalses
    {
      skip := 0;
      if k > 0 {
        skip := MaskDropsPrefix(parts, k - 1, numFalses, makeKey);
        var all, e := Entries(parts, k - 1, 0, makeKey), EntryOf(parts, k - 1, makeKey);
        if e.start < numFalses {
          skip := k;
        } else {
          assert (all + [e])[skip..] == all[skip..] + [e];
        }
      }
    }
  }
}
