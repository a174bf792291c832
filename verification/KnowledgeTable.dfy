/** The scheduler's knowledge table: insertion, deletion, index building and search. The exact
    inner-product index is a parameter of the search: whatever exact answer it gives, the result
    agrees with the scan. */
module KnowledgeTable {
  import opened Basics
  import opened Outcomes
  import opened TextDb
  import opened KnowledgeIds
  import opened KnowledgeIndex

  /** A vector in the index, under its number. */
  datatype Entry = Entry(id: int, vector: Vector)

  /** The index answers exactly: `at` are the positions of the best entries, best first; the answer has
      their scores and numbers, and is padded with the number -1. */
  ghost predicate ExactAnswer(entries: seq<Entry>, score: Vector -> real, k: nat, answer: seq<(real, int)>, at: seq<nat>) {
    && |answer| == k && |at| == Min(k, |entries|) && Points(entries, answer, at)
    && (forall i :: 0 <= i < |at| ==> answer[i].0 == score(entries[at[i]].vector))
    && (forall i, j :: 0 <= i < j < |at| ==> at[i] != at[j] && answer[i].0 >= answer[j].0)
    && (forall p, i :: 0 <= p < |entries| && p !in at && 0 <= i < |at| ==> score(entries[p].vector) <= answer[i].0)
  }

  /** The numbers of an answer. */
  ghost predicate Points(entries: seq<Entry>, answer: seq<(real, int)>, at: seq<nat>) {
    && |at| <= |answer|
    && (forall i :: 0 <= i < |at| ==> at[i] < |entries| && answer[i].1 == entries[at[i]].id)
    && (forall i :: |at| <= i < |answer| ==> answer[i].1 == -1)
  }

  class KnowledgeTable {
    const dim: nat
    const product: (Vector, Vector) -> real
    var units: Units
    var kidToI64: map<string, int>
    var i64ToKid: map<int, string>
    var index: Option<seq<Entry>>
    ghost var indexed: seq<string>

    ghost function State(): Ids
      reads this
    {
      Ids(kidToI64, i64ToKid)
    }

    /** Every unit's number leads back to its id. */
    ghost predicate Linked()
      reads this
    {
      State().MapsBack() && units.Keys == kidToI64.Keys
    }

    ghost predicate Valid()
      reads this
    {
      Linked() && AllClean(units.Keys) && forall kid :: kid in units ==> |units[kid].embedding| == dim
    }

    /** The index is that of the current units: entry `i` is the vector of unit `indexed[i]`. */
    ghost predicate Current()
      reads this
    {
      index.Some? ==> IndexOf(index.value, indexed, units, kidToI64)
    }

    constructor (dim: nat, product: (Vector, Vector) -> real)
      ensures Valid() && Current() && units == map[] && index == None
      ensures this.dim == dim && this.product == product
    {
      this.dim, this.product := dim, product;
      units, kidToI64, i64ToKid, index, indexed := map[], map[], map[], None, [];
    }

    /** Gives an id its number, the second one when another id has the first. */
    method RegisterKid(kid: string) returns (r: Outcome<int>)
      modifies this`kidToI64, this`i64ToKid
      ensures r == old(State()).Choose(CleanKid(kid)) && State() == old(State()).Register(CleanKid(kid))
    {
      var k := CleanKid(kid);
      var head := Head(k);
      if head.None? {
        return Outcome(0, Some(ValueError));
      }
      var i64 := head.value;
      if i64 in i64ToKid && i64ToKid[i64] != k {
        var tail := Tail(k);
        if tail.None? {
          return Outcome(0, Some(ValueError));
        }
        i64 := tail.value;
        if i64 in i64ToKid && i64ToKid[i64] != k {
          return Outcome(0, Some(RuntimeError));
        }
      }
      kidToI64 := kidToI64[k := i64];
      i64ToKid := i64ToKid[i64 := k];
      return Done(i64);
    }

    method UpsertKid(kid: string, unit: KnowledgeUnit) returns (failure: Option<Failure>)
      requires Valid()
      modifies this
      ensures Valid()
      ensures var k := CleanKid(kid);
        failure == (if k == "" || |unit.embedding| != dim then Some(ValueError) else old(State()).Choose(k).failure)
      ensures index == old(index) && indexed == old(indexed)
      ensures failure.Some? ==> units == old(units) && State() == old(State())
      ensures failure.None? ==>
        units == old(units)[CleanKid(kid) := unit] && State() == old(State()).Register(CleanKid(kid))
    {
      var k := CleanKid(kid);
      if k == "" || |unit.embedding| != dim {
        return Some(ValueError);
      }
      CleanKidIsIdempotent(kid);
      assert IsClean(k);
      RegisterKeeps(State(), k);
      var r := RegisterKid(k);
      if r.failure.Some? {
        return r.failure;
      }
      units := units[k := unit];
      return None;
    }

    method DeleteKid(kid: string)
      requires Valid()
      modifies this
      ensures Valid() && index == old(index) && indexed == old(indexed)
      ensures units == old(units) - {CleanKid(kid)} && State() == old(State()).Drop(CleanKid(kid))
      ensures SameNumbers(units.Keys, old(kidToI64), kidToI64)
    {
      var k := CleanKid(kid);
      if k !in units {
        return;
      }
      DropKeeps(State(), k);
      var i64 := kidToI64[k];
      kidToI64 := kidToI64 - {k};
      i64ToKid := i64ToKid - {i64};
      units := units - {k};
    }

    method DeleteKids(kids: seq<string>)
      requires Valid()
      modifies this
      ensures Valid() && units == old(units) - Cleaned(kids, |kids|)
      ensures index == old(index) && indexed == old(indexed)
      ensures SameNumbers(units.Keys, old(kidToI64), kidToI64)
    {
      var i := 0;
      RemoveNone(units, kidToI64, kids);
      while i < |kids|
        invariant 0 <= i <= |kids| && Valid()
        invariant Removed(old(units), old(kidToI64), units, kidToI64, kids, i)
        invariant index == old(index) && indexed == old(indexed)
      {
        ghost var before, numbers := units, kidToI64;
        DeleteKid(kids[i]);
        RemoveMore(old(units), old(kidToI64), before, numbers, units, kidToI64, kids, i);
        i := i + 1;
      }
    }

    /** The number of a stored id. A number that is zero is asked for again, which cannot fail. */
    method NumberOf(kid: string) returns (id: int)
      requires Linked() && kid in units && IsClean(kid)
      modifies this`kidToI64, this`i64ToKid
      ensures Linked() && kid in kidToI64 && id == kidToI64[kid]
      ensures forall k :: k in units && k != kid ==> kidToI64[k] == old(kidToI64)[k]
    {
      id := kidToI64[kid];
      if id == 0 {
        RegisterAgain(State(), kid);
        RegisterKeeps(State(), kid);
        var r := RegisterKid(kid);
        id := r.result;
      }
    }

    /** Rebuilds the index from all current units. */
    method BuildIndex(available: bool)
      requires Valid()
      modifies this`index, this`indexed, this`kidToI64, this`i64ToKid
      ensures Valid() && Current()
      ensures index == None <==> !available || units == map[]
    {
      if !available || units == map[] {
        index := None;
        return;
      }
      var kids := ListKeys(units.Keys);
      var entries: seq<Entry> := [];
      while |entries| < |kids|
        invariant Linked() && FirstEntries(entries, kids, units, kidToI64)
      {
        var kid := kids[|entries|];
        assert kid in units.Keys && IsClean(kid);
        ghost var before := kidToI64;
        var id := NumberOf(kid);
        EntriesKept(entries, kids, units, before, kidToI64, Entry(id, units[kid].embedding));
        entries := entries + [Entry(id, units[kid].embedding)];
      }
      index, indexed := Some(entries), kids;
    }

    function ScoreOf(query: Vector): Vector -> real { v => product(query, v) }

    /** The units under the numbers of an answer; padding and numbers without a unit are skipped. */
    method Resolve(answer: seq<(real, int)>) returns (hits: seq<Hit>)
      ensures hits == Resolved(answer, |answer|, i64ToKid, units)
    {
      hits := [];
      var i := 0;
      while i < |answer|
        invariant 0 <= i <= |answer| && hits == Resolved(answer, i, i64ToKid, units)
      {
        var (score, i64) := answer[i];
        i := i + 1;
        if i64 < 0 {
          continue;
        }
        if i64 !in i64ToKid || i64ToKid[i64] == "" {
          continue;
        }
        var kid := i64ToKid[i64];
        if kid !in units {
          continue;
        }
        hits := hits + [Hit(kid, units[kid], score)];
      }
    }

    /** Scores every unit and sorts. */
    method Scan(query: Vector) returns (hits: seq<Hit>)
      ensures Covers(hits, units, ScoreOf(query)) && Descending(hits)
    {
      var kids := ListKeys(units.Keys);
      var all: seq<Hit> := [];
      while |all| < |kids|
        invariant |all| <= |kids|
        invariant forall j :: 0 <= j < |all| ==> HitFor(all[j], kids[j], units, ScoreOf(query))
      {
        var kid := kids[|all|];
        assert kid in units.Keys;
        all := all + [Hit(kid, units[kid], ScoreOf(query)(units[kid].embedding))];
      }
      ListCovers(all, kids, units, ScoreOf(query));
      SortHitsSorts(all);
      SameHitsCover(all, SortHits(all), units, ScoreOf(query));
      hits := SortHits(all);
    }

    /** The hits for a query. Right after a build, or without an index, they are an exact ranking of all
        units, filtered; `answer` is what the index replies, and must be exact. */
    method SearchByEmbedding(query: Vector, topK: nat, minScore: real, minRatio: real,
                             answer: seq<(real, int)>, ghost at: seq<nat>)
      returns (r: Outcome<seq<Hit>>, ghost ranked: seq<Hit>)
      requires Valid()
      requires index.Some? ==> |answer| == topK && ExactAnswer(index.value, ScoreOf(query), topK, answer, at)
      ensures r.failure == if |query| != dim then Some(ValueError) else None
      ensures forall i :: 0 <= i < |r.result| ==> r.result[i].kid in units && r.result[i].unit == units[r.result[i].kid]
      ensures |query| == dim && units == map[] ==> r.result == []
      ensures |query| == dim && units != map[] && index.Some? ==>
        r.result == Filtered(Resolved(answer, |answer|, i64ToKid, units), minScore, minRatio)
      ensures |query| == dim && units != map[] && Current() ==>
        && Ranking(ranked, units, ScoreOf(query), topK)
        && r.result == Filtered(ranked, minScore, minRatio) && r.result <= ranked
        && (forall i :: 0 <= i < |ranked| ==> ranked[i].score == product(query, ranked[i].unit.embedding))
        && (forall i :: 0 <= i < |ranked| ==> (i < |r.result| <==> Keeps(ranked[i].score, ranked[0].score, minScore, minRatio)))
    {
      ranked := [];
      if |query| != dim {
        return Outcome([], Some(ValueError)), [];
      }
      if units == map[] {
        return Done([]), [];
      }
      var hits;
      if index.Some? {
        hits := Resolve(answer);
        if Current() {
          ResolvedAnswers(answer, |answer|, at, index.value, indexed, units, State());
          AnswerIsRanking(hits, answer, at, index.value, indexed, units, kidToI64, ScoreOf(query));
        }
        ResolvedUnits(answer, |answer|, i64ToKid, units);
      } else {
        hits := Scan(query);
        TopIsRanking(hits, units, ScoreOf(query), topK);
        hits := Top(hits, topK);
      }
      ranked := hits;
      FilteredMembers(hits, minScore, minRatio);
      if Current() {
        FirstPass(hits, minScore, minRatio);
      }
      var kept := FilterHits(hits, minScore, minRatio);
      return Done(kept), ranked;
    }
  }

  /** The ids have the numbers they had before. */
  ghost predicate SameNumbers(kids: set<string>, before: map<string, int>, now: map<string, int>) {
    forall kid :: kid in kids ==> kid in before && kid in now && now[kid] == before[kid]
  }

  /** Units and numbers after the first `k` ids have been removed. */
  ghost predicate Removed(units: Units, numbers: map<string, int>, now: Units, nowNumbers: map<string, int>,
                          kids: seq<string>, k: nat)
    requires k <= |kids|
  {
    now == units - Cleaned(kids, k) && SameNumbers(now.Keys, numbers, nowNumbers)
  }

  lemma RemoveNone(units: Units, numbers: map<string, int>, kids: seq<string>)
    requires units.Keys <= numbers.Keys
    ensures Removed(units, numbers, units, numbers, kids, 0)
  {
    assert units - Cleaned(kids, 0) == units;
  }

  lemma RemoveMore(units: Units, numbers: map<string, int>, before: Units, beforeNumbers: map<string, int>,
                   now: Units, nowNumbers: map<string, int>, kids: seq<string>, k: nat)
    requires k < |kids| && Removed(units, numbers, before, beforeNumbers, kids, k)
    requires now == before - {CleanKid(kids[k])} && SameNumbers(now.Keys, beforeNumbers, nowNumbers)
    ensures Removed(units, numbers, now, nowNumbers, kids, k + 1)
  {
  }

  /** The first `k` ids as they are stored. */
  function Cleaned(kids: seq<string>, k: nat): (r: set<string>)
    requires k <= |kids|
    ensures forall kid :: kid in r <==> exists i :: 0 <= i < k && CleanKid(kids[i]) == kid
  {
    if k == 0 then {} else Cleaned(kids, k - 1) + {CleanKid(kids[k - 1])}
  }

  /** Hit `i` is the unit of the `i`th best entry. */
  ghost predicate Answers(hits: seq<Hit>, answer: seq<(real, int)>, at: seq<nat>, kids: seq<string>, units: Units, n: nat) {
    |hits| == n <= |answer| && n <= |at| && forall i :: 0 <= i < n ==>
      && at[i] < |kids| && kids[at[i]] in units
      && hits[i] == Hit(kids[at[i]], units[kids[at[i]]], answer[i].0)
  }

  /** The hits for the first `k` parts of an answer. */
  function Resolved(answer: seq<(real, int)>, k: nat, i64ToKid: map<int, string>, units: Units): seq<Hit>
    requires k <= |answer|
  {
    if k == 0 then []
    else
      var (score, i64) := answer[k - 1];
      Resolved(answer, k - 1, i64ToKid, units) +
      if 0 <= i64 && i64 in i64ToKid && i64ToKid[i64] != "" && i64ToKid[i64] in units
      then [Hit(i64ToKid[i64], units[i64ToKid[i64]], score)] else []
  }

  lemma {:induction false} ResolvedUnits(answer: seq<(real, int)>, k: nat, i64ToKid: map<int, string>, units: Units)
    requires k <= |answer|
    ensures forall h :: h in Resolved(answer, k, i64ToKid, units) ==> h.kid in units && h.unit == units[h.kid]
  {
    if k > 0 { ResolvedUnits(answer, k - 1, i64ToKid, units); }
  }

  /** Each best entry of a current index resolves to its unit, and the padding to nothing. */
  lemma {:induction false} ResolvedAnswers(answer: seq<(real, int)>, k: nat, at: seq<nat>, entries: seq<Entry>,
                                           kids: seq<string>, units: Units, ids: Ids)
    requires k <= |answer| && ids.MapsBack() && Points(entries, answer, at)
    requires |entries| == |kids| && forall i :: 0 <= i < |kids| ==> EntryFor(entries[i], kids[i], units, ids.kidToI64)
    ensures Answers(Resolved(answer, k, ids.i64ToKid, units), answer, at, kids, units, Min(k, |at|))
  {
    if k > 0 {
      ResolvedAnswers(answer, k - 1, at, entries, kids, units, ids);
      if k - 1 < |at| {
        ResolvesTo(answer[k - 1], entries[at[k - 1]], kids[at[k - 1]], units, ids);
      }
    }
  }

  /** The number of an entry resolves to its unit. */
  lemma ResolvesTo(pair: (real, int), entry: Entry, kid: string, units: Units, ids: Ids)
    requires ids.MapsBack() && EntryFor(entry, kid, units, ids.kidToI64) && pair.1 == entry.id
    ensures 0 <= pair.1 && pair.1 in ids.i64ToKid && ids.i64ToKid[pair.1] == kid && kid != "" && kid in units
  {
    assert ids.Back(kid) && Head("") == None;
  }

  lemma PositionsAreHits(hits: seq<Hit>, answer: seq<(real, int)>, at: seq<nat>, kids: seq<string>, units: Units, p: nat)
    requires Answers(hits, answer, at, kids, units, |at|) && p < |kids|
    ensures p in at ==> kids[p] in KidsOf(hits, |hits|)
  {
    KidsOfMembers(hits, |hits|, kids[p]);
    if p in at {
      var j :| 0 <= j < |at| && at[j] == p;
      assert hits[j].kid == kids[p];
    }
  }

  lemma AnswerOrder(hits: seq<Hit>, answer: seq<(real, int)>, at: seq<nat>, entries: seq<Entry>, kids: seq<string>,
                    units: Units, score: Vector -> real)
    requires Enumerates(kids, units.Keys) && |entries| == |kids| && ExactAnswer(entries, score, |answer|, answer, at)
    requires Answers(hits, answer, at, kids, units, |at|)
    ensures DistinctKids(hits) && Descending(hits)
  {
    forall i, j | 0 <= i < j < |hits| ensures hits[i].kid != hits[j].kid && hits[i].score >= hits[j].score {
      assert at[i] != at[j];
    }
  }

  lemma AnswerScores(hits: seq<Hit>, answer: seq<(real, int)>, at: seq<nat>, entries: seq<Entry>, kids: seq<string>,
                     units: Units, kidToI64: map<string, int>, score: Vector -> real)
    requires IndexOf(entries, kids, units, kidToI64) && ExactAnswer(entries, score, |answer|, answer, at)
    requires Answers(hits, answer, at, kids, units, |at|)
    ensures forall i :: 0 <= i < |hits| ==>
      hits[i].kid in units && hits[i].unit == units[hits[i].kid] && hits[i].score == score(units[hits[i].kid].embedding)
  {
    forall i | 0 <= i < |hits|
      ensures hits[i].kid in units && hits[i].unit == units[hits[i].kid]
      ensures hits[i].score == score(units[hits[i].kid].embedding)
    {
      assert EntryFor(entries[at[i]], kids[at[i]], units, kidToI64);
    }
  }

  lemma AnswerIsBest(hits: seq<Hit>, answer: seq<(real, int)>, at: seq<nat>, entries: seq<Entry>, kids: seq<string>,
                     units: Units, kidToI64: map<string, int>, score: Vector -> real, kid: string, i: nat)
    requires IndexOf(entries, kids, units, kidToI64) && ExactAnswer(entries, score, |answer|, answer, at)
    requires Answers(hits, answer, at, kids, units, |at|)
    requires kid in units && kid !in KidsOf(hits, |hits|) && i < |hits|
    ensures score(units[kid].embedding) <= hits[i].score
  {
    KidsOfMembers(hits, |hits|, kid);
    var p :| 0 <= p < |kids| && kids[p] == kid;
    PositionsAreHits(hits, answer, at, kids, units, p);
    assert EntryFor(entries[p], kids[p], units, kidToI64);
  }

  lemma AnswerIsRanking(hits: seq<Hit>, answer: seq<(real, int)>, at: seq<nat>, entries: seq<Entry>, kids: seq<string>,
                        units: Units, kidToI64: map<string, int>, score: Vector -> real)
    requires IndexOf(entries, kids, units, kidToI64) && ExactAnswer(entries, score, |answer|, answer, at)
    requires Answers(hits, answer, at, kids, units, |at|)
    ensures Ranking(hits, units, score, |answer|)
  {
    assert |units| == |units.Keys|;
    AnswerOrder(hits, answer, at, entries, kids, units, score);
    AnswerScores(hits, answer, at, entries, kids, units, kidToI64, score);
    forall kid, i | kid in units && kid !in KidsOf(hits, |hits|) && 0 <= i < |hits|
      ensures score(units[kid].embedding) <= hits[i].score
    {
      AnswerIsBest(hits, answer, at, entries, kids, units, kidToI64, score, kid, i);
    }
  }

  lemma ListCovers(all: seq<Hit>, kids: seq<string>, units: Units, score: Vector -> real)
    requires Enumerates(kids, units.Keys) && |all| == |kids|
    requires forall j :: 0 <= j < |all| ==> HitFor(all[j], kids[j], units, score)
    ensures Covers(all, units, score)
  {
    assert |units| == |units.Keys|;
    forall kid | kid in units ensures kid in KidsOf(all, |all|) {
      KidsOfMembers(all, |all|, kid);
      var p :| 0 <= p < |kids| && kids[p] == kid;
      assert all[p].kid == kid;
    }
  }

  lemma {:induction false} KeptMembers(hits: seq<Hit>, k: nat, best: real, minScore: real, minRatio: real)
    requires k <= |hits|
    ensures forall h :: h in Kept(hits, k, best, minScore, minRatio) ==> h in hits
  {
    if k > 0 { KeptMembers(hits, k - 1, best, minScore, minRatio); }
  }

  lemma FilteredMembers(hits: seq<Hit>, minScore: real, minRatio: real)
    ensures forall i :: 0 <= i < |Filtered(hits, minScore, minRatio)| ==> Filtered(hits, minScore, minRatio)[i] in hits
  {
    if hits != [] {
      KeptMembers(hits, |hits|, hits[0].score, minScore, minRatio);
    }
  }

  /** Entry `i` holds the number and the vector of unit `kids[i]`; every unit has one entry. */
  ghost predicate IndexOf(entries: seq<Entry>, kids: seq<string>, units: Units, kidToI64: map<string, int>) {
    && Enumerates(kids, units.Keys) && units.Keys == kidToI64.Keys && |entries| == |kids|
    && forall i :: 0 <= i < |kids| ==> EntryFor(entries[i], kids[i], units, kidToI64)
  }

  /** The entries of the first ids. */
  ghost predicate FirstEntries(entries: seq<Entry>, kids: seq<string>, units: Units, kidToI64: map<string, int>) {
    |entries| <= |kids| && forall j :: 0 <= j < |entries| ==> EntryFor(entries[j], kids[j], units, kidToI64)
  }

  lemma EntriesKept(entries: seq<Entry>, kids: seq<string>, units: Units, before: map<string, int>, after: map<string, int>,
                    entry: Entry)
    requires |entries| < |kids| && FirstEntries(entries, kids, units, before)
    requires forall i, j :: 0 <= i < j < |kids| ==> kids[i] != kids[j]
    requires after.Keys == before.Keys && forall k :: k in units && k in before && k != kids[|entries|] ==> after[k] == before[k]
    requires EntryFor(entry, kids[|entries|], units, after)
    ensures FirstEntries(entries + [entry], kids, units, after)
  {
    forall j | 0 <= j < |entries| ensures EntryFor(entries[j], kids[j], units, after) {
      assert EntryFor(entries[j], kids[j], units, before);
    }
  }

  ghost predicate EntryFor(entry: Entry, kid: string, units: Units, kidToI64: map<string, int>) {
    kid in units && kid in kidToI64 && entry == Entry(kidToI64[kid], units[kid].embedding)
  }

  ghost predicate HitFor(hit: Hit, kid: string, units: Units, score: Vector -> real) {
    kid in units && hit == Hit(kid, units[kid], score(units[kid].embedding))
  }

  ghost predicate IsClean(kid: string) { CleanKid(kid) == kid }

  ghost predicate AllClean(kids: set<string>) { forall kid {:trigger IsClean(kid)} :: kid in kids ==> IsClean(kid) }

  ghost predicate Enumerates(kids: seq<string>, s: set<string>) {
    && |kids| == |s| && (forall kid :: kid in s <==> kid in kids)
    && forall i, j :: 0 <= i < j < |kids| ==> kids[i] != kids[j]
  }

  lemma EnumeratesMore(kids: seq<string>, s: set<string>, kid: string)
    requires Enumerates(kids, s) && kid !in s
    ensures Enumerates(kids + [kid], s + {kid})
  {
  }

  /** The keys of a dictionary in some order. */
  method ListKeys(s: set<string>) returns (kids: seq<string>)
    ensures Enumerates(kids, s)
  {
    kids := [];
    var rest := s;
    while rest != {}
      invariant rest <= s && Enumerates(kids, s - rest)
      decreases rest
    {
      var kid :| kid in rest;
      EnumeratesMore(kids, s - rest, kid);
      assert s - (rest - {kid}) == (s - rest) + {kid};
      kids := kids + [kid];
      rest := rest - {kid};
    }
    assert s - rest == s;
  }
}
