/** The knowledge table: units under their ids, a vector index built from them, and a search that must
    agree with scanning all units. */
module KnowledgeIndex {
  import opened Basics

  type Vector = seq<real>

  datatype KnowledgeUnit = KnowledgeUnit(embedding: Vector, length: int)

  type Units = map<string, KnowledgeUnit>

  /** A unit found by a search. */
  datatype Hit = Hit(kid: string, unit: KnowledgeUnit, score: real)

  function Scores(hits: seq<Hit>): seq<real> { seq(|hits|, i requires 0 <= i < |hits| => hits[i].score) }

  ghost predicate Descending(hits: seq<Hit>) {
    forall i, j :: 0 <= i < j < |hits| ==> hits[i].score >= hits[j].score
  }

  // ----- filtering -----

  predicate Keeps(score: real, best: real, minScore: real, minRatio: real) {
    score >= minScore && !(best > 0.0 && score < best * minRatio)
  }

  /** Those of the first `k` hits that pass, in order. */
  function Kept(hits: seq<Hit>, k: nat, best: real, minScore: real, minRatio: real): seq<Hit>
    requires k <= |hits|
  {
    if k == 0 then []
    else if Keeps(hits[k - 1].score, best, minScore, minRatio) then Kept(hits, k - 1, best, minScore, minRatio) + [hits[k - 1]]
    else Kept(hits, k - 1, best, minScore, minRatio)
  }

  function Filtered(hits: seq<Hit>, minScore: real, minRatio: real): seq<Hit> {
    if hits == [] then [] else Kept(hits, |hits|, hits[0].score, minScore, minRatio)
  }

  lemma {:induction false} KeptCounts(hits: seq<Hit>, k: nat, best: real, minScore: real, minRatio: real, h: Hit)
    requires k <= |hits|
    ensures multiset(Kept(hits, k, best, minScore, minRatio))[h] ==
      if Keeps(h.score, best, minScore, minRatio) then multiset(hits[..k])[h] else 0
  {
    if k > 0 {
      KeptCounts(hits, k - 1, best, minScore, minRatio, h);
      CountSnoc(hits[..k - 1], hits[k - 1], h);
      CountSnoc(Kept(hits, k - 1, best, minScore, minRatio), hits[k - 1], h);
      assert hits[..k] == hits[..k - 1] + [hits[k - 1]];
    }
  }

  lemma CountSnoc(hits: seq<Hit>, hit: Hit, h: Hit)
    ensures multiset(hits + [hit])[h] == multiset(hits)[h] + if h == hit then 1 else 0
  {
  }

  /** What it means to pass: the score reaches the least score and, when the best one is positive, the given
      ratio of that. */
  lemma KeepsMeaning(score: real, best: real, minScore: real, minRatio: real)
    ensures Keeps(score, best, minScore, minRatio) <==> score >= minScore && (best > 0.0 ==> score >= best * minRatio)
  {
  }

  /** The filter keeps exactly the hits, each as often as it occurs, that reach the least score and, when the
      first hit's score is positive, the given ratio of that. */
  lemma FilteredCounts(hits: seq<Hit>, minScore: real, minRatio: real, h: Hit)
    ensures multiset(Filtered(hits, minScore, minRatio))[h] ==
      if hits != [] && h.score >= minScore && (hits[0].score > 0.0 ==> h.score >= hits[0].score * minRatio)
      then multiset(hits)[h] else 0
  {
    if hits != [] {
      KeptCounts(hits, |hits|, hits[0].score, minScore, minRatio, h);
      KeepsMeaning(h.score, hits[0].score, minScore, minRatio);
      assert hits[..|hits|] == hits;
    }
  }

  method FilterHits(hits: seq<Hit>, minScore: real, minRatio: real) returns (kept: seq<Hit>)
    ensures kept == Filtered(hits, minScore, minRatio)
  {
    kept := [];
    if hits == [] {
      return;
    }
    var best := hits[0].score;
    var i := 0;
    while i < |hits|
      invariant 0 <= i <= |hits| && kept == Kept(hits, i, best, minScore, minRatio)
    {
      var score := hits[i].score;
      i := i + 1;
      if score < minScore {
        continue;
      }
      if best > 0.0 && score < best * minRatio {
        continue;
      }
      kept := kept + [hits[i - 1]];
    }
  }

  /** Of a descending list, the filter keeps a prefix: the first `n` hits, which all pass, and no other. */
  lemma {:induction false} KeptIsPrefix(hits: seq<Hit>, k: nat, best: real, minScore: real, minRatio: real) returns (n: nat)
    requires k <= |hits| && Descending(hits)
    ensures n <= k && Kept(hits, k, best, minScore, minRatio) == hits[..n]
    ensures forall i :: 0 <= i < k ==> (Keeps(hits[i].score, best, minScore, minRatio) <==> i < n)
  {
    if k == 0 {
      n := 0;
    } else {
      n := KeptIsPrefix(hits, k - 1, best, minScore, minRatio);
      if Keeps(hits[k - 1].score, best, minScore, minRatio) {
        if n < k - 1 {
          assert Keeps(hits[n].score, best, minScore, minRatio);
        }
        assert hits[..k] == hits[..k - 1] + [hits[k - 1]];
        n := k;
      }
    }
  }

  function Top(hits: seq<Hit>, k: nat): seq<Hit> { if k <= |hits| then hits[..k] else hits }

  lemma FirstPass(hits: seq<Hit>, minScore: real, minRatio: real)
    requires Descending(hits)
    ensures var kept := Filtered(hits, minScore, minRatio);
      && kept <= hits
      && forall i :: 0 <= i < |hits| ==> (i < |kept| <==> Keeps(hits[i].score, hits[0].score, minScore, minRatio))
  {
    if hits != [] {
      var n := KeptIsPrefix(hits, |hits|, hits[0].score, minScore, minRatio);
    }
  }

  /** Of a ranking the filter returns the first hits, all of which reach both thresholds, and drops the others,
      all of which fail one of them. */
  lemma FilteredIsPrefix(hits: seq<Hit>, minScore: real, minRatio: real)
    requires Descending(hits)
    ensures var kept := Filtered(hits, minScore, minRatio);
      && kept <= hits
      && (forall i :: 0 <= i < |kept| ==>
            hits[i].score >= minScore && (hits[0].score > 0.0 ==> hits[i].score >= hits[0].score * minRatio))
      && (forall i :: |kept| <= i < |hits| ==>
            hits[i].score < minScore || (hits[0].score > 0.0 && hits[i].score < hits[0].score * minRatio))
  {
    if hits != [] {
      FirstPass(hits, minScore, minRatio);
      forall i | 0 <= i < |hits|
        ensures Keeps(hits[i].score, hits[0].score, minScore, minRatio) <==>
          hits[i].score >= minScore && (hits[0].score > 0.0 ==> hits[i].score >= hits[0].score * minRatio)
      {
        KeepsMeaning(hits[i].score, hits[0].score, minScore, minRatio);
      }
    }
  }

  /** Filtering the first `k` of a ranking is taking the first `k` of the filtered ranking. */
  lemma TopCommutesWithFilter(hits: seq<Hit>, k: nat, minScore: real, minRatio: real)
    requires Descending(hits)
    ensures Filtered(Top(hits, k), minScore, minRatio) == Top(Filtered(hits, minScore, minRatio), k)
  {
    if hits != [] && k > 0 {
      var best, top := hits[0].score, Top(hits, k);
      var n := KeptIsPrefix(hits, |hits|, best, minScore, minRatio);
      var m := KeptIsPrefix(top, |top|, best, minScore, minRatio);
      var j := Min(m, n);
      assert j < |top| ==> top[j] == hits[j];
      assert m == Min(n, |top|);
      assert top[..m] == hits[..m];
    }
  }

  /** The filter looks at nothing but scores. */
  lemma {:induction false} KeptScores(a: seq<Hit>, b: seq<Hit>, k: nat, best: real, minScore: real, minRatio: real)
    requires |a| == |b| && k <= |a| && forall i :: 0 <= i < |a| ==> a[i].score == b[i].score
    ensures Scores(Kept(a, k, best, minScore, minRatio)) == Scores(Kept(b, k, best, minScore, minRatio))
  {
    if k > 0 {
      KeptScores(a, b, k - 1, best, minScore, minRatio);
      ScoresSnoc(Kept(a, k - 1, best, minScore, minRatio), a[k - 1]);
      ScoresSnoc(Kept(b, k - 1, best, minScore, minRatio), b[k - 1]);
    }
  }

  lemma ScoresSnoc(hits: seq<Hit>, hit: Hit)
    ensures Scores(hits + [hit]) == Scores(hits) + [hit.score] && hits + [] == hits
  {
  }

  // ----- exact rankings -----

  function KidsOf(hits: seq<Hit>, k: nat): set<string>
    requires k <= |hits|
  {
    if k == 0 then {} else KidsOf(hits, k - 1) + {hits[k - 1].kid}
  }

  lemma {:induction false} KidsOfMembers(hits: seq<Hit>, k: nat, kid: string)
    requires k <= |hits|
    ensures kid in KidsOf(hits, k) <==> exists i :: 0 <= i < k && hits[i].kid == kid
  {
    if k > 0 { KidsOfMembers(hits, k - 1, kid); }
  }

  ghost predicate DistinctKids(hits: seq<Hit>) {
    forall i, j :: 0 <= i < j < |hits| ==> hits[i].kid != hits[j].kid
  }

  /** The `k` best of all units, or all of them: in descending order, and none left out scores more. */
  ghost predicate Ranking(hits: seq<Hit>, units: Units, score: Vector -> real, k: nat) {
    && |hits| == Min(k, |units|) && DistinctKids(hits) && Descending(hits)
    && (forall i :: 0 <= i < |hits| ==>
        hits[i].kid in units && hits[i].unit == units[hits[i].kid] && hits[i].score == score(units[hits[i].kid].embedding))
    && (forall kid, i :: kid in units && kid !in KidsOf(hits, |hits|) && 0 <= i < |hits| ==>
        score(units[kid].embedding) <= hits[i].score)
  }

  lemma {:induction false} KidsOfSize(hits: seq<Hit>, k: nat)
    requires DistinctKids(hits) && k <= |hits|
    ensures |KidsOf(hits, k)| == k
  {
    if k > 0 {
      KidsOfSize(hits, k - 1);
      KidsOfMembers(hits, k - 1, hits[k - 1].kid);
    }
  }

  /** A hit with a better score than `b` has at `i` is among the first `i` of `b`. */
  lemma BetterIsAmong(b: seq<Hit>, units: Units, score: Vector -> real, k: nat, i: nat, kid: string)
    requires Ranking(b, units, score, k) && i < |b|
    requires kid in units && score(units[kid].embedding) > b[i].score
    ensures kid in KidsOf(b, i)
  {
    assert kid in KidsOf(b, |b|);
    KidsOfMembers(b, |b|, kid);
    KidsOfMembers(b, i, kid);
    var m :| 0 <= m < |b| && b[m].kid == kid;
  }

  lemma NotBetter(a: seq<Hit>, b: seq<Hit>, units: Units, score: Vector -> real, k: nat, i: nat)
    requires Ranking(a, units, score, k) && Ranking(b, units, score, k) && i < |a|
    ensures a[i].score <= b[i].score
  {
    KidsOfSize(a, i + 1);
    KidsOfSize(b, i);
    if KidsOf(a, i + 1) <= KidsOf(b, i) {
      Subset(KidsOf(a, i + 1), KidsOf(b, i));
    } else {
      var kid :| kid in KidsOf(a, i + 1) && kid !in KidsOf(b, i);
      KidsOfMembers(a, i + 1, kid);
      var j :| 0 <= j < i + 1 && a[j].kid == kid;
      assert a[j].score >= a[i].score;
      if score(units[kid].embedding) > b[i].score {
        BetterIsAmong(b, units, score, k, i, kid);
      }
    }
  }

  lemma {:induction false} Subset<T>(s: set<T>, t: set<T>)
    requires s <= t
    ensures |s| <= |t|
    decreases |s|
  {
    if s != {} {
      var x :| x in s;
      Subset(s - {x}, t - {x});
    }
  }

  /** Any two exact rankings have the same scores: they differ only in the order of ties. So filtering
      them gives the same scores too. */
  lemma RankingsAgree(a: seq<Hit>, b: seq<Hit>, units: Units, score: Vector -> real, k: nat, minScore: real, minRatio: real)
    requires Ranking(a, units, score, k) && Ranking(b, units, score, k)
    ensures Scores(a) == Scores(b)
    ensures Scores(Filtered(a, minScore, minRatio)) == Scores(Filtered(b, minScore, minRatio))
  {
    forall i | 0 <= i < |a| ensures a[i].score == b[i].score {
      NotBetter(a, b, units, score, k, i);
      NotBetter(b, a, units, score, k, i);
    }
    if a != [] {
      KeptScores(a, b, |a|, a[0].score, minScore, minRatio);
    }
  }

  // ----- scanning all units -----

  /** One correct hit for every unit, in any order. */
  ghost predicate Covers(hits: seq<Hit>, units: Units, score: Vector -> real) {
    && |hits| == |units| && DistinctKids(hits)
    && (forall i :: 0 <= i < |hits| ==>
        hits[i].kid in units && hits[i].unit == units[hits[i].kid] && hits[i].score == score(units[hits[i].kid].embedding))
    && (forall kid :: kid in units ==> kid in KidsOf(hits, |hits|))
  }

  /** How many leading hits score at least as much. */
  function Place(hits: seq<Hit>, score: real): (p: nat)
    ensures p <= |hits|
  {
    if hits == [] || hits[0].score < score then 0 else 1 + Place(hits[1..], score)
  }

  lemma {:induction false} PlaceSplits(hits: seq<Hit>, score: real)
    requires Descending(hits)
    ensures forall i :: 0 <= i < |hits| ==> (i < Place(hits, score) <==> hits[i].score >= score)
    decreases |hits|
  {
    if hits != [] && hits[0].score >= score {
      var rest := hits[1..];
      PlaceSplits(rest, score);
      forall i | 0 <= i < |hits| ensures i < Place(hits, score) <==> hits[i].score >= score {
        assert i > 0 ==> hits[i] == rest[i - 1];
      }
    }
  }

  function InsertHit(hits: seq<Hit>, hit: Hit): seq<Hit> {
    var p := Place(hits, hit.score);
    hits[..p] + [hit] + hits[p..]
  }

  /** Stable sorting by descending score. */
  function SortHits(hits: seq<Hit>): seq<Hit>
    decreases |hits|
  {
    if hits == [] then [] else InsertHit(SortHits(hits[..|hits| - 1]), hits[|hits| - 1])
  }

  lemma InsertHitSorts(hits: seq<Hit>, hit: Hit)
    requires Descending(hits)
    ensures Descending(InsertHit(hits, hit))
    ensures multiset(InsertHit(hits, hit)) == multiset(hits) + multiset{hit}
  {
    PlaceSplits(hits, hit.score);
    var p := Place(hits, hit.score);
    assert hits == hits[..p] + hits[p..];
  }

  lemma {:induction false} SortHitsSorts(hits: seq<Hit>)
    ensures Descending(SortHits(hits)) && multiset(SortHits(hits)) == multiset(hits)
    decreases |hits|
  {
    if hits != [] {
      var front, last := hits[..|hits| - 1], hits[|hits| - 1];
      SortHitsSorts(front);
      InsertHitSorts(SortHits(front), last);
      assert hits == front + [last];
    }
  }

  /** A list with the hits of another has its properties. */
  lemma SameHitsCover(a: seq<Hit>, b: seq<Hit>, units: Units, score: Vector -> real)
    requires Covers(a, units, score) && multiset(a) == multiset(b)
    ensures Covers(b, units, score)
  {
    assert |b| == |multiset(b)| == |multiset(a)| == |a|;
    forall i | 0 <= i < |b|
      ensures b[i].kid in units && b[i].unit == units[b[i].kid] && b[i].score == score(units[b[i].kid].embedding)
    {
      assert b[i] in multiset(b);
      assert b[i] in a;
    }
    forall i, j | 0 <= i < j < |b| ensures b[i].kid != b[j].kid {
      if b[i].kid == b[j].kid {
        assert b[i] == b[j];
        TwiceMeansTwo(b, i, j);
        OnceMeansOne(a, b[i]);
      }
    }
    forall kid | kid in units ensures kid in KidsOf(b, |b|) {
      KidsOfMembers(a, |a|, kid);
      KidsOfMembers(b, |b|, kid);
      var i :| 0 <= i < |a| && a[i].kid == kid;
      assert a[i] in multiset(a);
      assert a[i] in b;
    }
  }

  lemma TwiceMeansTwo(b: seq<Hit>, i: nat, j: nat)
    requires i < j < |b| && b[i] == b[j]
    ensures multiset(b)[b[i]] >= 2
  {
    assert b == b[..j] + [b[j]] + b[j + 1..];
    assert b[i] in b[..j];
  }

  lemma {:induction false} OnceMeansOne(a: seq<Hit>, hit: Hit)
    requires DistinctKids(a)
    ensures multiset(a)[hit] <= 1
    decreases |a|
  {
    if a != [] {
      var front, last := a[..|a| - 1], a[|a| - 1];
      OnceMeansOne(front, hit);
      assert a == front + [last];
      assert last !in front;
    }
  }

  /** The first `k` of all units, sorted, are an exact ranking. */
  lemma TopIsRanking(hits: seq<Hit>, units: Units, score: Vector -> real, k: nat)
    requires Covers(hits, units, score) && Descending(hits)
    ensures Ranking(Top(hits, k), units, score, k)
  {
    var top := Top(hits, k);
    assert forall j :: 0 <= j < |top| ==> top[j] == hits[j];
    forall kid, i | kid in units && kid !in KidsOf(top, |top|) && 0 <= i < |top|
      ensures score(units[kid].embedding) <= top[i].score
    {
      KidsOfMembers(hits, |hits|, kid);
      KidsOfMembers(top, |top|, kid);
      var j :| 0 <= j < |hits| && hits[j].kid == kid;
      assert hits[i].score >= hits[j].score;
    }
  }
}
