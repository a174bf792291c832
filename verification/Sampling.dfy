/** Sampling of decode lengths: the planner that picks prompt lengths so that the generated tokens
    sweep a range of sequence lengths, and the checker that reports what a set of observations covers. */
module Sampling {
  import opened Basics
  import opened Outcomes

  function Max(a: int, b: int): int { if a < b then b else a }

  // ----- sorted lists of distinct numbers -----

  predicate Increasing(s: seq<int>) { forall i, j :: 0 <= i < j < |s| ==> s[i] < s[j] }

  function InsertSorted(s: seq<int>, x: int): seq<int> {
    if s == [] then [x]
    else if x < s[0] then [x] + s
    else if x == s[0] then s
    else [s[0]] + InsertSorted(s[1..], x)
  }

  lemma PrependKeeps(a: int, s: seq<int>)
    requires Increasing(s) && forall y :: y in s ==> a < y
    ensures Increasing([a] + s)
  {
    forall i | 0 <= i < |s| ensures a < s[i] {
      var y := s[i];
      assert y in s;
    }
  }

  lemma HeadIsLeast(s: seq<int>)
    requires Increasing(s) && s != []
    ensures Increasing(s[1..]) && forall y :: y in s[1..] ==> s[0] < y
    ensures forall y :: y in s <==> y == s[0] || y in s[1..]
  {
    forall y | y in s[1..] ensures s[0] < y {
      var i :| 0 <= i < |s[1..]| && s[1..][i] == y;
      assert s[i + 1] == y;
    }
    assert s == [s[0]] + s[1..];
  }

  lemma {:induction false} InsertSortedKeeps(s: seq<int>, x: int)
    requires Increasing(s)
    ensures Increasing(InsertSorted(s, x))
    ensures forall y :: y in InsertSorted(s, x) <==> y in s || y == x
    decreases |s|
  {
    if s != [] {
      HeadIsLeast(s);
      if x < s[0] {
        PrependKeeps(x, s);
      } else if x > s[0] {
        InsertSortedKeeps(s[1..], x);
        PrependKeeps(s[0], InsertSorted(s[1..], x));
      }
    }
  }

  lemma AppendKeeps(s: seq<int>, x: int)
    requires Increasing(s) && forall y :: y in s ==> y < x
    ensures Increasing(s + [x])
  {
    forall i | 0 <= i < |s| ensures s[i] < x {
      assert s[i] in s;
    }
  }

  lemma SomeMember(s: seq<int>)
    ensures s == [] || exists x :: x in s
  {
    if s != [] {
      var x := s[0];
      assert x in s;
    }
  }

  /** The distinct numbers of a list, in increasing order. */
  method SortedSet(items: seq<int>) returns (r: seq<int>)
    ensures Increasing(r) && forall x :: x in r <==> x in items
  {
    r := [];
    var i := 0;
    while i < |items|
      invariant 0 <= i <= |items| && Increasing(r)
      invariant forall x :: x in r <==> x in items[..i]
    {
      InsertSortedKeeps(r, items[i]);
      assert items[..i + 1] == items[..i] + [items[i]];
      r := InsertSorted(r, items[i]);
      i := i + 1;
    }
    assert items[..|items|] == items;
  }

  // ----- the planner -----

  /** A request for `target` prompt tokens really has `offset` more; its tokens are observed at the lengths
      from there on, one per generated token. */
  ghost predicate Observes(target: int, offset: int, window: nat, length: int) {
    target + offset <= length < target + offset + window
  }

  datatype Range = Range(first: int, last: int) {
    predicate Has(x: int) { first <= x <= last }
    function Size(): nat { if first <= last then last - first + 1 else 0 }
  }

  function Window(maxTokens: int): nat { Max(1, maxTokens) }

  function Stride(maxTokens: int, overlap: int): nat { Max(1, Window(maxTokens) - Max(0, overlap)) }

  /** Some start has the length in its window. */
  ghost predicate Reached(starts: seq<int>, window: nat, length: int) {
    exists s :: s in starts && s <= length < s + window
  }

  /** One start per stride up to the end of the range. */
  function Grid(s: int, last: int, stride: nat): seq<int>
    requires stride > 0
    decreases last - s
  {
    if s > last then [] else [s] + Grid(s + stride, last, stride)
  }

  function Lowest(range: Range, realInputLength: Option<int>): int {
    if realInputLength.Some? && realInputLength.value < range.first then realInputLength.value else range.first
  }

  predicate IsStart(x: int, range: Range, stride: nat, realInputLength: Option<int>)
    requires stride > 0
  {
    x == range.first || realInputLength == Some(x) || x in Grid(Lowest(range, realInputLength), range.last, stride)
  }

  lemma ModStep(x: nat, d: nat)
    requires 0 < d <= x
    ensures x % d == (x - d) % d
  {
    DivModUnique(x, d, (x - d) / d + 1, (x - d) % d);
  }

  lemma {:induction false} GridMeaning(s: int, last: int, stride: nat, x: int)
    requires stride > 0
    ensures x in Grid(s, last, stride) <==> s <= x <= last && (x - s) % stride == 0
    decreases last - s
  {
    if s <= last {
      GridMeaning(s + stride, last, stride, x);
      if s <= x < s + stride {
        DivModUnique(x - s, stride, 0, x - s);
      } else if x >= s + stride {
        ModStep(x - s, stride);
      }
    }
  }

  /** The starts are the given one, the first length, and every stride-th length from the lower of them on. The
      windows, of a token at least, overlap as far as asked for but for one token. */
  lemma StartMeaning(x: int, range: Range, maxTokens: int, overlap: int, realInputLength: Option<int>)
    ensures var window, stride := Window(maxTokens), Stride(maxTokens, overlap);
      var lowest := Lowest(range, realInputLength);
      && window == (if maxTokens >= 1 then maxTokens else 1)
      && (0 <= overlap < window ==> stride + overlap == window)
      && (overlap >= window ==> stride == 1)
      && (overlap < 0 ==> stride == window)
      && lowest <= range.first && (lowest == range.first || realInputLength == Some(lowest))
      && (realInputLength.Some? ==> lowest <= realInputLength.value)
      && (IsStart(x, range, stride, realInputLength) <==>
            x == range.first || realInputLength == Some(x) || (lowest <= x <= range.last && (x - lowest) % stride == 0))
  {
    GridMeaning(Lowest(range, realInputLength), range.last, Stride(maxTokens, overlap), x);
  }

  /** The starting points: the given one, the range's first length, and from the lower of them on one per
      stride. Every length of the range is in the window of some start. */
  method PlanStarts(range: Range, maxTokens: int, realInputLength: Option<int>, overlap: int) returns (starts: seq<int>)
    ensures Increasing(starts)
    ensures forall x :: x in starts <==> IsStart(x, range, Stride(maxTokens, overlap), realInputLength)
    ensures forall x :: range.Has(x) ==> Reached(starts, Window(maxTokens), x)
  {
    var window, stride := Window(maxTokens), Stride(maxTokens, overlap);
    var all: seq<int> := [];
    if realInputLength.Some? {
      all := all + [realInputLength.value];
    }
    if range.first !in all {
      all := all + [range.first];
    }
    var s := Lowest(range, realInputLength);
    ghost var lowest := s;
    while s <= range.last
      invariant forall x :: x in all || x in Grid(s, range.last, stride) <==> IsStart(x, range, stride, realInputLength)
      invariant lowest <= range.first && lowest <= s
      invariant forall x :: lowest <= x < s ==> Reached(all, window, x)
      decreases range.last - s
    {
      ReachFurther(all, s, window, lowest, stride);
      all := all + [s];
      s := s + stride;
    }
    starts := SortedSet(all);
    forall x | range.Has(x) ensures Reached(starts, window, x) {
      assert Reached(all, window, x);
    }
  }

  lemma ReachFurther(all: seq<int>, s: int, window: nat, lowest: int, stride: nat)
    requires stride <= window && forall x :: lowest <= x < s ==> Reached(all, window, x)
    ensures forall x :: lowest <= x < s + stride ==> Reached(all + [s], window, x)
  {
    forall x | lowest <= x < s + stride ensures Reached(all + [s], window, x) {
      if x < s {
        assert Reached(all, window, x);
        var t :| t in all && t <= x < t + window;
        assert t in all + [s];
      } else {
        assert s in all + [s];
      }
    }
  }

  /** The target for a start whose window meets the range. */
  ghost predicate PlannedFrom(range: Range, window: nat, offset: int, start: int, target: int) {
    start <= range.last && range.first < start + window && target == Max(1, start - offset)
  }

  /** The targets' windows observe a length of the range exactly when it is more than the offset. */
  ghost predicate Sweeps(range: Range, window: nat, offset: int, targets: seq<int>) {
    forall x :: range.Has(x) ==> ((exists t :: t in targets && Observes(t, offset, window, x)) <==> x >= 1 + offset)
  }

  /** The prompt lengths to request, distinct and in increasing order. With an exact offset their windows
      observe a length of the range exactly when it is more than the offset: shorter ones would need an
      empty prompt. No window lies outside the range, but for the clamping of its start. */
  method PlanConfigs(range: Range, maxTokens: int, offset: int, realInputLength: Option<int>, overlap: int)
    returns (targets: seq<int>)
    ensures Increasing(targets)
    ensures Sweeps(range, Window(maxTokens), offset, targets)
    ensures forall t :: t in targets <==>
      exists s :: IsStart(s, range, Stride(maxTokens, overlap), realInputLength) && PlannedFrom(range, Window(maxTokens), offset, s, t)
  {
    var window := Window(maxTokens);
    var starts := PlanStarts(range, maxTokens, realInputLength, overlap);
    var configs: seq<int> := [];
    var i := 0;
    while i < |starts|
      invariant 0 <= i <= |starts|
      invariant forall k :: 0 <= k < i && starts[k] <= range.last && range.first < starts[k] + window ==>
        Max(1, starts[k] - offset) in configs
      invariant forall t :: t in configs ==> t >= 1 && exists k :: 0 <= k < i && PlannedFrom(range, window, offset, starts[k], t)
    {
      var realStart := starts[i];
      i := i + 1;
      if realStart > range.last {
        continue;
      }
      if realStart + window - 1 < range.first {
        continue;
      }
      assert PlannedFrom(range, window, offset, realStart, Max(1, realStart - offset));
      configs := configs + [Max(1, realStart - offset)];
    }
    targets := SortedSet(configs);
    forall x | range.Has(x)
      ensures (exists t :: t in targets && Observes(t, offset, window, x)) <==> x >= 1 + offset
    {
      assert Reached(starts, window, x);
      var s :| s in starts && s <= x < s + window;
      var t := Max(1, s - offset);
      assert t in targets;
      assert x >= 1 + offset ==> Observes(t, offset, window, x);
    }
  }

  // ----- the checker -----

  datatype Point = Point(scenario: string, batchSize: int, sequenceLength: int)

  predicate Seen(points: seq<Point>, scenario: string, batchSize: int, x: int) {
    Point(scenario, batchSize, x) in points
  }

  /** All lengths from `a` up to `b` are unobserved ones of the range. */
  ghost predicate Gap(range: Range, covered: seq<int>, a: int, b: int) {
    range.first <= a <= b <= range.last + 1 && forall x :: a <= x < b ==> x !in covered
  }

  datatype Coverage = Coverage(covered: seq<int>, missing: seq<int>, ratio: real, maxGap: nat)

  /** The observed lengths of the range that the points give. */
  method ObservedLengths(points: seq<Point>, scenario: string, batchSize: int, range: Range) returns (covered: seq<int>)
    ensures Increasing(covered)
    ensures forall x :: x in covered <==> range.Has(x) && Seen(points, scenario, batchSize, x)
  {
    var lengths: seq<int> := [];
    var i := 0;
    while i < |points|
      invariant 0 <= i <= |points|
      invariant forall x :: x in lengths <==> range.Has(x) && Seen(points[..i], scenario, batchSize, x)
    {
      var p := points[i];
      assert points[..i + 1] == points[..i] + [p];
      if p.scenario == scenario && p.batchSize == batchSize && range.Has(p.sequenceLength) {
        lengths := lengths + [p.sequenceLength];
      }
      i := i + 1;
    }
    assert points[..|points|] == points;
    covered := SortedSet(lengths);
  }

  /** The unobserved lengths, and the longest run of them. */
  method MissingAndGap(range: Range, covered: seq<int>) returns (missing: seq<int>, maxGap: nat)
    requires range.first <= range.last
    ensures Increasing(missing) && forall x :: x in missing <==> range.Has(x) && x !in covered
    ensures forall a, b :: Gap(range, covered, a, b) ==> b - a <= maxGap
    ensures exists a, b :: Gap(range, covered, a, b) && b - a == maxGap
  {
    missing, maxGap := [], 0;
    var curGap: nat := 0;
    var x := range.first;
    ghost var at := x;
    while x <= range.last
      invariant range.first <= x <= range.last + 1
      invariant Increasing(missing) && forall y :: y in missing <==> range.first <= y < x && y !in covered
      invariant Gap(range, covered, x - curGap, x) && (x - curGap > range.first ==> x - curGap - 1 in covered)
      invariant Gap(range, covered, at, at + maxGap)
      invariant forall a, b :: Gap(range, covered, a, b) && b < x - curGap ==> b - a <= maxGap
    {
      if x in covered {
        if curGap > maxGap {
          at, maxGap := x - curGap, curGap;
        }
        curGap := 0;
      } else {
        AppendKeeps(missing, x);
        missing := missing + [x];
        curGap := curGap + 1;
      }
      x := x + 1;
    }
    if curGap > maxGap {
      at, maxGap := x - curGap, curGap;
    }
  }

  /** The coverage report of a range: covered and missing lengths, both in order, make up the range, the
      ratio is that of the covered ones, and the largest gap is the longest run of missing ones. */
  ghost predicate Reports(c: Coverage, points: seq<Point>, scenario: string, batchSize: int, range: Range) {
    && Increasing(c.covered) && Increasing(c.missing)
    && (forall x :: x in c.covered <==> range.Has(x) && Seen(points, scenario, batchSize, x))
    && (forall x :: x in c.missing <==> range.Has(x) && !Seen(points, scenario, batchSize, x))
    && |c.covered| + |c.missing| == range.Size()
    && c.ratio == (if range.Size() == 0 then 0.0 else |c.covered| as real / range.Size() as real)
    && (forall a, b :: Gap(range, c.covered, a, b) ==> b - a <= c.maxGap)
    && (c.maxGap == 0 || exists a, b :: Gap(range, c.covered, a, b) && b - a == c.maxGap)
  }

  /** What a batch size's observations cover of a range. */
  method CheckLengthCoverage(points: seq<Point>, batchSize: int, range: Range, scenario: string) returns (c: Coverage)
    ensures Reports(c, points, scenario, batchSize, range)
  {
    var covered := ObservedLengths(points, scenario, batchSize, range);
    var missing: seq<int>, maxGap: nat := [], 0;
    if range.first <= range.last {
      missing, maxGap := MissingAndGap(range, covered);
    }
    Partition(range, covered, missing);
    var ratio := if range.Size() == 0 then 0.0 else |covered| as real / range.Size() as real;
    c := Coverage(covered, missing, ratio, maxGap);
  }

  function Interval(range: Range): set<int> { set x: int | range.first <= x <= range.last && range.Has(x) }

  lemma {:induction false} IntervalSize(range: Range)
    ensures |Interval(range)| == range.Size()
    decreases range.Size()
  {
    if range.first <= range.last {
      var shorter := Range(range.first, range.last - 1);
      IntervalSize(shorter);
      assert Interval(range) == Interval(shorter) + {range.last};
    }
  }

  lemma {:induction false} IncreasingSize(s: seq<int>)
    requires Increasing(s)
    ensures |set x | x in s| == |s|
    decreases |s|
  {
    if s != [] {
      var front, last := s[..|s| - 1], s[|s| - 1];
      IncreasingSize(front);
      var before := set x | x in front;
      assert (set x | x in s) == before + {last} by { assert s == front + [last]; }
      assert last !in before;
    }
  }

  lemma Partition(range: Range, covered: seq<int>, missing: seq<int>)
    requires Increasing(covered) && Increasing(missing)
    requires forall x :: x in covered ==> range.Has(x)
    requires forall x :: x in missing <==> range.Has(x) && x !in covered
    ensures |covered| + |missing| == range.Size()
  {
    var c, m := set x | x in covered, set x | x in missing;
    IncreasingSize(covered);
    IncreasingSize(missing);
    IntervalSize(range);
    assert c + m == Interval(range) && c !! m;
  }

  // ----- planner and checker together -----

  /** Every window of the plan was observed in full. */
  ghost predicate ObservedInFull(points: seq<Point>, scenario: string, batchSize: int, targets: seq<int>, offset: int, window: nat) {
    forall t, x :: t in targets && Observes(t, offset, window, x) ==> Seen(points, scenario, batchSize, x)
  }

  /** Only windows of the plan were observed. */
  ghost predicate ObservedOnly(points: seq<Point>, scenario: string, batchSize: int, targets: seq<int>, offset: int, window: nat) {
    forall x :: Seen(points, scenario, batchSize, x) ==> exists t :: t in targets && Observes(t, offset, window, x)
  }

  lemma Whole(x: real)
    requires x > 0.0
    ensures x / x == 1.0
  {
  }

  /** The plan satisfies the checker: when its windows are observed in full, nothing above the offset is
      missing, so a range above the offset is covered completely, with no gap; and when nothing else is
      observed, that is the only case. */
  lemma PlanSatisfiesChecker(range: Range, maxTokens: int, offset: int, targets: seq<int>,
                             points: seq<Point>, scenario: string, batchSize: int, c: Coverage)
    requires range.first <= range.last
    requires Sweeps(range, Window(maxTokens), offset, targets)
    requires ObservedInFull(points, scenario, batchSize, targets, offset, Window(maxTokens))
    requires Reports(c, points, scenario, batchSize, range)
    ensures range.first >= 1 + offset ==> c.missing == [] && c.ratio == 1.0 && c.maxGap == 0
    ensures ObservedOnly(points, scenario, batchSize, targets, offset, Window(maxTokens)) ==>
      (c.missing == [] <==> range.first >= 1 + offset)
  {
    forall x | range.Has(x) && x >= 1 + offset ensures Seen(points, scenario, batchSize, x) {
      var t :| t in targets && Observes(t, offset, Window(maxTokens), x);
    }
    SomeMember(c.missing);
    if range.first >= 1 + offset {
      forall a, b | Gap(range, c.covered, a, b) ensures b <= a {
        assert range.Has(a) ==> a in c.covered;
      }
      Whole(range.Size() as real);
    } else {
      assert range.Has(range.first);
    }
  }
}
