/** The run-merging scan of `batched_free`, on values: which blocks it hands to the free
    list, and exactly when that equals freeing the objects one by one. */
module BatchRuns {
  import opened FreeList

  datatype Run = NoRun | Open(block: Block)

  /** The scan's variables: the run being extended, the address that would extend it, and
      the runs already closed. */
  datatype Scan = Scan(run: Run, cur: int, closed: seq<Block>) {
    function Step(b: Block): Scan {
      match run
      case NoRun => Scan(Open(b), cur + b.size, closed)
      case Open(r) =>
        if cur == b.start then Scan(Open(Block(r.start, r.size + b.size)), cur + b.size, closed)
        else Scan(Open(b), b.End(), closed + [r])
    }

    function Runs(): seq<Block> {
      match run
      case NoRun => closed
      case Open(r) => closed + [r]
    }

    /** The scan looks for the next block right where the open run ends. */
    predicate Aligned() { run.Open? ==> cur == run.block.End() }
  }

  /** The scan after the blocks `v`, when it was seeded with address `seed`. */
  function ScanAll(seed: int, v: seq<Block>): Scan
    decreases |v|
  {
    if v == [] then Scan(NoRun, seed, []) else ScanAll(seed, v[..|v| - 1]).Step(v[|v| - 1])
  }

  ghost predicate Positive(v: seq<Block>) { forall i :: 0 <= i < |v| ==> v[i].size > 0 }

  /** The seed is the address of the batch's first object even when that object was skipped;
      the second freed block is then taken for a neighbour of the first although it is not. */
  predicate Misseeded(seed: int, v: seq<Block>) {
    |v| >= 2 && seed != v[0].start && v[1].start == seed + v[0].size
  }

  lemma StepCounts(s: Scan, b: Block, x: int)
    requires s.Aligned() && s.run.Open?
    requires s.run.block.size >= 0 && b.size >= 0
    ensures s.Step(b).Aligned()
    ensures Mult(s.Step(b).Runs(), x) == Mult(s.Runs(), x) + Ind(b, x)
    ensures TotalSize(s.Step(b).Runs()) == TotalSize(s.Runs()) + b.size
  {
    var r := s.run.block;
    MultConcat(s.closed, [r], x);
    MultSmall(r, b, x);
    if s.cur == b.start {
      var merged := Block(r.start, r.size + b.size);
      MultConcat(s.closed, [merged], x);
      MultSmall(merged, b, x);
    } else {
      MultConcat(s.closed + [r], [b], x);
      MultSmall(b, b, x);
    }
  }

  lemma MultSnoc(v: seq<Block>, x: int)
    requires v != []
    ensures Mult(v, x) == Mult(v[..|v| - 1], x) + Ind(v[|v| - 1], x)
    ensures TotalSize(v) == TotalSize(v[..|v| - 1]) + v[|v| - 1].size
  {
    assert v == v[..|v| - 1] + [v[|v| - 1]];
    MultConcat(v[..|v| - 1], [v[|v| - 1]], x);
    MultSmall(v[|v| - 1], v[|v| - 1], x);
  }

  lemma ScanUnfold(seed: int, v: seq<Block>)
    ensures |v| == 1 ==> ScanAll(seed, v) == Scan(Open(v[0]), seed + v[0].size, [])
    ensures |v| == 2 && Misseeded(seed, v) ==>
              ScanAll(seed, v) == Scan(Open(Block(v[0].start, v[0].size + v[1].size)), seed + v[0].size + v[1].size, [])
    ensures |v| == 2 && !Misseeded(seed, v) && seed != v[0].start ==>
              ScanAll(seed, v) == Scan(Open(v[1]), v[1].End(), [v[0]])
  {
    if |v| == 1 {
      assert v[..0] == [];
    } else if |v| == 2 {
      ScanUnfold(seed, v[..1]);
    }
  }

  /** The scan keeps positive runs and, past the first block, always has one open. */
  lemma {:induction false} ScanPositive(seed: int, v: seq<Block>)
    requires Positive(v)
    ensures Positive(ScanAll(seed, v).Runs())
    ensures v != [] ==> ScanAll(seed, v).run.Open?
    decreases |v|
  {
    if v != [] {
      ScanPositive(seed, v[..|v| - 1]);
      var s := ScanAll(seed, v[..|v| - 1]);
      assert s.run.Open? ==> s.Runs()[|s.closed|] == s.run.block;
      forall i | 0 <= i < |s.closed| ensures s.closed[i].size > 0 {
        assert s.Runs()[i] == s.closed[i];
      }
    }
  }

  /** Well seeded, the runs list every byte as often as the freed blocks do. */
  lemma {:induction false} WellSeededCounts(seed: int, v: seq<Block>, x: int)
    requires Positive(v) && !Misseeded(seed, v)
    ensures |v| >= 2 ==> ScanAll(seed, v).Aligned()
    ensures v != [] && seed == v[0].start ==> ScanAll(seed, v).Aligned()
    ensures Mult(ScanAll(seed, v).Runs(), x) == Mult(v, x)
    decreases |v|
  {
    ScanUnfold(seed, v);
    if |v| == 1 {
      assert v == [v[0]];
    } else if |v| == 2 && seed != v[0].start {
      assert v == [v[0], v[1]];
    } else if |v| >= 2 {
      var front := v[..|v| - 1];
      WellSeededCounts(seed, front, x);
      ScanPositive(seed, front);
      var s := ScanAll(seed, front);
      assert s.Runs()[|s.closed|] == s.run.block;
      StepCounts(s, v[|v| - 1], x);
      MultSnoc(v, x);
    }
  }

  /** After blocks that list byte `x` `count` times, `len` bytes are listed at the end of the
      first block instead of where the objects that follow it really are. */
  ghost predicate Displaced(seed: int, first: Block, s: Scan, count: int, len: int, x: int) {
    && len > 0 && s.run.Open? && s.run.block.size > 0
    && (s.Aligned() || s == Scan(Open(Block(first.start, first.size + len)), seed + first.size + len, []))
    && Mult(s.Runs(), x) + Ind(Block(seed + first.size, len), x) == count + Ind(Block(first.End(), len), x)
  }

  lemma DisplacedStep(seed: int, first: Block, s: Scan, count: int, len: int, b: Block, x: int) returns (len': int)
    requires first.size > 0 && b.size > 0 && Displaced(seed, first, s, count, len, x)
    ensures Displaced(seed, first, s.Step(b), count + Ind(b, x), len', x)
  {
    len' := len;
    if s.Aligned() {
      StepCounts(s, b, x);
    } else {
      var r := s.run.block;
      MultSmall(r, b, x);
      assert s.Runs() == [r];
      if s.cur == b.start {
        len' := len + b.size;
        MultSmall(Block(r.start, r.size + b.size), b, x);
        assert s.Step(b).Runs() == [Block(r.start, r.size + b.size)];
      } else {
        assert s.Step(b).Runs() == [r, b];
      }
    }
  }

  lemma {:induction false} MisseededCounts(seed: int, v: seq<Block>, x: int) returns (len: int)
    requires Positive(v) && Misseeded(seed, v)
    ensures Displaced(seed, v[0], ScanAll(seed, v), Mult(v, x), len, x)
    decreases |v|
  {
    if |v| == 2 {
      ScanUnfold(seed, v);
      len := v[1].size;
      MultSmall(v[0], v[1], x);
      assert v == [v[0], v[1]];
      MultSmall(Block(v[0].start, v[0].size + v[1].size), v[1], x);
    } else {
      var front, b := v[..|v| - 1], v[|v| - 1];
      len := MisseededCounts(seed, front, x);
      MultSnoc(v, x);
      len := DisplacedStep(seed, v[0], ScanAll(seed, front), Mult(front, x), len, b, x);
    }
  }

  lemma PositiveRunsAreFreeable(fl: seq<Block>, v: seq<Block>, runs: seq<Block>)
    requires Freeable(fl, v) && Positive(runs)
    requires forall x :: Mult(runs, x) == Mult(v, x)
    ensures Freeable(fl, runs)
  {
    forall x ensures Mult(fl, x) + Mult(runs, x) <= 1 {
      assert Mult(fl, x) + Mult(v, x) <= 1;
    }
  }

  lemma WellSeededRefines(fl: seq<Block>, seed: int, v: seq<Block>)
    requires Canonical(fl) && Freeable(fl, v) && !Misseeded(seed, v)
    ensures Freeable(fl, ScanAll(seed, v).Runs())
    ensures InsertAll(fl, ScanAll(seed, v).Runs()) == InsertAll(fl, v)
  {
    var runs := ScanAll(seed, v).Runs();
    ScanPositive(seed, v);
    forall x ensures Mult(runs, x) == Mult(v, x) { WellSeededCounts(seed, v, x); }
    PositiveRunsAreFreeable(fl, v, runs);
    FreeingIsByBytes(fl, runs, v);
  }

  lemma MisseededDiffers(fl: seq<Block>, seed: int, v: seq<Block>)
    requires NonNegative(fl) && Positive(v) && Misseeded(seed, v)
    ensures InsertAll(fl, ScanAll(seed, v).Runs()) != InsertAll(fl, v)
  {
    var x := if seed < v[0].start then seed + v[0].size else v[0].End();
    var len := MisseededCounts(seed, v, x);
    ScanPositive(seed, v);
    InsertAllCounts(fl, v, x);
    InsertAllCounts(fl, ScanAll(seed, v).Runs(), x);
  }

  /** Freeing the runs of a batch ends with the same list as freeing its live objects one by
      one exactly when the scan was not mis-seeded. */
  lemma BatchRefinesOneByOne(fl: seq<Block>, seed: int, v: seq<Block>)
    requires Canonical(fl) && Freeable(fl, v)
    ensures InsertAll(fl, ScanAll(seed, v).Runs()) == InsertAll(fl, v) <==> !Misseeded(seed, v)
  {
    if Misseeded(seed, v) {
      MisseededDiffers(fl, seed, v);
    } else {
      WellSeededRefines(fl, seed, v);
    }
  }

  /** A stale first object at 0 in front of two live ones, next to a free block: freeing [8,12) and then
      [4,8) leaves [8,20) free, although byte 12 was never freed, instead of [4,12) and [16,20). */
  lemma MisseededExample()
    ensures var fl, v := [Block(16, 4)], [Block(8, 4), Block(4, 4)];
      && Canonical(fl) && Freeable(fl, v) && Misseeded(0, v)
      && InsertAll(fl, v) == [Block(4, 8), Block(16, 4)]
      && InsertAll(fl, ScanAll(0, v).Runs()) == [Block(8, 12)]
  {
    var fl, v := [Block(16, 4)], [Block(8, 4), Block(4, 4)];
    ScanUnfold(0, v);
    ExampleIsFreeable(fl, v);
    assert v[1..] == [Block(4, 4)] && v[1..][1..] == [];
    assert Insert(fl, Block(8, 4)) == [Block(8, 4), Block(16, 4)];
    assert Insert([Block(8, 4), Block(16, 4)], Block(4, 4)) == [Block(4, 8), Block(16, 4)];
    assert Insert(fl, Block(8, 8)) == [Block(8, 12)];
    assert InsertAll(fl, [Block(8, 8)]) == InsertAll(Insert(fl, Block(8, 8)), []);
  }

  lemma ExampleIsFreeable(fl: seq<Block>, v: seq<Block>)
    requires fl == [Block(16, 4)] && v == [Block(8, 4), Block(4, 4)]
    ensures Freeable(fl, v)
  {
    forall x ensures Mult(fl, x) + Mult(v, x) <= 1 {
      MultSmall(v[0], v[1], x);
      MultSmall(fl[0], fl[0], x);
    }
  }
}
