/** The explicit-list allocator and the objects it hands out. The list is edited in place;
    every method is tied to the list functions of `FreeList`. */
module TensorAllocator {
  import opened FreeList
  import opened BatchRuns
  import opened ExplicitList
  import opened Outcomes
  import opened Scaling
  import Alignment
  import Lifecycle

  class StatsMonitor {
    var pinnedObjs: int

    constructor ()
      ensures pinnedObjs == 0
    {
      pinnedObjs := 0;
    }
  }

  class TensorMemoryObj {
    const address: int
    const phySize: int
    const rawSize: int
    const parent: TensorMemoryAllocator?
    const monitor: StatsMonitor
    var valid: bool
    var refCount: int
    var pinCount: int

    constructor (address: int, phySize: int, rawSize: int, parent: TensorMemoryAllocator?, monitor: StatsMonitor)
      ensures this.address == address && this.phySize == phySize && this.rawSize == rawSize
      ensures this.parent == parent && this.monitor == monitor
      ensures valid && refCount == 1 && pinCount == 0
    {
      this.address, this.phySize, this.rawSize := address, phySize, rawSize;
      this.parent, this.monitor := parent, monitor;
      valid, refCount, pinCount := true, 1, 0;
    }

    ghost function Range(): Block { Block(address, phySize) }

    ghost predicate JustMade(unit: int)
      reads this
    {
      phySize == unit && rawSize == unit && valid && refCount == 1 && pinCount == 0
    }

    // ----- reference and pin counts -----

    /** The object's counts; an invalid object has had its storage returned. */
    ghost function Counts(): Lifecycle.Counts
      reads this
    {
      Lifecycle.Counts(refCount, pinCount, valid, if valid then 0 else 1)
    }

    /** The objects a release may change: this one, its allocator and the allocator's list. */
    ghost function Frame(): set<object>
      reads if parent == null then {} else {parent.list}
    {
      if parent == null then {this} else {this, parent, parent.list} + parent.list.nodes
    }

    /** The allocator is sound and holds this object when it is valid. */
    ghost predicate Held()
      reads this, parent, if parent == null then {} else {parent.list},
            if parent == null then {} else parent.list.nodes, if parent == null then {} else parent.live
    {
      parent != null ==> parent.Valid() && (valid ==> this in parent.live)
    }

    /** The allocator holds this object when it is valid, and is sound but perhaps for its list's form. */
    ghost predicate HeldLoosely()
      reads this, parent, if parent == null then {} else {parent.list},
            if parent == null then {} else parent.list.nodes, if parent == null then {} else parent.live
    {
      parent != null ==> parent.Loose() && (valid ==> this in parent.live)
    }

    /** Returning the object's bytes to `fl` leaves no empty block behind. */
    ghost predicate LeavesNoEmpty(fl: seq<Block>) { phySize > 0 || EndsAt(fl, address) }

    /** The counts are `next`; without an allocator there is nothing to return and the object stays valid. */
    ghost predicate Released(next: Lifecycle.Counts, wasValid: bool)
      reads this
    {
      if parent != null then Counts() == next
      else refCount == next.ref && pinCount == next.pin && valid == wasValid
    }

    method RefCountUp()
      modifies this`refCount
      ensures refCount == old(refCount) + 1
      ensures Counts() == old(Counts()).Step(Lifecycle.RefUp)
    {
      refCount := refCount + 1;
    }

    method ReturnStorage()
      requires parent != null && Held()
      modifies Frame() - {this}, this`valid
      ensures HeldLoosely() && !valid
      ensures parent.Valid() <==> (old(valid) ==> old(LeavesNoEmpty(parent.list.blocks)))
      ensures parent.live == if old(valid) then old(parent.live) - {this} else old(parent.live)
      ensures parent.list.blocks == if old(valid) then Insert(old(parent.list.blocks), Range()) else old(parent.list.blocks)
    {
      parent.Free(this);
    }

    /** Drops a reference; the last one of an unpinned object frees it. */
    method RefCountDown()
      requires Held()
      modifies Frame()
      ensures HeldLoosely() && Released(old(Counts()).Step(Lifecycle.RefDown), old(valid))
      ensures refCount == if old(refCount) > 0 then old(refCount) - 1 else 0
      ensures valid == (old(valid) && !(parent != null && old(refCount) == 1 && pinCount == 0))
      ensures parent != null ==>
        (parent.Valid() <==> (old(valid) && !valid ==> old(LeavesNoEmpty(parent.list.blocks))))
      ensures parent != null ==> parent.live == if old(valid) && !valid then old(parent.live) - {this} else old(parent.live)
      ensures parent != null ==>
        parent.list.blocks == if old(valid) && !valid then Insert(old(parent.list.blocks), Range())
                              else old(parent.list.blocks)
    {
      if refCount <= 0 {
        refCount := 0;
        return;
      }
      refCount := refCount - 1;
      if refCount == 0 && parent != null && pinCount == 0 {
        ReturnStorage();
      }
    }

    method Pin()
      modifies this`pinCount, monitor
      ensures pinCount == old(pinCount) + 1
      ensures Counts() == old(Counts()).Step(Lifecycle.Pin)
      ensures monitor.pinnedObjs == old(monitor.pinnedObjs) + old(Counts()).PinnedDelta(Lifecycle.Pin)
    {
      if pinCount == 0 {
        monitor.pinnedObjs := monitor.pinnedObjs + 1;
      }
      pinCount := pinCount + 1;
    }

    method DropPin()
      modifies this`pinCount, monitor
      ensures pinCount == old(pinCount) - 1
      ensures old(Held()) ==> Held()
      ensures monitor.pinnedObjs == old(monitor.pinnedObjs) + old(Counts()).PinnedDelta(Lifecycle.Unpin)
    {
      pinCount := pinCount - 1;
      if pinCount == 0 {
        monitor.pinnedObjs := monitor.pinnedObjs - 1;
      }
    }

    /** A negative count is set back to zero. */
    method ClampPin()
      requires HeldLoosely()
      modifies this`pinCount
      ensures HeldLoosely() && pinCount == if old(pinCount) < 0 then 0 else old(pinCount)
      ensures parent != null ==> (parent.Valid() <==> old(parent.Valid()))
    {
      if pinCount < 0 {
        pinCount := 0;
      }
    }

    /** Drops a pin; with no pins and no references left the object is freed. */
    method Unpin()
      requires Held()
      modifies Frame(), monitor
      ensures HeldLoosely() && Released(old(Counts()).Step(Lifecycle.Unpin), old(valid))
      ensures pinCount == if old(pinCount) > 0 then old(pinCount) - 1 else 0
      ensures valid == (old(valid) && !(parent != null && old(pinCount) <= 1 && refCount <= 0))
      ensures parent != null ==>
        (parent.Valid() <==> (old(valid) && !valid ==> old(LeavesNoEmpty(parent.list.blocks))))
      ensures monitor.pinnedObjs == old(monitor.pinnedObjs) + old(Counts()).PinnedDelta(Lifecycle.Unpin)
      ensures parent != null ==> parent.live == if old(valid) && !valid then old(parent.live) - {this} else old(parent.live)
      ensures parent != null ==>
        parent.list.blocks == if old(valid) && !valid then Insert(old(parent.list.blocks), Range())
                              else old(parent.list.blocks)
    {
      DropPin();
      if pinCount <= 0 && refCount <= 0 {
        if parent != null {
          ReturnStorage();
        }
      }
      ClampPin();
    }
  }

  // ----- live objects as a tiling -----

  ghost function Holders(live: set<TensorMemoryObj>, x: int): set<TensorMemoryObj> {
    set o | o in live && o.Range().Has(x)
  }

  /** Every byte of the buffer is free once or held by one live object, never both. */
  ghost predicate Tiled(bufferSize: int, fl: seq<Block>, live: set<TensorMemoryObj>) {
    forall x :: Mult(fl, x) + |Holders(live, x)| == if 0 <= x < bufferSize then 1 else 0
  }

  lemma HoldersAdd(live: set<TensorMemoryObj>, o: TensorMemoryObj, x: int)
    requires o !in live
    ensures |Holders(live + {o}, x)| == |Holders(live, x)| + Ind(o.Range(), x)
  {
    assert Holders(live + {o}, x) == Holders(live, x) + if o.Range().Has(x) then {o} else {};
  }

  ghost function SumSizes(s: set<TensorMemoryObj>): int {
    if s == {} then 0 else var o :| o in s; o.phySize + SumSizes(s - {o})
  }

  lemma {:induction false} SumSizesRemove(s: set<TensorMemoryObj>, o: TensorMemoryObj)
    requires o in s
    ensures SumSizes(s) == o.phySize + SumSizes(s - {o})
    decreases |s|
  {
    var p :| p in s && SumSizes(s) == p.phySize + SumSizes(s - {p});
    if p != o {
      SumSizesRemove(s - {p}, o);
      SumSizesRemove(s - {o}, p);
      assert s - {p} - {o} == s - {o} - {p};
    }
  }

  /** A live object's bytes are not free. */
  lemma LiveIsDisjoint(bufferSize: int, fl: seq<Block>, live: set<TensorMemoryObj>, o: TensorMemoryObj)
    requires Tiled(bufferSize, fl, live) && o in live
    ensures Disjoint(fl, o.Range())
  {
    forall x | o.Range().Has(x) ensures !InFree(fl, x) {
      assert Mult(fl, x) + |Holders(live, x)| <= 1;
      assert o in Holders(live, x);
      MultIsMembership(fl, x);
    }
  }

  lemma InsertKeepsTiled(bufferSize: int, fl: seq<Block>, live: set<TensorMemoryObj>, o: TensorMemoryObj)
    requires Tiled(bufferSize, fl, live) && NonNegative(fl) && o in live && o.phySize >= 0
    ensures Tiled(bufferSize, Insert(fl, o.Range()), live - {o})
  {
    forall x ensures Mult(Insert(fl, o.Range()), x) + |Holders(live - {o}, x)|
                     == if 0 <= x < bufferSize then 1 else 0 {
      InsertCounts(fl, o.Range(), x);
      HoldersAdd(live - {o}, o, x);
      assert live - {o} + {o} == live;
      assert Mult(fl, x) + |Holders(live, x)| == if 0 <= x < bufferSize then 1 else 0;
    }
  }

  /** Tiled, except that the bytes of `b` are nobody's yet. */
  ghost predicate TiledBut(bufferSize: int, fl: seq<Block>, live: set<TensorMemoryObj>, b: Block) {
    forall x :: Mult(fl, x) + |Holders(live, x)| + Ind(b, x) == if 0 <= x < bufferSize then 1 else 0
  }

  lemma TakeLeaves(bufferSize: int, fl: seq<Block>, live: set<TensorMemoryObj>, i: nat, n: int)
    requires Tiled(bufferSize, fl, live) && i < |fl| && 0 <= n <= fl[i].size
    ensures TiledBut(bufferSize, Take(fl, i, n), live, Block(fl[i].start, n))
  {
    forall x ensures Mult(Take(fl, i, n), x) + |Holders(live, x)| + Ind(Block(fl[i].start, n), x)
                     == if 0 <= x < bufferSize then 1 else 0 {
      TakeCounts(fl, i, n, x);
      assert Mult(fl, x) + |Holders(live, x)| == if 0 <= x < bufferSize then 1 else 0;
    }
  }

  lemma PlaceOne(bufferSize: int, fl: seq<Block>, live: set<TensorMemoryObj>, b: Block, o: TensorMemoryObj)
    requires TiledBut(bufferSize, fl, live, b) && o !in live
    requires o.address == b.start && 0 <= o.phySize <= b.size
    ensures TiledBut(bufferSize, fl, live + {o}, Block(b.start + o.phySize, b.size - o.phySize))
  {
    var rest := Block(b.start + o.phySize, b.size - o.phySize);
    forall x ensures Mult(fl, x) + |Holders(live + {o}, x)| + Ind(rest, x)
                     == if 0 <= x < bufferSize then 1 else 0 {
      HoldersAdd(live, o, x);
      assert Mult(fl, x) + |Holders(live, x)| + Ind(b, x) == if 0 <= x < bufferSize then 1 else 0;
    }
  }

  lemma NothingLeft(bufferSize: int, fl: seq<Block>, live: set<TensorMemoryObj>, b: Block)
    requires TiledBut(bufferSize, fl, live, b) && b.size == 0
    ensures Tiled(bufferSize, fl, live)
  {
    forall x ensures Mult(fl, x) + |Holders(live, x)| == if 0 <= x < bufferSize then 1 else 0 {
      assert Mult(fl, x) + |Holders(live, x)| + Ind(b, x) == if 0 <= x < bufferSize then 1 else 0;
    }
  }

  lemma WholeBuffer(n: nat, align: int)
    requires align > 0
    ensures var fl := [Block(0, n)];
      Tiled(n, fl, {}) && TotalSize(fl) == n && Aligned(fl, align) && (Canonical(fl) <==> n > 0)
  {
    forall x ensures Mult([Block(0, n)], x) + |Holders({}, x)| == if 0 <= x < n then 1 else 0 {
      MultSmall(Block(0, n), Block(0, n), x);
      assert Holders({}, x) == {};
    }
    MultSmall(Block(0, n), Block(0, n), 0);
    assert [Block(0, n)][0].size == n;
  }

  /** Conservation: the live sizes are what the free bytes leave of the buffer. */
  lemma {:induction false} LiveSizes(bufferSize: nat, fl: seq<Block>, live: set<TensorMemoryObj>)
    requires Canonical(fl) && Tiled(bufferSize, fl, live) && forall o :: o in live ==> o.phySize >= 0
    ensures SumSizes(live) + TotalSize(fl) == bufferSize
    decreases |live|
  {
    if live == {} {
      var whole := if bufferSize == 0 then [] else [Block(0, bufferSize)];
      forall x ensures Mult(fl, x) == Mult(whole, x) {
        assert Holders(live, x) == {};
        assert Mult(fl, x) + |Holders(live, x)| == if 0 <= x < bufferSize then 1 else 0;
        MultSmall(Block(0, bufferSize), Block(0, bufferSize), x);
      }
      SameMultSameList(fl, whole);
      MultSmall(Block(0, bufferSize), Block(0, bufferSize), 0);
    } else {
      var o :| o in live;
      SumSizesRemove(live, o);
      InsertKeepsTiled(bufferSize, fl, live, o);
      if o.phySize == 0 {
        EmptyObject(bufferSize, fl, live, o);
        LiveSizes(bufferSize, fl, live - {o});
      } else {
        LiveIsDisjoint(bufferSize, fl, live, o);
        InsertKeepsCanonical(fl, o.Range());
        InsertCounts(fl, o.Range(), 0);
        LiveSizes(bufferSize, Insert(fl, o.Range()), live - {o});
      }
    }
  }

  lemma EmptyObject(bufferSize: nat, fl: seq<Block>, live: set<TensorMemoryObj>, o: TensorMemoryObj)
    requires Tiled(bufferSize, fl, live) && o in live && o.phySize == 0
    ensures Tiled(bufferSize, fl, live - {o})
  {
    forall x ensures Mult(fl, x) + |Holders(live - {o}, x)| == if 0 <= x < bufferSize then 1 else 0 {
      assert Holders(live - {o}, x) == Holders(live, x);
      assert Mult(fl, x) + |Holders(live, x)| == if 0 <= x < bufferSize then 1 else 0;
    }
  }

  ghost predicate Aligned(fl: seq<Block>, align: int)
    requires align > 0
  {
    forall i :: 0 <= i < |fl| ==> Alignment.Multiple(fl[i].start, align)
  }

  /** The objects lie one after the other from `start` to `end`, without gaps. */
  ghost predicate Chain(objs: seq<TensorMemoryObj>, start: int, end: int)
    decreases |objs|
  {
    if objs == [] then start == end
    else
      var last := objs[|objs| - 1];
      last.address + last.phySize == end && Chain(objs[..|objs| - 1], start, last.address)
  }

  lemma ChainSnoc(objs: seq<TensorMemoryObj>, start: int, o: TensorMemoryObj)
    requires Chain(objs, start, o.address)
    ensures Chain(objs + [o], start, o.address + o.phySize)
  {
    assert (objs + [o])[..|objs|] == objs;
  }

  lemma HeldSnoc(live: set<TensorMemoryObj>, held: set<TensorMemoryObj>, objs: seq<TensorMemoryObj>, o: TensorMemoryObj)
    requires o !in held && forall p :: p in held <==> p in live || p in objs
    ensures |held + {o}| == |held| + 1 && forall p :: p in held + {o} <==> p in live || p in objs + [o]
  {
  }

  lemma {:induction false} ChainFirst(objs: seq<TensorMemoryObj>, start: int, end: int)
    requires Chain(objs, start, end) && objs != []
    ensures objs[0].address == start
    decreases |objs|
  {
    if |objs| > 1 { ChainFirst(objs[..|objs| - 1], start, objs[|objs| - 1].address); }
  }

  /** In a chain of equal objects the address is the start plus the objects before it. */
  lemma {:induction false} ChainAddress(objs: seq<TensorMemoryObj>, start: int, end: int, unit: int, j: nat)
    requires Chain(objs, start, end) && j < |objs| && forall o :: o in objs ==> o.phySize == unit
    ensures objs[j].address == start + unit * j && end == start + unit * |objs|
    decreases |objs|
  {
    var front := objs[..|objs| - 1];
    if front != [] {
      ChainAddress(front, start, objs[|objs| - 1].address, unit, if j < |front| then j else 0);
    }
  }

  lemma {:induction false} ScaledMultiple(unit: int, k: nat, align: int)
    requires align > 0 && Alignment.Multiple(unit, align)
    ensures Alignment.Multiple(Scaled(unit, k), align)
  {
    if k > 0 {
      ScaledMultiple(unit, k - 1, align);
      Alignment.MultiplesAdd(unit, Scaled(unit, k - 1), align);
    }
  }

  lemma TakeKeepsAligned(fl: seq<Block>, i: nat, n: int, align: int)
    requires align > 0 && Aligned(fl, align) && i < |fl| && Alignment.Multiple(n, align)
    ensures Aligned(Take(fl, i, n), align)
  {
    Alignment.MultiplesAdd(fl[i].start, n, align);
  }

  lemma SpliceKeepsAligned(fl: seq<Block>, lo: nat, hi: nat, mid: Block, align: int)
    requires align > 0 && Aligned(fl, align) && lo <= hi <= |fl| && Alignment.Multiple(mid.start, align)
    ensures Aligned(Splice(fl, lo, hi, mid), align)
  {
    var r := Splice(fl, lo, hi, mid);
    forall i | 0 <= i < |r| ensures Alignment.Multiple(r[i].start, align) {
      assert r[i] == if i < lo then fl[i] else if i == lo then mid else fl[i - lo - 1 + hi];
    }
  }

  lemma InsertKeepsAligned(fl: seq<Block>, b: Block, align: int)
    requires align > 0 && Aligned(fl, align) && Alignment.Multiple(b.start, align)
    ensures Aligned(Insert(fl, b), align)
  {
    var lo, hi, mid := InsertIsSplice(fl, b, BisectRight(fl, b.start));
    SpliceKeepsAligned(fl, lo, hi, mid, align);
  }

  /** Returning a live object's bytes keeps the list aligned and the buffer tiled, and keeps the list
      canonical exactly when the object is not empty or a free block ends where it lies. */
  lemma FreeKeeps(bufferSize: int, align: int, fl: seq<Block>, live: set<TensorMemoryObj>, o: TensorMemoryObj)
    requires align > 0 && Canonical(fl) && Aligned(fl, align) && Tiled(bufferSize, fl, live)
    requires o in live && o.phySize >= 0 && Alignment.Multiple(o.address, align)
    ensures var r := Insert(fl, o.Range());
      && (Canonical(r) <==> o.LeavesNoEmpty(fl))
      && Aligned(r, align) && Tiled(bufferSize, r, live - {o})
      && TotalSize(r) == TotalSize(fl) + o.phySize
  {
    if o.phySize == 0 {
      ZeroSizeInsert(fl, o.address);
    } else {
      LiveIsDisjoint(bufferSize, fl, live, o);
      InsertKeepsCanonical(fl, o.Range());
    }
    InsertKeepsAligned(fl, o.Range(), align);
    InsertKeepsTiled(bufferSize, fl, live, o);
    InsertCounts(fl, o.Range(), 0);
  }

  lemma LowestIsNotExhausted(fl: seq<Block>, start: int, n: int)
    requires LowestRun(fl, start, n)
    ensures !Exhausted(fl, n)
  {
    assert FreeRun(fl, start, n);
  }

  lemma NothingTaken(before: seq<Block>, after: seq<Block>, start: int)
    requires Canonical(before) && Canonical(after) && Without(after, before, Block(start, 0))
    ensures after == before
  {
    CanonicalIsUnique(after, before);
  }

  lemma InsertIsPlus(fl: seq<Block>, b: Block)
    requires Canonical(fl) && b.size >= 0
    ensures Plus(Insert(fl, b), fl, b)
  {
    forall x ensures InFree(Insert(fl, b), x) <==> InFree(fl, x) || b.Has(x) {
      InsertBytes(fl, b, x);
    }
  }

  // ----- freeing a batch -----

  ghost function Ranges(os: seq<TensorMemoryObj>): (r: seq<Block>)
    ensures |r| == |os| && forall i :: 0 <= i < |r| ==> r[i] == os[i].Range()
  {
    seq(|os|, i requires 0 <= i < |os| => os[i].Range())
  }

  ghost predicate Distinct(os: seq<TensorMemoryObj>) {
    forall i, j :: 0 <= i < j < |os| ==> os[i] != os[j]
  }

  ghost function Gone(live: set<TensorMemoryObj>, os: seq<TensorMemoryObj>): set<TensorMemoryObj> {
    live - set o | o in os
  }

  ghost predicate FreeableObjs(align: int, live: set<TensorMemoryObj>, os: seq<TensorMemoryObj>)
    requires align > 0
  {
    Distinct(os) && forall o :: o in os ==> o in live && o.phySize > 0 && Alignment.Multiple(o.address, align)
  }

  lemma GoneStep(live: set<TensorMemoryObj>, os: seq<TensorMemoryObj>)
    requires os != []
    ensures Gone(live, os) == Gone(live - {os[0]}, os[1..])
    ensures Ranges(os)[0] == os[0].Range() && Ranges(os)[1..] == Ranges(os[1..])
  {
    assert forall o :: o in os <==> o == os[0] || o in os[1..];
  }

  lemma NothingGone(live: set<TensorMemoryObj>, valid: set<TensorMemoryObj>)
    ensures Freshly([], valid) == [] && Ranges([]) == [] && Gone(live, []) == live
  {
  }

  /** Freeing distinct live objects one by one keeps everything `FreeKeeps` keeps. */
  lemma {:induction false} FreeAllKeeps(bufferSize: int, align: int, fl: seq<Block>,
                                        live: set<TensorMemoryObj>, os: seq<TensorMemoryObj>)
    requires align > 0 && Canonical(fl) && Aligned(fl, align) && Tiled(bufferSize, fl, live)
    requires FreeableObjs(align, live, os)
    ensures var r := InsertAll(fl, Ranges(os));
      && Canonical(r) && Aligned(r, align) && Tiled(bufferSize, r, Gone(live, os))
    ensures |Gone(live, os)| == |live| - |os|
    decreases |os|
  {
    if os == [] {
      assert Gone(live, os) == live;
    } else {
      GoneStep(live, os);
      FreeKeeps(bufferSize, align, fl, live, os[0]);
      FreeableRest(align, live, os);
      FreeAllKeeps(bufferSize, align, Insert(fl, os[0].Range()), live - {os[0]}, os[1..]);
    }
  }

  lemma FreeableRest(align: int, live: set<TensorMemoryObj>, os: seq<TensorMemoryObj>)
    requires align > 0 && FreeableObjs(align, live, os) && os != []
    ensures os[0] in live && os[0].phySize > 0 && Alignment.Multiple(os[0].address, align)
    ensures FreeableObjs(align, live - {os[0]}, os[1..])
  {
  }

  lemma TiledIsFreeable(bufferSize: int, align: int, fl: seq<Block>,
                        live: set<TensorMemoryObj>, os: seq<TensorMemoryObj>)
    requires align > 0 && Canonical(fl) && Aligned(fl, align) && Tiled(bufferSize, fl, live)
    requires FreeableObjs(align, live, os)
    ensures Freeable(fl, Ranges(os))
  {
    FreeAllKeeps(bufferSize, align, fl, live, os);
    var r := InsertAll(fl, Ranges(os));
    forall x ensures Mult(fl, x) + Mult(Ranges(os), x) <= 1 {
      InsertAllCounts(fl, Ranges(os), x);
      assert Mult(r, x) + |Holders(Gone(live, os), x)| == if 0 <= x < bufferSize then 1 else 0;
    }
  }

  /** What returning the runs of a well-seeded batch does to the allocator's state. */
  lemma BatchKeeps(bufferSize: int, align: int, fl: seq<Block>, live: set<TensorMemoryObj>,
                   os: seq<TensorMemoryObj>, seed: int)
    requires align > 0 && Canonical(fl) && Aligned(fl, align) && Tiled(bufferSize, fl, live)
    requires FreeableObjs(align, live, os) && !Misseeded(seed, Ranges(os))
    ensures var runs := ScanAll(seed, Ranges(os)).Runs(); var r := InsertAll(fl, runs);
      && Freeable(fl, runs) && r == InsertAll(fl, Ranges(os))
      && Canonical(r) && Aligned(r, align) && Tiled(bufferSize, r, Gone(live, os))
      && TotalSize(r) == TotalSize(fl) + TotalSize(Ranges(os))
    ensures |Gone(live, os)| == |live| - |os|
  {
    FreeAllKeeps(bufferSize, align, fl, live, os);
    TiledIsFreeable(bufferSize, align, fl, live, os);
    WellSeededRefines(fl, seed, Ranges(os));
    InsertAllCounts(fl, Ranges(os), 0);
  }

  lemma {:induction false} ChainCounts(objs: seq<TensorMemoryObj>, start: int, end: int, x: int)
    requires Chain(objs, start, end) && forall o :: o in objs ==> o.phySize > 0
    ensures Mult(Ranges(objs), x) == Ind(Block(start, end - start), x) && start <= end
    decreases |objs|
  {
    if objs != [] {
      var front, last := objs[..|objs| - 1], objs[|objs| - 1];
      ChainCounts(front, start, last.address, x);
      MultSnoc(Ranges(objs), x);
      assert Ranges(objs)[..|objs| - 1] == Ranges(front);
    }
  }

  /** Freeing a batch that was just allocated restores the identical list: the objects cut out of a free
      run, one after the other, are accepted by the scan and their bytes fill the gap they left. */
  lemma BatchRoundTrip(before: seq<Block>, after: seq<Block>, objs: seq<TensorMemoryObj>, start: int, end: int)
    requires Canonical(before) && Canonical(after) && objs != [] && Chain(objs, start, end)
    requires forall o :: o in objs ==> o.phySize > 0
    requires FreeRun(before, start, end - start) && Without(after, before, Block(start, end - start))
    ensures Freeable(after, Ranges(objs)) && !Misseeded(objs[0].address, Ranges(objs))
    ensures InsertAll(after, ScanAll(objs[0].address, Ranges(objs)).Runs()) == before
  {
    var gap := Block(start, end - start);
    forall x ensures Mult(after, x) + Mult(Ranges(objs), x) <= 1 {
      ChainCounts(objs, start, end, x);
      MultIsMembership(after, x);
    }
    WellSeededRefines(after, objs[0].address, Ranges(objs));
    InsertAllKeepsCanonical(after, Ranges(objs));
    var r := InsertAll(after, Ranges(objs));
    forall x ensures InFree(r, x) <==> InFree(before, x) {
      CanonicalIsNonNegative(after);
      InsertAllCounts(after, Ranges(objs), x);
      ChainCounts(objs, start, end, x);
      MultIsMembership(r, x);
      MultIsMembership(after, x);
      assert gap.Has(x) ==> InFree(before, x);
    }
    CanonicalIsUnique(r, before);
  }

  lemma CanonicalIsNonNegative(fl: seq<Block>)
    requires Canonical(fl)
    ensures NonNegative(fl)
  {
  }

  ghost function ValidOf(objs: seq<TensorMemoryObj>): set<TensorMemoryObj>
    reads objs
  {
    set o | o in objs && o.valid
  }

  /** The objects still valid after the first `i` objects of a batch have been freed. */
  ghost function Pending(objs: seq<TensorMemoryObj>, valid: set<TensorMemoryObj>, i: nat): set<TensorMemoryObj>
    requires i <= |objs|
  {
    if i == 0 then valid else Pending(objs, valid, i - 1) - {objs[i - 1]}
  }

  /** Those of the first `i` objects that are valid when the loop reaches them: repeats are not. */
  ghost function FreshUpTo(objs: seq<TensorMemoryObj>, valid: set<TensorMemoryObj>, i: nat): seq<TensorMemoryObj>
    requires i <= |objs|
  {
    if i == 0 then []
    else if objs[i - 1] in Pending(objs, valid, i - 1) then FreshUpTo(objs, valid, i - 1) + [objs[i - 1]]
    else FreshUpTo(objs, valid, i - 1)
  }

  ghost function Freshly(objs: seq<TensorMemoryObj>, valid: set<TensorMemoryObj>): seq<TensorMemoryObj> {
    FreshUpTo(objs, valid, |objs|)
  }

  lemma FreshlySnoc(os: seq<TensorMemoryObj>, o: TensorMemoryObj)
    ensures Ranges(os + [o]) == Ranges(os) + [o.Range()]
    ensures Ranges(os + [o])[..|os|] == Ranges(os)
    ensures TotalSize(Ranges(os + [o])) == TotalSize(Ranges(os)) + o.phySize
  {
    MultConcat(Ranges(os), [o.Range()], 0);
    MultSmall(o.Range(), o.Range(), 0);
  }

  /** The variables of the scan over a batch show the scan's value. */
  ghost predicate Represents(scan: Scan, open: FreeBlock?, cur: int, runs: seq<FreeBlock>)
    reads runs, if open == null then {} else {open}
  {
    && cur == scan.cur && Shows(runs, scan.closed) && NoRepeats(runs)
    && (open == null <==> scan.run.NoRun?)
    && (open != null ==> open !in runs && scan.run == Open(Block(open.start, open.size)))
  }

  /** The scan's variables after the objects `taken` of a batch. */
  ghost predicate Scanned(seed: int, taken: seq<TensorMemoryObj>, open: FreeBlock?, cur: int, runs: seq<FreeBlock>,
                          numValid: int, totalFreed: int)
    reads runs, if open == null then {} else {open}
  {
    && Represents(ScanAll(seed, Ranges(taken)), open, cur, runs)
    && numValid == |taken| && totalFreed == TotalSize(Ranges(taken))
  }

  lemma {:induction false} FreshUpToMembers(objs: seq<TensorMemoryObj>, valid: set<TensorMemoryObj>, i: nat)
    requires i <= |objs|
    ensures forall o :: o in FreshUpTo(objs, valid, i) ==> o in objs && o in valid && o !in Pending(objs, valid, i)
    ensures forall o :: o in valid && o !in Pending(objs, valid, i) ==> o in FreshUpTo(objs, valid, i)
    ensures forall k :: 0 <= k < i ==> objs[k] !in Pending(objs, valid, i)
    ensures Distinct(FreshUpTo(objs, valid, i)) && Pending(objs, valid, i) <= valid
  {
    if i > 0 { FreshUpToMembers(objs, valid, i - 1); }
  }

  lemma NonePending(objs: seq<TensorMemoryObj>, valid: set<TensorMemoryObj>)
    ensures forall o :: o in objs ==> o !in Pending(objs, valid, |objs|)
  {
    FreshUpToMembers(objs, valid, |objs|);
  }

  lemma ScanStarts(seed: int)
    ensures Scanned(seed, [], null, seed, [], 0, 0)
  {
  }

  /** A batch whose first object is valid is well seeded. */
  lemma FirstValidSeedsWell(objs: seq<TensorMemoryObj>)
    requires objs != [] && objs[0].valid
    ensures !Misseeded(objs[0].address, Ranges(Freshly(objs, ValidOf(objs))))
  {
    FreshStartsWith(objs, ValidOf(objs), |objs|);
  }

  lemma {:induction false} FreshStartsWith(objs: seq<TensorMemoryObj>, valid: set<TensorMemoryObj>, i: nat)
    requires 0 < i <= |objs| && objs[0] in valid
    ensures FreshUpTo(objs, valid, i) != [] && FreshUpTo(objs, valid, i)[0] == objs[0]
  {
    if i > 1 {
      FreshStartsWith(objs, valid, i - 1);
    } else {
      assert FreshUpTo(objs, valid, 0) == [] && Pending(objs, valid, 0) == valid;
    }
  }

  /** Of a batch without repeats whose objects are all valid every object is freed. */
  lemma AllAreFresh(objs: seq<TensorMemoryObj>)
    requires Distinct(objs) && forall o :: o in objs ==> o.valid
    ensures Freshly(objs, ValidOf(objs)) == objs
  {
    AllFreshUpTo(objs, ValidOf(objs), |objs|);
  }

  lemma {:induction false} AllFreshUpTo(objs: seq<TensorMemoryObj>, valid: set<TensorMemoryObj>, i: nat)
    requires Distinct(objs) && i <= |objs| && forall o :: o in objs ==> o in valid
    ensures FreshUpTo(objs, valid, i) == objs[..i]
    ensures forall k :: i <= k < |objs| ==> objs[k] in Pending(objs, valid, i)
  {
    if i > 0 {
      AllFreshUpTo(objs, valid, i - 1);
      assert objs[..i] == objs[..i - 1] + [objs[i - 1]];
    }
  }

  /** Objects that lie one after the other are different objects. */
  lemma {:induction false} ChainIsDistinct(objs: seq<TensorMemoryObj>, start: int, end: int)
    requires Chain(objs, start, end) && forall o :: o in objs ==> o.phySize > 0
    ensures Distinct(objs) && start <= end && forall o :: o in objs ==> o.address < end
    decreases |objs|
  {
    if objs != [] {
      var front, last := objs[..|objs| - 1], objs[|objs| - 1];
      ChainIsDistinct(front, start, last.address);
      forall i, j | 0 <= i < j < |objs| ensures objs[i] != objs[j] {
        assert objs[i] in front && (j < |front| ==> objs[j] == front[j] && objs[i] == front[i]);
      }
    }
  }

  /** Allocating bytes and returning them restores the list exactly when there was something to return. */
  lemma RoundTrip(before: seq<Block>, after: seq<Block>, b: Block)
    requires Canonical(before) && Canonical(after) && b.size >= 0
    requires FreeRun(before, b.start, b.size) && Without(after, before, b)
    ensures Insert(after, b) == before <==> b.size > 0
  {
    var r := Insert(after, b);
    if b.size > 0 {
      InsertKeepsCanonical(after, b);
      forall x ensures InFree(r, x) <==> InFree(before, x) { InsertBytes(after, b, x); }
      CanonicalIsUnique(r, before);
    } else {
      CanonicalIsUnique(after, before);
      ZeroSizeInsert(after, b.start);
      NoEndInside(before, b.start);
    }
  }

  lemma NoEndInside(fl: seq<Block>, a: int)
    requires Canonical(fl) && InFree(fl, a)
    ensures !EndsAt(fl, a)
  {
  }

  lemma FreshlyMembers(objs: seq<TensorMemoryObj>, valid: set<TensorMemoryObj>)
    ensures forall o :: o in Freshly(objs, valid) ==> o in objs && o in valid
    ensures forall o :: o in objs && o in valid ==> o in Freshly(objs, valid)
    ensures Distinct(Freshly(objs, valid))
  {
    FreshUpToMembers(objs, valid, |objs|);
  }

  class TensorMemoryAllocator {
    const bufferSize: nat
    const alignBytes: Alignment.PowerOfTwo
    const monitor: StatsMonitor
    const list: SortedBlocks
    var numActiveAllocations: int
    var totalAllocatedSize: int
    ghost var live: set<TensorMemoryObj>

    ghost predicate Owns(o: TensorMemoryObj)
      reads o
    {
      && o.valid && o.parent == this && o.phySize >= 0
      && Alignment.Multiple(o.address, alignBytes) && Alignment.Multiple(o.phySize, alignBytes)
    }

    /** Free blocks and live objects tile the buffer. */
    ghost predicate Tidy()
      reads this, list, list.nodes, live
    {
      && list.Valid() && Aligned(list.blocks, alignBytes)
      && (forall o :: o in live ==> Owns(o))
      && Tiled(bufferSize, list.blocks, live)
    }

    ghost predicate Sound()
      reads this, list, list.nodes, live
    {
      Tidy() && Canonical(list.blocks)
    }

    /** Valid, except that the list may hold empty blocks. */
    ghost predicate Loose()
      reads this, list, list.nodes, live
    {
      Tidy() && CountersRight()
    }

    ghost predicate Valid()
      reads this, list, list.nodes, live
    {
      Sound() && CountersRight()
    }

    /** The bytes `b` have been taken out of the list and are nobody's yet. */
    ghost predicate Carved(b: Block)
      reads this, list, list.nodes, live
    {
      && list.Valid() && Canonical(list.blocks) && Aligned(list.blocks, alignBytes)
      && (forall o :: o in live ==> Owns(o))
      && TiledBut(bufferSize, list.blocks, live, b) && Alignment.Multiple(b.start, alignBytes)
      && numActiveAllocations == |live|
      && totalAllocatedSize + b.size == bufferSize - TotalSize(list.blocks)
    }

    ghost predicate CountersRight()
      reads this, list
    {
      numActiveAllocations == |live| && totalAllocatedSize == bufferSize - TotalSize(list.blocks)
    }

    /** Both counters equal the live sums. */
    lemma CountersAreLiveSums()
      requires Valid()
      ensures numActiveAllocations == |live| && totalAllocatedSize == SumSizes(live)
    {
      forall o | o in live ensures o.phySize >= 0 { assert Owns(o); }
      LiveSizes(bufferSize, list.blocks, live);
    }

    /** The whole buffer is one free block. An empty buffer leaves an empty block in the list. */
    constructor (bufferSize: nat, alignBytes: Alignment.PowerOfTwo, monitor: StatsMonitor)
      ensures this.bufferSize == bufferSize && this.alignBytes == alignBytes
      ensures list.blocks == [Block(0, bufferSize)] && live == {} && fresh(list) && fresh(list.nodes)
      ensures bufferSize > 0 ==> Valid()
      ensures bufferSize == 0 ==> !Canonical(list.blocks)
    {
      this.bufferSize, this.alignBytes, this.monitor := bufferSize, alignBytes, monitor;
      list := new SortedBlocks(0, bufferSize);
      numActiveAllocations, totalAllocatedSize := 0, 0;
      live := {};
      new;
      WholeBuffer(bufferSize, alignBytes);
    }

    // ----- allocation -----

    /** Takes the lowest free run of `n` bytes out of the list, or fails when there is none. */
    method Carve(n: int) returns (start: int, ok: bool)
      requires Valid() && n >= 0 && Alignment.Multiple(n, alignBytes)
      modifies list
      ensures fresh(list.nodes - old(list.nodes))
      ensures !ok ==> Valid() && list.blocks == old(list.blocks) && Exhausted(old(list.blocks), n)
      ensures ok ==> Carved(Block(start, n))
      ensures ok ==> LowestRun(old(list.blocks), start, n) && Without(list.blocks, old(list.blocks), Block(start, n))
    {
      ghost var before, k := list.blocks, 0;
      start, ok, k := list.TakeFirstFit(n);
      if ok {
        TakeKeepsCanonical(before, k, n);
        TakeKeepsAligned(before, k, n, alignBytes);
        TakeCounts(before, k, n, 0);
        TakeLeaves(bufferSize, before, live, k, n);
      }
    }

    /** Creates an object at the front of the bytes `b` taken out of the list. */
    method Emit(ghost held: set<TensorMemoryObj>, ghost b: Block, address: int, unit: int, rawSize: int)
      returns (o: TensorMemoryObj)
      requires Alignment.Multiple(address, alignBytes) && Alignment.Multiple(unit, alignBytes)
      requires TiledBut(bufferSize, list.blocks, held, b) && b.start == address && 0 <= unit <= b.size
      ensures fresh(o) && o.address == address && o.phySize == unit && o.rawSize == rawSize
      ensures o.refCount == 1 && o.pinCount == 0 && Owns(o)
      ensures TiledBut(bufferSize, list.blocks, held + {o}, Block(address + unit, b.size - unit))
      ensures Alignment.Multiple(address + unit, alignBytes)
    {
      Alignment.MultiplesAdd(address, unit, alignBytes);
      o := new TensorMemoryObj(address, unit, rawSize, this, monitor);
      PlaceOne(bufferSize, list.blocks, held, b, o);
    }

    /** Counts the bytes taken and makes one object of them. */
    method Place(start: int, n: int, rawSize: int) returns (o: TensorMemoryObj)
      requires Carved(Block(start, n)) && n >= 0 && Alignment.Multiple(n, alignBytes)
      modifies this
      ensures Valid() && fresh(o) && live == old(live) + {o}
      ensures o.address == start && o.phySize == n && o.rawSize == rawSize
      ensures o.valid && o.refCount == 1 && o.pinCount == 0
    {
      totalAllocatedSize := totalAllocatedSize + n;
      numActiveAllocations := numActiveAllocations + 1;
      o := Emit(live, Block(start, n), start, n, rawSize);
      live := live + {o};
      NothingLeft(bufferSize, list.blocks, live, Block(start + n, 0));
    }

    /** A lowest-address object of the least aligned size, or null exactly when no free byte
        starts a free run of that size. */
    method Allocate(rawSize: nat) returns (r: TensorMemoryObj?)
      requires Valid()
      modifies this, list
      ensures Valid()
      ensures fresh(list.nodes - old(list.nodes))
      ensures var n := Alignment.PhysicalSize(rawSize, alignBytes);
        && Alignment.LeastMultiple(rawSize, alignBytes, n)
        && (r == null <==> Exhausted(old(list.blocks), n))
        && (r == null ==> list.blocks == old(list.blocks) && live == old(live))
        && (r != null ==>
          && fresh(r) && live == old(live) + {r} && r.phySize == n && r.rawSize == rawSize
          && r.valid && r.refCount == 1 && r.pinCount == 0
          && LowestRun(old(list.blocks), r.address, n) && Without(list.blocks, old(list.blocks), r.Range()))
    {
      Alignment.PhysicalSizeIsLeast(rawSize, alignBytes);
      var n := Alignment.PhysicalSize(rawSize, alignBytes);
      var start, ok := Carve(n);
      if !ok {
        return null;
      }
      r := Place(start, n, rawSize);
    }

    /** Cuts `total` bytes from `start` on into `batchSize` objects of `unit` bytes. */
    method EmitBatch(start: int, unit: int, batchSize: nat, ghost total: int)
      returns (objs: seq<TensorMemoryObj>, ghost held: set<TensorMemoryObj>)
      requires Alignment.Multiple(start, alignBytes) && Alignment.Multiple(unit, alignBytes) && unit >= 0
      requires total == Scaled(unit, batchSize) && TiledBut(bufferSize, list.blocks, live, Block(start, total))
      ensures |objs| == batchSize && forall p :: p in held <==> p in live || p in objs
      ensures forall o :: o in objs ==> fresh(o) && o.JustMade(unit) && Owns(o)
      ensures Tiled(bufferSize, list.blocks, held)
      ensures |held| == |live| + batchSize
      ensures Chain(objs, start, start + total)
    {
      objs, held := [], live;
      var tempStart := start;
      ghost var rest := total;
      for i := 0 to batchSize
        invariant |objs| == i && rest == Scaled(unit, batchSize - i)
        invariant tempStart + rest == start + total && Alignment.Multiple(tempStart, alignBytes)
        invariant TiledBut(bufferSize, list.blocks, held, Block(tempStart, rest))
        invariant forall p :: p in held <==> p in live || p in objs
        invariant forall o :: o in objs ==> fresh(o) && o.JustMade(unit) && Owns(o)
        invariant |held| == |live| + i
        invariant Chain(objs, start, tempStart)
      {
        ScaledNonNegative(unit, batchSize - i - 1);
        var o := Emit(held, Block(tempStart, rest), tempStart, unit, unit);
        ChainSnoc(objs, start, o);
        HeldSnoc(live, held, objs, o);
        tempStart := tempStart + unit;
        objs := objs + [o];
        held := held + {o};
        rest := rest - unit;
      }
      NothingLeft(bufferSize, list.blocks, held, Block(tempStart, rest));
    }

    /** Counts the bytes taken and makes `batchSize` objects of `unit` bytes of them. */
    method PlaceChain(start: int, unit: int, batchSize: nat, total: int) returns (objs: seq<TensorMemoryObj>)
      requires Carved(Block(start, total)) && total == Scaled(unit, batchSize)
      requires unit >= 0 && Alignment.Multiple(unit, alignBytes)
      modifies this
      ensures Valid()
      ensures |objs| == batchSize && (forall p :: p in live <==> p in old(live) || p in objs)
      ensures forall o :: o in objs ==> fresh(o) && o.JustMade(unit)
      ensures Chain(objs, start, start + total)
    {
      totalAllocatedSize := totalAllocatedSize + total;
      numActiveAllocations := numActiveAllocations + batchSize;
      ghost var held;
      objs, held := EmitBatch(start, unit, batchSize, total);
      live := held;
    }

    /** Adjacent equal-sized objects at the lowest address where the whole batch fits. A batch of none
        fails in dividing what it found, and changes nothing. */
    method BatchedAllocate(rawSize: nat, batchSize: nat)
      returns (ok: bool, objs: seq<TensorMemoryObj>, failure: Option<Failure>)
      requires Valid()
      modifies this, list
      ensures Valid()
      ensures fresh(list.nodes - old(list.nodes))
      ensures Alignment.LeastMultiple(rawSize, alignBytes, Alignment.PhysicalSize(rawSize, alignBytes))
      ensures var total := Alignment.PhysicalSize(rawSize, alignBytes) * batchSize;
        && (ok <==> batchSize > 0 && !Exhausted(old(list.blocks), total))
        && failure == (if batchSize == 0 && !Exhausted(old(list.blocks), total) then Some(RuntimeError) else None)
      ensures !ok ==> list.blocks == old(list.blocks) && live == old(live) && objs == []
      ensures ok ==> |objs| == batchSize && forall p :: p in live <==> p in old(live) || p in objs
      ensures var unit := Alignment.PhysicalSize(rawSize, alignBytes);
        ok ==>
          && LowestRun(old(list.blocks), objs[0].address, unit * batchSize)
          && Without(list.blocks, old(list.blocks), Block(objs[0].address, unit * batchSize))
          && (forall o :: o in objs ==> fresh(o) && o.JustMade(unit))
          && Chain(objs, objs[0].address, objs[0].address + unit * batchSize)
    {
      Alignment.PhysicalSizeIsLeast(rawSize, alignBytes);
      var unit := Alignment.PhysicalSize(rawSize, alignBytes);
      ScaledIsProduct(unit, batchSize);
      ScaledMultiple(unit, batchSize, alignBytes);
      ScaledNonNegative(unit, batchSize);
      var total := unit * batchSize;
      var start: int;
      start, ok := Carve(total);
      objs, failure := [], None;
      if ok {
        LowestIsNotExhausted(old(list.blocks), start, total);
        objs := PlaceChain(start, unit, batchSize, total);
        if batchSize == 0 {
          NothingTaken(old(list.blocks), list.blocks, start);
          ok, failure := false, Some(RuntimeError);
        } else {
          ChainFirst(objs, start, start + total);
        }
      }
    }

    // ----- freeing -----

    method FreeLive(o: TensorMemoryObj)
      requires Valid() && o in live
      modifies this, list, list.nodes, o`valid
      ensures Loose() && !o.valid && live == old(live) - {o}
      ensures Canonical(list.blocks) <==> o.LeavesNoEmpty(old(list.blocks))
      ensures fresh(list.nodes - old(list.nodes))
      ensures list.blocks == Insert(old(list.blocks), o.Range())
    {
      FreeKeeps(bufferSize, alignBytes, list.blocks, live, o);
      list.Return(o.address, o.phySize);
      o.valid := false;
      totalAllocatedSize := totalAllocatedSize - o.phySize;
      numActiveAllocations := numActiveAllocations - 1;
      live := live - {o};
    }

    /** Returns a live object's bytes to the list; an invalid object is ignored. The allocator stays valid
        exactly when no empty block is left behind. */
    method Free(o: TensorMemoryObj)
      requires Valid() && (o.valid ==> o in live)
      modifies this, list, list.nodes, o`valid
      ensures Loose() && !o.valid
      ensures Valid() <==> (old(o.valid) ==> o.LeavesNoEmpty(old(list.blocks)))
      ensures fresh(list.nodes - old(list.nodes))
      ensures old(o.valid) ==> live == old(live) - {o} && Plus(list.blocks, old(list.blocks), o.Range())
      ensures old(o.valid) ==> list.blocks == Insert(old(list.blocks), o.Range())
      ensures !old(o.valid) ==> live == old(live) && list.blocks == old(list.blocks)
    {
      if o.valid {
        InsertIsPlus(list.blocks, o.Range());
        FreeLive(o);
      }
    }

    /** Adds one block to the open run, or closes the run and opens another. */
    static method ExtendRun(start: int, size: int, open: FreeBlock?, cur: int, runs: seq<FreeBlock>, ghost scan: Scan)
      returns (open': FreeBlock, cur': int, runs': seq<FreeBlock>)
      requires Represents(scan, open, cur, runs)
      modifies if open == null then {} else {open}
      ensures Represents(scan.Step(Block(start, size)), open', cur', runs')
      ensures open' == open || fresh(open')
      ensures runs' == runs || (open != null && runs' == runs + [open])
    {
      runs' := runs;
      if open == null {
        open' := new FreeBlock(start, size);
        cur' := cur + size;
      } else if cur == start {
        open' := open;
        open.size := open.size + size;
        cur' := cur + size;
      } else {
        runs' := runs + [open];
        open' := new FreeBlock(start, size);
        cur' := start + size;
      }
    }

    static method TakeObject(o: TensorMemoryObj, open: FreeBlock?, cur: int, runs: seq<FreeBlock>,
                             numValid: int, totalFreed: int, ghost seed: int, ghost taken: seq<TensorMemoryObj>)
      returns (open': FreeBlock, cur': int, runs': seq<FreeBlock>, numValid': int, totalFreed': int)
      requires Scanned(seed, taken, open, cur, runs, numValid, totalFreed)
      modifies if open == null then {} else {open}
      ensures Scanned(seed, taken + [o], open', cur', runs', numValid', totalFreed')
      ensures open' == open || fresh(open')
      ensures runs' == runs || (open != null && runs' == runs + [open])
    {
      FreshlySnoc(taken, o);
      numValid', totalFreed' := numValid + 1, totalFreed + o.phySize;
      open', cur', runs' := ExtendRun(o.address, o.phySize, open, cur, runs, ScanAll(seed, Ranges(taken)));
    }

    /** First loop of a batched free: invalidates the valid objects and merges the ones whose
        addresses follow on into runs. */
    static method CollectRuns(objs: seq<TensorMemoryObj>, ghost firstValid: seq<TensorMemoryObj>)
      returns (runs: seq<FreeBlock>, numValid: int, totalFreed: int, ghost pool: set<FreeBlock>)
      requires objs != [] && firstValid == Freshly(objs, ValidOf(objs))
      modifies objs`valid
      ensures forall o :: o in objs ==> !o.valid
      ensures pool == (set f | f in runs) && fresh(pool)
      ensures NoRepeats(runs)
      ensures Shows(runs, ScanAll(objs[0].address, Ranges(firstValid)).Runs())
      ensures numValid == |firstValid| && totalFreed == TotalSize(Ranges(firstValid))
    {
      var newFreeBlock: FreeBlock? := null;
      var currStart := objs[0].address;
      runs, numValid, totalFreed := [], 0, 0;
      ghost var was := ValidOf(objs);
      ghost var pending, taken := was, FreshUpTo(objs, was, 0);
      ScanStarts(currStart);
      for i := 0 to |objs|
        invariant taken == FreshUpTo(objs, was, i) && pending == Pending(objs, was, i)
        invariant forall o :: o in objs ==> (o.valid <==> o in pending)
        invariant Scanned(objs[0].address, taken, newFreeBlock, currStart, runs, numValid, totalFreed)
        invariant newFreeBlock != null ==> fresh(newFreeBlock)
        invariant forall f :: f in runs ==> fresh(f)
      {
        var o := objs[i];
        if o.valid {
          o.valid := false;
          newFreeBlock, currStart, runs, numValid, totalFreed :=
            TakeObject(o, newFreeBlock, currStart, runs, numValid, totalFreed, objs[0].address, taken);
          taken := taken + [o];
        }
        pending := pending - {o};
      }
      NonePending(objs, was);
      runs := CloseRun(newFreeBlock, runs, ScanAll(objs[0].address, Ranges(taken)), currStart);
      pool := set f | f in runs;
    }

    static method CloseRun(open: FreeBlock?, runs: seq<FreeBlock>, ghost scan: Scan, ghost cur: int)
      returns (runs': seq<FreeBlock>)
      requires Represents(scan, open, cur, runs)
      ensures Shows(runs', scan.Runs()) && NoRepeats(runs')
      ensures forall f :: f in runs' ==> f == open || f in runs
    {
      runs' := if open == null then runs else runs + [open];
    }

    /** The freshly valid objects of a batch are live, and only they leave the live set. */
    lemma TakenIsFreeable(objs: seq<TensorMemoryObj>, valid: set<TensorMemoryObj>)
      requires Sound() && valid == ValidOf(objs)
      requires forall o :: o in objs && o.valid ==> o in live && o.phySize > 0
      ensures FreeableObjs(alignBytes, live, Freshly(objs, valid))
      ensures forall o :: o in Gone(live, Freshly(objs, valid)) ==> o in live && o !in objs
    {
      FreshlyMembers(objs, valid);
      var taken := Freshly(objs, valid);
      forall o | o in taken ensures o in live && o.phySize > 0 && Alignment.Multiple(o.address, alignBytes) {
        assert o in valid;
        assert o in live && Owns(o);
      }
      forall o | o in Gone(live, taken) ensures o !in objs {
        assert Owns(o);
      }
    }

    /** A batch whose valid objects are live and whose scan does not start at a wrong address. */
    ghost predicate MayFree(objs: seq<TensorMemoryObj>)
      reads this, objs
    {
      && (forall o :: o in objs && o.valid ==> o in live && o.phySize > 0)
      && (objs != [] ==> !Misseeded(objs[0].address, Ranges(Freshly(objs, ValidOf(objs)))))
    }

    /** What `Settle` needs to know about a batch before its objects are invalidated. */
    lemma BatchFacts(objs: seq<TensorMemoryObj>, taken: seq<TensorMemoryObj>, vals: seq<Block>)
      requires Valid() && objs != [] && MayFree(objs)
      requires taken == Freshly(objs, ValidOf(objs)) && vals == ScanAll(objs[0].address, Ranges(taken)).Runs()
      ensures Freeable(list.blocks, vals) && InsertAll(list.blocks, vals) == InsertAll(list.blocks, Ranges(taken))
      ensures var r := InsertAll(list.blocks, vals);
        Canonical(r) && Aligned(r, alignBytes) && Tiled(bufferSize, r, Gone(live, taken))
        && TotalSize(r) == TotalSize(list.blocks) + TotalSize(Ranges(taken))
      ensures |Gone(live, taken)| == |live| - |taken|
      ensures forall o :: o in Gone(live, taken) ==> Owns(o) && o !in objs
    {
      TakenIsFreeable(objs, ValidOf(objs));
      BatchKeeps(bufferSize, alignBytes, list.blocks, live, taken, objs[0].address);
    }

    /** What is ready to be settled: the runs show blocks that may be returned, and leave `rest` live. */
    ghost predicate Ready(runs: seq<FreeBlock>, numValid: int, totalFreed: int, vals: seq<Block>,
                          rest: set<TensorMemoryObj>, pool: set<FreeBlock>)
      reads this, list, list.nodes, rest, runs
    {
      && list.Valid() && Canonical(list.blocks) && Shows(runs, vals) && NoRepeats(runs)
      && pool == (set f | f in runs) && pool !! list.nodes && Freeable(list.blocks, vals)
      && (var r := InsertAll(list.blocks, vals);
          && Canonical(r) && Aligned(r, alignBytes) && Tiled(bufferSize, r, rest)
          && totalAllocatedSize - totalFreed == bufferSize - TotalSize(r))
      && (forall o :: o in rest ==> Owns(o))
      && numActiveAllocations - numValid == |rest|
    }

    /** Puts the runs `vals` back, leaves the objects `rest` live, and settles the counters. */
    method Settle(runs: seq<FreeBlock>, numValid: int, totalFreed: int, updateStats: bool,
                  ghost vals: seq<Block>, ghost rest: set<TensorMemoryObj>, ghost pool: set<FreeBlock>)
      requires Ready(runs, numValid, totalFreed, vals, rest, pool)
      modifies this, list, list.nodes, pool
      ensures Sound() && list.blocks == InsertAll(old(list.blocks), vals) && live == rest
      ensures list.nodes == old(list.nodes) + pool
      ensures updateStats ==> CountersRight()
      ensures !updateStats ==> numActiveAllocations == old(numActiveAllocations)
                               && totalAllocatedSize == old(totalAllocatedSize)
    {
      list.ReturnRuns(runs, vals, pool);
      live := rest;
      if updateStats {
        totalAllocatedSize := totalAllocatedSize - totalFreed;
        numActiveAllocations := numActiveAllocations - numValid;
      }
    }

    /** Invalidates the batch and merges it into runs. */
    method Collect(objs: seq<TensorMemoryObj>, ghost taken: seq<TensorMemoryObj>, ghost vals: seq<Block>)
      returns (runs: seq<FreeBlock>, numValid: int, totalFreed: int, ghost pool: set<FreeBlock>)
      requires Valid() && objs != [] && MayFree(objs)
      requires taken == Freshly(objs, ValidOf(objs)) && vals == ScanAll(objs[0].address, Ranges(taken)).Runs()
      modifies objs`valid
      ensures Ready(runs, numValid, totalFreed, vals, Gone(live, taken), pool) && fresh(pool)
      ensures InsertAll(list.blocks, vals) == InsertAll(list.blocks, Ranges(taken))
      ensures forall o :: o in objs ==> !o.valid
    {
      BatchFacts(objs, taken, vals);
      runs, numValid, totalFreed, pool := CollectRuns(objs, taken);
    }

    method FreeBatch(objs: seq<TensorMemoryObj>, updateStats: bool, ghost taken: seq<TensorMemoryObj>)
      requires Valid() && objs != [] && MayFree(objs) && taken == Freshly(objs, ValidOf(objs))
      modifies this, list, list.nodes, objs`valid
      ensures Sound() && forall o :: o in objs ==> !o.valid
      ensures fresh(list.nodes - old(list.nodes))
      ensures list.blocks == InsertAll(old(list.blocks), Ranges(taken)) && live == Gone(old(live), taken)
      ensures updateStats ==> CountersRight()
      ensures !updateStats ==> numActiveAllocations == old(numActiveAllocations)
                               && totalAllocatedSize == old(totalAllocatedSize)
    {
      ghost var vals := ScanAll(objs[0].address, Ranges(taken)).Runs();
      var runs, numValid, totalFreed, pool := Collect(objs, taken, vals);
      Settle(runs, numValid, totalFreed, updateStats, vals, Gone(live, taken), pool);
    }

    /** Frees a batch: the list, the validity flags and (when asked for) the counters end as if
        the valid objects had been freed one by one, provided the scan is not mis-seeded. An empty batch
        has no first object. */
    method BatchedFree(objs: seq<TensorMemoryObj>, updateStats: bool) returns (failure: Option<Failure>)
      requires Valid() && MayFree(objs)
      modifies this, list, list.nodes, objs`valid
      ensures failure == if objs == [] then Some(IndexError) else None
      ensures Sound() && forall o :: o in objs ==> !o.valid
      ensures fresh(list.nodes - old(list.nodes))
      ensures var taken := Freshly(objs, old(ValidOf(objs)));
        list.blocks == InsertAll(old(list.blocks), Ranges(taken)) && live == Gone(old(live), taken)
      ensures updateStats ==> CountersRight()
      ensures !updateStats ==> numActiveAllocations == old(numActiveAllocations)
                               && totalAllocatedSize == old(totalAllocatedSize)
    {
      if objs == [] {
        NothingGone(live, ValidOf(objs));
        return Some(IndexError);
      }
      FreeBatch(objs, updateStats, Freshly(objs, ValidOf(objs)));
      return None;
    }

    // ----- the allocator's own check -----

    /** True exactly when free and allocated bytes add up and no neighbours could be merged. */
    method Memcheck() returns (clear: bool)
      requires list.Valid()
      ensures clear <==> TotalSize(list.blocks) + totalAllocatedSize == bufferSize
                         && forall i :: 0 < i < |list.blocks| ==> !list.blocks[i - 1].CanBeCoalesced(list.blocks[i])
      ensures Valid() ==> clear
    {
      var totalFreeSize, coalesced := list.Inspect();
      clear := totalFreeSize + totalAllocatedSize == bufferSize && coalesced;
    }
  }

  // ----- round trips -----

  /** Allocating an object and freeing it leaves the allocator as it was, except that an empty object
      leaves an empty block. */
  method AllocateThenFree(allocator: TensorMemoryAllocator, rawSize: nat) returns (ok: bool)
    requires allocator.Valid()
    modifies allocator, allocator.list, allocator.list.nodes
    ensures allocator.Loose() && allocator.live == old(allocator.live)
    ensures ok <==> !Exhausted(old(allocator.list.blocks), Alignment.PhysicalSize(rawSize, allocator.alignBytes))
    ensures allocator.list.blocks == old(allocator.list.blocks) <==> !ok || rawSize > 0
  {
    ghost var before := allocator.list.blocks;
    Alignment.PhysicalSizeIsLeast(rawSize, allocator.alignBytes);
    var o := allocator.Allocate(rawSize);
    ok := o != null;
    if ok {
      SizeIsZero(rawSize, allocator.alignBytes);
      RoundTrip(before, allocator.list.blocks, o.Range());
      allocator.Free(o);
    }
  }

  lemma SizeIsZero(rawSize: nat, align: Alignment.PowerOfTwo)
    ensures Alignment.PhysicalSize(rawSize, align) == 0 <==> rawSize == 0
    ensures Alignment.PhysicalSize(rawSize, align) >= 0
  {
    Alignment.PhysicalSizeIsLeast(rawSize, align);
  }

  /** A chain of live objects may be freed, and all of them are. */
  lemma ChainMayBeFreed(allocator: TensorMemoryAllocator, objs: seq<TensorMemoryObj>, start: int, end: int)
    requires Chain(objs, start, end) && objs != []
    requires forall o :: o in objs ==> o in allocator.live && o.valid && o.phySize > 0
    ensures allocator.MayFree(objs) && Freshly(objs, ValidOf(objs)) == objs
  {
    ChainIsDistinct(objs, start, end);
    AllAreFresh(objs);
    FirstValidSeedsWell(objs);
  }

  /** Frees a batch that was cut out of a free run of the list `before`. */
  method FreeChain(allocator: TensorMemoryAllocator, objs: seq<TensorMemoryObj>,
                   ghost before: seq<Block>, ghost start: int, ghost end: int)
    requires allocator.Valid() && Canonical(before) && objs != [] && Chain(objs, start, end)
    requires forall o :: o in objs ==> o in allocator.live && o.valid && o.phySize > 0
    requires FreeRun(before, start, end - start) && Without(allocator.list.blocks, before, Block(start, end - start))
    modifies allocator, allocator.list, allocator.list.nodes, objs`valid
    ensures allocator.Valid() && allocator.list.blocks == before
    ensures allocator.live == Gone(old(allocator.live), objs)
  {
    ChainMayBeFreed(allocator, objs, start, end);
    ChainFirst(objs, start, end);
    BatchRoundTrip(before, allocator.list.blocks, objs, start, end);
    WellSeededRefines(allocator.list.blocks, start, Ranges(objs));
    var failure := allocator.BatchedFree(objs, true);
  }

  lemma FreshAreGone(live: set<TensorMemoryObj>, held: set<TensorMemoryObj>, objs: seq<TensorMemoryObj>)
    requires (forall p :: p in held <==> p in live || p in objs) && forall o :: o in objs ==> o !in live
    ensures Gone(held, objs) == live
  {
  }

  /** Allocating a batch of objects that are not empty and freeing the batch leaves the allocator as it was. */
  method BatchedAllocateThenFree(allocator: TensorMemoryAllocator, rawSize: nat, batchSize: nat) returns (ok: bool)
    requires allocator.Valid() && rawSize > 0
    modifies allocator, allocator.list, allocator.list.nodes
    ensures allocator.Valid() && allocator.live == old(allocator.live)
    ensures allocator.list.blocks == old(allocator.list.blocks)
  {
    ghost var before, unit := allocator.list.blocks, Alignment.PhysicalSize(rawSize, allocator.alignBytes);
    SizeIsZero(rawSize, allocator.alignBytes);
    var objs, failure;
    ok, objs, failure := allocator.BatchedAllocate(rawSize, batchSize);
    if ok {
      forall i | 0 <= i < |objs| ensures fresh(objs[i]) {
        assert objs[i] in objs;
      }
      FreshAreGone(old(allocator.live), allocator.live, objs);
      FreeChain(allocator, objs, before, objs[0].address, objs[0].address + unit * batchSize);
    }
  }
}
