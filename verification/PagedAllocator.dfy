/** The paged allocator: a deque of fixed-size pages. Pages keep their identity for ever; an
    allocation with other shapes only narrows the page's view of the buffer for a while. */
module PagedAllocator {
  import opened Basics
  import opened Outcomes
  import opened Scaling

  /** The requested shapes, and the bytes they take with their element types. */
  datatype Layout = Layout(shapes: seq<seq<nat>>, bytes: nat)

  /** The first `len` bytes of a page of the buffer. */
  datatype View = View(page: nat, len: nat) {
    function Narrow(n: nat): View { if n < len then View(page, n) else this }
  }

  class PageObj {
    const address: nat
    var layout: Layout
    var view: View
    var valid: bool
    var refCount: int

    constructor (address: nat, layout: Layout, view: View)
      ensures this.address == address && this.layout == layout && this.view == view && valid && refCount == 1
    {
      this.address, this.layout, this.view, valid, refCount := address, layout, view, true, 1;
    }
  }

  // ----- each page is free once or live, never both -----

  /** Every page of `pages` is either in the deque, exactly once, or live; nothing else is. */
  ghost predicate Partition<P>(deque: seq<P>, live: set<P>, pages: set<P>) {
    multiset(deque) + multiset(live) == multiset(pages)
  }

  lemma PartitionPop<P>(deque: seq<P>, live: set<P>, pages: set<P>)
    requires Partition(deque, live, pages) && deque != []
    ensures deque[0] in pages && deque[0] !in live
    ensures Partition(deque[1..], live + {deque[0]}, pages)
  {
    assert deque == [deque[0]] + deque[1..];
    assert multiset(deque)[deque[0]] >= 1 && multiset(pages)[deque[0]] <= 1;
    assert multiset(live + {deque[0]}) == multiset(live) + multiset{deque[0]};
  }

  /** Returning a page keeps the partition exactly when the page is live: this is what the client
      owes, since a page is not invalidated when it is freed and freeing it again goes unnoticed. */
  lemma ReturnKeepsPartition<P>(deque: seq<P>, live: set<P>, pages: set<P>, p: P)
    requires Partition(deque, live, pages)
    ensures Partition(deque + [p], live - {p}, pages) <==> p in live
  {
    if p in live {
      assert live == live - {p} + {p};
      assert multiset(live) == multiset(live - {p}) + multiset{p};
    } else {
      assert live - {p} == live;
      assert |multiset(deque + [p]) + multiset(live)| == |multiset(pages)| + 1;
    }
  }

  lemma PartitionCount<P>(deque: seq<P>, live: set<P>, pages: set<P>)
    requires Partition(deque, live, pages)
    ensures |deque| + |live| == |pages|
  {
    assert |multiset(deque) + multiset(live)| == |multiset(pages)|;
  }

  lemma PartitionMembers<P>(deque: seq<P>, live: set<P>, pages: set<P>)
    requires Partition(deque, live, pages)
    ensures live <= pages
    ensures forall p :: p in deque ==> p in pages && p !in live
    ensures forall p :: p in pages ==> p in live || p in deque
  {
    forall p | p in live ensures p in pages {
      assert multiset(live)[p] == 1;
      assert p in multiset(pages);
    }
    forall p | p in deque ensures p in pages && p !in live {
      assert multiset(deque)[p] >= 1 && (multiset(deque) + multiset(live))[p] <= 1;
      assert p in multiset(pages);
    }
    forall p | p in pages ensures p in live || p in deque {
      assert p in multiset(deque) + multiset(live);
    }
  }

  /** Pages with the numbers 0, 1, 2, ... are distinct, so a deque of all of them is a partition. */
  lemma {:induction false} AllFree<P>(page: seq<P>)
    requires forall i, j :: 0 <= i < j < |page| ==> page[i] != page[j]
    ensures Partition(page, {}, set p | p in page)
    decreases |page|
  {
    if page != [] {
      var front, last := page[..|page| - 1], page[|page| - 1];
      AllFree(front);
      assert last !in front;
      assert multiset((set p | p in front) + {last}) == multiset(set p | p in front) + multiset{last};
      assert page == front + [last];
      assert (set p | p in page) == (set p | p in front) + {last};
    }
  }

  /** A deque that takes part in a partition holds no page twice. */
  lemma NoRepeats<P>(deque: seq<P>, live: set<P>, pages: set<P>, i: nat, j: nat)
    requires Partition(deque, live, pages) && i < j < |deque|
    ensures deque[i] != deque[j]
  {
    assert deque == deque[..j] + [deque[j]] + deque[j + 1..];
    assert deque[i] in deque[..j];
    assert multiset(deque)[deque[j]] <= multiset(pages)[deque[j]] <= 1;
  }

  /** Of the first `i` pages of a batch, those to `keep`, in order. */
  function Keep<P(==)>(batch: seq<P>, keep: set<P>, i: nat): seq<P>
    requires i <= |batch|
  {
    if i == 0 then []
    else if batch[i - 1] in keep then Keep(batch, keep, i - 1) + [batch[i - 1]]
    else Keep(batch, keep, i - 1)
  }

  /** The pages still live when the first `i` of the batch have gone back. */
  function StillLive<P(==)>(live: set<P>, batch: seq<P>, keep: set<P>, i: nat): set<P>
    requires i <= |batch|
  {
    if i == 0 then live
    else if batch[i - 1] in keep then StillLive(live, batch, keep, i - 1) - {batch[i - 1]}
    else StillLive(live, batch, keep, i - 1)
  }

  /** The client frees each live page once: a valid page of the batch is live when its turn comes. */
  ghost predicate EachOnce<P>(live: set<P>, batch: seq<P>, keep: set<P>) {
    forall i :: 0 <= i < |batch| ==> InTurn(live, batch, keep, i)
  }

  ghost predicate InTurn<P>(live: set<P>, batch: seq<P>, keep: set<P>, i: nat)
    requires i < |batch|
  {
    batch[i] in keep ==> batch[i] in StillLive(live, batch, keep, i)
  }

  /** `Keep` skips something exactly when not all of the batch is to be kept. */
  lemma {:induction false} KeepAll<P>(batch: seq<P>, keep: set<P>, i: nat)
    requires i <= |batch|
    ensures |Keep(batch, keep, i)| <= i
    ensures |Keep(batch, keep, i)| == i <==> forall k :: 0 <= k < i ==> batch[k] in keep
    ensures (forall k :: 0 <= k < i ==> batch[k] in keep) ==> Keep(batch, keep, i) == batch[..i]
  {
    if i > 0 {
      KeepAll(batch, keep, i - 1);
      assert batch[..i] == batch[..i - 1] + [batch[i - 1]];
    }
  }

  lemma {:induction false} StillLiveMembers<P>(live: set<P>, batch: seq<P>, keep: set<P>, i: nat)
    requires i <= |batch|
    ensures StillLive(live, batch, keep, i) <= live
    ensures forall k :: 0 <= k < i && batch[k] in keep ==> batch[k] !in StillLive(live, batch, keep, i)
    ensures forall p :: p in live && p !in keep ==> p in StillLive(live, batch, keep, i)
  {
    if i > 0 {
      StillLiveMembers(live, batch, keep, i - 1);
    }
  }

  /** The first `i` pages of the batch are live at their turns. */
  ghost predicate InTurns<P>(live: set<P>, batch: seq<P>, keep: set<P>, i: nat)
    requires i <= |batch|
  {
    i == 0 || (InTurns(live, batch, keep, i - 1) && InTurn(live, batch, keep, i - 1))
  }

  lemma {:induction false} InTurnsMeaning<P>(live: set<P>, batch: seq<P>, keep: set<P>, i: nat)
    requires i <= |batch|
    ensures InTurns(live, batch, keep, i) <==> forall k :: 0 <= k < i ==> InTurn(live, batch, keep, k)
  {
    if i > 0 { InTurnsMeaning(live, batch, keep, i - 1); }
  }

  /** Freeing a batch takes at most as many pages from the live ones as the batch has, and as many exactly
      when every page of it is kept and live at its turn. */
  lemma {:induction false} BatchEffect<P>(live: set<P>, batch: seq<P>, keep: set<P>, i: nat)
    requires i <= |batch|
    ensures var left := |StillLive(live, batch, keep, i)|;
      && left >= |live| - |Keep(batch, keep, i)| >= |live| - i
      && (left == |live| - i <==> |Keep(batch, keep, i)| == i && InTurns(live, batch, keep, i))
  {
    if i > 0 {
      var before, p := StillLive(live, batch, keep, i - 1), batch[i - 1];
      BatchEffect(live, batch, keep, i - 1);
      OneLess(before, p);
    }
  }

  lemma OneLess<P>(s: set<P>, p: P)
    ensures |s - {p}| == |s| - if p in s then 1 else 0
  {
    assert p !in s ==> s - {p} == s;
  }

  lemma LeftLive<P>(live: set<P>, batch: seq<P>, keep: set<P>)
    requires forall p :: p in keep ==> p in batch
    ensures StillLive(live, batch, keep, |batch|) == live - keep
  {
    StillLiveMembers(live, batch, keep, |batch|);
  }

  /** Freeing a batch keeps free and live pages a partition exactly when the client frees each live page
      once. */
  lemma {:induction false} BatchKeepsPartition<P>(deque: seq<P>, live: set<P>, pages: set<P>, batch: seq<P>, keep: set<P>, i: nat)
    requires Partition(deque, live, pages) && i <= |batch|
    ensures var free, left := deque + Keep(batch, keep, i), StillLive(live, batch, keep, i);
      && |free| + |left| >= |pages|
      && (Partition(free, left, pages) <==> InTurns(live, batch, keep, i))
      && (Partition(free, left, pages) <==> |free| + |left| == |pages|)
  {
    PartitionCount(deque, live, pages);
    if i == 0 {
      assert deque + [] == deque;
    } else {
      var free, left, p := deque + Keep(batch, keep, i - 1), StillLive(live, batch, keep, i - 1), batch[i - 1];
      BatchKeepsPartition(deque, live, pages, batch, keep, i - 1);
      if p in keep {
        Regroup(deque, Keep(batch, keep, i - 1), [p]);
        OneBack(free, left, pages, p);
      }
    }
  }

  lemma OneBack<P>(deque: seq<P>, live: set<P>, pages: set<P>, p: P)
    requires |deque| + |live| >= |pages|
    requires Partition(deque, live, pages) <==> |deque| + |live| == |pages|
    ensures var free, left := deque + [p], live - {p};
      && |free| + |left| >= |pages|
      && (Partition(free, left, pages) <==> |free| + |left| == |pages|)
      && (Partition(free, left, pages) <==> Partition(deque, live, pages) && p in live)
  {
    if Partition(deque, live, pages) {
      ReturnKeepsPartition(deque, live, pages, p);
    }
    if Partition(deque + [p], live - {p}, pages) {
      PartitionCount(deque + [p], live - {p}, pages);
    }
    assert p !in live ==> live - {p} == live;
  }

  /** Pages just taken out of the deque may all go back. */
  lemma {:induction false} TakenMayReturn<P>(deque: seq<P>, live: set<P>, pages: set<P>, batch: seq<P>, i: nat)
    requires Partition(deque, live, pages) && batch == deque && i <= |batch|
    ensures var all := set p | p in batch;
      && (forall j :: i <= j < |batch| ==> batch[j] in StillLive(live + all, batch, all, i))
      && live <= StillLive(live + all, batch, all, i)
  {
    PartitionMembers(deque, live, pages);
    if i > 0 {
      TakenMayReturn(deque, live, pages, batch, i - 1);
      forall j | i <= j < |batch| ensures batch[j] != batch[i - 1] {
        NoRepeats(deque, live, pages, i - 1, j);
      }
    }
  }

  lemma TakenEachOnce<P>(deque: seq<P>, live: set<P>, pages: set<P>)
    requires Partition(deque, live, pages)
    ensures var all := set p | p in deque; EachOnce(live + all, deque, all) && live + all - all == live
  {
    PartitionMembers(deque, live, pages);
    var all := set p | p in deque;
    forall i | 0 <= i < |deque| ensures InTurn(live + all, deque, all, i) {
      TakenMayReturn(deque, live, pages, deque, i);
    }
  }

  /** Counters lowered by the length of a batch are right exactly when that many pages were freed. */
  lemma Totals(unit: nat, live: nat, left: nat, n: nat)
    requires left <= live
    ensures live - n == left && Scaled(unit, live) - unit * n == Scaled(unit, left) <==> live - left == n
  {
    ScaledIsProduct(unit, n);
    ScaledSub(unit, live, live - left);
  }

  lemma BatchFacts<P>(deque: seq<P>, live: set<P>, pages: set<P>, batch: seq<P>, keep: set<P>)
    requires Partition(deque, live, pages) && forall p :: p in keep ==> p in batch
    ensures var left := StillLive(live, batch, keep, |batch|);
      && left == live - keep && |left| <= |live|
      && (Partition(deque + Keep(batch, keep, |batch|), left, pages) <==> EachOnce(live, batch, keep))
      && (|live| - |left| == |batch| <==> EachOnce(live, batch, keep) && forall k :: 0 <= k < |batch| ==> batch[k] in keep)
  {
    LeftLive(live, batch, keep);
    KeepAll(batch, keep, |batch|);
    InTurnsMeaning(live, batch, keep, |batch|);
    BatchEffect(live, batch, keep, |batch|);
    BatchKeepsPartition(deque, live, pages, batch, keep, |batch|);
    SmallerSet(live - keep, live);
  }

  lemma {:induction false} SmallerSet<P>(a: set<P>, b: set<P>)
    requires a <= b
    ensures |a| <= |b|
  {
    assert b == a + (b - a);
  }

  lemma WholePages(bytes: nat, bufferSize: nat)
    requires bytes > 0 && bufferSize % bytes == 0
    ensures Scaled(bytes, bufferSize / bytes) == bufferSize && Scaled(bytes, 1) == bytes
    ensures bufferSize > 0 ==> bufferSize / bytes > 0
  {
    ScaledIsProduct(bytes, bufferSize / bytes);
    ScaledIsProduct(bytes, 1);
  }

  class PagedTensorMemoryAllocator {
    const shapes: seq<seq<nat>>
    const alignBytes: nat
    const bufferSize: nat
    var freeBlocks: seq<PageObj>
    var numActiveAllocations: int
    var totalAllocatedSize: int
    ghost const page: seq<PageObj>
    ghost const pages: set<PageObj>
    ghost var live: set<PageObj>

    /** The size of a page's buffer. An empty buffer has one page all the same, without bytes. */
    function PageSize(): nat { if bufferSize == 0 then 0 else alignBytes }

    /** The page shows its own buffer: all of it for the allocator's own shapes, and for others as many of its
        first bytes as the layout takes, if it has them. */
    ghost predicate ShowsItself(p: PageObj, layout: Layout)
      reads p
    {
      && p.view.page == p.address
      && p.view.len == if layout.shapes == shapes || layout.bytes >= PageSize() then PageSize() else layout.bytes
    }

    /** Every free page shows its full buffer, and a live page what its layout leaves of it. */
    ghost predicate Views()
      reads this, pages
    {
      forall p :: p in pages ==>
        if p in live then ShowsItself(p, p.layout)
        else p.view == View(p.address, PageSize()) && p.valid
    }

    /** The page numbers are those of the buffer, each on one object. */
    ghost predicate Numbered() {
      && bufferSize == Scaled(alignBytes, |page|)
      && pages == (set p | p in page)
      && forall a :: 0 <= a < |page| ==> page[a].address == a
    }

    ghost predicate Sound()
      reads this, pages
    {
      Partition(freeBlocks, live, pages) && Views()
    }

    ghost predicate CountersRight()
      reads this
    {
      numActiveAllocations == |live| && totalAllocatedSize == Scaled(alignBytes, |live|)
    }

    ghost predicate Valid()
      reads this, pages
    {
      Sound() && CountersRight()
    }

    /** Every byte of the buffer lies in exactly one page, and that page is free or live, not both. */
    lemma ByteHasOnePage(x: nat) returns (p: PageObj)
      requires Numbered() && Sound() && x < bufferSize
      ensures p in pages && Covers(p, x) && (p in freeBlocks <==> p !in live)
      ensures forall q :: q in pages && Covers(q, x) ==> q == p
    {
      var a := UnitOf(x, alignBytes, |page|);
      p := page[a];
      PartitionMembers(freeBlocks, live, pages);
    }

    /** Byte `x` of the buffer is among those that page `p` shows. */
    ghost predicate Shown(p: PageObj, x: nat)
      reads p
    {
      Scaled(alignBytes, p.view.page) <= x < Scaled(alignBytes, p.view.page) + p.view.len
    }

    /** What a page shows lies in the buffer, is the page's own, and is shown by no other page. */
    lemma ShownByOnePage(p: PageObj, q: PageObj, x: nat)
      requires Numbered() && Sound() && p in pages && q in pages && Shown(p, x)
      ensures x < bufferSize && Covers(p, x)
      ensures Shown(q, x) ==> q == p
    {
      PartitionMembers(freeBlocks, live, pages);
      assert p == page[p.address] && q == page[q.address];
      ScaledOrder(alignBytes, p.address, |page|);
      if p.address < q.address {
        ScaledOrder(alignBytes, p.address, q.address);
      } else if q.address < p.address {
        ScaledOrder(alignBytes, q.address, p.address);
      }
    }

    /** Byte `x` of the buffer belongs to page `p`. */
    ghost predicate Covers(p: PageObj, x: nat) {
      Scaled(alignBytes, p.address) <= x < Scaled(alignBytes, p.address) + alignBytes
    }

    /** One page object for each page of the buffer. */
    constructor (shapes: seq<seq<nat>>, bytes: nat, bufferSize: nat)
      requires bytes > 0 && bufferSize % bytes == 0
      ensures Valid() && live == {} && fresh(pages) && freeBlocks == page
      ensures this.shapes == shapes && alignBytes == bytes && this.bufferSize == bufferSize
      ensures |page| == if bufferSize == 0 then 1 else bufferSize / bytes
      ensures Numbered() <==> bufferSize > 0
    {
      this.shapes, alignBytes, this.bufferSize := shapes, bytes, bufferSize;
      var pageCount := if bufferSize == 0 then 1 else bufferSize / bytes;
      var size := if bufferSize == 0 then 0 else bytes;
      var deque: seq<PageObj> := [];
      var idx := 0;
      while idx < pageCount
        invariant 0 <= idx == |deque| <= pageCount
        invariant forall a :: 0 <= a < idx ==>
          fresh(deque[a]) && deque[a].address == a && deque[a].view == View(a, size) && deque[a].valid
      {
        var next := new PageObj(idx, Layout(shapes, bytes), View(idx, size));
        deque := deque + [next];
        idx := idx + 1;
      }
      WholePages(bytes, bufferSize);
      AllFree(deque);
      freeBlocks, page, pages, live := deque, deque, set p | p in deque, {};
      numActiveAllocations, totalAllocatedSize := 0, 0;
    }

    /** A page size of zero, or one that does not divide the buffer, is refused. */
    static method Create(shapes: seq<seq<nat>>, bytes: nat, bufferSize: nat)
      returns (r: PagedTensorMemoryAllocator?, failure: Option<Failure>)
      ensures failure == if bytes == 0 then Some(ZeroDivisionError)
                         else if bufferSize % bytes != 0 then Some(AssertionError) else None
      ensures r == null <==> failure.Some?
      ensures r != null ==>
        && r.Valid() && fresh(r) && fresh(r.pages) && r.live == {} && r.freeBlocks == r.page
        && |r.page| == (if bufferSize == 0 then 1 else bufferSize / bytes)
        && (r.Numbered() <==> bufferSize > 0)
    {
      if bytes == 0 {
        return null, Some(ZeroDivisionError);
      }
      if bufferSize % bytes != 0 {
        return null, Some(AssertionError);
      }
      r := new PagedTensorMemoryAllocator(shapes, bytes, bufferSize);
      failure := None;
    }

    /** Takes the oldest free page and gives it `layout`. */
    method Pop(layout: Layout) returns (page: PageObj)
      requires Sound() && freeBlocks != []
      modifies this`freeBlocks, this`live, pages
      ensures Sound() && page == old(freeBlocks[0]) && freeBlocks == old(freeBlocks[1..])
      ensures page in pages && page !in old(live) && live == old(live) + {page}
      ensures Holds(page, layout)
      ensures forall p :: p in pages && p != page ==> unchanged(p)
    {
      page := freeBlocks[0];
      PartitionPop(freeBlocks, live, pages);
      freeBlocks := freeBlocks[1..];
      page.layout, page.refCount := layout, 1;
      if layout.shapes != shapes {
        page.view := page.view.Narrow(layout.bytes);
      }
      live := live + {page};
    }

    /** Fails exactly when no page is free. */
    method Allocate(layout: Layout) returns (r: PageObj?)
      requires Valid()
      modifies this, pages
      ensures Valid()
      ensures r == null <==> old(freeBlocks) == []
      ensures r == null ==> freeBlocks == old(freeBlocks) && live == old(live)
      ensures r != null ==>
        && r == old(freeBlocks)[0] && freeBlocks == old(freeBlocks)[1..]
        && r !in old(live) && live == old(live) + {r}
        && r.layout == layout && r.refCount == 1
        && r.view == View(r.address, if layout.shapes == shapes || layout.bytes >= PageSize() then PageSize() else layout.bytes)
      ensures forall p :: p in pages && p != r ==> unchanged(p)
    {
      if freeBlocks == [] {
        return null;
      }
      r := Pop(layout);
      numActiveAllocations := numActiveAllocations + 1;
      totalAllocatedSize := totalAllocatedSize + alignBytes;
    }

    /** Gives the page its full buffer back and appends it to the deque. */
    method Push(page: PageObj)
      requires Views() && page.valid && page in pages
      modifies this`freeBlocks, this`live, page`view
      ensures Views() && freeBlocks == old(freeBlocks) + [page] && live == old(live) - {page}
    {
      if page.layout.shapes != shapes {
        page.view := View(page.address, PageSize());
      }
      freeBlocks := freeBlocks + [page];
      live := live - {page};
    }

    /** Frees a page; an invalid one is left alone. Whether the page is live is not checked: the allocator
        stays valid exactly when it is. */
    method Free(page: PageObj)
      requires Valid() && page in pages
      modifies this, page`view
      ensures Views()
      ensures !page.valid ==> unchanged(this) && unchanged(page)
      ensures page.valid ==> freeBlocks == old(freeBlocks) + [page] && live == old(live) - {page}
      ensures page.valid ==> (Partition(freeBlocks, live, pages) <==> page in old(live))
      ensures Valid() <==> (page.valid ==> page in old(live))
    {
      if !page.valid {
        return;
      }
      ReturnKeepsPartition(freeBlocks, live, pages, page);
      Push(page);
      totalAllocatedSize := totalAllocatedSize - alignBytes;
      numActiveAllocations := numActiveAllocations - 1;
    }

    ghost function ValidOf(objs: seq<PageObj>): set<PageObj>
      reads objs
    {
      set p | p in objs && p.valid
    }

    ghost predicate AllValid(objs: seq<PageObj>)
      reads objs
    {
      forall k :: 0 <= k < |objs| ==> objs[k].valid
    }

    lemma AllValidMeaning(objs: seq<PageObj>)
      ensures AllValid(objs) <==> forall k :: 0 <= k < |objs| ==> objs[k] in ValidOf(objs)
    {
    }

    /** Appends the valid pages of the batch in order. */
    method PushAll(objs: seq<PageObj>)
      requires Views() && forall k :: 0 <= k < |objs| ==> objs[k] in pages
      modifies this`freeBlocks, this`live, pages`view
      ensures Views() && freeBlocks == old(freeBlocks) + Keep(objs, old(ValidOf(objs)), |objs|)
      ensures live == StillLive(old(live), objs, old(ValidOf(objs)), |objs|)
      ensures forall p :: p in old(live) && p in live ==> unchanged(p)
    {
      ghost var keep := ValidOf(objs);
      var i := 0;
      while i < |objs|
        invariant 0 <= i <= |objs| && Views()
        invariant freeBlocks == old(freeBlocks) + Keep(objs, keep, i)
        invariant live == StillLive(old(live), objs, keep, i)
        invariant live <= old(live) && forall p :: p in old(live) && p in live ==> unchanged(p)
      {
        if objs[i].valid {
          Push(objs[i]);
        }
        i := i + 1;
      }
    }

    /** Lowers the counters by the length of a batch. */
    method Uncount(n: nat, ghost before: nat)
      requires |live| <= before
      modifies this`numActiveAllocations, this`totalAllocatedSize
      ensures numActiveAllocations == old(numActiveAllocations) - n
      ensures totalAllocatedSize == old(totalAllocatedSize) - Scaled(alignBytes, n)
      ensures old(numActiveAllocations == before && totalAllocatedSize == Scaled(alignBytes, before)) ==>
        (CountersRight() <==> before - |live| == n)
    {
      ScaledIsProduct(alignBytes, n);
      totalAllocatedSize := totalAllocatedSize - alignBytes * n;
      numActiveAllocations := numActiveAllocations - n;
      Totals(alignBytes, before, |live|, n);
    }

    /** Returns the valid pages of a batch. */
    method PushBatch(objs: seq<PageObj>)
      requires Sound() && forall k :: 0 <= k < |objs| ==> objs[k] in pages
      modifies this`freeBlocks, this`live, pages`view
      ensures Views() && freeBlocks == old(freeBlocks) + Keep(objs, old(ValidOf(objs)), |objs|)
      ensures live == old(live) - old(ValidOf(objs)) && |live| <= |old(live)|
      ensures Partition(freeBlocks, live, pages) <==> EachOnce(old(live), objs, old(ValidOf(objs)))
      ensures |old(live)| - |live| == |objs| <==> EachOnce(old(live), objs, old(ValidOf(objs))) && old(AllValid(objs))
      ensures forall p :: p in old(live) && p in live ==> unchanged(p)
    {
      BatchFacts(freeBlocks, live, pages, objs, ValidOf(objs));
      AllValidMeaning(objs);
      PushAll(objs);
    }

    /** Frees a batch. The free and the live pages stay a partition exactly when each valid page of the batch
        is live at its turn. The counters go down by the length of the batch, so they stay right exactly
        when moreover every page of it is valid. */
    method BatchedFree(objs: seq<PageObj>, updateStats: bool)
      requires Sound() && forall k :: 0 <= k < |objs| ==> objs[k] in pages
      modifies this, pages`view
      ensures Views() && freeBlocks == old(freeBlocks) + Keep(objs, old(ValidOf(objs)), |objs|)
      ensures live == old(live) - old(ValidOf(objs))
      ensures Partition(freeBlocks, live, pages) <==> EachOnce(old(live), objs, old(ValidOf(objs)))
      ensures updateStats && old(CountersRight()) ==>
        (CountersRight() <==> EachOnce(old(live), objs, old(ValidOf(objs))) && old(AllValid(objs)))
      ensures numActiveAllocations == old(numActiveAllocations) - if updateStats then |objs| else 0
      ensures totalAllocatedSize == old(totalAllocatedSize) - if updateStats then Scaled(alignBytes, |objs|) else 0
      ensures forall p :: p in old(live) && p in live ==> unchanged(p)
    {
      PushBatch(objs);
      if updateStats {
        Uncount(|objs|, old(|live|));
      }
    }

    /** Takes pages in deque order until there are `batchSize` of them or none is left. */
    method PopUpTo(layout: Layout, batchSize: nat) returns (objs: seq<PageObj>)
      requires Sound()
      modifies this`freeBlocks, this`live, pages
      ensures Sound() && |objs| == if batchSize <= |old(freeBlocks)| then batchSize else |old(freeBlocks)|
      ensures objs == old(freeBlocks)[..|objs|] && freeBlocks == old(freeBlocks)[|objs|..]
      ensures live == old(live) + set p | p in objs
      ensures forall k :: 0 <= k < |objs| ==> Holds(objs[k], layout) && objs[k] !in old(live)
      ensures forall p :: p in old(live) ==> unchanged(p)
    {
      ghost var before := freeBlocks;
      objs := [];
      while |objs| < batchSize && freeBlocks != []
        invariant Sound() && |objs| <= batchSize && |objs| <= |before|
        invariant objs == before[..|objs|] && freeBlocks == before[|objs|..]
        invariant live == old(live) + set p | p in objs
        invariant forall k :: 0 <= k < |objs| ==> objs[k] in live && Holds(objs[k], layout) && objs[k] !in old(live)
        invariant old(live) <= live && forall p :: p in old(live) ==> unchanged(p)
      {
        var page := Pop(layout);
        assert objs + [page] == before[..|objs| + 1];
        objs := objs + [page];
      }
    }

    /** A page of this allocator that holds `layout` and has one reference. */
    ghost predicate Holds(p: PageObj, layout: Layout)
      reads p
    {
      p in pages && p.valid && p.layout == layout && p.refCount == 1 && ShowsItself(p, layout)
    }

    /** Puts back pages that emptied the deque, without touching the counters. */
    method RollBack(objs: seq<PageObj>, ghost held: set<PageObj>)
      requires Sound() && Partition(objs, held, pages) && freeBlocks == []
      requires live == (held + set p | p in objs) && forall k :: 0 <= k < |objs| ==> objs[k].valid
      modifies this, pages`view
      ensures Sound() && freeBlocks == objs && live == held
      ensures forall p :: p in held ==> unchanged(p)
      ensures numActiveAllocations == old(numActiveAllocations) && totalAllocatedSize == old(totalAllocatedSize)
    {
      PartitionMembers(objs, held, pages);
      TakenEachOnce(objs, held, pages);
      assert ValidOf(objs) == set p | p in objs;
      KeepAll(objs, ValidOf(objs), |objs|);
      assert objs[..|objs|] == objs;
      BatchedFree(objs, false);
    }

    method CountBatch(n: nat)
      requires numActiveAllocations + n == |live|
      modifies this`numActiveAllocations, this`totalAllocatedSize
      ensures CountersRight()
    {
      numActiveAllocations := numActiveAllocations + n;
      totalAllocatedSize := numActiveAllocations * alignBytes;
      ScaledIsProduct(alignBytes, |live|);
    }

    /** `batchSize` pages in deque order, or, when there are too few, no change at all: the same
        pages are free, in the same order, with their full buffers, and the counters are the same. */
    method BatchedAllocate(layout: Layout, batchSize: nat) returns (objs: seq<PageObj>, ok: bool)
      requires Valid()
      modifies this, pages
      ensures Valid()
      ensures ok <==> batchSize <= |old(freeBlocks)|
      ensures !ok ==> freeBlocks == old(freeBlocks) && live == old(live)
      ensures !ok ==> numActiveAllocations == old(numActiveAllocations) && totalAllocatedSize == old(totalAllocatedSize)
      ensures ok ==> objs == old(freeBlocks)[..batchSize] && freeBlocks == old(freeBlocks)[batchSize..]
      ensures ok ==> live == old(live) + set p | p in objs
      ensures ok ==> forall k :: 0 <= k < |objs| ==> Holds(objs[k], layout) && objs[k] !in old(live)
      ensures forall p :: p in old(live) ==> unchanged(p)
    {
      ghost var before, held := freeBlocks, live;
      objs := PopUpTo(layout, batchSize);
      ok := |objs| == batchSize;
      if ok {
        assert |live| == |held| + batchSize by {
          PartitionCount(before, held, pages);
          PartitionCount(freeBlocks, live, pages);
        }
        CountBatch(batchSize);
      } else {
        assert objs == before;
        RollBack(objs, held);
      }
    }

    /** The free bytes and the allocated bytes make up the buffer. */
    method Memcheck() returns (ok: bool)
      requires Sound() && Numbered()
      ensures CountersRight() ==> ok
      ensures ok <==> totalAllocatedSize == Scaled(alignBytes, |live|)
    {
      var totalFreeSize := |freeBlocks| * alignBytes;
      AllFree(page);
      PartitionCount(page, {}, pages);
      PartitionCount(freeBlocks, live, pages);
      ScaledIsProduct(alignBytes, |freeBlocks|);
      ScaledAdd(alignBytes, |freeBlocks|, |live|);
      return totalFreeSize + totalAllocatedSize == bufferSize;
    }
  }
}
