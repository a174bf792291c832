/** The sorted list of free blocks, edited in place: block objects change their start and
    size, are taken out and put back. `blocks` is the list of their values. */
module ExplicitList {
  import opened FreeList

  class FreeBlock {
    var start: int
    var size: int

    constructor (start: int, size: int)
      ensures this.start == start && this.size == size
    {
      this.start := start;
      this.size := size;
    }
  }

  /** The values of the block objects. */
  ghost predicate Shows(list: seq<FreeBlock>, v: seq<Block>)
    reads list
  {
    && |v| == |list|
    && forall i :: 0 <= i < |list| ==> list[i].start == v[i].start && list[i].size == v[i].size
  }

  ghost predicate IsBisect(fl: seq<Block>, key: int, i: int) {
    && 0 <= i <= |fl|
    && (forall k :: 0 <= k < i ==> fl[k].start <= key)
    && (i < |fl| ==> key < fl[i].start)
  }

  /** Block `i` starts after the blocks before it and before the next one. */
  ghost predicate StrictAt(fl: seq<Block>, i: int) {
    && 0 <= i < |fl|
    && (forall k :: 0 <= k < i ==> fl[k].start < fl[i].start)
    && (i + 1 < |fl| ==> fl[i].start < fl[i + 1].start)
  }

  ghost predicate Strict(fl: seq<Block>) {
    forall i {:trigger StrictAt(fl, i)} :: 0 <= i < |fl| ==> StrictAt(fl, i)
  }

  lemma CanonicalIsStrict(fl: seq<Block>)
    requires Canonical(fl)
    ensures Strict(fl)
  {
    forall i | 0 <= i < |fl| ensures StrictAt(fl, i) {
      assert forall k :: 0 <= k < i ==> fl[k].End() < fl[i].start;
    }
  }

  /** Blocks with different starts are different objects. */
  lemma NoAlias(list: seq<FreeBlock>, fl: seq<Block>, i: nat)
    requires Shows(list, fl) && Strict(fl) && i < |list|
    ensures forall k :: 0 <= k < |list| && k != i ==> list[k] != list[i]
  {
    forall k | 0 <= k < |list| && k != i ensures list[k] != list[i] {
      assert StrictAt(fl, i) && StrictAt(fl, k);
    }
  }

  lemma BisectIs(fl: seq<Block>, key: int, i: int)
    requires IsBisect(fl, key, i)
    ensures BisectRight(fl, key) == i
  {
    assert forall k :: 0 <= k < BisectRight(fl, key) ==> fl[k].start <= key;
  }

  /** What is left of block `k` goes back to position `k`. */
  lemma RestFits(fl: seq<Block>, k: nat, n: int)
    requires k < |fl| && 0 <= n < fl[k].size && StrictAt(fl, k)
    requires k + 1 < |fl| ==> fl[k].End() < fl[k + 1].start
    ensures IsBisect(RemoveAt(fl, k), fl[k].start + n, k)
    ensures Splice(RemoveAt(fl, k), k, k, Block(fl[k].start + n, fl[k].size - n)) == Take(fl, k, n)
  {
  }

  function PutAt<T>(s: seq<T>, i: nat, x: T): seq<T>
    requires i <= |s|
  {
    s[..i] + [x] + s[i..]
  }

  lemma RemoveThenPut<T>(s: seq<T>, i: nat)
    requires i < |s|
    ensures PutAt(RemoveAt(s, i), i, s[i]) == s
  {
  }

  lemma PutAtMembers<T>(s: seq<T>, i: nat, x: T)
    requires i <= |s|
    ensures forall y :: y in PutAt(s, i, x) ==> y == x || y in s
  {
  }

  lemma RemovedIsGone<T>(s: seq<T>, i: nat)
    requires i < |s| && forall k :: 0 <= k < |s| && k != i ==> s[k] != s[i]
    ensures s[i] !in RemoveAt(s, i)
  {
    assert forall k :: i <= k < |RemoveAt(s, i)| ==> RemoveAt(s, i)[k] == s[k + 1];
  }

  lemma BisectSkip(fl: seq<Block>, key: int, i: nat)
    requires i < |fl| && IsBisect(fl, key, i) && StrictAt(fl, i)
    ensures IsBisect(RemoveAt(fl, i), key, i)
  {
  }

  /** Insertion, written as the in-place edits that perform it. */
  function Edited(fl: seq<Block>, b: Block, i: nat, mergePrev: bool, mergeSucc: bool): seq<Block>
    requires i <= |fl| && (mergePrev ==> i > 0) && (mergeSucc ==> i < |fl|)
  {
    if mergePrev && mergeSucc then
      RemoveAt(fl, i)[i - 1 := Block(fl[i - 1].start, fl[i - 1].size + (b.size + fl[i].size))]
    else if mergePrev then fl[i - 1 := Block(fl[i - 1].start, fl[i - 1].size + b.size)]
    else if mergeSucc then Splice(RemoveAt(fl, i), i, i, Block(fl[i].start - b.size, fl[i].size + b.size))
    else fl
  }

  lemma InsertByEdits(fl: seq<Block>, b: Block, i: nat, mergePrev: bool, mergeSucc: bool)
    requires i <= |fl|
    requires mergePrev <==> i > 0 && fl[i - 1].CanBeCoalesced(b)
    requires mergeSucc <==> i < |fl| && b.CanBeCoalesced(fl[i])
    ensures InsertAt(fl, b, i) ==
            if mergePrev || mergeSucc then Edited(fl, b, i, mergePrev, mergeSucc) else Splice(fl, i, i, b)
  {
    var e := Edited(fl, b, i, mergePrev, mergeSucc);
    if mergePrev && mergeSucc {
      assert e == Splice(fl, i - 1, i + 1, Block(fl[i - 1].start, fl[i - 1].size + (b.size + fl[i].size)));
    } else if mergePrev {
      assert e == Splice(fl, i - 1, i, Block(fl[i - 1].start, fl[i - 1].size + b.size));
    } else if mergeSucc {
      assert e == Splice(fl, i, i + 1, Block(fl[i].start - b.size, fl[i].size + b.size));
    }
  }

  ghost predicate NoRepeats(runs: seq<FreeBlock>) {
    forall i, j :: 0 <= i < j < |runs| ==> runs[i] != runs[j]
  }

  /** The first `j` runs have been added to the nodes and the others have not. */
  ghost predicate Passed(runs: seq<FreeBlock>, pool: set<FreeBlock>, before: set<FreeBlock>, now: set<FreeBlock>, j: nat) {
    && before <= now <= before + pool
    && (forall k :: 0 <= k < j && k < |runs| ==> runs[k] in now)
    && (forall k :: j <= k < |runs| ==> runs[k] !in now)
  }

  lemma NonePassed(runs: seq<FreeBlock>, pool: set<FreeBlock>, nodes: set<FreeBlock>)
    requires pool == (set f | f in runs) && pool !! nodes
    ensures Passed(runs, pool, nodes, nodes, 0)
  {
    assert forall k :: 0 <= k < |runs| ==> runs[k] in pool;
  }

  lemma OnePassed(runs: seq<FreeBlock>, pool: set<FreeBlock>, before: set<FreeBlock>, now: set<FreeBlock>, j: nat)
    requires j < |runs| && NoRepeats(runs) && pool == (set f | f in runs) && Passed(runs, pool, before, now, j)
    ensures runs[j] !in now && Passed(runs, pool, before, now + {runs[j]}, j + 1)
    ensures forall k :: j < k < |runs| ==> runs[k] != runs[j]
  {
    assert runs[j] in pool;
  }

  lemma AllPassed(runs: seq<FreeBlock>, pool: set<FreeBlock>, before: set<FreeBlock>, now: set<FreeBlock>)
    requires pool == (set f | f in runs) && Passed(runs, pool, before, now, |runs|)
    ensures now == before + pool
  {
    forall f | f in pool ensures f in now {
      var k :| 0 <= k < |runs| && runs[k] == f;
    }
  }

  class SortedBlocks {
    var items: seq<FreeBlock>
    ghost var blocks: seq<Block>
    ghost var nodes: set<FreeBlock>

    ghost predicate Valid()
      reads this, nodes
    {
      (forall f :: f in items ==> f in nodes) && Shows(items, blocks)
    }

    constructor (start: int, size: int)
      ensures Valid() && fresh(nodes) && blocks == [Block(start, size)]
    {
      var whole := new FreeBlock(start, size);
      items, blocks, nodes := [whole], [Block(start, size)], {whole};
    }

    method Bisect(key: int) returns (i: nat)
      requires Shows(items, blocks)
      ensures IsBisect(blocks, key, i)
    {
      i := 0;
      while i < |items| && items[i].start <= key
        invariant i <= |items|
        invariant forall k :: 0 <= k < i ==> blocks[k].start <= key
      {
        i := i + 1;
      }
    }

    /** Removal finds the block by its start and size, as equality of blocks does. */
    method RemoveBlock(b: FreeBlock, ghost i: nat)
      requires Shows(items, blocks)
      requires i < |items| && items[i] == b && StrictAt(blocks, i)
      modifies this`items, this`blocks
      ensures items == RemoveAt(old(items), i)
      ensures blocks == RemoveAt(old(blocks), i) && Shows(items, blocks)
    {
      var k := 0;
      while items[k].start != b.start || items[k].size != b.size
        invariant 0 <= k <= i
        decreases i - k
      {
        k := k + 1;
      }
      assert blocks[k] == blocks[i];
      items := items[..k] + items[k + 1..];
      blocks := RemoveAt(blocks, i);
    }

    method AddBlock(b: FreeBlock, ghost i: nat)
      requires Shows(items, blocks) && IsBisect(blocks, b.start, i)
      modifies this`items, this`blocks
      ensures items == PutAt(old(items), i, b)
      ensures blocks == Splice(old(blocks), i, i, Block(b.start, b.size)) && Shows(items, blocks)
    {
      var k := Bisect(b.start);
      BisectIs(blocks, b.start, i);
      BisectIs(blocks, b.start, k);
      items := items[..k] + [b] + items[k..];
      blocks := Splice(blocks, i, i, Block(b.start, b.size));
    }

    method Resize(b: FreeBlock, ghost i: nat, start: int, size: int)
      requires Shows(items, blocks) && i < |items| && items[i] == b
      requires forall k :: 0 <= k < |items| && k != i ==> items[k] != b
      modifies this`blocks, b`start, b`size
      ensures blocks == old(blocks)[i := Block(start, size)] && Shows(items, blocks)
    {
      b.start := start;
      b.size := size;
      blocks := blocks[i := Block(start, size)];
    }

    /** Both neighbours touch `curr`: the previous block takes everything. */
    method MergeBoth(curr: FreeBlock, prev: FreeBlock, succ: FreeBlock, ghost i: nat)
      requires curr != prev
      requires Shows(items, blocks) && 0 < i < |items| && StrictAt(blocks, i)
      requires forall k :: 0 <= k < |items| && k != i - 1 ==> items[k] != prev
      requires prev == items[i - 1] && succ == items[i]
      modifies this`items, this`blocks, prev`start, prev`size
      ensures items == RemoveAt(old(items), i)
      ensures blocks == Edited(old(blocks), Block(curr.start, curr.size), i, true, true)
      ensures Shows(items, blocks)
    {
      var size := prev.size + (curr.size + succ.size);
      RemoveBlock(succ, i);
      Resize(prev, i - 1, prev.start, size);
    }

    method MergeIntoPrev(curr: FreeBlock, prev: FreeBlock, ghost i: nat)
      requires Shows(items, blocks) && 0 < i <= |items| && prev == items[i - 1]
      requires curr != prev && forall k :: 0 <= k < |items| && k != i - 1 ==> items[k] != prev
      modifies this`blocks, prev`start, prev`size
      ensures blocks == Edited(old(blocks), Block(curr.start, curr.size), i, true, false)
      ensures Shows(items, blocks)
    {
      Resize(prev, i - 1, prev.start, prev.size + curr.size);
    }

    /** A block that is not in the list moves its start down. */
    method Regrow(b: FreeBlock, delta: int)
      requires Shows(items, blocks) && b !in items
      modifies b`start, b`size
      ensures b.start == old(b.start) - delta && b.size == old(b.size) + delta
      ensures Shows(items, blocks)
    {
      b.start := b.start - delta;
      b.size := b.size + delta;
    }

    /** The successor is taken out while its start changes, and comes back to the same place. */
    method MergeIntoSucc(curr: FreeBlock, succ: FreeBlock, ghost i: nat)
      requires Shows(items, blocks)
      requires i < |items| && succ == items[i] && StrictAt(blocks, i)
      requires forall k :: 0 <= k < |items| && k != i ==> items[k] != succ
      requires curr != succ && curr.start + curr.size == succ.start
      requires IsBisect(blocks, curr.start, i)
      modifies this`items, this`blocks, succ`start, succ`size
      ensures items == old(items)
      ensures blocks == Edited(old(blocks), Block(curr.start, curr.size), i, false, true)
      ensures Shows(items, blocks)
    {
      BisectSkip(blocks, curr.start, i);
      RemoveThenPut(items, i);
      RemovedIsGone(items, i);
      RemoveBlock(succ, i);
      Regrow(succ, curr.size);
      AddBlock(succ, i);
    }

    /** Merges `curr`, which is not in the list, with the neighbours that touch it. */
    method Coalesce(curr: FreeBlock, prev: FreeBlock?, succ: FreeBlock?, ghost i: nat)
      returns (mergePrev: bool, mergeSucc: bool)
      requires Shows(items, blocks) && curr !in items
      requires IsBisect(blocks, curr.start, i) && (i < |items| ==> StrictAt(blocks, i))
      requires prev == if i > 0 then items[i - 1] else null
      requires succ == if i < |items| then items[i] else null
      requires forall k :: 0 <= k < |items| && k != i - 1 ==> items[k] != prev
      requires forall k :: 0 <= k < |items| && k != i ==> items[k] != succ
      modifies this`items, this`blocks, items`start, items`size
      ensures mergePrev <==> i > 0 && old(blocks)[i - 1].CanBeCoalesced(Block(curr.start, curr.size))
      ensures mergeSucc <==> i < |old(blocks)| && Block(curr.start, curr.size).CanBeCoalesced(old(blocks)[i])
      ensures Shows(items, blocks)
      ensures items == old(items) ||
              (i < |old(items)| && items == RemoveAt(old(items), i))
      ensures !mergePrev && !mergeSucc ==> items == old(items)
      ensures blocks == Edited(old(blocks), Block(curr.start, curr.size), i, mergePrev, mergeSucc)
    {
      mergePrev := prev != null && prev.start + prev.size == curr.start;
      mergeSucc := succ != null && curr.start + curr.size == succ.start;
      if mergePrev && mergeSucc {
        MergeBoth(curr, prev, succ, i);
      } else if mergePrev {
        MergeIntoPrev(curr, prev, i);
      } else if mergeSucc {
        MergeIntoSucc(curr, succ, i);
      }
    }

    /** Coalesces a returned block with its neighbours, or adds it when nothing merged. */
    method CoalesceOrAdd(b: FreeBlock, prev: FreeBlock?, succ: FreeBlock?, ghost i: nat)
      requires Shows(items, blocks) && b !in items
      requires IsBisect(blocks, b.start, i) && (i < |items| ==> StrictAt(blocks, i))
      requires prev == if i > 0 then items[i - 1] else null
      requires succ == if i < |items| then items[i] else null
      requires forall k :: 0 <= k < |items| && k != i - 1 ==> items[k] != prev
      requires forall k :: 0 <= k < |items| && k != i ==> items[k] != succ
      modifies this`items, this`blocks, items`start, items`size
      ensures Shows(items, blocks)
      ensures forall f :: f in items ==> f == b || f in old(items)
      ensures blocks == InsertAt(old(blocks), Block(b.start, b.size), i)
    {
      ghost var before := blocks;
      var mergePrev, mergeSucc := Coalesce(b, prev, succ, i);
      InsertByEdits(before, Block(b.start, b.size), i, mergePrev, mergeSucc);
      if !mergePrev && !mergeSucc {
        PutAtMembers(items, i, b);
        AddBlock(b, i);
      }
    }

    /** Returns a block to the list: its neighbours are found by bisection. */
    method Reinsert(b: FreeBlock)
      requires Shows(items, blocks) && Strict(blocks) && b !in items
      modifies this`items, this`blocks, items`start, items`size
      ensures Shows(items, blocks)
      ensures forall f :: f in items ==> f == b || f in old(items)
      ensures blocks == Insert(old(blocks), Block(b.start, b.size))
    {
      var i := Bisect(b.start);
      var prev := if i > 0 then items[i - 1] else null;
      var succ := if i < |items| then items[i] else null;
      BisectIs(blocks, b.start, i);
      if i > 0 { NoAlias(items, blocks, i - 1); }
      if i < |items| { NoAlias(items, blocks, i); assert StrictAt(blocks, i); }
      CoalesceOrAdd(b, prev, succ, i);
    }

    /** The index of the first block of at least `n` bytes, or the length of the list. */
    method FindFit(n: int) returns (k: nat)
      requires Shows(items, blocks)
      ensures k <= |blocks| && forall j :: 0 <= j < k ==> blocks[j].size < n
      ensures k < |blocks| ==> blocks[k].size >= n
    {
      k := 0;
      while k < |items| && items[k].size < n
        invariant k <= |items|
        invariant forall j :: 0 <= j < k ==> blocks[j].size < n
      {
        k := k + 1;
      }
    }

    method TakeFrom(block: FreeBlock, n: int, ghost k: nat)
      requires Shows(items, blocks) && Strict(blocks)
      requires k < |items| && items[k] == block && 0 <= n <= block.size
      requires k + 1 < |blocks| ==> blocks[k].End() < blocks[k + 1].start
      modifies this`items, this`blocks
      ensures Shows(items, blocks)
      ensures forall f :: f in items ==> f in old(items) || fresh(f)
      ensures blocks == Take(old(blocks), k, n)
    {
      assert StrictAt(blocks, k);
      ghost var before := blocks;
      RemoveBlock(block, k);
      if block.size > n {
        RestFits(before, k, n);
        var rest := new FreeBlock(block.start + n, block.size - n);
        AddBlock(rest, k);
      }
    }

    // ----- what the allocator uses -----

    /** The first block large enough loses its first `n` bytes; fails when there is no run. */
    method TakeFirstFit(n: int) returns (start: int, ok: bool, ghost k: nat)
      requires Valid() && Canonical(blocks) && n >= 0
      modifies this
      ensures Valid() && fresh(nodes - old(nodes))
      ensures !ok ==> blocks == old(blocks) && Exhausted(old(blocks), n)
      ensures ok ==> k < |old(blocks)| && old(blocks)[k].start == start && n <= old(blocks)[k].size
      ensures ok ==> LowestRun(old(blocks), start, n) && blocks == Take(old(blocks), k, n)
    {
      var i := FindFit(n);
      FirstFitIsLowest(blocks, i, n);
      start, ok, k := 0, false, i;
      if i < |items| {
        start, ok := items[i].start, true;
        CanonicalIsStrict(blocks);
        TakeFrom(items[i], n, i);
        nodes := nodes + set f | f in items;
      }
    }

    /** Returns bytes to the list. */
    method Return(start: int, size: int)
      requires Valid() && Canonical(blocks)
      modifies this, nodes
      ensures Valid() && fresh(nodes - old(nodes)) && blocks == Insert(old(blocks), Block(start, size))
    {
      CanonicalIsStrict(blocks);
      var b := new FreeBlock(start, size);
      Reinsert(b);
      nodes := nodes + {b};
    }

    method ReturnRun(b: FreeBlock, ghost vals: seq<Block>, ghost j: nat)
      requires Valid() && Canonical(blocks) && b !in nodes
      requires j < |vals| && vals[j] == Block(b.start, b.size) && Freeable(blocks, vals[j..])
      modifies this, nodes
      ensures Valid() && Canonical(blocks) && nodes == old(nodes) + {b}
      ensures Freeable(blocks, vals[j + 1..])
      ensures InsertAll(blocks, vals[j + 1..]) == InsertAll(old(blocks), vals[j..])
    {
      FreeableStep(blocks, vals[j..]);
      assert vals[j..][1..] == vals[j + 1..];
      CanonicalIsStrict(blocks);
      InsertKeepsCanonical(blocks, Block(b.start, b.size));
      Reinsert(b);
      nodes := nodes + {b};
    }

    /** Returns a sequence of blocks to the list, one after the other. */
    method ReturnRuns(runs: seq<FreeBlock>, ghost vals: seq<Block>, ghost pool: set<FreeBlock>)
      requires Valid() && Canonical(blocks) && Shows(runs, vals) && Freeable(blocks, vals)
      requires NoRepeats(runs) && pool == (set f | f in runs) && pool !! nodes
      modifies this, nodes, pool
      ensures Valid() && blocks == InsertAll(old(blocks), vals)
      ensures nodes == old(nodes) + pool
    {
      assert vals[0..] == vals;
      NonePassed(runs, pool, nodes);
      for j := 0 to |runs|
        invariant Valid() && Canonical(blocks) && Freeable(blocks, vals[j..])
        invariant InsertAll(blocks, vals[j..]) == InsertAll(old(blocks), vals)
        invariant Passed(runs, pool, old(nodes), nodes, j)
        invariant forall k :: j <= k < |runs| ==> Block(runs[k].start, runs[k].size) == vals[k]
      {
        OnePassed(runs, pool, old(nodes), nodes, j);
        ReturnRun(runs[j], vals, j);
      }
      AllPassed(runs, pool, old(nodes), nodes);
    }

    /** The total of the sizes, and whether no two neighbours could be merged. */
    method Inspect() returns (total: int, coalesced: bool)
      requires Valid()
      ensures total == TotalSize(blocks)
      ensures coalesced <==> forall i :: 0 < i < |blocks| ==> !blocks[i - 1].CanBeCoalesced(blocks[i])
    {
      total := 0;
      for i := 0 to |items|
        invariant total == TotalSize(blocks[..i])
      {
        assert blocks[..i + 1] == blocks[..i] + [blocks[i]];
        MultConcat(blocks[..i], [blocks[i]], 0);
        MultSmall(blocks[i], blocks[i], 0);
        total := total + items[i].size;
      }
      assert blocks[..|blocks|] == blocks;
      coalesced := true;
      var i := 1;
      while i < |items|
        invariant 1 <= i
        invariant coalesced <==> forall k :: 0 < k < i && k < |blocks| ==> !blocks[k - 1].CanBeCoalesced(blocks[k])
      {
        if items[i - 1].start + items[i - 1].size == items[i].start {
          coalesced := false;
        }
        i := i + 1;
      }
    }
  }
}
