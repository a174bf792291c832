/** The explicit free list on values: what a list of free blocks means, when it is a
    canonical description of that meaning, and what first-fit, splitting and coalescing
    insertion do to it. */
module FreeList {

  datatype Block = Block(start: int, size: int) {
    function End(): int { start + size }

    predicate Has(x: int) { start <= x < start + size }

    predicate CanBeCoalesced(succ: Block) { start + size == succ.start }
  }

  ghost predicate InFree(fl: seq<Block>, x: int) {
    exists i :: 0 <= i < |fl| && fl[i].Has(x)
  }

  /** Sorted, non-empty blocks with at least one used byte between neighbours. */
  ghost predicate Canonical(fl: seq<Block>) {
    && (forall i :: 0 <= i < |fl| ==> fl[i].size > 0)
    && (forall i, j :: 0 <= i < j < |fl| ==> fl[i].End() < fl[j].start)
  }

  ghost predicate Sorted(fl: seq<Block>) {
    forall i, j :: 0 <= i < j < |fl| ==> fl[i].start <= fl[j].start
  }

  ghost predicate NonNegative(fl: seq<Block>) {
    forall i :: 0 <= i < |fl| ==> fl[i].size >= 0
  }

  function TotalSize(fl: seq<Block>): int {
    if fl == [] then 0 else fl[0].size + TotalSize(fl[1..])
  }

  // ----- the free list is a canonical form -----

  lemma HeadIsFirstFreeByte(fl: seq<Block>, x: int)
    requires Canonical(fl) && InFree(fl, x)
    ensures fl != [] && fl[0].start <= x && InFree(fl, fl[0].start) && !InFree(fl, fl[0].End())
  {
    assert fl[0].Has(fl[0].start);
  }

  lemma TailBytes(fl: seq<Block>, x: int)
    requires Canonical(fl) && fl != []
    ensures Canonical(fl[1..])
    ensures InFree(fl[1..], x) <==> InFree(fl, x) && !fl[0].Has(x)
  {
    if InFree(fl, x) && !fl[0].Has(x) {
      var i :| 0 <= i < |fl| && fl[i].Has(x);
      assert fl[1..][i - 1].Has(x);
    }
    if InFree(fl[1..], x) {
      var i :| 0 <= i < |fl[1..]| && fl[1..][i].Has(x);
      assert fl[i + 1].Has(x);
    }
  }

  lemma SameHead(a: seq<Block>, b: seq<Block>)
    requires Canonical(a) && Canonical(b) && a != []
    requires forall x :: InFree(a, x) <==> InFree(b, x)
    ensures b != [] && a[0] == b[0]
  {
    assert a[0].Has(a[0].start);
    HeadIsFirstFreeByte(a, a[0].start);
    HeadIsFirstFreeByte(b, a[0].start);
    HeadIsFirstFreeByte(b, b[0].start);
    HeadIsFirstFreeByte(a, b[0].start);
    var endA, endB := a[0].End(), b[0].End();
    assert b[0].Has(endA) ==> InFree(b, endA);
    assert a[0].Has(endB) ==> InFree(a, endB);
  }

  /** Two canonical lists of the same bytes are the same list. */
  lemma {:induction false} CanonicalIsUnique(a: seq<Block>, b: seq<Block>)
    requires Canonical(a) && Canonical(b)
    requires forall x :: InFree(a, x) <==> InFree(b, x)
    ensures a == b
  {
    if a == [] {
      var first := if b == [] then 0 else b[0].start;
      assert b != [] ==> b[0].Has(first);
      assert b != [] ==> InFree(b, first);
    } else {
      SameHead(a, b);
      forall x ensures InFree(a[1..], x) <==> InFree(b[1..], x) {
        TailBytes(a, x);
        TailBytes(b, x);
      }
      TailBytes(a, 0);
      TailBytes(b, 0);
      CanonicalIsUnique(a[1..], b[1..]);
      assert a == [a[0]] + a[1..] && b == [b[0]] + b[1..];
    }
  }

  // ----- counting how often a byte is listed -----

  function Ind(b: Block, x: int): nat { if b.Has(x) then 1 else 0 }

  function Mult(fl: seq<Block>, x: int): nat {
    if fl == [] then 0 else Ind(fl[0], x) + Mult(fl[1..], x)
  }

  lemma {:induction false} MultConcat(a: seq<Block>, b: seq<Block>, x: int)
    ensures Mult(a + b, x) == Mult(a, x) + Mult(b, x)
    ensures TotalSize(a + b) == TotalSize(a) + TotalSize(b)
  {
    if a == [] {
      assert a + b == b;
    } else {
      assert (a + b)[0] == a[0] && (a + b)[1..] == a[1..] + b;
      MultConcat(a[1..], b, x);
    }
  }

  lemma {:induction false} MultIsMembership(fl: seq<Block>, x: int)
    ensures Mult(fl, x) > 0 <==> InFree(fl, x)
    ensures Canonical(fl) ==> Mult(fl, x) <= 1
  {
    if fl != [] {
      MultIsMembership(fl[1..], x);
      if InFree(fl[1..], x) {
        var i :| 0 <= i < |fl[1..]| && fl[1..][i].Has(x);
        assert fl[i + 1].Has(x);
      }
      if InFree(fl, x) && !fl[0].Has(x) {
        var i :| 0 <= i < |fl| && fl[i].Has(x);
        assert fl[1..][i - 1].Has(x);
      }
    }
  }

  /** Canonical lists that count every byte alike are equal. */
  lemma SameMultSameList(a: seq<Block>, b: seq<Block>)
    requires Canonical(a) && Canonical(b)
    requires forall x :: Mult(a, x) == Mult(b, x)
    ensures a == b
  {
    forall x ensures InFree(a, x) <==> InFree(b, x) {
      MultIsMembership(a, x);
      MultIsMembership(b, x);
    }
    CanonicalIsUnique(a, b);
  }

  // ----- insertion with coalescing -----

  /** Where a key goes in a list sorted by start: after every block starting at or before it. */
  function BisectRight(fl: seq<Block>, key: int): (i: nat)
    ensures i <= |fl|
    ensures forall k :: 0 <= k < i ==> fl[k].start <= key
    ensures i < |fl| ==> key < fl[i].start
  {
    if fl != [] && fl[0].start <= key then 1 + BisectRight(fl[1..], key) else 0
  }

  /** The list with positions lo..hi replaced by one block. */
  function Splice(fl: seq<Block>, lo: nat, hi: nat, mid: Block): seq<Block>
    requires lo <= hi <= |fl|
  {
    fl[..lo] + [mid] + fl[hi..]
  }

  /** The list after returning `b`: merged with the neighbours that touch it. */
  function Insert(fl: seq<Block>, b: Block): seq<Block> {
    InsertAt(fl, b, BisectRight(fl, b.start))
  }

  function InsertAt(fl: seq<Block>, b: Block, i: nat): seq<Block>
    requires i <= |fl|
  {
    var mergePrev := i > 0 && fl[i - 1].CanBeCoalesced(b);
    var mergeSucc := i < |fl| && b.CanBeCoalesced(fl[i]);
    if mergePrev && mergeSucc then
      Splice(fl, i - 1, i + 1, Block(fl[i - 1].start, fl[i - 1].size + (b.size + fl[i].size)))
    else if mergePrev then
      Splice(fl, i - 1, i, Block(fl[i - 1].start, fl[i - 1].size + b.size))
    else if mergeSucc then
      Splice(fl, i, i + 1, Block(fl[i].start - b.size, fl[i].size + b.size))
    else
      Splice(fl, i, i, b)
  }

  lemma SpliceCounts(fl: seq<Block>, lo: nat, hi: nat, mid: Block, x: int)
    requires lo <= hi <= |fl|
    ensures Mult(Splice(fl, lo, hi, mid), x) + Mult(fl[lo..hi], x) == Mult(fl, x) + Ind(mid, x)
    ensures TotalSize(Splice(fl, lo, hi, mid)) + TotalSize(fl[lo..hi]) == TotalSize(fl) + mid.size
  {
    assert fl == fl[..lo] + fl[lo..hi] + fl[hi..];
    MultConcat(fl[..lo] + fl[lo..hi], fl[hi..], x);
    MultConcat(fl[..lo], fl[lo..hi], x);
    MultConcat(fl[..lo] + [mid], fl[hi..], x);
    MultConcat(fl[..lo], [mid], x);
    assert [mid][1..] == [];
  }

  lemma SpliceKeepsCanonical(fl: seq<Block>, lo: nat, hi: nat, mid: Block)
    requires Canonical(fl) && lo <= hi <= |fl| && mid.size > 0
    requires lo > 0 ==> fl[lo - 1].End() < mid.start
    requires hi < |fl| ==> mid.End() < fl[hi].start
    ensures Canonical(Splice(fl, lo, hi, mid))
  {
    assert forall k :: 0 <= k < lo ==> fl[k].End() < mid.start;
    assert forall k :: hi <= k < |fl| ==> mid.End() < fl[k].start;
  }

  lemma MultSmall(a: Block, b: Block, x: int)
    ensures Mult([a], x) == Ind(a, x) && Mult([a, b], x) == Ind(a, x) + Ind(b, x)
    ensures TotalSize([a]) == a.size && TotalSize([a, b]) == a.size + b.size
  {
    assert [a, b][1..] == [b] && [a][1..] == [] && [b][1..] == [];
  }

  lemma InsertIsSplice(fl: seq<Block>, b: Block, i: nat) returns (lo: nat, hi: nat, mid: Block)
    requires i <= |fl|
    ensures lo == (if i > 0 && fl[i - 1].CanBeCoalesced(b) then i - 1 else i)
    ensures hi == (if i < |fl| && b.CanBeCoalesced(fl[i]) then i + 1 else i)
    ensures mid.start == (if lo < i then fl[lo].start else b.start)
    ensures mid.End() == (if hi > i then fl[i].End() else b.End())
    ensures InsertAt(fl, b, i) == Splice(fl, lo, hi, mid)
  {
    lo := if i > 0 && fl[i - 1].CanBeCoalesced(b) then i - 1 else i;
    hi := if i < |fl| && b.CanBeCoalesced(fl[i]) then i + 1 else i;
    var start := if lo < i then fl[lo].start else b.start;
    mid := Block(start, (if hi > i then fl[i].End() else b.End()) - start);
  }

  /** Whatever the list, insertion lists the bytes of `b` exactly once more and nothing else. */
  lemma InsertCounts(fl: seq<Block>, b: Block, x: int)
    requires NonNegative(fl) && b.size >= 0
    ensures Mult(Insert(fl, b), x) == Mult(fl, x) + Ind(b, x)
    ensures TotalSize(Insert(fl, b)) == TotalSize(fl) + b.size
  {
    var i := BisectRight(fl, b.start);
    var lo, hi, mid := InsertIsSplice(fl, b, i);
    SpliceCounts(fl, lo, hi, mid, x);
    if lo < i && i < hi {
      assert fl[lo..hi] == [fl[lo], fl[i]];
      MultSmall(fl[lo], fl[i], x);
    } else if lo < hi {
      assert fl[lo..hi] == [fl[lo]];
      MultSmall(fl[lo], b, x);
    }
  }

  lemma InsertKeepsNonNegative(fl: seq<Block>, b: Block)
    requires NonNegative(fl) && b.size >= 0
    ensures NonNegative(Insert(fl, b))
  {
  }

  /** No byte of `b` is free. */
  ghost predicate Disjoint(fl: seq<Block>, b: Block) {
    forall x :: b.Has(x) ==> !InFree(fl, x)
  }

  lemma DisjointNeighbours(fl: seq<Block>, b: Block)
    requires Canonical(fl) && b.size > 0 && Disjoint(fl, b)
    ensures var i := BisectRight(fl, b.start);
      && (forall k :: 0 <= k < i ==> fl[k].End() <= b.start)
      && (forall k :: i <= k < |fl| ==> b.End() <= fl[k].start)
  {
    var i := BisectRight(fl, b.start);
    assert b.Has(b.start);
    if i > 0 {
      assert !fl[i - 1].Has(b.start);
    }
    if i < |fl| && fl[i].start < b.End() {
      assert b.Has(fl[i].start) && fl[i].Has(fl[i].start);
      assert InFree(fl, fl[i].start);
    }
  }

  /** Returning used bytes keeps the list canonical. */
  lemma InsertKeepsCanonical(fl: seq<Block>, b: Block)
    requires Canonical(fl) && b.size > 0 && Disjoint(fl, b)
    ensures Canonical(Insert(fl, b))
  {
    DisjointNeighbours(fl, b);
    var lo, hi, mid := InsertIsSplice(fl, b, BisectRight(fl, b.start));
    SpliceKeepsCanonical(fl, lo, hi, mid);
  }

  lemma InsertBytes(fl: seq<Block>, b: Block, x: int)
    requires NonNegative(fl) && b.size >= 0
    ensures InFree(Insert(fl, b), x) <==> InFree(fl, x) || b.Has(x)
  {
    InsertCounts(fl, b, x);
    MultIsMembership(fl, x);
    MultIsMembership(Insert(fl, b), x);
  }

  ghost predicate EndsAt(fl: seq<Block>, at: int) { exists i :: 0 <= i < |fl| && fl[i].End() == at }

  /** Returning a zero-size block keeps the list canonical exactly when some block ends there;
      otherwise an empty block stays behind. */
  lemma ZeroSizeInsert(fl: seq<Block>, at: int)
    requires Canonical(fl)
    ensures Canonical(Insert(fl, Block(at, 0))) <==> EndsAt(fl, at)
  {
    var b := Block(at, 0);
    var i := BisectRight(fl, at);
    if i > 0 && fl[i - 1].End() == at {
      assert Insert(fl, b) == fl;
    } else {
      assert Insert(fl, b)[i].size == 0;
      forall k | 0 <= k < |fl| ensures fl[k].End() != at {
        assert i > 0 && k < i - 1 ==> fl[k].End() < fl[i - 1].start;
      }
    }
  }

  // ----- first fit and splitting -----

  /** The first `n` bytes from `a` on are free, and `a` itself is a free byte. */
  ghost predicate FreeRun(fl: seq<Block>, a: int, n: int) {
    InFree(fl, a) && forall x :: a <= x < a + n ==> InFree(fl, x)
  }

  ghost predicate LowestRun(fl: seq<Block>, a: int, n: int) {
    FreeRun(fl, a, n) && forall b :: FreeRun(fl, b, n) ==> a <= b
  }

  ghost predicate Exhausted(fl: seq<Block>, n: int) {
    forall a :: !FreeRun(fl, a, n)
  }

  /** `r` lists exactly the bytes of `fl` that are not in `b`. */
  ghost predicate Without(r: seq<Block>, fl: seq<Block>, b: Block) {
    forall x :: InFree(r, x) <==> InFree(fl, x) && !b.Has(x)
  }

  /** `r` lists exactly the bytes of `fl` and those of `b`. */
  ghost predicate Plus(r: seq<Block>, fl: seq<Block>, b: Block) {
    forall x :: InFree(r, x) <==> InFree(fl, x) || b.Has(x)
  }

  function RemoveAt<T>(s: seq<T>, k: nat): seq<T>
    requires k < |s|
  {
    s[..k] + s[k + 1..]
  }

  /** The list without the first `n` bytes of block `i`. */
  function Take(fl: seq<Block>, i: nat, n: int): seq<Block>
    requires i < |fl|
  {
    if fl[i].size > n then
      Splice(fl, i, i + 1, Block(fl[i].start + n, fl[i].size - n))
    else
      RemoveAt(fl, i)
  }

  /** In a canonical list a free run lies inside one block. */
  lemma RunInOneBlock(fl: seq<Block>, a: int, n: int) returns (k: nat)
    requires Canonical(fl) && n >= 0 && FreeRun(fl, a, n)
    ensures k < |fl| && fl[k].start <= a && a + n <= fl[k].End()
  {
    k :| 0 <= k < |fl| && fl[k].Has(a);
    forall j | 0 <= j < |fl| ensures !fl[j].Has(fl[k].End()) {
      assert j < k ==> fl[j].End() < fl[k].start;
    }
    assert !InFree(fl, fl[k].End());
  }

  lemma BlockIsRun(fl: seq<Block>, i: nat, n: int)
    requires Canonical(fl) && i < |fl| && n <= fl[i].size
    ensures FreeRun(fl, fl[i].start, n)
  {
    assert fl[i].Has(fl[i].start);
    forall x | fl[i].start <= x < fl[i].start + n ensures InFree(fl, x) {
      assert fl[i].Has(x);
    }
  }

  /** First fit is complete and lowest-address: the first block that is large enough starts
      the lowest free run, and when no block is large enough there is no run at all. */
  lemma FirstFitIsLowest(fl: seq<Block>, i: nat, n: int)
    requires Canonical(fl) && n >= 0 && i <= |fl|
    requires forall k :: 0 <= k < i ==> fl[k].size < n
    ensures i == |fl| ==> Exhausted(fl, n)
    ensures i < |fl| && fl[i].size >= n ==> LowestRun(fl, fl[i].start, n)
  {
    forall a | FreeRun(fl, a, n)
      ensures i < |fl| && fl[i].start <= a
    {
      var k := RunInOneBlock(fl, a, n);
      assert k >= i;
    }
    if i < |fl| && fl[i].size >= n { BlockIsRun(fl, i, n); }
  }

  lemma TakeCounts(fl: seq<Block>, i: nat, n: int, x: int)
    requires i < |fl| && 0 <= n <= fl[i].size
    ensures Mult(fl, x) == Mult(Take(fl, i, n), x) + Ind(Block(fl[i].start, n), x)
    ensures TotalSize(fl) == TotalSize(Take(fl, i, n)) + n
  {
    assert fl[i..i + 1] == [fl[i]];
    MultSmall(fl[i], fl[i], x);
    if fl[i].size > n {
      SpliceCounts(fl, i, i + 1, Block(fl[i].start + n, fl[i].size - n), x);
    } else {
      assert fl == fl[..i] + [fl[i]] + fl[i + 1..];
      MultConcat(fl[..i] + [fl[i]], fl[i + 1..], x);
      MultConcat(fl[..i], [fl[i]], x);
      MultConcat(fl[..i], fl[i + 1..], x);
    }
  }

  lemma TakeBytes(fl: seq<Block>, i: nat, n: int, x: int)
    requires Canonical(fl) && i < |fl| && 0 <= n <= fl[i].size
    ensures InFree(Take(fl, i, n), x) <==> InFree(fl, x) && !Block(fl[i].start, n).Has(x)
  {
    TakeCounts(fl, i, n, x);
    MultIsMembership(fl, x);
    MultIsMembership(Take(fl, i, n), x);
    assert Block(fl[i].start, n).Has(x) ==> fl[i].Has(x);
  }

  lemma RemoveKeepsCanonical(fl: seq<Block>, i: nat)
    requires Canonical(fl) && i < |fl|
    ensures Canonical(RemoveAt(fl, i))
  {
    var r := RemoveAt(fl, i);
    forall j, k | 0 <= j < k < |r| ensures r[j].End() < r[k].start {
      assert r[j] == fl[if j < i then j else j + 1];
      assert r[k] == fl[if k < i then k else k + 1];
    }
  }

  lemma TakeIsCanonical(fl: seq<Block>, i: nat, n: int)
    requires Canonical(fl) && i < |fl| && 0 <= n <= fl[i].size
    ensures Canonical(Take(fl, i, n))
  {
    if fl[i].size > n {
      SpliceKeepsCanonical(fl, i, i + 1, Block(fl[i].start + n, fl[i].size - n));
    } else {
      RemoveKeepsCanonical(fl, i);
    }
  }

  /** Splitting keeps the list canonical and removes exactly the bytes handed out. */
  lemma TakeKeepsCanonical(fl: seq<Block>, i: nat, n: int)
    requires Canonical(fl) && i < |fl| && 0 <= n <= fl[i].size
    ensures Canonical(Take(fl, i, n))
    ensures Without(Take(fl, i, n), fl, Block(fl[i].start, n))
  {
    forall x ensures InFree(Take(fl, i, n), x) <==> InFree(fl, x) && !Block(fl[i].start, n).Has(x) {
      TakeBytes(fl, i, n, x);
    }
    TakeIsCanonical(fl, i, n);
  }

  /** Allocate then free gives back the identical list. */
  lemma TakeThenInsert(fl: seq<Block>, i: nat, n: int)
    requires Canonical(fl) && i < |fl| && 0 < n <= fl[i].size
    ensures Insert(Take(fl, i, n), Block(fl[i].start, n)) == fl
  {
    var t, b := Take(fl, i, n), Block(fl[i].start, n);
    TakeKeepsCanonical(fl, i, n);
    assert Disjoint(t, b);
    InsertKeepsCanonical(t, b);
    forall x ensures InFree(Insert(t, b), x) <==> InFree(fl, x) {
      InsertBytes(t, b, x);
      if b.Has(x) { assert fl[i].Has(x); }
    }
    CanonicalIsUnique(Insert(t, b), fl);
  }

  // ----- freeing several blocks -----

  function InsertAll(fl: seq<Block>, bs: seq<Block>): seq<Block>
    decreases |bs|
  {
    if bs == [] then fl else InsertAll(Insert(fl, bs[0]), bs[1..])
  }

  /** Non-empty blocks that overlap neither the list nor each other. */
  ghost predicate Freeable(fl: seq<Block>, bs: seq<Block>) {
    && (forall i :: 0 <= i < |bs| ==> bs[i].size > 0)
    && (forall x :: Mult(fl, x) + Mult(bs, x) <= 1)
  }

  lemma {:induction false} InsertAllCounts(fl: seq<Block>, bs: seq<Block>, x: int)
    requires NonNegative(fl) && NonNegative(bs)
    ensures Mult(InsertAll(fl, bs), x) == Mult(fl, x) + Mult(bs, x)
    ensures TotalSize(InsertAll(fl, bs)) == TotalSize(fl) + TotalSize(bs)
    decreases |bs|
  {
    if bs != [] {
      InsertCounts(fl, bs[0], x);
      InsertKeepsNonNegative(fl, bs[0]);
      InsertAllCounts(Insert(fl, bs[0]), bs[1..], x);
    }
  }

  lemma FreeableStep(fl: seq<Block>, bs: seq<Block>)
    requires Canonical(fl) && Freeable(fl, bs) && bs != []
    ensures Disjoint(fl, bs[0]) && Freeable(Insert(fl, bs[0]), bs[1..])
  {
    forall x | bs[0].Has(x) ensures !InFree(fl, x) {
      MultIsMembership(fl, x);
      assert Mult(fl, x) + Mult(bs, x) <= 1;
    }
    forall x ensures Mult(Insert(fl, bs[0]), x) + Mult(bs[1..], x) <= 1 {
      InsertCounts(fl, bs[0], x);
      assert Mult(fl, x) + Mult(bs, x) <= 1;
    }
  }

  lemma {:induction false} InsertAllKeepsCanonical(fl: seq<Block>, bs: seq<Block>)
    requires Canonical(fl) && Freeable(fl, bs)
    ensures Canonical(InsertAll(fl, bs))
    decreases |bs|
  {
    if bs != [] {
      FreeableStep(fl, bs);
      InsertKeepsCanonical(fl, bs[0]);
      InsertAllKeepsCanonical(Insert(fl, bs[0]), bs[1..]);
    }
  }

  /** The list reached by freeing blocks depends only on the bytes they hold: neither the
      order of the blocks nor the way those bytes are cut into blocks matters. */
  lemma FreeingIsByBytes(fl: seq<Block>, p: seq<Block>, q: seq<Block>)
    requires Canonical(fl) && Freeable(fl, p) && Freeable(fl, q)
    requires forall x :: Mult(p, x) == Mult(q, x)
    ensures InsertAll(fl, p) == InsertAll(fl, q)
  {
    InsertAllKeepsCanonical(fl, p);
    InsertAllKeepsCanonical(fl, q);
    forall x ensures Mult(InsertAll(fl, p), x) == Mult(InsertAll(fl, q), x) {
      InsertAllCounts(fl, p, x);
      InsertAllCounts(fl, q, x);
    }
    SameMultSameList(InsertAll(fl, p), InsertAll(fl, q));
  }

  lemma MultRemoveAt(q: seq<Block>, k: nat, x: int)
    requires k < |q|
    ensures Mult(q, x) == Ind(q[k], x) + Mult(RemoveAt(q, k), x)
  {
    assert q == q[..k] + [q[k]] + q[k + 1..];
    MultConcat(q[..k] + [q[k]], q[k + 1..], x);
    MultConcat(q[..k], [q[k]], x);
    MultConcat(q[..k], q[k + 1..], x);
    MultSmall(q[k], q[k], x);
  }

  lemma RemoveAtMultiset<T>(q: seq<T>, k: nat)
    requires k < |q|
    ensures multiset(RemoveAt(q, k)) == multiset(q) - multiset{q[k]}
  {
    assert q == q[..k] + [q[k]] + q[k + 1..];
  }

  lemma {:induction false} MultOfPermutation(p: seq<Block>, q: seq<Block>, x: int)
    requires multiset(p) == multiset(q)
    ensures Mult(p, x) == Mult(q, x)
    decreases |p|
  {
    if p == [] {
      assert |multiset(q)| == 0;
    } else {
      assert p[0] in multiset(p);
      var k :| 0 <= k < |q| && q[k] == p[0];
      RemoveAtMultiset(p, 0);
      RemoveAtMultiset(q, k);
      MultRemoveAt(p, 0, x);
      MultRemoveAt(q, k, x);
      MultOfPermutation(RemoveAt(p, 0), RemoveAt(q, k), x);
    }
  }

  /** Freeing the same live blocks in any order gives the identical list. */
  lemma FreeOrderDoesNotMatter(fl: seq<Block>, p: seq<Block>, q: seq<Block>)
    requires Canonical(fl) && Freeable(fl, p) && multiset(p) == multiset(q)
    ensures InsertAll(fl, p) == InsertAll(fl, q)
  {
    forall x ensures Mult(p, x) == Mult(q, x) { MultOfPermutation(p, q, x); }
    forall i | 0 <= i < |q| ensures q[i].size > 0 {
      assert q[i] in multiset(p);
    }
    FreeingIsByBytes(fl, p, q);
  }
}
