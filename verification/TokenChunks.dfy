/** Cache keys of token chunks: fixed-size chunks, chained prefix hashes, and the masked list of
    spans and keys that the cache engine walks. */
module TokenChunks {
  import opened Basics
  import opened Outcomes
  import opened Scaling
  import opened TokenKeys

  /** The tokens cut into pieces of `size`; a shorter last piece is kept only with `saveUnfull`. */
  function Chunks(tokens: seq<Token>, size: nat, saveUnfull: bool): seq<seq<Token>>
    requires size > 0
    decreases |tokens|
  {
    if tokens == [] then []
    else if |tokens| < size then if saveUnfull then [tokens] else []
    else [tokens[..size]] + Chunks(tokens[size..], size, saveUnfull)
  }

  function Concat<T>(parts: seq<seq<T>>): seq<T> {
    if parts == [] then [] else parts[0] + Concat(parts[1..])
  }

  /** How many tokens the chunks cover. */
  function Covered(n: nat, size: nat, saveUnfull: bool): (c: nat)
    requires size > 0
    ensures c <= n
  {
    if n < size then if saveUnfull then n else 0 else size + Covered(n - size, size, saveUnfull)
  }

  /** Without a short last chunk the tokens are covered up to the last multiple of the size. */
  lemma {:induction false} CoveredUpTo(n: nat, size: nat, saveUnfull: bool)
    requires size > 0
    ensures Covered(n, size, saveUnfull) == if saveUnfull then n else n - n % size
  {
    if n >= size {
      CoveredUpTo(n - size, size, saveUnfull);
      ModStep(n, size);
    } else if n > 0 {
      ModSmall(n, size);
    }
  }

  lemma ModSmall(n: nat, size: nat)
    requires n < size
    ensures n % size == n
  {
  }

  lemma ModStep(n: nat, size: nat)
    requires 0 < size <= n
    ensures (n - size) % size == n % size
  {
    var q, r := n / size, n % size;
    var q', r' := (n - size) / size, (n - size) % size;
    assert q * size + r == (q' + 1) * size + r';
    if q < q' + 1 { TimesGap(q, q' + 1, size); }
    if q' + 1 < q { TimesGap(q' + 1, q, size); }
  }

  lemma TimesGap(a: int, b: int, size: nat)
    requires a < b
    ensures a * size + size <= b * size
  {
    assert (b - a - 1) * size >= 0;
  }

  /** The chunks, one after the other, are the covered tokens. */
  lemma {:induction false} ChunksTile(tokens: seq<Token>, size: nat, saveUnfull: bool)
    requires size > 0
    ensures Concat(Chunks(tokens, size, saveUnfull)) == tokens[..Covered(|tokens|, size, saveUnfull)]
    decreases |tokens|
  {
    if |tokens| >= size {
      var rest := tokens[size..];
      ChunksTile(rest, size, saveUnfull);
      var c := Covered(|tokens|, size, saveUnfull);
      assert tokens[..c] == tokens[..size] + rest[..c - size];
    }
  }

  function SpanEnd(size: nat, k: nat, n: nat): int { Min(Scaled(size, k) + size, n) }

  /** Chunk `k` is what its span of the tokens holds. */
  lemma {:induction false} ChunkAt(tokens: seq<Token>, size: nat, saveUnfull: bool, k: nat)
    requires size > 0 && k < |Chunks(tokens, size, saveUnfull)|
    ensures 0 <= Scaled(size, k) < SpanEnd(size, k, |tokens|)
    ensures Chunks(tokens, size, saveUnfull)[k] == tokens[Scaled(size, k)..SpanEnd(size, k, |tokens|)]
    decreases |tokens|
  {
    if |tokens| >= size && k > 0 {
      var rest := tokens[size..];
      ChunkAt(rest, size, saveUnfull, k - 1);
      var start, end := Scaled(size, k - 1), SpanEnd(size, k - 1, |rest|);
      SliceOfDrop(tokens, size, start, end);
      assert Chunks(tokens, size, saveUnfull)[k] == Chunks(rest, size, saveUnfull)[k - 1];
    }
  }

  /** Each span starts where the one before it ends, and the last ends where the covered tokens end. */
  lemma {:induction false} SpansMeet(tokens: seq<Token>, size: nat, saveUnfull: bool, k: nat)
    requires size > 0 && k < |Chunks(tokens, size, saveUnfull)|
    ensures SpanEnd(size, k, |tokens|) ==
      if k + 1 < |Chunks(tokens, size, saveUnfull)| then Scaled(size, k + 1) else Covered(|tokens|, size, saveUnfull)
    decreases |tokens|
  {
    if |tokens| >= size {
      var rest := tokens[size..];
      if k > 0 {
        SpansMeet(rest, size, saveUnfull, k - 1);
      }
    }
  }

  // ----- prefix keys -----

  /** The key of chunk `k`: the hash of the chunk together with the key of the chunk before it. */
  function PrefixKey(db: TokenDatabase, chunks: seq<seq<Token>>, k: nat): int
    requires k < |chunks|
    decreases k, 1
  {
    db.HashTokens(chunks[k], Some(Before(db, chunks, k)))
  }

  function Before(db: TokenDatabase, chunks: seq<seq<Token>>, k: nat): int
    requires k < |chunks|
    decreases k, 0
  {
    if k == 0 then db.noneHash else PrefixKey(db, chunks, k - 1)
  }

  /** The key of a chunk is the hash of its tokens and of the key before it, and the first chunk's is
      chained to the root. */
  lemma KeyChain(db: TokenDatabase, chunks: seq<seq<Token>>, k: nat)
    requires k < |chunks|
    ensures PrefixKey(db, chunks, k) ==
      Normalize(db.hashFunc(Some(if k == 0 then db.noneHash else PrefixKey(db, chunks, k - 1)), chunks[k]))
  {
  }

  /** Why two prefix keys can be equal. */
  datatype Cause =
    | SamePrefix
    | Collision(k: nat, l: nat)
    | RootHit(inFirst: bool, k: nat)

  ghost predicate Explains(c: Cause, db: TokenDatabase, a: seq<seq<Token>>, i: nat, b: seq<seq<Token>>, j: nat)
    requires i < |a| && j < |b|
  {
    match c
    case SamePrefix => i == j && a[..i + 1] == b[..j + 1]
    case Collision(k, l) =>
      && k <= i && l <= j && PrefixKey(db, a, k) == PrefixKey(db, b, l)
      && (Before(db, a, k) != Before(db, b, l) || a[k] != b[l])
    case RootHit(inFirst, k) =>
      if inFirst then k <= i && PrefixKey(db, a, k) == db.noneHash
      else k <= j && PrefixKey(db, b, k) == db.noneHash
  }

  /** For any hash function: two equal prefix keys come from equal prefixes, or two different
      inputs that were hashed on the way have the same hash, or a hash hit the root value. */
  lemma {:induction false} WhyKeysAreEqual(db: TokenDatabase, a: seq<seq<Token>>, i: nat, b: seq<seq<Token>>, j: nat)
    returns (c: Cause)
    requires i < |a| && j < |b| && PrefixKey(db, a, i) == PrefixKey(db, b, j)
    ensures Explains(c, db, a, i, b, j)
    decreases i + j
  {
    if Before(db, a, i) != Before(db, b, j) || a[i] != b[j] {
      return Collision(i, j);
    }
    if i > 0 && j > 0 {
      c := WhyKeysAreEqual(db, a, i - 1, b, j - 1);
      assert a[..i + 1] == a[..i] + [a[i]] && b[..j + 1] == b[..j] + [b[j]];
    } else if i > 0 {
      c := RootHit(true, i - 1);
    } else if j > 0 {
      c := RootHit(false, j - 1);
    } else {
      c := SamePrefix;
    }
  }

  /** Of everything hashed for `a` and for `b`: different inputs have different hashes, none of
      them the root value. With 64-bit keys no hash function has this for all inputs. */
  ghost predicate CollisionFree(db: TokenDatabase, a: seq<seq<Token>>, b: seq<seq<Token>>) {
    && (forall k, l :: 0 <= k < |a| && 0 <= l < |b| && PrefixKey(db, a, k) == PrefixKey(db, b, l) ==>
        Before(db, a, k) == Before(db, b, l) && a[k] == b[l])
    && (forall k :: 0 <= k < |a| ==> PrefixKey(db, a, k) != db.noneHash)
    && (forall l :: 0 <= l < |b| ==> PrefixKey(db, b, l) != db.noneHash)
  }

  lemma {:induction false} SamePrefixSameKey(db: TokenDatabase, a: seq<seq<Token>>, b: seq<seq<Token>>, i: nat)
    requires i < |a| && i < |b| && a[..i + 1] == b[..i + 1]
    ensures PrefixKey(db, a, i) == PrefixKey(db, b, i)
  {
    assert a[i] == a[..i + 1][i] == b[..i + 1][i] == b[i];
    if i > 0 {
      assert a[..i] == a[..i + 1][..i] == b[..i + 1][..i] == b[..i];
      SamePrefixSameKey(db, a, b, i - 1);
    }
  }

  lemma {:induction false} ChunkPrefix(tokens: seq<Token>, size: nat, saveUnfull: bool, k: nat)
    requires size > 0 && k < |Chunks(tokens, size, saveUnfull)|
    ensures 0 <= SpanEnd(size, k, |tokens|) <= |tokens|
    ensures Concat(Chunks(tokens, size, saveUnfull)[..k + 1]) == tokens[..SpanEnd(size, k, |tokens|)]
    decreases |tokens|
  {
    ChunkAt(tokens, size, saveUnfull, k);
    var all := Chunks(tokens, size, saveUnfull);
    if |tokens| >= size {
      var rest := tokens[size..];
      if k > 0 {
        ChunkPrefix(rest, size, saveUnfull, k - 1);
        assert all[..k + 1] == [all[0]] + Chunks(rest, size, saveUnfull)[..k];
        var end := SpanEnd(size, k - 1, |rest|);
        assert tokens[..size] + rest[..end] == tokens[..size + end];
      } else {
        assert all[..1] == [tokens[..size]];
      }
    } else {
      assert all[..1] == [tokens];
    }
  }

  /** A chunk is determined by the tokens up to the end of any later one. */
  lemma SameTokensSameChunk(s: seq<Token>, t: seq<Token>, size: nat, saveUnfull: bool, k: nat, i: nat)
    requires size > 0 && k <= i && i < |Chunks(s, size, saveUnfull)| && i < |Chunks(t, size, saveUnfull)|
    requires var end := SpanEnd(size, i, |s|);
      end == SpanEnd(size, i, |t|) && 0 <= end <= |s| && end <= |t| && s[..end] == t[..end]
    ensures Chunks(s, size, saveUnfull)[k] == Chunks(t, size, saveUnfull)[k]
  {
    ChunkAt(s, size, saveUnfull, k);
    ChunkAt(t, size, saveUnfull, k);
    var end, x, y := SpanEnd(size, i, |s|), Scaled(size, k), SpanEnd(size, k, |s|);
    assert y == SpanEnd(size, k, |t|) && y <= end by {
      if k < i {
        ScaledOrder(size, k, i);
        ChunkAt(s, size, saveUnfull, i);
        ChunkAt(t, size, saveUnfull, i);
      }
    }
    SliceOfTake(s, end, x, y);
    SliceOfTake(t, end, x, y);
  }

  /** Equal token prefixes are cut into equal chunks. */
  lemma SameTokensSameChunks(s: seq<Token>, t: seq<Token>, size: nat, saveUnfull: bool, i: nat)
    requires size > 0 && i < |Chunks(s, size, saveUnfull)| && i < |Chunks(t, size, saveUnfull)|
    requires var end := SpanEnd(size, i, |s|);
      end == SpanEnd(size, i, |t|) && 0 <= end <= |s| && end <= |t| && s[..end] == t[..end]
    ensures Chunks(s, size, saveUnfull)[..i + 1] == Chunks(t, size, saveUnfull)[..i + 1]
  {
    var a, b := Chunks(s, size, saveUnfull), Chunks(t, size, saveUnfull);
    forall k | 0 <= k <= i ensures a[k] == b[k] {
      SameTokensSameChunk(s, t, size, saveUnfull, k, i);
    }
    EqualUpTo(a, b, i + 1);
  }

  lemma EqualUpTo<T>(a: seq<T>, b: seq<T>, n: nat)
    requires n <= |a| && n <= |b| && forall k :: 0 <= k < n ==> a[k] == b[k]
    ensures a[..n] == b[..n]
  {
  }

  lemma StartsUnmasked(size: nat, k: nat, skip: nat)
    requires size > 0
    ensures Scaled(size, k) >= Scaled(size, skip) <==> k >= skip
  {
    if k < skip {
      ScaledOrder(size, k, skip);
    } else if skip < k {
      ScaledOrder(size, skip, k);
    }
  }

  lemma EqualKeys(db: TokenDatabase, size: nat, saveUnfull: bool, s: seq<Token>, t: seq<Token>, i: nat, j: nat)
    requires size > 0
    requires var a, b := Chunks(s, size, saveUnfull), Chunks(t, size, saveUnfull);
      i < |a| && j < |b| && CollisionFree(db, a, b) && PrefixKey(db, a, i) == PrefixKey(db, b, j)
    ensures 0 <= SpanEnd(size, i, |s|) <= |s| && 0 <= SpanEnd(size, j, |t|) <= |t|
    ensures i == j && s[..SpanEnd(size, i, |s|)] == t[..SpanEnd(size, j, |t|)]
  {
    ChunkPrefix(s, size, saveUnfull, i);
    ChunkPrefix(t, size, saveUnfull, j);
    var c := WhyKeysAreEqual(db, Chunks(s, size, saveUnfull), i, Chunks(t, size, saveUnfull), j);
  }

  lemma EqualPrefixes(db: TokenDatabase, size: nat, saveUnfull: bool, s: seq<Token>, t: seq<Token>, i: nat)
    requires size > 0 && i < |Chunks(s, size, saveUnfull)| && i < |Chunks(t, size, saveUnfull)|
    requires 0 <= SpanEnd(size, i, |s|) <= |s| && 0 <= SpanEnd(size, i, |t|) <= |t|
    requires s[..SpanEnd(size, i, |s|)] == t[..SpanEnd(size, i, |t|)]
    ensures PrefixKey(db, Chunks(s, size, saveUnfull), i) == PrefixKey(db, Chunks(t, size, saveUnfull), i)
  {
    assert |s[..SpanEnd(size, i, |s|)]| == |t[..SpanEnd(size, i, |t|)]|;
    SameTokensSameChunks(s, t, size, saveUnfull, i);
    SamePrefixSameKey(db, Chunks(s, size, saveUnfull), Chunks(t, size, saveUnfull), i);
  }

  /** Keys identify prefixes: as long as nothing that was hashed collides, two token sequences get
      the same key at chunks `i` and `j` exactly when those are the same chunk number, end at the
      same position, and all tokens up to there agree. */
  lemma KeysIdentifyPrefixes(db: TokenDatabase, size: nat, saveUnfull: bool, s: seq<Token>, t: seq<Token>, i: nat, j: nat)
    requires size > 0
    requires var a, b := Chunks(s, size, saveUnfull), Chunks(t, size, saveUnfull);
      i < |a| && j < |b| && CollisionFree(db, a, b)
    ensures 0 <= SpanEnd(size, i, |s|) <= |s| && 0 <= SpanEnd(size, j, |t|) <= |t|
    ensures PrefixKey(db, Chunks(s, size, saveUnfull), i) == PrefixKey(db, Chunks(t, size, saveUnfull), j) <==>
      i == j && s[..SpanEnd(size, i, |s|)] == t[..SpanEnd(size, j, |t|)]
  {
    ChunkPrefix(s, size, saveUnfull, i);
    ChunkPrefix(t, size, saveUnfull, j);
    if PrefixKey(db, Chunks(s, size, saveUnfull), i) == PrefixKey(db, Chunks(t, size, saveUnfull), j) {
      EqualKeys(db, size, saveUnfull, s, t, i, j);
    } else if i == j && s[..SpanEnd(size, i, |s|)] == t[..SpanEnd(size, j, |t|)] {
      EqualPrefixes(db, size, saveUnfull, s, t, i);
    }
  }

  // ----- the methods -----

  datatype ChunkedTokenDatabase = ChunkedTokenDatabase(base: TokenDatabase, chunkSize: nat, saveUnfullChunk: bool)
  {
    function ChunksOf(tokens: seq<Token>): seq<seq<Token>>
      requires chunkSize > 0
    {
      Chunks(tokens, chunkSize, saveUnfullChunk)
    }

    /** The entries of all chunks, when nothing is masked. */
    function AllEntries(tokens: seq<Token>, makeKey: bool): seq<Entry>
      requires chunkSize > 0 && base.CanMake(makeKey)
    {
      var chunks := ChunksOf(tokens);
      seq(|chunks|, k requires 0 <= k < |chunks| =>
        Entry(Scaled(chunkSize, k), SpanEnd(chunkSize, k, |tokens|), base.MakeKey(PrefixKey(base, chunks, k), makeKey)))
    }

    /** The chunks from position `i` on. */
    function ChunksFrom(tokens: seq<Token>, i: nat): seq<seq<Token>>
      requires chunkSize > 0
    {
      if i < |tokens| then ChunksOf(tokens[i..]) else []
    }

    lemma ChunkStep(tokens: seq<Token>, i: nat)
      requires chunkSize > 0 && i < |tokens| && (saveUnfullChunk || i + chunkSize <= |tokens|)
      ensures ChunksFrom(tokens, i) == [tokens[i..Min(i + chunkSize, |tokens|)]] + ChunksFrom(tokens, i + chunkSize)
    {
      var rest, end := tokens[i..], i + chunkSize;
      if end <= |tokens| {
        assert rest[..chunkSize] == tokens[i..end] && rest[chunkSize..] == tokens[end..];
        assert ChunksOf(rest) == [tokens[i..end]] + ChunksOf(tokens[end..]);
      } else {
        assert rest == tokens[i..|tokens|] && ChunksOf(rest) == [rest];
      }
    }

    /** How far the chunks reach. */
    method EndOf(n: nat) returns (end: int)
      requires chunkSize > 0
      ensures end == Covered(n, chunkSize, saveUnfullChunk) <= n
    {
      end := if saveUnfullChunk then n else n - n % chunkSize;
      CoveredUpTo(n, chunkSize, saveUnfullChunk);
    }

    method ChunkTokens(tokens: seq<Token>) returns (chunks: seq<seq<Token>>)
      requires chunkSize > 0
      ensures chunks == ChunksOf(tokens)
    {
      var end := EndOf(|tokens|);
      chunks := [];
      var i := 0;
      assert tokens[0..] == tokens;
      while i < end
        invariant 0 <= i && end <= |tokens|
        invariant i <= |tokens| ==> end == i + Covered(|tokens| - i, chunkSize, saveUnfullChunk)
        invariant chunks + ChunksFrom(tokens, i) == ChunksOf(tokens)
        decreases end - i
      {
        ChunkStep(tokens, i);
        Regroup(chunks, [tokens[i..Min(i + chunkSize, |tokens|)]], ChunksFrom(tokens, i + chunkSize));
        chunks := chunks + [tokens[i..Min(i + chunkSize, |tokens|)]];
        i := i + chunkSize;
      }
    }

    method PrefixHash(chunks: seq<seq<Token>>) returns (hashes: seq<int>)
      ensures |hashes| == |chunks| && forall k :: 0 <= k < |chunks| ==> hashes[k] == PrefixKey(base, chunks, k)
    {
      var prefixHash := base.noneHash;
      hashes := [];
      while |hashes| < |chunks|
        invariant |hashes| <= |chunks|
        invariant |hashes| < |chunks| ==> prefixHash == Before(base, chunks, |hashes|)
        invariant forall k :: 0 <= k < |hashes| ==> hashes[k] == PrefixKey(base, chunks, k)
      {
        prefixHash := base.HashTokens(chunks[|hashes|], Some(prefixHash));
        hashes := hashes + [prefixHash];
      }
    }

    /** The entries from chunk `skip` up to chunk `k`. */
    function Unmasked(tokens: seq<Token>, makeKey: bool, skip: nat, k: nat): seq<Entry>
      requires chunkSize > 0 && base.CanMake(makeKey) && skip <= k <= |ChunksOf(tokens)|
    {
      AllEntries(tokens, makeKey)[skip..k]
    }

    lemma UnmaskedStep(tokens: seq<Token>, makeKey: bool, skip: nat, k: nat)
      requires chunkSize > 0 && base.CanMake(makeKey) && skip <= k < |ChunksOf(tokens)|
      ensures Unmasked(tokens, makeKey, skip, k + 1) == (if k == skip then [] else Unmasked(tokens, makeKey, skip, k)) +
        [Entry(Scaled(chunkSize, k), SpanEnd(chunkSize, k, |tokens|), base.MakeKey(PrefixKey(base, ChunksOf(tokens), k), makeKey))]
    {
      var all := AllEntries(tokens, makeKey);
      assert all[skip..k + 1] == all[skip..k] + [all[k]];
    }

    /** The entries made when the loop is at chunk `k`. */
    function SoFar(tokens: seq<Token>, makeKey: bool, skip: nat, k: nat): seq<Entry>
      requires chunkSize > 0 && k <= |ChunksOf(tokens)| && (k > skip ==> base.CanMake(makeKey))
    {
      if k <= skip then [] else Unmasked(tokens, makeKey, skip, k)
    }

    lemma SoFarStep(tokens: seq<Token>, makeKey: bool, skip: nat, k: nat)
      requires chunkSize > 0 && base.CanMake(makeKey) && skip <= k < |ChunksOf(tokens)|
      ensures SoFar(tokens, makeKey, skip, k + 1) == SoFar(tokens, makeKey, skip, k) +
        [Entry(Scaled(chunkSize, k), SpanEnd(chunkSize, k, |tokens|), base.MakeKey(PrefixKey(base, ChunksOf(tokens), k), makeKey))]
    {
      UnmaskedStep(tokens, makeKey, skip, k);
    }

    /** Where chunk `chunkId` of `totalLen` tokens starts and ends. */
    method SpanOf(chunkId: nat, totalLen: nat) returns (startIdx: int, endIdx: int)
      ensures startIdx == Scaled(chunkSize, chunkId) && endIdx == SpanEnd(chunkSize, chunkId, totalLen)
    {
      startIdx := chunkId * chunkSize;
      endIdx := Min(startIdx + chunkSize, totalLen);
      ScaledIsProduct(chunkSize, chunkId);
    }

    /** The masked tokens are skipped: exactly the entries of the first `skip` chunks are missing from
        the result, and the others are as without a mask. */
    method ProcessTokens(tokens: seq<Token>, numFalses: nat, ghost skip: nat, makeKey: bool) returns (r: Outcome<seq<Entry>>)
      requires chunkSize > 0 && numFalses == Scaled(chunkSize, skip)
      ensures
        r == if skip >= |ChunksOf(tokens)| then Done([])
             else if base.CanMake(makeKey) then Done(Unmasked(tokens, makeKey, skip, |ChunksOf(tokens)|))
             else Outcome([], Some(AssertionError))
    {
      var chunks := ChunkTokens(tokens);
      var prefixHashes := PrefixHash(chunks);
      var entries: seq<Entry> := [];
      var chunkId := 0;
      while chunkId < |prefixHashes|
        invariant 0 <= chunkId <= |prefixHashes|
        invariant chunkId > skip ==> base.CanMake(makeKey)
        invariant entries == SoFar(tokens, makeKey, skip, chunkId)
      {
        var startIdx, endIdx := SpanOf(chunkId, |tokens|);
        StartsUnmasked(chunkSize, chunkId, skip);
        if startIdx >= numFalses {
          if !base.CanMake(makeKey) {
            return Outcome(entries, Some(AssertionError));
          }
          SoFarStep(tokens, makeKey, skip, chunkId);
          entries := entries + [Entry(startIdx, endIdx, base.MakeKey(prefixHashes[chunkId], makeKey))];
        }
        chunkId := chunkId + 1;
      }
      return Done(entries);
    }

    /** The whole call: an unaligned mask fails first, then tokens win over hashes. Keys without metadata
        and hashes without offsets fail an assertion, if there is an entry to make. `skip` is the number of
        chunks that the mask excludes. */
    method Process(tokens: Option<seq<Token>>, hashes: Option<seq<int>>, offsets: Option<seq<int>>,
                   mask: Option<seq<bool>>, makeKey: bool) returns (r: Outcome<seq<Entry>>, ghost skip: nat)
      requires chunkSize > 0
      ensures var falses := if mask.Some? then CountFalse(mask.value) else 0;
        && (r.failure == Some(ValueError) <==> falses % chunkSize != 0 || (tokens.None? && hashes.None?))
        && (falses % chunkSize == 0 ==> falses == Scaled(chunkSize, skip))
      ensures r.failure == Some(ValueError) ==> r.result == []
      ensures r.failure != Some(ValueError) && tokens.Some? ==>
        r == if skip >= |ChunksOf(tokens.value)| then Done([])
             else if base.CanMake(makeKey) then Done(AllEntries(tokens.value, makeKey)[skip..])
             else Outcome([], Some(AssertionError))
      ensures r.failure != Some(ValueError) && tokens.None? ==>
        r == if offsets.None? then Outcome([], Some(AssertionError))
             else if hashes.value == [] || offsets.value == [] then Done([])
             else if base.CanMake(makeKey) then
               Done(HashEntries(base, hashes.value, offsets.value, makeKey, Min(|hashes.value|, |offsets.value|)))
             else Outcome([], Some(AssertionError))
    {
      var numFalses := if mask.Some? then CountFalse(mask.value) else 0;
      skip := numFalses / chunkSize;
      if numFalses % chunkSize != 0 {
        return Outcome([], Some(ValueError)), skip;
      }
      ScaledIsProduct(chunkSize, skip);
      if tokens.Some? {
        r := ProcessTokens(tokens.value, numFalses, skip, makeKey);
        UpToEnd(tokens.value, makeKey, skip);
      } else if hashes.Some? {
        r := ProcessHashes(base, hashes.value, offsets, makeKey);
      } else {
        r := Outcome([], Some(ValueError));
      }
    }

    lemma UpToEnd(tokens: seq<Token>, makeKey: bool, skip: nat)
      requires chunkSize > 0
      ensures base.CanMake(makeKey) && skip < |ChunksOf(tokens)| ==>
        Unmasked(tokens, makeKey, skip, |ChunksOf(tokens)|) == AllEntries(tokens, makeKey)[skip..]
    {
    }
  }

  /** What the caller can rely on about an unmasked entry: its span holds its chunk, neighbours meet,
      the spans start at zero and end with the covered tokens, and the key is the prefix key. */
  lemma EntryMeaning(db: ChunkedTokenDatabase, tokens: seq<Token>, makeKey: bool, k: nat)
    requires db.chunkSize > 0 && db.base.CanMake(makeKey) && k < |db.AllEntries(tokens, makeKey)|
    ensures var all, chunks := db.AllEntries(tokens, makeKey), db.ChunksOf(tokens);
      && |all| == |chunks| && 0 <= all[k].start < all[k].end <= |tokens|
      && all[k].start == k * db.chunkSize
      && tokens[all[k].start..all[k].end] == chunks[k]
      && (if k == 0 then all[k].start == 0 else all[k].start == all[k - 1].end)
      && (k + 1 == |all| ==> all[k].end == Covered(|tokens|, db.chunkSize, db.saveUnfullChunk))
      && all[k].key == db.base.MakeKey(PrefixKey(db.base, chunks, k), makeKey)
  {
    ChunkAt(tokens, db.chunkSize, db.saveUnfullChunk, k);
    SpansMeet(tokens, db.chunkSize, db.saveUnfullChunk, k);
    ScaledIsProduct(db.chunkSize, k);
    if k > 0 {
      SpansMeet(tokens, db.chunkSize, db.saveUnfullChunk, k - 1);
    }
  }

  /** Entries' keys identify prefixes: as long as nothing that was hashed collides, an entry of one token
      sequence and an entry of another have the same key exactly when they have the same span and all
      tokens up to its end agree. */
  lemma EntryKeysIdentifyPrefixes(db: ChunkedTokenDatabase, s: seq<Token>, t: seq<Token>, makeKey: bool, i: nat, j: nat)
    requires db.chunkSize > 0 && db.base.CanMake(makeKey) && CollisionFree(db.base, db.ChunksOf(s), db.ChunksOf(t))
    requires i < |db.AllEntries(s, makeKey)| && j < |db.AllEntries(t, makeKey)|
    ensures var e, f := db.AllEntries(s, makeKey)[i], db.AllEntries(t, makeKey)[j];
      && 0 <= e.start <= e.end <= |s| && 0 <= f.start <= f.end <= |t|
      && (e.key == f.key <==> e.start == f.start && e.end == f.end && s[..e.end] == t[..f.end])
  {
    EntryMeaning(db, s, makeKey, i);
    EntryMeaning(db, t, makeKey, j);
    MadeKeys(db.base, PrefixKey(db.base, db.ChunksOf(s), i), PrefixKey(db.base, db.ChunksOf(t), j), makeKey);
    KeysIdentifyPrefixes(db.base, db.chunkSize, db.saveUnfullChunk, s, t, i, j);
    SameStart(db.chunkSize, i, j);
    var e, f := db.AllEntries(s, makeKey)[i], db.AllEntries(t, makeKey)[j];
    assert s[..e.end] == t[..f.end] ==> |s[..e.end]| == |t[..f.end]|;
  }

  lemma SameStart(size: nat, i: nat, j: nat)
    requires size > 0
    ensures Scaled(size, i) == Scaled(size, j) <==> i == j
  {
    if i < j {
      ScaledOrder(size, i, j);
    } else if j < i {
      ScaledOrder(size, j, i);
    }
  }
}
