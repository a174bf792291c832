/** What both token databases share: raw hash values made into 64-bit numbers, cache keys, and the
    walk over hashes that the caller has computed already. */
module TokenKeys {
  import opened Basics
  import opened Outcomes

  type Token = int
  type Byte = n: int | 0 <= n < 256

  const WORD := 0x1_0000_0000_0000_0000

  /** What a hash algorithm may return. */
  datatype RawHash = Number(n: int) | Bytes(bytes: seq<Byte>) | Text(number: Option<int>, utf8: seq<Byte>)

  /** A text counts as the number that Python's integer parser reads from it, or else as its bytes. */
  function AsRead(h: RawHash): (r: RawHash)
    ensures !r.Text?
  {
    match h
    case Text(Some(n), _) => Number(n)
    case Text(None, utf8) => Bytes(utf8)
    case _ => h
  }

  function BigEndian(bytes: seq<Byte>): (n: nat)
    decreases |bytes|
  {
    if bytes == [] then 0 else BigEndian(bytes[..|bytes| - 1]) * 256 + bytes[|bytes| - 1]
  }

  /** Right-padded with zero bytes and cut to eight. */
  function FirstEight(bytes: seq<Byte>): seq<Byte> {
    seq(8, i requires 0 <= i < 8 => if i < |bytes| then bytes[i] else 0)
  }

  function Normalize(h: RawHash): int {
    match h
    case Number(n) => n % WORD
    case Bytes(bytes) => BigEndian(FirstEight(bytes))
    case Text(Some(n), _) => n % WORD
    case Text(None, utf8) => BigEndian(FirstEight(utf8))
  }

  lemma {:induction false} BigEndianRange(bytes: seq<Byte>)
    requires |bytes| <= 8
    ensures BigEndian(bytes) < Power256(|bytes|)
    decreases |bytes|
  {
    if bytes != [] { BigEndianRange(bytes[..|bytes| - 1]); }
  }

  function Power256(n: nat): nat { if n == 0 then 1 else Power256(n - 1) * 256 }

  lemma {:induction false} BigEndianInjective(a: seq<Byte>, b: seq<Byte>)
    requires |a| == |b| && BigEndian(a) == BigEndian(b)
    ensures a == b
    decreases |a|
  {
    if a != [] {
      var x, y := a[|a| - 1], b[|b| - 1];
      BigEndianInjective(a[..|a| - 1], b[..|b| - 1]);
      assert a == a[..|a| - 1] + [x] && b == b[..|b| - 1] + [y];
    }
  }

  lemma BigEndianStep(bytes: seq<Byte>, k: nat)
    requires k < |bytes|
    ensures BigEndian(bytes[..k + 1]) == BigEndian(bytes[..k]) * 256 + bytes[k]
  {
    assert bytes[..k + 1][..k] == bytes[..k];
  }

  /** Eight bytes as a number, the first byte the most significant one. */
  function Word(b: seq<int>): int
    requires |b| == 8
  {
    0x100_0000_0000_0000 * b[0] + 0x1_0000_0000_0000 * b[1] + 0x100_0000_0000 * b[2] + 0x1_0000_0000 * b[3]
    + 0x100_0000 * b[4] + 0x1_0000 * b[5] + 0x100 * b[6] + b[7]
  }

  lemma EightBytes(b: seq<Byte>)
    requires |b| == 8
    ensures BigEndian(b) == Word(b)
  {
    assert b[..0] == [] && b[..8] == b;
    BigEndianStep(b, 0);
    BigEndianStep(b, 1);
    BigEndianStep(b, 2);
    BigEndianStep(b, 3);
    BigEndianStep(b, 4);
    BigEndianStep(b, 5);
    BigEndianStep(b, 6);
    BigEndianStep(b, 7);
  }

  /** What a hash becomes: a number modulo 2^64, and of a byte string the first eight bytes, or as many as
      there are and then zeros, as a big-endian number. */
  lemma NormalizedValue(h: RawHash)
    ensures AsRead(h).Number? ==> (AsRead(h).n - Normalize(h)) % WORD == 0
    ensures AsRead(h).Bytes? ==>
      var b := AsRead(h).bytes;
      Normalize(h) == Word(if |b| >= 8 then b[..8] else b + seq(8 - |b|, _ => 0))
  {
    if AsRead(h).Bytes? {
      var b := AsRead(h).bytes;
      EightBytes(FirstEight(b));
      assert FirstEight(b) == if |b| >= 8 then b[..8] else b + seq(8 - |b|, _ => 0);
    }
  }

  /** A key is an unsigned 64-bit number. Two numbers get the same key exactly when they agree
      modulo 2^64, two byte strings exactly when their first eight bytes agree, and a text gets the key
      of what it is read as. */
  lemma NormalizeMeaning(g: RawHash, h: RawHash)
    ensures 0 <= Normalize(h) < WORD && Normalize(h) == Normalize(AsRead(h))
    ensures var a, b := AsRead(g), AsRead(h);
      && (a.Number? && b.Number? ==> (Normalize(g) == Normalize(h) <==> (a.n - b.n) % WORD == 0))
      && (a.Bytes? && b.Bytes? ==> (Normalize(g) == Normalize(h) <==> FirstEight(a.bytes) == FirstEight(b.bytes)))
  {
    var a, b := AsRead(g), AsRead(h);
    if b.Bytes? {
      BigEndianRange(FirstEight(b.bytes));
      assert Power256(8) == WORD;
      if a.Bytes? && Normalize(g) == Normalize(h) {
        BigEndianInjective(FirstEight(a.bytes), FirstEight(b.bytes));
      }
    }
  }

  // ----- keys -----

  datatype Metadata = Metadata(fmt: string, modelName: string, worldSize: int, workerId: int, kvDtype: string)

  datatype CacheEngineKey = CacheEngineKey(fmt: string, modelName: string, worldSize: int, workerId: int,
                                           chunkHash: int, kvDtype: string)

  datatype Key = Hash(hash: int) | Engine(key: CacheEngineKey)

  /** The span of tokens that a key stands for. */
  datatype Entry = Entry(start: int, end: int, key: Key)

  datatype TokenDatabase = TokenDatabase(
    hashFunc: (Option<int>, seq<Token>) -> RawHash,
    noneHash: int,
    metadata: Option<Metadata>,
    saveOnlyFirstRank: bool)
  {
    function HashTokens(tokens: seq<Token>, prefixHash: Option<int>): int {
      Normalize(hashFunc(prefixHash, tokens))
    }

    /** Engine keys need metadata; without it the assertion about it fails. */
    predicate CanMake(makeKey: bool) { makeKey ==> metadata.Some? }

    function MakeKey(hash: int, makeKey: bool): Key
      requires CanMake(makeKey)
    {
      if !makeKey then Hash(hash)
      else
        var m := metadata.value;
        Engine(CacheEngineKey(m.fmt, m.modelName, if saveOnlyFirstRank then 1 else m.worldSize, m.workerId, hash, m.kvDtype))
    }
  }

  /** Two engine keys are equal exactly when the hashes are and everything else about the databases that goes
      into a key; the world size counts as one when only the first rank saves. Bare keys are their hashes. */
  lemma KeysByHash(g: TokenDatabase, m: int, h: TokenDatabase, n: int)
    requires g.metadata.Some? && h.metadata.Some?
    ensures var a, b := g.metadata.value, h.metadata.value;
      g.MakeKey(m, true) == h.MakeKey(n, true) <==>
        && m == n && a.fmt == b.fmt && a.modelName == b.modelName && a.workerId == b.workerId && a.kvDtype == b.kvDtype
        && (if g.saveOnlyFirstRank then 1 else a.worldSize) == (if h.saveOnlyFirstRank then 1 else b.worldSize)
    ensures g.MakeKey(m, true) != h.MakeKey(n, false)
  {
  }

  lemma MadeKeys(db: TokenDatabase, m: int, n: int, makeKey: bool)
    requires db.CanMake(makeKey)
    ensures db.MakeKey(m, makeKey) == db.MakeKey(n, makeKey) <==> m == n
    ensures !makeKey ==> db.MakeKey(m, makeKey) == Hash(m)
  {
  }

  /** The number of tokens that the mask excludes. */
  function CountFalse(mask: seq<bool>): (n: nat)
    ensures n == multiset(mask)[false]
    decreases |mask|
  {
    if mask == [] then 0
    else
      assert mask == mask[..|mask| - 1] + [mask[|mask| - 1]];
      CountFalse(mask[..|mask| - 1]) + if mask[|mask| - 1] then 0 else 1
  }

  /** Sum of the first `k` offsets. */
  function OffsetSum(offsets: seq<int>, k: nat): int
    requires k <= |offsets|
  {
    if k == 0 then 0 else OffsetSum(offsets, k - 1) + offsets[k - 1]
  }

  /** The entries of the first `k` hashes: spans laid end to end from zero, as long as the offsets. */
  function HashEntries(db: TokenDatabase, hashes: seq<int>, offsets: seq<int>, makeKey: bool, k: nat): seq<Entry>
    requires k <= |hashes| && k <= |offsets| && db.CanMake(makeKey)
  {
    if k == 0 then []
    else
      HashEntries(db, hashes, offsets, makeKey, k - 1) +
      [Entry(OffsetSum(offsets, k - 1), OffsetSum(offsets, k), db.MakeKey(hashes[k - 1], makeKey))]
  }

  /** Entry `j` has the key of hash `j`, is as long as offset `j`, and starts where entry `j - 1` ends. */
  lemma {:induction false} HashEntryAt(db: TokenDatabase, hashes: seq<int>, offsets: seq<int>, makeKey: bool, k: nat, j: nat)
    requires j < k <= |hashes| && k <= |offsets| && db.CanMake(makeKey)
    ensures var r := HashEntries(db, hashes, offsets, makeKey, k);
      && |r| == k && r[j].key == db.MakeKey(hashes[j], makeKey)
      && r[j].end - r[j].start == offsets[j]
      && r[j].start == if j == 0 then 0 else r[j - 1].end
  {
    if k > 1 {
      HashEntryAt(db, hashes, offsets, makeKey, k - 1, if j < k - 1 then j else k - 2);
    }
  }

  /** Two entries have the same key exactly when their hashes are the same. */
  lemma HashEntryKeys(db: TokenDatabase, hashes: seq<int>, offsets: seq<int>, makeKey: bool, k: nat, i: nat, j: nat)
    requires i < k && j < k <= |hashes| && k <= |offsets| && db.CanMake(makeKey)
    ensures var r := HashEntries(db, hashes, offsets, makeKey, k);
      |r| == k && (r[i].key == r[j].key <==> hashes[i] == hashes[j])
  {
    HashEntryAt(db, hashes, offsets, makeKey, k, i);
    HashEntryAt(db, hashes, offsets, makeKey, k, j);
    MadeKeys(db, hashes[i], hashes[j], makeKey);
  }

  /** One entry per hash that has an offset; surplus hashes or offsets are ignored. */
  method ProcessHashes(db: TokenDatabase, hashes: seq<int>, offsets: Option<seq<int>>, makeKey: bool)
    returns (r: Outcome<seq<Entry>>)
    ensures offsets.None? ==> r == Outcome([], Some(AssertionError))
    ensures offsets.Some? ==>
      var n := Min(|hashes|, |offsets.value|);
      r == if n == 0 then Done([])
           else if db.CanMake(makeKey) then Done(HashEntries(db, hashes, offsets.value, makeKey, n))
           else Outcome([], Some(AssertionError))
  {
    if offsets == None {
      return Outcome([], Some(AssertionError));
    }
    var entries: seq<Entry>, startIdx, k := [], 0, 0;
    while k < |hashes| && k < |offsets.value|
      invariant 0 <= k <= Min(|hashes|, |offsets.value|) && startIdx == OffsetSum(offsets.value, k)
      invariant k > 0 ==> db.CanMake(makeKey)
      invariant entries == if k == 0 then [] else HashEntries(db, hashes, offsets.value, makeKey, k)
    {
      var endIdx := startIdx + offsets.value[k];
      if !db.CanMake(makeKey) {
        return Outcome(entries, Some(AssertionError));
      }
      entries := entries + [Entry(startIdx, endIdx, db.MakeKey(hashes[k], makeKey))];
      startIdx := endIdx;
      k := k + 1;
    }
    return Done(entries);
  }
}
