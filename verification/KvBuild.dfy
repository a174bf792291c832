/** Building the KV artifact of a stored text: the text is read back, hashed again, run through the model
    until the new keys have settled, its KV blocks are dumped, and its row is marked. */
module KvBuild {
  import opened Outcomes
  import opened Stripping
  import opened KeySettle
  import opened KvArtifact
  import opened TextDb

  type Rows = map<string, Row>
  type Dirs = map<string, KvDir>

  /** The index rows and the artifact directories after a build, and how the build ended. */
  datatype Built = Built(rows: Rows, dirs: Dirs, kid: string, dumped: nat, failure: Option<Failure>)

  /** What a build under `kid` does once the text has been hashed: `dir` is what would be dumped after
      `inference` succeeds. A failed build leaves no directory behind. */
  function Build(rows: Rows, dirs: Dirs, kid: string, inference: Option<Failure>, dir: KvDir, now: int): Built
    requires dir.manifest.Some?
  {
    var n := |dir.manifest.value|;
    if inference.Some? then Built(rows, dirs - {kid}, kid, 0, inference)
    else if n == 0 then Built(rows, dirs - {kid}, kid, 0, Some(RuntimeError))
    else if kid !in rows then Built(rows, dirs - {kid}, kid, n, Some(KeyError))
    else
      var row := rows[kid].(kvReady := true, kvRelDir := Some(kid), kvDumpedKeys := Some(n), kvUpdatedAt := Some(now));
      Built(rows[kid := row], dirs[kid := dir], kid, n, None)
  }

  /** What happens while a text is built: the keys before, how the model call fails, if it does, and the polls
      of the store after it. */
  datatype Attempt = Attempt(before: set<Bytes>, call: Option<Failure>, scans: seq<Scan>, quietPeriod: real) {
    ghost function Settle(): Outcome<set<Bytes>> {
      if call.Some? then Outcome({}, call)
      else Settled(scans, before, if quietPeriod < 0.0 then 0.0 else quietPeriod)
    }

    ghost function NewKeys(): set<Bytes> { Settle().result - before }
  }

  function DirOf(keys: seq<Bytes>, data: Store): KvDir {
    KvDir(DumpFiles(keys, data, |keys|), Some(DumpLines(keys, data, |keys|)))
  }

  /** Every row marked as ready has a directory with a manifest. */
  ghost predicate ReadyHaveDirs(rows: Rows, dirs: Dirs) {
    forall kid :: kid in rows && rows[kid].kvReady ==> HasDir(dirs, kid)
  }

  ghost predicate HasDir(dirs: Dirs, kid: string) {
    kid in dirs && dirs[kid].manifest.Some? && dirs[kid].manifest.value != []
  }

  /** A build keeps the marks true exactly when its row was not marked before, or inference succeeds and
      leaves keys with values: a failed rebuild removes the directory of the last good build but leaves
      its row marked. */
  lemma MarksStayTrue(rows: Rows, dirs: Dirs, kid: string, inference: Option<Failure>, dir: KvDir, now: int)
    requires dir.manifest.Some? && ReadyHaveDirs(rows, dirs)
    ensures var b := Build(rows, dirs, kid, inference, dir, now);
      ReadyHaveDirs(b.rows, b.dirs) <==>
      (kid in rows && rows[kid].kvReady ==> inference.None? && dir.manifest.value != [])
  {
    var b := Build(rows, dirs, kid, inference, dir, now);
    if b.failure.Some? && kid in rows && rows[kid].kvReady {
      assert !HasDir(b.dirs, kid);
    } else {
      forall id | id in b.rows && b.rows[id].kvReady ensures HasDir(b.dirs, id) {
        assert id != kid ==> HasDir(dirs, id);
      }
    }
  }

  /** A failed build leaves the rows alone and no directory of its own, not even one from before; one that
      succeeds leaves the directory dumped. Either way only its own row and directory can change. */
  lemma BuildLeaves(rows: Rows, dirs: Dirs, kid: string, inference: Option<Failure>, dir: KvDir, now: int)
    requires dir.manifest.Some?
    ensures var b := Build(rows, dirs, kid, inference, dir, now);
      && (b.failure.None? <==> inference.None? && dir.manifest.value != [] && kid in rows)
      && (b.failure.None? ==> b.rows[kid].kvReady && b.dirs[kid] == dir && b.dumped == |dir.manifest.value|)
      && (b.failure.Some? ==> b.rows == rows && kid !in b.dirs)
      && b.rows - {kid} == rows - {kid} && b.dirs - {kid} == dirs - {kid} && b.kid == kid
  {
  }

  /** A text is built and then rebuilt while the model is unreachable: its row says ready and its
      directory is gone. */
  lemma MarkOutlivesDirectory(kid: string, row: Row, dir: KvDir, now: int, later: int)
    requires dir.manifest.Some? && dir.manifest.value != []
    ensures var built := Build(map[kid := row], map[], kid, None, dir, now);
      var rebuilt := Build(built.rows, built.dirs, kid, Some(RuntimeError), dir, later);
      && ReadyHaveDirs(built.rows, built.dirs) && built.dirs == map[kid := dir]
      && rebuilt.rows[kid].kvReady && rebuilt.dirs == map[]
  {
    var rows := map[kid := row];
    var built := Build(rows, map[], kid, None, dir, now);
    assert HasDir(built.dirs, kid);
  }

  lemma PutAndDrop(dirs: Dirs, kid: string, first: KvDir, second: KvDir)
    ensures dirs[kid := first][kid := second] == dirs[kid := second]
    ensures dirs[kid := first] - {kid} == dirs - {kid} && dirs[kid := second] - {kid} == dirs - {kid}
  {
  }

  class KdnServer {
    const textDb: TextDatabase
    var kvRoot: Dirs

    constructor (textDb: TextDatabase)
      ensures this.textDb == textDb && kvRoot == map[]
    {
      this.textDb, kvRoot := textDb, map[];
    }

    ghost function After(r: Outcome<(string, nat)>): Built
      reads this, textDb
    {
      Built(textDb.rows, kvRoot, r.result.0, r.result.1, r.failure)
    }

    /** Dumps the keys into the text's directory and marks its row. */
    method DumpAndMark(kid: string, keys: seq<Bytes>, store: Redis, now: int) returns (dumped: nat, failure: Option<Failure>)
      requires textDb.Valid() && IsKid(kid)
      modifies this, textDb`rows
      ensures textDb.Valid() && kvRoot == old(kvRoot)[kid := DirOf(keys, store.data)]
      ensures dumped == |DumpLines(keys, store.data, |keys|)|
      ensures failure == if dumped == 0 then Some(RuntimeError) else if kid !in old(textDb.rows) then Some(KeyError) else None
      ensures textDb.rows == if failure.Some? then old(textDb.rows)
                             else old(textDb.rows)[kid := old(textDb.rows)[kid].(
                               kvReady := true, kvRelDir := Some(kid), kvDumpedKeys := Some(dumped), kvUpdatedAt := Some(now))]
    {
      var files, manifest;
      files, manifest, dumped := store.DumpKeys(keys);
      kvRoot := kvRoot[kid := KvDir(files, Some(manifest))];
      if dumped <= 0 {
        return dumped, Some(RuntimeError);
      }
      CleanKidOfKid(kid);
      failure := textDb.MarkKvReady(kid, kid, dumped, now);
    }

    /** Calls the model, waits for its keys and dumps them in the order of `sorted`, or cleans up. */
    method BuildDir(kid: string, attempt: Attempt, sorted: set<Bytes> -> seq<Bytes>, store: Redis, now: int)
      returns (r: Outcome<(string, nat)>)
      requires textDb.Valid() && IsKid(kid) && ClockRunsOn(attempt.scans)
      modifies this, textDb`rows
      ensures textDb.Valid()
      ensures After(r) == Build(old(textDb.rows), old(kvRoot), kid, attempt.Settle().failure,
                                DirOf(sorted(attempt.NewKeys()), store.data), now)
    {
      kvRoot := kvRoot[kid := KvDir(map[], None)];
      var failure, dumped := attempt.call, 0;
      if failure.None? {
        var settled := WaitKeysSettle(attempt.scans, attempt.before, attempt.quietPeriod);
        failure := settled.failure;
        if failure.None? {
          dumped, failure := DumpAndMark(kid, sorted(settled.result - attempt.before), store, now);
        }
      }
      PutAndDrop(old(kvRoot), kid, KvDir(map[], None), DirOf(sorted(attempt.NewKeys()), store.data));
      if failure.Some? {
        kvRoot := kvRoot - {kid};
      }
      return Outcome((kid, dumped), failure);
    }

    /** Builds the artifact of a text. */
    method BuildFromText(text: string, attempt: Attempt, sorted: set<Bytes> -> seq<Bytes>, store: Redis, now: int)
      returns (r: Outcome<(string, nat)>)
      requires textDb.Valid() && ClockRunsOn(attempt.scans)
      modifies this, textDb`rows
      ensures textDb.Valid()
      ensures After(r) ==
        if Normalize(text) == "" then Built(old(textDb.rows), old(kvRoot), "", 0, Some(ValueError))
        else Build(old(textDb.rows), old(kvRoot), Kid(textDb.sha, text), attempt.Settle().failure,
                   DirOf(sorted(attempt.NewKeys()), store.data), now)
    {
      var norm := Normalize(text);
      if norm == "" {
        return Outcome(("", 0), Some(ValueError));
      }
      NormalizeIsIdempotent(text);
      var kid := Kid(textDb.sha, norm);
      r := BuildDir(kid, attempt, sorted, store, now);
    }

    /** The request to build the text with the given id. The rebuilt hash is the id asked for, so marking
        it ready always finds its row: it never fails with a missing key. */
    method BuildKv(kid: string, attempt: Attempt, sorted: set<Bytes> -> seq<Bytes>, store: Redis, now: int)
      returns (r: Outcome<(string, nat)>)
      requires textDb.Valid() && ClockRunsOn(attempt.scans)
      modifies this, textDb`rows
      ensures textDb.Valid()
      ensures var k := CleanKid(kid);
        After(r) ==
          if Strip(kid, TextDb.White) == "" then Built(old(textDb.rows), old(kvRoot), "", 0, Some(ValueError))
          else if !old(textDb.State()).Stored(k) then Built(old(textDb.rows), old(kvRoot), "", 0, Some(NotFound))
          else Build(old(textDb.rows), old(kvRoot), k, attempt.Settle().failure,
                     DirOf(sorted(attempt.NewKeys()), store.data), now)
      ensures attempt.call != Some(KeyError) ==> r.failure != Some(KeyError)
    {
      if Strip(kid, TextDb.White) == "" {
        return Outcome(("", 0), Some(ValueError));
      }
      ghost var db := textDb.State();
      var items, miss := textDb.GetMany([CleanKid(kid)]);
      FoundOne(db, CleanKid(kid));
      if miss != [] || items == [] {
        return Outcome(("", 0), Some(NotFound));
      }
      ItemHashesToItsId(textDb.sha, db, CleanKid(kid));
      r := BuildFromText(items[0].content, attempt, sorted, store, now);
    }
  }

  lemma FoundOne(db: Db, kid: string)
    ensures db.Found([kid], 1) == if db.Stored(kid) then [db.ItemOf(kid)] else []
    ensures db.Missed([kid], 1) == if db.Stored(kid) then [] else [kid]
  {
    assert db.Found([kid], 0) == [] && db.Missed([kid], 0) == [];
  }
}
