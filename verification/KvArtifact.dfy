/** KV artifacts: a directory with one dump file per key and a manifest, written from one key-value
    store and injected into another. Files are a map from relative paths, manifest lines are records. */
module KvArtifact {
  import opened Outcomes
  import opened Base64Url

  type Bytes = seq<Byte>

  type Store = map<Bytes, Bytes>

  /** A line of a manifest: empty, not JSON, JSON of another kind, or an object with the fields that are
      read. */
  datatype Line = Blank | Garbage | NotObject | Record(keyB64url: Option<string>, file: Option<string>, bytes: int)

  datatype KvDir = KvDir(files: map<string, Bytes>, manifest: Option<seq<Line>>)

  function FileOf(key: Bytes): string { "blocks/" + (Encode(key) + ".dump") }

  function RecordOf(key: Bytes, value: Bytes): Line { Record(Some(Encode(key)), Some(FileOf(key)), |value|) }

  lemma FileOfInjective(a: Bytes, b: Bytes)
    ensures FileOf(a) == FileOf(b) <==> a == b
  {
    if FileOf(a) == FileOf(b) {
      assert FileOf(a)[7..] == Encode(a) + ".dump" && FileOf(b)[7..] == Encode(b) + ".dump";
      assert |Encode(a)| == |Encode(b)|;
      assert (Encode(a) + ".dump")[..|Encode(a)|] == Encode(a) && (Encode(b) + ".dump")[..|Encode(b)|] == Encode(b);
      EncodeInjective(a, b);
    }
  }

  // ----- dumping -----

  /** The files and manifest lines for the first `k` keys; keys without a value are left out. */
  function DumpFiles(keys: seq<Bytes>, source: Store, k: nat): map<string, Bytes>
    requires k <= |keys|
  {
    if k == 0 then map[]
    else if keys[k - 1] in source then DumpFiles(keys, source, k - 1)[FileOf(keys[k - 1]) := source[keys[k - 1]]]
    else DumpFiles(keys, source, k - 1)
  }

  function DumpLines(keys: seq<Bytes>, source: Store, k: nat): seq<Line>
    requires k <= |keys|
  {
    if k == 0 then []
    else if keys[k - 1] in source then DumpLines(keys, source, k - 1) + [RecordOf(keys[k - 1], source[keys[k - 1]])]
    else DumpLines(keys, source, k - 1)
  }

  /** Each dumped key has its own file with exactly its value. */
  lemma {:induction false} DumpedFiles(keys: seq<Bytes>, source: Store, k: nat, j: nat)
    requires j < k <= |keys| && keys[j] in source
    ensures FileOf(keys[j]) in DumpFiles(keys, source, k)
    ensures DumpFiles(keys, source, k)[FileOf(keys[j])] == source[keys[j]]
  {
    FileOfInjective(keys[j], keys[k - 1]);
    if j < k - 1 {
      DumpedFiles(keys, source, k - 1, j);
    }
  }

  // ----- injecting -----

  datatype InjectResult = InjectResult(injected: nat, missingFiles: nat, keysB64url: seq<string>, payloadBytes: nat, payloadFiles: nat)

  /** How far an injection has come: the target, the counts, and the failure that stopped it. */
  datatype Progress = Progress(target: Store, result: InjectResult, failure: Option<Failure>)
  {
    function Fail(f: Failure): Progress { this.(failure := Some(f)) }

    function Inject(files: map<string, Bytes>, line: Line, returnKeys: bool): Progress {
      if failure.Some? || line.Blank? then this
      else if line.NotObject? then Fail(AttributeError)
      else if line.Garbage? || line.keyB64url.None? || line.file.None? then Fail(ValueError)
      else
        var key := Decode(line.keyB64url.value);
        if key.failure.Some? then Fail(ValueError)
        else if line.file.value !in files then this.(result := result.(missingFiles := result.missingFiles + 1))
        else
          var value := files[line.file.value];
          Progress(target[key.result := value],
                   InjectResult(result.injected + 1, result.missingFiles,
                                result.keysB64url + if returnKeys then [line.keyB64url.value] else [],
                                result.payloadBytes + |value|, result.payloadFiles + 1),
                   None)
    }
  }

  function Fresh(target: Store): Progress { Progress(target, InjectResult(0, 0, [], 0, 0), None) }

  /** The effect of a manifest, line by line. */
  function InjectLines(files: map<string, Bytes>, lines: seq<Line>, target: Store, returnKeys: bool): Progress
    decreases |lines|
  {
    if lines == [] then Fresh(target)
    else InjectLines(files, lines[..|lines| - 1], target, returnKeys).Inject(files, lines[|lines| - 1], returnKeys)
  }

  lemma InjectSnoc(files: map<string, Bytes>, lines: seq<Line>, line: Line, target: Store, returnKeys: bool)
    ensures InjectLines(files, lines + [line], target, returnKeys) ==
      InjectLines(files, lines, target, returnKeys).Inject(files, line, returnKeys)
  {
    assert (lines + [line])[..|lines|] == lines;
  }

  /** The target keeps every key that no line names. */
  lemma {:induction false} OnlyListedKeysChange(files: map<string, Bytes>, lines: seq<Line>, target: Store,
                                                returnKeys: bool, key: Bytes)
    requires forall i :: 0 <= i < |lines| && lines[i].Record? && lines[i].keyB64url.Some? ==>
      Decode(lines[i].keyB64url.value) != Done(key)
    ensures var p := InjectLines(files, lines, target, returnKeys);
      (key in p.target <==> key in target) && (key in target ==> p.target[key] == target[key])
    decreases |lines|
  {
    if lines != [] {
      OnlyListedKeysChange(files, lines[..|lines| - 1], target, returnKeys, key);
    }
  }

  /** A line that injection can read. */
  predicate Fine(line: Line) {
    line.Blank? || (line.Record? && line.keyB64url.Some? && line.file.Some? && Decode(line.keyB64url.value).failure.None?)
  }

  predicate AllFine(lines: seq<Line>) { forall i :: 0 <= i < |lines| ==> Fine(lines[i]) }

  lemma InjectsFine(p: Progress, files: map<string, Bytes>, line: Line, returnKeys: bool)
    requires p.failure.None?
    ensures var q := p.Inject(files, line, returnKeys);
      && (Fine(line) ==> q.failure == None)
      && (!Fine(line) ==> q == p.Fail(if line.NotObject? then AttributeError else ValueError))
  {
  }

  lemma {:induction false} FineLines(files: map<string, Bytes>, lines: seq<Line>, target: Store, returnKeys: bool)
    requires AllFine(lines)
    ensures InjectLines(files, lines, target, returnKeys).failure == None
    decreases |lines|
  {
    if lines != [] {
      var front := lines[..|lines| - 1];
      FineLines(files, front, target, returnKeys);
      InjectsFine(InjectLines(files, front, target, returnKeys), files, lines[|lines| - 1], returnKeys);
    }
  }

  /** The first line that injection cannot read ends it: nothing after it has an effect, and a line that is JSON
      but no object fails in another way than the rest. */
  lemma FirstBadLine(files: map<string, Bytes>, good: seq<Line>, bad: Line, more: seq<Line>, target: Store, returnKeys: bool)
    requires AllFine(good) && !Fine(bad)
    ensures InjectLines(files, good + [bad] + more, target, returnKeys) ==
      InjectLines(files, good, target, returnKeys).Fail(if bad.NotObject? then AttributeError else ValueError)
  {
    var lines, k := good + [bad] + more, |good| + 1;
    FineLines(files, good, target, returnKeys);
    InjectSnoc(files, good, bad, target, returnKeys);
    assert lines[..k] == good + [bad];
    InjectStops(files, lines, k, target, returnKeys);
  }

  /** The line names a key, and the file for it is there, or is not. */
  predicate Gives(files: map<string, Bytes>, line: Line, key: Bytes) {
    line.Record? && line.keyB64url.Some? && line.file.Some? && Decode(line.keyB64url.value) == Done(key)
    && line.file.value in files
  }

  predicate Present(files: map<string, Bytes>, line: Line) { line.Record? && line.file.Some? && line.file.value in files }

  predicate Missing(files: map<string, Bytes>, line: Line) { line.Record? && line.file.Some? && line.file.value !in files }

  /** The positions of the lines that satisfy a predicate. */
  ghost function Where(lines: seq<Line>, p: Line -> bool): set<nat> { set i | 0 <= i < |lines| && p(lines[i]) }

  lemma WhereSnoc(lines: seq<Line>, line: Line, p: Line -> bool)
    ensures |Where(lines + [line], p)| == if p(line) then |Where(lines, p)| + 1 else |Where(lines, p)|
  {
    var s, t := Where(lines, p), Where(lines + [line], p);
    assert t == if p(line) then s + {|lines|} else s;
  }

  /** Every record of a manifest that can be read is counted once: as injected if its file is there, else as
      missing. */
  lemma {:induction false} RecordsAreCounted(files: map<string, Bytes>, lines: seq<Line>, target: Store, returnKeys: bool)
    requires AllFine(lines)
    ensures var p := InjectLines(files, lines, target, returnKeys);
      && p.failure == None
      && p.result.injected == |Where(lines, line => Present(files, line))|
      && p.result.missingFiles == |Where(lines, line => Missing(files, line))|
      && p.result.payloadFiles == p.result.injected
    decreases |lines|
  {
    var present, missing := line => Present(files, line), line => Missing(files, line);
    if lines == [] {
      assert Where(lines, present) == {} && Where(lines, missing) == {};
    } else {
      var front, last := lines[..|lines| - 1], lines[|lines| - 1];
      assert lines == front + [last];
      RecordsAreCounted(files, front, target, returnKeys);
      WhereSnoc(front, last, present);
      WhereSnoc(front, last, missing);
    }
  }

  /** Of a manifest that can be read, the last line that gives a key a file decides its value; a key that no line
      gives one keeps what it had. */
  lemma {:induction false} LastLineDecides(files: map<string, Bytes>, lines: seq<Line>, target: Store, returnKeys: bool,
                                           key: Bytes, k: nat)
    requires AllFine(lines) && k <= |lines| && (k > 0 ==> Gives(files, lines[k - 1], key))
    requires forall j :: k <= j < |lines| ==> !Gives(files, lines[j], key)
    ensures var p := InjectLines(files, lines, target, returnKeys);
      && p.failure == None
      && (k > 0 ==> key in p.target && p.target[key] == files[lines[k - 1].file.value])
      && (k == 0 ==> (key in p.target <==> key in target) && (key in target ==> p.target[key] == target[key]))
    decreases |lines|
  {
    if lines != [] {
      var front := lines[..|lines| - 1];
      FineLines(files, front, target, returnKeys);
      if k < |lines| { LastLineDecides(files, front, target, returnKeys, key, k); }
    }
  }

  // ----- dump, then inject -----

  function Restrict(source: Store, keys: seq<Bytes>): Store {
    map key | key in source && key in keys :: source[key]
  }

  function SumBytes(lines: seq<Line>): int
    decreases |lines|
  {
    if lines == [] then 0
    else SumBytes(lines[..|lines| - 1]) + if lines[|lines| - 1].Record? then lines[|lines| - 1].bytes else 0
  }

  function KeyNames(lines: seq<Line>): seq<string>
    decreases |lines|
  {
    if lines == [] then []
    else
      var last := lines[|lines| - 1];
      KeyNames(lines[..|lines| - 1]) + if last.Record? && last.keyB64url.Some? then [last.keyB64url.value] else []
  }

  /** A dumped record writes its value back under its key. */
  lemma InjectRecord(p: Progress, files: map<string, Bytes>, key: Bytes, value: Bytes, returnKeys: bool)
    requires p.failure.None? && FileOf(key) in files && files[FileOf(key)] == value
    ensures p.Inject(files, RecordOf(key, value), returnKeys) ==
      Progress(p.target[key := value],
               InjectResult(p.result.injected + 1, p.result.missingFiles,
                            p.result.keysB64url + if returnKeys then [Encode(key)] else [],
                            p.result.payloadBytes + |value|, p.result.payloadFiles + 1),
               None)
  {
    RoundTrip(key);
  }

  /** All lines injected into what is now `target`. */
  function Injected(target: Store, lines: seq<Line>, returnKeys: bool): Progress {
    Progress(target,
             InjectResult(|lines|, 0, if returnKeys then KeyNames(lines) else [], NonNegative(SumBytes(lines)), |lines|),
             None)
  }

  lemma InjectedSnoc(target: Store, lines: seq<Line>, key: Bytes, value: Bytes, returnKeys: bool)
    requires SumBytes(lines) >= 0
    ensures var before, r := Injected(target, lines, returnKeys).result, RecordOf(key, value);
      Injected(target[key := value], lines + [r], returnKeys) ==
        Progress(target[key := value],
                 InjectResult(before.injected + 1, before.missingFiles,
                              before.keysB64url + if returnKeys then [Encode(key)] else [],
                              before.payloadBytes + |value|, before.payloadFiles + 1),
                 None)
    ensures SumBytes(lines + [RecordOf(key, value)]) >= 0
  {
    RecordSnoc(lines, key, value);
  }

  lemma InjectOneMore(p: Progress, target: Store, lines: seq<Line>, files: map<string, Bytes>, key: Bytes, value: Bytes,
                      returnKeys: bool)
    requires p == Injected(target, lines, returnKeys) && SumBytes(lines) >= 0
    requires FileOf(key) in files && files[FileOf(key)] == value
    ensures p.Inject(files, RecordOf(key, value), returnKeys) ==
      Injected(target[key := value], lines + [RecordOf(key, value)], returnKeys)
  {
    InjectRecord(p, files, key, value, returnKeys);
    InjectedSnoc(target, lines, key, value, returnKeys);
  }

  /** What injecting the lines of the first `k` keys does, given files that hold their values. */
  lemma {:induction false} InjectDumped(keys: seq<Bytes>, source: Store, files: map<string, Bytes>, k: nat,
                                        target: Store, returnKeys: bool)
    requires k <= |keys|
    requires forall j :: 0 <= j < k && keys[j] in source ==>
      FileOf(keys[j]) in files && files[FileOf(keys[j])] == source[keys[j]]
    ensures var lines := DumpLines(keys, source, k);
      InjectLines(files, lines, target, returnKeys) == Injected(target + Restrict(source, keys[..k]), lines, returnKeys)
    ensures SumBytes(DumpLines(keys, source, k)) >= 0
  {
    if k == 0 {
      assert target + Restrict(source, keys[..0]) == target;
    } else {
      InjectDumped(keys, source, files, k - 1, target, returnKeys);
      RestrictSnoc(keys, source, k, target);
      if keys[k - 1] in source {
        var lines, key, value := DumpLines(keys, source, k - 1), keys[k - 1], source[keys[k - 1]];
        InjectSnoc(files, lines, RecordOf(key, value), target, returnKeys);
        var p, now := InjectLines(files, lines, target, returnKeys), target + Restrict(source, keys[..k - 1]);
        InjectOneMore(p, now, lines, files, key, value, returnKeys);
        InjectedSnoc(now, lines, key, value, returnKeys);
      }
    }
  }

  lemma RecordSnoc(lines: seq<Line>, key: Bytes, value: Bytes)
    ensures KeyNames(lines + [RecordOf(key, value)]) == KeyNames(lines) + [Encode(key)]
    ensures SumBytes(lines + [RecordOf(key, value)]) == SumBytes(lines) + |value|
  {
    assert (lines + [RecordOf(key, value)])[..|lines|] == lines;
  }

  function NonNegative(n: int): nat { if n < 0 then 0 else n }

  lemma RestrictSnoc(keys: seq<Bytes>, source: Store, k: nat, target: Store)
    requires 0 < k <= |keys|
    ensures var key := keys[k - 1];
      target + Restrict(source, keys[..k]) ==
        if key in source then (target + Restrict(source, keys[..k - 1]))[key := source[key]]
        else target + Restrict(source, keys[..k - 1])
  {
    assert keys[..k] == keys[..k - 1] + [keys[k - 1]];
  }

  /** Injecting a dumped directory writes exactly the dumped pairs and leaves every other key of the
      target alone; no file is missing, and the payload is the sum of the sizes in the manifest. */
  lemma DumpThenInject(keys: seq<Bytes>, source: Store, target: Store, returnKeys: bool)
    ensures var lines := DumpLines(keys, source, |keys|);
      var p := InjectLines(DumpFiles(keys, source, |keys|), lines, target, returnKeys);
      && p.failure == None
      && p.target == target + Restrict(source, keys)
      && p.result.injected == p.result.payloadFiles == |lines| && p.result.missingFiles == 0
      && p.result.payloadBytes == SumBytes(lines)
      && (returnKeys ==> p.result.keysB64url == KeyNames(lines))
  {
    forall j | 0 <= j < |keys| && keys[j] in source
      ensures FileOf(keys[j]) in DumpFiles(keys, source, |keys|)
      ensures DumpFiles(keys, source, |keys|)[FileOf(keys[j])] == source[keys[j]]
    {
      DumpedFiles(keys, source, |keys|, j);
    }
    InjectDumped(keys, source, DumpFiles(keys, source, |keys|), |keys|, target, returnKeys);
    assert keys[..|keys|] == keys;
  }

  /** Nothing is dumped exactly when none of the keys has a value. */
  lemma {:induction false} NothingDumped(keys: seq<Bytes>, source: Store, k: nat)
    requires k <= |keys|
    ensures DumpLines(keys, source, k) == [] <==> forall j :: 0 <= j < k ==> keys[j] !in source
  {
    if k > 0 { NothingDumped(keys, source, k - 1); }
  }

  // ----- the stores -----

  class Redis {
    var data: Store

    constructor (data: Store)
      ensures this.data == data
    {
      this.data := data;
    }

    /** Writes one dump file and one manifest line per key that has a value. */
    method DumpKeys(keys: seq<Bytes>) returns (files: map<string, Bytes>, manifest: seq<Line>, dumped: nat)
      ensures files == DumpFiles(keys, data, |keys|)
      ensures manifest == DumpLines(keys, data, |keys|) && dumped == |manifest|
    {
      files, manifest, dumped := map[], [], 0;
      var i := 0;
      while i < |keys|
        invariant 0 <= i <= |keys| && files == DumpFiles(keys, data, i)
        invariant manifest == DumpLines(keys, data, i) && dumped == |manifest|
      {
        var key := keys[i];
        i := i + 1;
        if key !in data {
          continue;
        }
        var fname := Encode(key) + ".dump";
        files := files["blocks/" + fname := data[key]];
        manifest := manifest + [Record(Some(Encode(key)), Some("blocks/" + fname), |data[key]|)];
        dumped := dumped + 1;
      }
    }

    /** Writes the values of a directory's manifest to the store, up to the first bad line. */
    method InjectKvDir(dir: KvDir, returnKeys: bool) returns (r: Outcome<InjectResult>)
      modifies this
      ensures dir.manifest.None? ==> r.failure == Some(FileNotFoundError) && data == old(data)
      ensures dir.manifest.Some? ==>
        Progress(data, r.result, r.failure) == InjectLines(dir.files, dir.manifest.value, old(data), returnKeys)
    {
      var result := InjectResult(0, 0, [], 0, 0);
      if dir.manifest.None? {
        return Outcome(result, Some(FileNotFoundError));
      }
      var lines := dir.manifest.value;
      var failure := None;
      var i := 0;
      while i < |lines| && failure.None?
        invariant 0 <= i <= |lines|
        invariant Progress(data, result, failure) == InjectLines(dir.files, lines[..i], old(data), returnKeys)
      {
        assert lines[..i + 1] == lines[..i] + [lines[i]];
        InjectSnoc(dir.files, lines[..i], lines[i], old(data), returnKeys);
        result, failure := InjectOne(dir.files, lines[i], returnKeys, result);
        i := i + 1;
      }
      InjectStops(dir.files, lines, i, old(data), returnKeys);
      assert lines[..|lines|] == lines;
      return Outcome(result, failure);
    }

    /** One line: decode the key, look for the file, write the value. */
    method InjectOne(files: map<string, Bytes>, line: Line, returnKeys: bool, before: InjectResult)
      returns (result: InjectResult, failure: Option<Failure>)
      modifies this
      ensures Progress(data, result, failure) == Progress(old(data), before, None).Inject(files, line, returnKeys)
    {
      result, failure := before, None;
      if line.Blank? {
        return;
      }
      if line.NotObject? {
        return result, Some(AttributeError);
      }
      if line.Garbage? || line.keyB64url.None? || line.file.None? {
        return result, Some(ValueError);
      }
      var key := Decode(line.keyB64url.value);
      if key.failure.Some? {
        return result, Some(ValueError);
      }
      if line.file.value !in files {
        return result.(missingFiles := result.missingFiles + 1), None;
      }
      var value := files[line.file.value];
      data := data[key.result := value];
      result := result.(injected := result.injected + 1, payloadBytes := result.payloadBytes + |value|,
                        payloadFiles := result.payloadFiles + 1);
      if returnKeys {
        result := result.(keysB64url := result.keysB64url + [line.keyB64url.value]);
      }
    }
  }

  /** Lines after the first bad one have no effect. */
  lemma {:induction false} InjectStops(files: map<string, Bytes>, lines: seq<Line>, i: nat, target: Store, returnKeys: bool)
    requires i <= |lines| && (i < |lines| ==> InjectLines(files, lines[..i], target, returnKeys).failure.Some?)
    ensures InjectLines(files, lines, target, returnKeys) == InjectLines(files, lines[..i], target, returnKeys)
    decreases |lines|
  {
    if i == |lines| {
      assert lines[..i] == lines;
    } else {
      var front := lines[..|lines| - 1];
      assert front[..i] == lines[..i];
      if i <= |front| {
        InjectStops(files, front, i, target, returnKeys);
      }
    }
  }
}
