/** The capability contract of an instance: its canonical form, and the comparison of two instances. */
module Capability {
  import opened Outcomes
  import opened CanonicalJson

  type Number = t: string | NumberText(t) witness "0"

  datatype ModelCapability = ModelCapability(identifier: Option<string>, revision: Option<string>)

  datatype AdapterCapability = AdapterCapability(identifier: string, revision: Option<string>,
                                                 configuration: Option<map<string, Json>>, configurationHash: Option<string>)

  datatype KvCacheCapability = KvCacheCapability(layout: Option<string>, schemaVersion: Option<string>, dtype: Option<string>,
                                                 blockSize: Option<Number>, layoutParameters: map<string, Json>)

  datatype ParallelismCapability = ParallelismCapability(tensorParallelSize: Option<Number>, pipelineParallelSize: Option<Number>,
                                                         dataParallelSize: Option<Number>)

  datatype RuntimeCapability = RuntimeCapability(vllmVersion: Option<string>, lmcacheVersion: Option<string>,
                                                 supportedCacheFeatures: seq<string>)

  datatype InstanceCapability = InstanceCapability(schemaVersion: string, model: ModelCapability, tokenizer: ModelCapability,
                                                   adapters: seq<AdapterCapability>, kvCache: KvCacheCapability,
                                                   parallelism: ParallelismCapability, runtime: RuntimeCapability)

  // ----- dictionaries without their absent fields -----

  type Fields = seq<(string, Option<Json>)>

  function MembersOf(fields: Fields, k: nat): map<string, Json>
    requires k <= |fields|
  {
    if k == 0 then map[]
    else
      match fields[k - 1].1
      case None => MembersOf(fields, k - 1)
      case Some(v) => MembersOf(fields, k - 1)[fields[k - 1].0 := v]
  }

  function ObjOf(fields: Fields): Json { Obj(MembersOf(fields, |fields|)) }

  predicate Distinct(fields: Fields) {
    forall i, j :: 0 <= i < j < |fields| ==> fields[i].0 != fields[j].0
  }

  lemma {:induction false} MembersOfKey(fields: Fields, k: nat, i: nat)
    requires Distinct(fields) && k <= |fields| && i < |fields|
    ensures var m, key := MembersOf(fields, k), fields[i].0;
      if i < k && fields[i].1.Some? then key in m && m[key] == fields[i].1.value else key !in m
  {
    if k > 0 { MembersOfKey(fields, k - 1, i); }
  }

  function Strings(s: Option<string>): Option<Json> { if s.Some? then Some(Str(s.value)) else None }

  function Numbers(n: Option<Number>): Option<Json> { if n.Some? then Some(Num(n.value)) else None }

  function AdapterFields(a: AdapterCapability): Fields {
    [("identifier", Some(Str(a.identifier))), ("revision", Strings(a.revision)),
     ("configuration", if a.configuration.Some? then Some(Obj(a.configuration.value)) else None),
     ("configuration_hash", Strings(a.configurationHash))]
  }

  function AdapterJson(a: AdapterCapability): Json {
    ObjOf(AdapterFields(a))
  }

  function AdapterItems(adapters: seq<AdapterCapability>): seq<Json> {
    seq(|adapters|, i requires 0 <= i < |adapters| => AdapterJson(adapters[i]))
  }

  function TextItems(names: seq<string>): seq<Json> { seq(|names|, i requires 0 <= i < |names| => Str(names[i])) }

  function Features(names: seq<string>): Json { Arr(TextItems(SortStrings(names))) }

  // ----- the canonical form -----

  const PATHS: seq<seq<string>> := [
    ["schema_version"],
    ["model", "identifier"], ["model", "revision"],
    ["tokenizer", "identifier"], ["tokenizer", "revision"],
    ["adapters"],
    ["kv_cache", "layout"], ["kv_cache", "schema_version"], ["kv_cache", "dtype"], ["kv_cache", "block_size"],
    ["kv_cache", "layout_parameters"],
    ["parallelism", "tensor_parallel_size"], ["parallelism", "pipeline_parallel_size"], ["parallelism", "data_parallel_size"],
    ["runtime", "vllm_version"], ["runtime", "lmcache_version"], ["runtime", "supported_cache_features"]]

  /** The seventeen values that are compared, in the order of their paths. */
  datatype Values = Values(
    schema: Option<Json>, modelId: Option<Json>, modelRevision: Option<Json>, tokenizerId: Option<Json>,
    tokenizerRevision: Option<Json>, adapters: Option<Json>, layout: Option<Json>, kvSchema: Option<Json>,
    dtype: Option<Json>, blockSize: Option<Json>, layoutParameters: Option<Json>, tensorSize: Option<Json>,
    pipelineSize: Option<Json>, dataSize: Option<Json>, vllm: Option<Json>, lmcache: Option<Json>, features: Option<Json>)
  {
    function Nth(k: nat): Option<Json>
      requires k < 17
    {
      if k == 0 then schema
      else if k == 1 then modelId
      else if k == 2 then modelRevision
      else if k == 3 then tokenizerId
      else if k == 4 then tokenizerRevision
      else if k == 5 then adapters
      else if k == 6 then layout
      else if k == 7 then kvSchema
      else if k == 8 then dtype
      else if k == 9 then blockSize
      else if k == 10 then layoutParameters
      else if k == 11 then tensorSize
      else if k == 12 then pipelineSize
      else if k == 13 then dataSize
      else if k == 14 then vllm
      else if k == 15 then lmcache
      else features
    }
  }

  function ValuesOf(c: InstanceCapability): Values {
    Values(
      Some(Str(c.schemaVersion)),
      Strings(c.model.identifier), Strings(c.model.revision),
      Strings(c.tokenizer.identifier), Strings(c.tokenizer.revision),
      Some(Arr(AdapterItems(c.adapters))),
      Strings(c.kvCache.layout), Strings(c.kvCache.schemaVersion), Strings(c.kvCache.dtype), Numbers(c.kvCache.blockSize),
      Some(Obj(c.kvCache.layoutParameters)),
      Numbers(c.parallelism.tensorParallelSize), Numbers(c.parallelism.pipelineParallelSize), Numbers(c.parallelism.dataParallelSize),
      Strings(c.runtime.vllmVersion), Strings(c.runtime.lmcacheVersion), Some(Features(c.runtime.supportedCacheFeatures)))
  }

  function ModelFields(identifier: Option<Json>, revision: Option<Json>): Fields {
    [("identifier", identifier), ("revision", revision)]
  }

  function KvCacheFields(vs: Values): Fields {
    [("layout", vs.layout), ("schema_version", vs.kvSchema), ("dtype", vs.dtype), ("block_size", vs.blockSize),
     ("layout_parameters", vs.layoutParameters)]
  }

  function ParallelismFields(vs: Values): Fields {
    [("tensor_parallel_size", vs.tensorSize), ("pipeline_parallel_size", vs.pipelineSize), ("data_parallel_size", vs.dataSize)]
  }

  function RuntimeFields(vs: Values): Fields {
    [("vllm_version", vs.vllm), ("lmcache_version", vs.lmcache), ("supported_cache_features", vs.features)]
  }

  function TopFields(vs: Values): Fields {
    [("schema_version", vs.schema), ("model", Some(ObjOf(ModelFields(vs.modelId, vs.modelRevision)))),
     ("tokenizer", Some(ObjOf(ModelFields(vs.tokenizerId, vs.tokenizerRevision)))),
     ("adapters", vs.adapters), ("kv_cache", Some(ObjOf(KvCacheFields(vs)))), ("parallelism", Some(ObjOf(ParallelismFields(vs)))),
     ("runtime", Some(ObjOf(RuntimeFields(vs))))]
  }

  /** The canonical dictionary: absent values have no key, features are a sorted set, adapters keep
      their order. */
  function Canonical(c: InstanceCapability): Json { ObjOf(TopFields(ValuesOf(c))) }

  ghost function CanonicalText(c: InstanceCapability): string { Print(Canonical(c)) }

  ghost function Fingerprint(c: InstanceCapability, sha: string -> string): string { "sha256:" + sha(CanonicalText(c)) }

  // ----- looking up a path -----

  /** The value at a path; nothing when a key is missing on the way or the value is null. */
  function AtPath(v: Json, parts: seq<string>): Option<Json>
    decreases |parts|
  {
    if parts == [] then if v.Null? then None else Some(v)
    else if v.Obj? && parts[0] in v.members then AtPath(v.members[parts[0]], parts[1..])
    else None
  }

  method At(data: Json, parts: seq<string>) returns (r: Option<Json>)
    ensures r == AtPath(data, parts)
  {
    var value := data;
    var i := 0;
    assert parts[0..] == parts;
    while i < |parts|
      invariant 0 <= i <= |parts| && AtPath(value, parts[i..]) == AtPath(data, parts)
    {
      assert parts[i..][1..] == parts[i + 1..];
      if !value.Obj? || parts[i] !in value.members {
        return None;
      }
      value := value.members[parts[i]];
      i := i + 1;
    }
    return if value.Null? then None else Some(value);
  }

  /** A value that may stand in a canonical dictionary: there are no nulls. */
  predicate NotNull(v: Option<Json>) { v.Some? ==> !v.value.Null? }

  lemma OneKey(fields: Fields, i: nat)
    requires Distinct(fields) && i < |fields| && NotNull(fields[i].1)
    ensures AtPath(ObjOf(fields), [fields[i].0]) == fields[i].1
  {
    MembersOfKey(fields, |fields|, i);
    assert [fields[i].0][1..] == [];
  }

  lemma TwoKeys(top: Fields, i: nat, sub: Fields, j: nat)
    requires Distinct(top) && i < |top| && top[i].1 == Some(ObjOf(sub))
    requires Distinct(sub) && j < |sub| && NotNull(sub[j].1)
    ensures AtPath(ObjOf(top), [top[i].0, sub[j].0]) == sub[j].1
  {
    MembersOfKey(top, |top|, i);
    OneKey(sub, j);
    assert [top[i].0, sub[j].0][1..] == [sub[j].0];
  }

  lemma ModelNames(identifier: Option<Json>, revision: Option<Json>)
    ensures Distinct(ModelFields(identifier, revision))
  {
  }

  lemma KvCacheNames(vs: Values)
    ensures Distinct(KvCacheFields(vs))
  {
  }

  lemma ParallelismNames(vs: Values)
    ensures Distinct(ParallelismFields(vs))
  {
  }

  lemma RuntimeNames(vs: Values)
    ensures Distinct(RuntimeFields(vs))
  {
  }

  lemma TopNames(vs: Values)
    ensures Distinct(TopFields(vs))
  {
  }

  predicate NoNulls(vs: Values) {
    && NotNull(vs.schema) && NotNull(vs.modelId) && NotNull(vs.modelRevision) && NotNull(vs.tokenizerId)
    && NotNull(vs.tokenizerRevision) && NotNull(vs.adapters) && NotNull(vs.layout) && NotNull(vs.kvSchema)
    && NotNull(vs.dtype) && NotNull(vs.blockSize) && NotNull(vs.layoutParameters) && NotNull(vs.tensorSize)
    && NotNull(vs.pipelineSize) && NotNull(vs.dataSize) && NotNull(vs.vllm) && NotNull(vs.lmcache) && NotNull(vs.features)
  }

  lemma ModelPaths(vs: Values)
    requires NoNulls(vs)
    ensures var d := ObjOf(TopFields(vs)); AtPath(d, PATHS[1]) == vs.modelId && AtPath(d, PATHS[2]) == vs.modelRevision
  {
    TopNames(vs);
    ModelNames(vs.modelId, vs.modelRevision);
    TwoKeys(TopFields(vs), 1, ModelFields(vs.modelId, vs.modelRevision), 0);
    TwoKeys(TopFields(vs), 1, ModelFields(vs.modelId, vs.modelRevision), 1);
  }

  lemma TokenizerPaths(vs: Values)
    requires NoNulls(vs)
    ensures var d := ObjOf(TopFields(vs)); AtPath(d, PATHS[3]) == vs.tokenizerId && AtPath(d, PATHS[4]) == vs.tokenizerRevision
  {
    TopNames(vs);
    ModelNames(vs.tokenizerId, vs.tokenizerRevision);
    TwoKeys(TopFields(vs), 2, ModelFields(vs.tokenizerId, vs.tokenizerRevision), 0);
    TwoKeys(TopFields(vs), 2, ModelFields(vs.tokenizerId, vs.tokenizerRevision), 1);
  }

  lemma SinglePaths(vs: Values)
    requires NoNulls(vs)
    ensures var d := ObjOf(TopFields(vs)); AtPath(d, PATHS[0]) == vs.schema && AtPath(d, PATHS[5]) == vs.adapters
  {
    TopNames(vs);
    OneKey(TopFields(vs), 0);
    OneKey(TopFields(vs), 3);
  }

  lemma LayoutPaths(vs: Values)
    requires NoNulls(vs)
    ensures var d := ObjOf(TopFields(vs));
      AtPath(d, PATHS[6]) == vs.layout && AtPath(d, PATHS[7]) == vs.kvSchema && AtPath(d, PATHS[8]) == vs.dtype
  {
    TopNames(vs);
    KvCacheNames(vs);
    TwoKeys(TopFields(vs), 4, KvCacheFields(vs), 0);
    TwoKeys(TopFields(vs), 4, KvCacheFields(vs), 1);
    TwoKeys(TopFields(vs), 4, KvCacheFields(vs), 2);
  }

  lemma BlockPaths(vs: Values)
    requires NoNulls(vs)
    ensures var d := ObjOf(TopFields(vs)); AtPath(d, PATHS[9]) == vs.blockSize && AtPath(d, PATHS[10]) == vs.layoutParameters
  {
    TopNames(vs);
    KvCacheNames(vs);
    TwoKeys(TopFields(vs), 4, KvCacheFields(vs), 3);
    TwoKeys(TopFields(vs), 4, KvCacheFields(vs), 4);
  }

  lemma ParallelismPaths(vs: Values)
    requires NoNulls(vs)
    ensures var d := ObjOf(TopFields(vs));
      AtPath(d, PATHS[11]) == vs.tensorSize && AtPath(d, PATHS[12]) == vs.pipelineSize && AtPath(d, PATHS[13]) == vs.dataSize
  {
    TopNames(vs);
    ParallelismNames(vs);
    TwoKeys(TopFields(vs), 5, ParallelismFields(vs), 0);
    TwoKeys(TopFields(vs), 5, ParallelismFields(vs), 1);
    TwoKeys(TopFields(vs), 5, ParallelismFields(vs), 2);
  }

  lemma RuntimePaths(vs: Values)
    requires NoNulls(vs)
    ensures var d := ObjOf(TopFields(vs));
      AtPath(d, PATHS[14]) == vs.vllm && AtPath(d, PATHS[15]) == vs.lmcache && AtPath(d, PATHS[16]) == vs.features
  {
    TopNames(vs);
    RuntimeNames(vs);
    TwoKeys(TopFields(vs), 6, RuntimeFields(vs), 0);
    TwoKeys(TopFields(vs), 6, RuntimeFields(vs), 1);
    TwoKeys(TopFields(vs), 6, RuntimeFields(vs), 2);
  }

  lemma AllPaths(vs: Values, k: nat)
    requires NoNulls(vs) && k < 17
    ensures AtPath(ObjOf(TopFields(vs)), PATHS[k]) == vs.Nth(k)
  {
    if k <= 5 {
      SinglePaths(vs);
      ModelPaths(vs);
      TokenizerPaths(vs);
    } else if k <= 10 {
      LayoutPaths(vs);
      BlockPaths(vs);
    } else {
      ParallelismPaths(vs);
      RuntimePaths(vs);
    }
  }

  lemma ValuesAreNotNull(c: InstanceCapability)
    ensures NoNulls(ValuesOf(c))
  {
  }

  /** Every path of the canonical dictionary leads to its value. */
  lemma PathsLeadToValues(c: InstanceCapability, k: nat)
    requires k < 17
    ensures AtPath(Canonical(c), PATHS[k]) == ValuesOf(c).Nth(k)
  {
    ValuesAreNotNull(c);
    AllPaths(ValuesOf(c), k);
  }

  lemma SameValues(vs: Values, ws: Values)
    requires forall k :: 0 <= k < 17 ==> vs.Nth(k) == ws.Nth(k)
    ensures vs == ws
  {
    assert vs.Nth(0) == ws.Nth(0) && vs.Nth(1) == ws.Nth(1) && vs.Nth(2) == ws.Nth(2) && vs.Nth(3) == ws.Nth(3)
      && vs.Nth(4) == ws.Nth(4) && vs.Nth(5) == ws.Nth(5) && vs.Nth(6) == ws.Nth(6) && vs.Nth(7) == ws.Nth(7)
      && vs.Nth(8) == ws.Nth(8) && vs.Nth(9) == ws.Nth(9) && vs.Nth(10) == ws.Nth(10) && vs.Nth(11) == ws.Nth(11)
      && vs.Nth(12) == ws.Nth(12) && vs.Nth(13) == ws.Nth(13) && vs.Nth(14) == ws.Nth(14) && vs.Nth(15) == ws.Nth(15)
      && vs.Nth(16) == ws.Nth(16);
  }

  /** Two capabilities have the same canonical dictionary exactly when all their values agree. */
  lemma CanonicalMeansValues(c: InstanceCapability, d: InstanceCapability)
    ensures Canonical(c) == Canonical(d) <==> ValuesOf(c) == ValuesOf(d)
  {
    if Canonical(c) == Canonical(d) {
      forall k | 0 <= k < 17 ensures ValuesOf(c).Nth(k) == ValuesOf(d).Nth(k) {
        PathsLeadToValues(c, k);
        PathsLeadToValues(d, k);
      }
      SameValues(ValuesOf(c), ValuesOf(d));
    }
  }

  // ----- what stands where -----

  /** The string stands at the path, or nothing does when there is none. */
  ghost predicate HasText(v: Json, path: seq<string>, s: Option<string>) {
    if s.None? then AtPath(v, path).None? else AtPath(v, path) == Some(Str(s.value))
  }

  ghost predicate HasNumber(v: Json, path: seq<string>, n: Option<Number>) {
    if n.None? then AtPath(v, path).None? else AtPath(v, path) == Some(Num(n.value))
  }

  /** Each field of the model and the tokenizer stands at its own path. */
  lemma ModelFieldsAt(c: InstanceCapability)
    ensures var d := Canonical(c);
      && HasText(d, ["model", "identifier"], c.model.identifier) && HasText(d, ["model", "revision"], c.model.revision)
      && HasText(d, ["tokenizer", "identifier"], c.tokenizer.identifier)
      && HasText(d, ["tokenizer", "revision"], c.tokenizer.revision)
  {
    PathsLeadToValues(c, 1);
    PathsLeadToValues(c, 2);
    PathsLeadToValues(c, 3);
    PathsLeadToValues(c, 4);
  }

  lemma LayoutFieldsAt(c: InstanceCapability)
    ensures var d := Canonical(c);
      && HasText(d, ["kv_cache", "layout"], c.kvCache.layout)
      && HasText(d, ["kv_cache", "schema_version"], c.kvCache.schemaVersion)
      && HasText(d, ["kv_cache", "dtype"], c.kvCache.dtype)
  {
    PathsLeadToValues(c, 6);
    PathsLeadToValues(c, 7);
    PathsLeadToValues(c, 8);
  }

  lemma BlockFieldsAt(c: InstanceCapability)
    ensures var d := Canonical(c);
      && HasNumber(d, ["kv_cache", "block_size"], c.kvCache.blockSize)
      && AtPath(d, ["kv_cache", "layout_parameters"]) == Some(Obj(c.kvCache.layoutParameters))
  {
    PathsLeadToValues(c, 9);
    PathsLeadToValues(c, 10);
  }

  lemma ParallelismFieldsAt(c: InstanceCapability)
    ensures var d, p := Canonical(c), c.parallelism;
      && HasNumber(d, ["parallelism", "tensor_parallel_size"], p.tensorParallelSize)
      && HasNumber(d, ["parallelism", "pipeline_parallel_size"], p.pipelineParallelSize)
      && HasNumber(d, ["parallelism", "data_parallel_size"], p.dataParallelSize)
  {
    PathsLeadToValues(c, 11);
    PathsLeadToValues(c, 12);
    PathsLeadToValues(c, 13);
  }

  lemma RuntimeFieldsAt(c: InstanceCapability)
    ensures var d := Canonical(c);
      && HasText(d, ["runtime", "vllm_version"], c.runtime.vllmVersion)
      && HasText(d, ["runtime", "lmcache_version"], c.runtime.lmcacheVersion)
  {
    PathsLeadToValues(c, 14);
    PathsLeadToValues(c, 15);
  }

  /** The features stand as an increasing list of the distinct ones. */
  lemma FeaturesAt(c: InstanceCapability) returns (names: seq<string>)
    ensures Sorted(names) && forall x :: x in names <==> x in c.runtime.supportedCacheFeatures
    ensures AtPath(Canonical(c), ["runtime", "supported_cache_features"]) == Some(Arr(TextItems(names)))
    ensures |TextItems(names)| == |names| && forall i :: 0 <= i < |names| ==> TextItems(names)[i] == Str(names[i])
  {
    PathsLeadToValues(c, 16);
    names := SortStrings(c.runtime.supportedCacheFeatures);
    SortStringsSorts(c.runtime.supportedCacheFeatures);
  }

  /** The schema version, and the adapters in their order. */
  lemma TopFieldsAt(c: InstanceCapability)
    ensures var d := Canonical(c);
      && AtPath(d, ["schema_version"]) == Some(Str(c.schemaVersion))
      && AtPath(d, ["adapters"]).Some? && AtPath(d, ["adapters"]).value.Arr?
      && var items := AtPath(d, ["adapters"]).value.items;
         |items| == |c.adapters| && forall i :: 0 <= i < |items| ==> items[i] == AdapterJson(c.adapters[i])
  {
    PathsLeadToValues(c, 0);
    PathsLeadToValues(c, 5);
  }

  lemma AdapterNames(a: AdapterCapability)
    ensures Distinct(AdapterFields(a))
  {
  }

  /** Each field of an adapter stands under its own key. */
  lemma AdapterFieldsAt(a: AdapterCapability)
    ensures var d := AdapterJson(a);
      && AtPath(d, ["identifier"]) == Some(Str(a.identifier)) && HasText(d, ["revision"], a.revision)
      && (if a.configuration.None? then AtPath(d, ["configuration"]).None?
          else AtPath(d, ["configuration"]) == Some(Obj(a.configuration.value)))
      && HasText(d, ["configuration_hash"], a.configurationHash)
  {
    AdapterNames(a);
    OneKey(AdapterFields(a), 0);
    OneKey(AdapterFields(a), 1);
    OneKey(AdapterFields(a), 2);
    OneKey(AdapterFields(a), 3);
  }

  lemma AdapterInjective(a: AdapterCapability, b: AdapterCapability)
    ensures AdapterJson(a) == AdapterJson(b) <==> a == b
  {
    AdapterFieldsAt(a);
    AdapterFieldsAt(b);
  }

  // ----- canonical forms are JSON -----

  /** The free-form parts hold JSON values. */
  ghost predicate Printable(c: InstanceCapability) {
    && WellFormed(Obj(c.kvCache.layoutParameters))
    && forall a :: a in c.adapters && a.configuration.Some? ==> WellFormed(Obj(a.configuration.value))
  }

  ghost predicate WellFormedField(v: Option<Json>) { v.Some? ==> WellFormed(v.value) }

  lemma {:induction false} MembersWellFormed(fields: Fields, k: nat, key: string)
    requires k <= |fields| && key in MembersOf(fields, k)
    requires forall i :: 0 <= i < k ==> WellFormedField(fields[i].1)
    ensures WellFormed(MembersOf(fields, k)[key])
  {
    assert WellFormedField(fields[k - 1].1);
    if fields[k - 1].1.None? || fields[k - 1].0 != key {
      MembersWellFormed(fields, k - 1, key);
    }
  }

  lemma ObjOfWellFormed(fields: Fields)
    requires forall i :: 0 <= i < |fields| ==> WellFormedField(fields[i].1)
    ensures WellFormed(ObjOf(fields))
  {
    forall key | key in MembersOf(fields, |fields|) ensures WellFormed(MembersOf(fields, |fields|)[key]) {
      MembersWellFormed(fields, |fields|, key);
    }
  }

  lemma AdaptersWellFormed(c: InstanceCapability)
    requires Printable(c)
    ensures WellFormedField(ValuesOf(c).adapters)
  {
    forall i | 0 <= i < |c.adapters| ensures WellFormed(AdapterJson(c.adapters[i])) {
      ObjOfWellFormed(AdapterFields(c.adapters[i]));
    }
  }

  lemma FeaturesWellFormed(names: seq<string>)
    ensures WellFormed(Features(names))
  {
    forall i | 0 <= i < |Features(names).items| ensures WellFormed(Features(names).items[i]) {
      assert Features(names).items[i].Str?;
    }
  }

  lemma CanonicalIsWellFormed(c: InstanceCapability)
    requires Printable(c)
    ensures WellFormed(Canonical(c))
  {
    var vs := ValuesOf(c);
    AdaptersWellFormed(c);
    FeaturesWellFormed(c.runtime.supportedCacheFeatures);
    ObjOfWellFormed(ModelFields(vs.modelId, vs.modelRevision));
    ObjOfWellFormed(ModelFields(vs.tokenizerId, vs.tokenizerRevision));
    ObjOfWellFormed(KvCacheFields(vs));
    ObjOfWellFormed(ParallelismFields(vs));
    ObjOfWellFormed(RuntimeFields(vs));
    ObjOfWellFormed(TopFields(vs));
  }

  // ----- canonical forms ignore what they should -----

  lemma FeaturesMeanSets(a: seq<string>, b: seq<string>)
    ensures Features(a) == Features(b) <==> forall x :: x in a <==> x in b
  {
    var s, t := SortStrings(a), SortStrings(b);
    SortStringsSorts(a);
    SortStringsSorts(b);
    if Features(a) == Features(b) {
      assert |s| == |t|;
      forall i | 0 <= i < |s| ensures s[i] == t[i] {
        assert Features(a).items[i] == Str(s[i]) && Features(b).items[i] == Str(t[i]);
      }
      assert s == t;
    } else if forall x :: x in a <==> x in b {
      SortedIsUnique(s, t);
    }
  }

  lemma AdaptersMean(a: seq<AdapterCapability>, b: seq<AdapterCapability>)
    ensures AdapterItems(a) == AdapterItems(b) <==> a == b
  {
    if AdapterItems(a) == AdapterItems(b) {
      assert |AdapterItems(a)| == |AdapterItems(b)|;
      forall i | 0 <= i < |a| ensures a[i] == b[i] {
        assert AdapterItems(a)[i] == AdapterItems(b)[i];
        AdapterInjective(a[i], b[i]);
      }
    }
  }

  /** The same in every field, with the cache features as sets. */
  ghost predicate Agree(c: InstanceCapability, d: InstanceCapability) {
    && c.schemaVersion == d.schemaVersion && c.model == d.model && c.tokenizer == d.tokenizer && c.adapters == d.adapters
    && c.kvCache == d.kvCache && c.parallelism == d.parallelism
    && c.runtime.vllmVersion == d.runtime.vllmVersion && c.runtime.lmcacheVersion == d.runtime.lmcacheVersion
    && forall x :: x in c.runtime.supportedCacheFeatures <==> x in d.runtime.supportedCacheFeatures
  }

  /** Two capabilities have the same canonical form exactly when they agree in every field. */
  lemma CanonicalMeansFields(c: InstanceCapability, d: InstanceCapability)
    ensures Canonical(c) == Canonical(d) <==> Agree(c, d)
  {
    CanonicalMeansValues(c, d);
    AdaptersMean(c.adapters, d.adapters);
    FeaturesMeanSets(c.runtime.supportedCacheFeatures, d.runtime.supportedCacheFeatures);
  }

  /** The order of the cache features, and repeats among them, make no difference; which features there
      are does. */
  lemma FeatureOrderIsIgnored(c: InstanceCapability, features: seq<string>)
    ensures var d := c.(runtime := c.runtime.(supportedCacheFeatures := features));
      Canonical(c) == Canonical(d) <==> forall x :: x in c.runtime.supportedCacheFeatures <==> x in features
  {
    var d := c.(runtime := c.runtime.(supportedCacheFeatures := features));
    CanonicalMeansValues(c, d);
    FeaturesMeanSets(c.runtime.supportedCacheFeatures, features);
  }

  // ----- comparison -----

  datatype Reason = ValueMismatch | MissingValue

  datatype Mismatch = Mismatch(field: seq<string>, left: Option<Json>, right: Option<Json>, reason: Reason)

  datatype Status = Compatible | Incompatible | Unknown

  datatype Comparison = Comparison(status: Status, compatible: bool, leftFingerprint: Option<string>,
                                   rightFingerprint: Option<string>, mismatches: seq<Mismatch>)

  /** The entry for the values at a path, if there is one. */
  function MismatchAt(field: seq<string>, left: Option<Json>, right: Option<Json>): seq<Mismatch> {
    if left == right then []
    else [Mismatch(field, left, right, if left.None? || right.None? then MissingValue else ValueMismatch)]
  }

  function Mismatches(vs: Values, ws: Values, k: nat): seq<Mismatch>
    requires k <= 17
  {
    if k == 0 then [] else Mismatches(vs, ws, k - 1) + MismatchAt(PATHS[k - 1], vs.Nth(k - 1), ws.Nth(k - 1))
  }

  /** Both sides have a value among the first `k` paths, and they differ. */
  ghost predicate Conflict(vs: Values, ws: Values, k: nat)
    requires k <= 17
  {
    exists i :: 0 <= i < k && vs.Nth(i).Some? && ws.Nth(i).Some? && vs.Nth(i) != ws.Nth(i)
  }

  ghost predicate Complete(vs: Values, k: nat)
    requires k <= 17
  {
    forall i :: 0 <= i < k ==> vs.Nth(i).Some?
  }

  /** Three outcomes: some value differs; otherwise some value is missing; otherwise all agree. */
  ghost function StatusOf(l: InstanceCapability, r: InstanceCapability): Status {
    var vs, ws := ValuesOf(l), ValuesOf(r);
    if Conflict(vs, ws, 17) then Incompatible
    else if Complete(vs, 17) && Complete(ws, 17) then Compatible else Unknown
  }

  lemma OneMore(vs: Values, ws: Values, k: nat)
    requires k < 17
    ensures Complete(vs, k + 1) <==> Complete(vs, k) && vs.Nth(k).Some?
    ensures Complete(ws, k + 1) <==> Complete(ws, k) && ws.Nth(k).Some?
    ensures Conflict(vs, ws, k + 1) <==>
      Conflict(vs, ws, k) || (vs.Nth(k).Some? && ws.Nth(k).Some? && vs.Nth(k) != ws.Nth(k))
  {
  }

  /** Every field that may be absent is there. */
  predicate Full(c: InstanceCapability) {
    && c.model.identifier.Some? && c.model.revision.Some? && c.tokenizer.identifier.Some? && c.tokenizer.revision.Some?
    && c.kvCache.layout.Some? && c.kvCache.schemaVersion.Some? && c.kvCache.dtype.Some? && c.kvCache.blockSize.Some?
    && c.parallelism.tensorParallelSize.Some? && c.parallelism.pipelineParallelSize.Some?
    && c.parallelism.dataParallelSize.Some? && c.runtime.vllmVersion.Some? && c.runtime.lmcacheVersion.Some?
  }

  /** Both sides have the field, and it differs. */
  predicate Clash<T(==)>(a: Option<T>, b: Option<T>) { a.Some? && b.Some? && a != b }

  /** Some field that both sides have differs. */
  ghost predicate Clashes(l: InstanceCapability, r: InstanceCapability) {
    || l.schemaVersion != r.schemaVersion || l.adapters != r.adapters
    || Clash(l.model.identifier, r.model.identifier) || Clash(l.model.revision, r.model.revision)
    || Clash(l.tokenizer.identifier, r.tokenizer.identifier) || Clash(l.tokenizer.revision, r.tokenizer.revision)
    || Clash(l.kvCache.layout, r.kvCache.layout) || Clash(l.kvCache.schemaVersion, r.kvCache.schemaVersion)
    || Clash(l.kvCache.dtype, r.kvCache.dtype) || Clash(l.kvCache.blockSize, r.kvCache.blockSize)
    || l.kvCache.layoutParameters != r.kvCache.layoutParameters
    || Clash(l.parallelism.tensorParallelSize, r.parallelism.tensorParallelSize)
    || Clash(l.parallelism.pipelineParallelSize, r.parallelism.pipelineParallelSize)
    || Clash(l.parallelism.dataParallelSize, r.parallelism.dataParallelSize)
    || Clash(l.runtime.vllmVersion, r.runtime.vllmVersion) || Clash(l.runtime.lmcacheVersion, r.runtime.lmcacheVersion)
    || !(forall x :: x in l.runtime.supportedCacheFeatures <==> x in r.runtime.supportedCacheFeatures)
  }

  lemma ConflictIsClash(vs: Values, ws: Values)
    ensures Conflict(vs, ws, 17) <==>
      || Clash(vs.schema, ws.schema) || Clash(vs.modelId, ws.modelId) || Clash(vs.modelRevision, ws.modelRevision)
      || Clash(vs.tokenizerId, ws.tokenizerId) || Clash(vs.tokenizerRevision, ws.tokenizerRevision)
      || Clash(vs.adapters, ws.adapters) || Clash(vs.layout, ws.layout) || Clash(vs.kvSchema, ws.kvSchema)
      || Clash(vs.dtype, ws.dtype) || Clash(vs.blockSize, ws.blockSize) || Clash(vs.layoutParameters, ws.layoutParameters)
      || Clash(vs.tensorSize, ws.tensorSize) || Clash(vs.pipelineSize, ws.pipelineSize) || Clash(vs.dataSize, ws.dataSize)
      || Clash(vs.vllm, ws.vllm) || Clash(vs.lmcache, ws.lmcache) || Clash(vs.features, ws.features)
  {
    assert forall i :: 0 <= i < 17 ==> (Clash(vs.Nth(i), ws.Nth(i)) ==> Conflict(vs, ws, 17));
    assert Clash(vs.Nth(0), ws.Nth(0)) || Clash(vs.Nth(1), ws.Nth(1)) || Clash(vs.Nth(2), ws.Nth(2)) || Clash(vs.Nth(3), ws.Nth(3))
      || Clash(vs.Nth(4), ws.Nth(4)) || Clash(vs.Nth(5), ws.Nth(5)) || Clash(vs.Nth(6), ws.Nth(6)) || Clash(vs.Nth(7), ws.Nth(7))
      || Clash(vs.Nth(8), ws.Nth(8)) || Clash(vs.Nth(9), ws.Nth(9)) || Clash(vs.Nth(10), ws.Nth(10)) || Clash(vs.Nth(11), ws.Nth(11))
      || Clash(vs.Nth(12), ws.Nth(12)) || Clash(vs.Nth(13), ws.Nth(13)) || Clash(vs.Nth(14), ws.Nth(14))
      || Clash(vs.Nth(15), ws.Nth(15)) || Clash(vs.Nth(16), ws.Nth(16)) || !Conflict(vs, ws, 17);
  }

  lemma CompleteIsFull(c: InstanceCapability)
    ensures Complete(ValuesOf(c), 17) <==> Full(c)
  {
    var vs := ValuesOf(c);
    assert Complete(vs, 17) ==>
      && vs.Nth(1).Some? && vs.Nth(2).Some? && vs.Nth(3).Some? && vs.Nth(4).Some? && vs.Nth(6).Some? && vs.Nth(7).Some?
      && vs.Nth(8).Some? && vs.Nth(9).Some? && vs.Nth(11).Some? && vs.Nth(12).Some? && vs.Nth(13).Some?
      && vs.Nth(14).Some? && vs.Nth(15).Some?;
  }

  /** An entry for path `i`, at which the two canonical forms differ, with what stands there on either side. */
  ghost predicate EntryFor(l: InstanceCapability, r: InstanceCapability, i: nat, m: Mismatch)
    requires i < 17
  {
    && m.field == PATHS[i] && m.left == AtPath(Canonical(l), PATHS[i]) && m.right == AtPath(Canonical(r), PATHS[i])
    && m.left != m.right && (m.reason == MissingValue <==> m.left.None? || m.right.None?)
  }

  lemma EntryMeaning(l: InstanceCapability, r: InstanceCapability, i: nat, m: Mismatch)
    requires i < 17
    ensures m in MismatchAt(PATHS[i], ValuesOf(l).Nth(i), ValuesOf(r).Nth(i)) <==> EntryFor(l, r, i, m)
  {
    PathsLeadToValues(l, i);
    PathsLeadToValues(r, i);
  }

  ghost predicate HasEntry(l: InstanceCapability, r: InstanceCapability, k: nat, m: Mismatch)
    requires k <= 17
  {
    exists i :: 0 <= i < k && EntryFor(l, r, i, m)
  }

  lemma EntrySnoc(l: InstanceCapability, r: InstanceCapability, k: nat, m: Mismatch)
    requires k < 17
    ensures HasEntry(l, r, k + 1, m) <==> HasEntry(l, r, k, m) || EntryFor(l, r, k, m)
  {
    if HasEntry(l, r, k, m) {
      var i :| 0 <= i < k && EntryFor(l, r, i, m);
      assert EntryFor(l, r, i, m) && i < k + 1;
    }
  }

  /** The list has an entry for exactly the paths at which the two canonical forms differ. */
  lemma {:induction false} MismatchesMeaning(l: InstanceCapability, r: InstanceCapability, k: nat, m: Mismatch)
    requires k <= 17
    ensures m in Mismatches(ValuesOf(l), ValuesOf(r), k) <==> HasEntry(l, r, k, m)
  {
    if k > 0 {
      MismatchesMeaning(l, r, k - 1, m);
      EntryMeaning(l, r, k - 1, m);
      EntrySnoc(l, r, k - 1, m);
    }
  }

  /** "Compatible" means: every compared path has a value on both sides and the canonical forms are the
      same. "Incompatible" implies that they are different. */
  lemma StatusMeaning(l: InstanceCapability, r: InstanceCapability)
    ensures StatusOf(l, r) == Compatible <==>
      Canonical(l) == Canonical(r) && Complete(ValuesOf(l), 17) && Complete(ValuesOf(r), 17)
    ensures StatusOf(l, r) == Incompatible ==> Canonical(l) != Canonical(r)
  {
    CanonicalMeansValues(l, r);
    var vs, ws := ValuesOf(l), ValuesOf(r);
    if Complete(vs, 17) && Complete(ws, 17) && !Conflict(vs, ws, 17) {
      SameValues(vs, ws);
    }
  }

  lemma ClashTexts(a: Option<string>, b: Option<string>)
    ensures Clash(Strings(a), Strings(b)) <==> Clash(a, b)
  {
  }

  lemma ClashNumbers(a: Option<Number>, b: Option<Number>)
    ensures Clash(Numbers(a), Numbers(b)) <==> Clash(a, b)
  {
  }

  lemma ConflictIsClashes(l: InstanceCapability, r: InstanceCapability)
    ensures Conflict(ValuesOf(l), ValuesOf(r), 17) <==> Clashes(l, r)
  {
    ConflictIsClash(ValuesOf(l), ValuesOf(r));
    ClashTexts(l.model.identifier, r.model.identifier);
    ClashTexts(l.model.revision, r.model.revision);
    ClashTexts(l.tokenizer.identifier, r.tokenizer.identifier);
    ClashTexts(l.tokenizer.revision, r.tokenizer.revision);
    ClashTexts(l.kvCache.layout, r.kvCache.layout);
    ClashTexts(l.kvCache.schemaVersion, r.kvCache.schemaVersion);
    ClashTexts(l.kvCache.dtype, r.kvCache.dtype);
    ClashNumbers(l.kvCache.blockSize, r.kvCache.blockSize);
    ClashNumbers(l.parallelism.tensorParallelSize, r.parallelism.tensorParallelSize);
    ClashNumbers(l.parallelism.pipelineParallelSize, r.parallelism.pipelineParallelSize);
    ClashNumbers(l.parallelism.dataParallelSize, r.parallelism.dataParallelSize);
    ClashTexts(l.runtime.vllmVersion, r.runtime.vllmVersion);
    ClashTexts(l.runtime.lmcacheVersion, r.runtime.lmcacheVersion);
    AdaptersMean(l.adapters, r.adapters);
    FeaturesMeanSets(l.runtime.supportedCacheFeatures, r.runtime.supportedCacheFeatures);
  }

  /** The status in terms of the fields: incompatible when some field that both sides have differs, and
      compatible when no field is absent and all agree. */
  lemma StatusByFields(l: InstanceCapability, r: InstanceCapability)
    ensures StatusOf(l, r) == Incompatible <==> Clashes(l, r)
    ensures StatusOf(l, r) == Compatible <==> Agree(l, r) && Full(l) && Full(r)
  {
    ConflictIsClashes(l, r);
    StatusMeaning(l, r);
    CanonicalMeansFields(l, r);
    CompleteIsFull(l);
    CompleteIsFull(r);
  }

  /** The function computes the fingerprint. */
  ghost predicate Fingerprints(fingerprint: InstanceCapability -> string, sha: string -> string) {
    forall c :: fingerprint(c) == Fingerprint(c, sha)
  }

  /** Walks over the compared paths of two canonical dictionaries. */
  method ComparePaths(left: InstanceCapability, right: InstanceCapability)
    returns (mismatches: seq<Mismatch>, missing: bool, conflict: bool)
    ensures var vs, ws := ValuesOf(left), ValuesOf(right);
      && mismatches == Mismatches(vs, ws, 17)
      && (missing <==> !Complete(vs, 17) || !Complete(ws, 17)) && (conflict <==> Conflict(vs, ws, 17))
  {
    var leftData, rightData := Canonical(left), Canonical(right);
    ghost var vs, ws := ValuesOf(left), ValuesOf(right);
    mismatches, missing, conflict := [], false, false;
    var k := 0;
    while k < 17
      invariant 0 <= k <= 17 && mismatches == Mismatches(vs, ws, k)
      invariant missing <==> !Complete(vs, k) || !Complete(ws, k)
      invariant conflict <==> Conflict(vs, ws, k)
    {
      var leftValue := At(leftData, PATHS[k]);
      var rightValue := At(rightData, PATHS[k]);
      PathsLeadToValues(left, k);
      PathsLeadToValues(right, k);
      OneMore(vs, ws, k);
      if leftValue.None? || rightValue.None? {
        missing := true;
        if leftValue != rightValue {
          mismatches := mismatches + [Mismatch(PATHS[k], leftValue, rightValue, MissingValue)];
        }
      } else if leftValue != rightValue {
        mismatches := mismatches + [Mismatch(PATHS[k], leftValue, rightValue, ValueMismatch)];
        conflict := true;
      }
      k := k + 1;
    }
  }

  /** Compares two capabilities, either of which may be missing. Compatible ones have equal fingerprints. */
  method CompareCapabilities(left: Option<InstanceCapability>, right: Option<InstanceCapability>,
                             fingerprint: InstanceCapability -> string, ghost sha: string -> string)
    returns (c: Comparison)
    requires Fingerprints(fingerprint, sha)
    ensures left.None? || right.None? ==> c == Comparison(Unknown, false, None, None, [])
    ensures left.Some? && right.Some? ==>
      && c.status == StatusOf(left.value, right.value)
      && c.mismatches == Mismatches(ValuesOf(left.value), ValuesOf(right.value), 17)
      && c.leftFingerprint == Some(Fingerprint(left.value, sha))
      && c.rightFingerprint == Some(Fingerprint(right.value, sha))
    ensures c.compatible <==> c.status == Compatible
    ensures c.compatible <==> left.Some? && right.Some? && Agree(left.value, right.value) && Full(left.value) && Full(right.value)
    ensures c.status == Incompatible <==> left.Some? && right.Some? && Clashes(left.value, right.value)
    ensures c.compatible ==> c.leftFingerprint == c.rightFingerprint
  {
    if left.None? || right.None? {
      return Comparison(Unknown, false, None, None, []);
    }
    var mismatches, missing, conflict := ComparePaths(left.value, right.value);
    StatusMeaning(left.value, right.value);
    StatusByFields(left.value, right.value);
    var status := if conflict then Incompatible else if missing then Unknown else Compatible;
    c := Comparison(status, status == Compatible, Some(fingerprint(left.value)), Some(fingerprint(right.value)), mismatches);
  }

  /** The same about texts and fingerprints: compatible capabilities have equal fingerprints, and when
      the hash does not confuse their two texts, equal fingerprints mean equal canonical forms. */
  lemma FingerprintMeaning(l: InstanceCapability, r: InstanceCapability, sha: string -> string)
    requires Printable(l) && Printable(r)
    requires sha(CanonicalText(l)) == sha(CanonicalText(r)) ==> CanonicalText(l) == CanonicalText(r)
    ensures Fingerprint(l, sha) == Fingerprint(r, sha) <==> Canonical(l) == Canonical(r)
    ensures StatusOf(l, r) == Compatible ==> Fingerprint(l, sha) == Fingerprint(r, sha)
    ensures StatusOf(l, r) == Incompatible ==> Fingerprint(l, sha) != Fingerprint(r, sha)
  {
    CanonicalIsWellFormed(l);
    CanonicalIsWellFormed(r);
    PrintInjective(Canonical(l), Canonical(r));
    StatusMeaning(l, r);
    if Fingerprint(l, sha) == Fingerprint(r, sha) {
      Cancel("sha256:", sha(CanonicalText(l)), sha(CanonicalText(r)));
    }
  }

  function Swap(m: Mismatch): Mismatch { m.(left := m.right, right := m.left) }

  /** Comparing the other way round gives the same status and the same entries with their sides swapped. */
  lemma ComparisonIsSymmetric(l: InstanceCapability, r: InstanceCapability, k: nat)
    requires k <= 17
    ensures StatusOf(l, r) == StatusOf(r, l)
    ensures var m, n := Mismatches(ValuesOf(l), ValuesOf(r), k), Mismatches(ValuesOf(r), ValuesOf(l), k);
      |m| == |n| && forall i :: 0 <= i < |m| ==> n[i] == Swap(m[i])
  {
    ConflictSwaps(ValuesOf(l), ValuesOf(r));
    ConflictSwaps(ValuesOf(r), ValuesOf(l));
    MismatchesSwap(ValuesOf(l), ValuesOf(r), k);
  }

  lemma {:induction false} MismatchesSwap(vs: Values, ws: Values, k: nat)
    requires k <= 17
    ensures var m, n := Mismatches(vs, ws, k), Mismatches(ws, vs, k);
      |m| == |n| && forall i :: 0 <= i < |m| ==> n[i] == Swap(m[i])
  {
    if k > 0 { MismatchesSwap(vs, ws, k - 1); }
  }

  lemma ConflictSwaps(vs: Values, ws: Values)
    ensures Conflict(vs, ws, 17) ==> Conflict(ws, vs, 17)
  {
    if Conflict(vs, ws, 17) {
      var i :| 0 <= i < 17 && vs.Nth(i).Some? && ws.Nth(i).Some? && vs.Nth(i) != ws.Nth(i);
      assert ws.Nth(i).Some? && vs.Nth(i).Some? && ws.Nth(i) != vs.Nth(i);
    }
  }
}
