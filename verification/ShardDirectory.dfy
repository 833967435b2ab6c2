/**
 A directory of shards: one header with the first fragment's configuration and one file
 per fragment id. What is loaded back for a fragment is the last one written under its id,
 with the header's configuration, exactly when the loader's budgets and checks admit it.
 */
module ShardDirectory {
  import opened Wrappers
  import opened Bytes
  import opened Utf8
  import opened OpCodec
  import opened ShardFormat
  import opened ShardReader
  import opened Shards
  import GraphCodec
  import Machine

  datatype Directory = Directory(header: seq<Byte>, files: map<U32, seq<Byte>>)

  // --------------------------------------------------------------------- layout

  datatype ShardIds = ShardIds(version: U32, fragmentId: U32, layerStart: U32, layerEnd: U32)

  function EncodeIds(version: U32, frag: DistributedFragment): seq<Byte> {
    Le32(MAGIC) + (Le32(version) + (Le32(frag.fragmentId) + (Le32(frag.layerStart) + Le32(frag.layerEnd))))
  }

  function TakeIds(s: seq<Byte>, nLayers: U32): Read<ShardIds> {
    var (version, s1) :- TakePrefix(s);
    var (fragmentId, s2) :- TakeU32(s1);
    var (layerStart, s3) :- TakeU32(s2);
    var (layerEnd, s4) :- TakeU32(s3);
    if layerStart > layerEnd || layerEnd > nLayers then Err(BadLayerRange)
    else Ok((ShardIds(version, fragmentId, layerStart, layerEnd), s4))
  }

  predicate LayersFit(frag: DistributedFragment, nLayers: U32) {
    frag.layerStart <= frag.layerEnd <= nLayers
  }

  lemma IdsBack(version: U32, frag: DistributedFragment, rest: seq<Byte>, nLayers: U32)
    requires version == BASE_VERSION || version == SELECTION_VERSION
    ensures TakeIds(EncodeIds(version, frag) + rest, nLayers)
            == if LayersFit(frag, nLayers)
               then Ok((ShardIds(version, frag.fragmentId, frag.layerStart, frag.layerEnd), rest)) else Err(BadLayerRange)
  {
    hide Le32, TakeU32, TakePrefix;
    var s3 := Le32(frag.layerEnd) + rest;
    var s2 := Le32(frag.layerStart) + s3;
    var s1 := Le32(frag.fragmentId) + s2;
    assert EncodeIds(version, frag) + rest == Le32(MAGIC) + (Le32(version) + s1);
    PrefixBack(version, s1);
    U32Back(frag.fragmentId, s2);
    U32Back(frag.layerStart, s3);
    U32Back(frag.layerEnd, rest);
  }

  function EncodeTail(frag: DistributedFragment): (b: seq<Byte>)
    ensures |b| == 8
  {
    Le32(frag.nKvHeads) + Le32(frag.headDim)
  }

  function TakeTail(s: seq<Byte>): Read<(U32, U32)> {
    var (nKvHeads, s1) :- TakeU32(s);
    var (headDim, s2) :- TakeU32(s1);
    Ok(((nKvHeads, headDim), s2))
  }

  lemma TailBack(frag: DistributedFragment)
    ensures TakeTail(EncodeTail(frag)) == Ok(((frag.nKvHeads, frag.headDim), []))
  {
    hide Le32, TakeU32;
    U32Back(frag.nKvHeads, Le32(frag.headDim));
    U32Back(frag.headDim, []);
    assert Le32(frag.headDim) + [] == Le32(frag.headDim);
  }

  function EncodeShard(version: U32, frag: DistributedFragment): seq<Byte> {
    EncodeIds(version, frag) + (EncodeBytecode(frag.ops)
    + (EncodeWeights(frag.weights) + (EncodeTensorTable(frag.tensors) + EncodeTail(frag))))
  }

  /** `load_distributed_fragment` behind the header: the shard as a function of its bytes. */
  function TakeShard(s: seq<Byte>, config: ModelConfig): Result<DistributedFragment, ShardError> {
    var (ids, s1) :- TakeIds(s, config.nLayers);
    var (ops, s2) :- TakeBytecode(ids.version, s1);
    var (weights, s3) :- TakeWeights(s2);
    var (tensors, s4) :- TakeTensorTable(s3, |weights|);
    var ((nKvHeads, headDim), s5) :- TakeTail(s4);
    if s5 != [] then Err(TrailingData)
    else Ok(DistributedFragment(ids.fragmentId, ids.layerStart, ids.layerEnd, ops, weights, tensors, config, nKvHeads, headDim))
  }

  function EncodeDims(config: ModelConfig): (b: seq<Byte>)
    ensures |b| == 20
  {
    Le32(config.nLayers) + (Le32(config.nHeads) + (Le32(config.nEmbd) + (Le32(config.contextLength) + Le32(config.vocabSize))))
  }

  function EncodeHeader(version: U32, count: U32, config: ModelConfig): seq<Byte> {
    Le32(MAGIC) + (Le32(version) + (Le32(count) + (Le64(|config.architecture| % U64_RANGE)
    + (config.architecture + EncodeDims(config)))))
  }

  function TakeDims(s: seq<Byte>, architecture: Text): Read<ModelConfig> {
    var (nLayers, s1) :- TakeU32(s);
    var (nHeads, s2) :- TakeU32(s1);
    var (nEmbd, s3) :- TakeU32(s2);
    var (contextLength, s4) :- TakeU32(s3);
    var (vocabSize, s5) :- TakeU32(s4);
    Ok((ModelConfig(architecture, nLayers, nHeads, nEmbd, contextLength, vocabSize), s5))
  }

  /** `load_distributed_header` as a function of the file's bytes. */
  function TakeHeader(s: seq<Byte>): Result<(ModelConfig, U32), ShardError> {
    var (_, s1) :- TakePrefix(s);
    var (count, s2) :- TakeU32(s1);
    if count == 0 || count > MAX_TENSORS then Err(BadFragmentCount)
    else
      var (archLen, s3) :- TakeU64(s2);
      var (architecture, s4) :- TakeText(s3, archLen);
      var (config, s5) :- TakeDims(s4, architecture);
      if s5 != [] then Err(TrailingData) else Ok((config, count))
  }

  lemma DimsBack(config: ModelConfig)
    ensures TakeDims(EncodeDims(config), config.architecture) == Ok((config, []))
  {
    hide Le32, TakeU32;
    var s4 := Le32(config.vocabSize) + [];
    var s3 := Le32(config.contextLength) + s4;
    var s2 := Le32(config.nEmbd) + s3;
    var s1 := Le32(config.nHeads) + s2;
    assert s4 == Le32(config.vocabSize);
    U32Back(config.nLayers, s1);
    U32Back(config.nHeads, s2);
    U32Back(config.nEmbd, s3);
    U32Back(config.contextLength, s4);
    U32Back(config.vocabSize, []);
  }

  lemma HeaderBack(version: U32, count: U32, config: ModelConfig)
    requires version == BASE_VERSION || version == SELECTION_VERSION
    requires FromUtf8(config.architecture).Ok? && |config.architecture| < U64_RANGE
    ensures TakeHeader(EncodeHeader(version, count, config))
            == if 1 <= count <= MAX_TENSORS then Ok((config, count)) else Err(BadFragmentCount)
  {
    hide Le32, Le64, TakeU32, TakeU64, TakePrefix, TakeText, TakeDims, EncodeDims, FromUtf8;
    var s3 := config.architecture + EncodeDims(config);
    var s2 := Le64(|config.architecture|) + s3;
    var s1 := Le32(count) + s2;
    PrefixBack(version, s1);
    U32Back(count, s2);
    U64Back(|config.architecture|, s3);
    TextBack(config.architecture, EncodeDims(config));
    DimsBack(config);
  }

  // -------------------------------------------------------------- main results

  /** What the loader's checks admit. */
  predicate ShardAdmitted(version: U32, frag: DistributedFragment, nLayers: U32) {
    && LayersFit(frag, nLayers)
    && |frag.ops| <= MAX_OPS
    && |frag.tensors| <= MAX_TENSORS && RangesFit(frag.tensors, |frag.weights|)
  }

  /** Counts and lengths that fit their fields; names are strings. */
  predicate WidthsFit(frag: DistributedFragment) {
    && |frag.ops| < Machine.U32_RANGE && |frag.tensors| < Machine.U32_RANGE && |frag.weights| * 4 <= USIZE_MAX
    && NamesFit(frag.tensors)
  }

  /**
   A written shard is read back unchanged exactly when the checks admit it; the guards
   that compare counts with the available bytes never reject it.
   */
  lemma ShardBack(version: U32, frag: DistributedFragment, config: ModelConfig)
    requires (version == BASE_VERSION || version == SELECTION_VERSION) && OpsInShard(version, frag.ops) && WidthsFit(frag)
    ensures var r := TakeShard(EncodeShard(version, frag), config);
            if ShardAdmitted(version, frag, config.nLayers) then r == Ok(frag.(config := config)) else r.Err?
  {
    hide EncodeIds, EncodeBytecode, EncodeWeights, EncodeTensorTable, EncodeTail, TakeIds, TakeBytecode, TakeWeights,
         TakeTensorTable, TakeTail, LayersFit, OpsInShard, RangesFit, NamesFit;
    var s4 := EncodeTail(frag);
    var s3 := EncodeTensorTable(frag.tensors) + s4;
    var s2 := EncodeWeights(frag.weights) + s3;
    var s1 := EncodeBytecode(frag.ops) + s2;
    IdsBack(version, frag, s1, config.nLayers);
    BytecodeBack(version, frag.ops, s2);
    WeightsBack(frag.weights, s3);
    TensorTableBack(frag.tensors, s4, |frag.weights|);
    TailBack(frag);
  }

  lemma IdsWere(s: seq<Byte>, nLayers: U32)
    requires TakeIds(s, nLayers).Ok?
    ensures var (ids, rest) := TakeIds(s, nLayers).value;
            && ids.layerStart <= ids.layerEnd <= nLayers
            && s == Le32(MAGIC) + (Le32(ids.version) + (Le32(ids.fragmentId) + (Le32(ids.layerStart) + Le32(ids.layerEnd)))) + rest
  {
    hide Le32, TakeU32, TakePrefix;
    var (version, s1) := TakePrefix(s).value;
    var (fragmentId, s2) := TakeU32(s1).value;
    var (layerStart, s3) := TakeU32(s2).value;
    var (layerEnd, s4) := TakeU32(s3).value;
    PrefixWas(s);
    U32Was(s1);
    U32Was(s2);
    U32Was(s3);
    assert Le32(MAGIC) + (Le32(version) + (Le32(fragmentId) + (Le32(layerStart) + (Le32(layerEnd) + s4))))
        == Le32(MAGIC) + (Le32(version) + (Le32(fragmentId) + (Le32(layerStart) + Le32(layerEnd)))) + s4;
  }

  lemma TailWas(s: seq<Byte>)
    requires TakeTail(s).Ok?
    ensures var ((nKvHeads, headDim), rest) := TakeTail(s).value; s == Le32(nKvHeads) + Le32(headDim) + rest
  {
    hide Le32, TakeU32;
    U32Was(s);
    U32Was(TakeU32(s).value.1);
  }

  /** Canonical: an accepted shard is byte for byte what the writer makes of it. */
  lemma ShardIsCanonical(s: seq<Byte>, config: ModelConfig)
    requires TakeShard(s, config).Ok?
    ensures TakeIds(s, config.nLayers).Ok?
    ensures var version := TakeIds(s, config.nLayers).value.0.version;
            var frag := TakeShard(s, config).value;
            && s == EncodeShard(version, frag) && OpsInShard(version, frag.ops) && WidthsFit(frag) && frag.config == config
            && ShardAdmitted(version, frag, config.nLayers)
  {
    hide EncodeBytecode, EncodeWeights, EncodeTensorTable, TakeIds, TakeBytecode, TakeWeights,
         TakeTensorTable, TakeTail, OpsInShard, RangesFit, NamesFit, Le32;
    var (ids, s1) := TakeIds(s, config.nLayers).value;
    IdsWere(s, config.nLayers);
    BytecodeWas(ids.version, s1);
    var (ops, s2) := TakeBytecode(ids.version, s1).value;
    WeightsWere(s2);
    var (weights, s3) := TakeWeights(s2).value;
    TensorTableWas(s3, |weights|);
    var (tensors, s4) := TakeTensorTable(s3, |weights|).value;
    TailWas(s4);
    var frag := TakeShard(s, config).value;
    assert s4 == EncodeTail(frag) + [] == EncodeTail(frag);
  }

  function OpLists(fragments: seq<DistributedFragment>): seq<seq<Op>> {
    seq(|fragments|, k requires 0 <= k < |fragments| => fragments[k].ops)
  }

  ghost function ShardVersion(fragments: seq<DistributedFragment>): (v: U32)
    ensures v == BASE_VERSION || v == SELECTION_VERSION
  {
    if GraphCodec.SomeOp(OpLists(fragments), GraphCodec.IsSelection()) then SELECTION_VERSION else BASE_VERSION
  }

  function Files(version: U32, fragments: seq<DistributedFragment>): map<U32, seq<Byte>> {
    if fragments == [] then map[]
    else
      var last := fragments[|fragments| - 1];
      Files(version, fragments[..|fragments| - 1])[last.fragmentId := EncodeShard(version, last)]
  }

  /** `serialize_distributed`: the directory, unless some opcode needs the graph format. */
  ghost function Serialized(fragments: seq<DistributedFragment>): Result<Directory, ShardError>
    requires fragments != []
  {
    if GraphCodec.SomeOp(OpLists(fragments), GraphCodec.IsContext()) then Err(ContextLoads)
    else
      var version := ShardVersion(fragments);
      Ok(Directory(EncodeHeader(version, |fragments| % Machine.U32_RANGE, fragments[0].config), Files(version, fragments)))
  }

  /** `load_distributed_fragment` as a function of the two files. */
  function Loaded(header: seq<Byte>, s: seq<Byte>): Result<DistributedFragment, ShardError> {
    if |header| > MAX_HEADER_BYTES then Err(FileTooBig)
    else
      var (config, _) :- TakeHeader(header);
      if |s| > MAX_FRAGMENT_BYTES then Err(FileTooBig) else TakeShard(s, config)
  }

  /** The last fragment with an id owns its file. */
  lemma {:induction false} FileOf(version: U32, fragments: seq<DistributedFragment>, k: nat)
    requires k < |fragments|
    requires forall j :: k < j < |fragments| ==> fragments[j].fragmentId != fragments[k].fragmentId
    ensures fragments[k].fragmentId in Files(version, fragments)
    ensures Files(version, fragments)[fragments[k].fragmentId] == EncodeShard(version, fragments[k])
    decreases |fragments|
  {
    hide EncodeShard;
    if k < |fragments| - 1 {
      var front := fragments[..|fragments| - 1];
      assert front[k] == fragments[k];
      FileOf(version, front, k);
    }
  }

  lemma InShards(fragments: seq<DistributedFragment>, k: nat)
    requires k < |fragments| && !GraphCodec.SomeOp(OpLists(fragments), GraphCodec.IsContext())
    ensures OpsInShard(ShardVersion(fragments), fragments[k].ops)
  {
    var lists := OpLists(fragments);
    forall j | 0 <= j < |fragments[k].ops| ensures InShard(ShardVersion(fragments), fragments[k].ops[j]) {
      var op := lists[k][j];
      assert !GraphCodec.IsContext()(op);
      assert GraphCodec.IsSelection()(op) <==> op.FMax?;
    }
  }

  ghost predicate WithinBudgets(fragments: seq<DistributedFragment>, k: nat)
    requires k < |fragments|
  {
    && |fragments| <= MAX_TENSORS && 40 + |fragments[0].config.architecture| <= MAX_HEADER_BYTES
    && |EncodeShard(ShardVersion(fragments), fragments[k])| <= MAX_FRAGMENT_BYTES
    && ShardAdmitted(ShardVersion(fragments), fragments[k], fragments[0].config.nLayers)
  }

  /** The last fragment that carries the id of fragment `k`: the owner of its file. */
  function OwnerOf(fragments: seq<DistributedFragment>, k: nat): (j: nat)
    requires k < |fragments|
    ensures k <= j < |fragments| && fragments[j].fragmentId == fragments[k].fragmentId
    ensures forall i :: j < i < |fragments| ==> fragments[i].fragmentId != fragments[k].fragmentId
  {
    var last := |fragments| - 1;
    if fragments[last].fragmentId == fragments[k].fragmentId then last else OwnerOf(fragments[..last], k)
  }

  /** What the loader needs of a written list: strings, and lengths that fit their fields. */
  predicate Writable(fragments: seq<DistributedFragment>)
    requires fragments != []
  {
    && |fragments| < Machine.U32_RANGE && (forall k :: 0 <= k < |fragments| ==> WidthsFit(fragments[k]))
    && FromUtf8(fragments[0].config.architecture).Ok? && |fragments[0].config.architecture| < U64_RANGE
  }

  /** What loading the file of fragment `k` gives. */
  ghost function LoadedBack(fragments: seq<DistributedFragment>, k: nat): Result<DistributedFragment, ShardError>
    requires k < |fragments| && Serialized(fragments).Ok?
  {
    var dir := Serialized(fragments).value;
    FileOf(ShardVersion(fragments), fragments, OwnerOf(fragments, k));
    Loaded(dir.header, dir.files[fragments[k].fragmentId])
  }

  /** Every file holds the last fragment with its id, and loads under the first one's configuration. */
  lemma LoadsOwner(fragments: seq<DistributedFragment>, k: nat)
    requires k < |fragments| && Writable(fragments) && Serialized(fragments).Ok?
    ensures var j := OwnerOf(fragments, k);
            var r := LoadedBack(fragments, k);
            if WithinBudgets(fragments, j) then r == Ok(fragments[j].(config := fragments[0].config)) else r.Err?
  {
    hide EncodeShard, EncodeHeader, TakeShard, TakeHeader, Files, ShardVersion, OpLists, FromUtf8, OpsInShard, WidthsFit,
         ShardAdmitted, OwnerOf;
    var version, config, j := ShardVersion(fragments), fragments[0].config, OwnerOf(fragments, k);
    FileOf(version, fragments, j);
    InShards(fragments, j);
    HeaderLength(version, |fragments|, config);
    HeaderBack(version, |fragments|, config);
    ShardBack(version, fragments[j], config);
  }

  /**
   A written fragment is loaded back exactly when the last fragment with its id passes the
   loader's budgets and checks and is, under the first fragment's configuration, that fragment.
   */
  lemma LoadsBackExactly(fragments: seq<DistributedFragment>, k: nat)
    requires k < |fragments| && Writable(fragments) && Serialized(fragments).Ok?
    ensures var j := OwnerOf(fragments, k);
            LoadedBack(fragments, k) == Ok(fragments[k])
            <==> WithinBudgets(fragments, j) && fragments[j].(config := fragments[0].config) == fragments[k]
  {
    hide WithinBudgets, LoadedBack, Writable, Serialized, OwnerOf;
    LoadsOwner(fragments, k);
  }

  /** No two different fragments share an id, and all have one configuration. */
  predicate Unambiguous(fragments: seq<DistributedFragment>) {
    && (forall i, j :: 0 <= i < j < |fragments| && fragments[i].fragmentId == fragments[j].fragmentId
          ==> fragments[i] == fragments[j])
    && forall k :: 0 <= k < |fragments| ==> fragments[k].config == fragments[0].config
  }

  /**
   Round trip through the directory: every fragment is loaded back unchanged exactly when
   the list is unambiguous and the loader's budgets and checks admit every fragment.
   */
  lemma DirectoryRoundTrip(fragments: seq<DistributedFragment>)
    requires fragments != [] && Writable(fragments) && Serialized(fragments).Ok?
    ensures (forall k :: 0 <= k < |fragments| ==> LoadedBack(fragments, k) == Ok(fragments[k]))
            <==> Unambiguous(fragments) && forall k :: 0 <= k < |fragments| ==> WithinBudgets(fragments, k)
  {
    hide Unambiguous, WithinBudgets, LoadedBack, Writable, Serialized, OwnerOf;
    if forall k :: 0 <= k < |fragments| ==> LoadedBack(fragments, k) == Ok(fragments[k]) {
      forall k | 0 <= k < |fragments| ensures WithinBudgets(fragments, k) {
        OwnerIsFragment(fragments, k);
      }
      BackIsUnambiguous(fragments);
    }
    if Unambiguous(fragments) && forall k :: 0 <= k < |fragments| ==> WithinBudgets(fragments, k) {
      forall k | 0 <= k < |fragments| ensures LoadedBack(fragments, k) == Ok(fragments[k]) {
        LoadsBackExactly(fragments, k);
        OwnerIsEqual(fragments, k);
      }
    }
  }

  // When everything loads back, the owner of a file is the fragment itself.
  lemma OwnerIsFragment(fragments: seq<DistributedFragment>, k: nat)
    requires k < |fragments| && Writable(fragments) && Serialized(fragments).Ok?
    requires forall i :: 0 <= i < |fragments| ==> LoadedBack(fragments, i) == Ok(fragments[i])
    ensures fragments[OwnerOf(fragments, k)] == fragments[k] && fragments[k].config == fragments[0].config
    ensures WithinBudgets(fragments, k)
  {
    hide ShardAdmitted, LoadedBack, Writable, Serialized, EncodeShard, OwnerOf;
    var j := OwnerOf(fragments, k);
    LoadsBackExactly(fragments, k);
    LoadsBackExactly(fragments, j);
    assert OwnerOf(fragments, j) == j;
  }

  lemma BackIsUnambiguous(fragments: seq<DistributedFragment>)
    requires fragments != [] && Writable(fragments) && Serialized(fragments).Ok?
    requires forall i :: 0 <= i < |fragments| ==> LoadedBack(fragments, i) == Ok(fragments[i])
    ensures Unambiguous(fragments)
  {
    hide WithinBudgets, LoadedBack, Writable, Serialized, OwnerOf;
    forall k | 0 <= k < |fragments|
      ensures fragments[OwnerOf(fragments, k)] == fragments[k] && fragments[k].config == fragments[0].config
    {
      OwnerIsFragment(fragments, k);
    }
    forall i, j | 0 <= i < j < |fragments| && fragments[i].fragmentId == fragments[j].fragmentId
      ensures fragments[i] == fragments[j]
    {
      assert OwnerOf(fragments, i) == OwnerOf(fragments, j);
    }
  }

  lemma OwnerIsEqual(fragments: seq<DistributedFragment>, k: nat)
    requires k < |fragments| && Unambiguous(fragments)
    ensures var j := OwnerOf(fragments, k); fragments[j].(config := fragments[0].config) == fragments[k]
  {
    hide OwnerOf;
  }

  lemma HeaderLength(version: U32, count: U32, config: ModelConfig)
    ensures |EncodeHeader(version, count, config)| == 40 + |config.architecture|
  {
    hide Le32, Le64, EncodeDims;
  }

  /** A fragment without code, weights or tensors. */
  function Hollow(fragmentId: U32, headDim: U32): DistributedFragment {
    DistributedFragment(fragmentId, 0, 0, [], [], [], ModelConfig([], 0, 0, 0, 0, 0), 0, headDim)
  }

  /** Two different fragments with one id: both loads give the second one, without an error. */
  lemma SharedIdLosesFragment()
    ensures var a, b := Hollow(0, 1), Hollow(0, 2);
            && a != b && Writable([a, b]) && Serialized([a, b]).Ok?
            && LoadedBack([a, b], 0) == LoadedBack([a, b], 1) == Ok(b)
  {
    hide LoadedBack, EncodeShard, FromUtf8;
    var list := [Hollow(0, 1), Hollow(0, 2)];
    EmptyIsUtf8();
    assert OwnerOf(list, 0) == 1 && OwnerOf(list, 1) == 1;
    HollowLength(ShardVersion(list), Hollow(0, 2));
    LoadsOwner(list, 0);
    LoadsOwner(list, 1);
  }

  lemma HollowLength(version: U32, frag: DistributedFragment)
    requires frag.ops == [] && frag.weights == [] && frag.tensors == []
    ensures |EncodeShard(version, frag)| <= MAX_FRAGMENT_BYTES
  {
    hide Le32, Le64;
  }

  lemma EmptyIsUtf8()
    ensures FromUtf8([]) == Ok([])
  {
  }
}
