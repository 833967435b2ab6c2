/** The writer and the loader of the shard directory, statement by statement. */
module ShardFiles {
  import opened Wrappers
  import opened Bytes
  import opened Utf8
  import opened OpCodec
  import opened ShardDirectory
  import opened ShardFormat
  import opened ShardReader
  import opened Shards
  import GraphCodec
  import Machine

  // -------------------------------------------------------------------- writing

  lemma WordsFrom(words: seq<U32>, i: nat)
    requires i < |words|
    ensures EncodeWords(words[i..]) == Le32(words[i]) + EncodeWords(words[i + 1..])
  {
    assert words[i..][1..] == words[i + 1..];
  }

  lemma TensorsFrom(ts: seq<TensorMeta>, i: nat)
    requires i < |ts|
    ensures EncodeTensors(ts[i..]) == EncodeTensor(ts[i]) + EncodeTensors(ts[i + 1..])
  {
    assert ts[i..][1..] == ts[i + 1..];
  }

  method AppendWords(bytes: seq<Byte>, words: seq<U32>) returns (r: seq<Byte>)
    ensures r == bytes + EncodeWords(words)
  {
    hide Le32;
    r := bytes;
    assert words[0..] == words;
    for i := 0 to |words|
      invariant r + EncodeWords(words[i..]) == bytes + EncodeWords(words)
    {
      WordsFrom(words, i);
      r := r + Le32(words[i]);
    }
    assert words[|words|..] == [];
  }

  method AppendTensors(bytes: seq<Byte>, ts: seq<TensorMeta>) returns (r: seq<Byte>)
    ensures r == bytes + EncodeTensors(ts)
  {
    hide Le32, Le64;
    r := bytes;
    assert ts[0..] == ts;
    for i := 0 to |ts|
      invariant r + EncodeTensors(ts[i..]) == bytes + EncodeTensors(ts)
    {
      TensorsFrom(ts, i);
      r := AppendTensor(r, ts[i]);
    }
    assert ts[|ts|..] == [];
  }

  method AppendTensor(bytes: seq<Byte>, t: TensorMeta) returns (r: seq<Byte>)
    ensures r == bytes + EncodeTensor(t)
  {
    hide Le32, Le64;
    r := bytes + Le32(|t.name| % Machine.U32_RANGE);
    r := r + t.name;
    r := r + Le64(t.offset);
    r := r + Le32(t.nRows);
    r := r + Le32(t.nCols);
  }

  method WriteHeader(version: U32, count: U32, config: ModelConfig) returns (f: seq<Byte>)
    ensures f == EncodeHeader(version, count, config)
  {
    hide Le32, Le64;
    f := Le32(MAGIC) + Le32(version);
    f := f + Le32(count);
    f := f + Le64(|config.architecture| % U64_RANGE);
    f := f + config.architecture;
    var dims := Le32(config.nLayers) + Le32(config.nHeads);
    dims := dims + Le32(config.nEmbd);
    dims := dims + Le32(config.contextLength);
    dims := dims + Le32(config.vocabSize);
    assert dims == EncodeDims(config);
    f := f + dims;
  }

  method WriteIds(version: U32, frag: DistributedFragment) returns (f: seq<Byte>)
    ensures f == EncodeIds(version, frag)
  {
    hide Le32;
    f := Le32(MAGIC) + Le32(version);
    f := f + Le32(frag.fragmentId);
    f := f + Le32(frag.layerStart);
    f := f + Le32(frag.layerEnd);
  }

  method WriteShard(version: U32, frag: DistributedFragment) returns (f: seq<Byte>)
    ensures f == EncodeShard(version, frag)
  {
    hide Le32, Le64, EncodeOps, EncodeWords, EncodeTensors, EncodeIds;
    var ids := WriteIds(version, frag);
    var ops := AppendOps(ids + Le32(|frag.ops| % Machine.U32_RANGE), frag.ops);
    assert ops == ids + EncodeBytecode(frag.ops);
    var weights := AppendWords(ops + Le64(|frag.weights| % U64_RANGE), frag.weights);
    assert weights == ops + EncodeWeights(frag.weights);
    var tensors := AppendTensors(weights + Le32(|frag.tensors| % Machine.U32_RANGE), frag.tensors);
    assert tensors == weights + EncodeTensorTable(frag.tensors);
    f := tensors + Le32(frag.nKvHeads);
    f := f + Le32(frag.headDim);
    assert f == tensors + EncodeTail(frag);
  }

  /** `serialize_distributed`: a file created twice keeps its last contents. */
  method SerializeDistributed(fragments: seq<DistributedFragment>) returns (r: Result<Directory, ShardError>)
    requires fragments != []
    ensures r == Serialized(fragments)
  {
    hide EncodeShard, EncodeHeader;
    var lists := OpLists(fragments);
    var context := GraphCodec.AnyOp(lists, GraphCodec.IsContext());
    if context {
      return Err(ContextLoads);
    }
    var selection := GraphCodec.AnyOp(lists, GraphCodec.IsSelection());
    var version := if selection then SELECTION_VERSION else BASE_VERSION;
    var header := WriteHeader(version, |fragments| % Machine.U32_RANGE, fragments[0].config);
    var files: map<U32, seq<Byte>> := map[];
    for i := 0 to |fragments|
      invariant files == Files(version, fragments[..i])
    {
      assert fragments[..i + 1][..i] == fragments[..i];
      var file := WriteShard(version, fragments[i]);
      files := files[fragments[i].fragmentId := file];
    }
    assert fragments[..|fragments|] == fragments;
    r := Ok(Directory(header, files));
  }

  // -------------------------------------------------------------------- loading

  method ReadOps(reader: DistributedReader, version: U32, n: nat) returns (r: Result<seq<Op>, ShardError>)
    modifies reader
    ensures Reads(TakeOps(version, old(reader.bytes), n), r, reader.bytes)
  {
    hide DeserializeOp;
    var ops: seq<Op> := [];
    PrependNothing(TakeOps(version, reader.bytes, n));
    for i := 0 to n
      invariant TakeOps(version, old(reader.bytes), n) == Prepend(ops, TakeOps(version, reader.bytes, n - i))
    {
      var decoded := DeserializeOp(reader.bytes);
      if decoded.Err? {
        return Err(decoded.error);
      }
      var (op, consumed) := decoded.value;
      if op.FMax? && version < SELECTION_VERSION {
        return Err(NeedsSelectionVersion);
      }
      PrependNext(ops, op, TakeOps(version, reader.bytes[consumed..], n - i - 1));
      var _ := reader.TakeBytes(consumed);
      ops := ops + [op];
    }
    assert ops + [] == ops;
    r := Ok(ops);
  }

  method ReadBytecode(reader: DistributedReader, version: U32) returns (r: Result<seq<Op>, ShardError>)
    modifies reader
    ensures Reads(TakeBytecode(version, old(reader.bytes)), r, reader.bytes)
  {
    hide TakeU32, TakeOps;
    var n := reader.U32();
    if n.Err? {
      return Err(n.error);
    }
    if n.value > MAX_OPS || n.value > |reader.bytes| {
      return Err(OpcodeCount);
    }
    r := ReadOps(reader, version, n.value);
  }

  method ReadWeights(reader: DistributedReader) returns (r: Result<seq<U32>, ShardError>)
    modifies reader
    ensures Reads(TakeWeights(old(reader.bytes)), r, reader.bytes)
  {
    hide TakeU64;
    var n := reader.U64();
    if n.Err? {
      return Err(n.error);
    }
    if n.value * 4 > USIZE_MAX {
      return Err(WeightOverflow);
    }
    var raw := reader.TakeBytes(n.value * 4);
    if raw.Err? {
      return Err(raw.error);
    }
    r := Ok(Words(raw.value, n.value));
  }

  method ReadTensor(reader: DistributedReader, nWeights: nat) returns (r: Result<TensorMeta, ShardError>)
    modifies reader
    ensures Reads(TakeTensor(old(reader.bytes), nWeights), r, reader.bytes)
  {
    hide TakeU32, TakeU64, TakeText, RangeError;
    var nameLen := reader.U32();
    if nameLen.Err? {
      return Err(nameLen.error);
    }
    var name := reader.Text(nameLen.value);
    if name.Err? {
      return Err(name.error);
    }
    var offset := reader.U64();
    if offset.Err? {
      return Err(offset.error);
    }
    var nRows := reader.U32();
    if nRows.Err? {
      return Err(nRows.error);
    }
    var nCols := reader.U32();
    if nCols.Err? {
      return Err(nCols.error);
    }
    var t := TensorMeta(name.value, offset.value, nRows.value, nCols.value);
    var outside := RangeError(t, nWeights);
    if outside.Some? {
      return Err(outside.value);
    }
    r := Ok(t);
  }

  method ReadTensors(reader: DistributedReader, nWeights: nat) returns (r: Result<seq<TensorMeta>, ShardError>)
    modifies reader
    ensures Reads(TakeTensorTable(old(reader.bytes), nWeights), r, reader.bytes)
  {
    hide TakeU32, TakeTensor;
    var n := reader.U32();
    if n.Err? {
      return Err(n.error);
    }
    if n.value > MAX_TENSORS || n.value > (if |reader.bytes| >= 8 then |reader.bytes| - 8 else 0) / 20 {
      return Err(TensorCount);
    }
    ghost var s := reader.bytes;
    var tensors: seq<TensorMeta> := [];
    PrependNothing(TakeTensors(s, n.value, nWeights));
    for i := 0 to n.value
      invariant TakeTensors(s, n.value, nWeights)
                == Prepend(tensors, TakeTensors(reader.bytes, n.value - i, nWeights))
    {
      var t := ReadTensor(reader, nWeights);
      if t.Err? {
        return Err(t.error);
      }
      PrependNext(tensors, t.value, TakeTensors(reader.bytes, n.value - i - 1, nWeights));
      tensors := tensors + [t.value];
    }
    assert tensors + [] == tensors;
    r := Ok(tensors);
  }

  method ReadIds(reader: DistributedReader, nLayers: U32) returns (r: Result<ShardIds, ShardError>)
    modifies reader
    ensures Reads(TakeIds(old(reader.bytes), nLayers), r, reader.bytes)
  {
    hide TakeU32, TakePrefix;
    var version := reader.Prefix();
    if version.Err? {
      return Err(version.error);
    }
    var fragmentId := reader.U32();
    if fragmentId.Err? {
      return Err(fragmentId.error);
    }
    var layerStart := reader.U32();
    if layerStart.Err? {
      return Err(layerStart.error);
    }
    var layerEnd := reader.U32();
    if layerEnd.Err? {
      return Err(layerEnd.error);
    }
    if layerStart.value > layerEnd.value || layerEnd.value > nLayers {
      return Err(BadLayerRange);
    }
    r := Ok(ShardIds(version.value, fragmentId.value, layerStart.value, layerEnd.value));
  }

  method ReadTail(reader: DistributedReader) returns (r: Result<(U32, U32), ShardError>)
    modifies reader
    ensures Reads(TakeTail(old(reader.bytes)), r, reader.bytes)
  {
    hide TakeU32;
    var nKvHeads := reader.U32();
    if nKvHeads.Err? {
      return Err(nKvHeads.error);
    }
    var headDim := reader.U32();
    if headDim.Err? {
      return Err(headDim.error);
    }
    r := Ok((nKvHeads.value, headDim.value));
  }

  method ReadDims(reader: DistributedReader, architecture: Text) returns (r: Result<ModelConfig, ShardError>)
    modifies reader
    ensures Reads(TakeDims(old(reader.bytes), architecture), r, reader.bytes)
  {
    hide TakeU32;
    var nLayers := reader.U32();
    if nLayers.Err? {
      return Err(nLayers.error);
    }
    var nHeads := reader.U32();
    if nHeads.Err? {
      return Err(nHeads.error);
    }
    var nEmbd := reader.U32();
    if nEmbd.Err? {
      return Err(nEmbd.error);
    }
    var contextLength := reader.U32();
    if contextLength.Err? {
      return Err(contextLength.error);
    }
    var vocabSize := reader.U32();
    if vocabSize.Err? {
      return Err(vocabSize.error);
    }
    r := Ok(ModelConfig(architecture, nLayers.value, nHeads.value, nEmbd.value, contextLength.value, vocabSize.value));
  }

  /** `load_distributed_header`. */
  method LoadHeader(header: seq<Byte>) returns (r: Result<(ModelConfig, U32), ShardError>)
    ensures r == if |header| > MAX_HEADER_BYTES then Err(FileTooBig) else TakeHeader(header)
  {
    hide TakeU32, TakeU64, TakePrefix, TakeText, TakeDims;
    if |header| > MAX_HEADER_BYTES {
      return Err(FileTooBig);
    }
    var reader := new DistributedReader(header);
    var prefix := reader.Prefix();
    if prefix.Err? {
      return Err(prefix.error);
    }
    var count := reader.U32();
    if count.Err? {
      return Err(count.error);
    }
    if count.value == 0 || count.value > MAX_TENSORS {
      return Err(BadFragmentCount);
    }
    var archLen := reader.U64();
    if archLen.Err? {
      return Err(archLen.error);
    }
    var architecture := reader.Text(archLen.value);
    if architecture.Err? {
      return Err(architecture.error);
    }
    var config := ReadDims(reader, architecture.value);
    if config.Err? {
      return Err(config.error);
    }
    var done := reader.Finish();
    if done.Err? {
      return Err(done.error);
    }
    r := Ok((config.value, count.value));
  }

  /** `load_distributed_fragment`: the sibling header, then the shard. */
  method LoadFragment(header: seq<Byte>, bytes: seq<Byte>) returns (r: Result<DistributedFragment, ShardError>)
    ensures r == Loaded(header, bytes)
  {
    hide TakeHeader, TakeIds, TakeBytecode, TakeWeights, TakeTensorTable, TakeTail;
    var loaded := LoadHeader(header);
    if loaded.Err? {
      return Err(loaded.error);
    }
    var config := loaded.value.0;
    if |bytes| > MAX_FRAGMENT_BYTES {
      return Err(FileTooBig);
    }
    var reader := new DistributedReader(bytes);
    var ids := ReadIds(reader, config.nLayers);
    if ids.Err? {
      return Err(ids.error);
    }
    var ops := ReadBytecode(reader, ids.value.version);
    if ops.Err? {
      return Err(ops.error);
    }
    var weights := ReadWeights(reader);
    if weights.Err? {
      return Err(weights.error);
    }
    var tensors := ReadTensors(reader, |weights.value|);
    if tensors.Err? {
      return Err(tensors.error);
    }
    var tail := ReadTail(reader);
    if tail.Err? {
      return Err(tail.error);
    }
    var done := reader.Finish();
    if done.Err? {
      return Err(done.error);
    }
    r := Ok(DistributedFragment(ids.value.fragmentId, ids.value.layerStart, ids.value.layerEnd, ops.value, weights.value,
                                tensors.value, config, tail.value.0, tail.value.1));
  }
}
