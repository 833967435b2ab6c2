/**
 The files of a shard directory described by byte positions alone, and the main result
 about the loader: it gives a fragment exactly when the header and the shard are laid out
 as that fragment's and pass the stated bounds.
 */
module ShardLayout {
  import opened Wrappers
  import opened Bytes
  import opened Utf8
  import opened FormatTable
  import opened GraphLayout
  import GraphCodec
  import opened OpCodec
  import opened ShardDirectory
  import opened ShardFormat
  import opened ShardReader
  import opened Shards
  import M = Machine

  // ----------------------------------------------------------------- the layout

  /** `header.bmldist`: the model's name has a 64-bit length, its five sizes follow. */
  predicate HeaderFile(s: seq<Byte>, version: nat, count: nat, config: ModelConfig) {
    var n := |config.architecture|;
    && |s| == 40 + n && s[..4] == [0x47, 0x42, 0x4D, 0x4C] && WordAt(s, 4, version) && WordAt(s, 8, count)
    && LongAt(s, 12, n) && s[20..20 + n] == config.architecture
    && WordAt(s, 20 + n, config.nLayers) && WordAt(s, 24 + n, config.nHeads) && WordAt(s, 28 + n, config.nEmbd)
    && WordAt(s, 32 + n, config.contextLength) && WordAt(s, 36 + n, config.vocabSize)
  }

  /** Tensor descriptions, then the two closing fields. */
  predicate TensorsAt(s: seq<Byte>, ts: seq<TensorMeta>, nKvHeads: U32, headDim: U32) {
    if ts == [] then |s| == 8 && WordAt(s, 0, nKvHeads) && WordAt(s, 4, headDim)
    else
      var t, n := ts[0], |ts[0].name|;
      && |s| >= 20 + n && WordAt(s, 0, n) && s[4..4 + n] == t.name
      && LongAt(s, 4 + n, t.offset) && WordAt(s, 12 + n, t.nRows) && WordAt(s, 16 + n, t.nCols)
      && TensorsAt(s[20 + n..], ts[1..], nKvHeads, headDim)
  }

  /** Counted weights, and behind them the counted tensors. */
  predicate WeightsAt(s: seq<Byte>, frag: DistributedFragment) {
    var n := |frag.weights|;
    && |s| >= 12 + 4 * n && LongAt(s, 0, n) && (forall k :: 0 <= k < n ==> WordAt(s, 8 + 4 * k, frag.weights[k]))
    && WordAt(s, 8 + 4 * n, |frag.tensors|) && TensorsAt(s[12 + 4 * n..], frag.tensors, frag.nKvHeads, frag.headDim)
  }

  predicate ShardFile(s: seq<Byte>, version: nat, frag: DistributedFragment) {
    && |s| >= 24 + OpsWidth(frag.ops) && s[..4] == [0x47, 0x42, 0x4D, 0x4C] && WordAt(s, 4, version)
    && WordAt(s, 8, frag.fragmentId) && WordAt(s, 12, frag.layerStart) && WordAt(s, 16, frag.layerEnd)
    && WordAt(s, 20, |frag.ops|) && OpsAt(s[24..], frag.ops) && WeightsAt(s[24 + OpsWidth(frag.ops)..], frag)
  }

  // -------------------------------------------------- the layout and the encoding

  lemma WordThen(s: seq<Byte>, x: U32, rest: seq<Byte>)
    ensures s == Le32(x) + rest <==> |s| >= 4 && WordAt(s, 0, x) && s[4..] == rest
  {
    hide Le32, WordAt;
    WordPrefix(s, x);
  }

  lemma LongThen(s: seq<Byte>, x: U64, rest: seq<Byte>)
    ensures s == Le64(x) + rest <==> |s| >= 8 && LongAt(s, 0, x) && s[8..] == rest
  {
    hide Le64, LongAt;
    if |s| >= 8 {
      LongPrefix(s, x);
    }
  }

  lemma WordShift(s: seq<Byte>, d: nat, at: nat, x: nat)
    requires d <= at && d <= |s|
    ensures WordAt(s, at, x) <==> WordAt(s[d..], at - d, x)
  {
  }

  lemma MagicThen(s: seq<Byte>, rest: seq<Byte>)
    ensures s == Le32(MAGIC) + rest <==> |s| >= 4 && s[..4] == [0x47, 0x42, 0x4D, 0x4C] && s[4..] == rest
  {
    hide Le32;
    Letters();
    if |s| >= 4 {
      assert s == s[..4] + s[4..];
    }
    assert (Le32(MAGIC) + rest)[..4] == Le32(MAGIC);
  }

  /** Magic, version and one more number in front of the rest. */
  lemma PrefixThen(s: seq<Byte>, version: U32, x: U32, rest: seq<Byte>)
    ensures s == Le32(MAGIC) + (Le32(version) + (Le32(x) + rest)) <==>
              && |s| >= 12 && s[..4] == [0x47, 0x42, 0x4D, 0x4C] && WordAt(s, 4, version) && WordAt(s, 8, x)
              && s[12..] == rest
  {
    hide Le32, WordAt;
    MagicThen(s, Le32(version) + (Le32(x) + rest));
    if |s| >= 12 {
      WordThen(s[4..], version, Le32(x) + rest);
      WordThen(s[8..], x, rest);
      WordShift(s, 4, 4, version);
      WordShift(s, 8, 8, x);
      assert s[4..][4..] == s[8..] && s[8..][4..] == s[12..];
    }
  }

  lemma {:induction false} WordsLaidOut(s: seq<Byte>, words: seq<U32>)
    requires |s| == 4 * |words|
    ensures s == EncodeWords(words) <==> forall k :: 0 <= k < |words| ==> WordAt(s, 4 * k, words[k])
    decreases |words|
  {
    hide Le32, WordAt;
    if words != [] {
      WordThen(s, words[0], EncodeWords(words[1..]));
      WordsLaidOut(s[4..], words[1..]);
      forall k | 1 <= k < |words| ensures WordAt(s, 4 * k, words[k]) <==> WordAt(s[4..], 4 * (k - 1), words[1..][k - 1]) {
        WordShift(s, 4, 4 * k, words[k]);
      }
    }
  }

  lemma TextThen(s: seq<Byte>, text: Text, rest: seq<Byte>)
    ensures s == text + rest <==> |s| >= |text| && s[..|text|] == text && s[|text|..] == rest
  {
  }

  lemma ShapeThen(s: seq<Byte>, t: TensorMeta, rest: seq<Byte>)
    ensures s == EncodeShape(t) + rest <==>
              |s| >= 16 && LongAt(s, 0, t.offset) && WordAt(s, 8, t.nRows) && WordAt(s, 12, t.nCols) && s[16..] == rest
  {
    hide Le32, Le64, LongAt, WordAt;
    assert EncodeShape(t) + rest == Le64(t.offset) + (Le32(t.nRows) + (Le32(t.nCols) + rest));
    LongThen(s, t.offset, Le32(t.nRows) + (Le32(t.nCols) + rest));
    if |s| >= 16 {
      WordThen(s[8..], t.nRows, Le32(t.nCols) + rest);
      WordThen(s[12..], t.nCols, rest);
      WordShift(s, 8, 8, t.nRows);
      WordShift(s, 12, 12, t.nCols);
      assert s[8..][4..] == s[12..] && s[12..][4..] == s[16..];
    }
  }

  lemma TensorThen(s: seq<Byte>, t: TensorMeta, rest: seq<Byte>)
    requires |t.name| < M.U32_RANGE
    ensures var n := |t.name|;
            s == EncodeTensor(t) + rest <==>
              && |s| >= 20 + n && WordAt(s, 0, n) && s[4..4 + n] == t.name
              && LongAt(s, 4 + n, t.offset) && WordAt(s, 12 + n, t.nRows) && WordAt(s, 16 + n, t.nCols) && s[20 + n..] == rest
  {
    hide Le32, LongAt, WordAt, EncodeShape;
    var n := |t.name|;
    assert EncodeTensor(t) + rest == Le32(n) + (t.name + (EncodeShape(t) + rest));
    WordThen(s, n, t.name + (EncodeShape(t) + rest));
    if |s| >= 20 + n {
      TextThen(s[4..], t.name, EncodeShape(t) + rest);
      var shape := s[4 + n..];
      assert s[4..][..n] == s[4..4 + n] && s[4..][n..] == shape && shape[16..] == s[20 + n..];
      ShapeThen(shape, t, rest);
      LongShift(s, 4 + n, 4 + n, t.offset);
      WordShift(s, 4 + n, 12 + n, t.nRows);
      WordShift(s, 4 + n, 16 + n, t.nCols);
    }
  }

  ghost predicate ShortNames(ts: seq<TensorMeta>) {
    forall k :: 0 <= k < |ts| ==> |ts[k].name| < M.U32_RANGE
  }

  lemma ShortNamesCons(ts: seq<TensorMeta>)
    requires ts != []
    ensures ShortNames(ts) <==> |ts[0].name| < M.U32_RANGE && ShortNames(ts[1..])
  {
    assert ShortNames(ts[1..]) ==> forall k :: 1 <= k < |ts| ==> ts[k] == ts[1..][k - 1];
  }

  lemma LongName(s: seq<Byte>, n: nat)
    requires n >= M.U32_RANGE
    ensures !WordAt(s, 0, n)
  {
  }

  lemma {:induction false} TensorsLaidOut(s: seq<Byte>, ts: seq<TensorMeta>, frag: DistributedFragment)
    ensures TensorsAt(s, ts, frag.nKvHeads, frag.headDim) <==> ShortNames(ts) && s == EncodeTensors(ts) + EncodeTail(frag)
    decreases |ts|
  {
    hide Le32, LongAt, WordAt, EncodeTensor, ShortNames, EncodeTail;
    if ts == [] {
      NoNames();
      TailThen(s, frag);
    } else {
      ShortNamesCons(ts);
      if |ts[0].name| < M.U32_RANGE {
        var rest := EncodeTensors(ts[1..]) + EncodeTail(frag);
        assert EncodeTensors(ts) + EncodeTail(frag) == EncodeTensor(ts[0]) + rest;
        TensorThen(s, ts[0], rest);
        if |s| >= 20 + |ts[0].name| {
          TensorsLaidOut(s[20 + |ts[0].name|..], ts[1..], frag);
        }
      } else {
        LongName(s, |ts[0].name|);
      }
    }
  }

  lemma NoNames()
    ensures ShortNames([]) && EncodeTensors([]) == []
  {
  }

  lemma TailThen(s: seq<Byte>, frag: DistributedFragment)
    ensures [] + EncodeTail(frag) == EncodeTail(frag)
    ensures s == EncodeTail(frag) <==> |s| == 8 && WordAt(s, 0, frag.nKvHeads) && WordAt(s, 4, frag.headDim)
  {
    hide Le32, WordAt;
    WordThen(s, frag.nKvHeads, Le32(frag.headDim));
    if |s| == 8 {
      WordThen(s[4..], frag.headDim, []);
      WordShift(s, 4, 4, frag.headDim);
      assert Le32(frag.headDim) + [] == Le32(frag.headDim) && s[4..][4..] == [];
    }
  }

  lemma WeightsLaidOut(s: seq<Byte>, frag: DistributedFragment)
    requires |frag.weights| < U64_RANGE && |frag.tensors| < M.U32_RANGE
    ensures WeightsAt(s, frag) <==>
              && ShortNames(frag.tensors)
              && s == EncodeWeights(frag.weights) + (EncodeTensorTable(frag.tensors) + EncodeTail(frag))
  {
    hide Le32, Le64, LongAt, WordAt, EncodeWords, EncodeTensors, EncodeTail, ShortNames, TensorsAt;
    var n, words := |frag.weights|, EncodeWords(frag.weights);
    var rest := EncodeTensors(frag.tensors) + EncodeTail(frag);
    var table := Le32(|frag.tensors|) + rest;
    assert EncodeWeights(frag.weights) + (EncodeTensorTable(frag.tensors) + EncodeTail(frag)) == Le64(n) + (words + table);
    LongThen(s, n, words + table);
    if |s| >= 12 + 4 * n {
      TextThen(s[8..], words, table);
      assert s[8..][..4 * n] == s[8..8 + 4 * n] && s[8..][4 * n..] == s[8 + 4 * n..];
      WordsAtStart(s, frag.weights);
      WordThen(s[8 + 4 * n..], |frag.tensors|, rest);
      WordShift(s, 8 + 4 * n, 8 + 4 * n, |frag.tensors|);
      assert s[8 + 4 * n..][4..] == s[12 + 4 * n..];
      TensorsLaidOut(s[12 + 4 * n..], frag.tensors, frag);
    }
  }

  lemma WordsAtStart(s: seq<Byte>, words: seq<U32>)
    requires |s| >= 8 + 4 * |words|
    ensures s[8..8 + 4 * |words|] == EncodeWords(words) <==> forall k :: 0 <= k < |words| ==> WordAt(s, 8 + 4 * k, words[k])
  {
    hide EncodeWords;
    var part := s[8..8 + 4 * |words|];
    WordsLaidOut(part, words);
    forall k | 0 <= k < |words| ensures WordAt(s, 8 + 4 * k, words[k]) <==> WordAt(part, 4 * k, words[k]) {
    }
  }

  /** The layout says what the encoder writes, and nothing else. */
  lemma ShardLaidOut(s: seq<Byte>, version: U32, frag: DistributedFragment)
    requires |frag.ops| < M.U32_RANGE && |frag.weights| < U64_RANGE && |frag.tensors| < M.U32_RANGE
    ensures ShardFile(s, version, frag) <==> ShortNames(frag.tensors) && s == EncodeShard(version, frag)
  {
    hide Le32, WordAt, OpsAt, OpsWidth, EncodeOps, WeightsAt, EncodeWeights, EncodeTensorTable, EncodeTail, ShortNames;
    var tail := EncodeWeights(frag.weights) + (EncodeTensorTable(frag.tensors) + EncodeTail(frag));
    var code := EncodeOps(frag.ops) + tail;
    var ids := Le32(frag.layerStart) + (Le32(frag.layerEnd) + (Le32(|frag.ops|) + code));
    assert EncodeShard(version, frag) == Le32(MAGIC) + (Le32(version) + (Le32(frag.fragmentId) + ids));
    PrefixThen(s, version, frag.fragmentId, ids);
    var w := OpsWidth(frag.ops);
    OpsPrefix([], frag.ops);
    if |s| >= 24 + w {
      ThreeWords(s, frag, code);
      OpsPrefix(s[24..], frag.ops);
      assert s[24..][w..] == s[24 + w..];
      WeightsLaidOut(s[24 + w..], frag);
    }
  }

  lemma ThreeWords(s: seq<Byte>, frag: DistributedFragment, code: seq<Byte>)
    requires |s| >= 24 && |frag.ops| < M.U32_RANGE
    ensures s[12..] == Le32(frag.layerStart) + (Le32(frag.layerEnd) + (Le32(|frag.ops|) + code)) <==>
              && WordAt(s, 12, frag.layerStart) && WordAt(s, 16, frag.layerEnd) && WordAt(s, 20, |frag.ops|)
              && s[24..] == code
  {
    hide Le32, WordAt;
    WordThen(s[12..], frag.layerStart, Le32(frag.layerEnd) + (Le32(|frag.ops|) + code));
    WordThen(s[16..], frag.layerEnd, Le32(|frag.ops|) + code);
    WordThen(s[20..], |frag.ops|, code);
    WordShift(s, 12, 12, frag.layerStart);
    WordShift(s, 16, 16, frag.layerEnd);
    WordShift(s, 20, 20, |frag.ops|);
    assert s[12..][4..] == s[16..] && s[16..][4..] == s[20..] && s[20..][4..] == s[24..];
  }

  // --------------------------------------------------------------- main results

  /** A shard's version knows the opcode, and it is not one of the context loads. */
  predicate ShardKnows(version: nat, ops: seq<Op>) {
    forall k :: 0 <= k < |ops| ==> version >= EntryOf(ops[k]).since && EntryOf(ops[k]).tag !in {14, 15}
  }

  /** The bounds of the loader. */
  ghost predicate WithinBounds(frag: DistributedFragment) {
    && frag.layerStart <= frag.layerEnd <= frag.config.nLayers && |frag.ops| <= 1_000_000 && |frag.tensors| <= 65_536
    && forall k :: 0 <= k < |frag.tensors| ==>
         && WellFormed(frag.tensors[k].name)
         && frag.tensors[k].offset + frag.tensors[k].nRows * frag.tensors[k].nCols <= |frag.weights|
  }

  lemma KnowsIsInShard(version: U32, ops: seq<Op>)
    requires version == 2 || version == 4
    ensures ShardKnows(version, ops) <==> OpsInShard(version, ops)
  {
  }

  lemma BoundsAreChecks(version: U32, frag: DistributedFragment)
    requires |frag.weights| * 4 <= USIZE_MAX && ShortNames(frag.tensors)
    ensures WithinBounds(frag) <==>
              ShardAdmitted(version, frag, frag.config.nLayers) && NamesFit(frag.tensors)
  {
    hide FromUtf8, WellFormed;
    forall k | 0 <= k < |frag.tensors|
      ensures FromUtf8(frag.tensors[k].name).Ok? <==> WellFormed(frag.tensors[k].name)
      ensures RangeError(frag.tensors[k], |frag.weights|).None?
              <==> frag.tensors[k].offset + frag.tensors[k].nRows * frag.tensors[k].nCols <= |frag.weights|
    {
      StrictIsWellFormed(frag.tensors[k].name);
    }
  }

  lemma NamesAreShort(ts: seq<TensorMeta>)
    requires NamesFit(ts)
    ensures ShortNames(ts)
  {
  }

  /** Bytes that are laid out as a shard are long enough to hold what it counts. */
  lemma LayoutCounts(s: seq<Byte>, version: nat, frag: DistributedFragment)
    requires ShardFile(s, version, frag)
    ensures version < M.U32_RANGE && |frag.ops| < M.U32_RANGE && |frag.tensors| < M.U32_RANGE && 4 * |frag.weights| <= |s|
  {
    hide OpsAt, OpsWidth, TensorsAt;
  }

  /**
   The loader makes a fragment of a shard exactly when the bytes are laid out as that
   fragment in version 2 or 4, the version knows its opcodes, and it is within the bounds.
   */
  lemma ShardReadsExactly(s: seq<Byte>, config: ModelConfig, frag: DistributedFragment)
    requires |s| <= USIZE_MAX
    ensures TakeShard(s, config) == Ok(frag) <==>
              && frag.config == config && WithinBounds(frag)
              && exists version: nat :: version in {2, 4} && ShardFile(s, version, frag) && ShardKnows(version, frag.ops)
  {
    hide TakeShard, EncodeShard, TakeIds, ShardFile, ShardKnows, ShardAdmitted, OpsInShard, WithinBounds, NamesFit, ShortNames;
    if TakeShard(s, config) == Ok(frag) {
      ShardIsCanonical(s, config);
      ShardVersions(s, config.nLayers);
      var version := TakeIds(s, config.nLayers).value.0.version;
      NamesAreShort(frag.tensors);
      BoundsAreChecks(version, frag);
      KnowsIsInShard(version, frag.ops);
      ShardLaidOut(s, version, frag);
    }
    if version: nat :| version in {2, 4} && ShardFile(s, version, frag) && ShardKnows(version, frag.ops)
                       && frag.config == config && WithinBounds(frag) {
      LayoutCounts(s, version, frag);
      ShardLaidOut(s, version, frag);
      BoundsAreChecks(version, frag);
      KnowsIsInShard(version, frag.ops);
      ShardBack(version, frag, config);
    }
  }

  lemma ShardVersions(s: seq<Byte>, nLayers: U32)
    requires TakeIds(s, nLayers).Ok?
    ensures TakeIds(s, nLayers).value.0.version == 2 || TakeIds(s, nLayers).value.0.version == 4
  {
  }

  lemma DimsThen(s: seq<Byte>, config: ModelConfig)
    requires |s| == 20
    ensures s == EncodeDims(config) <==>
              && WordAt(s, 0, config.nLayers) && WordAt(s, 4, config.nHeads) && WordAt(s, 8, config.nEmbd)
              && WordAt(s, 12, config.contextLength) && WordAt(s, 16, config.vocabSize)
  {
    hide Le32, WordAt;
    var w4 := Le32(config.vocabSize);
    assert w4 + [] == w4;
    WordThen(s, config.nLayers, Le32(config.nHeads) + (Le32(config.nEmbd) + (Le32(config.contextLength) + w4)));
    WordThen(s[4..], config.nHeads, Le32(config.nEmbd) + (Le32(config.contextLength) + w4));
    WordThen(s[8..], config.nEmbd, Le32(config.contextLength) + w4);
    WordThen(s[12..], config.contextLength, w4);
    WordThen(s[16..], config.vocabSize, []);
    WordShift(s, 4, 4, config.nHeads);
    WordShift(s, 8, 8, config.nEmbd);
    WordShift(s, 12, 12, config.contextLength);
    WordShift(s, 16, 16, config.vocabSize);
    assert s[4..][4..] == s[8..] && s[8..][4..] == s[12..] && s[12..][4..] == s[16..] && s[16..][4..] == [];
  }

  lemma DimsWere(s: seq<Byte>, architecture: Text)
    requires |s| == 20
    ensures var r := TakeDims(s, architecture); r.Ok? && r.value.1 == [] && s == EncodeDims(r.value.0)
  {
    hide Le32;
    Le32Read(s);
    Le32Read(s[4..]);
    Le32Read(s[8..]);
    Le32Read(s[12..]);
    Le32Read(s[16..]);
    assert s[4..][4..] == s[8..] && s[8..][4..] == s[12..] && s[12..][4..] == s[16..] && s[16..][4..] == [];
    assert Le32(Read32(s[16..])) + [] == Le32(Read32(s[16..]));
  }

  lemma DimsAtEnd(s: seq<Byte>, at: nat, config: ModelConfig)
    requires |s| == at + 20
    ensures s[at..] == EncodeDims(config) <==>
              && WordAt(s, at, config.nLayers) && WordAt(s, at + 4, config.nHeads) && WordAt(s, at + 8, config.nEmbd)
              && WordAt(s, at + 12, config.contextLength) && WordAt(s, at + 16, config.vocabSize)
  {
    hide EncodeDims, WordAt;
    DimsThen(s[at..], config);
    WordShift(s, at, at, config.nLayers);
    WordShift(s, at, at + 4, config.nHeads);
    WordShift(s, at, at + 8, config.nEmbd);
    WordShift(s, at, at + 12, config.contextLength);
    WordShift(s, at, at + 16, config.vocabSize);
  }

  /** A counted name in front of the rest. */
  lemma NameThen(s: seq<Byte>, at: nat, name: Text, rest: seq<Byte>)
    requires |name| < U64_RANGE && |s| >= at + 8 + |name|
    ensures s[at..] == Le64(|name|) + (name + rest) <==>
              LongAt(s, at, |name|) && s[at + 8..at + 8 + |name|] == name && s[at + 8 + |name|..] == rest
  {
    hide Le64, LongAt;
    LongThen(s[at..], |name|, name + rest);
    LongShift(s, at, at, |name|);
    assert s[at..][8..] == s[at + 8..];
    TextThen(s[at + 8..], name, rest);
    assert s[at + 8..][..|name|] == s[at + 8..at + 8 + |name|] && s[at + 8..][|name|..] == s[at + 8 + |name|..];
  }

  lemma HeaderLaidOut(s: seq<Byte>, version: U32, count: U32, config: ModelConfig)
    requires |config.architecture| < U64_RANGE
    ensures HeaderFile(s, version, count, config) <==> s == EncodeHeader(version, count, config)
  {
    hide Le32, Le64, LongAt, WordAt, EncodeDims;
    var n, name := |config.architecture|, config.architecture;
    PrefixThen(s, version, count, Le64(n) + (name + EncodeDims(config)));
    if |s| == 40 + n {
      NameThen(s, 12, name, EncodeDims(config));
      DimsAtEnd(s, 20 + n, config);
    }
  }

  lemma HeaderWas(s: seq<Byte>)
    requires TakeHeader(s).Ok?
    ensures var (config, count) := TakeHeader(s).value;
            && 1 <= count <= 65_536 && FromUtf8(config.architecture).Ok? && |config.architecture| < U64_RANGE
            && exists version: U32 :: version in {2, 4} && s == EncodeHeader(version, count, config)
  {
    hide Le32, Le64, TakeU32, TakeU64, TakePrefix, TakeText, TakeDims, EncodeDims, FromUtf8;
    var (version, s1) := TakePrefix(s).value;
    PrefixWas(s);
    PrefixVersion(s);
    U32Was(s1);
    var (count, s2) := TakeU32(s1).value;
    U64Was(s2);
    var (archLen, s3) := TakeU64(s2).value;
    TextWas(s3, archLen);
    var (architecture, s4) := TakeText(s3, archLen).value;
    DimsLength(s4, architecture);
    DimsWere(s4, architecture);
    DimsName(s4, architecture);
    var config := TakeHeader(s).value.0;
    assert s == EncodeHeader(version, count, config);
  }

  lemma PrefixVersion(s: seq<Byte>)
    requires TakePrefix(s).Ok?
    ensures TakePrefix(s).value.0 == 2 || TakePrefix(s).value.0 == 4
  {
  }

  lemma DimsLength(s: seq<Byte>, architecture: Text)
    requires TakeDims(s, architecture).Ok? && TakeDims(s, architecture).value.1 == []
    ensures |s| == 20
  {
    hide Read32;
  }

  lemma DimsName(s: seq<Byte>, architecture: Text)
    requires TakeDims(s, architecture).Ok?
    ensures TakeDims(s, architecture).value.0.architecture == architecture
  {
    hide TakeU32;
  }

  /** The header is read exactly when it is laid out as one, of version 2 or 4, for 1 to 65,536 shards. */
  lemma HeaderReadsExactly(s: seq<Byte>, config: ModelConfig, count: U32)
    requires |s| <= USIZE_MAX
    ensures TakeHeader(s) == Ok((config, count)) <==>
              && 1 <= count <= 65_536 && WellFormed(config.architecture)
              && exists version: nat :: version in {2, 4} && HeaderFile(s, version, count, config)
  {
    hide TakeHeader, EncodeHeader, HeaderFile, FromUtf8, WellFormed;
    StrictIsWellFormed(config.architecture);
    if TakeHeader(s) == Ok((config, count)) {
      HeaderWas(s);
      var version: U32 :| version in {2, 4} && s == EncodeHeader(version, count, config);
      HeaderLaidOut(s, version, count, config);
    }
    if version: nat :| version in {2, 4} && HeaderFile(s, version, count, config)
                       && 1 <= count <= 65_536 && WellFormed(config.architecture) {
      HeaderFits(s, version, count, config);
      HeaderLaidOut(s, version, count, config);
      HeaderBack(version, count, config);
    }
  }

  lemma HeaderFits(s: seq<Byte>, version: nat, count: nat, config: ModelConfig)
    requires HeaderFile(s, version, count, config)
    ensures |config.architecture| < |s|
  {
  }

  /**
   What `load_distributed_fragment` makes of the two files: a fragment, exactly when the
   header describes its configuration and the shard the fragment, within the budgets.
   */
  lemma LoadsExactly(header: seq<Byte>, s: seq<Byte>, frag: DistributedFragment)
    ensures Loaded(header, s) == Ok(frag) <==>
              && |header| <= 1024 * 1024 && |s| <= 512 * 1024 * 1024
              && WellFormed(frag.config.architecture) && WithinBounds(frag)
              && (exists version: nat, count :: version in {2, 4} && 1 <= count <= 65_536 && HeaderFile(header, version, count, frag.config))
              && exists version: nat :: version in {2, 4} && ShardFile(s, version, frag) && ShardKnows(version, frag.ops)
  {
    hide TakeHeader, TakeShard, HeaderFile, ShardFile, ShardKnows, WithinBounds, WellFormed;
    if |header| <= MAX_HEADER_BYTES && |s| <= MAX_FRAGMENT_BYTES {
      if TakeHeader(header).Ok? {
        var (config, count) := TakeHeader(header).value;
        HeaderReadsExactly(header, config, count);
        ShardReadsExactly(s, config, frag);
      }
      if version: nat, count :| version in {2, 4} && 1 <= count <= 65_536 && HeaderFile(header, version, count, frag.config)
                                && WellFormed(frag.config.architecture) {
        HeaderReadsExactly(header, frag.config, count);
        ShardReadsExactly(s, frag.config, frag);
      }
    }
  }

  // ------------------------------------------------------------------ what is written

  /** The version a list of fragments is written in: 4 if it holds a selection opcode, else 2. */
  ghost predicate ListVersion(fragments: seq<DistributedFragment>, version: nat) {
    version == if exists i, j :: 0 <= i < |fragments| && 0 <= j < |fragments[i].ops| && fragments[i].ops[j].FMax? then 4 else 2
  }

  lemma VersionIs(fragments: seq<DistributedFragment>)
    ensures ListVersion(fragments, ShardVersion(fragments))
  {
    var lists := OpLists(fragments);
    assert forall i :: 0 <= i < |fragments| ==> lists[i] == fragments[i].ops;
    if GraphCodec.SomeOp(lists, GraphCodec.IsSelection()) {
      var i, j :| 0 <= i < |lists| && 0 <= j < |lists[i]| && GraphCodec.IsSelection()(lists[i][j]);
      assert fragments[i].ops[j].FMax?;
    }
    if i, j :| 0 <= i < |fragments| && 0 <= j < |fragments[i].ops| && fragments[i].ops[j].FMax? {
      assert GraphCodec.IsSelection()(lists[i][j]);
    }
  }

  lemma {:induction false} FileNames(version: U32, fragments: seq<DistributedFragment>, id: U32)
    ensures id in Files(version, fragments) <==> exists k :: 0 <= k < |fragments| && fragments[k].fragmentId == id
    decreases |fragments|
  {
    hide EncodeShard;
    if fragments != [] {
      var n := |fragments| - 1;
      FileNames(version, fragments[..n], id);
      if k :| 0 <= k < |fragments| && fragments[k].fragmentId == id && k < n {
        assert fragments[..n][k].fragmentId == id;
      }
    }
  }

  /**
   The directory that is written: it is refused exactly when some opcode loads from the
   context; the header describes the first configuration and the number of fragments; there
   is one file for each id, laid out as the last fragment with that id.
   */
  lemma WrittenDirectory(fragments: seq<DistributedFragment>, k: nat, version: U32)
    requires k < |fragments| && Writable(fragments) && ListVersion(fragments, version)
    ensures Serialized(fragments).Err? <==>
              exists i, j :: 0 <= i < |fragments| && 0 <= j < |fragments[i].ops| && EntryOf(fragments[i].ops[j]).tag in {14, 15}
    ensures Serialized(fragments).Ok? ==>
              var dir := Serialized(fragments).value;
              && HeaderFile(dir.header, version, |fragments|, fragments[0].config)
              && (forall id :: id in dir.files <==> exists i :: 0 <= i < |fragments| && fragments[i].fragmentId == id)
              && fragments[k].fragmentId in dir.files
              && ((forall i :: k < i < |fragments| ==> fragments[i].fragmentId != fragments[k].fragmentId) ==>
                    ShardFile(dir.files[fragments[k].fragmentId], version, fragments[k]))
  {
    hide EncodeShard, EncodeHeader, HeaderFile, ShardFile, Files, ShardVersion, FromUtf8, NamesFit, ShortNames;
    VersionIs(fragments);
    ContextRefused(fragments);
    var header := EncodeHeader(version, |fragments|, fragments[0].config);
    HeaderLaidOut(header, version, |fragments|, fragments[0].config);
    forall id: U32 ensures id in Files(version, fragments) <==> exists i :: 0 <= i < |fragments| && fragments[i].fragmentId == id {
      FileNames(version, fragments, id);
    }
    assert fragments[k].fragmentId in Files(version, fragments);
    NamesAreShort(fragments[k].tensors);
    ShardLaidOut(EncodeShard(version, fragments[k]), version, fragments[k]);
    if forall i :: k < i < |fragments| ==> fragments[i].fragmentId != fragments[k].fragmentId {
      FileOf(version, fragments, k);
    }
  }

  lemma ContextRefused(fragments: seq<DistributedFragment>)
    ensures GraphCodec.SomeOp(OpLists(fragments), GraphCodec.IsContext()) <==>
              exists i, j :: 0 <= i < |fragments| && 0 <= j < |fragments[i].ops| && EntryOf(fragments[i].ops[j]).tag in {14, 15}
  {
    var lists := OpLists(fragments);
    assert forall i :: 0 <= i < |fragments| ==> lists[i] == fragments[i].ops;
    if GraphCodec.SomeOp(lists, GraphCodec.IsContext()) {
      var i, j :| 0 <= i < |lists| && 0 <= j < |lists[i]| && GraphCodec.IsContext()(lists[i][j]);
      assert EntryOf(fragments[i].ops[j]).tag in {14, 15};
    }
    if i, j :| 0 <= i < |fragments| && 0 <= j < |fragments[i].ops| && EntryOf(fragments[i].ops[j]).tag in {14, 15} {
      assert GraphCodec.IsContext()(lists[i][j]);
    }
  }
}
