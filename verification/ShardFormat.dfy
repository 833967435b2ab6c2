/**
 The bytes of a distributed shard and of the directory header: the writer's layout, the
 bounded reader as a function of the bytes, and their round trips.
 */
module ShardFormat {
  import opened Wrappers
  import opened Bytes
  import opened Utf8
  import opened OpCodec
  import opened ShardReader
  import opened Shards
  import M = Machine

  const MAX_FRAGMENT_BYTES := 512 * 1024 * 1024
  const MAX_HEADER_BYTES := 1024 * 1024
  const MAX_OPS := 1_000_000
  const MAX_TENSORS := 65_536

  // -------------------------------------------------------------------- opcodes

  /** The width of the opcode with a given tag; 0 for unknown tags. */
  function TagWidth(tag: Byte): nat {
    match tag
    case 0 | 1 | 2 | 6 | 9 | 10 | 12 | 13 | 16 => 1
    case 3 => 9
    case 4 | 5 | 7 | 8 | 11 => 5
    case _ => 0
  }

  /** `deserialize_op`: the opcode and the bytes it takes. */
  function DeserializeOp(s: seq<Byte>): (r: Result<(Op, nat), ShardError>)
    ensures r.Ok? ==> 1 <= r.value.1 <= |s|
  {
    if s == [] then Err(TruncatedOpcode)
    else if TagWidth(s[0]) == 0 then Err(UnknownOpcode(s[0]))
    else if |s| < TagWidth(s[0]) then Err(TruncatedOpcode)
    else
      Ok(match s[0]
         case 0 => (M.One, 1)
         case 1 => (M.Bml, 1)
         case 2 => (M.Dup, 1)
         case 3 => (M.Loop(Read32(s[1..]), Read32(s[5..])), 9)
         case 4 => (M.Var(Read32(s[1..])), 5)
         case 5 => (M.Const(Read32(s[1..])), 5)
         case 6 => (M.Zero, 1)
         case 7 => (M.VarIndexed(Read32(s[1..])), 5)
         case 8 => (M.StoreResult(Read32(s[1..])), 5)
         case 9 => (M.FAdd, 1)
         case 10 => (M.FMul, 1)
         case 11 => (M.Pick(Read32(s[1..])), 5)
         case 12 => (M.Drop, 1)
         case 13 => (M.Swap, 1)
         case 16 => (M.FMax, 1))
  }

  /** The shard decoder is the graph decoder of version 4 without context loads. */
  lemma DecodersAgree(s: seq<Byte>)
    ensures DeserializeOp(s).Ok? <==> ParseOp(SELECTION_VERSION, s).Ok? && !IsContextLoad(ParseOp(SELECTION_VERSION, s).value.0)
    ensures DeserializeOp(s).Ok? ==>
              ParseOp(SELECTION_VERSION, s) == Ok((DeserializeOp(s).value.0, s[DeserializeOp(s).value.1..]))
  {
    hide Value;
    if |s| >= 5 {
      assert s[1..][4..] == s[5..];
    }
    if |s| >= 9 {
      assert s[1..][8..] == s[9..];
    }
  }

  function TakeOp(version: U32, s: seq<Byte>): Read<Op> {
    var (op, consumed) :- DeserializeOp(s);
    if op.FMax? && version < SELECTION_VERSION then Err(NeedsSelectionVersion) else Ok((op, s[consumed..]))
  }

  /** The opcodes a shard of a version may hold. */
  predicate InShard(version: U32, op: Op) {
    !IsContextLoad(op) && (op.FMax? ==> version >= SELECTION_VERSION)
  }

  lemma OpBack(version: U32, op: Op, rest: seq<Byte>)
    requires InShard(version, op)
    ensures TakeOp(version, EncodeOp(op) + rest) == Ok((op, rest))
  {
    hide DeserializeOp, ParseOp, EncodeOp;
    DecodersAgree(EncodeOp(op) + rest);
    ParseEncoded(SELECTION_VERSION, op, rest);
  }

  lemma OpWas(version: U32, s: seq<Byte>)
    requires TakeOp(version, s).Ok?
    ensures var (op, rest) := TakeOp(version, s).value; InShard(version, op) && s == EncodeOp(op) + rest
  {
    hide DeserializeOp, ParseOp, EncodeOp;
    DecodersAgree(s);
    ParsedIsEncoded(SELECTION_VERSION, s);
  }

  function TakeOps(version: U32, s: seq<Byte>, n: nat): Read<seq<Op>> {
    if n == 0 then Ok(([], s))
    else
      var (op, s1) :- TakeOp(version, s);
      var (ops, s2) :- TakeOps(version, s1, n - 1);
      Ok(([op] + ops, s2))
  }

  predicate OpsInShard(version: U32, ops: seq<Op>) {
    forall k :: 0 <= k < |ops| ==> InShard(version, ops[k])
  }

  lemma {:induction false} OpsBack(version: U32, ops: seq<Op>, rest: seq<Byte>)
    requires OpsInShard(version, ops)
    ensures TakeOps(version, EncodeOps(ops) + rest, |ops|) == Ok((ops, rest))
    decreases |ops|
  {
    hide TakeOp, EncodeOp;
    if ops == [] {
      assert EncodeOps(ops) + rest == rest;
    } else {
      var tail := EncodeOps(ops[1..]) + rest;
      assert EncodeOps(ops) + rest == EncodeOp(ops[0]) + tail;
      OpBack(version, ops[0], tail);
      OpsBack(version, ops[1..], rest);
      assert [ops[0]] + ops[1..] == ops;
    }
  }

  lemma {:induction false} OpsWas(version: U32, s: seq<Byte>, n: nat)
    requires TakeOps(version, s, n).Ok?
    ensures var (ops, rest) := TakeOps(version, s, n).value;
            |ops| == n && OpsInShard(version, ops) && s == EncodeOps(ops) + rest
    decreases n
  {
    hide TakeOp, EncodeOp;
    if n == 0 {
      assert s == EncodeOps([]) + s;
    } else {
      var (op, s1) := TakeOp(version, s).value;
      OpWas(version, s);
      OpsWas(version, s1, n - 1);
      var (ops, s2) := TakeOps(version, s1, n - 1).value;
      assert ([op] + ops)[1..] == ops;
      assert EncodeOp(op) + (EncodeOps(ops) + s2) == EncodeOps([op] + ops) + s2;
    }
  }

  /** The count, its guards, and the opcodes. */
  function TakeBytecode(version: U32, s: seq<Byte>): Read<seq<Op>> {
    var (n, s1) :- TakeU32(s);
    if n > MAX_OPS || n > |s1| then Err(OpcodeCount) else TakeOps(version, s1, n)
  }

  function EncodeBytecode(ops: seq<Op>): seq<Byte> {
    Le32(|ops| % M.U32_RANGE) + EncodeOps(ops)
  }

  /** The available-bytes guard never rejects written opcodes. */
  lemma BytecodeBack(version: U32, ops: seq<Op>, rest: seq<Byte>)
    requires OpsInShard(version, ops) && |ops| < M.U32_RANGE
    ensures TakeBytecode(version, EncodeBytecode(ops) + rest)
            == if |ops| <= MAX_OPS then Ok((ops, rest)) else Err(OpcodeCount)
  {
    hide Le32, TakeU32, EncodeOps, TakeOps, OpsInShard;
    var s1 := EncodeOps(ops) + rest;
    assert EncodeBytecode(ops) + rest == Le32(|ops|) + s1;
    U32Back(|ops|, s1);
    EncodeOpsLength(ops);
    OpsBack(version, ops, rest);
  }

  lemma BytecodeWas(version: U32, s: seq<Byte>)
    requires TakeBytecode(version, s).Ok?
    ensures var (ops, rest) := TakeBytecode(version, s).value;
            |ops| <= MAX_OPS && OpsInShard(version, ops) && s == EncodeBytecode(ops) + rest
  {
    hide Le32, TakeU32, EncodeOps, TakeOps, OpsInShard;
    var (n, s1) := TakeU32(s).value;
    U32Was(s);
    OpsWas(version, s1, n);
    var (ops, rest) := TakeOps(version, s1, n).value;
    assert Le32(n) + (EncodeOps(ops) + rest) == EncodeBytecode(ops) + rest;
  }

  // -------------------------------------------------------------------- weights

  function EncodeWords(words: seq<U32>): (b: seq<Byte>)
    ensures |b| == 4 * |words|
  {
    if words == [] then [] else Le32(words[0]) + EncodeWords(words[1..])
  }

  function Words(raw: seq<Byte>, n: nat): (words: seq<U32>)
    requires |raw| >= 4 * n
    ensures |words| == n
  {
    if n == 0 then [] else [Read32(raw)] + Words(raw[4..], n - 1)
  }

  function TakeWeights(s: seq<Byte>): Read<seq<U32>> {
    var (n, s1) :- TakeU64(s);
    if n * 4 > USIZE_MAX then Err(WeightOverflow)
    else
      var (raw, s2) :- Take(s1, n * 4);
      Ok((Words(raw, n), s2))
  }

  function EncodeWeights(weights: seq<U32>): seq<Byte> {
    Le64(|weights| % U64_RANGE) + EncodeWords(weights)
  }

  lemma {:induction false} WordsBack(words: seq<U32>)
    ensures Words(EncodeWords(words), |words|) == words
    decreases |words|
  {
    hide Le32, Read32;
    if words != [] {
      Read32Le(words[0], EncodeWords(words[1..]));
      WordsBack(words[1..]);
    }
  }

  lemma {:induction false} WordsWere(raw: seq<Byte>, n: nat)
    requires |raw| == 4 * n
    ensures EncodeWords(Words(raw, n)) == raw
    decreases n
  {
    hide Le32, Read32;
    if n > 0 {
      Le32Read(raw);
      WordsWere(raw[4..], n - 1);
      assert Words(raw, n)[1..] == Words(raw[4..], n - 1);
    }
  }

  lemma WeightsBack(weights: seq<U32>, rest: seq<Byte>)
    requires |weights| * 4 <= USIZE_MAX
    ensures TakeWeights(EncodeWeights(weights) + rest) == Ok((weights, rest))
  {
    hide Le64, TakeU64, EncodeWords, Words;
    var s1 := EncodeWords(weights) + rest;
    assert EncodeWeights(weights) + rest == Le64(|weights|) + s1;
    U64Back(|weights|, s1);
    WordsBack(weights);
    assert s1[..|weights| * 4] == EncodeWords(weights) && s1[|weights| * 4..] == rest;
  }

  lemma WeightsWere(s: seq<Byte>)
    requires TakeWeights(s).Ok?
    ensures var (weights, rest) := TakeWeights(s).value;
            |weights| * 4 <= USIZE_MAX && s == EncodeWeights(weights) + rest
  {
    hide Le64, TakeU64, EncodeWords, Words;
    var (n, s1) := TakeU64(s).value;
    U64Was(s);
    WordsWere(s1[..n * 4], n);
    assert s1 == s1[..n * 4] + s1[n * 4..];
    assert Le64(n) + (s1[..n * 4] + s1[n * 4..]) == Le64(n) + s1[..n * 4] + s1[n * 4..];
  }

  // -------------------------------------------------------------------- tensors

  /** The range check, in checked 64-bit arithmetic. */
  function RangeError(t: TensorMeta, nWeights: nat): Option<ShardError> {
    if t.offset + t.nRows * t.nCols >= U64_RANGE then Some(TensorOverflow)
    else if t.offset + t.nRows * t.nCols > nWeights then Some(TensorRange)
    else None
  }

  function TakeShape(s: seq<Byte>): Read<(U64, U32, U32)> {
    var (offset, s1) :- TakeU64(s);
    var (nRows, s2) :- TakeU32(s1);
    var (nCols, s3) :- TakeU32(s2);
    Ok(((offset, nRows, nCols), s3))
  }

  function TakeTensor(s: seq<Byte>, nWeights: nat): Read<TensorMeta> {
    var (nameLen, s1) :- TakeU32(s);
    var (name, s2) :- TakeText(s1, nameLen);
    var ((offset, nRows, nCols), s3) :- TakeShape(s2);
    var t := TensorMeta(name, offset, nRows, nCols);
    match RangeError(t, nWeights)
    case Some(e) => Err(e)
    case None => Ok((t, s3))
  }

  function EncodeShape(t: TensorMeta): (b: seq<Byte>)
    ensures |b| == 16
  {
    Le64(t.offset) + (Le32(t.nRows) + Le32(t.nCols))
  }

  function EncodeTensor(t: TensorMeta): (b: seq<Byte>)
    ensures |b| == 20 + |t.name|
  {
    Le32(|t.name| % M.U32_RANGE) + (t.name + EncodeShape(t))
  }

  /** What a writer may hold: a string whose length fits its field. */
  predicate NameFits(t: TensorMeta) {
    FromUtf8(t.name).Ok? && |t.name| < M.U32_RANGE
  }

  lemma ShapeBack(t: TensorMeta, rest: seq<Byte>)
    ensures TakeShape(EncodeShape(t) + rest) == Ok(((t.offset, t.nRows, t.nCols), rest))
  {
    hide Le32, Le64, TakeU32, TakeU64;
    var s2 := Le32(t.nCols) + rest;
    var s1 := Le32(t.nRows) + s2;
    assert EncodeShape(t) + rest == Le64(t.offset) + s1;
    U64Back(t.offset, s1);
    U32Back(t.nRows, s2);
    U32Back(t.nCols, rest);
  }

  lemma ShapeWas(s: seq<Byte>)
    requires TakeShape(s).Ok?
    ensures var ((offset, nRows, nCols), rest) := TakeShape(s).value;
            s == EncodeShape(TensorMeta([], offset, nRows, nCols)) + rest
  {
    hide Le32, Le64, TakeU32, TakeU64;
    var (offset, s1) := TakeU64(s).value;
    var (nRows, s2) := TakeU32(s1).value;
    var (nCols, s3) := TakeU32(s2).value;
    U64Was(s);
    U32Was(s1);
    U32Was(s2);
    assert Le64(offset) + (Le32(nRows) + (Le32(nCols) + s3)) == Le64(offset) + (Le32(nRows) + Le32(nCols)) + s3;
  }

  lemma TensorBack(t: TensorMeta, rest: seq<Byte>, nWeights: nat)
    requires NameFits(t)
    ensures TakeTensor(EncodeTensor(t) + rest, nWeights)
            == match RangeError(t, nWeights) case Some(e) => Err(e) case None => Ok((t, rest))
  {
    hide Le32, TakeU32, TakeText, TakeShape, EncodeShape, FromUtf8, RangeError;
    var s1 := t.name + (EncodeShape(t) + rest);
    assert EncodeTensor(t) + rest == Le32(|t.name|) + s1;
    U32Back(|t.name|, s1);
    TextBack(t.name, EncodeShape(t) + rest);
    ShapeBack(t, rest);
  }

  lemma TensorWas(s: seq<Byte>, nWeights: nat)
    requires TakeTensor(s, nWeights).Ok?
    ensures var (t, rest) := TakeTensor(s, nWeights).value;
            NameFits(t) && RangeError(t, nWeights).None? && s == EncodeTensor(t) + rest
  {
    hide Le32, TakeU32, TakeText, TakeShape, FromUtf8, RangeError;
    var (nameLen, s1) := TakeU32(s).value;
    U32Was(s);
    TextWas(s1, nameLen);
    var (name, s2) := TakeText(s1, nameLen).value;
    ShapeWas(s2);
    var (t, rest) := TakeTensor(s, nWeights).value;
    assert Le32(nameLen) + (name + (EncodeShape(t) + rest)) == Le32(nameLen) + (name + EncodeShape(t)) + rest;
  }

  function TakeTensors(s: seq<Byte>, n: nat, nWeights: nat): Read<seq<TensorMeta>>
    decreases n
  {
    if n == 0 then Ok(([], s))
    else
      var (t, s1) :- TakeTensor(s, nWeights);
      var (ts, s2) :- TakeTensors(s1, n - 1, nWeights);
      Ok(([t] + ts, s2))
  }

  function EncodeTensors(ts: seq<TensorMeta>): (b: seq<Byte>)
    ensures |b| >= 20 * |ts|
  {
    if ts == [] then [] else EncodeTensor(ts[0]) + EncodeTensors(ts[1..])
  }

  predicate NamesFit(ts: seq<TensorMeta>) {
    forall k :: 0 <= k < |ts| ==> NameFits(ts[k])
  }

  predicate RangesFit(ts: seq<TensorMeta>, nWeights: nat) {
    forall k :: 0 <= k < |ts| ==> RangeError(ts[k], nWeights).None?
  }

  lemma {:induction false} TensorsBack(ts: seq<TensorMeta>, rest: seq<Byte>, nWeights: nat)
    requires NamesFit(ts)
    ensures var r := TakeTensors(EncodeTensors(ts) + rest, |ts|, nWeights);
            if RangesFit(ts, nWeights) then r == Ok((ts, rest)) else r.Err?
    decreases |ts|
  {
    hide TakeTensor, EncodeTensor, NameFits, RangeError;
    if ts == [] {
      assert EncodeTensors(ts) + rest == rest;
    } else {
      var tail := EncodeTensors(ts[1..]) + rest;
      assert EncodeTensors(ts) + rest == EncodeTensor(ts[0]) + tail;
      TensorBack(ts[0], tail, nWeights);
      TensorsBack(ts[1..], rest, nWeights);
      assert [ts[0]] + ts[1..] == ts;
      assert RangesFit(ts, nWeights) <==> RangeError(ts[0], nWeights).None? && RangesFit(ts[1..], nWeights);
    }
  }

  lemma {:induction false} TensorsWere(s: seq<Byte>, n: nat, nWeights: nat)
    requires TakeTensors(s, n, nWeights).Ok?
    ensures var (ts, rest) := TakeTensors(s, n, nWeights).value;
            |ts| == n && NamesFit(ts) && RangesFit(ts, nWeights) && s == EncodeTensors(ts) + rest
    decreases n
  {
    hide TakeTensor, EncodeTensor, NameFits, RangeError;
    if n == 0 {
      assert s == EncodeTensors([]) + s;
    } else {
      var (t, s1) := TakeTensor(s, nWeights).value;
      TensorWas(s, nWeights);
      TensorsWere(s1, n - 1, nWeights);
      var (ts, s2) := TakeTensors(s1, n - 1, nWeights).value;
      assert ([t] + ts)[1..] == ts;
      assert EncodeTensor(t) + (EncodeTensors(ts) + s2) == EncodeTensors([t] + ts) + s2;
    }
  }

  /** The final two u32 fields are not tensor metadata. */
  function TakeTensorTable(s: seq<Byte>, nWeights: nat): Read<seq<TensorMeta>> {
    var (n, s1) :- TakeU32(s);
    if n > MAX_TENSORS || n > (if |s1| >= 8 then |s1| - 8 else 0) / 20 then Err(TensorCount)
    else TakeTensors(s1, n, nWeights)
  }

  function EncodeTensorTable(ts: seq<TensorMeta>): seq<Byte> {
    Le32(|ts| % M.U32_RANGE) + EncodeTensors(ts)
  }

  /** The available-bytes guard never rejects written tensors. */
  lemma TensorTableBack(ts: seq<TensorMeta>, rest: seq<Byte>, nWeights: nat)
    requires NamesFit(ts) && |ts| < M.U32_RANGE && |rest| == 8
    ensures var r := TakeTensorTable(EncodeTensorTable(ts) + rest, nWeights);
            if |ts| <= MAX_TENSORS && RangesFit(ts, nWeights) then r == Ok((ts, rest)) else r.Err?
  {
    hide Le32, TakeU32, TakeTensors, EncodeTensors, NamesFit, RangesFit;
    var s1 := EncodeTensors(ts) + rest;
    assert EncodeTensorTable(ts) + rest == Le32(|ts|) + s1;
    U32Back(|ts|, s1);
    TensorsBack(ts, rest, nWeights);
  }

  lemma TensorTableWas(s: seq<Byte>, nWeights: nat)
    requires TakeTensorTable(s, nWeights).Ok?
    ensures var (ts, rest) := TakeTensorTable(s, nWeights).value;
            |ts| <= MAX_TENSORS && NamesFit(ts) && RangesFit(ts, nWeights) && s == EncodeTensorTable(ts) + rest
  {
    hide Le32, TakeU32, TakeTensors, EncodeTensors, NamesFit, RangesFit;
    var (n, s1) := TakeU32(s).value;
    U32Was(s);
    TensorsWere(s1, n, nWeights);
    var (ts, rest) := TakeTensors(s1, n, nWeights).value;
    assert Le32(n) + (EncodeTensors(ts) + rest) == EncodeTensorTable(ts) + rest;
  }
}
