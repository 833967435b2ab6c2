/**
 Sub-fragments that fit the instruction cache: the shard's bytecode cut greedily into
 pieces of bounded size, chained by their dependencies, with every weight reference on
 the first one.
 */
module SubFragments {
  import Arithmetic
  import opened Bytes
  import opened Chunking
  import opened Machine
  import opened OpCodec
  import opened Shards
  import opened Utf8

  const L1I_TARGET_SIZE: nat := 30 * 1024
  const U32_MAX := 0xFFFF_FFFF

  datatype WeightRef = WeightRef(tensorName: Text, offset: U64, len: U32)

  datatype SubFragment = SubFragment(
    fragmentId: U32, subId: U32, layerStart: U32, layerEnd: U32,
    ops: seq<Op>, weightRefs: seq<WeightRef>, dependsOn: seq<U32>)

  function OpSize(op: Op): nat {
    match op
    case One | Zero | Bml | Dup | FAdd | FMul | FMax | Drop | Swap => 1
    case Var(_) | Const(_) | VarIndexed(_) | ContextVarIndexed(_) | ContextConstIndexed(_) | StoreResult(_) | Pick(_) => 5
    case Loop(_, _) => 9
  }

  /** `op_size` as a function value. */
  function Sizes(): Op -> nat {
    (op: Op) => OpSize(op)
  }

  /** `bytecode_size`. */
  function BytecodeSize(sf: SubFragment): nat {
    Total(sf.ops, Sizes())
  }

  /** The bound counts the bytes the encoder writes. */
  lemma {:induction false} BytecodeSizeIsEncodedLength(ops: seq<Op>)
    ensures Total(ops, Sizes()) == |EncodeOps(ops)|
    decreases |ops|
  {
    if ops != [] {
      var front, last := ops[..|ops| - 1], ops[|ops| - 1];
      BytecodeSizeIsEncodedLength(front);
      EncodeOpsConcat(front, [last]);
      assert ops == front + [last];
      assert EncodeOps([last]) == EncodeOp(last) by { assert [last][1..] == []; }
      assert |EncodeOp(last)| == OpSize(last);
    }
  }

  function RefTo(t: TensorMeta): (r: WeightRef) {
    WeightRef(t.name, t.offset, if t.nRows * t.nCols > U32_MAX then U32_MAX else ProductNat(t))
  }

  function ProductNat(t: TensorMeta): (p: U32)
    requires t.nRows * t.nCols <= U32_MAX
    ensures p == t.nRows * t.nCols
  {
    Arithmetic.MulMono(0, t.nRows, t.nCols);
    t.nRows * t.nCols
  }

  function AllRefs(tensors: seq<TensorMeta>): (refs: seq<WeightRef>)
    ensures |refs| == |tensors|
  {
    seq(|tensors|, k requires 0 <= k < |tensors| => RefTo(tensors[k]))
  }

  function Link(frag: DistributedFragment, i: U32, ops: seq<Op>, refs: seq<WeightRef>): SubFragment {
    SubFragment(frag.fragmentId, i, frag.layerStart, frag.layerEnd, ops, refs, if i > 0 then [i - 1] else [])
  }

  /** Numbered sub-fragments, each waiting for the one before it. */
  function Chain(frag: DistributedFragment, chunks: seq<seq<Op>>): (subs: seq<SubFragment>)
    requires |chunks| < U32_RANGE
    ensures |subs| == |chunks|
  {
    seq(|chunks|, i requires 0 <= i < |chunks| => Link(frag, i, chunks[i], []))
  }

  /** What `sub_fragment_with_threshold` returns. */
  function SubFragmented(frag: DistributedFragment, target: nat): seq<SubFragment>
    requires |frag.ops| < U32_RANGE
  {
    ChunkCount(frag.ops, target);
    var chunks := if frag.ops == [] then [[]] else Greedy(frag.ops, Sizes(), target);
    var chain := Chain(frag, chunks);
    chain[0 := chain[0].(weightRefs := AllRefs(frag.tensors))]
  }

  lemma {:induction false} ChunkCount(ops: seq<Op>, target: nat)
    ensures |Greedy(ops, Sizes(), target)| <= |ops| && (ops != [] ==> Greedy(ops, Sizes(), target) != [])
    decreases |ops|
  {
    if ops != [] {
      ChunkCount(ops[FirstLen(ops, Sizes(), target)..], target);
    }
  }

  // Greedy chunking of the whole is what is closed, then greedy chunking of the rest.
  ghost predicate Progress(frag: DistributedFragment, target: nat, i: nat, currentOps: seq<Op>, currentSize: nat,
                           closed: seq<seq<Op>>)
  {
    && i <= |frag.ops| && |closed| + |currentOps| <= i
    && Greedy(frag.ops, Sizes(), target) == closed + Greedy(currentOps + frag.ops[i..], Sizes(), target)
    && Open(currentOps, Sizes(), target) && currentSize == Total(currentOps, Sizes())
  }

  lemma CloseProgress(frag: DistributedFragment, target: nat, i: nat, currentOps: seq<Op>, currentSize: nat,
                      closed: seq<seq<Op>>)
    requires Progress(frag, target, i, currentOps, currentSize, closed) && i < |frag.ops|
    requires currentOps != [] && currentSize + OpSize(frag.ops[i]) > target
    ensures Progress(frag, target, i, [], 0, closed + [currentOps])
  {
    hide Greedy, Total, Open;
    var op, rest := frag.ops[i], frag.ops[i + 1..];
    assert currentOps + frag.ops[i..] == currentOps + [op] + rest;
    CloseStep(currentOps, op, rest, Sizes(), target);
    assert [] + frag.ops[i..] == [op] + rest;
    assert closed + ([currentOps] + Greedy([op] + rest, Sizes(), target))
        == closed + [currentOps] + Greedy([op] + rest, Sizes(), target);
    NothingLeft(target);
  }

  lemma PushProgress(frag: DistributedFragment, target: nat, i: nat, currentOps: seq<Op>, currentSize: nat,
                     closed: seq<seq<Op>>)
    requires Progress(frag, target, i, currentOps, currentSize, closed) && i < |frag.ops|
    requires currentOps == [] || currentSize + OpSize(frag.ops[i]) <= target
    ensures Progress(frag, target, i + 1, currentOps + [frag.ops[i]], currentSize + OpSize(frag.ops[i]), closed)
  {
    hide Greedy, Total, Open;
    assert currentOps + frag.ops[i..] == currentOps + [frag.ops[i]] + frag.ops[i + 1..];
    OpenPush(currentOps, frag.ops[i], Sizes(), target);
  }

  lemma EndProgress(frag: DistributedFragment, target: nat, currentOps: seq<Op>, currentSize: nat, closed: seq<seq<Op>>)
    requires Progress(frag, target, |frag.ops|, currentOps, currentSize, closed) && currentOps != []
    ensures Greedy(frag.ops, Sizes(), target) == closed + [currentOps]
  {
    hide Greedy, Total, Open;
    assert currentOps + frag.ops[|frag.ops|..] == currentOps;
    CloseLast(currentOps, Sizes(), target);
  }

  lemma StartProgress(frag: DistributedFragment, target: nat)
    ensures Progress(frag, target, 0, [], 0, [])
  {
    hide Greedy;
    assert [] + frag.ops[0..] == frag.ops;
    assert [] + Greedy(frag.ops, Sizes(), target) == Greedy(frag.ops, Sizes(), target);
  }

  /** `sub_fragment_with_threshold`. */
  method SubFragmentWithThreshold(frag: DistributedFragment, target: nat) returns (subs: seq<SubFragment>)
    requires |frag.ops| < U32_RANGE
    ensures subs == SubFragmented(frag, target)
  {
    hide Greedy, Total, AllRefs, Chain, Open, SubFragmented, OpSize;
    subs := [];
    var currentOps: seq<Op> := [];
    var currentSize: nat := 0;
    ghost var closed: seq<seq<Op>> := [];
    var allRefs := AllRefs(frag.tensors);
    NothingLeft(target);
    StartProgress(frag, target);
    for i := 0 to |frag.ops|
      invariant Progress(frag, target, i, currentOps, currentSize, closed)
      invariant i > 0 ==> currentOps != []
      invariant subs == Chain(frag, closed)
    {
      var op := frag.ops[i];
      if currentSize + OpSize(op) > target && currentOps != [] {
        CloseProgress(frag, target, i, currentOps, currentSize, closed);
        ChainPush(frag, closed, currentOps);
        subs := subs + [Link(frag, |subs|, currentOps, [])];
        closed := closed + [currentOps];
        currentOps := [];
        currentSize := 0;
      }
      PushProgress(frag, target, i, currentOps, currentSize, closed);
      currentOps := currentOps + [op];
      currentSize := currentSize + OpSize(op);
    }
    FirstCarriesRefs(frag, target);
    if currentOps != [] {
      EndProgress(frag, target, currentOps, currentSize, closed);
      ChainPush(frag, closed, currentOps);
      subs := subs + [Link(frag, |subs|, currentOps, if subs == [] then allRefs else [])];
    }
    if subs == [] {
      subs := [Link(frag, 0, [], allRefs)];
    } else {
      subs := subs[0 := subs[0].(weightRefs := allRefs)];
    }
  }

  lemma ChainPush(frag: DistributedFragment, closed: seq<seq<Op>>, ops: seq<Op>)
    requires |closed| < U32_RANGE - 1
    ensures Chain(frag, closed + [ops]) == Chain(frag, closed) + [Link(frag, |closed|, ops, [])]
  {
  }

  lemma FirstCarriesRefs(frag: DistributedFragment, target: nat)
    requires |frag.ops| < U32_RANGE
    ensures frag.ops == [] ==> SubFragmented(frag, target) == [Link(frag, 0, [], AllRefs(frag.tensors))]
    ensures frag.ops != [] ==>
              && |Greedy(frag.ops, Sizes(), target)| < U32_RANGE
              && var chain := Chain(frag, Greedy(frag.ops, Sizes(), target));
                 chain != [] && SubFragmented(frag, target) == chain[0 := chain[0].(weightRefs := AllRefs(frag.tensors))]
  {
    ChunkCount(frag.ops, target);
  }

  lemma NothingLeft(target: nat)
    ensures Greedy([], Sizes(), target) == [] && Total([], Sizes()) == 0
    ensures forall frag :: Chain(frag, []) == []
    ensures Open([], Sizes(), target)
  {
  }

  function OpsOf(subs: seq<SubFragment>): (r: seq<seq<Op>>)
    ensures |r| == |subs|
  {
    seq(|subs|, i requires 0 <= i < |subs| => subs[i].ops)
  }

  lemma OpsOfSubFragments(frag: DistributedFragment, target: nat)
    requires |frag.ops| < U32_RANGE
    ensures OpsOf(SubFragmented(frag, target)) == if frag.ops == [] then [[]] else Greedy(frag.ops, Sizes(), target)
  {
    ChunkCount(frag.ops, target);
    var chunks := if frag.ops == [] then [[]] else Greedy(frag.ops, Sizes(), target);
    assert forall i :: 0 <= i < |chunks| ==> SubFragmented(frag, target)[i].ops == chunks[i];
  }

  /**
   Lossless and bounded: the sub-fragments' opcodes concatenate to the shard's; each is
   within the target when every single opcode is; dependencies form the chain 0, 1, 2, ...;
   all weight references sit on the first; empty pieces occur only for an empty shard.
   */
  lemma SubFragmentsPartition(frag: DistributedFragment, target: nat)
    requires |frag.ops| < U32_RANGE
    ensures var subs := SubFragmented(frag, target);
            && Concat(OpsOf(subs)) == frag.ops && subs != []
            && (frag.ops != [] ==> forall i :: 0 <= i < |subs| ==> subs[i].ops != [])
            && (forall i :: 0 <= i < |subs| ==>
                 && subs[i].subId == i && subs[i].fragmentId == frag.fragmentId
                 && subs[i].layerStart == frag.layerStart && subs[i].layerEnd == frag.layerEnd
                 && subs[i].dependsOn == (if i == 0 then [] else [i - 1])
                 && subs[i].weightRefs == if i == 0 then AllRefs(frag.tensors) else [])
    ensures (forall k :: 0 <= k < |frag.ops| ==> OpSize(frag.ops[k]) <= target) ==>
              forall i :: 0 <= i < |SubFragmented(frag, target)| ==> BytecodeSize(SubFragmented(frag, target)[i]) <= target
  {
    hide Greedy, Total, AllRefs;
    var subs := SubFragmented(frag, target);
    ChunkCount(frag.ops, target);
    OpsOfSubFragments(frag, target);
    NothingLeft(target);
    if frag.ops == [] {
      NoOps();
    } else {
      GreedyLossless(frag.ops, Sizes(), target);
      forall i | 0 <= i < |subs| ensures subs[i].ops != [] && subs[i].ops == OpsOf(subs)[i] {
        assert OpsOf(subs)[i] in Greedy(frag.ops, Sizes(), target);
      }
    }
    if forall k :: 0 <= k < |frag.ops| ==> OpSize(frag.ops[k]) <= target {
      BoundedChunks(frag.ops, target);
      assert forall i :: 0 <= i < |subs| ==> subs[i].ops == OpsOf(subs)[i];
    }
  }

  /** The first sub-fragment refers to every tensor by name, offset and saturated length. */
  lemma FirstRefersToAll(frag: DistributedFragment, target: nat, k: nat)
    requires |frag.ops| < U32_RANGE && k < |frag.tensors|
    ensures var refs := SubFragmented(frag, target)[0].weightRefs;
            var t := frag.tensors[k];
            && |refs| == |frag.tensors| && refs[k].tensorName == t.name && refs[k].offset == t.offset
            && (t.nRows * t.nCols < 0x1_0000_0000 ==> refs[k].len == t.nRows * t.nCols)
            && (t.nRows * t.nCols >= 0x1_0000_0000 ==> refs[k].len == 0xFFFF_FFFF)
  {
    hide SubFragmented;
    SubFragmentsPartition(frag, target);
    assert AllRefs(frag.tensors)[k] == RefTo(frag.tensors[k]);
  }

  lemma NoOps()
    ensures Concat<Op>([[]]) == []
  {
    var none: seq<seq<Op>> := [[]];
    assert none[1..] == [];
  }

  lemma BoundedChunks(ops: seq<Op>, target: nat)
    requires forall k :: 0 <= k < |ops| ==> OpSize(ops[k]) <= target
    ensures Within(Greedy(ops, Sizes(), target), Sizes(), target)
  {
    GreedyBounded(ops, Sizes(), target);
    forall k | 0 <= k < |Greedy(ops, Sizes(), target)| ensures Total(Greedy(ops, Sizes(), target)[k], Sizes()) <= target {
      assert Greedy(ops, Sizes(), target)[k] in Greedy(ops, Sizes(), target);
    }
  }

  /** Optimal: no partition of the opcodes within the target has fewer pieces. */
  lemma SubFragmentsOptimal(frag: DistributedFragment, target: nat, chunks: seq<seq<Op>>)
    requires |frag.ops| < U32_RANGE && frag.ops != []
    requires Concat(chunks) == frag.ops && Within(chunks, Sizes(), target)
    ensures |SubFragmented(frag, target)| <= |chunks|
  {
    GreedyOptimal(frag.ops, Sizes(), target, chunks);
    OpsOfSubFragments(frag, target);
  }

  /** With the default target every sub-fragment fits the instruction cache. */
  lemma DefaultTargetFits(frag: DistributedFragment, i: nat)
    requires |frag.ops| < U32_RANGE && i < |SubFragmented(frag, L1I_TARGET_SIZE)|
    ensures |EncodeOps(SubFragmented(frag, L1I_TARGET_SIZE)[i].ops)| <= L1I_TARGET_SIZE
  {
    hide SubFragmented, EncodeOps, Total;
    SubFragmentsPartition(frag, L1I_TARGET_SIZE);
    BytecodeSizeIsEncodedLength(SubFragmented(frag, L1I_TARGET_SIZE)[i].ops);
  }
}
