/**
 The bounded RMS program: a reducing loop that carries its total on the stack, a
 preparation DAG whose values stay there for the second loop, and closing drops. The
 operation compiler rewrites its context loads in place into buffer loads.
 */
module RmsProgram {
  import opened Wrappers
  import opened Machine
  import opened Dag
  import opened Scalar
  import opened VectorLowering
  import opened CompactLowering
  import Stages = StageLowering
  import Compaction = CompactStage

  /** The three construction DAGs and their roots. */
  datatype RmsStages = RmsStages(
    reduce: NodeSoA, reduceRoot: U32, prepare: NodeSoA, prepareRoots: (U32, U32), output: NodeSoA, outputRoot: U32)
  {
    ghost predicate Valid() {
      && reduce.Valid() && reduceRoot < reduce.Size()
      && prepare.Valid() && prepareRoots.0 < prepare.Size() && prepareRoots.1 < prepare.Size()
      && output.Valid() && outputRoot < output.Size()
    }

    function Nodes(): nat {
      reduce.Size() + prepare.Size() + output.Size()
    }
  }

  /** The opcodes that fetch element `i` of the input and of the weights. */
  datatype RmsLoads = RmsLoads(input: Op, weight: Op)

  const MAX_NODES := 100_000
  const MAX_PROGRAM_OPS := 100_000
  const FRAGMENT_BYTES := 32_768
  const EPSILON_CONST: U32 := 4

  // -------------------------------------------------------------------- the code

  function Below(h: U32, k: nat): U32 {
    (h + k) % U32_RANGE
  }

  /** Reducing reads the running total below the counter, and the counter's element. */
  function ReduceLoad(loads: RmsLoads): Load {
    (id: U32, h: U32) => if id == 0 then [Pick(Below(h, 1))] else [Pick(h), loads.input]
  }

  /** Emitting reads the element, its weight, and two retained values below the counter. */
  function OutputLoad(loads: RmsLoads, n: nat, roots: (U32, U32)): Load
    requires roots.0 < n && roots.1 < n
  {
    (id: U32, h: U32) =>
      if id == 0 then [Pick(h), loads.input]
      else if id == 1 then [Pick(h), loads.weight]
      else [Pick(Below(h, n - if id == 2 then roots.0 else roots.1))]
  }

  function Reduction(scalar: seq<Op>, loads: RmsLoads): seq<Op>
    requires IsScalarProgram(scalar) && |scalar| < U32_RANGE
  {
    IndexedBody(scalar, 0, ReduceLoad(loads)) + [Swap, Drop, Swap, Drop]
  }

  function Emission(scalar: seq<Op>, loads: RmsLoads, n: nat, roots: (U32, U32), slot: U32): seq<Op>
    requires IsScalarProgram(scalar) && |scalar| < U32_RANGE && roots.0 < n && roots.1 < n
  {
    IndexedBody(scalar, 0, OutputLoad(loads, n, roots)) + [Swap, StoreResult(slot)]
  }

  /** One retained value above the total and the values of all earlier nodes. */
  function PrepareNode(dag: NodeSoA, k: nat): seq<Op>
    requires dag.Valid() && k < dag.Size()
  {
    match dag.kinds[k]
    case OneNode => [One]
    case ConstNode(id) => [Const(id)]
    case BmlNode => [Pick(k - dag.lefts[k] - 1), Pick(k - dag.rights[k]), Bml]
    case VarNode(_) => [Pick(k)]
    case ZeroNode => [Zero]
  }

  function PrepareCode(dag: NodeSoA, n: nat): seq<Op>
    requires dag.Valid() && n <= dag.Size()
  {
    if n == 0 then [] else PrepareCode(dag, n - 1) + PrepareNode(dag, n - 1)
  }

  function Drops(n: nat): (ops: seq<Op>)
    ensures |ops| == n
  {
    if n == 0 then [] else Drops(n - 1) + [Drop]
  }

  /** The compacted preparation DAG and the images of its two roots. */
  function Prepared(s: RmsStages): (r: (NodeSoA, (U32, U32)))
    requires s.Valid()
    ensures r.0.Valid() && r.0.Size() <= s.prepare.Size() && r.1.0 < r.0.Size() && r.1.1 < r.0.Size()
  {
    var c := Compaction.CompactPrefix(s.prepare, s.prepare.Size());
    (c.dag, (c.mapping[s.prepareRoots.0], c.mapping[s.prepareRoots.1]))
  }

  function ReduceBody(s: RmsStages, loads: RmsLoads): (body: seq<Op>)
    requires s.Valid() && s.Nodes() <= MAX_NODES
    ensures |body| < U32_RANGE
  {
    CompactSize(s.reduce, s.reduceRoot);
    ReduceSize(CompactScalar(s.reduce, s.reduceRoot), loads);
    Reduction(CompactScalar(s.reduce, s.reduceRoot), loads)
  }

  function EmitBody(s: RmsStages, loads: RmsLoads, slot: U32): (body: seq<Op>)
    requires s.Valid() && s.Nodes() <= MAX_NODES
    ensures |body| < U32_RANGE
  {
    CompactSize(s.output, s.outputRoot);
    var (prepare, roots) := Prepared(s);
    EmitSize(CompactScalar(s.output, s.outputRoot), loads, prepare.Size(), roots, slot);
    Emission(CompactScalar(s.output, s.outputRoot), loads, prepare.Size(), roots, slot)
  }

  function Repeat(width: U32, body: seq<Op>): seq<Op>
    requires |body| < U32_RANGE
  {
    [Loop(width, |body|)] + body
  }

  /** The program up to the administrative value the vector kernels end with. */
  function RmsOps(s: RmsStages, loads: RmsLoads, width: U32, slot: U32): seq<Op>
    requires s.Valid() && s.Nodes() <= MAX_NODES
  {
    var prepare := Prepared(s).0;
    [Const(EPSILON_CONST)] + (Repeat(width, ReduceBody(s, loads))
    + (PrepareCode(prepare, prepare.Size())
    + (Repeat(width, EmitBody(s, loads, slot)) + Drops(prepare.Size() + 1))))
  }

  lemma ReduceSize(scalar: seq<Op>, loads: RmsLoads)
    requires IsScalarProgram(scalar) && |scalar| <= 5 * MAX_NODES
    ensures |Reduction(scalar, loads)| < U32_RANGE
  {
    forall id: U32, h: U32 ensures |ReduceLoad(loads)(id, h)| <= 2 {
      ReduceLoadIs(loads, id, h);
    }
    IndexedBodySize(scalar, 0, ReduceLoad(loads), 2);
  }

  lemma EmitSize(scalar: seq<Op>, loads: RmsLoads, n: nat, roots: (U32, U32), slot: U32)
    requires IsScalarProgram(scalar) && |scalar| <= 5 * MAX_NODES && roots.0 < n && roots.1 < n
    ensures |Emission(scalar, loads, n, roots, slot)| < U32_RANGE
  {
    forall id: U32, h: U32 ensures |OutputLoad(loads, n, roots)(id, h)| <= 2 {
      OutputLoadIs(loads, n, roots, id, h);
    }
    IndexedBodySize(scalar, 0, OutputLoad(loads, n, roots), 2);
  }

  lemma ReduceLoadIs(loads: RmsLoads, id: U32, h: U32)
    ensures ReduceLoad(loads)(id, h) == if id == 0 then [Pick(Below(h, 1))] else [Pick(h), loads.input]
  {
  }

  lemma OutputLoadIs(loads: RmsLoads, n: nat, roots: (U32, U32), id: U32, h: U32)
    requires roots.0 < n && roots.1 < n
    ensures OutputLoad(loads, n, roots)(id, h)
            == if id == 0 then [Pick(h), loads.input]
               else if id == 1 then [Pick(h), loads.weight]
               else [Pick(Below(h, n - if id == 2 then roots.0 else roots.1))]
  {
  }

  // ---------------------------------------------------------------- compilation

  datatype RmsError =
    | BadConfig
    | InputOverflow
    | WeightOverflow
    | NodeBudget
    | BadStage
    | BadPreparation
    | OpBudget
    | ByteBudget

  /** The instructions and variables `append_stage` accepts; there is no `Zero` among them. */
  predicate StageAccepted(ops: seq<Op>, variables: nat) {
    forall k :: 0 <= k < |ops| ==> !ops[k].Zero? && (ops[k].Var? ==> ops[k].id < variables)
  }

  predicate PrepareAccepted(dag: NodeSoA) {
    forall k :: 0 <= k < |dag.kinds| ==> !dag.kinds[k].ZeroNode? && (dag.kinds[k].VarNode? ==> dag.kinds[k].id == 0)
  }

  /** `append_stage`. */
  method AppendStage(output: seq<Op>, scalar: seq<Op>, variables: nat, load: Load) returns (r: Result<seq<Op>, RmsError>)
    requires IsScalarProgram(scalar) && |scalar| < U32_RANGE
    ensures r.Ok? <==> StageAccepted(scalar, variables)
    ensures r == if r.Ok? then Ok(output + IndexedBody(scalar, 0, load)) else Err(BadStage)
  {
    hide IndexedBody, DepthAfter;
    var body := output;
    var height: nat := 0;
    for i := 0 to |scalar|
      invariant height <= i && Depth(scalar[i..], height) == Some(1)
      invariant output + IndexedBody(scalar, 0, load) == body + IndexedBody(scalar[i..], height, load)
      invariant StageAccepted(scalar[..i], variables)
    {
      IndexedBodyStep(scalar, i, height, load);
      var op := scalar[i];
      if op.Zero? || (op.Var? && op.id >= variables) {
        return Err(BadStage);
      }
      ghost var done := body;
      var code;
      code, height := LowerOp(op, height, load);
      body := body + code;
      assert done + (code + IndexedBody(scalar[i + 1..], height, load)) == body + IndexedBody(scalar[i + 1..], height, load);
      assert scalar[..i + 1] == scalar[..i] + [op];
    }
    assert scalar[|scalar|..] == [] && scalar[..|scalar|] == scalar;
    NothingLeft(height, load);
    assert body == output + IndexedBody(scalar, 0, load);
    r := Ok(body);
  }

  /** The preparation block: every node of the DAG in order, none of them dropped. */
  method AppendPrepared(output: seq<Op>, dag: NodeSoA) returns (r: Result<seq<Op>, RmsError>)
    requires dag.Valid()
    ensures r.Ok? <==> PrepareAccepted(dag)
    ensures r == if r.Ok? then Ok(output + PrepareCode(dag, dag.Size())) else Err(BadPreparation)
  {
    var ops := output;
    for index := 0 to dag.Size()
      invariant ops == output + PrepareCode(dag, index)
      invariant forall k :: 0 <= k < index ==> !dag.kinds[k].ZeroNode? && (dag.kinds[k].VarNode? ==> dag.kinds[k].id == 0)
    {
      var kind := dag.kinds[index];
      if kind.ZeroNode? || (kind.VarNode? && kind.id != 0) {
        return Err(BadPreparation);
      }
      ghost var before := ops;
      match kind
      case OneNode => ops := ops + [One];
      case ConstNode(id) => ops := ops + [Const(id)];
      case VarNode(_) => ops := ops + [Pick(index)];
      case BmlNode => ops := ops + [Pick(index - dag.lefts[index] - 1), Pick(index - dag.rights[index]), Bml];
      assert ops == before + PrepareNode(dag, index);
    }
    r := Ok(ops);
  }

  method AppendDrops(output: seq<Op>, n: nat) returns (ops: seq<Op>)
    ensures ops == output + Drops(n)
  {
    ops := output;
    for k := 0 to n
      invariant ops == output + Drops(k)
    {
      ops := ops + [Drop];
    }
  }

  /** The stages `compile_rms_program` accepts, within the default budgets. */
  ghost predicate Accepted(s: RmsStages, loads: RmsLoads, width: U32, slot: U32)
    requires s.Valid()
  {
    && s.Nodes() <= 100_000
    && StageAccepted(CompactScalar(s.reduce, s.reduceRoot), 2) && PrepareAccepted(Prepared(s).0)
    && StageAccepted(CompactScalar(s.output, s.outputRoot), 4)
    && |RmsOps(s, loads, width, slot)| + 1 <= 100_000
    && 12 * (|RmsOps(s, loads, width, slot)| + 1) <= 32_768
  }

  method LowerStage(dag: NodeSoA, root: U32) returns (scalar: seq<Op>)
    requires dag.Valid() && root < dag.Size()
    ensures scalar == CompactScalar(dag, root)
  {
    var compact, images := Compaction.CompactStageDag(dag, [root]);
    scalar := Stages.LinearizeStage(compact, images[0]);
  }

  method CompactPrepare(s: RmsStages) returns (dag: NodeSoA, roots: (U32, U32))
    requires s.Valid()
    ensures (dag, roots) == Prepared(s)
  {
    var compact, images := Compaction.CompactStageDag(s.prepare, [s.prepareRoots.0, s.prepareRoots.1]);
    dag, roots := compact, (images[0], images[1]);
  }

  method CompileReduction(s: RmsStages, loads: RmsLoads) returns (r: Result<seq<Op>, RmsError>)
    requires s.Valid() && s.Nodes() <= MAX_NODES
    ensures r.Ok? <==> StageAccepted(CompactScalar(s.reduce, s.reduceRoot), 2)
    ensures r == if r.Ok? then Ok(ReduceBody(s, loads)) else Err(BadStage)
  {
    hide CompactScalar, StageAccepted, IsScalarProgram;
    var scalar := LowerStage(s.reduce, s.reduceRoot);
    CompactSize(s.reduce, s.reduceRoot);
    var body := AppendStage([], scalar, 2, ReduceLoad(loads));
    if body.Err? {
      return Err(BadStage);
    }
    r := Ok(body.value + [Swap, Drop, Swap, Drop]);
    ScalarProgramShape(scalar);
    assert [] + IndexedBody(scalar, 0, ReduceLoad(loads)) == IndexedBody(scalar, 0, ReduceLoad(loads));
  }

  method CompileEmission(s: RmsStages, loads: RmsLoads, n: nat, roots: (U32, U32), slot: U32)
    returns (r: Result<seq<Op>, RmsError>)
    requires s.Valid() && s.Nodes() <= MAX_NODES && n == Prepared(s).0.Size() && roots == Prepared(s).1
    ensures r.Ok? <==> StageAccepted(CompactScalar(s.output, s.outputRoot), 4)
    ensures r == if r.Ok? then Ok(EmitBody(s, loads, slot)) else Err(BadStage)
  {
    hide CompactScalar, StageAccepted, IsScalarProgram, Prepared;
    var scalar := LowerStage(s.output, s.outputRoot);
    CompactSize(s.output, s.outputRoot);
    var load := OutputLoad(loads, n, roots);
    var body := AppendStage([], scalar, 4, load);
    if body.Err? {
      return Err(BadStage);
    }
    r := Ok(body.value + [Swap, StoreResult(slot)]);
    ScalarProgramShape(scalar);
    assert [] + IndexedBody(scalar, 0, load) == IndexedBody(scalar, 0, load);
  }

  /** `compile_rms_program` with loads from the evaluation context. */
  method CompileRms(s: RmsStages, prefix: U32, width: U32, slot: U32) returns (r: Result<seq<Op>, RmsError>)
    requires s.Valid() && width > 0
    ensures r.Ok? <==> prefix + (width - 1) < U32_RANGE && Accepted(s, ContextLoads(prefix), width, slot)
    ensures r.Ok? ==> r.value == RmsOps(s, ContextLoads(prefix), width, slot) + [One]
  {
    hide CompactScalar, StageAccepted, PrepareAccepted, ReduceBody, EmitBody, Prepared, PrepareCode, Drops;
    var loads := ContextLoads(prefix);
    if prefix + (width - 1) >= U32_RANGE {
      return Err(WeightOverflow);
    }
    if s.Nodes() > MAX_NODES {
      return Err(NodeBudget);
    }
    var prepare, roots := CompactPrepare(s);
    var reduction := CompileReduction(s, loads);
    if reduction.Err? {
      return Err(BadStage);
    }
    var ops := [Const(EPSILON_CONST)] + Repeat(width, reduction.value);
    ghost var front := ops;
    var prepared := AppendPrepared(ops, prepare);
    if prepared.Err? {
      return Err(BadPreparation);
    }
    var emission := CompileEmission(s, loads, prepare.Size(), roots, slot);
    if emission.Err? {
      return Err(BadStage);
    }
    ops := prepared.value + Repeat(width, emission.value);
    ops := AppendDrops(ops, prepare.Size() + 1);
    Regroup([Const(EPSILON_CONST)], Repeat(width, reduction.value), PrepareCode(prepare, prepare.Size()),
            Repeat(width, emission.value), Drops(prepare.Size() + 1));
    ops := ops + [One];
    if |ops| > MAX_PROGRAM_OPS {
      return Err(OpBudget);
    }
    if |ops| * OP_BYTES > FRAGMENT_BYTES {
      return Err(ByteBudget);
    }
    r := Ok(ops);
  }

  lemma Regroup(a: seq<Op>, b: seq<Op>, c: seq<Op>, d: seq<Op>, e: seq<Op>)
    ensures a + b + c + d + e == a + (b + (c + (d + e)))
  {
  }

  function ContextLoads(prefix: U32): (loads: RmsLoads)
    ensures loads.input == ContextVarIndexed(0) && loads.weight == ContextConstIndexed(prefix)
  {
    RmsLoads(ContextVarIndexed(0), ContextConstIndexed(prefix))
  }

  // ------------------------------------------------------------------- rewriting

  /** `compile_rmsnorm_fragment_checked` replaces context loads by buffer loads. */
  function Rewrite(op: Op, prefix: U32, inputBase: U32, weightBase: U32): Op {
    match op
    case ContextVarIndexed(base) => if base == 0 then VarIndexed(inputBase) else op
    case ContextConstIndexed(base) => if base == prefix then VarIndexed(weightBase) else op
    case _ => op
  }

  function RewriteAll(ops: seq<Op>, prefix: U32, inputBase: U32, weightBase: U32): (r: seq<Op>)
    ensures |r| == |ops|
  {
    seq(|ops|, k requires 0 <= k < |ops| => Rewrite(ops[k], prefix, inputBase, weightBase))
  }

  lemma RewriteConcat(a: seq<Op>, b: seq<Op>, prefix: U32, inputBase: U32, weightBase: U32)
    ensures RewriteAll(a + b, prefix, inputBase, weightBase)
            == RewriteAll(a, prefix, inputBase, weightBase) + RewriteAll(b, prefix, inputBase, weightBase)
  {
  }

  predicate NoContext(ops: seq<Op>) {
    forall k :: 0 <= k < |ops| ==> !ops[k].ContextVarIndexed? && !ops[k].ContextConstIndexed?
  }

  lemma RewriteKeeps(ops: seq<Op>, prefix: U32, inputBase: U32, weightBase: U32)
    requires NoContext(ops)
    ensures RewriteAll(ops, prefix, inputBase, weightBase) == ops
  {
  }

  /** Rewriting an indexed body is indexing with rewritten loads. */
  lemma {:induction false} RewriteBody(
      ops: seq<Op>, depth: nat, from: Load, to: Load, prefix: U32, inputBase: U32, weightBase: U32)
    requires AllScalar(ops) && Depth(ops, depth).Some? && depth + |ops| < U32_RANGE
    requires forall id: U32, h: U32 {:trigger from(id, h)} ::
               RewriteAll(from(id, h), prefix, inputBase, weightBase) == to(id, h)
    ensures RewriteAll(IndexedBody(ops, depth, from), prefix, inputBase, weightBase) == IndexedBody(ops, depth, to)
    decreases |ops|
  {
    hide DepthAfter, RewriteAll;
    if ops != [] {
      var op, next := ops[0], DepthAfter(ops[0], depth).value;
      OneDeeper(op, depth);
      RewriteBody(ops[1..], next, from, to, prefix, inputBase, weightBase);
      RewriteKeeps([op], prefix, inputBase, weightBase);
      RewriteConcat(if op.Var? then from(op.id, depth) else [op], IndexedBody(ops[1..], next, from), prefix, inputBase, weightBase);
    } else {
      RewriteKeeps([], prefix, inputBase, weightBase);
    }
  }

  function BufferLoads(inputBase: U32, weightBase: U32): RmsLoads {
    RmsLoads(VarIndexed(inputBase), VarIndexed(weightBase))
  }

  lemma RewriteReduction(s: RmsStages, prefix: U32, inputBase: U32, weightBase: U32)
    requires s.Valid() && s.Nodes() <= MAX_NODES
    ensures RewriteAll(ReduceBody(s, ContextLoads(prefix)), prefix, inputBase, weightBase)
            == ReduceBody(s, BufferLoads(inputBase, weightBase))
  {
    hide CompactScalar, IsScalarProgram, IndexedBody;
    var scalar := CompactScalar(s.reduce, s.reduceRoot);
    CompactSize(s.reduce, s.reduceRoot);
    var from, to := ReduceLoad(ContextLoads(prefix)), ReduceLoad(BufferLoads(inputBase, weightBase));
    forall id: U32, h: U32 ensures RewriteAll(from(id, h), prefix, inputBase, weightBase) == to(id, h) {
      ReduceLoadIs(ContextLoads(prefix), id, h);
      ReduceLoadIs(BufferLoads(inputBase, weightBase), id, h);
    }
    ScalarProgramShape(scalar);
    RewriteBody(scalar, 0, from, to, prefix, inputBase, weightBase);
    RewriteKeeps([Swap, Drop, Swap, Drop], prefix, inputBase, weightBase);
    RewriteConcat(IndexedBody(scalar, 0, from), [Swap, Drop, Swap, Drop], prefix, inputBase, weightBase);
  }

  lemma ScalarProgramShape(scalar: seq<Op>)
    requires IsScalarProgram(scalar)
    ensures AllScalar(scalar) && Depth(scalar, 0) == Some(1)
  {
  }

  lemma RewriteEmission(s: RmsStages, prefix: U32, inputBase: U32, weightBase: U32, slot: U32)
    requires s.Valid() && s.Nodes() <= MAX_NODES
    ensures RewriteAll(EmitBody(s, ContextLoads(prefix), slot), prefix, inputBase, weightBase)
            == EmitBody(s, BufferLoads(inputBase, weightBase), slot)
  {
    hide CompactScalar, IsScalarProgram, IndexedBody, Prepared;
    var scalar := CompactScalar(s.output, s.outputRoot);
    CompactSize(s.output, s.outputRoot);
    var (prepare, roots) := Prepared(s);
    var n := prepare.Size();
    var from := OutputLoad(ContextLoads(prefix), n, roots);
    var to := OutputLoad(BufferLoads(inputBase, weightBase), n, roots);
    forall id: U32, h: U32 ensures RewriteAll(from(id, h), prefix, inputBase, weightBase) == to(id, h) {
      OutputLoadIs(ContextLoads(prefix), n, roots, id, h);
      OutputLoadIs(BufferLoads(inputBase, weightBase), n, roots, id, h);
    }
    ScalarProgramShape(scalar);
    RewriteBody(scalar, 0, from, to, prefix, inputBase, weightBase);
    RewriteKeeps([Swap, StoreResult(slot)], prefix, inputBase, weightBase);
    RewriteConcat(IndexedBody(scalar, 0, from), [Swap, StoreResult(slot)], prefix, inputBase, weightBase);
  }

  lemma {:induction false} PrepareNoContext(dag: NodeSoA, n: nat)
    requires dag.Valid() && n <= dag.Size()
    ensures NoContext(PrepareCode(dag, n))
    decreases n
  {
    if n > 0 {
      PrepareNoContext(dag, n - 1);
    }
  }

  lemma DropsNoContext(n: nat)
    ensures NoContext(Drops(n))
  {
  }

  lemma RewriteRepeat(width: U32, body: seq<Op>, prefix: U32, inputBase: U32, weightBase: U32)
    requires |body| < U32_RANGE
    ensures RewriteAll(Repeat(width, body), prefix, inputBase, weightBase)
            == Repeat(width, RewriteAll(body, prefix, inputBase, weightBase))
  {
    RewriteKeeps([Loop(width, |body|)], prefix, inputBase, weightBase);
    RewriteConcat([Loop(width, |body|)], body, prefix, inputBase, weightBase);
  }

  /** Rewriting the whole program yields the program with buffer loads. */
  lemma RewriteRms(s: RmsStages, prefix: U32, inputBase: U32, weightBase: U32, width: U32, slot: U32)
    requires s.Valid() && s.Nodes() <= MAX_NODES
    ensures RewriteAll(RmsOps(s, ContextLoads(prefix), width, slot), prefix, inputBase, weightBase)
            == RmsOps(s, BufferLoads(inputBase, weightBase), width, slot)
  {
    hide ReduceBody, EmitBody, PrepareCode, Drops, Prepared, RewriteAll, Repeat;
    var loads, prepare := ContextLoads(prefix), Prepared(s).0;
    var first, second := Repeat(width, ReduceBody(s, loads)), Repeat(width, EmitBody(s, loads, slot));
    var middle, last := PrepareCode(prepare, prepare.Size()), Drops(prepare.Size() + 1);
    RewriteReduction(s, prefix, inputBase, weightBase);
    RewriteEmission(s, prefix, inputBase, weightBase, slot);
    RewriteRepeat(width, ReduceBody(s, loads), prefix, inputBase, weightBase);
    RewriteRepeat(width, EmitBody(s, loads, slot), prefix, inputBase, weightBase);
    PrepareNoContext(prepare, prepare.Size());
    DropsNoContext(prepare.Size() + 1);
    RewriteKeeps([Const(EPSILON_CONST)], prefix, inputBase, weightBase);
    RewriteKeeps(middle, prefix, inputBase, weightBase);
    RewriteKeeps(last, prefix, inputBase, weightBase);
    RewriteConcat(second, last, prefix, inputBase, weightBase);
    RewriteConcat(middle, second + last, prefix, inputBase, weightBase);
    RewriteConcat(first, middle + (second + last), prefix, inputBase, weightBase);
    RewriteConcat([Const(EPSILON_CONST)], first + (middle + (second + last)), prefix, inputBase, weightBase);
  }

  /**
   `compile_rmsnorm_fragment_checked`: the loads are rewritten in place, and the
   administrative value at the end is dropped so that the caller's stack is kept.
   */
  method CompileRmsFragment(
      s: RmsStages, configOk: bool, prefix: U32, inputBase: U32, weightBase: U32, width: U32, slot: U32)
    returns (r: Result<seq<Op>, RmsError>)
    requires s.Valid() && (configOk ==> width > 0)
    ensures r.Ok? <==>
              && configOk && inputBase + (width - 1) < 0x1_0000_0000 && weightBase + (width - 1) < 0x1_0000_0000
              && prefix + (width - 1) < 0x1_0000_0000 && Accepted(s, ContextLoads(prefix), width, slot)
    ensures r.Ok? ==> r.value == RmsOps(s, BufferLoads(inputBase, weightBase), width, slot)
  {
    hide RmsOps, Accepted;
    if !configOk {
      return Err(BadConfig);
    }
    if inputBase + (width - 1) >= U32_RANGE {
      return Err(InputOverflow);
    }
    if weightBase + (width - 1) >= U32_RANGE {
      return Err(WeightOverflow);
    }
    var program := CompileRms(s, prefix, width, slot);
    if program.Err? {
      return Err(program.error);
    }
    var code := new Op[|program.value|](k requires 0 <= k < |program.value| => program.value[k]);
    RewriteInPlace(code, prefix, inputBase, weightBase);
    assert s.Nodes() <= MAX_NODES by { AcceptedNodes(s, ContextLoads(prefix), width, slot); }
    var n := code.Length - 1;
    assert program.value[..n] == RmsOps(s, ContextLoads(prefix), width, slot);
    RewriteRms(s, prefix, inputBase, weightBase, width, slot);
    assert code[n] == One;
    r := Ok(code[..n]);
  }

  lemma AcceptedNodes(s: RmsStages, loads: RmsLoads, width: U32, slot: U32)
    requires s.Valid() && Accepted(s, loads, width, slot)
    ensures s.Nodes() <= MAX_NODES
  {
  }

  /** The rewriting loop. */
  method RewriteInPlace(code: array<Op>, prefix: U32, inputBase: U32, weightBase: U32)
    modifies code
    ensures code[..] == RewriteAll(old(code[..]), prefix, inputBase, weightBase)
  {
    for i := 0 to code.Length
      invariant forall k :: 0 <= k < i ==> code[k] == Rewrite(old(code[k]), prefix, inputBase, weightBase)
      invariant forall k :: i <= k < code.Length ==> code[k] == old(code[k])
    {
      code[i] := Rewrite(code[i], prefix, inputBase, weightBase);
    }
  }
}
