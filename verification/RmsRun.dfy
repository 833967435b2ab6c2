/**
 What the bounded RMS program computes: the total is folded through the reducing DAG, both
 retained values are those of the preparation DAG at the final total, and every output is
 the output DAG on its element, its weight and those two values.
 */
module RmsRun {
  import opened Wrappers
  import opened Machine
  import opened Dag
  import opened Scalar
  import opened HotLoop
  import opened VectorLowering
  import opened CompactLowering
  import opened RmsProgram
  import Compaction = CompactStage

  /** `width` elements of the buffer from an absolute address on. */
  function Row<V>(m: Arith<V>, buf: Buffer<V>, base: U32, width: U32): (r: seq<V>)
    ensures |r| == width
  {
    seq(width, i requires 0 <= i < width => ReadIndexed(m, buf, base, i))
  }

  /** A stage's environment: its operands, and the constants bound at run time. */
  function OperandEnv<V>(m: Arith<V>, ctx: Context<V>, operands: seq<V>): Env<V> {
    Env((id: U32) => if id < |operands| then operands[id] else m.nan, (id: U32) => GetConst(m, ctx, id))
  }

  /** The running total after the first `n` elements. */
  function Total<V>(m: Arith<V>, ctx: Context<V>, s: RmsStages, xs: seq<V>, n: nat): V
    requires s.Valid() && n <= |xs|
  {
    if n == 0 then GetConst(m, ctx, 4)
    else Eval(m, s.reduce, OperandEnv(m, ctx, [Total(m, ctx, s, xs, n - 1), xs[n - 1]]), s.reduceRoot)
  }

  function Retained<V>(m: Arith<V>, ctx: Context<V>, s: RmsStages, xs: seq<V>, root: U32): V
    requires s.Valid() && root < s.prepare.Size()
  {
    Eval(m, s.prepare, OperandEnv(m, ctx, [Total(m, ctx, s, xs, |xs|)]), root)
  }

  /** Output element `i`. */
  function Normalized<V>(m: Arith<V>, ctx: Context<V>, s: RmsStages, xs: seq<V>, ws: seq<V>, i: nat): V
    requires s.Valid() && i < |xs| && i < |ws|
  {
    Eval(m, s.output,
         OperandEnv(m, ctx, [xs[i], ws[i], Retained(m, ctx, s, xs, s.prepareRoots.0), Retained(m, ctx, s, xs, s.prepareRoots.1)]),
         s.outputRoot)
  }

  // --------------------------------------------------------------- a compiled stage

  /** The value of a compacted and lowered stage on its operands. */
  lemma ScalarOnOperands<V>(m: Arith<V>, ctx: Context<V>, dag: NodeSoA, root: U32, operands: seq<V>, vars: U32 -> V)
    requires dag.Valid() && root < dag.Size() && StageAccepted(CompactScalar(dag, root), |operands|)
    requires forall id: U32 :: id < |operands| ==> vars(id) == operands[id]
    ensures ScalarValue(m, Env(vars, id => GetConst(m, ctx, id)), CompactScalar(dag, root))
            == Eval(m, dag, OperandEnv(m, ctx, operands), root)
  {
    hide Eval, CompactScalar, ScalarRun;
    var scalar := CompactScalar(dag, root);
    var e, f := Env(vars, id => GetConst(m, ctx, id)), OperandEnv(m, ctx, operands);
    CompactScalarCorrect(m, f, dag, root);
    SameScalar(m, e, f, scalar, |operands|);
  }

  lemma SameScalar<V>(m: Arith<V>, e: Env<V>, f: Env<V>, scalar: seq<Op>, n: nat)
    requires IsScalarProgram(scalar) && StageAccepted(scalar, n)
    requires forall id: U32 :: (id < n ==> e.vars(id) == f.vars(id)) && e.consts(id) == f.consts(id)
    ensures ScalarValue(m, e, scalar) == ScalarValue(m, f, scalar)
  {
    ScalarRunAgrees(m, e, f, scalar, []);
  }

  // ------------------------------------------------------------------- reducing

  function ReduceVars<V>(m: Arith<V>, buf: Buffer<V>, inputBase: U32, total: V, i: U32): U32 -> V {
    (id: U32) => if id == 0 then total else ReadIndexed(m, buf, inputBase, i)
  }

  lemma TotalLoad<V>(m: Arith<V>, ctx: Context<V>, pre: seq<V>, total: V, c: V, local: seq<V>, buf: Buffer<V>)
    requires buf.Valid() && |local| + 1 < U32_RANGE
    ensures var t := pre + [total] + [c] + local;
            Run(m, ctx, [Pick(Below(|local|, 1))], State(t, buf)) == Some(State(t + [total], buf))
  {
    var t := pre + [total] + [c] + local;
    assert Below(|local|, 1) == |local| + 1 && t[|t| - 1 - (|local| + 1)] == total;
    PickStep(m, ctx, t, |local| + 1, buf);
    RunSingle(m, ctx, Pick(|local| + 1), State(t, buf));
  }

  lemma ReduceLoadRun<V>(
      m: Arith<V>, ctx: Context<V>, loads: RmsLoads, inputBase: U32, total: V, i: U32, pre: seq<V>, local: seq<V>, buf: Buffer<V>,
      id: U32)
    requires m.CountersSurvive() && buf.Valid() && loads.input == VarIndexed(inputBase) && |local| + 1 < U32_RANGE
    ensures var t := pre + [total] + [m.fromU32(i)] + local;
            Run(m, ctx, ReduceLoad(loads)(id, |local|), State(t, buf))
            == Some(State(t + [ReduceVars(m, buf, inputBase, total, i)(id)], buf))
  {
    hide Run, Below;
    ReduceLoadIs(loads, id, |local|);
    if id == 0 {
      TotalLoad(m, ctx, pre, total, m.fromU32(i), local, buf);
    } else {
      CounterLoad(m, ctx, pre + [total], local, buf, inputBase, i);
    }
  }

  lemma ReduceLoads<V(!new)>(
      m: Arith<V>, ctx: Context<V>, loads: RmsLoads, inputBase: U32, total: V, i: U32, pre: seq<V>, buf: Buffer<V>, id: U32)
    requires m.CountersSurvive() && buf.Valid() && loads.input == VarIndexed(inputBase)
    ensures Loads(m, ctx, pre + [total] + [m.fromU32(i)], buf, ReduceLoad(loads), id,
                  ReduceVars(m, buf, inputBase, total, i)(id), U32_RANGE - 1)
  {
    hide Run, ReduceLoad, ReduceVars;
    var base := pre + [total] + [m.fromU32(i)];
    forall local: seq<V> | |local| < U32_RANGE - 1
      ensures Run(m, ctx, ReduceLoad(loads)(id, |local|), State(base + local, buf))
              == Some(State(base + local + [ReduceVars(m, buf, inputBase, total, i)(id)], buf))
    {
      ReduceLoadRun(m, ctx, loads, inputBase, total, i, pre, local, buf, id);
    }
    forall h: U32 ensures LoopFree(ReduceLoad(loads)(id, h)) {
      ReduceLoadIs(loads, id, h);
    }
  }

  // The closing `Swap, Drop, Swap, Drop` leaves the new total in the old one's place.
  lemma ReplaceRun<V>(m: Arith<V>, ctx: Context<V>, pre: seq<V>, total: V, c: V, v: V, buf: Buffer<V>)
    requires buf.Valid()
    ensures Run(m, ctx, [Swap, Drop, Swap, Drop], State(pre + [total] + [c] + [v], buf)) == Some(State(pre + [v], buf))
  {
    hide Step, Run;
    SwapStep(m, ctx, pre + [total], c, v, buf);
    DropStep(m, ctx, pre + [total] + [v], c, buf);
    RunPair(m, ctx, Swap, Drop, State(pre + [total] + [c] + [v], buf));
    SwapStep(m, ctx, pre, total, v, buf);
    DropStep(m, ctx, pre + [v], total, buf);
    RunPair(m, ctx, Swap, Drop, State(pre + [total] + [v], buf));
    RunConcat(m, ctx, [Swap, Drop], [Swap, Drop], State(pre + [total] + [c] + [v], buf));
    assert [Swap, Drop] + [Swap, Drop] == [Swap, Drop, Swap, Drop];
  }

  /** One reducing iteration replaces the total and consumes the counter. */
  lemma ReduceIteration<V(!new)>(
      m: Arith<V>, ctx: Context<V>, scalar: seq<Op>, loads: RmsLoads, inputBase: U32, total: V, i: U32, pre: seq<V>, buf: Buffer<V>)
    requires IsScalarProgram(scalar) && |scalar| < U32_RANGE - 1
    requires m.CountersSurvive() && buf.Valid() && loads.input == VarIndexed(inputBase)
    ensures var env := Env(ReduceVars(m, buf, inputBase, total, i), id => GetConst(m, ctx, id));
            Run(m, ctx, Reduction(scalar, loads), State(pre + [total] + [m.fromU32(i)], buf))
            == Some(State(pre + [ScalarValue(m, env, scalar)], buf))
  {
    hide Step, Run, ReduceLoad;
    var vars := ReduceVars(m, buf, inputBase, total, i);
    var base := pre + [total] + [m.fromU32(i)];
    var body := IndexedBody(scalar, 0, ReduceLoad(loads));
    var v := ScalarValue(m, Env(vars, id => GetConst(m, ctx, id)), scalar);
    forall k | 0 <= k < |scalar| && scalar[k].Var?
      ensures Loads(m, ctx, base, buf, ReduceLoad(loads), scalar[k].id, vars(scalar[k].id), U32_RANGE - 1)
    {
      ReduceLoads(m, ctx, loads, inputBase, total, i, pre, buf, scalar[k].id);
    }
    BodyRun(m, ctx, vars, ReduceLoad(loads), scalar, base, [], buf, U32_RANGE - 1);
    assert base + [] == base && ScalarRun(m, Env(vars, id => GetConst(m, ctx, id)), scalar, []).value == [v];
    ReplaceRun(m, ctx, pre, total, m.fromU32(i), v, buf);
    RunConcat(m, ctx, body, [Swap, Drop, Swap, Drop], State(base, buf));
  }

  /** The stages are small enough for every address of the code to fit. */
  ghost predicate Runs<V>(m: Arith<V>, s: RmsStages) {
    && s.Valid() && s.Nodes() <= MAX_NODES && m.CountersSurvive()
    && StageAccepted(CompactScalar(s.reduce, s.reduceRoot), 2) && PrepareAccepted(Prepared(s).0)
    && StageAccepted(CompactScalar(s.output, s.outputRoot), 4)
  }

  /** Every fragment the compiler returns meets that. */
  lemma CheckedRuns<V>(
      m: Arith<V>, s: RmsStages, prefix: U32, width: U32, slot: U32)
    requires s.Valid() && m.CountersSurvive() && Accepted(s, ContextLoads(prefix), width, slot)
    ensures Runs(m, s)
  {
    hide StageAccepted, PrepareAccepted, CompactScalar, RmsOps;
  }

  lemma ReduceTurn<V(!new)>(
      m: Arith<V>, ctx: Context<V>, s: RmsStages, loads: RmsLoads, inputBase: U32, width: U32, i: U32, pre: seq<V>, buf: Buffer<V>)
    requires Runs(m, s) && buf.Valid() && loads.input == VarIndexed(inputBase) && i < width
    ensures var xs := Row(m, buf, inputBase, width);
            Run(m, ctx, ReduceBody(s, loads), State(pre + [Total(m, ctx, s, xs, i)] + [m.fromU32(i)], buf))
            == Some(State(pre + [Total(m, ctx, s, xs, i + 1)], buf))
  {
    hide Run, CompactScalar, Reduction, Eval, StageAccepted;
    var xs := Row(m, buf, inputBase, width);
    var total := Total(m, ctx, s, xs, i);
    CompactSize(s.reduce, s.reduceRoot);
    ReduceIteration(m, ctx, CompactScalar(s.reduce, s.reduceRoot), loads, inputBase, total, i, pre, buf);
    ScalarOnOperands(m, ctx, s.reduce, s.reduceRoot, [total, xs[i]], ReduceVars(m, buf, inputBase, total, i));
  }

  lemma {:induction false} ReduceTurns<V(!new)>(
      m: Arith<V>, ctx: Context<V>, s: RmsStages, loads: RmsLoads, inputBase: U32, width: U32, i: nat, pre: seq<V>, buf: Buffer<V>)
    requires Runs(m, s) && buf.Valid() && loads.input == VarIndexed(inputBase) && i <= width
    ensures var xs := Row(m, buf, inputBase, width);
            Iterate(m, ctx, ReduceBody(s, loads), i, width, State(pre + [Total(m, ctx, s, xs, i)], buf))
            == Some(State(pre + [Total(m, ctx, s, xs, width)], buf))
    decreases width - i
  {
    hide Run, Total, ReduceBody, Runs, Row;
    if i < width {
      ReduceTurn(m, ctx, s, loads, inputBase, width, i, pre, buf);
      ReduceTurns(m, ctx, s, loads, inputBase, width, i + 1, pre, buf);
    }
  }

  // ------------------------------------------------------------------ preparing

  /** The values of the first `n` nodes. */
  function NodeValues<V>(m: Arith<V>, dag: NodeSoA, env: Env<V>, n: nat): (vs: seq<V>)
    requires dag.Valid() && n <= dag.Size()
    ensures |vs| == n
  {
    seq(n, k requires 0 <= k < n => Eval(m, dag, env, k))
  }

  lemma NodeValuesPush<V>(m: Arith<V>, dag: NodeSoA, env: Env<V>, n: nat)
    requires dag.Valid() && n < dag.Size()
    ensures NodeValues(m, dag, env, n + 1) == NodeValues(m, dag, env, n) + [Eval(m, dag, env, n)]
  {
  }

  lemma PrepareNodeRun<V>(m: Arith<V>, ctx: Context<V>, dag: NodeSoA, total: V, k: nat, pre: seq<V>, buf: Buffer<V>)
    requires dag.Valid() && k < dag.Size() && PrepareAccepted(dag) && buf.Valid()
    ensures LoopFree(PrepareNode(dag, k))
    ensures var env := OperandEnv(m, ctx, [total]);
            Run(m, ctx, PrepareNode(dag, k), State(pre + [total] + NodeValues(m, dag, env, k), buf))
            == Some(State(pre + [total] + NodeValues(m, dag, env, k) + [Eval(m, dag, env, k)], buf))
  {
    hide Run;
    var env := OperandEnv(m, ctx, [total]);
    var vs := NodeValues(m, dag, env, k);
    var t := pre + [total] + vs;
    match dag.kinds[k]
    case OneNode => RunSingle(m, ctx, One, State(t, buf));
    case ConstNode(id) => RunSingle(m, ctx, Const(id), State(t, buf));
    case VarNode(_) =>
      assert t[|t| - 1 - k] == total;
      PickStep(m, ctx, t, k, buf);
      RunSingle(m, ctx, Pick(k), State(t, buf));
    case BmlNode => PrepareBmlRun(m, ctx, dag, env, total, k, pre, buf);
    case ZeroNode => assert false;
  }

  lemma PrepareBmlRun<V>(
      m: Arith<V>, ctx: Context<V>, dag: NodeSoA, env: Env<V>, total: V, k: nat, pre: seq<V>, buf: Buffer<V>)
    requires dag.Valid() && k < dag.Size() && dag.kinds[k].BmlNode? && buf.Valid()
    ensures var t := pre + [total] + NodeValues(m, dag, env, k);
            Run(m, ctx, PrepareNode(dag, k), State(t, buf)) == Some(State(t + [Eval(m, dag, env, k)], buf))
  {
    hide Run, Step;
    var vs := NodeValues(m, dag, env, k);
    var t := pre + [total] + vs;
    var l, r := dag.lefts[k], dag.rights[k];
    assert t[|t| - 1 - (k - l - 1)] == vs[l] && t[|t| - (k - r)] == vs[r];
    PickPickBml(m, ctx, t, k - l - 1, k - r, buf);
  }

  lemma PickPickBml<V>(m: Arith<V>, ctx: Context<V>, t: seq<V>, a: U32, b: U32, buf: Buffer<V>)
    requires buf.Valid() && a < |t| && 1 <= b <= |t|
    ensures Run(m, ctx, [Pick(a), Pick(b), Bml], State(t, buf))
            == Some(State(t + [m.bml(t[|t| - 1 - a], t[|t| - b])], buf))
  {
    hide Run, Step;
    var x, y := t[|t| - 1 - a], t[|t| - b];
    PickStep(m, ctx, t, a, buf);
    assert (t + [x])[|t + [x]| - 1 - b] == y;
    PickStep(m, ctx, t + [x], b, buf);
    RunPair(m, ctx, Pick(a), Pick(b), State(t, buf));
    BmlStep(m, ctx, t, x, y, buf);
    RunSingle(m, ctx, Bml, State(t + [x] + [y], buf));
    RunConcat(m, ctx, [Pick(a), Pick(b)], [Bml], State(t, buf));
    assert [Pick(a), Pick(b)] + [Bml] == [Pick(a), Pick(b), Bml];
  }

  lemma BmlStep<V>(m: Arith<V>, ctx: Context<V>, t: seq<V>, a: V, b: V, buf: Buffer<V>)
    requires buf.Valid()
    ensures Step(m, ctx, Bml, State(t + [a] + [b], buf)) == Some(State(t + [m.bml(a, b)], buf))
  {
    assert (t + [a] + [b])[..|t|] == t;
  }

  /** The preparation block leaves the values of all its nodes above the total. */
  lemma {:induction false} PrepareRun<V>(m: Arith<V>, ctx: Context<V>, dag: NodeSoA, total: V, n: nat, pre: seq<V>, buf: Buffer<V>)
    requires dag.Valid() && n <= dag.Size() && PrepareAccepted(dag) && buf.Valid()
    ensures LoopFree(PrepareCode(dag, n))
    ensures Run(m, ctx, PrepareCode(dag, n), State(pre + [total], buf))
            == Some(State(pre + [total] + NodeValues(m, dag, OperandEnv(m, ctx, [total]), n), buf))
    decreases n
  {
    hide Step, NodeValues, PrepareNode, PrepareAccepted;
    if n == 0 {
      assert pre + [total] + [] == pre + [total];
    } else {
      PrepareRun(m, ctx, dag, total, n - 1, pre, buf);
      PrepareNodeRun(m, ctx, dag, total, n - 1, pre, buf);
      NodeValuesPush(m, dag, OperandEnv(m, ctx, [total]), n - 1);
      var vs := NodeValues(m, dag, OperandEnv(m, ctx, [total]), n - 1);
      assert pre + [total] + (vs + [Eval(m, dag, OperandEnv(m, ctx, [total]), n - 1)])
          == pre + [total] + vs + [Eval(m, dag, OperandEnv(m, ctx, [total]), n - 1)];
      RunConcat(m, ctx, PrepareCode(dag, n - 1), PrepareNode(dag, n - 1), State(pre + [total], buf));
    }
  }

  // -------------------------------------------------------------------- emitting

  /** What emission `i` reads: element, weight, and the retained values of the two roots. */
  function EmitVars<V>(m: Arith<V>, buf: Buffer<V>, bases: (U32, U32), vs: seq<V>, roots: (U32, U32), i: U32): U32 -> V
    requires roots.0 < |vs| && roots.1 < |vs|
  {
    (id: U32) =>
      if id == 0 then ReadIndexed(m, buf, bases.0, i)
      else if id == 1 then ReadIndexed(m, buf, bases.1, i)
      else if id == 2 then vs[roots.0] else vs[roots.1]
  }

  lemma RetainedLoad<V>(m: Arith<V>, ctx: Context<V>, pre: seq<V>, vs: seq<V>, c: V, r: nat, local: seq<V>, buf: Buffer<V>)
    requires buf.Valid() && r < |vs| && |local| + |vs| < U32_RANGE
    ensures var t := pre + vs + [c] + local;
            Run(m, ctx, [Pick(Below(|local|, |vs| - r))], State(t, buf)) == Some(State(t + [vs[r]], buf))
  {
    var t := pre + vs + [c] + local;
    var depth := |local| + |vs| - r;
    assert Below(|local|, |vs| - r) == depth && t[|t| - 1 - depth] == vs[r];
    PickStep(m, ctx, t, depth, buf);
    RunSingle(m, ctx, Pick(depth), State(t, buf));
  }

  lemma EmitLoadRun<V>(
      m: Arith<V>, ctx: Context<V>, bases: (U32, U32), pre: seq<V>, vs: seq<V>, roots: (U32, U32), i: U32, local: seq<V>,
      buf: Buffer<V>, id: U32)
    requires m.CountersSurvive() && buf.Valid() && roots.0 < |vs| && roots.1 < |vs| && |local| + |vs| < U32_RANGE
    ensures var t := pre + vs + [m.fromU32(i)] + local;
            Run(m, ctx, OutputLoad(BufferLoads(bases.0, bases.1), |vs|, roots)(id, |local|), State(t, buf))
            == Some(State(t + [EmitVars(m, buf, bases, vs, roots, i)(id)], buf))
  {
    hide Run, Below;
    OutputLoadIs(BufferLoads(bases.0, bases.1), |vs|, roots, id, |local|);
    if id < 2 {
      CounterLoad(m, ctx, pre + vs, local, buf, if id == 0 then bases.0 else bases.1, i);
    } else {
      RetainedLoad(m, ctx, pre, vs, m.fromU32(i), if id == 2 then roots.0 else roots.1, local, buf);
    }
  }

  lemma EmitLoads<V(!new)>(
      m: Arith<V>, ctx: Context<V>, bases: (U32, U32), pre: seq<V>, vs: seq<V>, roots: (U32, U32), i: U32, buf: Buffer<V>, id: U32)
    requires m.CountersSurvive() && buf.Valid() && roots.0 < |vs| && roots.1 < |vs| < U32_RANGE
    ensures Loads(m, ctx, pre + vs + [m.fromU32(i)], buf, OutputLoad(BufferLoads(bases.0, bases.1), |vs|, roots), id,
                  EmitVars(m, buf, bases, vs, roots, i)(id), U32_RANGE - |vs|)
  {
    hide Run, OutputLoad, EmitVars;
    var base := pre + vs + [m.fromU32(i)];
    var load := OutputLoad(BufferLoads(bases.0, bases.1), |vs|, roots);
    forall local: seq<V> | |local| < U32_RANGE && |local| < U32_RANGE - |vs|
      ensures Run(m, ctx, load(id, |local|), State(base + local, buf))
              == Some(State(base + local + [EmitVars(m, buf, bases, vs, roots, i)(id)], buf))
    {
      EmitLoadRun(m, ctx, bases, pre, vs, roots, i, local, buf, id);
    }
    forall h: U32 ensures LoopFree(load(id, h)) {
      OutputLoadIs(BufferLoads(bases.0, bases.1), |vs|, roots, id, h);
    }
  }

  /** One emission writes one cell and consumes the counter. */
  lemma EmitIteration<V(!new)>(
      m: Arith<V>, ctx: Context<V>, scalar: seq<Op>, bases: (U32, U32), slot: U32, vs: seq<V>, roots: (U32, U32), i: U32,
      pre: seq<V>, buf: Buffer<V>)
    requires IsScalarProgram(scalar) && |scalar| + |vs| < U32_RANGE && roots.0 < |vs| && roots.1 < |vs|
    requires m.CountersSurvive() && buf.Valid()
    ensures var env := Env(EmitVars(m, buf, bases, vs, roots, i), id => GetConst(m, ctx, id));
            Run(m, ctx, Emission(scalar, BufferLoads(bases.0, bases.1), |vs|, roots, slot), State(pre + vs + [m.fromU32(i)], buf))
            == Some(State(pre + vs, WriteSlot(buf, slot, i, ScalarValue(m, env, scalar))))
  {
    hide Step, Run, OutputLoad, WriteSlot, EmitVars;
    var vars := EmitVars(m, buf, bases, vs, roots, i);
    var load := OutputLoad(BufferLoads(bases.0, bases.1), |vs|, roots);
    var base := pre + vs + [m.fromU32(i)];
    var v := ScalarValue(m, Env(vars, id => GetConst(m, ctx, id)), scalar);
    forall k | 0 <= k < |scalar| && scalar[k].Var?
      ensures Loads(m, ctx, base, buf, load, scalar[k].id, vars(scalar[k].id), U32_RANGE - |vs|)
    {
      EmitLoads(m, ctx, bases, pre, vs, roots, i, buf, scalar[k].id);
    }
    BodyRun(m, ctx, vars, load, scalar, base, [], buf, U32_RANGE - |vs|);
    assert base + [] == base && ScalarRun(m, Env(vars, id => GetConst(m, ctx, id)), scalar, []).value == [v];
    StoreTail(m, ctx, slot, i, pre + vs, v, buf);
    RunConcat(m, ctx, IndexedBody(scalar, 0, load), [Swap, StoreResult(slot)], State(base, buf));
  }

  /** No output overwrites an element or weight that a later iteration reads. */
  ghost predicate RowsFresh<V>(buf: Buffer<V>, bases: (U32, U32), slot: U32, width: U32) {
    forall j: U32 :: j < width ==> ReadsFresh(buf, bases.0, slot, j) && ReadsFresh(buf, bases.1, slot, j)
  }

  /** The first `i` outputs are written, all other cells are unchanged. */
  ghost predicate Emitted<V>(
      m: Arith<V>, ctx: Context<V>, s: RmsStages, bases: (U32, U32), slot: U32, width: U32, initial: Buffer<V>, i: nat, buf: Buffer<V>)
    requires s.Valid() && i <= width
  {
    var xs, ws := Row(m, initial, bases.0, width), Row(m, initial, bases.1, width);
    && |buf.data| == |initial.data| && buf.width == initial.width && buf.slots == initial.slots
    && forall c :: 0 <= c < |buf.data| ==>
         buf.data[c] == if IsOutput(initial, slot, i, c) then Normalized(m, ctx, s, xs, ws, c - slot * initial.width)
                        else initial.data[c]
  }

  lemma EmittedStep<V>(
      m: Arith<V>, ctx: Context<V>, s: RmsStages, bases: (U32, U32), slot: U32, width: U32, initial: Buffer<V>, i: U32, buf: Buffer<V>)
    requires s.Valid() && i < width && initial.Valid() && buf.Valid()
    requires Emitted(m, ctx, s, bases, slot, width, initial, i, buf)
    ensures var v := Normalized(m, ctx, s, Row(m, initial, bases.0, width), Row(m, initial, bases.1, width), i);
            Emitted(m, ctx, s, bases, slot, width, initial, i + 1, WriteSlot(buf, slot, i, v))
  {
    hide Normalized;
    assert (slot + 1) * initial.width == slot * initial.width + initial.width;
  }

  /** The retained values, and the value of one emission on a partly written buffer. */
  lemma EmitValue<V>(
      m: Arith<V>, ctx: Context<V>, s: RmsStages, bases: (U32, U32), slot: U32, width: U32, initial: Buffer<V>, i: U32, buf: Buffer<V>)
    requires Runs(m, s) && i < width && initial.Valid() && RowsFresh(initial, bases, slot, width)
    requires Emitted(m, ctx, s, bases, slot, width, initial, i, buf)
    ensures var xs, ws := Row(m, initial, bases.0, width), Row(m, initial, bases.1, width);
            var (prepare, roots) := Prepared(s);
            var vs := NodeValues(m, prepare, OperandEnv(m, ctx, [Total(m, ctx, s, xs, width)]), prepare.Size());
            var env := Env(EmitVars(m, buf, bases, vs, roots, i), id => GetConst(m, ctx, id));
            ScalarValue(m, env, CompactScalar(s.output, s.outputRoot)) == Normalized(m, ctx, s, xs, ws, i)
  {
    hide Eval, CompactScalar, ScalarValue, Emitted, IsOutput, ReadIndexed, StageAccepted, Prepared;
    var xs, ws := Row(m, initial, bases.0, width), Row(m, initial, bases.1, width);
    var (prepare, roots) := Prepared(s);
    var penv := OperandEnv(m, ctx, [Total(m, ctx, s, xs, width)]);
    var vs := NodeValues(m, prepare, penv, prepare.Size());
    RetainedRoots(m, ctx, s, penv);
    assert ReadsFresh(initial, bases.0, slot, i) && ReadsFresh(initial, bases.1, slot, i);
    FreshRead(m, ctx, s, bases, slot, width, initial, i, buf, bases.0);
    FreshRead(m, ctx, s, bases, slot, width, initial, i, buf, bases.1);
    var operands := [xs[i], ws[i], vs[roots.0], vs[roots.1]];
    ScalarOnOperands(m, ctx, s.output, s.outputRoot, operands, EmitVars(m, buf, bases, vs, roots, i));
  }

  lemma FreshRead<V>(
      m: Arith<V>, ctx: Context<V>, s: RmsStages, bases: (U32, U32), slot: U32, width: U32, initial: Buffer<V>, i: U32, buf: Buffer<V>,
      base: U32)
    requires s.Valid() && i < width && ReadsFresh(initial, base, slot, i)
    requires Emitted(m, ctx, s, bases, slot, width, initial, i, buf)
    ensures ReadIndexed(m, buf, base, i) == ReadIndexed(m, initial, base, i)
  {
    hide Normalized;
  }

  /** Compaction keeps the values of the two preparation roots. */
  lemma RetainedRoots<V>(m: Arith<V>, ctx: Context<V>, s: RmsStages, env: Env<V>)
    requires s.Valid()
    ensures var (prepare, roots) := Prepared(s);
            && Eval(m, prepare, env, roots.0) == Eval(m, s.prepare, env, s.prepareRoots.0)
            && Eval(m, prepare, env, roots.1) == Eval(m, s.prepare, env, s.prepareRoots.1)
  {
    hide Eval;
    Compaction.CompactCorrect(m, env, s.prepare, s.prepare.Size());
  }

  /** What the second loop finds above the caller's stack: the total and the retained values. */
  function Kept<V>(m: Arith<V>, ctx: Context<V>, s: RmsStages, xs: seq<V>): (vs: seq<V>)
    requires s.Valid()
    ensures |vs| == Prepared(s).0.Size()
  {
    var prepare := Prepared(s).0;
    NodeValues(m, prepare, OperandEnv(m, ctx, [Total(m, ctx, s, xs, |xs|)]), prepare.Size())
  }

  lemma EmitTurn<V(!new)>(
      m: Arith<V>, ctx: Context<V>, s: RmsStages, bases: (U32, U32), slot: U32, width: U32, initial: Buffer<V>, i: U32,
      pre: seq<V>, buf: Buffer<V>)
    requires Runs(m, s) && i < width && initial.Valid() && buf.Valid() && RowsFresh(initial, bases, slot, width)
    requires Emitted(m, ctx, s, bases, slot, width, initial, i, buf)
    ensures var xs, ws := Row(m, initial, bases.0, width), Row(m, initial, bases.1, width);
            var vs := Kept(m, ctx, s, xs);
            Run(m, ctx, EmitBody(s, BufferLoads(bases.0, bases.1), slot), State(pre + vs + [m.fromU32(i)], buf))
            == Some(State(pre + vs, WriteSlot(buf, slot, i, Normalized(m, ctx, s, xs, ws, i))))
  {
    hide Run, CompactScalar, Emission, Emitted, StageAccepted, PrepareAccepted, RowsFresh, WriteSlot, NodeValues, EmitVars,
         ScalarValue, Normalized, Total;
    var xs := Row(m, initial, bases.0, width);
    var (prepare, roots) := Prepared(s);
    var vs := Kept(m, ctx, s, xs);
    CompactSize(s.output, s.outputRoot);
    EmitIteration(m, ctx, CompactScalar(s.output, s.outputRoot), bases, slot, vs, roots, i, pre, buf);
    EmitValue(m, ctx, s, bases, slot, width, initial, i, buf);
  }

  lemma {:induction false} EmitTurns<V(!new)>(
      m: Arith<V>, ctx: Context<V>, s: RmsStages, bases: (U32, U32), slot: U32, width: U32, initial: Buffer<V>, i: nat,
      pre: seq<V>, buf: Buffer<V>)
    requires Runs(m, s) && i <= width && initial.Valid() && buf.Valid() && RowsFresh(initial, bases, slot, width)
    requires Emitted(m, ctx, s, bases, slot, width, initial, i, buf)
    ensures var vs := Kept(m, ctx, s, Row(m, initial, bases.0, width));
            var r := Iterate(m, ctx, EmitBody(s, BufferLoads(bases.0, bases.1), slot), i, width, State(pre + vs, buf));
            r.Some? && r.value.stack == pre + vs && Emitted(m, ctx, s, bases, slot, width, initial, width, r.value.buf)
    decreases width - i
  {
    hide Run, EmitBody, Emitted, RowsFresh, WriteSlot, Kept, Row, Normalized, StageAccepted, PrepareAccepted, CompactScalar;
    if i < width {
      var v := Normalized(m, ctx, s, Row(m, initial, bases.0, width), Row(m, initial, bases.1, width), i);
      EmitTurn(m, ctx, s, bases, slot, width, initial, i, pre, buf);
      EmittedStep(m, ctx, s, bases, slot, width, initial, i, buf);
      EmitTurns(m, ctx, s, bases, slot, width, initial, i + 1, pre, WriteSlot(buf, slot, i, v));
    }
  }

  // ------------------------------------------------------------ the whole program

  lemma {:induction false} DropsRun<V>(m: Arith<V>, ctx: Context<V>, pre: seq<V>, vs: seq<V>, buf: Buffer<V>)
    requires buf.Valid()
    ensures LoopFree(Drops(|vs|)) && Run(m, ctx, Drops(|vs|), State(pre + vs, buf)) == Some(State(pre, buf))
    decreases |vs|
  {
    hide Step;
    if vs == [] {
      assert pre + vs == pre;
    } else {
      var n := |vs| - 1;
      DropsRun(m, ctx, pre, vs[..n], buf);
      DropsFront(n);
      assert pre + vs == pre + vs[..n] + [vs[n]];
      DropStep(m, ctx, pre + vs[..n], vs[n], buf);
      RunSingle(m, ctx, Drop, State(pre + vs, buf));
      RunConcat(m, ctx, [Drop], Drops(n), State(pre + vs, buf));
    }
  }

  lemma {:induction false} DropsFront(n: nat)
    ensures Drops(n + 1) == [Drop] + Drops(n)
    decreases n
  {
    if n > 0 {
      DropsFront(n - 1);
    }
  }

  lemma RepeatRun<V>(m: Arith<V>, ctx: Context<V>, width: U32, body: seq<Op>, rest: seq<Op>, st: State<V>)
    requires |body| < U32_RANGE && st.buf.Valid()
    ensures Run(m, ctx, Repeat(width, body) + rest, st)
            == match Iterate(m, ctx, body, 0, width, st) case None => None case Some(st') => Run(m, ctx, rest, st')
  {
    hide Step;
    var code := Repeat(width, body);
    assert code[1 + |body|..] == [];
    assert Closed(code);
    ProgramIsLoop(m, ctx, width, body, st);
    RunConcatClosed(m, ctx, code, rest, st);
  }

  lemma InitialRun<V>(m: Arith<V>, ctx: Context<V>, rest: seq<Op>, pre: seq<V>, buf: Buffer<V>)
    requires buf.Valid()
    ensures Run(m, ctx, [Const(EPSILON_CONST)] + rest, State(pre, buf))
            == Run(m, ctx, rest, State(pre + [GetConst(m, ctx, EPSILON_CONST)], buf))
  {
    RunSingle(m, ctx, Const(EPSILON_CONST), State(pre, buf));
    RunConcat(m, ctx, [Const(EPSILON_CONST)], rest, State(pre, buf));
  }

  /** Everything behind the reducing loop. */
  lemma TailRun<V(!new)>(
      m: Arith<V>, ctx: Context<V>, s: RmsStages, bases: (U32, U32), slot: U32, width: U32, pre: seq<V>, buf: Buffer<V>)
    requires Runs(m, s) && buf.Valid() && RowsFresh(buf, bases, slot, width)
    ensures var prepare := Prepared(s).0;
            var total := Total(m, ctx, s, Row(m, buf, bases.0, width), width);
            var r := Run(m, ctx, PrepareCode(prepare, prepare.Size())
                                 + (Repeat(width, EmitBody(s, BufferLoads(bases.0, bases.1), slot)) + Drops(prepare.Size() + 1)),
                         State(pre + [total], buf));
            r.Some? && r.value.stack == pre && Emitted(m, ctx, s, bases, slot, width, buf, width, r.value.buf)
  {
    hide Run, Step, EmitBody, Emitted, RowsFresh, Total, Row, PrepareCode, Drops, Repeat, NodeValues, StageAccepted, PrepareAccepted,
         CompactScalar, Eval, OperandEnv, Prepared, LoopFree;
    var prepare := Prepared(s).0;
    var xs := Row(m, buf, bases.0, width);
    var total := Total(m, ctx, s, xs, width);
    var vs := Kept(m, ctx, s, xs);
    var body := EmitBody(s, BufferLoads(bases.0, bases.1), slot);
    var drops := Drops(prepare.Size() + 1);
    PrepareRun(m, ctx, prepare, total, prepare.Size(), pre, buf);
    NothingEmitted(m, ctx, s, bases, slot, width, buf);
    EmitTurns(m, ctx, s, bases, slot, width, buf, 0, pre + [total], buf);
    var after := Iterate(m, ctx, body, 0, width, State(pre + [total] + vs, buf)).value;
    assert pre + [total] + vs == pre + ([total] + vs);
    DropsRun(m, ctx, pre, [total] + vs, after.buf);
    RepeatRun(m, ctx, width, body, drops, State(pre + [total] + vs, buf));
    RunConcat(m, ctx, PrepareCode(prepare, prepare.Size()), Repeat(width, body) + drops, State(pre + [total], buf));
  }

  lemma NothingEmitted<V>(
      m: Arith<V>, ctx: Context<V>, s: RmsStages, bases: (U32, U32), slot: U32, width: U32, buf: Buffer<V>)
    requires s.Valid()
    ensures Emitted(m, ctx, s, bases, slot, width, buf, 0, buf)
  {
  }

  /**
   The bounded RMS program on any stack and on any buffer whose outputs do not overwrite
   elements or weights read later: output `i` is the output DAG on `x[i]`, `w[i]` and the two
   preparation roots at the final total; every other cell and the caller's stack are kept.
   */
  lemma RmsProgramCorrect<V(!new)>(
      m: Arith<V>, ctx: Context<V>, s: RmsStages, bases: (U32, U32), slot: U32, width: U32, pre: seq<V>, buf: Buffer<V>)
    requires Runs(m, s) && buf.Valid() && RowsFresh(buf, bases, slot, width)
    ensures var r := Run(m, ctx, RmsOps(s, BufferLoads(bases.0, bases.1), width, slot), State(pre, buf));
            var xs, ws := Row(m, buf, bases.0, width), Row(m, buf, bases.1, width);
            && r.Some? && r.value.stack == pre && |r.value.buf.data| == |buf.data|
            && forall c :: 0 <= c < |buf.data| ==>
                 r.value.buf.data[c] == if IsOutput(buf, slot, width, c)
                                        then Normalized(m, ctx, s, xs, ws, c - slot * buf.width) else buf.data[c]
  {
    hide Run, Step, EmitBody, ReduceBody, RowsFresh, Row, PrepareCode, Drops, Repeat, Prepared, StageAccepted, PrepareAccepted,
         CompactScalar, Normalized;
    var loads := BufferLoads(bases.0, bases.1);
    var prepare := Prepared(s).0;
    var tail := PrepareCode(prepare, prepare.Size()) + (Repeat(width, EmitBody(s, loads, slot)) + Drops(prepare.Size() + 1));
    var start := State(pre + [GetConst(m, ctx, EPSILON_CONST)], buf);
    InitialRun(m, ctx, Repeat(width, ReduceBody(s, loads)) + tail, pre, buf);
    ReduceTurns(m, ctx, s, loads, bases.0, width, 0, pre, buf);
    RepeatRun(m, ctx, width, ReduceBody(s, loads), tail, start);
    TailRun(m, ctx, s, bases, slot, width, pre, buf);
  }
}
