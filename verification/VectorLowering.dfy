/**
 From a scalar program to an indexed vector loop: `indexed_scalar_body` and
 `vector_output_program`. The loop's element counter stays below the scalar stack,
 and every variable becomes a load through a copy of that counter.
 */
module VectorLowering {
  import opened Wrappers
  import opened Machine
  import opened Dag
  import opened Scalar
  import opened HotLoop
  import opened Linearize

  /** The code a closure of the source substitutes for `Var(id)` at a local stack height. */
  type Load = (U32, U32) -> seq<Op>

  function IndexedBody(ops: seq<Op>, depth: nat, load: Load): seq<Op>
    requires AllScalar(ops) && Depth(ops, depth).Some? && depth + |ops| < U32_RANGE
  {
    if ops == [] then []
    else
      (if ops[0].Var? then load(ops[0].id, depth) else [ops[0]])
      + IndexedBody(ops[1..], DepthAfter(ops[0], depth).value, load)
  }

  /** `indexed_scalar_body`, whose depth counter ends at one for a scalar program. */
  method IndexedScalarBody(scalar: seq<Op>, load: Load) returns (body: seq<Op>)
    requires IsScalarProgram(scalar) && |scalar| < U32_RANGE
    ensures body == IndexedBody(scalar, 0, load)
  {
    hide IndexedBody, DepthAfter;
    body := [];
    var depth: nat := 0;
    for i := 0 to |scalar|
      invariant depth <= i && Depth(scalar[i..], depth) == Some(1)
      invariant IndexedBody(scalar, 0, load) == body + IndexedBody(scalar[i..], depth, load)
    {
      IndexedBodyStep(scalar, i, depth, load);
      ghost var done := body;
      var code;
      code, depth := LowerOp(scalar[i], depth, load);
      body := body + code;
      assert done + (code + IndexedBody(scalar[i + 1..], depth, load)) == body + IndexedBody(scalar[i + 1..], depth, load);
    }
    assert scalar[|scalar|..] == [];
    NothingLeft(depth, load);
    assert depth == 1;
  }

  /** One arm of the lowering `match`: the code for an opcode and the depth after it. */
  method LowerOp(op: Op, depth: nat, load: Load) returns (code: seq<Op>, after: nat)
    requires IsScalar(op) && DepthAfter(op, depth).Some? && depth < U32_RANGE
    ensures code == if op.Var? then load(op.id, depth) else [op]
    ensures DepthAfter(op, depth) == Some(after)
  {
    match op
    case Var(id) => code, after := load(id, depth), depth + 1;
    case Bml | Drop => code, after := [op], depth - 1;
    case Swap => code, after := [op], depth;
    case One | Zero | Const(_) | Pick(_) | Dup => code, after := [op], depth + 1;
  }

  lemma NothingLeft(depth: nat, load: Load)
    requires depth < U32_RANGE
    ensures Depth([], depth) == Some(depth) && IndexedBody([], depth, load) == []
  {
  }

  lemma IndexedBodyStep(scalar: seq<Op>, i: nat, depth: nat, load: Load)
    requires AllScalar(scalar) && i < |scalar| < U32_RANGE && depth <= i && Depth(scalar[i..], depth) == Some(1)
    ensures var op := scalar[i];
            var next := DepthAfter(op, depth);
            && next.Some? && next.value <= i + 1 && Depth(scalar[i + 1..], next.value) == Some(1)
            && IndexedBody(scalar[i..], depth, load)
               == (if op.Var? then load(op.id, depth) else [op]) + IndexedBody(scalar[i + 1..], next.value, load)
  {
    assert scalar[i..][1..] == scalar[i + 1..];
  }

  lemma OneDeeper(op: Op, depth: nat)
    requires IsScalar(op) && DepthAfter(op, depth).Some?
    ensures DepthAfter(op, depth).value <= depth + 1
  {
  }

  /** Loads of bounded length make bodies of proportional length. */
  lemma {:induction false} IndexedBodySize(ops: seq<Op>, depth: nat, load: Load, k: nat)
    requires AllScalar(ops) && Depth(ops, depth).Some? && depth + |ops| < U32_RANGE
    requires k >= 1 && forall id: U32, h: U32 {:trigger load(id, h)} :: |load(id, h)| <= k
    ensures |IndexedBody(ops, depth, load)| <= k * |ops|
    decreases |ops|
  {
    hide DepthAfter;
    if ops != [] {
      var next := DepthAfter(ops[0], depth).value;
      var first := if ops[0].Var? then load(ops[0].id, depth) else [ops[0]];
      assert |first| <= k && next <= depth + 1 by { OneDeeper(ops[0], depth); }
      IndexedBodySize(ops[1..], next, load, k);
      var n := |ops| - 1;
      assert k * (n + 1) == k * n + k;
    }
  }

  // ---------------------------------------------------------------- simulation

  /** `load(id, h)` leaves the variable's value on top of any local stack of height `h` below `top`. */
  ghost predicate Loads<V(!new)>(
      m: Arith<V>, ctx: Context<V>, base: seq<V>, buf: Buffer<V>, load: Load, id: U32, value: V, top: nat := U32_RANGE)
    requires buf.Valid()
  {
    && (forall h: U32 {:trigger load(id, h)} :: LoopFree(load(id, h)))
    && forall local: seq<V> {:trigger load(id, |local|)} :: |local| < U32_RANGE && |local| < top ==>
         Run(m, ctx, load(id, |local|), State(base + local, buf)) == Some(State(base + local + [value], buf))
  }

  /** An opcode that touches only the local part acts on it as in the scalar machine. */
  lemma StepFrame<V>(m: Arith<V>, ctx: Context<V>, vars: U32 -> V, op: Op, base: seq<V>, local: seq<V>, buf: Buffer<V>)
    requires IsScalar(op) && !op.Var? && buf.Valid() && DepthAfter(op, |local|).Some?
    ensures Step(m, ctx, op, State(base + local, buf))
            == Some(State(base + ScalarStep(m, Env(vars, id => GetConst(m, ctx, id)), op, local).value, buf))
  {
    if op.Bml? || op.Swap? || op.Drop? {
      ConsumeFrame(m, ctx, Env(vars, id => GetConst(m, ctx, id)), op, base, local, buf);
    } else {
      PushFrame(m, ctx, vars, op, base, local, buf);
    }
  }

  lemma ConsumeFrame<V>(m: Arith<V>, ctx: Context<V>, env: Env<V>, op: Op, base: seq<V>, local: seq<V>, buf: Buffer<V>)
    requires (op.Bml? || op.Swap? || op.Drop?) && buf.Valid() && DepthAfter(op, |local|).Some?
    ensures Step(m, ctx, op, State(base + local, buf)) == Some(State(base + ScalarStep(m, env, op, local).value, buf))
  {
    var n := |local|;
    if op.Bml? {
      BmlFrame(m, ctx, base, local, buf);
    } else if op.Swap? {
      SwapFrame(m, ctx, base, local, buf);
    } else {
      assert (base + local)[..|base + local| - 1] == base + local[..n - 1];
    }
  }

  lemma BmlFrame<V>(m: Arith<V>, ctx: Context<V>, base: seq<V>, local: seq<V>, buf: Buffer<V>)
    requires buf.Valid() && |local| >= 2
    ensures var n := |local|;
            Step(m, ctx, Bml, State(base + local, buf))
            == Some(State(base + (local[..n - 2] + [m.bml(local[n - 2], local[n - 1])]), buf))
  {
    var s, n := base + local, |local|;
    var v := m.bml(local[n - 2], local[n - 1]);
    assert s[..|s| - 2] + [v] == base + (local[..n - 2] + [v]);
  }

  lemma SwapFrame<V>(m: Arith<V>, ctx: Context<V>, base: seq<V>, local: seq<V>, buf: Buffer<V>)
    requires buf.Valid() && |local| >= 2
    ensures var n := |local|;
            Step(m, ctx, Swap, State(base + local, buf))
            == Some(State(base + (local[..n - 2] + [local[n - 1], local[n - 2]]), buf))
  {
    var s, n := base + local, |local|;
    var top := [local[n - 1], local[n - 2]];
    assert s[..|s| - 2] + top == base + (local[..n - 2] + top);
  }

  lemma PushFrame<V>(m: Arith<V>, ctx: Context<V>, vars: U32 -> V, op: Op, base: seq<V>, local: seq<V>, buf: Buffer<V>)
    requires op.One? || op.Zero? || op.Const? || op.Dup? || op.Pick?
    requires buf.Valid() && DepthAfter(op, |local|).Some?
    ensures Step(m, ctx, op, State(base + local, buf))
            == Some(State(base + ScalarStep(m, Env(vars, id => GetConst(m, ctx, id)), op, local).value, buf))
  {
    var s := base + local;
    var next := ScalarStep(m, Env(vars, id => GetConst(m, ctx, id)), op, local).value;
    var v := next[|local|];
    assert next == local + [v];
    assert s + [v] == base + (local + [v]);
  }

  /** The indexed body simulates the scalar program above any base stack. */
  lemma {:induction false} BodyRun<V(!new)>(
      m: Arith<V>, ctx: Context<V>, vars: U32 -> V, load: Load, ops: seq<Op>,
      base: seq<V>, local: seq<V>, buf: Buffer<V>, top: nat := U32_RANGE)
    requires AllScalar(ops) && Depth(ops, |local|).Some? && |local| + |ops| < U32_RANGE && buf.Valid()
    requires |local| + |ops| <= top
    requires forall k :: 0 <= k < |ops| && ops[k].Var? ==> Loads(m, ctx, base, buf, load, ops[k].id, vars(ops[k].id), top)
    ensures LoopFree(IndexedBody(ops, |local|, load))
    ensures Run(m, ctx, IndexedBody(ops, |local|, load), State(base + local, buf))
            == Some(State(base + ScalarRun(m, Env(vars, id => GetConst(m, ctx, id)), ops, local).value, buf))
    decreases |ops|
  {
    if ops != [] {
      var env := Env(vars, id => GetConst(m, ctx, id));
      var op := ops[0];
      var first := if op.Var? then load(op.id, |local|) else [op];
      var next := ScalarStep(m, env, op, local).value;
      var rest := IndexedBody(ops[1..], |next|, load);
      if op.Var? {
        assert Loads(m, ctx, base, buf, load, op.id, vars(op.id), top);
        assert base + local + [vars(op.id)] == base + next;
      } else {
        RunSingle(m, ctx, op, State(base + local, buf));
        StepFrame(m, ctx, vars, op, base, local, buf);
      }
      assert LoopFree(first);
      assert Run(m, ctx, first, State(base + local, buf)) == Some(State(base + next, buf));
      assert forall k :: 0 <= k < |ops[1..]| ==> ops[1..][k] == ops[k + 1];
      BodyRun(m, ctx, vars, load, ops[1..], base, next, buf, top);
      RunConcat(m, ctx, first, rest, State(base + local, buf));
    }
  }

  // -------------------------------------------------------- vector_output_program

  /** `bases[id]`; `VectorOutputProgram` sees only the identifiers 0 and 1. */
  function BaseOf(bases: (U32, U32), id: U32): U32 {
    if id == 0 then bases.0 else bases.1
  }

  function VectorLoad(bases: (U32, U32)): Load {
    (id: U32, depth: U32) => [Pick(depth), VarIndexed(BaseOf(bases, id))]
  }

  function VectorBody(scalar: seq<Op>, bases: (U32, U32), slot: U32): seq<Op>
    requires IsScalarProgram(scalar) && |scalar| < U32_RANGE
  {
    IndexedBody(scalar, 0, VectorLoad(bases)) + [Swap, StoreResult(slot)]
  }

  function VectorProgram(scalar: seq<Op>, bases: (U32, U32), count: U32, slot: U32): seq<Op>
    requires IsScalarProgram(scalar) && |scalar| < U32_RANGE && |VectorBody(scalar, bases, slot)| < U32_RANGE
  {
    [Loop(count, |VectorBody(scalar, bases, slot)|)] + VectorBody(scalar, bases, slot)
  }

  /** `vector_output_program`, which panics when the scalar program has a third variable. */
  method VectorOutputProgram(scalar: seq<Op>, bases: (U32, U32), count: U32, slot: U32) returns (ops: seq<Op>)
    requires IsScalarProgram(scalar) && |scalar| < U32_RANGE && |VectorBody(scalar, bases, slot)| < U32_RANGE
    requires ReadsBelow(scalar, 2)
    ensures ops == VectorProgram(scalar, bases, count, slot)
  {
    var body := IndexedScalarBody(scalar, VectorLoad(bases));
    body := body + [Swap, StoreResult(slot)];
    ops := [Loop(count, |body|)];
    ops := ops + body;
  }

  /** Element `i` of the two inputs, as read from the buffer. */
  function ElementVars<V>(m: Arith<V>, buf: Buffer<V>, bases: (U32, U32), i: U32): U32 -> V {
    (id: U32) => ReadIndexed(m, buf, BaseOf(bases, id), i)
  }

  function ElementEnv<V>(m: Arith<V>, ctx: Context<V>, buf: Buffer<V>, bases: (U32, U32), i: U32): Env<V> {
    Env(ElementVars(m, buf, bases, i), id => GetConst(m, ctx, id))
  }

  lemma VectorLoads<V(!new)>(m: Arith<V>, ctx: Context<V>, pre: seq<V>, buf: Buffer<V>, bases: (U32, U32), i: U32, id: U32)
    requires m.CountersSurvive() && buf.Valid()
    ensures Loads(m, ctx, pre + [m.fromU32(i)], buf, VectorLoad(bases), id, ElementVars(m, buf, bases, i)(id))
  {
    var base := pre + [m.fromU32(i)];
    forall local: seq<V> | |local| < U32_RANGE
      ensures Run(m, ctx, VectorLoad(bases)(id, |local|), State(base + local, buf))
              == Some(State(base + local + [ElementVars(m, buf, bases, i)(id)], buf))
    {
      VectorLoadIs(bases, id, |local|);
      CounterLoad(m, ctx, pre, local, buf, BaseOf(bases, id), i);
    }
    forall h: U32 ensures LoopFree(VectorLoad(bases)(id, h)) {
      VectorLoadIs(bases, id, h);
    }
  }

  lemma VectorLoadIs(bases: (U32, U32), id: U32, h: U32)
    ensures VectorLoad(bases)(id, h) == [Pick(h), VarIndexed(BaseOf(bases, id))]
    ensures LoopFree(VectorLoad(bases)(id, h))
  {
  }

  lemma CounterLoad<V>(m: Arith<V>, ctx: Context<V>, pre: seq<V>, local: seq<V>, buf: Buffer<V>, address: U32, i: U32)
    requires m.CountersSurvive() && buf.Valid() && |local| < U32_RANGE
    ensures var s := pre + [m.fromU32(i)] + local;
            Run(m, ctx, [Pick(|local|), VarIndexed(address)], State(s, buf))
            == Some(State(s + [ReadIndexed(m, buf, address, i)], buf))
  {
    var s := pre + [m.fromU32(i)] + local;
    PickStep(m, ctx, s, |local|, buf);
    LoadStep(m, ctx, address, s, m.fromU32(i), buf);
    RunPair(m, ctx, Pick(|local|), VarIndexed(address), State(s, buf));
  }

  /** One iteration: the counter and the result are consumed and one cell is written. */
  lemma VectorIteration<V(!new)>(
      m: Arith<V>, ctx: Context<V>, scalar: seq<Op>, bases: (U32, U32), slot: U32, i: U32, pre: seq<V>, buf: Buffer<V>)
    requires IsScalarProgram(scalar) && |scalar| < U32_RANGE && m.CountersSurvive() && buf.Valid()
    ensures Run(m, ctx, VectorBody(scalar, bases, slot), State(pre + [m.fromU32(i)], buf))
            == Some(State(pre, WriteSlot(buf, slot, i, ScalarValue(m, ElementEnv(m, ctx, buf, bases, i), scalar))))
  {
    var c := m.fromU32(i);
    var body := IndexedBody(scalar, 0, VectorLoad(bases));
    var v := ScalarValue(m, ElementEnv(m, ctx, buf, bases, i), scalar);
    forall k | 0 <= k < |scalar| && scalar[k].Var?
      ensures Loads(m, ctx, pre + [c], buf, VectorLoad(bases), scalar[k].id, ElementVars(m, buf, bases, i)(scalar[k].id))
    {
      VectorLoads(m, ctx, pre, buf, bases, i, scalar[k].id);
    }
    BodyRun(m, ctx, ElementVars(m, buf, bases, i), VectorLoad(bases), scalar, pre + [c], [], buf);
    var after := State(pre + [c] + [v], buf);
    assert pre + [c] + [] == pre + [c];
    assert ScalarRun(m, ElementEnv(m, ctx, buf, bases, i), scalar, []).value == [v];
    assert Run(m, ctx, body, State(pre + [c], buf)) == Some(after);
    StoreTail(m, ctx, slot, i, pre, v, buf);
    RunConcat(m, ctx, body, [Swap, StoreResult(slot)], State(pre + [c], buf));
  }

  lemma StoreTail<V>(m: Arith<V>, ctx: Context<V>, slot: U32, i: U32, pre: seq<V>, v: V, buf: Buffer<V>)
    requires m.CountersSurvive() && buf.Valid()
    ensures Run(m, ctx, [Swap, StoreResult(slot)], State(pre + [m.fromU32(i)] + [v], buf))
            == Some(State(pre, WriteSlot(buf, slot, i, v)))
  {
    var c := m.fromU32(i);
    SwapStep(m, ctx, pre, c, v, buf);
    StoreStep(m, ctx, slot, pre, v, c, buf);
    RunPair(m, ctx, Swap, StoreResult(slot), State(pre + [c] + [v], buf));
  }

  /** The buffer after iterations `i..count`, each reading what the earlier ones left. */
  ghost function VectorWrites<V>(
      m: Arith<V>, ctx: Context<V>, scalar: seq<Op>, bases: (U32, U32), slot: U32, i: nat, count: U32, buf: Buffer<V>)
    : (r: Buffer<V>)
    requires IsScalarProgram(scalar) && buf.Valid() && i <= count
    ensures r.Valid() && r.width == buf.width && r.slots == buf.slots
    decreases count - i
  {
    if i == count then buf
    else
      var v := ScalarValue(m, ElementEnv(m, ctx, buf, bases, i), scalar);
      VectorWrites(m, ctx, scalar, bases, slot, i + 1, count, WriteSlot(buf, slot, i, v))
  }

  lemma {:induction false} VectorIterations<V(!new)>(
      m: Arith<V>, ctx: Context<V>, scalar: seq<Op>, bases: (U32, U32), slot: U32, i: nat, count: U32,
      pre: seq<V>, buf: Buffer<V>)
    requires IsScalarProgram(scalar) && |scalar| < U32_RANGE && m.CountersSurvive() && buf.Valid() && i <= count
    ensures Iterate(m, ctx, VectorBody(scalar, bases, slot), i, count, State(pre, buf))
            == Some(State(pre, VectorWrites(m, ctx, scalar, bases, slot, i, count, buf)))
    decreases count - i
  {
    if i < count {
      VectorIteration(m, ctx, scalar, bases, slot, i, pre, buf);
      var v := ScalarValue(m, ElementEnv(m, ctx, buf, bases, i), scalar);
      VectorIterations(m, ctx, scalar, bases, slot, i + 1, count, pre, WriteSlot(buf, slot, i, v));
    }
  }

  lemma ProgramIsLoop<V>(m: Arith<V>, ctx: Context<V>, count: U32, body: seq<Op>, st: State<V>)
    requires |body| < U32_RANGE && st.buf.Valid()
    ensures Run(m, ctx, [Loop(count, |body|)] + body, st) == Iterate(m, ctx, body, 0, count, st)
  {
    var ops := [Loop(count, |body|)] + body;
    assert ops[1..1 + |body|] == body && ops[1 + |body|..] == [];
  }

  /** Whether flat address `c` is one of the `count` output elements of `slot`. */
  predicate IsOutput<V>(buf: Buffer<V>, slot: U32, count: U32, c: nat) {
    slot < buf.slots && slot * buf.width <= c < slot * buf.width + count && c < (slot + 1) * buf.width
  }

  /** Element `j` at `base` is not among the outputs of iterations `0..j`. */
  predicate ReadsFresh<V>(buf: Buffer<V>, base: U32, slot: U32, j: U32) {
    !IsOutput(buf, slot, j, base + j)
  }

  /** Outputs never overwrite an input element that a later iteration reads. */
  ghost predicate NoClobber<V>(scalar: seq<Op>, buf: Buffer<V>, bases: (U32, U32), slot: U32, count: U32) {
    forall k, j :: 0 <= k < |scalar| && scalar[k].Var? && 0 <= j < count ==>
      ReadsFresh(buf, BaseOf(bases, scalar[k].id), slot, j)
  }

  lemma {:induction false} ScalarRunAgrees<V>(m: Arith<V>, e: Env<V>, f: Env<V>, ops: seq<Op>, s: seq<V>)
    requires AllScalar(ops)
    requires forall k :: 0 <= k < |ops| && ops[k].Var? ==> e.vars(ops[k].id) == f.vars(ops[k].id)
    requires forall id: U32 :: e.consts(id) == f.consts(id)
    ensures ScalarRun(m, e, ops, s) == ScalarRun(m, f, ops, s)
    decreases |ops|
  {
    if ops != [] {
      assert ScalarStep(m, e, ops[0], s) == ScalarStep(m, f, ops[0], s);
      match ScalarStep(m, e, ops[0], s)
      case None =>
      case Some(s') =>
        assert forall k :: 0 <= k < |ops[1..]| ==> ops[1..][k] == ops[k + 1];
        ScalarRunAgrees(m, e, f, ops[1..], s');
    }
  }

  // Cells below iteration i are final, the others still hold the initial buffer.
  ghost predicate Progress<V>(
      m: Arith<V>, ctx: Context<V>, scalar: seq<Op>, bases: (U32, U32), slot: U32, initial: Buffer<V>, i: U32, buf: Buffer<V>)
    requires IsScalarProgram(scalar)
  {
    && |buf.data| == |initial.data| && buf.width == initial.width && buf.slots == initial.slots
    && forall c :: 0 <= c < |buf.data| ==>
         buf.data[c] == if IsOutput(initial, slot, i, c)
                        then ScalarValue(m, ElementEnv(m, ctx, initial, bases, c - slot * initial.width), scalar)
                        else initial.data[c]
  }

  lemma {:induction false} VectorWritesCells<V>(
      m: Arith<V>, ctx: Context<V>, scalar: seq<Op>, bases: (U32, U32), slot: U32, i: nat, count: U32,
      initial: Buffer<V>, buf: Buffer<V>)
    requires IsScalarProgram(scalar) && initial.Valid() && buf.Valid() && i <= count
    requires NoClobber(scalar, initial, bases, slot, count)
    requires Progress(m, ctx, scalar, bases, slot, initial, i, buf)
    ensures Progress(m, ctx, scalar, bases, slot, initial, count, VectorWrites(m, ctx, scalar, bases, slot, i, count, buf))
    decreases count - i
  {
    if i < count {
      var now := ElementEnv(m, ctx, buf, bases, i);
      var first := ElementEnv(m, ctx, initial, bases, i);
      forall k | 0 <= k < |scalar| && scalar[k].Var? ensures now.vars(scalar[k].id) == first.vars(scalar[k].id) {
        assert ReadsFresh(initial, BaseOf(bases, scalar[k].id), slot, i);
      }
      ScalarRunAgrees(m, now, first, scalar, []);
      var v := ScalarValue(m, now, scalar);
      assert (slot + 1) * initial.width == slot * initial.width + initial.width;
      VectorWritesCells(m, ctx, scalar, bases, slot, i + 1, count, initial, WriteSlot(buf, slot, i, v));
    }
  }

  /**
   Vector lowering is correct: the program leaves the caller's stack as it was, writes
   for each element the scalar result on the elements at `base[id] + i`, and changes no
   other cell.
   */
  lemma VectorLoweringCorrect<V(!new)>(
      m: Arith<V>, ctx: Context<V>, scalar: seq<Op>, bases: (U32, U32), count: U32, slot: U32, pre: seq<V>, buf: Buffer<V>)
    requires IsScalarProgram(scalar) && |scalar| < U32_RANGE && |VectorBody(scalar, bases, slot)| < U32_RANGE
    requires m.CountersSurvive() && buf.Valid()
    requires NoClobber(scalar, buf, bases, slot, count)
    ensures var r := Run(m, ctx, VectorProgram(scalar, bases, count, slot), State(pre, buf));
            && r.Some? && r.value.stack == pre
            && forall c :: 0 <= c < |buf.data| ==>
                 r.value.buf.data[c] == if IsOutput(buf, slot, count, c)
                                        then ScalarValue(m, ElementEnv(m, ctx, buf, bases, c - slot * buf.width), scalar)
                                        else buf.data[c]
  {
    ProgramIsLoop(m, ctx, count, VectorBody(scalar, bases, slot), State(pre, buf));
    VectorIterations(m, ctx, scalar, bases, slot, 0, count, pre, buf);
    VectorWritesCells(m, ctx, scalar, bases, slot, 0, count, buf, buf);
  }

  /** The same for a compiled DAG: each output element is the DAG's recursive value. */
  lemma CompiledVectorCorrect<V(!new)>(
      m: Arith<V>, ctx: Context<V>, dag: NodeSoA, root: nat, bases: (U32, U32), count: U32, slot: U32,
      pre: seq<V>, buf: Buffer<V>)
    requires dag.Valid() && root < dag.Size() && m.CountersSurvive() && buf.Valid()
    requires IsScalarProgram(Linearized(dag, root)) && |Linearized(dag, root)| < U32_RANGE
    requires |VectorBody(Linearized(dag, root), bases, slot)| < U32_RANGE
    requires NoClobber(Linearized(dag, root), buf, bases, slot, count)
    ensures var r := Run(m, ctx, VectorProgram(Linearized(dag, root), bases, count, slot), State(pre, buf));
            && r.Some? && r.value.stack == pre
            && forall c :: 0 <= c < |buf.data| ==>
                 r.value.buf.data[c] == if IsOutput(buf, slot, count, c)
                                        then Eval(m, dag, ElementEnv(m, ctx, buf, bases, c - slot * buf.width), root)
                                        else buf.data[c]
  {
    var scalar := Linearized(dag, root);
    VectorLoweringCorrect(m, ctx, scalar, bases, count, slot, pre, buf);
    forall c | 0 <= c < |buf.data| && IsOutput(buf, slot, count, c)
      ensures ScalarValue(m, ElementEnv(m, ctx, buf, bases, c - slot * buf.width), scalar)
              == Eval(m, dag, ElementEnv(m, ctx, buf, bases, c - slot * buf.width), root)
    {
      LinearizeCorrect(m, ElementEnv(m, ctx, buf, bases, c - slot * buf.width), dag, root, []);
    }
  }
}
