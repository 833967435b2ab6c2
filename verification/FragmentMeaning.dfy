/**
 The fragment interpreters against the other semantics: opcode by opcode they act on the
 stack as the dispatcher does, on scalar code they compute what the scalar machine computes,
 and a counter run that succeeds is a run of the dispatcher.
 */
module FragmentMeaning {
  import opened Wrappers
  import opened Machine
  import opened Dag
  import opened Scalar
  import opened HotLoop
  import opened Linearize
  import opened FragmentEval
  import opened Chunking
  import opened Fragmentation
  import FormatTable

  /** How many values an opcode needs on the stack. */
  function Arity(op: Op): nat {
    match op
    case One | Zero | Var(_) | Const(_) | Loop(_, _) => 0
    case ContextVarIndexed(_) | ContextConstIndexed(_) | VarIndexed(_) | Dup | Drop => 1
    case Bml | FAdd | FMul | FMax | Swap | StoreResult(_) => 2
    case Pick(depth) => depth + 1
  }

  /** Opcodes that do not touch the result buffer, which fragments do not have. */
  predicate Bufferless(op: Op) {
    !op.VarIndexed? && !op.StoreResult?
  }

  /** Where the operands are present, one opcode acts on the stack as in the dispatcher. */
  lemma StepsAgree<V>(m: Arith<V>, ctx: Context<V>, op: Op, s: seq<V>, buf: Buffer<V>)
    requires !op.Loop? && Bufferless(op) && Arity(op) <= |s| && buf.Valid()
    ensures FragStep(m, ctx, op, s).Some?
    ensures Step(m, ctx, op, State(s, buf)) == Some(State(FragStep(m, ctx, op, s).value, buf))
  {
    if |s| >= 2 {
      assert Popped(Popped(s)) == s[..|s| - 2];
    }
  }

  /** The checked interpreter rejects an opcode exactly when an operand is missing. */
  lemma IndexedStepExactly<V>(m: Arith<V>, ctx: Context<V>, op: Op, s: seq<V>)
    requires !op.Loop?
    ensures IndexedStep(m, ctx, op, s) == if Arity(op) <= |s| then FragStep(m, ctx, op, s) else None
  {
  }

  /** A scalar opcode acts as in the scalar machine, over the variables and constants of the context. */
  lemma ScalarStepAgrees<V>(m: Arith<V>, ctx: Context<V>, op: Op, s: seq<V>)
    requires IsScalar(op) && ScalarStep(m, ContextEnv(m, ctx), op, s).Some?
    ensures FragStep(m, ctx, op, s) == ScalarStep(m, ContextEnv(m, ctx), op, s)
    ensures IndexedStep(m, ctx, op, s) == ScalarStep(m, ContextEnv(m, ctx), op, s)
  {
  }

  lemma {:induction false} ScalarLevel<V>(m: Arith<V>, ctx: Context<V>, ops: seq<Op>, i: nat, s: seq<V>)
    requires AllScalar(ops) && i <= |ops| && ScalarRun(m, ContextEnv(m, ctx), ops[i..], s).Some?
    ensures Level(m, ctx, ops, i, |ops|, 0, s) == ScalarRun(m, ContextEnv(m, ctx), ops[i..], s)
    decreases |ops| - i
  {
    hide FragStep, ScalarStep;
    if i < |ops| {
      assert ops[i..][1..] == ops[i + 1..];
      ScalarStepAgrees(m, ctx, ops[i], s);
      ScalarLevel(m, ctx, ops, i + 1, ScalarStep(m, ContextEnv(m, ctx), ops[i], s).value);
    }
  }

  lemma {:induction false} ScalarIndexed<V>(m: Arith<V>, ctx: Context<V>, ops: seq<Op>, depth: nat, s: seq<V>)
    requires AllScalar(ops) && ScalarRun(m, ContextEnv(m, ctx), ops, s).Some?
    ensures Indexed(m, ctx, ops, depth, s) == ScalarRun(m, ContextEnv(m, ctx), ops, s)
    decreases |ops|
  {
    hide IndexedStep, ScalarStep;
    if ops != [] {
      ScalarStepAgrees(m, ctx, ops[0], s);
      ScalarIndexed(m, ctx, ops[1..], depth, ScalarStep(m, ContextEnv(m, ctx), ops[0], s).value);
    }
  }

  /** Both interpreters leave the DAG's recursive value above any stack. */
  lemma LinearizedOnFragments<V>(m: Arith<V>, ctx: Context<V>, dag: NodeSoA, root: nat, s: seq<V>, depth: nat)
    requires dag.Valid() && root < dag.Size()
    ensures var v := Eval(m, dag, ContextEnv(m, ctx), root);
            && Evaluated(m, ctx, Linearized(dag, root), s) == Some(s + [v])
            && Indexed(m, ctx, Linearized(dag, root), depth, s) == Some(s + [v])
  {
    hide Eval, ScalarRun, Linearized, Level;
    var ops := Linearized(dag, root);
    LinearizeCorrect(m, ContextEnv(m, ctx), dag, root, s);
    assert ops[0..] == ops;
    ScalarLevel(m, ctx, ops, 0, s);
    ScalarIndexed(m, ctx, ops, depth, s);
  }

  // ------------------------------------------------------------------ counter loops

  predicate AllBufferless(ops: seq<Op>) {
    forall k :: 0 <= k < |ops| ==> Bufferless(ops[k])
  }

  /** A counter run that succeeds is a run of the dispatcher, on any buffer. */
  lemma {:induction false} IndexedIsDispatch<V>(
      m: Arith<V>, ctx: Context<V>, ops: seq<Op>, depth: nat, s: seq<V>, buf: Buffer<V>)
    requires AllBufferless(ops) && buf.Valid() && Indexed(m, ctx, ops, depth, s).Some?
    ensures Run(m, ctx, ops, State(s, buf)) == Some(State(Indexed(m, ctx, ops, depth, s).value, buf))
    decreases |ops|, 0
  {
    hide Step, FragStep, IndexedStep;
    if ops != [] {
      if ops[0].Loop? {
        var end := 1 + ops[0].bodyLen;
        IterationsAreDispatch(m, ctx, ops[1..end], depth + 1, 0, ops[0].count, s, buf);
        IndexedIsDispatch(m, ctx, ops[end..], depth, IndexedTimes(m, ctx, ops[1..end], depth + 1, 0, ops[0].count, s).value, buf);
      } else {
        IndexedStepExactly(m, ctx, ops[0], s);
        StepsAgree(m, ctx, ops[0], s, buf);
        IndexedIsDispatch(m, ctx, ops[1..], depth, FragStep(m, ctx, ops[0], s).value, buf);
      }
    }
  }

  lemma {:induction false} IterationsAreDispatch<V>(
      m: Arith<V>, ctx: Context<V>, body: seq<Op>, depth: nat, k: nat, count: U32, s: seq<V>, buf: Buffer<V>)
    requires AllBufferless(body) && buf.Valid() && k <= count && IndexedTimes(m, ctx, body, depth, k, count, s).Some?
    ensures Iterate(m, ctx, body, k, count, State(s, buf))
            == Some(State(IndexedTimes(m, ctx, body, depth, k, count, s).value, buf))
    decreases |body|, 1 + count - k
  {
    hide Run, Indexed;
    if k < count {
      IndexedIsDispatch(m, ctx, body, depth, s + [m.fromU32(k)], buf);
      IterationsAreDispatch(m, ctx, body, depth, k + 1, count, Indexed(m, ctx, body, depth, s + [m.fromU32(k)]).value, buf);
    }
  }

  // ------------------------------------------------------------- compiled and cut

  lemma ScalarIsPlain(ops: seq<Op>)
    requires AllScalar(ops)
    ensures LoopFree(ops) && !UsesCounterLoops(ops)
  {
  }

  /** A DAG compiled, cut into fragments of any size and evaluated as a graph gives its recursive value. */
  lemma FragmentedDag<V>(m: Arith<V>, ctx: Context<V>, dag: NodeSoA, root: nat, threshold: nat)
    requires dag.Valid() && root < dag.Size()
    ensures GraphValue(m, ctx, Greedy(Linearized(dag, root), OpBytes(), threshold))
            == Some(Eval(m, dag, ContextEnv(m, ctx), root))
  {
    hide Eval, GraphValue, Greedy, Linearized, Evaluated, UsesCounterLoops, LoopFree;
    var ops := Linearized(dag, root);
    LinearizeCorrect(m, ContextEnv(m, ctx), dag, root, []);
    ScalarIsPlain(ops);
    LoopFreeFragmentation(m, ctx, ops, threshold);
    LinearizedOnFragments(m, ctx, dag, root, [], 0);
  }

  // ------------------------------------------------------------ whole evaluations

  /** A program needs counters exactly when it holds an opcode that version 2 of the file format lacks. */
  lemma CountersAreNewer(ops: seq<Op>)
    ensures UsesCounterLoops(ops) <==> exists k :: 0 <= k < |ops| && FormatTable.EntryOf(ops[k]).since > 2
  {
    if UsesCounterLoops(ops) {
      var k :| 0 <= k < |ops| && (ops[k].ContextVarIndexed? || ops[k].ContextConstIndexed? || ops[k].FMax?);
      assert FormatTable.EntryOf(ops[k]).since > 2;
    }
  }

  lemma AnyCounterIsNewer(fragments: seq<seq<Op>>)
    ensures AnyCounter(fragments)
            <==> exists i, k :: 0 <= i < |fragments| && 0 <= k < |fragments[i]| && FormatTable.EntryOf(fragments[i][k]).since > 2
  {
    hide UsesCounterLoops;
    forall i | 0 <= i < |fragments|
      ensures UsesCounterLoops(fragments[i])
              <==> exists k :: 0 <= k < |fragments[i]| && FormatTable.EntryOf(fragments[i][k]).since > 2
    {
      CountersAreNewer(fragments[i]);
    }
  }

  /** One fragment under the interpreter that the whole graph uses. */
  function Ran<V>(m: Arith<V>, ctx: Context<V>, ops: seq<Op>, indexed: bool, s: seq<V>): Option<seq<V>> {
    if indexed then Indexed(m, ctx, ops, 0, s) else Evaluated(m, ctx, ops, s)
  }

  /** The stacks before and after each of the first fragments. */
  ghost predicate Trace<V>(m: Arith<V>, ctx: Context<V>, fragments: seq<seq<Op>>, indexed: bool, stacks: seq<seq<V>>) {
    && 1 <= |stacks| <= |fragments| + 1
    && forall i :: 0 <= i < |stacks| - 1 ==> Ran(m, ctx, fragments[i], indexed, stacks[i]) == Some(stacks[i + 1])
  }

  function Chained<V>(m: Arith<V>, ctx: Context<V>, fragments: seq<seq<Op>>, indexed: bool, s: seq<V>): Option<seq<V>> {
    if indexed then IndexedAll(m, ctx, fragments, s) else PlainAll(m, ctx, fragments, s)
  }

  lemma ChainedStep<V>(m: Arith<V>, ctx: Context<V>, fragments: seq<seq<Op>>, indexed: bool, k: nat, s: seq<V>)
    requires k <= |fragments| && (indexed || !AnyCounter(fragments))
    ensures k == |fragments| ==> Chained(m, ctx, fragments[k..], indexed, s) == Some(s)
    ensures k < |fragments| ==>
              Chained(m, ctx, fragments[k..], indexed, s)
              == match Ran(m, ctx, fragments[k], indexed, s)
                 case None => None
                 case Some(next) => Chained(m, ctx, fragments[k + 1..], indexed, next)
  {
    hide Indexed, Evaluated, UsesCounterLoops;
    if k < |fragments| {
      assert fragments[k..][0] == fragments[k] && fragments[k..][1..] == fragments[k + 1..];
    }
  }

  lemma {:induction false} ChainedFollows<V>(
      m: Arith<V>, ctx: Context<V>, fragments: seq<seq<Op>>, indexed: bool, stacks: seq<seq<V>>, k: nat)
    requires Trace(m, ctx, fragments, indexed, stacks) && k < |stacks| && (indexed || !AnyCounter(fragments))
    ensures Chained(m, ctx, fragments, indexed, stacks[0]) == Chained(m, ctx, fragments[k..], indexed, stacks[k])
    decreases k
  {
    hide Chained, Ran, AnyCounter;
    if k == 0 {
      assert fragments[0..] == fragments;
    } else {
      ChainedFollows(m, ctx, fragments, indexed, stacks, k - 1);
      ChainedStep(m, ctx, fragments, indexed, k - 1, stacks[k - 1]);
    }
  }

  /**
   A graph is evaluated fragment by fragment over one stack that starts empty, under the
   counter interpreter for all of them exactly when some opcode is newer than version 2.
   The value is the top of the last stack, or NaN if that is empty. A fragment that fails
   gives NaN under the counter interpreter and a panic under the other.
   */
  lemma GraphByTrace<V>(m: Arith<V>, ctx: Context<V>, fragments: seq<seq<Op>>, indexed: bool, stacks: seq<seq<V>>)
    requires indexed <==>
               exists i, k :: 0 <= i < |fragments| && 0 <= k < |fragments[i]| && FormatTable.EntryOf(fragments[i][k]).since > 2
    requires Trace(m, ctx, fragments, indexed, stacks) && stacks[0] == []
    ensures var n := |stacks| - 1;
            && (n == |fragments| ==>
                  GraphValue(m, ctx, fragments) == Some(if stacks[n] == [] then m.nan else stacks[n][|stacks[n]| - 1]))
            && (n < |fragments| && Ran(m, ctx, fragments[n], indexed, stacks[n]).None? ==>
                  GraphValue(m, ctx, fragments) == if indexed then Some(m.nan) else None)
  {
    hide Ran, Trace, PlainAll, IndexedAll, AnyCounter, FormatTable.EntryOf;
    var n := |stacks| - 1;
    AnyCounterIsNewer(fragments);
    TraceLength(m, ctx, fragments, indexed, stacks);
    ChainedFollows(m, ctx, fragments, indexed, stacks, n);
    ChainedStep(m, ctx, fragments, indexed, n, stacks[n]);
  }

  lemma TraceLength<V>(m: Arith<V>, ctx: Context<V>, fragments: seq<seq<Op>>, indexed: bool, stacks: seq<seq<V>>)
    requires Trace(m, ctx, fragments, indexed, stacks)
    ensures 1 <= |stacks| <= |fragments| + 1
  {
  }
}
