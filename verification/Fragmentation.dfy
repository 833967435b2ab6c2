/**
 `fragment_program` cuts a program into cache-sized fragments and `BmlGraph::evaluate`
 runs them in order over one stack.
 */
module Fragmentation {
  import opened Wrappers
  import opened Machine
  import opened HotLoop
  import opened FragmentEval
  import opened Chunking

  // size_of::<RpnOp>(): three 32-bit words.

  function OpBytes(): Op -> nat {
    (op: Op) => OP_BYTES
  }

  /** `fragment_program`, as a list of op lists. */
  method FragmentProgram(ops: seq<Op>, threshold: nat) returns (fragments: seq<seq<Op>>)
    ensures fragments == Greedy(ops, OpBytes(), threshold)
  {
    hide Greedy, Total;
    fragments := [];
    var current: seq<Op> := [];
    assert current + ops[0..] == ops;
    for i := 0 to |ops|
      invariant Greedy(ops, OpBytes(), threshold) == fragments + Greedy(current + ops[i..], OpBytes(), threshold)
      invariant Open(current, OpBytes(), threshold) && |current| <= i && (i > 0 ==> current != [])
    {
      var op := ops[i];
      assert current + ops[i..] == current + [op] + ops[i + 1..];
      UniformTotal(current);
      if |current| * OP_BYTES + OP_BYTES > threshold && current != [] {
        CloseStep(current, op, ops[i + 1..], OpBytes(), threshold);
        fragments := fragments + [current];
        current := [];
        assert [op] + ops[i + 1..] == current + [op] + ops[i + 1..];
      }
      OpenPush(current, op, OpBytes(), threshold);
      current := current + [op];
    }
    assert current + ops[|ops|..] == current;
    NothingLeft(threshold);
    if current != [] {
      CloseLast(current, OpBytes(), threshold);
      fragments := fragments + [current];
    }
  }

  lemma NothingLeft(threshold: nat)
    ensures Greedy([], OpBytes(), threshold) == [] && Total([], OpBytes()) == 0
  {
  }

  lemma {:induction false} UniformTotal(ops: seq<Op>)
    ensures Total(ops, OpBytes()) == |ops| * OP_BYTES
    decreases |ops|
  {
    if ops != [] {
      UniformTotal(ops[..|ops| - 1]);
    }
  }

  /** Fragments concatenate to the program, none is empty, each fits when a single op does. */
  lemma FragmentsFit(ops: seq<Op>, threshold: nat)
    ensures Concat(Greedy(ops, OpBytes(), threshold)) == ops
    ensures forall f :: f in Greedy(ops, OpBytes(), threshold) ==> f != [] && (12 <= threshold ==> 12 * |f| <= threshold)
  {
    GreedyLossless(ops, OpBytes(), threshold);
    if OP_BYTES <= threshold {
      GreedyBounded(ops, OpBytes(), threshold);
    }
    forall f | f in Greedy(ops, OpBytes(), threshold) && OP_BYTES <= threshold ensures |f| * OP_BYTES <= threshold {
      UniformTotal(f);
    }
  }

  // ------------------------------------------------------------------------ evaluation

  /** The final value: the top of the stack or NaN; None is a panic. */
  function Delivered<V>(m: Arith<V>, r: Option<seq<V>>): Option<V> {
    match r case None => None case Some(s) => Some(TopOr(s, m.nan))
  }

  /** `RpnProgram::evaluate_with_ctx` on the uncut program. */
  function ProgramValue<V>(m: Arith<V>, ctx: Context<V>, ops: seq<Op>): Option<V> {
    if UsesCounterLoops(ops) then
      match Indexed(m, ctx, ops, 0, []) case None => Some(m.nan) case Some(s) => Some(TopOr(s, m.nan))
    else Delivered(m, Evaluated(m, ctx, ops, []))
  }

  predicate AnyCounter(fragments: seq<seq<Op>>) {
    exists k :: 0 <= k < |fragments| && UsesCounterLoops(fragments[k])
  }

  /** Counter evaluation of all fragments in order over one stack. */
  function IndexedAll<V>(m: Arith<V>, ctx: Context<V>, fragments: seq<seq<Op>>, s: seq<V>): Option<seq<V>> {
    if fragments == [] then Some(s)
    else
      var s' :- Indexed(m, ctx, fragments[0], 0, s);
      IndexedAll(m, ctx, fragments[1..], s')
  }

  function PlainAll<V>(m: Arith<V>, ctx: Context<V>, fragments: seq<seq<Op>>, s: seq<V>): Option<seq<V>> {
    if fragments == [] then Some(s)
    else
      var s' :- FragmentResult(m, ctx, fragments[0], s);
      PlainAll(m, ctx, fragments[1..], s')
  }

  /** `BmlGraph::evaluate`: one counter program makes every fragment run with counters. */
  function GraphValue<V>(m: Arith<V>, ctx: Context<V>, fragments: seq<seq<Op>>): Option<V> {
    if AnyCounter(fragments) then
      match IndexedAll(m, ctx, fragments, []) case None => Some(m.nan) case Some(s) => Some(TopOr(s, m.nan))
    else Delivered(m, PlainAll(m, ctx, fragments, []))
  }

  method EvaluateGraph<V>(m: Arith<V>, x: V, constPool: seq<V>, fragments: seq<seq<Op>>) returns (r: Option<V>)
    ensures r == GraphValue(m, Context([x], constPool), fragments)
  {
    var ctx := Context([x], constPool);
    var stack := new ValueStack<V>();
    var indexed := AnyCounter(fragments);
    for i := 0 to |fragments|
      invariant indexed ==> IndexedAll(m, ctx, fragments, []) == IndexedAll(m, ctx, fragments[i..], stack.values)
      invariant !indexed ==> PlainAll(m, ctx, fragments, []) == PlainAll(m, ctx, fragments[i..], stack.values)
    {
      assert fragments[i..][1..] == fragments[i + 1..];
      var ok;
      if indexed {
        ok := RunIndexed(m, ctx, fragments[i], 0, stack);
        if !ok {
          return Some(m.nan);
        }
      } else {
        ok := EvaluateOnStackWithCtx(m, ctx, fragments[i], stack);
        if !ok {
          return None;
        }
      }
    }
    assert fragments[|fragments|..] == [];
    r := Some(TopOr(stack.values, m.nan));
  }

  // ------------------------------------------------------ cuts between top-level items

  /** Position `k` does not lie inside a top-level loop or its body. */
  predicate Boundary(ops: seq<Op>, k: nat)
    decreases |ops|
  {
    if k == 0 then true
    else if ops == [] then false
    else
      var end := if ops[0].Loop? then 1 + ops[0].bodyLen else 1;
      end <= |ops| && end <= k && Boundary(ops[end..], k - end)
  }

  lemma {:induction false} LoopFreeBoundary(ops: seq<Op>, k: nat)
    requires LoopFree(ops) && k <= |ops|
    ensures Boundary(ops, k)
    decreases |ops|
  {
    if k > 0 {
      LoopFreeBoundary(ops[1..], k - 1);
    }
  }

  lemma {:induction false} LoopFreeNested(ops: seq<Op>, depth: nat)
    requires LoopFree(ops)
    ensures WellNested(ops, depth)
    decreases |ops|
  {
    if ops != [] {
      LoopFreeNested(ops[1..], depth);
    }
  }

  /** The length of the first top-level item: an opcode, or a loop with its body. */
  function ItemLen(ops: seq<Op>): nat
    requires ops != []
  {
    if ops[0].Loop? then 1 + ops[0].bodyLen else 1
  }

  lemma FirstItem(ops: seq<Op>, depth: nat)
    requires ops != [] && ItemLen(ops) <= |ops|
    ensures WellNested(ops, depth) <==> WellNested(ops[..ItemLen(ops)], depth) && WellNested(ops[ItemLen(ops)..], depth)
    ensures WellNested(ops, depth) ==>
              Unroll(ops, depth) == Unroll(ops[..ItemLen(ops)], depth) + Unroll(ops[ItemLen(ops)..], depth)
  {
    var end := ItemLen(ops);
    var item := ops[..end];
    assert item[end..] == [] && item[1..end] == ops[1..end];
  }

  lemma {:induction false} BoundarySplit(ops: seq<Op>, k: nat, depth: nat)
    requires Boundary(ops, k) && k <= |ops| && WellNested(ops, depth)
    ensures WellNested(ops[..k], depth) && WellNested(ops[k..], depth)
    ensures Unroll(ops, depth) == Unroll(ops[..k], depth) + Unroll(ops[k..], depth)
    decreases |ops|, 1
  {
    if k == 0 {
      assert ops[0..] == ops;
    } else {
      BoundaryStep(ops, k, depth);
    }
  }

  lemma BoundaryHead(ops: seq<Op>, k: nat)
    requires Boundary(ops, k) && 0 < k <= |ops|
    ensures ItemLen(ops) <= k && ItemLen(ops[..k]) == ItemLen(ops) && Boundary(ops[ItemLen(ops)..], k - ItemLen(ops))
  {
  }

  lemma {:induction false} BoundaryStep(ops: seq<Op>, k: nat, depth: nat)
    requires Boundary(ops, k) && 0 < k <= |ops| && WellNested(ops, depth)
    ensures WellNested(ops[..k], depth) && WellNested(ops[k..], depth)
    ensures Unroll(ops, depth) == Unroll(ops[..k], depth) + Unroll(ops[k..], depth)
    decreases |ops|, 0
  {
    hide WellNested, Unroll, Boundary;
    BoundaryHead(ops, k);
    var end := ItemLen(ops);
    var head, tail := ops[..k], ops[end..];
    assert head[..end] == ops[..end] && head[end..] == tail[..k - end] && tail[k - end..] == ops[k..];
    FirstItem(ops, depth);
    FirstItem(head, depth);
    BoundarySplit(tail, k - end, depth);
  }

  /** Running the two parts of a clean cut in order is running the whole. */
  lemma EvaluatedSplit<V>(m: Arith<V>, ctx: Context<V>, ops: seq<Op>, k: nat, s: seq<V>)
    requires Boundary(ops, k) && k <= |ops| && WellNested(ops, MAX_NESTING)
    ensures Evaluated(m, ctx, ops, s) ==
            match Evaluated(m, ctx, ops[..k], s) case None => None case Some(s') => Evaluated(m, ctx, ops[k..], s')
  {
    BoundarySplit(ops, k, MAX_NESTING);
    InterpreterUnrolls(m, ctx, ops, s);
    InterpreterUnrolls(m, ctx, ops[..k], s);
    FlatConcat(m, ctx, Unroll(ops[..k], MAX_NESTING), Unroll(ops[k..], MAX_NESTING), s);
    match Evaluated(m, ctx, ops[..k], s)
    case None =>
    case Some(s') => InterpreterUnrolls(m, ctx, ops[k..], s');
  }

  lemma {:induction false} IndexedSplit<V>(m: Arith<V>, ctx: Context<V>, ops: seq<Op>, k: nat, s: seq<V>)
    requires Boundary(ops, k) && k <= |ops|
    ensures Indexed(m, ctx, ops, 0, s) ==
            match Indexed(m, ctx, ops[..k], 0, s) case None => None case Some(s') => Indexed(m, ctx, ops[k..], 0, s')
    decreases |ops|
  {
    hide IndexedStep;
    if k == 0 {
      assert ops[0..] == ops && ops[..0] == [];
    } else {
      var end := if ops[0].Loop? then 1 + ops[0].bodyLen else 1;
      assert ops[..k][end..] == ops[end..][..k - end] && ops[end..][k - end..] == ops[k..];
      var first := if ops[0].Loop? then IndexedTimes(m, ctx, ops[1..end], 1, 0, ops[0].count, s) else IndexedStep(m, ctx, ops[0], s);
      assert ops[0].Loop? ==> ops[..k][1..end] == ops[1..end];
      match first
      case None =>
      case Some(s') => IndexedSplit(m, ctx, ops[end..], k - end, s');
    }
  }

  /** Every cut of the fragmentation lies between top-level items. */
  ghost predicate CleanCuts(fragments: seq<seq<Op>>)
    decreases |fragments|
  {
    |fragments| > 1 ==> Boundary(Concat(fragments), |fragments[0]|) && CleanCuts(fragments[1..])
  }

  lemma {:induction false} LoopFreeCuts(fragments: seq<seq<Op>>)
    requires LoopFree(Concat(fragments))
    ensures CleanCuts(fragments)
    decreases |fragments|
  {
    if |fragments| > 1 {
      var whole := Concat(fragments);
      LoopFreeBoundary(whole, |fragments[0]|);
      assert whole[|fragments[0]|..] == Concat(fragments[1..]);
      LoopFreeCuts(fragments[1..]);
    }
  }

  lemma {:induction false} IndexedFragments<V>(m: Arith<V>, ctx: Context<V>, fragments: seq<seq<Op>>, s: seq<V>)
    requires CleanCuts(fragments)
    ensures IndexedAll(m, ctx, fragments, s) == Indexed(m, ctx, Concat(fragments), 0, s)
    decreases |fragments|
  {
    if |fragments| == 1 {
      assert Concat(fragments) == fragments[0] + [] == fragments[0];
      match Indexed(m, ctx, fragments[0], 0, s)
      case None =>
      case Some(s') => assert IndexedAll(m, ctx, fragments[1..], s') == Some(s');
    } else if |fragments| > 1 {
      var whole, n := Concat(fragments), |fragments[0]|;
      assert whole[..n] == fragments[0] && whole[n..] == Concat(fragments[1..]);
      IndexedSplit(m, ctx, whole, n, s);
      match Indexed(m, ctx, fragments[0], 0, s)
      case None =>
      case Some(s') => IndexedFragments(m, ctx, fragments[1..], s');
    }
  }

  lemma {:induction false} PlainFragments<V>(m: Arith<V>, ctx: Context<V>, fragments: seq<seq<Op>>, s: seq<V>)
    requires CleanCuts(fragments) && WellNested(Concat(fragments), MAX_NESTING) && !AnyCounter(fragments)
    ensures PlainAll(m, ctx, fragments, s) == Evaluated(m, ctx, Concat(fragments), s)
    decreases |fragments|, 1
  {
    if |fragments| == 1 {
      assert Concat(fragments) == fragments[0] + [] == fragments[0];
      assert !UsesCounterLoops(fragments[0]);
      match Evaluated(m, ctx, fragments[0], s)
      case None =>
      case Some(s') => assert PlainAll(m, ctx, fragments[1..], s') == Some(s');
    } else if |fragments| > 1 {
      PlainStep(m, ctx, fragments, s);
    }
  }

  lemma {:induction false} PlainStep<V>(m: Arith<V>, ctx: Context<V>, fragments: seq<seq<Op>>, s: seq<V>)
    requires |fragments| > 1
    requires CleanCuts(fragments) && WellNested(Concat(fragments), MAX_NESTING) && !AnyCounter(fragments)
    ensures PlainAll(m, ctx, fragments, s) == Evaluated(m, ctx, Concat(fragments), s)
    decreases |fragments|, 0
  {
    hide Evaluated, UsesCounterLoops, WellNested;
    var whole, n := Concat(fragments), |fragments[0]|;
    var rest := fragments[1..];
    assert whole[..n] == fragments[0] && whole[n..] == Concat(rest);
    EvaluatedSplit(m, ctx, whole, n, s);
    BoundarySplit(whole, n, MAX_NESTING);
    assert !UsesCounterLoops(fragments[0]);
    assert forall k :: 0 <= k < |rest| ==> rest[k] == fragments[k + 1];
    assert FragmentResult(m, ctx, fragments[0], s) == Evaluated(m, ctx, fragments[0], s);
    match Evaluated(m, ctx, fragments[0], s)
    case None =>
    case Some(s') => PlainFragments(m, ctx, rest, s');
  }

  lemma {:induction false} CounterFragments(fragments: seq<seq<Op>>)
    ensures AnyCounter(fragments) <==> UsesCounterLoops(Concat(fragments))
    decreases |fragments|
  {
    if fragments != [] {
      var rest := fragments[1..];
      CounterFragments(rest);
      CounterConcat(fragments[0], Concat(rest));
      assert forall k :: 0 <= k < |rest| ==> rest[k] == fragments[k + 1];
      if AnyCounter(fragments) && !UsesCounterLoops(fragments[0]) {
        var k :| 0 <= k < |fragments| && UsesCounterLoops(fragments[k]);
        assert rest[k - 1] == fragments[k];
      }
    }
  }

  lemma CounterConcat(a: seq<Op>, b: seq<Op>)
    ensures UsesCounterLoops(a + b) <==> UsesCounterLoops(a) || UsesCounterLoops(b)
  {
    if UsesCounterLoops(b) {
      var k :| 0 <= k < |b| && (b[k].ContextVarIndexed? || b[k].ContextConstIndexed? || b[k].FMax?);
      assert (a + b)[|a| + k] == b[k];
    }
    if UsesCounterLoops(a) {
      var k :| 0 <= k < |a| && (a[k].ContextVarIndexed? || a[k].ContextConstIndexed? || a[k].FMax?);
      assert (a + b)[k] == a[k];
    }
  }

  /**
   Fragmentation preserves evaluation: when no cut falls inside a loop, the fragmented
   graph delivers what the uncut program delivers, on either interpreter, panics included.
   */
  lemma FragmentationPreserves<V>(m: Arith<V>, ctx: Context<V>, ops: seq<Op>, threshold: nat)
    requires WellNested(ops, MAX_NESTING) && CleanCuts(Greedy(ops, OpBytes(), threshold))
    ensures GraphValue(m, ctx, Greedy(ops, OpBytes(), threshold)) == ProgramValue(m, ctx, ops)
  {
    hide UsesCounterLoops, Greedy, Evaluated, AnyCounter;
    var fragments := Greedy(ops, OpBytes(), threshold);
    GreedyLossless(ops, OpBytes(), threshold);
    CounterFragments(fragments);
    if AnyCounter(fragments) {
      IndexedFragments(m, ctx, fragments, []);
    } else {
      PlainFragments(m, ctx, fragments, []);
    }
  }

  /** Loop-free programs are always cut cleanly. */
  lemma LoopFreeFragmentation<V>(m: Arith<V>, ctx: Context<V>, ops: seq<Op>, threshold: nat)
    requires LoopFree(ops)
    ensures GraphValue(m, ctx, Greedy(ops, OpBytes(), threshold)) == ProgramValue(m, ctx, ops)
  {
    GreedyLossless(ops, OpBytes(), threshold);
    LoopFreeCuts(Greedy(ops, OpBytes(), threshold));
    LoopFreeNested(ops, MAX_NESTING);
    FragmentationPreserves(m, ctx, ops, threshold);
  }

  // ------------------------------------------------------- exactly the clean cuts work

  /** A loop whose body leaves the program is not empty of iterations. */
  ghost predicate OpenLoopsRun(ops: seq<Op>) {
    forall k :: 0 <= k < |ops| && ops[k].Loop? && k + 1 + ops[k].bodyLen > |ops| ==> ops[k].count > 0
  }

  /** No cut falls inside a loop of zero iterations. */
  ghost predicate NoEmptyCut(fragments: seq<seq<Op>>) {
    forall k :: 0 <= k < |fragments| ==> OpenLoopsRun(fragments[k])
  }

  /** A level whose range runs off the program's end panics, whatever the stack. */
  lemma {:induction false} RunsOff<V>(m: Arith<V>, ctx: Context<V>, ops: seq<Op>, i: nat, hi: nat, depth: nat, s: seq<V>)
    requires depth <= MAX_NESTING && i < hi && |ops| < hi && OpenLoopsRun(ops)
    ensures Level(m, ctx, ops, i, hi, depth, s) == None
    decreases MAX_NESTING - depth, hi - i
  {
    if i < |ops| {
      if !ops[i].Loop? {
        match FragStep(m, ctx, ops[i], s)
        case None =>
        case Some(s') => RunsOff(m, ctx, ops, i + 1, hi, depth, s');
      } else if depth < MAX_NESTING {
        LoopRunsOff(m, ctx, ops, i, hi, depth, s);
      }
    }
  }

  lemma {:induction false} LoopRunsOff<V>(m: Arith<V>, ctx: Context<V>, ops: seq<Op>, i: nat, hi: nat, depth: nat, s: seq<V>)
    requires depth < MAX_NESTING && i < hi && |ops| < hi && OpenLoopsRun(ops) && i < |ops| && ops[i].Loop?
    ensures Level(m, ctx, ops, i, hi, depth, s) == None
    decreases MAX_NESTING - depth, hi - i, 0
  {
    var end := i + 1 + ops[i].bodyLen;
    if end > |ops| {
      RunsOff(m, ctx, ops, i + 1, end, depth + 1, s);
      assert Times(m, ctx, ops, i + 1, end, depth + 1, 0, ops[i].count, s) == None;
    } else {
      match Times(m, ctx, ops, i + 1, end, depth + 1, 0, ops[i].count, s)
      case None =>
      case Some(s') => RunsOff(m, ctx, ops, end, hi, depth, s');
    }
  }

  /** A program that ends inside one of its top-level loops panics. */
  lemma {:induction false} CutLoopPanics<V>(m: Arith<V>, ctx: Context<V>, ops: seq<Op>, i: nat, s: seq<V>)
    requires OpenLoopsRun(ops) && i <= |ops| && !Boundary(ops[i..], |ops| - i)
    ensures Level(m, ctx, ops, i, |ops|, 0, s) == None
    decreases |ops| - i
  {
    if ops[i].Loop? {
      var end := i + 1 + ops[i].bodyLen;
      if end > |ops| {
        RunsOff(m, ctx, ops, i + 1, end, 1, s);
        assert Times(m, ctx, ops, i + 1, end, 1, 0, ops[i].count, s) == None;
      } else {
        assert ops[i..][1 + ops[i].bodyLen..] == ops[end..];
        match Times(m, ctx, ops, i + 1, end, 1, 0, ops[i].count, s)
        case None =>
        case Some(s') => CutLoopPanics(m, ctx, ops, end, s');
      }
    } else {
      assert ops[i..][1..] == ops[i + 1..];
      match FragStep(m, ctx, ops[i], s)
      case None =>
      case Some(s') => CutLoopPanics(m, ctx, ops, i + 1, s');
    }
  }

  /** The checked interpreter refuses such a program even when the loop is empty. */
  lemma {:induction false} CutLoopRefused<V>(m: Arith<V>, ctx: Context<V>, ops: seq<Op>, s: seq<V>)
    requires !Boundary(ops, |ops|)
    ensures Indexed(m, ctx, ops, 0, s) == None
    decreases |ops|
  {
    hide IndexedStep;
    if ops[0].Loop? {
      var end := 1 + ops[0].bodyLen;
      if end <= |ops| {
        match IndexedTimes(m, ctx, ops[1..end], 1, 0, ops[0].count, s)
        case None =>
        case Some(s') => CutLoopRefused(m, ctx, ops[end..], s');
      }
    } else {
      match IndexedStep(m, ctx, ops[0], s)
      case None =>
      case Some(s') => CutLoopRefused(m, ctx, ops[1..], s');
    }
  }

  lemma {:induction false} BoundaryOfPrefix(ops: seq<Op>, k: nat)
    requires k <= |ops|
    ensures Boundary(ops, k) <==> Boundary(ops[..k], k)
    decreases |ops|
  {
    if k > 0 {
      var end := ItemLen(ops);
      if end <= k {
        assert ops[..k][end..] == ops[end..][..k - end];
        BoundaryOfPrefix(ops[end..], k - end);
      }
    }
  }

  /** One cut inside a loop, and the graph fails. */
  lemma {:induction false} DirtyCutFails<V>(m: Arith<V>, ctx: Context<V>, fragments: seq<seq<Op>>, s: seq<V>)
    requires !CleanCuts(fragments)
    ensures IndexedAll(m, ctx, fragments, s) == None
    ensures NoEmptyCut(fragments) && !AnyCounter(fragments) ==> PlainAll(m, ctx, fragments, s) == None
    decreases |fragments|
  {
    hide UsesCounterLoops, Boundary, OpenLoopsRun;
    var whole, first, rest := Concat(fragments), fragments[0], fragments[1..];
    assert whole[..|first|] == first && whole[|first|..] == Concat(rest);
    if !Boundary(whole, |first|) {
      BoundaryOfPrefix(whole, |first|);
      CutLoopRefused(m, ctx, first, s);
      if NoEmptyCut(fragments) && !AnyCounter(fragments) {
        assert first[0..] == first && !UsesCounterLoops(first);
        CutLoopPanics(m, ctx, first, 0, s);
      }
    } else {
      if NoEmptyCut(fragments) && !AnyCounter(fragments) {
        assert forall k :: 0 <= k < |rest| ==> rest[k] == fragments[k + 1];
        match FragmentResult(m, ctx, first, s)
        case None =>
        case Some(s') => DirtyCutFails(m, ctx, rest, s');
      }
      match Indexed(m, ctx, first, 0, s)
      case None =>
      case Some(s') => DirtyCutFails(m, ctx, rest, s');
    }
  }

  /** The stack a graph leaves, on either interpreter; None is an error or a panic. */
  function GraphStack<V>(m: Arith<V>, ctx: Context<V>, fragments: seq<seq<Op>>): Option<seq<V>> {
    if AnyCounter(fragments) then IndexedAll(m, ctx, fragments, []) else PlainAll(m, ctx, fragments, [])
  }

  function ProgramStack<V>(m: Arith<V>, ctx: Context<V>, ops: seq<Op>): Option<seq<V>> {
    if UsesCounterLoops(ops) then Indexed(m, ctx, ops, 0, []) else Evaluated(m, ctx, ops, [])
  }

  /**
   Exactly when: for a program that evaluates, fragmentation preserves its stack if and only
   if no cut falls inside a loop. On the uncounted path this leaves out cuts inside a loop of
   zero iterations, which may go unnoticed.
   */
  lemma FragmentationExact<V>(m: Arith<V>, ctx: Context<V>, ops: seq<Op>, threshold: nat)
    requires WellNested(ops, MAX_NESTING) && ProgramStack(m, ctx, ops).Some?
    requires UsesCounterLoops(ops) || NoEmptyCut(Greedy(ops, OpBytes(), threshold))
    ensures GraphStack(m, ctx, Greedy(ops, OpBytes(), threshold)) == ProgramStack(m, ctx, ops)
            <==> CleanCuts(Greedy(ops, OpBytes(), threshold))
  {
    hide UsesCounterLoops, Greedy, Evaluated, AnyCounter, NoEmptyCut, CleanCuts, WellNested;
    var fragments := Greedy(ops, OpBytes(), threshold);
    GreedyLossless(ops, OpBytes(), threshold);
    CounterFragments(fragments);
    if !CleanCuts(fragments) {
      DirtyCutFails(m, ctx, fragments, []);
    } else if AnyCounter(fragments) {
      IndexedFragments(m, ctx, fragments, []);
    } else {
      PlainFragments(m, ctx, fragments, []);
    }
  }

  /** A cut inside a loop is not harmless: the loop's fragment runs off its own end. */
  lemma CutLoopGoesWrong<V>(m: Arith<V>, ctx: Context<V>)
    ensures var ops: seq<Op> := [Loop(2, 1), One];
            && WellNested(ops, MAX_NESTING) && ProgramStack(m, ctx, ops) == Some([m.one, m.one])
            && Greedy(ops, OpBytes(), OP_BYTES) == [[Loop(2, 1)], [One]]
            && GraphStack(m, ctx, Greedy(ops, OpBytes(), OP_BYTES)) == None
  {
    hide Level;
    var ops: seq<Op> := [Loop(2, 1), One];
    LoopRunsTwice(m, ctx);
    SmallLoop(2, One);
    var cut: seq<seq<Op>> := [[Loop(2, 1)], [One]];
    assert cut[1..] == [[One]] && Concat(cut[1..]) == [One] && Concat(cut) == ops;
    DirtyCutFails(m, ctx, cut, []);
  }

  lemma SmallLoop(count: U32, op: Op)
    requires !op.Loop?
    ensures var ops: seq<Op> := [Loop(count, 1), op];
            && WellNested(ops, MAX_NESTING)
            && Greedy(ops, OpBytes(), OP_BYTES) == [[Loop(count, 1)], [op]] && !CleanCuts([[Loop(count, 1)], [op]])
  {
    var ops: seq<Op> := [Loop(count, 1), op];
    var cut: seq<seq<Op>> := [[Loop(count, 1)], [op]];
    assert ops[1..2] == [op] && ops[2..] == [] && [op][1..] == [] && [op][..1] == [op];
    assert WellNested([op], 1);
    assert Extend(ops, OpBytes(), OP_BYTES, 1, OP_BYTES) == 1;
    assert ops[..1] == [Loop(count, 1)] && ops[1..] == [op];
    assert Greedy([op], OpBytes(), OP_BYTES) == [[op]];
    assert cut[1..] == [[op]] && Concat(cut[1..]) == [op] && Concat(cut) == ops;
  }

  lemma SinglePlain<V>(m: Arith<V>, ctx: Context<V>, op: Op, s: seq<V>)
    requires !op.Loop? && !UsesCounterLoops([op])
    ensures Evaluated(m, ctx, [op], s) == FragStep(m, ctx, op, s)
    ensures PlainAll(m, ctx, [[op]], s) == FragStep(m, ctx, op, s)
  {
    hide FragStep;
    assert [[op]][1..] == [];
    match FragStep(m, ctx, op, s)
    case None => assert Evaluated(m, ctx, [op], s) == None;
    case Some(s') => assert Level(m, ctx, [op], 1, 1, 0, s') == Some(s') && PlainAll(m, ctx, [], s') == Some(s');
  }

  /** A cut inside an empty loop runs the loop's body once: the next fragment starts with it. */
  lemma EmptyLoopCut<V>(m: Arith<V>, ctx: Context<V>, op: Op)
    requires !op.Loop? && !UsesCounterLoops([op])
    ensures ProgramStack(m, ctx, [Loop(0, 1), op]) == Some([])
    ensures GraphStack(m, ctx, [[Loop(0, 1)], [op]]) == FragStep(m, ctx, op, [])
  {
    hide FragStep;
    var ops: seq<Op> := [Loop(0, 1), op];
    var cut: seq<seq<Op>> := [[Loop(0, 1)], [op]];
    assert [op][0] == op;
    assert !UsesCounterLoops(ops) && !UsesCounterLoops(cut[0]) && !AnyCounter(cut);
    assert Level(m, ctx, ops, 2, 2, 0, []) == Some([]);
    assert Evaluated(m, ctx, [Loop(0, 1)], []) == Some([]);
    assert cut[1..] == [[op]];
    SinglePlain(m, ctx, op, []);
    assert PlainAll(m, ctx, cut, []) == PlainAll(m, ctx, [[op]], []);
  }

  /** Such a cut may change the result, and it may not. */
  lemma EmptyLoopMayBeNoticed<V>(m: Arith<V>, ctx: Context<V>)
    ensures var noticed, unnoticed: seq<Op> := [Loop(0, 1), One], [Loop(0, 1), Drop];
            && GraphStack(m, ctx, Greedy(noticed, OpBytes(), OP_BYTES)) != ProgramStack(m, ctx, noticed)
            && GraphStack(m, ctx, Greedy(unnoticed, OpBytes(), OP_BYTES)) == ProgramStack(m, ctx, unnoticed)
            && !CleanCuts(Greedy(unnoticed, OpBytes(), OP_BYTES))
  {
    SmallLoop(0, One);
    SmallLoop(0, Drop);
    EmptyLoopCut(m, ctx, One);
    EmptyLoopCut(m, ctx, Drop);
  }

  lemma LoopRunsTwice<V>(m: Arith<V>, ctx: Context<V>)
    ensures Evaluated(m, ctx, [Loop(2, 1), One], []) == Some([m.one, m.one])
  {
    var ops: seq<Op> := [Loop(2, 1), One];
    assert [] + [m.one] == [m.one] && [m.one] + [m.one] == [m.one, m.one];
    assert Level(m, ctx, ops, 1, 2, 1, []) == Some([m.one]);
    assert Level(m, ctx, ops, 1, 2, 1, [m.one]) == Some([m.one, m.one]);
    assert Times(m, ctx, ops, 1, 2, 1, 1, 2, [m.one]) == Some([m.one, m.one]);
  }
}
