/**
 `linearize`: a DAG in post-order as RPN code. Every value keeps its stack position
 and is reused with `Pick`; the positions below the root are dropped at the end.
 */
module Linearize {
  import opened Wrappers
  import opened Sequences
  import opened Machine
  import opened Dag
  import opened Scalar

  /** The code of one node on top of the values of `before`. */
  function EmitNode(dag: NodeSoA, before: seq<nat>, id: nat): seq<Op>
    requires dag.Valid() && id < dag.Size() && |before| < U32_RANGE
    requires dag.kinds[id].BmlNode? ==> dag.lefts[id] in before && dag.rights[id] in before
  {
    match dag.kinds[id]
    case OneNode => [One]
    case ZeroNode => [Zero]
    case VarNode(v) => [Var(v)]
    case ConstNode(c) => [Const(c)]
    case BmlNode =>
      var height := |before|;
      [Pick(height - 1 - PositionOf(before, dag.lefts[id])), Pick(height - PositionOf(before, dag.rights[id])), Bml]
  }

  function Emit(dag: NodeSoA, order: seq<nat>): seq<Op>
    requires dag.Valid() && Ordered(dag, order) && |order| <= U32_RANGE
  {
    if order == [] then []
    else
      var k := |order| - 1;
      Emit(dag, order[..k]) + EmitNode(dag, order[..k], order[k])
  }

  /** `n` times Swap, Drop: removes `n` values from below the top. */
  function Tidy(n: nat): seq<Op> {
    if n == 0 then [] else Tidy(n - 1) + [Swap, Drop]
  }

  function Linearized(dag: NodeSoA, root: nat): seq<Op>
    requires dag.Valid() && root < dag.Size()
  {
    PostOrderOf(dag, root);
    var order := PostOrder(dag, root);
    Emit(dag, order) + Tidy(|order| - 1)
  }

  /** The slot table holds the position of every visited node and nothing else. */
  ghost predicate SlotsOf(slots: seq<Option<nat>>, order: seq<nat>) {
    forall v :: 0 <= v < |slots| ==>
      match slots[v] case Some(p) => p < |order| && order[p] == v case None => v !in order
  }

  /** The state between two turns of the traversal loop. */
  ghost predicate Emitted(dag: NodeSoA, order: seq<nat>, ops: seq<Op>, slots: seq<Option<nat>>, height: nat)
    requires dag.Valid()
  {
    && Ordered(dag, order) && |order| == height <= dag.Size()
    && |slots| == dag.Size() && SlotsOf(slots, order)
    && ops == Emit(dag, order)
  }

  /** The traversal loop of the source, with its explicit stack and its slot table. */
  method LinearizeDag(dag: NodeSoA, root: U32) returns (ops: seq<Op>)
    requires dag.Valid() && root < dag.Size()
    ensures ops == Linearized(dag, root)
  {
    ops := [];
    var slots: seq<Option<nat>> := seq(dag.Size(), _ => None);
    var pending := [Pending(root, false)];
    var height := 0;
    ghost var order: seq<nat> := [];
    DrainStart(dag, root);
    while pending != []
      invariant InRange(dag, pending) && Drain(dag, pending, order) == Some(PostOrder(dag, root))
      invariant Emitted(dag, order, ops, slots, height)
      decreases PendingWeight(pending)
    {
      PopStep(dag, pending, order);
      var top := pending[|pending| - 1];
      pending := pending[..|pending| - 1];
      if slots[top.id].Some? {
        continue;
      }
      if dag.kinds[top.id].BmlNode? && !top.expanded {
        pending := pending + Children(dag, top.id);
        continue;
      }
      EmittedPush(dag, order, ops, slots, height, top.id);
      ops := PushNode(dag, slots, height, top.id, ops, order);
      slots := slots[top.id := Some(height)];
      order := order + [top.id];
      height := height + 1;
    }
    PostOrderOf(dag, root);
    ops := DropBelow(ops, height);
  }

  /** One arm of the emission `match`, which finds operand positions in the slot table. */
  method PushNode(dag: NodeSoA, slots: seq<Option<nat>>, height: nat, id: U32, ops: seq<Op>, ghost order: seq<nat>)
    returns (next: seq<Op>)
    requires dag.Valid() && id < dag.Size() && Ready(dag, order, id)
    requires |slots| == dag.Size() && SlotsOf(slots, order) && Distinct(order) && |order| == height < U32_RANGE
    ensures next == ops + EmitNode(dag, order, id)
  {
    match dag.kinds[id]
    case OneNode => next := ops + [One];
    case ZeroNode => next := ops + [Zero];
    case VarNode(v) => next := ops + [Var(v)];
    case ConstNode(c) => next := ops + [Const(c)];
    case BmlNode =>
      var left := slots[dag.lefts[id]].value;
      var right := slots[dag.rights[id]].value;
      PositionIs(order, left);
      PositionIs(order, right);
      next := ops + [Pick(height - 1 - left), Pick(height - right), Bml];
  }

  lemma EmittedPush(dag: NodeSoA, order: seq<nat>, ops: seq<Op>, slots: seq<Option<nat>>, height: nat, id: nat)
    requires dag.Valid() && Emitted(dag, order, ops, slots, height) && id < dag.Size() && Ready(dag, order, id)
    ensures Distinct(order) && height < U32_RANGE
    ensures Emitted(dag, order + [id], ops + EmitNode(dag, order, id), slots[id := Some(height)], height + 1)
  {
    EmitPush(dag, order, id);
  }

  /** The closing loop: one Swap, Drop pair for every value but the last. */
  method DropBelow(emitted: seq<Op>, height: nat) returns (ops: seq<Op>)
    requires height > 0
    ensures ops == emitted + Tidy(height - 1)
  {
    ops := emitted;
    for k := 1 to height
      invariant ops == emitted + Tidy(k - 1)
    {
      ops := ops + [Swap];
      ops := ops + [Drop];
      assert emitted + Tidy(k) == emitted + Tidy(k - 1) + [Swap] + [Drop];
    }
  }

  lemma EmitPush(dag: NodeSoA, order: seq<nat>, id: nat)
    requires dag.Valid() && id < dag.Size() && Ordered(dag, order) && Ready(dag, order, id)
    ensures Ordered(dag, order + [id]) && Distinct(order) && |order| < dag.Size()
    ensures Emit(dag, order + [id]) == Emit(dag, order) + EmitNode(dag, order, id)
  {
    OrderedPush(dag, order, id);
    OrderedFacts(dag, order + [id]);
    Pigeonhole(order + [id], dag.Size());
    assert (order + [id])[..|order|] == order;
  }

  /** Compiled code reads only variables of its DAG. */
  lemma {:induction false} EmitReads(dag: NodeSoA, order: seq<nat>, n: nat)
    requires dag.Valid() && Ordered(dag, order) && |order| <= U32_RANGE && VarsBelow(dag, n)
    ensures ReadsBelow(Emit(dag, order), n)
    decreases |order|
  {
    if order != [] {
      EmitReads(dag, order[..|order| - 1], n);
    }
  }

  lemma LinearizedReads(dag: NodeSoA, root: nat, n: nat)
    requires dag.Valid() && root < dag.Size() && VarsBelow(dag, n)
    ensures ReadsBelow(Linearized(dag, root), n)
  {
    PostOrderOf(dag, root);
    EmitReads(dag, PostOrder(dag, root), n);
    TidyReads(|PostOrder(dag, root)| - 1, n);
  }

  lemma TidyReads(height: nat, n: nat)
    ensures ReadsBelow(Tidy(height), n)
  {
  }

  // ------------------------------------------------------------- correctness

  lemma DropSecondRun<V>(m: Arith<V>, env: Env<V>, s: seq<V>, a: V, b: V)
    ensures ScalarRun(m, env, [Swap, Drop], s + [a, b]) == Some(s + [b])
  {
    assert (s + [a, b])[..|s|] + [b, a] == s + [b, a] && (s + [b, a])[..|s| + 1] == s + [b];
    RunTwo(m, env, Swap, Drop, s + [a, b]);
  }

  lemma {:induction false} TidyRun<V>(m: Arith<V>, env: Env<V>, n: nat, s: seq<V>, vs: seq<V>)
    requires |vs| == n + 1
    ensures AllScalar(Tidy(n))
    ensures ScalarRun(m, env, Tidy(n), s + vs) == Some(s + [vs[n]])
    decreases n
  {
    TidyScalar(n);
    if n == 0 {
      assert vs == [vs[0]];
    } else {
      var below := s + vs[..n - 1];
      assert s + vs == below + [vs[n - 1], vs[n]];
      assert below + [vs[n]] == s + (vs[..n - 1] + [vs[n]]);
      DropSecondRun(m, env, below, vs[n - 1], vs[n]);
      TidyScalar(n - 1);
      TidyRun(m, env, n - 1, s, vs[..n - 1] + [vs[n]]);
      TidyFront(n - 1);
      ScalarConcat(m, env, [Swap, Drop], Tidy(n - 1), s + vs);
    }
  }

  lemma TidyScalar(n: nat)
    ensures AllScalar(Tidy(n))
  {
  }

  lemma {:induction false} TidyFront(n: nat)
    ensures Tidy(n + 1) == [Swap, Drop] + Tidy(n)
    decreases n
  {
    if n > 0 {
      TidyFront(n - 1);
    }
  }

  // Two copies of deeper values followed by the operator.
  lemma PickPickBmlRun<V>(m: Arith<V>, env: Env<V>, t: seq<V>, i: nat, j: nat)
    requires i < |t| && j < |t| && |t| - j < U32_RANGE && |t| - 1 - i < U32_RANGE
    ensures ScalarRun(m, env, [Pick(|t| - 1 - i), Pick(|t| - j), Bml], t) == Some(t + [m.bml(t[i], t[j])])
  {
    var x, y := Pick(|t| - 1 - i), Pick(|t| - j);
    RunTwo(m, env, x, y, t);
    RunOne(m, env, Bml, t + [t[i]] + [t[j]]);
    assert (t + [t[i]] + [t[j]])[..|t|] == t;
    assert [x, y, Bml] == [x, y] + [Bml];
    ScalarConcat(m, env, [x, y], [Bml], t);
  }

  lemma EmitNodeRun<V>(m: Arith<V>, env: Env<V>, dag: NodeSoA, before: seq<nat>, id: nat, s: seq<V>)
    requires dag.Valid() && id < dag.Size() && |before| < U32_RANGE
    requires InDag(dag, before)
    requires dag.kinds[id].BmlNode? ==> dag.lefts[id] in before && dag.rights[id] in before
    ensures AllScalar(EmitNode(dag, before, id))
    ensures ScalarRun(m, env, EmitNode(dag, before, id), s + Values(m, dag, env, before))
            == Some(s + Values(m, dag, env, before) + [Eval(m, dag, env, id)])
  {
    var t := s + Values(m, dag, env, before);
    match dag.kinds[id]
    case OneNode => RunOne(m, env, One, t);
    case ZeroNode => RunOne(m, env, Zero, t);
    case VarNode(v) => RunOne(m, env, Var(v), t);
    case ConstNode(c) => RunOne(m, env, Const(c), t);
    case BmlNode => EmitBmlRun(m, env, dag, before, id, s);
  }

  lemma EmitBmlRun<V>(m: Arith<V>, env: Env<V>, dag: NodeSoA, before: seq<nat>, id: nat, s: seq<V>)
    requires dag.Valid() && id < dag.Size() && |before| < U32_RANGE
    requires InDag(dag, before)
    requires dag.kinds[id].BmlNode? && dag.lefts[id] in before && dag.rights[id] in before
    ensures AllScalar(EmitNode(dag, before, id))
    ensures ScalarRun(m, env, EmitNode(dag, before, id), s + Values(m, dag, env, before))
            == Some(s + Values(m, dag, env, before) + [Eval(m, dag, env, id)])
  {
    hide PositionOf, ScalarRun;
    var vs := Values(m, dag, env, before);
    var i := PositionOf(before, dag.lefts[id]);
    var j := PositionOf(before, dag.rights[id]);
    var t := s + vs;
    assert t[|s| + i] == vs[i] == Eval(m, dag, env, dag.lefts[id]);
    assert t[|s| + j] == vs[j] == Eval(m, dag, env, dag.rights[id]);
    PickPickBmlRun(m, env, t, |s| + i, |s| + j);
    assert |t| - 1 - (|s| + i) == |before| - 1 - i && |t| - (|s| + j) == |before| - j;
  }

  lemma ValuesSnoc<V>(m: Arith<V>, env: Env<V>, dag: NodeSoA, order: seq<nat>)
    requires dag.Valid() && InDag(dag, order) && order != []
    ensures var k := |order| - 1;
            InDag(dag, order[..k])
            && Values(m, dag, env, order) == Values(m, dag, env, order[..k]) + [Eval(m, dag, env, order[k])]
  {
    hide Eval;
  }

  lemma {:induction false} EmitRun<V>(m: Arith<V>, env: Env<V>, dag: NodeSoA, order: seq<nat>, s: seq<V>)
    requires dag.Valid() && Ordered(dag, order) && InDag(dag, order) && |order| <= U32_RANGE
    ensures AllScalar(Emit(dag, order))
    ensures ScalarRun(m, env, Emit(dag, order), s) == Some(s + Values(m, dag, env, order))
    decreases |order|
  {
    hide Eval, EmitNode, Values, ScalarStep;
    if order == [] {
      assert s + Values(m, dag, env, order) == s;
    } else {
      var k := |order| - 1;
      ValuesSnoc(m, env, dag, order);
      EmitRun(m, env, dag, order[..k], s);
      EmitNodeRun(m, env, dag, order[..k], order[k], s);
      assert s + Values(m, dag, env, order[..k]) + [Eval(m, dag, env, order[k])]
          == s + (Values(m, dag, env, order[..k]) + [Eval(m, dag, env, order[k])]);
      ScalarConcat(m, env, Emit(dag, order[..k]), EmitNode(dag, order[..k], order[k]), s);
    }
  }

  /** The code stays within its own stack and leaves the DAG's value above any stack. */
  lemma LinearizeCorrect<V>(m: Arith<V>, env: Env<V>, dag: NodeSoA, root: nat, s: seq<V>)
    requires dag.Valid() && root < dag.Size()
    ensures IsScalarProgram(Linearized(dag, root))
    ensures ScalarRun(m, env, Linearized(dag, root), s) == Some(s + [Eval(m, dag, env, root)])
    ensures ScalarValue(m, env, Linearized(dag, root)) == Eval(m, dag, env, root)
  {
    LinearizeRun(m, env, dag, root, s);
    LinearizeRun(m, env, dag, root, []);
  }

  lemma LinearizeIsScalar(dag: NodeSoA, root: nat)
    requires dag.Valid() && root < dag.Size()
    ensures IsScalarProgram(Linearized(dag, root))
  {
    var m := Arith(0, 0, 0, (x, y) => 0, (x, y) => 0, (x, y) => 0, (x, y) => 0, k => 0, v => 0, v => None);
    LinearizeCorrect(m, Env(id => 0, id => 0), dag, root, []);
  }

  lemma LinearizeRun<V>(m: Arith<V>, env: Env<V>, dag: NodeSoA, root: nat, s: seq<V>)
    requires dag.Valid() && root < dag.Size()
    ensures AllScalar(Linearized(dag, root))
    ensures ScalarRun(m, env, Linearized(dag, root), s) == Some(s + [Eval(m, dag, env, root)])
  {
    PostOrderOf(dag, root);
    var order := PostOrder(dag, root);
    OrderedFacts(dag, order);
    var vs := Values(m, dag, env, order);
    EmitRun(m, env, dag, order, s);
    TidyRun(m, env, |order| - 1, s, vs);
    ScalarConcat(m, env, Emit(dag, order), Tidy(|order| - 1), s);
  }
}
