/**
 Static DAGs of BML nodes in struct-of-arrays layout, their recursive reference
 evaluation, and the left-to-right post-order in which both lowerings visit them.
 */
module Dag {
  import opened Wrappers
  import opened Sequences
  import opened Machine

  datatype NodeKind = OneNode | ZeroNode | VarNode(id: U32) | ConstNode(id: U32) | BmlNode

  /** `NodeSoA`; the child columns hold a dummy 0 for leaves. */
  datatype NodeSoA = NodeSoA(kinds: seq<NodeKind>, lefts: seq<U32>, rights: seq<U32>) {
    function Size(): nat { |kinds| }

    /** Node identifiers fit u32 and children precede their parent. */
    ghost predicate Valid() {
      && |lefts| == |rights| == |kinds| <= U32_RANGE
      && forall k :: 0 <= k < |kinds| && kinds[k].BmlNode? ==> lefts[k] < k && rights[k] < k
    }
  }

  /** The values a DAG reads: one per variable and one per constant identifier. */
  datatype Env<!V> = Env(vars: U32 -> V, consts: U32 -> V)

  function ContextEnv<V>(m: Arith<V>, ctx: Context<V>): Env<V> {
    Env(id => GetVar(m, ctx, id), id => GetConst(m, ctx, id))
  }

  /** `evaluate_soa`: the recursive reference semantics. */
  function Eval<V>(m: Arith<V>, dag: NodeSoA, env: Env<V>, id: nat): V
    requires dag.Valid() && id < dag.Size()
  {
    match dag.kinds[id]
    case OneNode => m.one
    case ZeroNode => m.zero
    case VarNode(v) => env.vars(v)
    case ConstNode(c) => env.consts(c)
    case BmlNode => m.bml(Eval(m, dag, env, dag.lefts[id]), Eval(m, dag, env, dag.rights[id]))
  }

  /** The node appended to a DAG. */
  function Pushed(dag: NodeSoA, kind: NodeKind, left: U32, right: U32): NodeSoA {
    NodeSoA(dag.kinds + [kind], dag.lefts + [left], dag.rights + [right])
  }

  ghost predicate Extends(a: NodeSoA, b: NodeSoA) {
    a.kinds <= b.kinds && a.lefts <= b.lefts && a.rights <= b.rights
  }

  /** Nodes of a DAG keep their values when it grows. */
  lemma {:induction false} GrowthKeepsValues<V>(m: Arith<V>, a: NodeSoA, b: NodeSoA, env: Env<V>, k: nat)
    requires a.Valid() && b.Valid() && Extends(a, b) && k < a.Size()
    ensures k < b.Size() && Eval(m, a, env, k) == Eval(m, b, env, k)
    decreases k
  {
    assert a.kinds[k] == b.kinds[k] && a.lefts[k] == b.lefts[k] && a.rights[k] == b.rights[k];
    if a.kinds[k].BmlNode? {
      GrowthKeepsValues(m, a, b, env, a.lefts[k]);
      GrowthKeepsValues(m, a, b, env, a.rights[k]);
    }
  }

  /** All variables of the DAG have identifiers below `n`. */
  ghost predicate VarsBelow(dag: NodeSoA, n: nat) {
    forall k :: 0 <= k < |dag.kinds| && dag.kinds[k].VarNode? ==> dag.kinds[k].id < n
  }

  /** The two environments agree on every identifier the DAG reads. */
  ghost predicate AgreeOn<V>(dag: NodeSoA, e: Env<V>, f: Env<V>) {
    forall k :: 0 <= k < |dag.kinds| ==>
      && (dag.kinds[k].VarNode? ==> e.vars(dag.kinds[k].id) == f.vars(dag.kinds[k].id))
      && (dag.kinds[k].ConstNode? ==> e.consts(dag.kinds[k].id) == f.consts(dag.kinds[k].id))
  }

  /** Values depend on the environment only through what the DAG reads. */
  lemma {:induction false} EvalAgrees<V>(m: Arith<V>, dag: NodeSoA, e: Env<V>, f: Env<V>, k: nat)
    requires dag.Valid() && k < dag.Size() && AgreeOn(dag, e, f)
    ensures Eval(m, dag, e, k) == Eval(m, dag, f, k)
    decreases k
  {
    if dag.kinds[k].BmlNode? {
      EvalAgrees(m, dag, e, f, dag.lefts[k]);
      EvalAgrees(m, dag, e, f, dag.rights[k]);
    }
  }

  function Values<V>(m: Arith<V>, dag: NodeSoA, env: Env<V>, ids: seq<nat>): (vs: seq<V>)
    requires dag.Valid() && InDag(dag, ids)
    ensures |vs| == |ids|
  {
    seq(|ids|, k requires 0 <= k < |ids| => Eval(m, dag, env, ids[k]))
  }

  // ---------------------------------------------------------------- post-order

  ghost predicate InDag(dag: NodeSoA, ids: seq<nat>) {
    forall k :: 0 <= k < |ids| ==> ids[k] < |dag.kinds|
  }

  /** `id` may be visited after `before`: it is new and its operands are already there. */
  ghost predicate Ready(dag: NodeSoA, before: seq<nat>, id: nat)
    requires dag.Valid() && id < dag.Size()
  {
    id !in before && (dag.kinds[id].BmlNode? ==> dag.lefts[id] in before && dag.rights[id] in before)
  }

  /** A visiting order: no repeats, and both children of an operator come earlier. */
  ghost predicate Ordered(dag: NodeSoA, order: seq<nat>)
    requires dag.Valid()
  {
    order == [] ||
    var k := |order| - 1;
    order[k] < dag.Size() && Ordered(dag, order[..k]) && Ready(dag, order[..k], order[k])
  }

  lemma {:induction false} OrderedFacts(dag: NodeSoA, order: seq<nat>)
    requires dag.Valid() && Ordered(dag, order)
    ensures Distinct(order) && InDag(dag, order)
    decreases |order|
  {
    if order != [] {
      OrderedFacts(dag, order[..|order| - 1]);
    }
  }

  /** The order after visiting `id`: left child, right child, then the node, each at most once. */
  function Visit(dag: NodeSoA, id: nat, order: seq<nat>): (r: seq<nat>)
    requires dag.Valid() && id < dag.Size()
    decreases id
  {
    if id in order then order
    else if dag.kinds[id].BmlNode? then
      Visit(dag, dag.rights[id], Visit(dag, dag.lefts[id], order)) + [id]
    else order + [id]
  }

  lemma {:induction false} VisitExtends(dag: NodeSoA, id: nat, order: seq<nat>)
    requires dag.Valid() && id < dag.Size()
    ensures order <= Visit(dag, id, order) && id in Visit(dag, id, order)
    ensures forall v :: v in Visit(dag, id, order) && v !in order ==> v <= id
    decreases id
  {
    if id !in order && dag.kinds[id].BmlNode? {
      VisitExtends(dag, dag.lefts[id], order);
      VisitExtends(dag, dag.rights[id], Visit(dag, dag.lefts[id], order));
    }
  }

  lemma {:induction false} VisitOrdered(dag: NodeSoA, id: nat, order: seq<nat>)
    requires dag.Valid() && id < dag.Size() && Ordered(dag, order)
    ensures Ordered(dag, Visit(dag, id, order))
    decreases id
  {
    if id !in order {
      if dag.kinds[id].BmlNode? {
        var left := Visit(dag, dag.lefts[id], order);
        VisitExtends(dag, dag.lefts[id], order);
        VisitExtends(dag, dag.rights[id], left);
        VisitOrdered(dag, dag.lefts[id], order);
        VisitOrdered(dag, dag.rights[id], left);
        OrderedPush(dag, Visit(dag, dag.rights[id], left), id);
      } else {
        OrderedPush(dag, order, id);
      }
    }
  }

  lemma OrderedPush(dag: NodeSoA, order: seq<nat>, id: nat)
    requires dag.Valid() && id < dag.Size() && Ordered(dag, order) && Ready(dag, order, id)
    ensures Ordered(dag, order + [id])
  {
    assert (order + [id])[..|order|] == order;
  }

  function PostOrder(dag: NodeSoA, root: nat): (r: seq<nat>)
    requires dag.Valid() && root < dag.Size()
  {
    Visit(dag, root, [])
  }

  lemma PostOrderOf(dag: NodeSoA, root: nat)
    requires dag.Valid() && root < dag.Size()
    ensures var r := PostOrder(dag, root); Ordered(dag, r) && r != [] && r[|r| - 1] == root && |r| <= dag.Size()
  {
    VisitExtends(dag, root, []);
    VisitOrdered(dag, root, []);
    OrderedFacts(dag, PostOrder(dag, root));
    Pigeonhole(PostOrder(dag, root), dag.Size());
  }

  /** `v` is `id` or an operand of it, at any depth. */
  ghost predicate Reaches(dag: NodeSoA, id: nat, v: nat)
    requires dag.Valid() && id < dag.Size()
  {
    v == id || (dag.kinds[id].BmlNode? && (Reaches(dag, dag.lefts[id], v) || Reaches(dag, dag.rights[id], v)))
  }

  lemma {:induction false} VisitReaches(dag: NodeSoA, id: nat, order: seq<nat>, v: nat)
    requires dag.Valid() && id < dag.Size() && v in Visit(dag, id, order) && v !in order
    ensures Reaches(dag, id, v)
    decreases id
  {
    if id !in order && dag.kinds[id].BmlNode? && v != id {
      var left := Visit(dag, dag.lefts[id], order);
      if v in left {
        VisitReaches(dag, dag.lefts[id], order, v);
      } else {
        VisitReaches(dag, dag.rights[id], left, v);
      }
    }
  }

  lemma {:induction false} OrderedChildren(dag: NodeSoA, order: seq<nat>, id: nat)
    requires dag.Valid() && id < dag.Size() && Ordered(dag, order) && id in order && dag.kinds[id].BmlNode?
    ensures dag.lefts[id] in order && dag.rights[id] in order
    decreases |order|
  {
    var k := |order| - 1;
    if order[k] != id {
      OrderedChildren(dag, order[..k], id);
    }
  }

  lemma {:induction false} OrderedReaches(dag: NodeSoA, order: seq<nat>, id: nat, v: nat)
    requires dag.Valid() && id < dag.Size() && Ordered(dag, order) && id in order && Reaches(dag, id, v)
    ensures v in order
    decreases id
  {
    if v != id {
      OrderedChildren(dag, order, id);
      OrderedReaches(dag, order, if Reaches(dag, dag.lefts[id], v) then dag.lefts[id] else dag.rights[id], v);
    }
  }

  /** The visiting order lists exactly what the root depends on. */
  lemma PostOrderReaches(dag: NodeSoA, root: nat, v: nat)
    requires dag.Valid() && root < dag.Size()
    ensures v in PostOrder(dag, root) <==> Reaches(dag, root, v)
  {
    VisitExtends(dag, root, []);
    VisitOrdered(dag, root, []);
    if v in PostOrder(dag, root) {
      VisitReaches(dag, root, [], v);
    }
    if Reaches(dag, root, v) {
      OrderedReaches(dag, PostOrder(dag, root), root, v);
    }
  }

  /** Where a visited node sits in the order. */
  function PositionOf(order: seq<nat>, v: nat): (p: nat)
    requires v in order
    ensures p < |order| && order[p] == v
    ensures forall q :: 0 <= q < p ==> order[q] != v
  {
    if order[0] == v then 0 else 1 + PositionOf(order[1..], v)
  }

  lemma PositionIs(order: seq<nat>, p: nat)
    requires Distinct(order) && p < |order|
    ensures PositionOf(order, order[p]) == p
  {
  }

  // ------------------------------------------------ the explicit traversal stack

  /** A pending entry: a node, and whether its children were already scheduled. */
  datatype Pending = Pending(id: U32, expanded: bool)

  ghost predicate InRange(dag: NodeSoA, pending: seq<Pending>) {
    forall k :: 0 <= k < |pending| ==> pending[k].id < |dag.kinds|
  }

  /** What draining the traversal stack adds to the order; None where the source would panic. */
  ghost function Drain(dag: NodeSoA, pending: seq<Pending>, order: seq<nat>): Option<seq<nat>>
    requires dag.Valid() && InRange(dag, pending)
  {
    if pending == [] then Some(order)
    else
      var top := pending[|pending| - 1];
      var rest := pending[..|pending| - 1];
      if top.id in order || !top.expanded then Drain(dag, rest, Visit(dag, top.id, order))
      else if dag.kinds[top.id].BmlNode? && (dag.lefts[top.id] !in order || dag.rights[top.id] !in order) then None
      else Drain(dag, rest, order + [top.id])
  }

  lemma DrainStart(dag: NodeSoA, root: U32)
    requires dag.Valid() && root < dag.Size()
    ensures Drain(dag, [Pending(root, false)], []) == Some(PostOrder(dag, root))
  {
    var one := [Pending(root, false)];
    assert one[..|one| - 1] == [];
    assert Drain(dag, [], PostOrder(dag, root)) == Some(PostOrder(dag, root));
  }

  lemma DrainExpand(dag: NodeSoA, rest: seq<Pending>, id: U32, order: seq<nat>)
    requires dag.Valid() && id < dag.Size() && InRange(dag, rest)
    requires dag.kinds[id].BmlNode? && id !in order
    ensures var next := rest + [Pending(id, true), Pending(dag.rights[id], false), Pending(dag.lefts[id], false)];
            && InRange(dag, next)
            && Drain(dag, next, order) == Drain(dag, rest + [Pending(id, false)], order)
  {
    var own := rest + [Pending(id, true)];
    var right := own + [Pending(dag.rights[id], false)];
    var left := right + [Pending(dag.lefts[id], false)];
    assert left == rest + [Pending(id, true), Pending(dag.rights[id], false), Pending(dag.lefts[id], false)];
    var afterLeft := Visit(dag, dag.lefts[id], order);
    var afterBoth := Visit(dag, dag.rights[id], afterLeft);
    assert left[..|left| - 1] == right && right[..|right| - 1] == own && own[..|own| - 1] == rest;
    VisitExtends(dag, dag.lefts[id], order);
    VisitExtends(dag, dag.rights[id], afterLeft);
    assert (rest + [Pending(id, false)])[..|rest|] == rest;
    assert Visit(dag, id, order) == afterBoth + [id];
    calc {
      Drain(dag, left, order);
      Drain(dag, right, afterLeft);
      Drain(dag, own, afterBoth);
      Drain(dag, rest, afterBoth + [id]);
    }
  }

  // Termination of the traversal: an expansion replaces an entry by lighter ones.
  ghost function Weight(id: nat): (w: nat)
    ensures w >= 2
  {
    if id == 0 then 2 else 3 * Weight(id - 1)
  }

  lemma {:induction false} WeightGrows(a: nat, b: nat)
    requires a < b
    ensures 3 * Weight(a) <= Weight(b)
    decreases b
  {
    if a < b - 1 {
      WeightGrows(a, b - 1);
    } else {
      assert a == b - 1;
    }
  }

  ghost function PendingWeight(pending: seq<Pending>): nat {
    if pending == [] then 0
    else
      var top := pending[|pending| - 1];
      PendingWeight(pending[..|pending| - 1]) + if top.expanded then 1 else Weight(top.id)
  }

  lemma WeightPop(rest: seq<Pending>, p: Pending)
    ensures PendingWeight(rest + [p]) == PendingWeight(rest) + if p.expanded then 1 else Weight(p.id)
  {
    assert (rest + [p])[..|rest|] == rest;
  }

  lemma WeightExpand(dag: NodeSoA, rest: seq<Pending>, id: U32)
    requires dag.Valid() && id < dag.Size() && dag.kinds[id].BmlNode?
    ensures PendingWeight(rest + [Pending(id, true), Pending(dag.rights[id], false), Pending(dag.lefts[id], false)])
            < PendingWeight(rest + [Pending(id, false)])
  {
    var own := rest + [Pending(id, true)];
    var right := own + [Pending(dag.rights[id], false)];
    WeightPop(rest, Pending(id, true));
    WeightPop(own, Pending(dag.rights[id], false));
    WeightPop(right, Pending(dag.lefts[id], false));
    WeightPop(rest, Pending(id, false));
    assert right + [Pending(dag.lefts[id], false)]
        == rest + [Pending(id, true), Pending(dag.rights[id], false), Pending(dag.lefts[id], false)];
    WeightGrows(dag.lefts[id], id);
    WeightGrows(dag.rights[id], id);
  }

  /** The entries an expansion schedules in place of `(id, false)`. */
  function Children(dag: NodeSoA, id: U32): seq<Pending>
    requires dag.Valid() && id < dag.Size()
  {
    [Pending(id, true), Pending(dag.rights[id], false), Pending(dag.lefts[id], false)]
  }

  /** One turn of the traversal loop, by the kind of entry popped. */
  lemma PopStep(dag: NodeSoA, pending: seq<Pending>, order: seq<nat>)
    requires dag.Valid() && InRange(dag, pending) && pending != [] && Drain(dag, pending, order).Some?
    ensures var top := pending[|pending| - 1];
            var rest := pending[..|pending| - 1];
            && top.id < dag.Size() && InRange(dag, rest)
            && PendingWeight(rest) < PendingWeight(pending)
            && if top.id in order then
                 Drain(dag, rest, order) == Drain(dag, pending, order)
               else if dag.kinds[top.id].BmlNode? && !top.expanded then
                 && InRange(dag, rest + Children(dag, top.id))
                 && Drain(dag, rest + Children(dag, top.id), order) == Drain(dag, pending, order)
                 && PendingWeight(rest + Children(dag, top.id)) < PendingWeight(pending)
               else
                 && Ready(dag, order, top.id)
                 && Drain(dag, rest, order + [top.id]) == Drain(dag, pending, order)
  {
    var top := pending[|pending| - 1];
    var rest := pending[..|pending| - 1];
    assert pending == rest + [top];
    WeightPop(rest, top);
    if top.id !in order && dag.kinds[top.id].BmlNode? && !top.expanded {
      DrainExpand(dag, rest, top.id, order);
      WeightExpand(dag, rest, top.id);
    }
  }
}
