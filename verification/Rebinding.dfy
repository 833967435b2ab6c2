/**
 Copying a template DAG into a builder that already holds nodes: variables become given
 nodes, literals become nodes that construct them, operators are pushed anew.
 */
module Rebinding {
  import opened Wrappers
  import opened Bytes
  import opened Dag
  import opened Machine

  const ONE_BITS: U64 := 0x3FF0_0000_0000_0000
  const ZERO_BITS: U64 := 0

  // ------------------------------------------------------------------- the builder

  const EMPTY: NodeSoA := NodeSoA([], [], [])

  /** `BMLTransformer`: nodes are only ever appended. */
  class Builder {
    var soa: NodeSoA

    constructor ()
      ensures soa == EMPTY
    {
      soa := EMPTY;
    }

    method Push(kind: NodeKind, left: U32, right: U32) returns (id: U32)
      requires |soa.kinds| < U32_RANGE
      modifies this
      ensures id == old(|soa.kinds|) && soa == Pushed(old(soa), kind, left, right)
    {
      id := |soa.kinds|;
      soa := Pushed(soa, kind, left, right);
    }

    method Var(v: U32) returns (id: U32)
      requires |soa.kinds| < U32_RANGE
      modifies this
      ensures id == old(|soa.kinds|) && soa == Pushed(old(soa), VarNode(v), 0, 0)
    {
      id := Push(VarNode(v), 0, 0);
    }

    method ExternalConstant(c: U32) returns (id: U32)
      requires |soa.kinds| < U32_RANGE
      modifies this
      ensures id == old(|soa.kinds|) && soa == Pushed(old(soa), ConstNode(c), 0, 0)
    {
      id := Push(ConstNode(c), 0, 0);
    }

    method Bml(left: U32, right: U32) returns (id: U32)
      requires |soa.kinds| < U32_RANGE
      modifies this
      ensures id == old(|soa.kinds|) && soa == Pushed(old(soa), BmlNode, left, right)
    {
      id := Push(BmlNode, left, right);
    }
  }

  /** A pushed node has the value its kind gives it; all others keep theirs. */
  lemma PushedValid(dag: NodeSoA, kind: NodeKind, left: U32, right: U32)
    requires dag.Valid() && |dag.kinds| < U32_RANGE
    requires kind.BmlNode? ==> left < |dag.kinds| && right < |dag.kinds|
    ensures Pushed(dag, kind, left, right).Valid() && Extends(dag, Pushed(dag, kind, left, right))
  {
  }

  // ------------------------------------------------------------------ the template

  /** A DAG with its owned constants, as bit patterns. */
  datatype Template = Template(dag: NodeSoA, constPool: seq<U64>)

  /** Literals and the nodes that construct them; the first entry with the bits is used. */
  type Literals = seq<(U64, U32)>

  function Find(literals: Literals, bits: U64): (r: Option<U32>)
    ensures r.Some? ==> (bits, r.value) in literals
  {
    if literals == [] then None
    else if literals[0].0 == bits then Some(literals[0].1)
    else Find(literals[1..], bits)
  }

  /** The node a leaf of the template is bound to; None where the source would panic. */
  function Leaf(t: Template, k: nat, inputs: seq<U32>, literals: Literals): Option<U32>
    requires k < |t.dag.kinds| && !t.dag.kinds[k].BmlNode?
  {
    match t.dag.kinds[k]
    case OneNode => Find(literals, ONE_BITS)
    case ZeroNode => Find(literals, ZERO_BITS)
    case VarNode(id) => if id < |inputs| then Some(inputs[id]) else None
    case ConstNode(id) => if id < |t.constPool| then Find(literals, t.constPool[id]) else None
  }

  /** Every variable is given and every literal has an explicit construction. */
  ghost predicate Bound(t: Template, inputs: seq<U32>, literals: Literals) {
    t.dag.Valid() && forall k :: 0 <= k < t.dag.Size() && !t.dag.kinds[k].BmlNode? ==> Leaf(t, k, inputs, literals).Some?
  }

  /** Inputs and literals name existing nodes. */
  ghost predicate Targets(b: NodeSoA, inputs: seq<U32>, literals: Literals) {
    && (forall k :: 0 <= k < |inputs| ==> inputs[k] < |b.kinds|)
    && forall l :: l in literals ==> l.1 < |b.kinds|
  }

  ghost predicate Room(b: NodeSoA, n: nat) {
    b.Valid() && |b.kinds| + n <= U32_RANGE
  }

  ghost predicate AllBelow(ids: seq<U32>, n: nat) {
    forall k :: 0 <= k < |ids| ==> ids[k] < n
  }

  /** The builder and the mapping after copying the first `n` template nodes. */
  ghost function Rebound(b: NodeSoA, t: Template, inputs: seq<U32>, literals: Literals, n: nat): (r: (NodeSoA, seq<U32>))
    requires Bound(t, inputs, literals) && Targets(b, inputs, literals) && Room(b, n) && n <= t.dag.Size()
    ensures r.0.Valid() && Extends(b, r.0) && |r.0.kinds| <= |b.kinds| + n
    ensures |r.1| == n && AllBelow(r.1, |r.0.kinds|)
  {
    if n == 0 then (b, [])
    else
      var (soa, mapped) := Rebound(b, t, inputs, literals, n - 1);
      if t.dag.kinds[n - 1].BmlNode? then
        (Pushed(soa, BmlNode, mapped[t.dag.lefts[n - 1]], mapped[t.dag.rights[n - 1]]), mapped + [|soa.kinds|])
      else
        var leaf: U32 := Leaf(t, n - 1, inputs, literals).value;
        (soa, mapped + [leaf])
  }

  /** Copying adds no variables. */
  lemma {:induction false} ReboundVars(b: NodeSoA, t: Template, inputs: seq<U32>, literals: Literals, n: nat, vars: nat)
    requires Bound(t, inputs, literals) && Targets(b, inputs, literals) && Room(b, n) && n <= t.dag.Size()
    requires VarsBelow(b, vars)
    ensures VarsBelow(Rebound(b, t, inputs, literals, n).0, vars)
    decreases n
  {
    hide Bound, Targets, Leaf;
    if n > 0 {
      ReboundVars(b, t, inputs, literals, n - 1, vars);
    }
  }

  /** The copying loop of `append_swiglu_bounded_operation` and `bml_rope_program`. */
  method Append(builder: Builder, t: Template, inputs: seq<U32>, literals: Literals) returns (mapped: seq<U32>)
    requires Bound(t, inputs, literals) && Targets(builder.soa, inputs, literals) && Room(builder.soa, t.dag.Size())
    modifies builder
    ensures (builder.soa, mapped) == Rebound(old(builder.soa), t, inputs, literals, t.dag.Size())
  {
    hide Leaf, Extends, AllBelow;
    mapped := [];
    for index := 0 to t.dag.Size()
      invariant (builder.soa, mapped) == Rebound(old(builder.soa), t, inputs, literals, index)
    {
      var node: U32;
      if t.dag.kinds[index].BmlNode? {
        node := builder.Bml(mapped[t.dag.lefts[index]], mapped[t.dag.rights[index]]);
      } else {
        node := Leaf(t, index, inputs, literals).value;
      }
      mapped := mapped + [node];
    }
  }

  // -------------------------------------------------------------- meaning preserved

  /** Each literal's node evaluates to the value of its bits. */
  ghost predicate LiteralsHold<V>(m: Arith<V>, b: NodeSoA, env: Env<V>, value: U64 -> V, literals: Literals)
    requires b.Valid()
  {
    forall l :: l in literals ==> l.1 < |b.kinds| && Eval(m, b, env, l.1) == value(l.0)
  }

  /** The template's own environment: inputs and constants substituted. */
  ghost function Substituted<V>(m: Arith<V>, b: NodeSoA, env: Env<V>, value: U64 -> V, t: Template, inputs: seq<U32>): Env<V>
    requires b.Valid() && forall k :: 0 <= k < |inputs| ==> inputs[k] < |b.kinds|
  {
    Env((id: U32) => if id < |inputs| then Eval(m, b, env, inputs[id]) else m.nan,
        (id: U32) => if id < |t.constPool| then value(t.constPool[id]) else m.nan)
  }

  /** A bound leaf has the template leaf's value. */
  lemma LeafMeaning<V>(m: Arith<V>, b: NodeSoA, env: Env<V>, value: U64 -> V, t: Template, inputs: seq<U32>,
                       literals: Literals, k: nat)
    requires Bound(t, inputs, literals) && Targets(b, inputs, literals) && b.Valid() && k < t.dag.Size()
    requires LiteralsHold(m, b, env, value, literals) && value(ONE_BITS) == m.one && value(ZERO_BITS) == m.zero
    requires !t.dag.kinds[k].BmlNode?
    ensures var leaf := Leaf(t, k, inputs, literals).value;
            leaf < |b.kinds| && Eval(m, b, env, leaf) == Eval(m, t.dag, Substituted(m, b, env, value, t, inputs), k)
  {
  }

  /**
   Rebinding preserves meaning: each mapped node evaluates to the template node's value
   with inputs and literals substituted, and existing nodes keep their values.
   */
  lemma {:induction false} RebindingPreservesMeaning<V>(m: Arith<V>, b: NodeSoA, env: Env<V>, value: U64 -> V, t: Template,
                                                        inputs: seq<U32>, literals: Literals, n: nat)
    requires Bound(t, inputs, literals) && Targets(b, inputs, literals) && Room(b, n) && n <= t.dag.Size()
    requires LiteralsHold(m, b, env, value, literals) && value(ONE_BITS) == m.one && value(ZERO_BITS) == m.zero
    ensures var (soa, mapped) := Rebound(b, t, inputs, literals, n);
            && (forall k :: 0 <= k < n ==>
                 Eval(m, soa, env, mapped[k]) == Eval(m, t.dag, Substituted(m, b, env, value, t, inputs), k))
            && forall k :: 0 <= k < b.Size() ==> Eval(m, soa, env, k) == Eval(m, b, env, k)
    decreases n
  {
    hide Substituted, Leaf, LiteralsHold, Bound, Targets;
    var (soa, mapped) := Rebound(b, t, inputs, literals, n);
    forall k | 0 <= k < b.Size() ensures Eval(m, soa, env, k) == Eval(m, b, env, k) {
      GrowthKeepsValues(m, b, soa, env, k);
    }
    if n > 0 {
      RebindingPreservesMeaning(m, b, env, value, t, inputs, literals, n - 1);
      RebindingStep(m, b, env, value, t, inputs, literals, n - 1);
    }
  }

  lemma RebindingStep<V>(m: Arith<V>, b: NodeSoA, env: Env<V>, value: U64 -> V, t: Template,
                         inputs: seq<U32>, literals: Literals, n: nat)
    requires Bound(t, inputs, literals) && Targets(b, inputs, literals) && Room(b, n + 1) && n < t.dag.Size()
    requires LiteralsHold(m, b, env, value, literals) && value(ONE_BITS) == m.one && value(ZERO_BITS) == m.zero
    requires var (soa, mapped) := Rebound(b, t, inputs, literals, n);
             forall k :: 0 <= k < n ==>
               Eval(m, soa, env, mapped[k]) == Eval(m, t.dag, Substituted(m, b, env, value, t, inputs), k)
    ensures var (soa, mapped) := Rebound(b, t, inputs, literals, n + 1);
            forall k :: 0 <= k <= n ==>
              Eval(m, soa, env, mapped[k]) == Eval(m, t.dag, Substituted(m, b, env, value, t, inputs), k)
  {
    hide Substituted, Leaf, LiteralsHold;
    var sub := Substituted(m, b, env, value, t, inputs);
    var (before, earlier) := Rebound(b, t, inputs, literals, n);
    var (soa, mapped) := Rebound(b, t, inputs, literals, n + 1);
    assert Extends(before, soa);
    forall k | 0 <= k < n
      ensures Eval(m, soa, env, mapped[k]) == Eval(m, t.dag, sub, k)
      ensures mapped[k] < |before.kinds| && Eval(m, soa, env, earlier[k]) == Eval(m, before, env, earlier[k])
    {
      GrowthKeepsValues(m, before, soa, env, earlier[k]);
    }
    if t.dag.kinds[n].BmlNode? {
      assert soa.kinds[mapped[n]].BmlNode?;
    } else {
      LeafMeaning(m, b, env, value, t, inputs, literals, n);
      GrowthKeepsValues(m, b, soa, env, mapped[n]);
    }
  }

  lemma LiteralsKept<V>(m: Arith<V>, a: NodeSoA, b: NodeSoA, env: Env<V>, value: U64 -> V, literals: Literals)
    requires a.Valid() && b.Valid() && Extends(a, b) && LiteralsHold(m, a, env, value, literals)
    ensures LiteralsHold(m, b, env, value, literals)
  {
    forall l | l in literals ensures l.1 < |b.kinds| && Eval(m, b, env, l.1) == value(l.0) {
      GrowthKeepsValues(m, a, b, env, l.1);
    }
  }

  lemma ExtendsTransitive(a: NodeSoA, b: NodeSoA, c: NodeSoA)
    requires Extends(a, b) && Extends(b, c)
    ensures Extends(a, c)
  {
  }
}
