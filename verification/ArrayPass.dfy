/**
 The forward array pass over a DAG and the preflights built on it. One scratch array is
 overwritten stage after stage and element after element; its stale contents never reach
 a result, because every node is written before it is read.
 */
module ArrayPass {
  import opened Wrappers
  import opened Machine
  import opened Dag

  /** `apply_real`: BML where its operands are in the domain, an error elsewhere. */
  datatype CheckedBml<!V, E> = CheckedBml(m: Arith<V>, rejects: (V, V) -> Option<E>, finite: V -> bool)

  /** A DAG with its own constants and the nodes read after the pass. */
  datatype Stage<V> = Stage(dag: NodeSoA, constPool: seq<V>, roots: seq<U32>)

  /** The first node whose operands are outside the domain. */
  datatype NodeFailure<E> = NodeFailure(node: nat, error: E)

  /** Every identifier is in range: the pass indexes its slices directly. */
  ghost predicate Fits<V>(s: Stage<V>, nInputs: nat) {
    && s.dag.Valid()
    && (forall k :: 0 <= k < |s.dag.kinds| && s.dag.kinds[k].VarNode? ==> s.dag.kinds[k].id < nInputs)
    && (forall k :: 0 <= k < |s.dag.kinds| && s.dag.kinds[k].ConstNode? ==> s.dag.kinds[k].id < |s.constPool|)
    && forall k :: 0 <= k < |s.roots| ==> s.roots[k] < |s.dag.kinds|
  }

  function StageEnv<V>(c: Arith<V>, s: Stage<V>, inputs: seq<V>): Env<V> {
    ContextEnv(c, Context(inputs, s.constPool))
  }

  /** What the recursive evaluator computes at a node of the stage. */
  function At<V>(m: Arith<V>, s: Stage<V>, inputs: seq<V>, k: nat): V
    requires s.dag.Valid() && k < s.dag.Size()
  {
    Eval(m, s.dag, StageEnv(m, s, inputs), k)
  }

  /** The operands of node `k`, if it is a BML node, are in the operator's domain. */
  predicate NodeInDomain<V, E>(c: CheckedBml<V, E>, s: Stage<V>, inputs: seq<V>, k: nat)
    requires s.dag.Valid() && k < s.dag.Size()
  {
    s.dag.kinds[k].BmlNode? ==>
      c.rejects(At(c.m, s, inputs, s.dag.lefts[k]), At(c.m, s, inputs, s.dag.rights[k])).None?
  }

  ghost predicate InDomain<V, E>(c: CheckedBml<V, E>, s: Stage<V>, inputs: seq<V>)
    requires s.dag.Valid()
  {
    forall k :: 0 <= k < s.dag.Size() ==> NodeInDomain(c, s, inputs, k)
  }

  /** The pass stops exactly at the first node outside the domain. */
  ghost predicate StopsAt<V, E>(c: CheckedBml<V, E>, s: Stage<V>, inputs: seq<V>, failure: NodeFailure<E>)
    requires s.dag.Valid()
  {
    && failure.node < s.dag.Size() && s.dag.kinds[failure.node].BmlNode?
    && c.rejects(At(c.m, s, inputs, s.dag.lefts[failure.node]), At(c.m, s, inputs, s.dag.rights[failure.node]))
       == Some(failure.error)
    && forall k :: 0 <= k < failure.node ==> NodeInDomain(c, s, inputs, k)
  }

  /** The outcome of a pass, as a function of the stage and its inputs alone. */
  ghost function Outcome<V, E>(c: CheckedBml<V, E>, s: Stage<V>, inputs: seq<V>, k: nat): Option<NodeFailure<E>>
    requires s.dag.Valid() && k <= s.dag.Size()
    decreases s.dag.Size() - k
  {
    if k == s.dag.Size() then None
    else if NodeInDomain(c, s, inputs, k) then Outcome(c, s, inputs, k + 1)
    else Some(NodeFailure(k, c.rejects(At(c.m, s, inputs, s.dag.lefts[k]), At(c.m, s, inputs, s.dag.rights[k])).value))
  }

  /** It succeeds exactly when every BML node is in the domain, else reports the first that is not. */
  lemma {:induction false} OutcomeIsExact<V, E>(c: CheckedBml<V, E>, s: Stage<V>, inputs: seq<V>, k: nat)
    requires s.dag.Valid() && k <= s.dag.Size()
    requires forall j :: 0 <= j < k ==> NodeInDomain(c, s, inputs, j)
    ensures match Outcome(c, s, inputs, k)
            case None => InDomain(c, s, inputs)
            case Some(failure) => StopsAt(c, s, inputs, failure) && !InDomain(c, s, inputs)
    decreases s.dag.Size() - k
  {
    hide At;
    if k < s.dag.Size() && NodeInDomain(c, s, inputs, k) {
      OutcomeIsExact(c, s, inputs, k + 1);
    }
  }

  /** The first `n` cells hold the recursive evaluator's values. */
  ghost predicate Holds<V>(m: Arith<V>, s: Stage<V>, inputs: seq<V>, values: seq<V>, n: nat)
    requires s.dag.Valid() && n <= s.dag.Size() && n <= |values|
  {
    forall k :: 0 <= k < n ==> values[k] == At(m, s, inputs, k)
  }

  /** One turn of the pass, from the values of earlier nodes. */
  function NodeValue<V, E>(c: CheckedBml<V, E>, s: Stage<V>, inputs: seq<V>, values: seq<V>, k: nat): Result<V, E>
    requires s.dag.Valid() && k < s.dag.Size() && k <= |values|
    requires s.dag.kinds[k].VarNode? ==> s.dag.kinds[k].id < |inputs|
    requires s.dag.kinds[k].ConstNode? ==> s.dag.kinds[k].id < |s.constPool|
  {
    match s.dag.kinds[k]
    case OneNode => Ok(c.m.one)
    case ZeroNode => Ok(c.m.zero)
    case VarNode(id) => Ok(inputs[id])
    case ConstNode(id) => Ok(s.constPool[id])
    case BmlNode =>
      var l, r := values[s.dag.lefts[k]], values[s.dag.rights[k]];
      if c.rejects(l, r).Some? then Err(c.rejects(l, r).value) else Ok(c.m.bml(l, r))
  }

  lemma NodeValueIsEval<V, E>(c: CheckedBml<V, E>, s: Stage<V>, inputs: seq<V>, values: seq<V>, k: nat)
    requires Fits(s, |inputs|) && k < s.dag.Size() && k <= |values| && Holds(c.m, s, inputs, values, k)
    ensures var r := NodeValue(c, s, inputs, values, k);
            && (r.Ok? <==> NodeInDomain(c, s, inputs, k)) && (r.Ok? ==> r.value == At(c.m, s, inputs, k))
            && (r.Err? ==> Outcome(c, s, inputs, k) == Some(NodeFailure(k, r.error)))
  {
  }

  /**
   `Stage::evaluate`: whatever the scratch held, the result is the outcome of the stage
   alone, and on success every cell of the stage holds the recursive evaluator's value.
   */
  method Evaluate<V, E>(c: CheckedBml<V, E>, s: Stage<V>, inputs: seq<V>, values: array<V>)
    returns (r: Option<NodeFailure<E>>)
    requires Fits(s, |inputs|) && s.dag.Size() <= values.Length
    modifies values
    ensures r == Outcome(c, s, inputs, 0)
    ensures r.None? ==> Holds(c.m, s, inputs, values[..], s.dag.Size())
    ensures r.Some? ==> r.value.node < s.dag.Size() && Holds(c.m, s, inputs, values[..], r.value.node)
                        && values[r.value.node..] == old(values[r.value.node..])
    ensures values[s.dag.Size()..] == old(values[s.dag.Size()..])
  {
    hide Outcome, NodeInDomain, At, NodeValue;
    for node := 0 to s.dag.Size()
      invariant Outcome(c, s, inputs, 0) == Outcome(c, s, inputs, node)
      invariant Holds(c.m, s, inputs, values[..], node)
      invariant values[node..] == old(values[node..])
    {
      NodeValueIsEval(c, s, inputs, values[..], node);
      OutcomeStep(c, s, inputs, node);
      var value := NodeValue(c, s, inputs, values[..], node);
      if value.Err? {
        return Some(NodeFailure(node, value.error));
      }
      ghost var before := values[..];
      values[node] := value.value;
      assert values[..] == before[node := value.value];
      assert values[node + 1..] == before[node..][1..] == old(values[node..])[1..] == old(values[node + 1..]);
    }
    OutcomeEnd(c, s, inputs);
    r := None;
  }

  lemma OutcomeStep<V, E>(c: CheckedBml<V, E>, s: Stage<V>, inputs: seq<V>, k: nat)
    requires s.dag.Valid() && k < s.dag.Size()
    ensures NodeInDomain(c, s, inputs, k) ==> Outcome(c, s, inputs, k) == Outcome(c, s, inputs, k + 1)
  {
  }

  lemma OutcomeEnd<V, E>(c: CheckedBml<V, E>, s: Stage<V>, inputs: seq<V>)
    requires s.dag.Valid()
    ensures Outcome(c, s, inputs, s.dag.Size()) == None
  {
  }

  // ------------------------------------------------------------- the preflights

  datatype Failure<E> =
    | Declaration(error: E)
    | InReduce(index: nat, at: NodeFailure<E>)
    | InPrepare(at: NodeFailure<E>)
    | InOutput(index: nat, at: NodeFailure<E>)
    | InVector(at: NodeFailure<E>)
    | NonFiniteOutput

  /**
   `validate_vector_dag`: fresh scratch, then the finiteness of the roots. It accepts
   exactly the inputs that keep every BML node in the domain and every root finite.
   */
  method ValidateVectorDag<V, E>(c: CheckedBml<V, E>, s: Stage<V>, inputs: seq<V>) returns (r: Result<(), Failure<E>>)
    requires Fits(s, |inputs|)
    ensures r.Ok? <==> InDomain(c, s, inputs) && forall k :: 0 <= k < |s.roots| ==> c.finite(At(c.m, s, inputs, s.roots[k]))
    ensures r.Err? && r.error.InVector? ==> StopsAt(c, s, inputs, r.error.at)
  {
    hide Outcome, NodeInDomain, At;
    var values := new V[s.dag.Size()](_ => c.m.zero);
    var failure := Evaluate(c, s, inputs, values);
    OutcomeIsExact(c, s, inputs, 0);
    if failure.Some? {
      return Err(InVector(failure.value));
    }
    for i := 0 to |s.roots|
      invariant forall k :: 0 <= k < i ==> c.finite(At(c.m, s, inputs, s.roots[k]))
    {
      assert values[..][s.roots[i]] == At(c.m, s, inputs, s.roots[i]);
      if !c.finite(values[s.roots[i]]) {
        return Err(NonFiniteOutput);
      }
    }
    r := Ok(());
  }

  /** `CheckedRmsFragment`'s three stages and the initial total among its constants. */
  datatype Rms<V> = Rms(reduce: Stage<V>, prepare: Stage<V>, output: Stage<V>, initial: V)

  ghost predicate ValidRms<V>(f: Rms<V>) {
    && Fits(f.reduce, 2) && Fits(f.prepare, 1) && Fits(f.output, 4)
    && |f.reduce.roots| >= 1 && |f.prepare.roots| >= 2
  }

  /** The running total after `n` elements, by the recursive evaluator. */
  ghost function Total<V>(m: Arith<V>, f: Rms<V>, inputs: seq<V>, n: nat): V
    requires ValidRms(f) && n <= |inputs|
  {
    if n == 0 then f.initial
    else At(m, f.reduce, [Total(m, f, inputs, n - 1), inputs[n - 1]], f.reduce.roots[0])
  }

  ghost function OutputInputs<V>(m: Arith<V>, f: Rms<V>, inputs: seq<V>, weights: seq<V>, i: nat): (r: seq<V>)
    requires ValidRms(f) && i < |inputs| && i < |weights|
    ensures |r| == 4
  {
    var total := [Total(m, f, inputs, |inputs|)];
    [inputs[i], weights[i], At(m, f.prepare, total, f.prepare.roots[0]), At(m, f.prepare, total, f.prepare.roots[1])]
  }

  ghost predicate ReduceInDomain<V, E>(c: CheckedBml<V, E>, f: Rms<V>, inputs: seq<V>, n: nat)
    requires ValidRms(f) && n <= |inputs|
  {
    forall i :: 0 <= i < n ==> InDomain(c, f.reduce, [Total(c.m, f, inputs, i), inputs[i]])
  }

  ghost predicate OutputInDomain<V, E>(c: CheckedBml<V, E>, f: Rms<V>, inputs: seq<V>, weights: seq<V>, n: nat)
    requires ValidRms(f) && n <= |inputs| && n <= |weights|
  {
    forall i :: 0 <= i < n ==> InDomain(c, f.output, OutputInputs(c.m, f, inputs, weights, i))
  }

  /** Every BML node of every stage, at every element, is in the operator's domain. */
  ghost predicate RmsInDomain<V, E>(c: CheckedBml<V, E>, f: Rms<V>, inputs: seq<V>, weights: seq<V>)
    requires ValidRms(f)
  {
    && ReduceInDomain(c, f, inputs, |inputs|)
    && InDomain(c, f.prepare, [Total(c.m, f, inputs, |inputs|)])
    && OutputInDomain(c, f, inputs, weights, if |inputs| < |weights| then |inputs| else |weights|)
  }

  /** The reported failure is the first one, at the reported stage, element and node. */
  ghost predicate Explained<V, E>(c: CheckedBml<V, E>, f: Rms<V>, declared: Option<E>, inputs: seq<V>, weights: seq<V>,
                                  failure: Failure<E>)
    requires ValidRms(f)
  {
    match failure
    case Declaration(error) => declared == Some(error)
    case InReduce(i, at) =>
      i < |inputs| && ReduceInDomain(c, f, inputs, i) && StopsAt(c, f.reduce, [Total(c.m, f, inputs, i), inputs[i]], at)
    case InPrepare(at) =>
      ReduceInDomain(c, f, inputs, |inputs|) && StopsAt(c, f.prepare, [Total(c.m, f, inputs, |inputs|)], at)
    case InOutput(i, at) =>
      && i < |inputs| && i < |weights| && ReduceInDomain(c, f, inputs, |inputs|)
      && InDomain(c, f.prepare, [Total(c.m, f, inputs, |inputs|)]) && OutputInDomain(c, f, inputs, weights, i)
      && StopsAt(c, f.output, OutputInputs(c.m, f, inputs, weights, i), at)
    case InVector(_) => false
    case NonFiniteOutput => false
  }

  method ReduceAll<V, E>(c: CheckedBml<V, E>, f: Rms<V>, inputs: seq<V>, values: array<V>)
    returns (r: Result<V, Failure<E>>)
    requires ValidRms(f) && f.reduce.dag.Size() <= values.Length
    modifies values
    ensures r.Ok? <==> ReduceInDomain(c, f, inputs, |inputs|)
    ensures r.Ok? ==> r.value == Total(c.m, f, inputs, |inputs|)
    ensures r.Err? ==> && r.error.InReduce? && r.error.index < |inputs| && ReduceInDomain(c, f, inputs, r.error.index)
                       && StopsAt(c, f.reduce, [Total(c.m, f, inputs, r.error.index), inputs[r.error.index]], r.error.at)
  {
    hide Outcome, NodeInDomain, At, InDomain, StopsAt;
    var total := f.initial;
    for index := 0 to |inputs|
      invariant total == Total(c.m, f, inputs, index) && ReduceInDomain(c, f, inputs, index)
    {
      var failure := Evaluate(c, f.reduce, [total, inputs[index]], values);
      StartOutcome(c, f.reduce, [total, inputs[index]]);
      if failure.Some? {
        return Err(InReduce(index, failure.value));
      }
      total := values[f.reduce.roots[0]];
      assert values[..][f.reduce.roots[0]] == total;
    }
    r := Ok(total);
  }

  lemma StartOutcome<V, E>(c: CheckedBml<V, E>, s: Stage<V>, inputs: seq<V>)
    requires s.dag.Valid()
    ensures match Outcome(c, s, inputs, 0)
            case None => InDomain(c, s, inputs)
            case Some(failure) => StopsAt(c, s, inputs, failure) && !InDomain(c, s, inputs)
  {
    OutcomeIsExact(c, s, inputs, 0);
  }

  method OutputAll<V, E>(c: CheckedBml<V, E>, f: Rms<V>, inputs: seq<V>, weights: seq<V>, inverseRoot: V, shift: V,
                         values: array<V>)
    returns (r: Result<(), Failure<E>>)
    requires ValidRms(f) && f.output.dag.Size() <= values.Length
    requires inverseRoot == At(c.m, f.prepare, [Total(c.m, f, inputs, |inputs|)], f.prepare.roots[0])
    requires shift == At(c.m, f.prepare, [Total(c.m, f, inputs, |inputs|)], f.prepare.roots[1])
    modifies values
    ensures r.Ok? <==> OutputInDomain(c, f, inputs, weights, if |inputs| < |weights| then |inputs| else |weights|)
    ensures r.Err? ==> && r.error.InOutput? && r.error.index < |inputs| && r.error.index < |weights|
                       && OutputInDomain(c, f, inputs, weights, r.error.index)
                       && StopsAt(c, f.output, OutputInputs(c.m, f, inputs, weights, r.error.index), r.error.at)
  {
    hide Outcome, NodeInDomain, At, InDomain, StopsAt, Total;
    var n := if |inputs| < |weights| then |inputs| else |weights|;
    for index := 0 to n
      invariant OutputInDomain(c, f, inputs, weights, index)
    {
      var operands := [inputs[index], weights[index], inverseRoot, shift];
      assert operands == OutputInputs(c.m, f, inputs, weights, index);
      var failure := Evaluate(c, f.output, operands, values);
      StartOutcome(c, f.output, operands);
      if failure.Some? {
        return Err(InOutput(index, failure.value));
      }
    }
    r := Ok(());
  }

  /**
   `CheckedRmsFragment::validate_values` behind its declaration check: one scratch array
   serves all three stages, and the outcome is that of the recursive evaluator.
   */
  method ValidateValues<V, E>(c: CheckedBml<V, E>, f: Rms<V>, declared: Option<E>, inputs: seq<V>, weights: seq<V>)
    returns (r: Result<(), Failure<E>>)
    requires ValidRms(f)
    ensures r.Ok? <==> declared.None? && RmsInDomain(c, f, inputs, weights)
    ensures r.Err? ==> Explained(c, f, declared, inputs, weights, r.error)
  {
    hide Outcome, NodeInDomain, At, InDomain, StopsAt, Total, OutputInputs, ReduceInDomain, OutputInDomain, Fits;
    if declared.Some? {
      return Err(Declaration(declared.value));
    }
    var capacity := f.reduce.dag.Size();
    if f.prepare.dag.Size() > capacity {
      capacity := f.prepare.dag.Size();
    }
    if f.output.dag.Size() > capacity {
      capacity := f.output.dag.Size();
    }
    var values := new V[capacity](_ => c.m.zero);
    var total := ReduceAll(c, f, inputs, values);
    if total.Err? {
      return Err(total.error);
    }
    var failure := Evaluate(c, f.prepare, [total.value], values);
    PrepareRoots(c, f, total.value);
    if failure.Some? {
      return Err(InPrepare(failure.value));
    }
    var inverseRoot := values[f.prepare.roots[0]];
    var shift := values[f.prepare.roots[1]];
    assert values[..][f.prepare.roots[0]] == inverseRoot && values[..][f.prepare.roots[1]] == shift;
    r := OutputAll(c, f, inputs, weights, inverseRoot, shift, values);
  }

  lemma PrepareRoots<V, E>(c: CheckedBml<V, E>, f: Rms<V>, total: V)
    requires ValidRms(f)
    ensures f.prepare.dag.Valid() && f.prepare.roots[0] < f.prepare.dag.Size() && f.prepare.roots[1] < f.prepare.dag.Size()
    ensures match Outcome(c, f.prepare, [total], 0)
            case None => InDomain(c, f.prepare, [total])
            case Some(failure) => StopsAt(c, f.prepare, [total], failure) && !InDomain(c, f.prepare, [total])
  {
    OutcomeIsExact(c, f.prepare, [total], 0);
  }
}
