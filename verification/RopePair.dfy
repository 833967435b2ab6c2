/**
 The single-pair RoPE program: the pair template rebound to two input variables, two
 external constants and dyadic literals, with one linearized program per component.
 */
module RopePair {
  import opened Wrappers
  import opened Bytes
  import opened Dag
  import opened DyadicLiterals
  import opened HotLoop
  import opened Linearize
  import opened Machine
  import opened Rebinding
  import opened Scalar
  import opened VectorLowering

  /** The pair DAG of `rope_pair_dag` with its two roots. */
  datatype PairTemplate = PairTemplate(t: Template, even: U32, odd: U32)

  datatype Operands = Operands(xEven: U32, xOdd: U32, cos: U32, sin: U32)

  ghost predicate Admitted(p: PairTemplate) {
    && CoveredBy(p.t, 4, DyadicBits()) && p.even < p.t.dag.Size() && p.odd < p.t.dag.Size()
    && 28 + p.t.dag.Size() <= U32_RANGE
  }

  const INPUTS: seq<U32> := [0, 1, 2, 3]

  /** The builder before any term: two inputs, two constants and one. */
  function Start(o: Operands): NodeSoA {
    Pushed(Pushed(Pushed(Pushed(Pushed(EMPTY, VarNode(o.xEven), 0, 0), VarNode(o.xOdd), 0, 0), ConstNode(o.cos), 0, 0),
                  ConstNode(o.sin), 0, 0), OneNode, 0, 0)
  }

  lemma StartValid(o: Operands)
    ensures Start(o).Valid() && |Start(o).kinds| == 5
  {
  }

  ghost function AfterTerms(o: Operands): (b: NodeSoA)
    ensures b.Valid() && |b.kinds| == 28
  {
    StartValid(o);
    TermsValid(Start(o), 4, 23);
    WithTerms(Start(o), 4, 23)
  }

  lemma TableTargets(b: NodeSoA)
    requires |b.kinds| >= 28
    ensures Targets(b, INPUTS, Table(5, 4)) && Keys(Table(5, 4)) == DyadicBits()
  {
    hide PowerBits, Keys;
    TableKeys(7, 4, 5, 6, 13, 14, 15, 16, 17, 19, 21, 23, 25, 27);
    forall l | l in Table(5, 4) ensures l.1 < 28 {
      TableNodes(5, 4, l);
    }
  }

  ghost function Converted(p: PairTemplate, o: Operands): (r: (NodeSoA, seq<U32>))
    requires Admitted(p)
    ensures r.0.Valid() && |r.1| == p.t.dag.Size() && AllBelow(r.1, |r.0.kinds|)
  {
    hide PowerBits, Keys, AfterTerms, Targets, DyadicBits, Rebound, Table;
    TableTargets(AfterTerms(o));
    CoveredIsBound(p.t, INPUTS, Table(5, 4));
    Rebound(AfterTerms(o), p.t, INPUTS, Table(5, 4), p.t.dag.Size())
  }

  /** The code of one component: its value, its offset, the store. */
  ghost function Component(p: PairTemplate, o: Operands, root: U32, offset: Op, slot: U32): seq<Op>
    requires Admitted(p) && root < p.t.dag.Size()
  {
    Linearized(Converted(p, o).0, Converted(p, o).1[root]) + [offset, StoreResult(slot)]
  }

  /** `bml_rope_program`. */
  method BmlRopeProgram(p: PairTemplate, o: Operands, slot: U32) returns (ops: seq<Op>)
    requires Admitted(p)
    ensures ops == Component(p, o, p.even, Zero, slot) + Component(p, o, p.odd, One, slot)
  {
    hide PowerBits, Keys, Targets, DyadicBits, Rebound, WithTerms, Table, CoveredBy, Linearized;
    var builder := new Builder();
    var xEven := builder.Var(o.xEven);
    var xOdd := builder.Var(o.xOdd);
    var cos := builder.ExternalConstant(o.cos);
    var sin := builder.ExternalConstant(o.sin);
    var one := builder.Push(OneNode, 0, 0);
    assert builder.soa == Start(o);
    StartValid(o);
    var literals := Build(builder, one);
    assert builder.soa == AfterTerms(o);
    TableTargets(builder.soa);
    CoveredIsBound(p.t, INPUTS, literals);
    assert [xEven, xOdd, cos, sin] == INPUTS;
    TemplateValid(p);
    var mapped := Append(builder, p.t, INPUTS, literals);
    assert (builder.soa, mapped) == Converted(p, o);
    var even := LinearizeDag(builder.soa, mapped[p.even]);
    var odd := LinearizeDag(builder.soa, mapped[p.odd]);
    ops := even + [Zero, StoreResult(slot)] + (odd + [One, StoreResult(slot)]);
  }

  lemma TemplateValid(p: PairTemplate)
    requires Admitted(p)
    ensures p.t.dag.Valid() && CoveredBy(p.t, 4, DyadicBits())
  {
  }

  // --------------------------------------------------------------------- meaning

  /** The template's environment: its four operands, and the values of its literals. */
  function PairEnv<V>(m: Arith<V>, value: U64 -> V, p: PairTemplate, operands: seq<V>): Env<V> {
    Env((id: U32) => if id < |operands| then operands[id] else m.nan,
        (id: U32) => if id < |p.t.constPool| then value(p.t.constPool[id]) else m.nan)
  }

  function OperandValues<V>(m: Arith<V>, ctx: Context<V>, o: Operands): seq<V> {
    [GetVar(m, ctx, o.xEven), GetVar(m, ctx, o.xOdd), GetConst(m, ctx, o.cos), GetConst(m, ctx, o.sin)]
  }

  lemma StartMeanings<V>(m: Arith<V>, ctx: Context<V>, o: Operands)
    ensures var b := Start(o);
            && b.Valid() && Eval(m, b, ContextEnv(m, ctx), 4) == m.one
            && forall k :: 0 <= k < 4 ==> Eval(m, b, ContextEnv(m, ctx), k) == OperandValues(m, ctx, o)[k]
  {
    StartValid(o);
    assert Start(o).kinds == [VarNode(o.xEven), VarNode(o.xOdd), ConstNode(o.cos), ConstNode(o.sin), OneNode];
  }

  lemma TermsMeaning<V>(m: Arith<V>, lit: real -> V, value: U64 -> V, ctx: Context<V>, o: Operands)
    requires ExactOnPowers(m, lit) && Represents(value, lit)
    ensures var b := AfterTerms(o);
            && LiteralsHold(m, b, ContextEnv(m, ctx), value, Table(5, 4))
            && forall k :: 0 <= k < 4 ==> Eval(m, b, ContextEnv(m, ctx), k) == OperandValues(m, ctx, o)[k]
    ensures value(ONE_BITS) == m.one && value(ZERO_BITS) == m.zero
  {
    hide Eval, WithTerms, Represents, Table, PowerBits, Start, OperandValues;
    StartMeanings(m, ctx, o);
    StartValid(o);
    TermsValid(Start(o), 4, 23);
    var env, b := ContextEnv(m, ctx), AfterTerms(o);
    forall k | 0 <= k < 4 ensures Eval(m, b, env, k) == Eval(m, Start(o), env, k) {
      GrowthKeepsValues(m, Start(o), b, env, k);
    }
    TableHolds(m, lit, value, Start(o), env, 4);
  }

  /** A converted root is the template's root on the four operands. */
  lemma ConvertedMeaning<V>(m: Arith<V>, lit: real -> V, value: U64 -> V, ctx: Context<V>, p: PairTemplate, o: Operands, root: U32)
    requires Admitted(p) && ExactOnPowers(m, lit) && Represents(value, lit) && root < p.t.dag.Size()
    ensures p.t.dag.Valid()
    ensures var (dag, mapped) := Converted(p, o);
            Eval(m, dag, ContextEnv(m, ctx), mapped[root])
            == Eval(m, p.t.dag, PairEnv(m, value, p, OperandValues(m, ctx, o)), root)
  {
    hide Eval, Rebound, AfterTerms, Represents, ExactOnPowers, Keys, PowerBits, DyadicBits, Targets, Table, OperandValues;
    TermsMeaning(m, lit, value, ctx, o);
    TableTargets(AfterTerms(o));
    CoveredIsBound(p.t, INPUTS, Table(5, 4));
    var env := ContextEnv(m, ctx);
    RebindingPreservesMeaning(m, AfterTerms(o), env, value, p.t, INPUTS, Table(5, 4), p.t.dag.Size());
    var own := PairEnv(m, value, p, OperandValues(m, ctx, o));
    FourOperands(m, ctx, o);
    assert AgreeOn(p.t.dag, Substituted(m, AfterTerms(o), env, value, p.t, INPUTS), own);
    EvalAgrees(m, p.t.dag, Substituted(m, AfterTerms(o), env, value, p.t, INPUTS), own, root);
  }

  lemma FourOperands<V>(m: Arith<V>, ctx: Context<V>, o: Operands)
    ensures |OperandValues(m, ctx, o)| == 4
  {
  }

  // ----------------------------------------------------------------------- the run

  function ContextLoad(): Load {
    (id: U32, depth: U32) => [Var(id)]
  }

  lemma {:induction false} ContextBody(ops: seq<Op>, depth: nat)
    requires AllScalar(ops) && Depth(ops, depth).Some? && depth + |ops| < U32_RANGE
    ensures IndexedBody(ops, depth, ContextLoad()) == ops
    decreases |ops|
  {
    if ops != [] {
      ContextBody(ops[1..], DepthAfter(ops[0], depth).value);
    }
  }

  /** Scalar code runs on top of any stack as on its own, reading the evaluation context. */
  lemma ScalarInContext<V(!new)>(m: Arith<V>, ctx: Context<V>, dag: NodeSoA, root: nat, pre: seq<V>, buf: Buffer<V>)
    requires dag.Valid() && root < dag.Size() && |Linearized(dag, root)| < U32_RANGE && buf.Valid()
    ensures Run(m, ctx, Linearized(dag, root), State(pre, buf))
            == Some(State(pre + [Eval(m, dag, ContextEnv(m, ctx), root)], buf))
  {
    hide Linearized, Eval;
    var ops, env := Linearized(dag, root), ContextEnv(m, ctx);
    LinearizeCorrect(m, env, dag, root, []);
    ContextBody(ops, 0);
    forall k | 0 <= k < |ops| && ops[k].Var?
      ensures Loads(m, ctx, pre, buf, ContextLoad(), ops[k].id, env.vars(ops[k].id))
    {
      ContextLoads(m, ctx, pre, buf, ops[k].id);
    }
    BodyRun(m, ctx, env.vars, ContextLoad(), ops, pre, [], buf);
    ScalarRunAgrees(m, Env(env.vars, id => GetConst(m, ctx, id)), env, ops, []);
    assert pre + [] == pre;
    assert [] + [Eval(m, dag, env, root)] == [Eval(m, dag, env, root)];
  }

  lemma ContextLoads<V(!new)>(m: Arith<V>, ctx: Context<V>, base: seq<V>, buf: Buffer<V>, id: U32)
    requires buf.Valid()
    ensures Loads(m, ctx, base, buf, ContextLoad(), id, GetVar(m, ctx, id))
  {
    forall local: seq<V> | |local| < U32_RANGE
      ensures Run(m, ctx, ContextLoad()(id, |local|), State(base + local, buf))
              == Some(State(base + local + [GetVar(m, ctx, id)], buf))
    {
      RunSingle(m, ctx, Var(id), State(base + local, buf));
    }
    assert forall h: U32 :: ContextLoad()(id, h) == [Var(id)];
  }

  /** One component: its value is stored at the offset its constant names. */
  lemma ComponentRun<V(!new)>(m: Arith<V>, ctx: Context<V>, p: PairTemplate, o: Operands, root: U32, offset: Op, at: V, slot: U32,
                              pre: seq<V>, buf: Buffer<V>)
    requires Admitted(p) && root < p.t.dag.Size() && buf.Valid()
    requires (offset == Zero && at == m.zero) || (offset == One && at == m.one)
    requires |Linearized(Converted(p, o).0, Converted(p, o).1[root])| < U32_RANGE
    ensures Run(m, ctx, Component(p, o, root, offset, slot), State(pre, buf))
            == Some(State(pre, WriteSlot(buf, slot, m.castU32(at),
                                         Eval(m, Converted(p, o).0, ContextEnv(m, ctx), Converted(p, o).1[root]))))
  {
    hide Converted, Linearized, Eval, WriteSlot;
    var (dag, mapped) := Converted(p, o);
    var code, v := Linearized(dag, mapped[root]), Eval(m, dag, ContextEnv(m, ctx), mapped[root]);
    ScalarInContext(m, ctx, dag, mapped[root], pre, buf);
    LinearizeIsScalar(dag, mapped[root]);
    RunPair(m, ctx, offset, StoreResult(slot), State(pre + [v], buf));
    StoreStep(m, ctx, slot, pre, v, at, buf);
    StraightConcat(m, ctx, code, [offset, StoreResult(slot)], State(pre, buf));
  }

  lemma StraightConcat<V>(m: Arith<V>, ctx: Context<V>, a: seq<Op>, b: seq<Op>, st: State<V>)
    requires AllScalar(a) && st.buf.Valid()
    ensures Run(m, ctx, a + b, st) == match Run(m, ctx, a, st) case None => None case Some(st') => Run(m, ctx, b, st')
  {
    RunConcat(m, ctx, a, b, st);
  }

  /** Each component's code length fits u32. */
  ghost predicate CodeFits(p: PairTemplate, o: Operands)
    requires Admitted(p)
  {
    var (dag, mapped) := Converted(p, o);
    |Linearized(dag, mapped[p.even])| < U32_RANGE && |Linearized(dag, mapped[p.odd])| < U32_RANGE
  }

  /**
   The pair program writes the template's two roots, on the two inputs and the two
   constants, to the first two elements of the slot; it changes no other cell and leaves
   the stack as it was.
   */
  lemma RopePairCorrect<V(!new)>(m: Arith<V>, lit: real -> V, value: U64 -> V, ctx: Context<V>, p: PairTemplate, o: Operands,
                                 slot: U32, pre: seq<V>, buf: Buffer<V>)
    requires Admitted(p) && ExactOnPowers(m, lit) && Represents(value, lit)
    requires m.castU32(m.zero) == 0 && m.castU32(m.one) == 1
    requires buf.Valid() && CodeFits(p, o)
    ensures p.t.dag.Valid()
    ensures var env := PairEnv(m, value, p, OperandValues(m, ctx, o));
            Run(m, ctx, Component(p, o, p.even, Zero, slot) + Component(p, o, p.odd, One, slot), State(pre, buf))
            == Some(State(pre, WriteSlot(WriteSlot(buf, slot, 0, Eval(m, p.t.dag, env, p.even)),
                                         slot, 1, Eval(m, p.t.dag, env, p.odd))))
  {
    hide Converted, Linearized, Eval, Component, WriteSlot, Run, ExactOnPowers, Represents, PairEnv;
    var (dag, mapped) := Converted(p, o);
    var v0 := Eval(m, dag, ContextEnv(m, ctx), mapped[p.even]);
    var v1 := Eval(m, dag, ContextEnv(m, ctx), mapped[p.odd]);
    ComponentRun(m, ctx, p, o, p.even, Zero, m.zero, slot, pre, buf);
    var buf0 := WriteSlot(buf, slot, 0, v0);
    ComponentRun(m, ctx, p, o, p.odd, One, m.one, slot, pre, buf0);
    ComponentsConcat(m, ctx, p, o, slot, State(pre, buf));
    ConvertedMeaning(m, lit, value, ctx, p, o, p.even);
    ConvertedMeaning(m, lit, value, ctx, p, o, p.odd);
  }

  lemma ComponentsConcat<V>(m: Arith<V>, ctx: Context<V>, p: PairTemplate, o: Operands, slot: U32, st: State<V>)
    requires Admitted(p) && st.buf.Valid()
    ensures Run(m, ctx, Component(p, o, p.even, Zero, slot) + Component(p, o, p.odd, One, slot), st)
            == match Run(m, ctx, Component(p, o, p.even, Zero, slot), st)
               case None => None
               case Some(st') => Run(m, ctx, Component(p, o, p.odd, One, slot), st')
  {
    hide Converted, Linearized;
    LinearizeIsScalar(Converted(p, o).0, Converted(p, o).1[p.even]);
    RunConcat(m, ctx, Component(p, o, p.even, Zero, slot), Component(p, o, p.odd, One, slot), st);
  }
}
