/**
 The SwiGLU vector program: two bounded templates rebound to dyadic literals and the two
 external constants, linearized, and wrapped into an indexed loop. Each output element is
 the SwiGLU template's own value on its gate and up elements.
 */
module Swiglu {
  import opened Bytes
  import opened Dag
  import opened DyadicLiterals
  import opened HotLoop
  import opened Linearize
  import opened Machine
  import opened Rebinding
  import opened Scalar
  import opened VectorLowering

  /** A bounded operation's template and its root node. */
  datatype Operation = Operation(t: Template, root: U32)

  /** `product` gives -16 * log2(e), `swiglu` the gated activation; the patterns are log2(e) and exp(-16). */
  datatype Config = Config(product: Operation, swiglu: Operation, log2eBits: U64, minimumExpBits: U64)

  ghost predicate Covered(op: Operation, bits: seq<U64>) {
    CoveredBy(op.t, 2, bits) && op.root < op.t.dag.Size()
  }

  /** The configurations for which no `expect` of the source fires, and identifiers fit u32. */
  ghost predicate Admitted(c: Config) {
    && Covered(c.product, DyadicBits() + [c.log2eBits])
    && Covered(c.swiglu, DyadicBits() + [c.log2eBits, c.minimumExpBits])
    && 28 + c.product.t.dag.Size() + c.swiglu.t.dag.Size() <= U32_RANGE
  }

  lemma CoveredRoots(c: Config)
    requires Admitted(c)
    ensures c.product.t.dag.Valid() && c.swiglu.t.dag.Valid()
    ensures 28 + c.product.t.dag.Size() + c.swiglu.t.dag.Size() <= U32_RANGE
    ensures CoveredBy(c.product.t, 2, DyadicBits() + [c.log2eBits]) && c.product.root < c.product.t.dag.Size()
    ensures CoveredBy(c.swiglu.t, 2, DyadicBits() + [c.log2eBits, c.minimumExpBits]) && c.swiglu.root < c.swiglu.t.dag.Size()
  {
  }

  // ----------------------------------------------------------------- construction

  /** The builder before any term: one, log2(e), gate and up at nodes 0 to 3. */
  function Inputs(constLog2e: U32, constOne: U32): NodeSoA {
    Pushed(Pushed(Pushed(Pushed(EMPTY, ConstNode(constOne), 0, 0), ConstNode(constLog2e), 0, 0), VarNode(0), 0, 0),
           VarNode(1), 0, 0)
  }

  lemma InputsValid(constLog2e: U32, constOne: U32)
    ensures Inputs(constLog2e, constOne).Valid() && |Inputs(constLog2e, constOne).kinds| == 4
  {
  }

  /** After the terms: literals of the dyadic table and log2(e). */
  function FirstLiterals(c: Config): Literals {
    Table(4, 0) + [(c.log2eBits, 1)]
  }

  /** -16 is the last term; its node is 4 + 22. */
  const MINUS_SIXTEEN: U32 := 26

  ghost function AfterTerms(constLog2e: U32, constOne: U32): (b: NodeSoA)
    ensures b.Valid() && |b.kinds| == 27
  {
    InputsValid(constLog2e, constOne);
    TermsValid(Inputs(constLog2e, constOne), 0, 23);
    WithTerms(Inputs(constLog2e, constOne), 0, 23)
  }

  lemma FirstTargets(c: Config, b: NodeSoA)
    requires |b.kinds| >= 27
    ensures Targets(b, [MINUS_SIXTEEN, 1], FirstLiterals(c)) && Keys(FirstLiterals(c)) == DyadicBits() + [c.log2eBits]
  {
    hide PowerBits, Keys;
    TableKeys(6, 0, 4, 5, 12, 13, 14, 15, 16, 18, 20, 22, 24, 26);
    KeysPush(Table(4, 0), c.log2eBits, 1);
    forall l | l in FirstLiterals(c) ensures l.1 < 27 {
      if l in Table(4, 0) {
        TableNodes(4, 0, l);
      }
    }
  }

  ghost function WithProduct(c: Config, constLog2e: U32, constOne: U32): (r: (NodeSoA, seq<U32>))
    requires Admitted(c)
    ensures r.0.Valid() && 27 <= |r.0.kinds| <= 27 + c.product.t.dag.Size() && Extends(AfterTerms(constLog2e, constOne), r.0)
    ensures |r.1| == c.product.t.dag.Size() && AllBelow(r.1, |r.0.kinds|)
  {
    hide PowerBits, Keys, AfterTerms, Targets, FirstLiterals, DyadicBits, Rebound, Admitted, CoveredBy, Bound;
    CoveredRoots(c);
    var b := AfterTerms(constLog2e, constOne);
    FirstTargets(c, b);
    CoveredIsBound(c.product.t, [MINUS_SIXTEEN, 1], FirstLiterals(c));
    Rebound(b, c.product.t, [MINUS_SIXTEEN, 1], FirstLiterals(c), c.product.t.dag.Size())
  }

  /** 2^(-16 log2(e)), the minimum of the exponential, is one more literal. */
  ghost function WithMinimum(c: Config, constLog2e: U32, constOne: U32): (r: NodeSoA)
    requires Admitted(c)
    ensures r.Valid() && |r.kinds| == |WithProduct(c, constLog2e, constOne).0.kinds| + 1
    ensures Extends(WithProduct(c, constLog2e, constOne).0, r)
  {
    hide WithProduct;
    var (b, mapped) := WithProduct(c, constLog2e, constOne);
    PushedValid(b, BmlNode, mapped[c.product.root], 0);
    Pushed(b, BmlNode, mapped[c.product.root], 0)
  }

  ghost function AllLiterals(c: Config, constLog2e: U32, constOne: U32): Literals
    requires Admitted(c)
  {
    FirstLiterals(c) + [(c.minimumExpBits, |WithProduct(c, constLog2e, constOne).0.kinds|)]
  }

  lemma AllTargets(c: Config, constLog2e: U32, constOne: U32)
    requires Admitted(c)
    ensures Targets(WithMinimum(c, constLog2e, constOne), [2, 3], AllLiterals(c, constLog2e, constOne))
    ensures Keys(AllLiterals(c, constLog2e, constOne)) == DyadicBits() + [c.log2eBits, c.minimumExpBits]
  {
    hide WithProduct, WithMinimum, Keys, FirstLiterals, DyadicBits;
    var b := WithMinimum(c, constLog2e, constOne);
    FirstTargets(c, b);
    KeysPush(FirstLiterals(c), c.minimumExpBits, |WithProduct(c, constLog2e, constOne).0.kinds|);
    assert DyadicBits() + [c.log2eBits] + [c.minimumExpBits] == DyadicBits() + [c.log2eBits, c.minimumExpBits];
  }

  /** `swiglu_scalar_with_external_constants` before linearization: the DAG and its mapping. */
  ghost function SwigluDag(c: Config, constLog2e: U32, constOne: U32): (r: (NodeSoA, seq<U32>))
    requires Admitted(c)
    ensures r.0.Valid() && |r.1| == c.swiglu.t.dag.Size() && AllBelow(r.1, |r.0.kinds|)
  {
    hide PowerBits, Keys, WithProduct, WithMinimum, Targets, AllLiterals, DyadicBits, Rebound, CoveredBy, Bound;
    var b := WithMinimum(c, constLog2e, constOne);
    AllTargets(c, constLog2e, constOne);
    CoveredIsBound(c.swiglu.t, [2, 3], AllLiterals(c, constLog2e, constOne));
    Rebound(b, c.swiglu.t, [2, 3], AllLiterals(c, constLog2e, constOne), c.swiglu.t.dag.Size())
  }

  ghost function SwigluRoot(c: Config, constLog2e: U32, constOne: U32): (root: U32)
    requires Admitted(c)
    ensures root < |SwigluDag(c, constLog2e, constOne).0.kinds|
  {
    SwigluDag(c, constLog2e, constOne).1[c.swiglu.root]
  }

  /** Gate and up are the only variables. */
  lemma SwigluVars(c: Config, constLog2e: U32, constOne: U32)
    requires Admitted(c)
    ensures VarsBelow(SwigluDag(c, constLog2e, constOne).0, 2)
  {
    hide PowerBits, Keys, Targets, AllLiterals, FirstLiterals, DyadicBits, Rebound, CoveredBy, Bound, WithTerms;
    var start, first := Inputs(constLog2e, constOne), AfterTerms(constLog2e, constOne);
    InputsValid(constLog2e, constOne);
    TermsVars(start, 0, 23, 2);
    FirstTargets(c, first);
    CoveredIsBound(c.product.t, [MINUS_SIXTEEN, 1], FirstLiterals(c));
    ReboundVars(first, c.product.t, [MINUS_SIXTEEN, 1], FirstLiterals(c), c.product.t.dag.Size(), 2);
    var b := WithMinimum(c, constLog2e, constOne);
    assert VarsBelow(b, 2);
    AllTargets(c, constLog2e, constOne);
    CoveredIsBound(c.swiglu.t, [2, 3], AllLiterals(c, constLog2e, constOne));
    ReboundVars(b, c.swiglu.t, [2, 3], AllLiterals(c, constLog2e, constOne), c.swiglu.t.dag.Size(), 2);
  }

  /** The construction, step by step. */
  method BuildSwiglu(c: Config, constLog2e: U32, constOne: U32) returns (dag: NodeSoA, root: U32)
    requires Admitted(c)
    ensures dag == SwigluDag(c, constLog2e, constOne).0 && root == SwigluRoot(c, constLog2e, constOne)
  {
    hide PowerBits, Keys, Targets, DyadicBits, Rebound, WithTerms, Table, Covered, CoveredBy;
    var builder := new Builder();
    var one := builder.ExternalConstant(constOne);
    var log2e := builder.ExternalConstant(constLog2e);
    var gate := builder.Var(0);
    var up := builder.Var(1);
    assert builder.soa == Inputs(constLog2e, constOne);
    InputsValid(constLog2e, constOne);
    var literals := Build(builder, one);
    assert builder.soa == AfterTerms(constLog2e, constOne);
    var minusSixteen := MINUS_SIXTEEN;
    literals := literals + [(c.log2eBits, log2e)];
    FirstTargets(c, builder.soa);
    CoveredRoots(c);
    CoveredIsBound(c.product.t, [minusSixteen, log2e], literals);
    var product := Append(builder, c.product.t, [minusSixteen, log2e], literals);
    assert (builder.soa, product) == WithProduct(c, constLog2e, constOne);
    var minimumExp := builder.Bml(product[c.product.root], one);
    assert builder.soa == WithMinimum(c, constLog2e, constOne);
    literals := literals + [(c.minimumExpBits, minimumExp)];
    AllTargets(c, constLog2e, constOne);
    CoveredIsBound(c.swiglu.t, [gate, up], literals);
    var swiglu := Append(builder, c.swiglu.t, [gate, up], literals);
    dag, root := builder.soa, swiglu[c.swiglu.root];
  }

  // --------------------------------------------------------------------- meaning

  /** The environment of a two-input template: its operands, and the values of its literals. */
  function OperationEnv<V>(m: Arith<V>, value: U64 -> V, op: Operation, x: V, y: V): Env<V> {
    Env((id: U32) => if id == 0 then x else if id == 1 then y else m.nan,
        (id: U32) => if id < |op.t.constPool| then value(op.t.constPool[id]) else m.nan)
  }

  function Applied<V>(m: Arith<V>, value: U64 -> V, op: Operation, x: V, y: V): V
    requires op.t.dag.Valid() && op.root < op.t.dag.Size()
  {
    Eval(m, op.t.dag, OperationEnv(m, value, op, x, y), op.root)
  }

  /** How many bit patterns share sign and exponent: those with mantissa zero are multiples of it. */
  const MANTISSAS := 0x10_0000_0000_0000

  const MINUS_SIXTEEN_BITS: U64 := 0x8000_0000_0000_0000 + PowerBits(4)

  /**
   What the construction assumes of the arithmetic: exactness on the dyadic terms, and that
   the two literals it builds itself stand for their bits.
   */
  ghost predicate Sound<V>(m: Arith<V>, lit: real -> V, value: U64 -> V, c: Config) {
    && ExactOnPowers(m, lit) && Represents(value, lit)
    && c.product.t.dag.Valid() && c.product.root < c.product.t.dag.Size()
    && m.bml(Applied(m, value, c.product, value(MINUS_SIXTEEN_BITS), value(c.log2eBits)), m.one) == value(c.minimumExpBits)
  }

  /** The two external constants are supplied as promised. */
  ghost predicate Supplies<V>(m: Arith<V>, value: U64 -> V, c: Config, env: Env<V>, constLog2e: U32, constOne: U32) {
    env.consts(constOne) == m.one && env.consts(constLog2e) == value(c.log2eBits)
  }

  lemma InputMeanings<V>(m: Arith<V>, env: Env<V>, constLog2e: U32, constOne: U32)
    ensures var b := Inputs(constLog2e, constOne);
            && b.Valid() && Eval(m, b, env, 0) == env.consts(constOne) && Eval(m, b, env, 1) == env.consts(constLog2e)
            && Eval(m, b, env, 2) == env.vars(0) && Eval(m, b, env, 3) == env.vars(1)
  {
    InputsValid(constLog2e, constOne);
    var b := Inputs(constLog2e, constOne);
    assert b.kinds == [ConstNode(constOne), ConstNode(constLog2e), VarNode(0), VarNode(1)];
  }

  /** After the terms, the four inputs and all first literals have their values. */
  lemma TermsMeaning<V>(m: Arith<V>, lit: real -> V, value: U64 -> V, c: Config, env: Env<V>, constLog2e: U32, constOne: U32)
    requires Sound(m, lit, value, c) && Supplies(m, value, c, env, constLog2e, constOne)
    ensures var b := AfterTerms(constLog2e, constOne);
            && Eval(m, b, env, 1) == value(c.log2eBits) && Eval(m, b, env, 2) == env.vars(0) && Eval(m, b, env, 3) == env.vars(1)
            && Eval(m, b, env, 0) == m.one && Eval(m, b, env, MINUS_SIXTEEN) == value(MINUS_SIXTEEN_BITS)
            && LiteralsHold(m, b, env, value, FirstLiterals(c))
    ensures value(ONE_BITS) == m.one && value(ZERO_BITS) == m.zero
  {
    hide Eval, WithTerms, Represents, Table, PowerBits, Inputs;
    var start := Inputs(constLog2e, constOne);
    InputsValid(constLog2e, constOne);
    InputMeanings(m, env, constLog2e, constOne);
    TermsValid(start, 0, 23);
    var b := AfterTerms(constLog2e, constOne);
    forall k | 0 <= k < 4 ensures Eval(m, b, env, k) == Eval(m, start, env, k) {
      GrowthKeepsValues(m, start, b, env, k);
    }
    TableHolds(m, lit, value, start, env, 0);
    MinusSixteenEntry();
  }

  lemma MinusSixteenEntry()
    ensures (MINUS_SIXTEEN_BITS, MINUS_SIXTEEN) in Table(4, 0)
  {
    hide PowerBits;
    assert Table(4, 0)[13] == (MINUS_SIXTEEN_BITS, MINUS_SIXTEEN);
  }

  /** The rebound product is the template's value on -16 and log2(e). */
  lemma ProductMeaning<V>(m: Arith<V>, lit: real -> V, value: U64 -> V, c: Config, env: Env<V>, constLog2e: U32, constOne: U32)
    requires Admitted(c) && Sound(m, lit, value, c) && Supplies(m, value, c, env, constLog2e, constOne)
    ensures var (b, mapped) := WithProduct(c, constLog2e, constOne);
            Eval(m, b, env, mapped[c.product.root])
            == Applied(m, value, c.product, value(MINUS_SIXTEEN_BITS), value(c.log2eBits))
  {
    hide Eval, Rebound, AfterTerms, FirstLiterals, Represents, ExactOnPowers, Keys, PowerBits, DyadicBits, Targets;
    TermsMeaning(m, lit, value, c, env, constLog2e, constOne);
    var b, inputs := AfterTerms(constLog2e, constOne), [MINUS_SIXTEEN, 1];
    FirstTargets(c, b);
    CoveredIsBound(c.product.t, inputs, FirstLiterals(c));
    RebindingPreservesMeaning(m, b, env, value, c.product.t, inputs, FirstLiterals(c), c.product.t.dag.Size());
    var own := OperationEnv(m, value, c.product, value(MINUS_SIXTEEN_BITS), value(c.log2eBits));
    assert AgreeOn(c.product.t.dag, Substituted(m, b, env, value, c.product.t, inputs), own);
    EvalAgrees(m, c.product.t.dag, Substituted(m, b, env, value, c.product.t, inputs), own, c.product.root);
  }

  lemma MinimumMeaning<V>(m: Arith<V>, lit: real -> V, value: U64 -> V, c: Config, env: Env<V>, constLog2e: U32, constOne: U32)
    requires Admitted(c) && Sound(m, lit, value, c) && Supplies(m, value, c, env, constLog2e, constOne)
    ensures var b := WithMinimum(c, constLog2e, constOne);
            && Eval(m, b, env, 2) == env.vars(0) && Eval(m, b, env, 3) == env.vars(1)
            && LiteralsHold(m, b, env, value, AllLiterals(c, constLog2e, constOne))
    ensures value(ONE_BITS) == m.one && value(ZERO_BITS) == m.zero
  {
    hide WithProduct, AfterTerms, FirstLiterals, Represents, ExactOnPowers, PowerBits, Admitted;
    TermsMeaning(m, lit, value, c, env, constLog2e, constOne);
    ProductMeaning(m, lit, value, c, env, constLog2e, constOne);
    var first := AfterTerms(constLog2e, constOne);
    var (product, mapped) := WithProduct(c, constLog2e, constOne);
    var b := WithMinimum(c, constLog2e, constOne);
    ExtendsTransitive(first, product, b);
    LiteralsKept(m, first, b, env, value, FirstLiterals(c));
    forall k | 0 <= k < 4 ensures Eval(m, b, env, k) == Eval(m, first, env, k) {
      GrowthKeepsValues(m, first, b, env, k);
    }
    CoveredRoots(c);
    GrowthKeepsValues(m, product, b, env, mapped[c.product.root]);
    MinimumNode(m, c, env, constLog2e, constOne);
  }

  lemma MinimumNode<V>(m: Arith<V>, c: Config, env: Env<V>, constLog2e: U32, constOne: U32)
    requires Admitted(c)
    ensures var b := WithMinimum(c, constLog2e, constOne);
            var (product, mapped) := WithProduct(c, constLog2e, constOne);
            Eval(m, b, env, |product.kinds|) == m.bml(Eval(m, b, env, mapped[c.product.root]), Eval(m, b, env, 0))
  {
    hide WithProduct;
  }

  /** The compiled DAG is the SwiGLU template on the gate and up variables. */
  lemma SwigluDagMeaning<V>(m: Arith<V>, lit: real -> V, value: U64 -> V, c: Config, env: Env<V>, constLog2e: U32, constOne: U32)
    requires Admitted(c) && Sound(m, lit, value, c) && Supplies(m, value, c, env, constLog2e, constOne)
    ensures Eval(m, SwigluDag(c, constLog2e, constOne).0, env, SwigluRoot(c, constLog2e, constOne))
            == Applied(m, value, c.swiglu, env.vars(0), env.vars(1))
  {
    hide Eval, Rebound, WithMinimum, AllLiterals, Represents, ExactOnPowers, Keys, PowerBits, DyadicBits, Targets, Sound;
    MinimumMeaning(m, lit, value, c, env, constLog2e, constOne);
    var b, inputs := WithMinimum(c, constLog2e, constOne), [2, 3];
    AllTargets(c, constLog2e, constOne);
    CoveredIsBound(c.swiglu.t, inputs, AllLiterals(c, constLog2e, constOne));
    RebindingPreservesMeaning(m, b, env, value, c.swiglu.t, inputs, AllLiterals(c, constLog2e, constOne), c.swiglu.t.dag.Size());
    var own := OperationEnv(m, value, c.swiglu, env.vars(0), env.vars(1));
    assert AgreeOn(c.swiglu.t.dag, Substituted(m, b, env, value, c.swiglu.t, inputs), own);
    EvalAgrees(m, c.swiglu.t.dag, Substituted(m, b, env, value, c.swiglu.t, inputs), own, c.swiglu.root);
  }

  // --------------------------------------------------------------------- the program

  ghost function SwigluScalar(c: Config, constLog2e: U32, constOne: U32): (ops: seq<Op>)
    requires Admitted(c)
    ensures IsScalarProgram(ops)
  {
    var dag, root := SwigluDag(c, constLog2e, constOne).0, SwigluRoot(c, constLog2e, constOne);
    LinearizeIsScalar(dag, root);
    Linearized(dag, root)
  }

  /** The index and code lengths stay within their u32 fields. */
  ghost predicate Fits(c: Config, constLog2e: U32, constOne: U32, bases: (U32, U32), slot: U32)
    requires Admitted(c)
  {
    var scalar := SwigluScalar(c, constLog2e, constOne);
    |scalar| < U32_RANGE && |VectorBody(scalar, bases, slot)| < U32_RANGE
  }

  /** `bml_swiglu_program`: the obsolete scale constant is not used. */
  method BmlSwigluProgram(c: Config, gateBase: U32, upBase: U32, n: U32, constLog2e: U32, constOne: U32, slot: U32)
    returns (ops: seq<Op>)
    requires Admitted(c) && Fits(c, constLog2e, constOne, (gateBase, upBase), slot)
    ensures ops == VectorProgram(SwigluScalar(c, constLog2e, constOne), (gateBase, upBase), n, slot)
  {
    hide SwigluDag, Admitted, IsScalarProgram, VectorBody;
    var dag, root := BuildSwiglu(c, constLog2e, constOne);
    SwigluVars(c, constLog2e, constOne);
    LinearizedReads(dag, root, 2);
    var scalar := LinearizeDag(dag, root);
    ops := VectorOutputProgram(scalar, (gateBase, upBase), n, slot);
  }

  /**
   The SwiGLU program, run on any stack and buffer whose outputs do not overwrite elements
   read later, writes for each i the SwiGLU template's value on gate[i] and up[i], changes no
   other cell, and restores the stack.
   */
  lemma SwigluProgramCorrect<V(!new)>(m: Arith<V>, lit: real -> V, value: U64 -> V, c: Config, ctx: Context<V>, bases: (U32, U32),
                                      n: U32, constLog2e: U32, constOne: U32, slot: U32, pre: seq<V>, buf: Buffer<V>)
    requires Admitted(c) && Fits(c, constLog2e, constOne, bases, slot) && Sound(m, lit, value, c)
    requires GetConst(m, ctx, constOne) == m.one && GetConst(m, ctx, constLog2e) == value(c.log2eBits)
    requires m.CountersSurvive() && buf.Valid()
    requires NoClobber(SwigluScalar(c, constLog2e, constOne), buf, bases, slot, n)
    ensures var r := Run(m, ctx, VectorProgram(SwigluScalar(c, constLog2e, constOne), bases, n, slot), State(pre, buf));
            && r.Some? && r.value.stack == pre
            && forall k :: 0 <= k < |buf.data| ==>
                 r.value.buf.data[k]
                 == if IsOutput(buf, slot, n, k)
                    then var i := k - slot * buf.width;
                         Applied(m, value, c.swiglu, ReadIndexed(m, buf, bases.0, i), ReadIndexed(m, buf, bases.1, i))
                    else buf.data[k]
  {
    hide SwigluDag, Admitted, Sound, Run, VectorProgram, VectorBody, NoClobber, Applied, IsScalarProgram, ReadIndexed;
    var dag, root := SwigluDag(c, constLog2e, constOne).0, SwigluRoot(c, constLog2e, constOne);
    CoveredRoots(c);
    CompiledVectorCorrect(m, ctx, dag, root, bases, n, slot, pre, buf);
    forall k | 0 <= k < |buf.data| && IsOutput(buf, slot, n, k)
      ensures var i := k - slot * buf.width;
              Eval(m, dag, ElementEnv(m, ctx, buf, bases, i), root)
              == Applied(m, value, c.swiglu, ReadIndexed(m, buf, bases.0, i), ReadIndexed(m, buf, bases.1, i))
    {
      SwigluDagMeaning(m, lit, value, c, ElementEnv(m, ctx, buf, bases, k - slot * buf.width), constLog2e, constOne);
    }
  }

  // ------------------------------------------------- without assuming exp(-16)

  /** What the construction computes where its table says exp(-16). */
  function Built<V>(m: Arith<V>, value: U64 -> V, c: Config): V
    requires c.product.t.dag.Valid() && c.product.root < c.product.t.dag.Size()
  {
    m.bml(Applied(m, value, c.product, value(MINUS_SIXTEEN_BITS), value(c.log2eBits)), m.one)
  }

  /** Values of literals, with the computed number in place of that literal's own. */
  function WithBuilt<V>(m: Arith<V>, value: U64 -> V, c: Config): U64 -> V
    requires c.product.t.dag.Valid() && c.product.root < c.product.t.dag.Size()
  {
    var built := Built(m, value, c);
    (bits: U64) => if bits == c.minimumExpBits then built else value(bits)
  }

  /** exp(-16) is neither zero nor a power of two, up to sign, nor log2(e). */
  predicate OwnLiteral(c: Config) {
    c.minimumExpBits % MANTISSAS != 0 && c.minimumExpBits != c.log2eBits
  }

  /** The literal's value can be chosen: nothing else the construction uses depends on it. */
  lemma BuiltIsSound<V>(m: Arith<V>, lit: real -> V, value: U64 -> V, c: Config)
    requires Admitted(c) && OwnLiteral(c) && ExactOnPowers(m, lit) && Represents(value, lit)
    ensures c.product.t.dag.Valid() && c.product.root < c.product.t.dag.Size()
    ensures Sound(m, lit, WithBuilt(m, value, c), c)
  {
    hide ExactOnPowers, PowerBits;
    CoveredRoots(c);
    var own := WithBuilt(m, value, c);
    DyadicMantissas();
    forall e: int | -32 <= e <= 32
      ensures own(PowerBits(e)) == value(PowerBits(e))
      ensures own(0x8000_0000_0000_0000 + PowerBits(e)) == value(0x8000_0000_0000_0000 + PowerBits(e))
    {
      PowerMantissa(e);
    }
    assert Represents(own, lit);
    PowerMantissa(4);
    SameProduct(m, value, own, c);
  }

  lemma PowerMantissa(e: int)
    requires -32 <= e <= 32
    ensures PowerBits(e) % MANTISSAS == 0 && (0x8000_0000_0000_0000 + PowerBits(e)) % MANTISSAS == 0
  {
  }

  // No literal of the product template has a mantissa other than that of log2(e).
  lemma DyadicMantissas()
    ensures forall bits :: bits in DyadicBits() ==> bits % MANTISSAS == 0
  {
  }

  lemma SameProduct<V>(m: Arith<V>, value: U64 -> V, own: U64 -> V, c: Config)
    requires Admitted(c) && OwnLiteral(c)
    requires c.product.t.dag.Valid() && c.product.root < c.product.t.dag.Size()
    requires forall bits: U64 :: bits != c.minimumExpBits ==> own(bits) == value(bits)
    ensures own(MINUS_SIXTEEN_BITS) == value(MINUS_SIXTEEN_BITS) && own(c.log2eBits) == value(c.log2eBits)
    ensures Applied(m, own, c.product, value(MINUS_SIXTEEN_BITS), value(c.log2eBits))
            == Applied(m, value, c.product, value(MINUS_SIXTEEN_BITS), value(c.log2eBits))
  {
    hide PowerBits, DyadicBits;
    CoveredRoots(c);
    PowerMantissa(4);
    DyadicMantissas();
    var x, y := value(MINUS_SIXTEEN_BITS), value(c.log2eBits);
    assert AgreeOn(c.product.t.dag, OperationEnv(m, own, c.product, x, y), OperationEnv(m, value, c.product, x, y));
    EvalAgrees(m, c.product.t.dag, OperationEnv(m, own, c.product, x, y), OperationEnv(m, value, c.product, x, y), c.product.root);
  }

  /**
   `SwigluProgramCorrect` for any arithmetic that is exact on the dyadic terms, whatever it
   computes for exp(-16): the template then sees that computed number under the literal.
   */
  lemma SwigluProgramBuilt<V(!new)>(m: Arith<V>, lit: real -> V, value: U64 -> V, c: Config, ctx: Context<V>, bases: (U32, U32),
                                    n: U32, constLog2e: U32, constOne: U32, slot: U32, pre: seq<V>, buf: Buffer<V>)
    requires Admitted(c) && OwnLiteral(c) && Fits(c, constLog2e, constOne, bases, slot)
    requires ExactOnPowers(m, lit) && Represents(value, lit)
    requires GetConst(m, ctx, constOne) == m.one && GetConst(m, ctx, constLog2e) == value(c.log2eBits)
    requires m.CountersSurvive() && buf.Valid()
    requires NoClobber(SwigluScalar(c, constLog2e, constOne), buf, bases, slot, n)
    ensures c.product.t.dag.Valid() && c.product.root < c.product.t.dag.Size()
    ensures c.swiglu.t.dag.Valid() && c.swiglu.root < c.swiglu.t.dag.Size()
    ensures var r := Run(m, ctx, VectorProgram(SwigluScalar(c, constLog2e, constOne), bases, n, slot), State(pre, buf));
            && r.Some? && r.value.stack == pre
            && forall k :: 0 <= k < |buf.data| ==>
                 r.value.buf.data[k]
                 == if IsOutput(buf, slot, n, k)
                    then var i := k - slot * buf.width;
                         Applied(m, WithBuilt(m, value, c), c.swiglu, ReadIndexed(m, buf, bases.0, i), ReadIndexed(m, buf, bases.1, i))
                    else buf.data[k]
  {
    hide Admitted, Sound, Run, VectorProgram, VectorBody, NoClobber, Applied, IsScalarProgram, ReadIndexed, ExactOnPowers,
         Represents, Fits, SwigluScalar, IsOutput;
    CoveredRoots(c);
    BuiltIsSound(m, lit, value, c);
    SwigluProgramCorrect(m, lit, WithBuilt(m, value, c), c, ctx, bases, n, constLog2e, constOne, slot, pre, buf);
  }
}
