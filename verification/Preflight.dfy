/**
 What an accepted preflight is worth to the run: the compiled program never depends on the
 operator outside its domain, and RoPE writes finite values only.
 */
module Preflight {
  import opened Wrappers
  import opened Machine
  import opened Dag
  import opened HotLoop
  import opened VectorLowering
  import opened ArrayPass
  import opened Rope
  import opened RopeLayout
  import opened CompactLowering
  import opened RmsProgram
  import Rms = RmsRun

  /** Another operator that agrees wherever the first one is defined, and does anything elsewhere. */
  ghost predicate AgreesInDomain<V(!new), E>(c: CheckedBml<V, E>, m: Arith<V>) {
    && m.one == c.m.one && m.zero == c.m.zero && m.nan == c.m.nan
    && forall x, y {:trigger m.bml(x, y)} {:trigger c.rejects(x, y)} :: c.rejects(x, y).None? ==> m.bml(x, y) == c.m.bml(x, y)
  }

  /** A stage whose nodes are all in the domain has the same values under both operators. */
  lemma {:induction false} InDomainAgrees<V(!new), E>(c: CheckedBml<V, E>, m: Arith<V>, s: Stage<V>, inputs: seq<V>, k: nat)
    requires s.dag.Valid() && k < s.dag.Size() && InDomain(c, s, inputs) && AgreesInDomain(c, m)
    ensures At(m, s, inputs, k) == At(c.m, s, inputs, k)
    decreases k
  {
    if s.dag.kinds[k].BmlNode? {
      InDomainAgrees(c, m, s, inputs, s.dag.lefts[k]);
      InDomainAgrees(c, m, s, inputs, s.dag.rights[k]);
      assert NodeInDomain(c, s, inputs, k);
    }
  }

  // ------------------------------------------------------------------------- RoPE

  datatype RopeFailure<E> = BadShape | OutOfBound(pair: nat) | BadPair(pair: nat, why: Failure<E>)

  /** A pair's operands: two coordinates, cosine, sine. */
  function PairOperands<V>(xs: seq<V>, cs: seq<(V, V)>, pair: nat): seq<V>
    requires pair < |cs| && |xs| == 2 * |cs|
  {
    [xs[2 * pair], xs[2 * pair + 1], cs[pair].0, cs[pair].1]
  }

  ghost predicate PairPasses<V, E>(c: CheckedBml<V, E>, s: Stage<V>, bounded: V -> bool, operands: seq<V>)
    requires Fits(s, 4) && |operands| == 4
  {
    && bounded(operands[0]) && bounded(operands[1]) && InDomain(c, s, operands)
    && forall k :: 0 <= k < |s.roots| ==> c.finite(At(c.m, s, operands, s.roots[k]))
  }

  /** `CheckedRopeProgram::validate_values` accepts exactly when every pair passes. */
  method ValidateRope<V, E>(c: CheckedBml<V, E>, s: Stage<V>, bounded: V -> bool, xs: seq<V>, cs: seq<(V, V)>)
    returns (r: Result<(), RopeFailure<E>>)
    requires Fits(s, 4)
    ensures r.Ok? <==> |xs| == 2 * |cs| && forall j :: 0 <= j < |cs| ==> PairPasses(c, s, bounded, PairOperands(xs, cs, j))
  {
    hide InDomain, At, Fits;
    if |xs| != 2 * |cs| {
      return Err(BadShape);
    }
    for pair := 0 to |cs|
      invariant forall j :: 0 <= j < pair ==> PairPasses(c, s, bounded, PairOperands(xs, cs, j))
    {
      var operands := PairOperands(xs, cs, pair);
      if !bounded(operands[0]) || !bounded(operands[1]) {
        return Err(OutOfBound(pair));
      }
      var checked := ValidateVectorDag(c, s, operands);
      if checked.Err? {
        return Err(BadPair(pair, checked.error));
      }
    }
    r := Ok(());
  }

  /** The coordinates of all pairs, as the program reads them. */
  function Coordinates<V>(m: Arith<V>, buf: Buffer<V>, inputBase: U32, pairs: nat): (xs: seq<V>)
    requires 2 * pairs < U32_RANGE
    ensures |xs| == 2 * pairs
  {
    seq(2 * pairs, k requires 0 <= k < 2 * pairs => ReadIndexed(m, buf, inputBase, k))
  }

  /** The stage the preflight evaluates for a pair DAG. */
  function PairStage<V>(b: Bound<V>, dag: NodeSoA, roots: (U32, U32)): Stage<V> {
    Stage(dag, b.constPool, [roots.0, roots.1])
  }

  /** Every pair of the buffer passes. */
  ghost predicate PairsPass<V, E>(
      c: CheckedBml<V, E>, b: Bound<V>, dag: NodeSoA, roots: (U32, U32), bounded: V -> bool, xs: seq<V>)
    requires Fits(PairStage(b, dag, roots), 4) && |xs| == 2 * |b.cs|
  {
    forall j :: 0 <= j < |b.cs| ==> PairPasses(c, PairStage(b, dag, roots), bounded, PairOperands(xs, b.cs, j))
  }

  // A root's value in the program is the preflight's value for that pair, under any operator.
  lemma RootIsStage<V>(m: Arith<V>, b: Bound<V>, dag: NodeSoA, roots: (U32, U32), root: U32, l: Layout, buf: Buffer<V>, j: nat)
    requires Fits(PairStage(b, dag, roots), 4) && root < dag.Size() && b.Fits(l) && j < |b.cs|
    ensures Eval(m, dag, RotationEnv(m, b.Ctx(), buf, l.inputBase, j, b.cs[j]), root)
            == At(m, PairStage(b, dag, roots), PairOperands(Coordinates(m, buf, l.inputBase, |b.cs|), b.cs, j), root)
  {
    hide Eval, Flatten, ReadIndexed;
    var operands := PairOperands(Coordinates(m, buf, l.inputBase, |b.cs|), b.cs, j);
    var e := RotationEnv(m, b.Ctx(), buf, l.inputBase, j, b.cs[j]);
    var f := StageEnv(m, PairStage(b, dag, roots), operands);
    PairEnvs(m, b, dag, roots, l, buf, j);
    EvalAgrees(m, dag, e, f, root);
  }

  lemma PairEnvs<V>(m: Arith<V>, b: Bound<V>, dag: NodeSoA, roots: (U32, U32), l: Layout, buf: Buffer<V>, j: nat)
    requires Fits(PairStage(b, dag, roots), 4) && b.Fits(l) && j < |b.cs|
    ensures AgreeOn(dag, RotationEnv(m, b.Ctx(), buf, l.inputBase, j, b.cs[j]),
                    StageEnv(m, PairStage(b, dag, roots), PairOperands(Coordinates(m, buf, l.inputBase, |b.cs|), b.cs, j)))
  {
    hide Flatten, ReadIndexed;
    var e := RotationEnv(m, b.Ctx(), buf, l.inputBase, j, b.cs[j]);
    var f := StageEnv(m, PairStage(b, dag, roots), PairOperands(Coordinates(m, buf, l.inputBase, |b.cs|), b.cs, j));
    assert forall id: U32 :: id < 4 ==> e.vars(id) == f.vars(id) by {
      assert 2 * j + 1 < 2 * |b.cs|;
    }
    assert forall id: U32 :: id < |b.constPool| ==> e.consts(id) == f.consts(id);
  }

  /**
   Preflight soundness for RoPE: once every pair passes, the run under any operator that
   agrees in the domain rotates as the checked operator does, and all its outputs are finite.
   */
  lemma RopePreflightSound<V(!new), E>(
      c: CheckedBml<V, E>, m: Arith<V>, b: Bound<V>, dag: NodeSoA, roots: (U32, U32), bounded: V -> bool, l: Layout,
      pre: seq<V>, buf: Buffer<V>)
    requires Compiles(dag, roots, l) && b.Fits(l) && buf.Valid() && LayoutFresh(buf, l, |b.cs|)
    requires Fits(PairStage(b, dag, roots), 4)
    requires PairsPass(c, b, dag, roots, bounded, Coordinates(c.m, buf, l.inputBase, |b.cs|))
    requires AgreesInDomain(c, m) && CountsExactly(m, b.two)
    ensures var r := Rotating(m, b, dag, roots, l, pre, buf);
            && r.Some? && r.value.stack == pre && |r.value.buf.data| == |buf.data|
            && forall k :: 0 <= k < |buf.data| ==>
                 && r.value.buf.data[k] == RotatedCell(c.m, b.Ctx(), dag, roots, b.cs, l, buf, k)
                 && (IsOutput(buf, l.slot, 2 * |b.cs|, k) ==> c.finite(r.value.buf.data[k]))
  {
    hide Rotating, RotatedCell, Flatten, LayoutFresh, EvenScalar, OddScalar, RopeBody, PairsPass, AgreesInDomain, CountsExactly,
         IsOutput;
    assert VarsBelow(dag, 4);
    FreshRotates(m, b, dag, roots, l, pre, buf);
    forall k | 0 <= k < |buf.data|
      ensures RotatedCell(m, b.Ctx(), dag, roots, b.cs, l, buf, k) == RotatedCell(c.m, b.Ctx(), dag, roots, b.cs, l, buf, k)
      ensures IsOutput(buf, l.slot, 2 * |b.cs|, k) ==> c.finite(RotatedCell(c.m, b.Ctx(), dag, roots, b.cs, l, buf, k))
    {
      CheckedCell(c, m, b, dag, roots, bounded, l, buf, k);
    }
  }

  lemma CheckedCell<V(!new), E>(
      c: CheckedBml<V, E>, m: Arith<V>, b: Bound<V>, dag: NodeSoA, roots: (U32, U32), bounded: V -> bool, l: Layout,
      buf: Buffer<V>, k: nat)
    requires b.Fits(l) && Fits(PairStage(b, dag, roots), 4) && k < |buf.data| && roots.0 < dag.Size() && roots.1 < dag.Size()
    requires PairsPass(c, b, dag, roots, bounded, Coordinates(c.m, buf, l.inputBase, |b.cs|)) && AgreesInDomain(c, m)
    ensures RotatedCell(m, b.Ctx(), dag, roots, b.cs, l, buf, k) == RotatedCell(c.m, b.Ctx(), dag, roots, b.cs, l, buf, k)
    ensures IsOutput(buf, l.slot, 2 * |b.cs|, k) ==> c.finite(RotatedCell(c.m, b.Ctx(), dag, roots, b.cs, l, buf, k))
  {
    hide Eval, RotationEnv, Flatten, At, InDomain, AgreesInDomain;
    if IsOutput(buf, l.slot, 2 * |b.cs|, k) {
      var t := k - l.slot * buf.width;
      var j, odd := t / 2, t % 2;
      var s, root := PairStage(b, dag, roots), if odd == 0 then roots.0 else roots.1;
      var operands := PairOperands(Coordinates(c.m, buf, l.inputBase, |b.cs|), b.cs, j);
      assert PairPasses(c, s, bounded, operands);
      assert Coordinates(m, buf, l.inputBase, |b.cs|) == Coordinates(c.m, buf, l.inputBase, |b.cs|) by { SameNan(c, m); }
      RootIsStage(m, b, dag, roots, root, l, buf, j);
      RootIsStage(c.m, b, dag, roots, root, l, buf, j);
      InDomainAgrees(c, m, s, operands, root);
      assert s.roots[odd] == root;
    }
  }

  lemma SameNan<V(!new), E>(c: CheckedBml<V, E>, m: Arith<V>)
    requires AgreesInDomain(c, m)
    ensures m.nan == c.m.nan
  {
  }

  // -------------------------------------------------------------------------- RMS

  /** The three stages the preflight evaluates: the compiled DAGs with the bound constants. */
  function Staged<V>(s: RmsStages, constants: seq<V>): ArrayPass.Rms<V>
    requires |constants| > EPSILON_CONST
  {
    ArrayPass.Rms(Stage(s.reduce, constants, [s.reduceRoot]), Stage(s.prepare, constants, [s.prepareRoots.0, s.prepareRoots.1]),
                  Stage(s.output, constants, [s.outputRoot]), constants[EPSILON_CONST])
  }

  /** Both models give a stage's operands the same meaning. */
  lemma OperandsAreInputs<V>(m: Arith<V>, ctx: Context<V>, s: Stage<V>, operands: seq<V>, k: nat)
    requires s.dag.Valid() && k < s.dag.Size() && s.constPool == ctx.weights
    ensures Eval(m, s.dag, Rms.OperandEnv(m, ctx, operands), k) == At(m, s, operands, k)
  {
    hide Eval;
    var e, f := Rms.OperandEnv(m, ctx, operands), StageEnv(m, s, operands);
    assert AgreeOn(s.dag, e, f);
    EvalAgrees(m, s.dag, e, f, k);
  }

  lemma {:induction false} SameTotal<V(!new), E>(c: CheckedBml<V, E>, m: Arith<V>, ctx: Context<V>, s: RmsStages, xs: seq<V>, n: nat)
    requires s.Valid() && n <= |xs| && |ctx.weights| > EPSILON_CONST && ValidRms(Staged(s, ctx.weights))
    requires ReduceInDomain(c, Staged(s, ctx.weights), xs, n) && AgreesInDomain(c, m)
    ensures Rms.Total(m, ctx, s, xs, n) == Total(c.m, Staged(s, ctx.weights), xs, n)
    decreases n
  {
    hide Eval, At, InDomain, AgreesInDomain, Fits;
    if n > 0 {
      var f := Staged(s, ctx.weights);
      SameTotal(c, m, ctx, s, xs, n - 1);
      var operands := [Total(c.m, f, xs, n - 1), xs[n - 1]];
      assert InDomain(c, f.reduce, operands);
      OperandsAreInputs(m, ctx, f.reduce, operands, s.reduceRoot);
      InDomainAgrees(c, m, f.reduce, operands, s.reduceRoot);
    }
  }

  lemma SameRetained<V(!new), E>(c: CheckedBml<V, E>, m: Arith<V>, ctx: Context<V>, s: RmsStages, xs: seq<V>, root: U32)
    requires s.Valid() && |ctx.weights| > EPSILON_CONST && ValidRms(Staged(s, ctx.weights)) && root < s.prepare.Size()
    requires ReduceInDomain(c, Staged(s, ctx.weights), xs, |xs|) && AgreesInDomain(c, m)
    requires InDomain(c, Staged(s, ctx.weights).prepare, [Total(c.m, Staged(s, ctx.weights), xs, |xs|)])
    ensures Rms.Retained(m, ctx, s, xs, root)
            == At(c.m, Staged(s, ctx.weights).prepare, [Total(c.m, Staged(s, ctx.weights), xs, |xs|)], root)
  {
    hide Eval, At, InDomain, AgreesInDomain, Fits;
    var f := Staged(s, ctx.weights);
    SameTotal(c, m, ctx, s, xs, |xs|);
    var operands := [Total(c.m, f, xs, |xs|)];
    OperandsAreInputs(m, ctx, f.prepare, operands, root);
    InDomainAgrees(c, m, f.prepare, operands, root);
  }

  /** An accepted output element is the preflight's value under any operator that agrees. */
  lemma SameOutput<V(!new), E>(c: CheckedBml<V, E>, m: Arith<V>, ctx: Context<V>, s: RmsStages, xs: seq<V>, ws: seq<V>, i: nat)
    requires s.Valid() && |ctx.weights| > EPSILON_CONST && ValidRms(Staged(s, ctx.weights)) && i < |xs| == |ws|
    requires RmsInDomain(c, Staged(s, ctx.weights), xs, ws) && AgreesInDomain(c, m)
    ensures var f := Staged(s, ctx.weights);
            Rms.Normalized(m, ctx, s, xs, ws, i) == At(c.m, f.output, OutputInputs(c.m, f, xs, ws, i), s.outputRoot)
  {
    hide Eval, At, InDomain, AgreesInDomain, Fits;
    var f := Staged(s, ctx.weights);
    SameRetained(c, m, ctx, s, xs, s.prepareRoots.0);
    SameRetained(c, m, ctx, s, xs, s.prepareRoots.1);
    var operands := OutputInputs(c.m, f, xs, ws, i);
    assert InDomain(c, f.output, operands);
    OperandsAreInputs(m, ctx, f.output, operands, s.outputRoot);
    InDomainAgrees(c, m, f.output, operands, s.outputRoot);
  }

  /**
   Preflight soundness for RMS: once `validate_values` accepts the elements and weights in the
   buffer, the run under any operator that agrees in the domain writes the checked outputs.
   */
  lemma RmsPreflightSound<V(!new), E>(
      c: CheckedBml<V, E>, m: Arith<V>, ctx: Context<V>, s: RmsStages, bases: (U32, U32), slot: U32, width: U32,
      pre: seq<V>, buf: Buffer<V>)
    requires Rms.Runs(m, s) && buf.Valid() && Rms.RowsFresh(buf, bases, slot, width)
    requires |ctx.weights| > EPSILON_CONST && ValidRms(Staged(s, ctx.weights)) && AgreesInDomain(c, m)
    requires RmsInDomain(c, Staged(s, ctx.weights), Rms.Row(c.m, buf, bases.0, width), Rms.Row(c.m, buf, bases.1, width))
    ensures var r := Run(m, ctx, RmsOps(s, BufferLoads(bases.0, bases.1), width, slot), State(pre, buf));
            var f := Staged(s, ctx.weights);
            var xs, ws := Rms.Row(c.m, buf, bases.0, width), Rms.Row(c.m, buf, bases.1, width);
            && r.Some? && r.value.stack == pre && |r.value.buf.data| == |buf.data|
            && forall k :: 0 <= k < |buf.data| ==>
                 r.value.buf.data[k] == if IsOutput(buf, slot, width, k)
                                        then At(c.m, f.output, OutputInputs(c.m, f, xs, ws, k - slot * buf.width), s.outputRoot)
                                        else buf.data[k]
  {
    hide Run, At, InDomain, AgreesInDomain, Fits, RmsOps, Rms.Normalized, Rms.RowsFresh, RmsInDomain, OutputInputs, CompactScalar,
         StageAccepted, PrepareAccepted;
    var xs, ws := Rms.Row(c.m, buf, bases.0, width), Rms.Row(c.m, buf, bases.1, width);
    assert xs == Rms.Row(m, buf, bases.0, width) && ws == Rms.Row(m, buf, bases.1, width) by { SameNan(c, m); }
    Rms.RmsProgramCorrect(m, ctx, s, bases, slot, width, pre, buf);
    forall k | 0 <= k < |buf.data| && IsOutput(buf, slot, width, k)
      ensures var f := Staged(s, ctx.weights);
              Rms.Normalized(m, ctx, s, xs, ws, k - slot * buf.width)
              == At(c.m, f.output, OutputInputs(c.m, f, xs, ws, k - slot * buf.width), s.outputRoot)
    {
      SameOutput(c, m, ctx, s, xs, ws, k - slot * buf.width);
    }
  }
}
