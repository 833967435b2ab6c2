/**
 The layout condition of the rotary program is exact. The documentation asks only that
 outputs do not overwrite inputs of *later* pairs. That is not enough: the odd component of
 a pair runs after its even output is stored.
 */
module RopeLayout {
  import opened Arithmetic
  import opened Wrappers
  import opened Machine
  import opened Dag
  import opened Scalar
  import opened HotLoop
  import opened VectorLowering
  import opened CompactLowering
  import opened Rope

  /** What the caller binds: inputs, and the owned constants of the program. */
  datatype Bound<V> = Bound(inputs: seq<V>, constPool: seq<V>, two: V, cs: seq<(V, V)>) {
    function Ctx(): Context<V> {
      Context(inputs, constPool + [two] + Flatten(cs))
    }

    /** The layout addresses these constants. */
    predicate Fits(l: Layout) {
      |constPool| + 1 + 2 * |cs| < U32_RANGE && l.twoId == |constPool| && l.coefBase == |constPool| + 1
    }
  }

  /** The arithmetic converts counters and doubles them exactly. */
  ghost predicate CountsExactly<V>(m: Arith<V>, two: V) {
    m.CountersSurvive() && ExactDoubling(m, two)
  }

  /** Running the compiled loop over all pairs. */
  ghost function Rotating<V>(
      m: Arith<V>, b: Bound<V>, dag: NodeSoA, roots: (U32, U32), l: Layout, pre: seq<V>, buf: Buffer<V>)
    : (r: Option<State<V>>)
    requires Compiles(dag, roots, l) && b.Fits(l) && buf.Valid()
    ensures r.Some? ==> r.value.buf.width == buf.width && r.value.buf.slots == buf.slots
  {
    Run(m, b.Ctx(), PairLoop(|b.cs|, l, dag, roots), State(pre, buf))
  }

  /** The run rotates every pair: what `RopeProgramCorrect` promises. */
  ghost predicate Rotates<V>(
      m: Arith<V>, b: Bound<V>, dag: NodeSoA, roots: (U32, U32), l: Layout, pre: seq<V>, buf: Buffer<V>)
    requires Compiles(dag, roots, l) && b.Fits(l) && buf.Valid()
  {
    var r := Rotating(m, b, dag, roots, l, pre, buf);
    && r.Some? && r.value.stack == pre && |r.value.buf.data| == |buf.data|
    && forall c :: 0 <= c < |buf.data| ==> r.value.buf.data[c] == RotatedCell(m, b.Ctx(), dag, roots, b.cs, l, buf, c)
  }

  /** The run performs the writes of all pairs in order. */
  lemma RotatingWrites<V(!new)>(
      m: Arith<V>, b: Bound<V>, dag: NodeSoA, roots: (U32, U32), l: Layout, pre: seq<V>, buf: Buffer<V>)
    requires Compiles(dag, roots, l) && b.Fits(l) && buf.Valid() && CountsExactly(m, b.two)
    ensures Rotating(m, b, dag, roots, l, pre, buf)
            == Some(State(pre, RopeWrites(m, b.Ctx(), l, EvenScalar(dag, roots), OddScalar(dag, roots), 0, |b.cs|, buf)))
  {
    hide Flatten, EvenScalar, OddScalar, RopeBody, IsScalarProgram;
    var even, odd := EvenScalar(dag, roots), OddScalar(dag, roots);
    ProgramIsLoop(m, b.Ctx(), |b.cs|, RopeBody(l, even, odd), State(pre, buf));
    if b.cs != [] {
      CoefficientLookup(m, b.constPool, b.two, b.cs, b.inputs, 0);
      RopeIterations(m, b.Ctx(), l, even, odd, 0, |b.cs|, pre, buf);
    }
  }

  lemma FreshRotates<V(!new)>(
      m: Arith<V>, b: Bound<V>, dag: NodeSoA, roots: (U32, U32), l: Layout, pre: seq<V>, buf: Buffer<V>)
    requires Compiles(dag, roots, l) && VarsBelow(dag, 4) && b.Fits(l) && buf.Valid() && CountsExactly(m, b.two)
    requires LayoutFresh(buf, l, |b.cs|)
    ensures Rotates(m, b, dag, roots, l, pre, buf)
  {
    hide Flatten, RotatedCell, LayoutFresh, Compiles, PairLoop, Run;
    RopeProgramCorrect(m, dag, roots, b.constPool, b.two, b.cs, b.inputs, l, pre, buf);
  }

  // ------------------------------------------------------------------ single writes

  /** Iterations from `pair` on touch only output elements from `2 * pair` on. */
  lemma {:induction false} RopeFrame<V>(
      m: Arith<V>, ctx: Context<V>, l: Layout, even: seq<Op>, odd: seq<Op>, pair: nat, pairs: nat, buf: Buffer<V>, c: nat)
    requires IsScalarProgram(even) && IsScalarProgram(odd) && pair <= pairs && 2 * pairs < U32_RANGE
    requires buf.Valid() && c < |buf.data| && c < l.slot * buf.width + 2 * pair
    ensures |RopeWrites(m, ctx, l, even, odd, pair, pairs, buf).data| == |buf.data|
    ensures RopeWrites(m, ctx, l, even, odd, pair, pairs, buf).data[c] == buf.data[c]
    decreases pairs - pair
  {
    if pair < pairs {
      RopeFrame(m, ctx, l, even, odd, pair + 1, pairs, PairWrites(m, ctx, l, even, odd, pair, buf), c);
    }
  }

  lemma {:induction false} RopeSplit<V>(
      m: Arith<V>, ctx: Context<V>, l: Layout, even: seq<Op>, odd: seq<Op>, pair: nat, j: nat, pairs: nat, buf: Buffer<V>)
    requires IsScalarProgram(even) && IsScalarProgram(odd) && pair <= j <= pairs && 2 * pairs < U32_RANGE && buf.Valid()
    ensures RopeWrites(m, ctx, l, even, odd, pair, pairs, buf)
            == RopeWrites(m, ctx, l, even, odd, j, pairs, RopeWrites(m, ctx, l, even, odd, pair, j, buf))
    decreases j - pair
  {
    if pair < j {
      RopeSplit(m, ctx, l, even, odd, pair + 1, j, pairs, PairWrites(m, ctx, l, even, odd, pair, buf));
    }
  }

  // ------------------------------------------------------------------- the probes

  /** A DAG with the nodes 1 and `x[e]`; either may be the root of either component. */
  function ProbeDag(e: U32): NodeSoA {
    NodeSoA([OneNode, VarNode(e)], [0, 0], [0, 0])
  }

  function ProbeRoots(evenStores: bool): (U32, U32) {
    if evenStores then (0, 1) else (1, 0)
  }

  /** Compiled components that expose a read by pair `j`: one stores 1, the other copies. */
  function Probe(storesOne: bool, e: U32): (r: seq<Op>)
    ensures IsScalarProgram(r)
  {
    CompactScalar(ProbeDag(e), if storesOne then 0 else 1)
  }

  lemma ProbeCompiles(evenStores: bool, e: U32, l: Layout)
    requires e < 2
    ensures var dag, roots := ProbeDag(e), ProbeRoots(evenStores);
            && Compiles(dag, roots, l) && VarsBelow(dag, 4)
            && EvenScalar(dag, roots) == Probe(evenStores, e) && OddScalar(dag, roots) == Probe(!evenStores, e)
  {
    hide CompactScalar, Compiles;
    SizeCompiles(ProbeDag(e), ProbeRoots(evenStores), l);
  }

  lemma ProbeValue<V>(m: Arith<V>, env: Env<V>, storesOne: bool, e: U32)
    ensures ScalarValue(m, env, Probe(storesOne, e)) == if storesOne then m.one else env.vars(e)
  {
    hide CompactScalar, ScalarValue;
    CompactScalarCorrect(m, env, ProbeDag(e), if storesOne then 0 else 1);
  }

  // The buffer after the two components of one probed pair.
  lemma ProbedPairCells<V>(m: Arith<V>, ctx: Context<V>, l: Layout, evenStores: bool, e: U32, j: nat, now: Buffer<V>)
    requires now.Valid() && l.slot < now.slots && 2 * j + 2 <= now.width && 2 * j + 1 < U32_RANGE && e < 2
    ensures var r := PairWrites(m, ctx, l, Probe(evenStores, e), Probe(!evenStores, e), j, now);
            var out := l.slot * now.width + 2 * j;
            && out + 1 < |now.data| == |r.data|
            && if evenStores then
                 && r.data[out] == m.one
                 && r.data[out + 1] == ReadIndexed(m, now.(data := now.data[out := m.one]), l.inputBase, 2 * j + e)
               else
                 && r.data[out] == ReadIndexed(m, now, l.inputBase, 2 * j + e)
                 && r.data[out + 1] == m.one
  {
    hide ScalarValue, Probe, WriteSlot;
    var first := ScalarValue(m, PairEnv(m, ctx, now, l, j), Probe(evenStores, e));
    SlotWrite(now, l.slot, 2 * j, first);
    ProbeValue(m, PairEnv(m, ctx, now, l, j), evenStores, e);
    var half := WriteSlot(now, l.slot, 2 * j, first);
    SlotWrite(half, l.slot, 2 * j + 1, ScalarValue(m, PairEnv(m, ctx, half, l, j), Probe(!evenStores, e)));
    ProbeValue(m, PairEnv(m, ctx, half, l, j), !evenStores, e);
  }

  // When pair j starts, every output element of the storing component is 1.
  lemma {:induction false} ProbedBefore<V>(
      m: Arith<V>, ctx: Context<V>, l: Layout, evenStores: bool, e: U32, j: nat, initial: Buffer<V>, t: nat)
    requires 2 * j < U32_RANGE && initial.Valid() && l.slot < initial.slots && t < 2 * j <= initial.width && e < 2
    requires (t % 2 == 0) == evenStores
    ensures var r := RopeWrites(m, ctx, l, Probe(evenStores, e), Probe(!evenStores, e), 0, j, initial);
            l.slot * initial.width + t < |r.data| && r.data[l.slot * initial.width + t] == m.one
  {
    hide Probe, PairWrites;
    var even, odd := Probe(evenStores, e), Probe(!evenStores, e);
    var q := t / 2;
    var before := RopeWrites(m, ctx, l, even, odd, 0, q, initial);
    ProbedPairCells(m, ctx, l, evenStores, e, q, before);
    var after := PairWrites(m, ctx, l, even, odd, q, before);
    RopeSplit(m, ctx, l, even, odd, 0, q, j, initial);
    RopeFrame(m, ctx, l, even, odd, q + 1, j, after, l.slot * initial.width + t);
  }

  lemma Clash<V>(l: Layout, pairs: nat, j: nat, shape: Buffer<V>) returns (e: U32, t: nat)
    requires shape.Valid() && l.slot < shape.slots && 2 * pairs <= shape.width && 2 * pairs < U32_RANGE
    requires j < pairs && !PairFresh(shape, l, j)
    ensures e < 2 && t <= 2 * j && l.inputBase + 2 * j + e == l.slot * shape.width + t < |shape.data|
  {
    e := if IsOutput(shape, l.slot, 2 * j + 1, l.inputBase + 2 * j) then 0 else 1;
    assert IsOutput(shape, l.slot, 2 * j + 1, l.inputBase + 2 * j + e);
    t := l.inputBase + 2 * j + e - l.slot * shape.width;
    MulMono(l.slot + 1, shape.slots, shape.width);
  }

  // The copying component of pair j reads element t, which already holds 1.
  lemma WrongElement<V>(
      m: Arith<V>, ctx: Context<V>, l: Layout, evenStores: bool, e: U32, pairs: nat, j: nat, initial: Buffer<V>, t: nat)
    requires initial.Valid() && l.slot < initial.slots && 2 * pairs <= initial.width && 2 * pairs < U32_RANGE && e < 2
    requires VectorReadFits(l.inputBase, 2 * pairs) && j < pairs && t <= 2 * j && (t % 2 == 0) == evenStores
    requires l.inputBase + 2 * j + e == l.slot * initial.width + t
    ensures var r := RopeWrites(m, ctx, l, Probe(evenStores, e), Probe(!evenStores, e), 0, pairs, initial);
            var wrong := l.slot * initial.width + 2 * j + if evenStores then 1 else 0;
            wrong < |r.data| && r.data[wrong] == m.one
  {
    hide Probe, PairWrites;
    var even, odd := Probe(evenStores, e), Probe(!evenStores, e);
    var now := RopeWrites(m, ctx, l, even, odd, 0, j, initial);
    if t < 2 * j {
      ProbedBefore(m, ctx, l, evenStores, e, j, initial, t);
    }
    ProbedPairCells(m, ctx, l, evenStores, e, j, now);
    RopeSplit(m, ctx, l, even, odd, 0, j, pairs, initial);
    var after := PairWrites(m, ctx, l, even, odd, j, now);
    RopeFrame(m, ctx, l, even, odd, j + 1, pairs, after, l.slot * initial.width + 2 * j + if evenStores then 1 else 0);
  }

  // On an all-zero buffer the copying component should have produced 0.
  lemma ExpectedProbe<V>(
      m: Arith<V>, ctx: Context<V>, l: Layout, evenStores: bool, e: U32, j: nat, initial: Buffer<V>, t: nat, wrong: nat)
    requires wrong == 2 * j + (if evenStores then 1 else 0) && 2 * j + 1 < U32_RANGE && e < 2
    requires l.inputBase + 2 * j + e == l.slot * initial.width + t < |initial.data| && l.inputBase + 2 * j + e < U32_RANGE
    requires forall c :: 0 <= c < |initial.data| ==> initial.data[c] == m.zero
    requires wrong + 1 < U32_RANGE
    ensures Rotated(m, ctx, l, Probe(evenStores, e), Probe(!evenStores, e), initial, wrong) == m.zero
  {
    hide Probe, ScalarValue;
    assert wrong / 2 == j;
    ProbeValue(m, PairEnv(m, ctx, initial, l, j), false, e);
  }

  // ------------------------------------------------------------- exactly when

  /**
   If a coordinate of some pair is among the outputs written before that pair's odd component,
   a DAG and a buffer of the same shape exist on which the compiled program goes wrong.
   */
  lemma LayoutFreshNecessary<V(!new)>(m: Arith<V>, b: Bound<V>, l: Layout, pre: seq<V>, j: nat, shape: Buffer<V>)
    returns (dag: NodeSoA, roots: (U32, U32), buf: Buffer<V>)
    requires m.one != m.zero && CountsExactly(m, b.two) && b.Fits(l) && OutputsFit(l, |b.cs|, shape)
    requires j < |b.cs| && !PairFresh(shape, l, j)
    ensures Compiles(dag, roots, l) && VarsBelow(dag, 4) && SameShape(buf, shape)
    ensures !Rotates(m, b, dag, roots, l, pre, buf)
  {
    hide Probe, RopeWrites, Rotated, PairFresh, IsOutput, Rotating, RotatedCell, Flatten, Compiles, CompactScalar, VarsBelow;
    var pairs := |b.cs|;
    buf := Buffer(seq(|shape.data|, _ => m.zero), shape.width, shape.slots);
    var e, t := Clash(l, pairs, j, shape);
    var evenStores := t % 2 == 0;
    dag, roots := ProbeDag(e), ProbeRoots(evenStores);
    ProbeCompiles(evenStores, e, l);
    RotatingWrites(m, b, dag, roots, l, pre, buf);
    WrongElement(m, b.Ctx(), l, evenStores, e, pairs, j, buf, t);
    var wrong := 2 * j + if evenStores then 1 else 0;
    ExpectedProbe(m, b.Ctx(), l, evenStores, e, j, buf, t, wrong);
    ExpectedCell(m, b, l, evenStores, e, buf, wrong);
  }

  lemma OutputCell<V>(buf: Buffer<V>, slot: U32, pairs: nat, t: nat)
    requires buf.Valid() && slot < buf.slots && 2 * pairs <= buf.width && 2 * pairs < U32_RANGE && t < 2 * pairs
    ensures slot * buf.width + t < |buf.data| && IsOutput(buf, slot, 2 * pairs, slot * buf.width + t)
  {
    assert (slot + 1) * buf.width == slot * buf.width + buf.width;
    MulMono(slot + 1, buf.slots, buf.width);
  }

  lemma ExpectedCell<V>(m: Arith<V>, b: Bound<V>, l: Layout, evenStores: bool, e: U32, buf: Buffer<V>, wrong: nat)
    requires e < 2 && b.Fits(l) && OutputsFit(l, |b.cs|, buf) && wrong < 2 * |b.cs|
    ensures var dag, roots := ProbeDag(e), ProbeRoots(evenStores);
            var c := l.slot * buf.width + wrong;
            && c < |buf.data| && dag.Valid()
            && RotatedCell(m, b.Ctx(), dag, roots, b.cs, l, buf, c)
               == Rotated(m, b.Ctx(), l, Probe(evenStores, e), Probe(!evenStores, e), buf, wrong)
  {
    hide Probe, Rotated, RotatedCell, Flatten, Compiles, CompactScalar, IsOutput, VarsBelow, EvenScalar, OddScalar;
    var c := l.slot * buf.width + wrong;
    OutputCell(buf, l.slot, |b.cs|, wrong);
    ProbeCompiles(evenStores, e, l);
    CellMeaning(m, ProbeDag(e), ProbeRoots(evenStores), b.constPool, b.two, b.cs, b.inputs, l, buf, c);
  }

  predicate SameShape<V>(a: Buffer<V>, b: Buffer<V>) {
    a.Valid() && a.width == b.width && a.slots == b.slots
  }

  /** The output row exists, and every input address fits u32. */
  predicate OutputsFit<V>(l: Layout, pairs: nat, shape: Buffer<V>) {
    && shape.Valid() && l.slot < shape.slots && 2 * pairs <= shape.width && 2 * pairs < U32_RANGE
    && VectorReadFits(l.inputBase, 2 * pairs)
  }

  /**
   Exactly when: every compiled pair DAG rotates every buffer of a shape if and only if no
   pair reads a cell that was written before its odd component runs.
   */
  lemma LayoutFreshExactly<V(!new)>(m: Arith<V>, b: Bound<V>, l: Layout, pre: seq<V>, shape: Buffer<V>)
    requires m.one != m.zero && CountsExactly(m, b.two) && b.Fits(l) && OutputsFit(l, |b.cs|, shape)
    ensures LayoutFresh(shape, l, |b.cs|)
            <==> forall dag, roots: (U32, U32), buf {:trigger Rotates(m, b, dag, roots, l, pre, buf)} ::
                   Compiles(dag, roots, l) && VarsBelow(dag, 4) && SameShape(buf, shape)
                   ==> Rotates(m, b, dag, roots, l, pre, buf)
  {
    hide Rotates, Compiles, CountsExactly, VarsBelow;
    if LayoutFresh(shape, l, |b.cs|) {
      forall dag, roots: (U32, U32), buf: Buffer<V> | Compiles(dag, roots, l) && VarsBelow(dag, 4) && SameShape(buf, shape)
        ensures Rotates(m, b, dag, roots, l, pre, buf)
      {
        FreshForShape(shape, buf, l, |b.cs|);
        FreshRotates(m, b, dag, roots, l, pre, buf);
      }
    } else {
      var j: nat :| j < |b.cs| && !PairFresh(shape, l, j);
      var dag, roots, buf := LayoutFreshNecessary(m, b, l, pre, j, shape);
    }
  }

  lemma FreshForShape<V>(a: Buffer<V>, b: Buffer<V>, l: Layout, pairs: nat)
    requires SameShape(b, a) && 2 * pairs < U32_RANGE && LayoutFresh(a, l, pairs)
    ensures LayoutFresh(b, l, pairs)
  {
    forall j | 0 <= j < pairs ensures PairFresh(b, l, j) {
      assert PairFresh(a, l, j);
    }
  }
}
