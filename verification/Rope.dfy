/**
 The rotary-embedding program of `bml_rope_vector_program`: one loop over all pairs
 whose body loads a pair and its coefficients through the doubled counter, evaluates
 two compact DAG lowerings and stores both components.
 */
module Rope {
  import opened Arithmetic
  import opened Wrappers
  import opened Machine
  import opened Dag
  import opened Scalar
  import opened HotLoop
  import opened VectorLowering
  import opened CompactLowering
  import Stages = StageLowering
  import Compaction = CompactStage

  /** Where the program finds its inputs and constants, and where it writes. */
  datatype Layout = Layout(inputBase: U32, twoId: U32, coefBase: U32, slot: U32)

  /** Counter arithmetic `2k` and `2k + 1` is exact, as for doubles below 2^32. */
  ghost predicate ExactDoubling<V>(m: Arith<V>, two: V) {
    forall k: U32 {:trigger m.fromU32(k)} :: 2 * k + 1 < U32_RANGE ==>
      && m.mul(m.fromU32(k), two) == m.fromU32(2 * k)
      && m.add(m.fromU32(2 * k), m.one) == m.fromU32(2 * k + 1)
  }

  /** Pushes `2 * counter + odd`, copying the counter from `depth` below the top. */
  function IndexCode(depth: U32, twoId: U32, odd: bool): seq<Op> {
    [Pick(depth), Const(twoId), FMul] + if odd then [One, FAdd] else []
  }

  function FetchOp(l: Layout, id: U32): Op {
    if id < 2 then VarIndexed(l.inputBase) else ContextConstIndexed(l.coefBase)
  }

  function RopeLoad(l: Layout): Load {
    (id: U32, depth: U32) => IndexCode(depth, l.twoId, id % 2 == 1) + [FetchOp(l, id)]
  }

  /** One component: evaluate, push the output index, store. */
  function ComponentCode(l: Layout, scalar: seq<Op>, odd: bool): seq<Op>
    requires IsScalarProgram(scalar) && |scalar| < U32_RANGE
  {
    IndexedBody(scalar, 0, RopeLoad(l)) + (IndexCode(1, l.twoId, odd) + [StoreResult(l.slot)])
  }

  function RopeBody(l: Layout, even: seq<Op>, odd: seq<Op>): seq<Op>
    requires IsScalarProgram(even) && |even| < U32_RANGE && IsScalarProgram(odd) && |odd| < U32_RANGE
  {
    ComponentCode(l, even, false) + (ComponentCode(l, odd, true) + [Drop])
  }

  /** The four values a pair's DAG reads: the two coordinates, then cosine and sine. */
  function PairVars<V>(m: Arith<V>, ctx: Context<V>, buf: Buffer<V>, l: Layout, pair: nat): U32 -> V
    requires 2 * pair + 1 < U32_RANGE
  {
    (id: U32) =>
      if id < 2 then ReadIndexed(m, buf, l.inputBase, 2 * pair + id % 2)
      else if l.coefBase + 2 * pair + id % 2 < U32_RANGE then GetConst(m, ctx, l.coefBase + 2 * pair + id % 2)
      else m.nan
  }

  function PairEnv<V>(m: Arith<V>, ctx: Context<V>, buf: Buffer<V>, l: Layout, pair: nat): Env<V>
    requires 2 * pair + 1 < U32_RANGE
  {
    Env(PairVars(m, ctx, buf, l, pair), id => GetConst(m, ctx, id))
  }

  // ------------------------------------------------------------------- simulation

  lemma MulConstRun<V>(m: Arith<V>, ctx: Context<V>, twoId: U32, s: seq<V>, k: U32, buf: Buffer<V>)
    requires buf.Valid() && ExactDoubling(m, GetConst(m, ctx, twoId)) && 2 * k + 1 < U32_RANGE
    ensures Run(m, ctx, [Const(twoId), FMul], State(s + [m.fromU32(k)], buf)) == Some(State(s + [m.fromU32(2 * k)], buf))
  {
    BinaryStep(m, ctx, s, m.fromU32(k), GetConst(m, ctx, twoId), buf);
    RunPair(m, ctx, Const(twoId), FMul, State(s + [m.fromU32(k)], buf));
  }

  lemma AddOneRun<V>(m: Arith<V>, ctx: Context<V>, two: V, s: seq<V>, k: U32, buf: Buffer<V>)
    requires buf.Valid() && ExactDoubling(m, two) && 2 * k + 1 < U32_RANGE
    ensures Run(m, ctx, [One, FAdd], State(s + [m.fromU32(2 * k)], buf)) == Some(State(s + [m.fromU32(2 * k + 1)], buf))
  {
    assert m.add(m.fromU32(2 * k), m.one) == m.fromU32(2 * k + 1) by {
      assert m.mul(m.fromU32(k), two) == m.fromU32(2 * k);
    }
    BinaryStep(m, ctx, s, m.fromU32(2 * k), m.one, buf);
    RunPair(m, ctx, One, FAdd, State(s + [m.fromU32(2 * k)], buf));
  }

  lemma IndexRun<V>(m: Arith<V>, ctx: Context<V>, twoId: U32, odd: bool, s: seq<V>, depth: U32, k: U32, buf: Buffer<V>)
    requires buf.Valid() && ExactDoubling(m, GetConst(m, ctx, twoId)) && 2 * k + 1 < U32_RANGE
    requires depth < |s| && s[|s| - 1 - depth] == m.fromU32(k)
    ensures Run(m, ctx, IndexCode(depth, twoId, odd), State(s, buf))
            == Some(State(s + [m.fromU32(2 * k + if odd then 1 else 0)], buf))
  {
    var double := [Const(twoId), FMul];
    PickStep(m, ctx, s, depth, buf);
    RunSingle(m, ctx, Pick(depth), State(s, buf));
    MulConstRun(m, ctx, twoId, s, k, buf);
    RunConcat(m, ctx, [Pick(depth)], double, State(s, buf));
    var base := [Pick(depth)] + double;
    assert base == [Pick(depth), Const(twoId), FMul];
    if odd {
      AddOneRun(m, ctx, GetConst(m, ctx, twoId), s, k, buf);
      RunConcat(m, ctx, base, [One, FAdd], State(s, buf));
    } else {
      assert base + [] == base;
    }
  }

  lemma FetchRun<V>(m: Arith<V>, ctx: Context<V>, l: Layout, id: U32, pair: nat, s: seq<V>, buf: Buffer<V>)
    requires buf.Valid() && m.CountersSurvive() && 2 * pair + 1 < U32_RANGE
    ensures Run(m, ctx, [FetchOp(l, id)], State(s + [m.fromU32(2 * pair + id % 2)], buf))
            == Some(State(s + [PairVars(m, ctx, buf, l, pair)(id)], buf))
  {
    var k: U32 := 2 * pair + id % 2;
    var t := s + [m.fromU32(k)];
    assert m.castU32(m.fromU32(k)) == k && m.exactU32(m.fromU32(k)) == Some(k);
    RunSingle(m, ctx, FetchOp(l, id), State(t, buf));
    assert Popped(t) == s;
  }

  lemma RopeLoadIs(l: Layout, id: U32, h: U32)
    ensures RopeLoad(l)(id, h) == IndexCode(h, l.twoId, id % 2 == 1) + [FetchOp(l, id)]
    ensures LoopFree(RopeLoad(l)(id, h))
  {
  }

  lemma RopeLoadRun<V>(
      m: Arith<V>, ctx: Context<V>, l: Layout, id: U32, pair: nat, pre: seq<V>, local: seq<V>, buf: Buffer<V>)
    requires buf.Valid() && m.CountersSurvive() && ExactDoubling(m, GetConst(m, ctx, l.twoId))
    requires 2 * pair + 1 < U32_RANGE && |local| < U32_RANGE
    ensures var s := pre + [m.fromU32(pair)] + local;
            Run(m, ctx, RopeLoad(l)(id, |local|), State(s, buf)) == Some(State(s + [PairVars(m, ctx, buf, l, pair)(id)], buf))
  {
    hide Step, Run;
    var s := pre + [m.fromU32(pair)] + local;
    RopeLoadIs(l, id, |local|);
    IndexRun(m, ctx, l.twoId, id % 2 == 1, s, |local|, pair, buf);
    FetchRun(m, ctx, l, id, pair, s, buf);
    RunConcat(m, ctx, IndexCode(|local|, l.twoId, id % 2 == 1), [FetchOp(l, id)], State(s, buf));
  }

  lemma RopeLoads<V(!new)>(m: Arith<V>, ctx: Context<V>, l: Layout, id: U32, pair: nat, pre: seq<V>, buf: Buffer<V>)
    requires buf.Valid() && m.CountersSurvive() && ExactDoubling(m, GetConst(m, ctx, l.twoId)) && 2 * pair + 1 < U32_RANGE
    ensures Loads(m, ctx, pre + [m.fromU32(pair)], buf, RopeLoad(l), id, PairVars(m, ctx, buf, l, pair)(id))
  {
    forall local: seq<V> | |local| < U32_RANGE
      ensures Run(m, ctx, RopeLoad(l)(id, |local|), State(pre + [m.fromU32(pair)] + local, buf))
              == Some(State(pre + [m.fromU32(pair)] + local + [PairVars(m, ctx, buf, l, pair)(id)], buf))
    {
      RopeLoadRun(m, ctx, l, id, pair, pre, local, buf);
    }
    forall h: U32 ensures LoopFree(RopeLoad(l)(id, h)) {
      RopeLoadIs(l, id, h);
    }
  }

  lemma StoreRun<V>(m: Arith<V>, ctx: Context<V>, l: Layout, odd: bool, pair: nat, pre: seq<V>, v: V, buf: Buffer<V>)
    requires buf.Valid() && m.CountersSurvive() && ExactDoubling(m, GetConst(m, ctx, l.twoId)) && 2 * pair + 1 < U32_RANGE
    ensures Run(m, ctx, IndexCode(1, l.twoId, odd) + [StoreResult(l.slot)], State(pre + [m.fromU32(pair)] + [v], buf))
            == Some(State(pre + [m.fromU32(pair)], WriteSlot(buf, l.slot, 2 * pair + if odd then 1 else 0, v)))
  {
    hide Step, Run, WriteSlot;
    var t := pre + [m.fromU32(pair)];
    var k: U32 := 2 * pair + if odd then 1 else 0;
    IndexRun(m, ctx, l.twoId, odd, t + [v], 1, pair, buf);
    StoreStep(m, ctx, l.slot, t, v, m.fromU32(k), buf);
    RunSingle(m, ctx, StoreResult(l.slot), State(t + [v] + [m.fromU32(k)], buf));
    RunConcat(m, ctx, IndexCode(1, l.twoId, odd), [StoreResult(l.slot)], State(t + [v], buf));
  }

  /** One component's code writes the scalar result of the pair and keeps the counter. */
  lemma ComponentRun<V(!new)>(
      m: Arith<V>, ctx: Context<V>, l: Layout, scalar: seq<Op>, odd: bool, pair: nat, pre: seq<V>, buf: Buffer<V>)
    requires IsScalarProgram(scalar) && |scalar| < U32_RANGE
    requires buf.Valid() && m.CountersSurvive() && ExactDoubling(m, GetConst(m, ctx, l.twoId)) && 2 * pair + 1 < U32_RANGE
    ensures LoopFree(ComponentCode(l, scalar, odd))
    ensures Run(m, ctx, ComponentCode(l, scalar, odd), State(pre + [m.fromU32(pair)], buf))
            == Some(State(pre + [m.fromU32(pair)], WriteSlot(buf, l.slot, 2 * pair + if odd then 1 else 0,
                                                       ScalarValue(m, PairEnv(m, ctx, buf, l, pair), scalar))))
  {
    hide Step, Run, WriteSlot, RopeLoad;
    var base := pre + [m.fromU32(pair)];
    var body := IndexedBody(scalar, 0, RopeLoad(l));
    var v := ScalarValue(m, PairEnv(m, ctx, buf, l, pair), scalar);
    forall k | 0 <= k < |scalar| && scalar[k].Var?
      ensures Loads(m, ctx, base, buf, RopeLoad(l), scalar[k].id, PairVars(m, ctx, buf, l, pair)(scalar[k].id))
    {
      RopeLoads(m, ctx, l, scalar[k].id, pair, pre, buf);
    }
    BodyRun(m, ctx, PairVars(m, ctx, buf, l, pair), RopeLoad(l), scalar, base, [], buf);
    assert base + [] == base && ScalarRun(m, PairEnv(m, ctx, buf, l, pair), scalar, []).value == [v];
    StoreRun(m, ctx, l, odd, pair, pre, v, buf);
    RunConcat(m, ctx, body, IndexCode(1, l.twoId, odd) + [StoreResult(l.slot)], State(base, buf));
  }

  /** The buffer after one pair: the odd component reads what the even one left. */
  ghost function PairWrites<V>(
      m: Arith<V>, ctx: Context<V>, l: Layout, even: seq<Op>, odd: seq<Op>, pair: nat, buf: Buffer<V>): (r: Buffer<V>)
    requires IsScalarProgram(even) && IsScalarProgram(odd) && buf.Valid() && 2 * pair + 1 < U32_RANGE
    ensures r.Valid() && r.width == buf.width && r.slots == buf.slots
  {
    var half := WriteSlot(buf, l.slot, 2 * pair, ScalarValue(m, PairEnv(m, ctx, buf, l, pair), even));
    WriteSlot(half, l.slot, 2 * pair + 1, ScalarValue(m, PairEnv(m, ctx, half, l, pair), odd))
  }

  lemma PairRun<V(!new)>(
      m: Arith<V>, ctx: Context<V>, l: Layout, even: seq<Op>, odd: seq<Op>, pair: nat, pre: seq<V>, buf: Buffer<V>)
    requires IsScalarProgram(even) && |even| < U32_RANGE && IsScalarProgram(odd) && |odd| < U32_RANGE
    requires buf.Valid() && m.CountersSurvive() && ExactDoubling(m, GetConst(m, ctx, l.twoId)) && 2 * pair + 1 < U32_RANGE
    ensures Run(m, ctx, RopeBody(l, even, odd), State(pre + [m.fromU32(pair)], buf))
            == Some(State(pre, PairWrites(m, ctx, l, even, odd, pair, buf)))
  {
    var base := pre + [m.fromU32(pair)];
    var half := WriteSlot(buf, l.slot, 2 * pair, ScalarValue(m, PairEnv(m, ctx, buf, l, pair), even));
    var full := PairWrites(m, ctx, l, even, odd, pair, buf);
    var first, second := ComponentCode(l, even, false), ComponentCode(l, odd, true);
    ComponentRun(m, ctx, l, even, false, pair, pre, buf);
    ComponentRun(m, ctx, l, odd, true, pair, pre, half);
    DropStep(m, ctx, pre, m.fromU32(pair), full);
    RunSingle(m, ctx, Drop, State(base, full));
    RunConcat(m, ctx, second, [Drop], State(base, half));
    RunConcat(m, ctx, first, second + [Drop], State(base, buf));
  }

  ghost function RopeWrites<V>(
      m: Arith<V>, ctx: Context<V>, l: Layout, even: seq<Op>, odd: seq<Op>, pair: nat, pairs: nat, buf: Buffer<V>)
    : (r: Buffer<V>)
    requires IsScalarProgram(even) && IsScalarProgram(odd) && buf.Valid() && pair <= pairs && 2 * pairs < U32_RANGE
    ensures r.Valid() && r.width == buf.width && r.slots == buf.slots
    decreases pairs - pair
  {
    if pair == pairs then buf
    else RopeWrites(m, ctx, l, even, odd, pair + 1, pairs, PairWrites(m, ctx, l, even, odd, pair, buf))
  }

  lemma {:induction false} RopeIterations<V(!new)>(
      m: Arith<V>, ctx: Context<V>, l: Layout, even: seq<Op>, odd: seq<Op>, pair: nat, pairs: U32,
      pre: seq<V>, buf: Buffer<V>)
    requires IsScalarProgram(even) && |even| < U32_RANGE && IsScalarProgram(odd) && |odd| < U32_RANGE
    requires buf.Valid() && m.CountersSurvive() && ExactDoubling(m, GetConst(m, ctx, l.twoId))
    requires pair <= pairs && 2 * pairs < U32_RANGE
    ensures Iterate(m, ctx, RopeBody(l, even, odd), pair, pairs, State(pre, buf))
            == Some(State(pre, RopeWrites(m, ctx, l, even, odd, pair, pairs, buf)))
    decreases pairs - pair
  {
    if pair < pairs {
      PairRun(m, ctx, l, even, odd, pair, pre, buf);
      RopeIterations(m, ctx, l, even, odd, pair + 1, pairs, pre, PairWrites(m, ctx, l, even, odd, pair, buf));
    }
  }

  // ------------------------------------------------------------------ cell contents

  /** No coordinate of pair `j` is among the outputs written before its odd component runs. */
  predicate PairFresh<V>(buf: Buffer<V>, l: Layout, j: nat)
    requires 2 * j + 1 < U32_RANGE
  {
    !IsOutput(buf, l.slot, 2 * j + 1, l.inputBase + 2 * j) && !IsOutput(buf, l.slot, 2 * j + 1, l.inputBase + 2 * j + 1)
  }

  ghost predicate LayoutFresh<V>(buf: Buffer<V>, l: Layout, pairs: nat)
    requires 2 * pairs < U32_RANGE
  {
    forall j :: 0 <= j < pairs ==> PairFresh(buf, l, j)
  }

  /** What output element `t` should hold, in terms of the initial buffer. */
  function Rotated<V>(m: Arith<V>, ctx: Context<V>, l: Layout, even: seq<Op>, odd: seq<Op>, initial: Buffer<V>, t: nat): V
    requires IsScalarProgram(even) && IsScalarProgram(odd) && t + 1 < U32_RANGE
  {
    ScalarValue(m, PairEnv(m, ctx, initial, l, t / 2), if t % 2 == 0 then even else odd)
  }

  /** Output elements below `t` hold their rotated values, all other cells are unchanged. */
  ghost predicate RotatedTo<V>(
      m: Arith<V>, ctx: Context<V>, l: Layout, even: seq<Op>, odd: seq<Op>, initial: Buffer<V>, t: nat, buf: Buffer<V>)
    requires IsScalarProgram(even) && IsScalarProgram(odd) && t < U32_RANGE
  {
    && |buf.data| == |initial.data| && buf.width == initial.width && buf.slots == initial.slots
    && forall c :: 0 <= c < |buf.data| ==>
         buf.data[c] == if IsOutput(initial, l.slot, t, c)
                        then Rotated(m, ctx, l, even, odd, initial, c - l.slot * initial.width)
                        else initial.data[c]
  }

  lemma FreshEnv<V>(
      m: Arith<V>, ctx: Context<V>, l: Layout, even: seq<Op>, odd: seq<Op>, initial: Buffer<V>, j: nat, t: nat, buf: Buffer<V>,
      scalar: seq<Op>)
    requires IsScalarProgram(even) && IsScalarProgram(odd) && IsScalarProgram(scalar)
    requires 2 * j + 1 < U32_RANGE && 2 * j <= t <= 2 * j + 1
    requires PairFresh(initial, l, j) && RotatedTo(m, ctx, l, even, odd, initial, t, buf)
    ensures ScalarValue(m, PairEnv(m, ctx, buf, l, j), scalar) == ScalarValue(m, PairEnv(m, ctx, initial, l, j), scalar)
  {
    hide Rotated, ScalarRun, Depth;
    var now, first := PairEnv(m, ctx, buf, l, j), PairEnv(m, ctx, initial, l, j);
    forall id: U32 ensures now.vars(id) == first.vars(id) {
      var c := l.inputBase + 2 * j + id % 2;
      assert !IsOutput(initial, l.slot, t, c);
    }
    ScalarRunAgrees(m, now, first, scalar, []);
  }

  lemma ElementWrite<V>(
      m: Arith<V>, ctx: Context<V>, l: Layout, even: seq<Op>, odd: seq<Op>, initial: Buffer<V>, t: nat, buf: Buffer<V>)
    requires IsScalarProgram(even) && IsScalarProgram(odd) && t + 1 < U32_RANGE && initial.Valid() && buf.Valid()
    requires RotatedTo(m, ctx, l, even, odd, initial, t, buf)
    ensures RotatedTo(m, ctx, l, even, odd, initial, t + 1,
                      WriteSlot(buf, l.slot, t, Rotated(m, ctx, l, even, odd, initial, t)))
  {
    assert (l.slot + 1) * initial.width == l.slot * initial.width + initial.width;
  }

  lemma PairCells<V>(
      m: Arith<V>, ctx: Context<V>, l: Layout, even: seq<Op>, odd: seq<Op>, pair: nat, initial: Buffer<V>, buf: Buffer<V>)
    requires IsScalarProgram(even) && IsScalarProgram(odd) && 2 * pair + 2 < U32_RANGE
    requires initial.Valid() && buf.Valid() && PairFresh(initial, l, pair)
    requires RotatedTo(m, ctx, l, even, odd, initial, 2 * pair, buf)
    ensures RotatedTo(m, ctx, l, even, odd, initial, 2 * pair + 2, PairWrites(m, ctx, l, even, odd, pair, buf))
  {
    assert (2 * pair) / 2 == pair && (2 * pair + 1) / 2 == pair && (2 * pair + 1) % 2 == 1;
    FreshEnv(m, ctx, l, even, odd, initial, pair, 2 * pair, buf, even);
    ElementWrite(m, ctx, l, even, odd, initial, 2 * pair, buf);
    var half := WriteSlot(buf, l.slot, 2 * pair, ScalarValue(m, PairEnv(m, ctx, buf, l, pair), even));
    FreshEnv(m, ctx, l, even, odd, initial, pair, 2 * pair + 1, half, odd);
    ElementWrite(m, ctx, l, even, odd, initial, 2 * pair + 1, half);
  }

  lemma {:induction false} RopeWritesCells<V>(
      m: Arith<V>, ctx: Context<V>, l: Layout, even: seq<Op>, odd: seq<Op>, pair: nat, pairs: nat,
      initial: Buffer<V>, buf: Buffer<V>)
    requires IsScalarProgram(even) && IsScalarProgram(odd) && pair <= pairs && 2 * pairs < U32_RANGE
    requires initial.Valid() && buf.Valid() && LayoutFresh(initial, l, pairs)
    requires RotatedTo(m, ctx, l, even, odd, initial, 2 * pair, buf)
    ensures RotatedTo(m, ctx, l, even, odd, initial, 2 * pairs, RopeWrites(m, ctx, l, even, odd, pair, pairs, buf))
    decreases pairs - pair
  {
    if pair < pairs {
      assert PairFresh(initial, l, pair);
      PairCells(m, ctx, l, even, odd, pair, initial, buf);
      RopeWritesCells(m, ctx, l, even, odd, pair + 1, pairs, initial, PairWrites(m, ctx, l, even, odd, pair, buf));
    }
  }

  // ---------------------------------------------------------------- the whole program

  datatype RopeError =
    | DimensionsOverflow
    | BadDimensions
    | BadFrequency
    | AddressOverflow
    | BadBound
    | NonfiniteCoefficient

  /** `boundOk`: the pair operation accepts the declared input bound. */
  datatype RopeConfig = RopeConfig(heads: U32, headDim: U32, frequencyOk: bool, boundOk: bool)

  const MAX_COORDINATES := 65536

  /** Bytecode, the complete constant pool, and the coefficient of every pair. */
  datatype RopeProgram<V> = RopeProgram(ops: seq<Op>, pool: seq<V>, coefficients: seq<(V, V)>)

  function Flatten<V>(cs: seq<(V, V)>): (r: seq<V>)
    ensures |r| == 2 * |cs|
    ensures forall k :: 0 <= k < |cs| ==> r[2 * k] == cs[k].0 && r[2 * k + 1] == cs[k].1
  {
    if cs == [] then [] else Flatten(cs[..|cs| - 1]) + [cs[|cs| - 1].0, cs[|cs| - 1].1]
  }

  /** `check_vector_read`. */
  predicate VectorReadFits(base: U32, count: U32) {
    count > 0 ==> base + (count - 1) < U32_RANGE
  }

  /** Pair `k` counted over all heads uses the coefficient of its position inside its head. */
  ghost predicate Restarted<V>(cs: seq<(V, V)>, half: nat, coefficient: nat -> Option<(V, V)>)
    requires half > 0
  {
    forall k :: 0 <= k < |cs| ==> coefficient(k % half) == Some(cs[k])
  }

  /** The coefficient table: the frequencies restart at each head. */
  method Coefficients<V>(heads: nat, half: nat, coefficient: nat -> Option<(V, V)>) returns (cs: Option<seq<(V, V)>>)
    requires half > 0
    ensures cs.Some? <==> heads == 0 || forall pair :: 0 <= pair < half ==> coefficient(pair).Some?
    ensures cs.Some? ==> |cs.value| == heads * half && Restarted(cs.value, half, coefficient)
  {
    var table: seq<(V, V)> := [];
    for head := 0 to heads
      invariant |table| == head * half && Restarted(table, half, coefficient)
      invariant head > 0 ==> forall pair :: 0 <= pair < half ==> coefficient(pair).Some?
    {
      for pair := 0 to half
        invariant |table| == head * half + pair && Restarted(table, half, coefficient)
        invariant forall q :: 0 <= q < pair ==> coefficient(q).Some?
      {
        HeadPair(head, half, pair);
        match coefficient(pair)
        case None => return None;
        case Some(c) => table := table + [c];
      }
      assert (head + 1) * half == head * half + half;
    }
    cs := Some(table);
  }

  lemma HeadPair(head: nat, half: nat, pair: nat)
    requires pair < half
    ensures (head * half + pair) % half == pair && (head * half + pair) / half == head
  {
    DivModUnique(head * half + pair, half, head, pair);
  }

  /** Where the compiler places its constants: behind the DAG's own pool. */
  function LayoutOf(inputBase: U32, slot: U32, poolSize: nat): (l: Layout)
    requires poolSize + 1 < U32_RANGE
    ensures l.inputBase == inputBase && l.slot == slot && l.twoId == poolSize && l.coefBase == poolSize + 1
  {
    Layout(inputBase, poolSize, poolSize + 1, slot)
  }

  ghost function PairLoop(pairs: U32, l: Layout, dag: NodeSoA, roots: (U32, U32)): seq<Op>
    requires Compiles(dag, roots, l)
  {
    var body := RopeBody(l, EvenScalar(dag, roots), OddScalar(dag, roots));
    [Loop(pairs, |body|)] + body
  }

  /** The program of an admitted configuration: one loop over all pairs of all heads. */
  ghost predicate Built<V>(
      p: RopeProgram<V>, l: Layout, config: RopeConfig, dag: NodeSoA, roots: (U32, U32), constPool: seq<V>, two: V,
      coefficient: nat -> Option<(V, V)>)
    requires Compiles(dag, roots, l)
  {
    && config.headDim / 2 > 0 && 2 * |p.coefficients| <= MAX_COORDINATES
    && p.ops == PairLoop(|p.coefficients|, l, dag, roots)
    && p.pool == constPool + [two] + Flatten(p.coefficients)
    && |p.coefficients| == config.heads * (config.headDim / 2)
    && Restarted(p.coefficients, config.headDim / 2, coefficient)
  }

  /** `bml_rope_vector_program` over the pair DAG and its two roots. */
  method BuildRopeProgram<V>(
      inputBase: U32, slot: U32, config: RopeConfig, dag: NodeSoA, roots: (U32, U32), constPool: seq<V>, two: V,
      coefficient: nat -> Option<(V, V)>)
    returns (r: Result<RopeProgram<V>, RopeError>)
    requires |constPool| + 1 < U32_RANGE && Compiles(dag, roots, LayoutOf(inputBase, slot, |constPool|))
    ensures r.Ok? <==>
              && config.heads > 0 && config.headDim > 0 && config.headDim % 2 == 0
              && config.heads * config.headDim <= 65536 && inputBase + (config.heads * config.headDim - 1) < 0x1_0000_0000
              && config.frequencyOk && config.boundOk
              && forall pair :: 0 <= pair < config.headDim / 2 ==> coefficient(pair).Some?
    ensures r.Ok? ==> Built(r.value, LayoutOf(inputBase, slot, |constPool|), config, dag, roots, constPool, two, coefficient)
  {
    hide Compiles, PairLoop, Flatten, Restarted;
    var width := config.heads * config.headDim;
    if width >= U32_RANGE {
      return Err(DimensionsOverflow);
    }
    if config.heads == 0 || config.headDim == 0 || config.headDim % 2 != 0 || width > MAX_COORDINATES {
      return Err(BadDimensions);
    }
    if !config.frequencyOk {
      return Err(BadFrequency);
    }
    if !VectorReadFits(inputBase, width) {
      return Err(AddressOverflow);
    }
    if !config.boundOk {
      return Err(BadBound);
    }
    var table := Coefficients(config.heads, config.headDim / 2, coefficient);
    if table.None? {
      return Err(NonfiniteCoefficient);
    }
    PairCount(config.heads, config.headDim);
    var ops := EmitLoop(width / 2, LayoutOf(inputBase, slot, |constPool|), dag, roots);
    r := Ok(RopeProgram(ops, constPool + [two] + Flatten(table.value), table.value));
  }

  /** The loop over the compacted pair DAG. */
  method EmitLoop(pairs: U32, l: Layout, dag: NodeSoA, roots: (U32, U32)) returns (ops: seq<Op>)
    requires Compiles(dag, roots, l)
    ensures ops == PairLoop(pairs, l, dag, roots)
  {
    hide IsScalarProgram, ComponentCode;
    var compact, images := Compaction.CompactStageDag(dag, [roots.0, roots.1]);
    var even := Stages.LinearizeStage(compact, images[0]);
    var odd := Stages.LinearizeStage(compact, images[1]);
    var body := EmitComponent(l, even, false);
    var second := EmitComponent(l, odd, true);
    body := body + (second + [Drop]);
    ops := [Loop(pairs, |body|)] + body;
  }

  method EmitComponent(l: Layout, scalar: seq<Op>, odd: bool) returns (code: seq<Op>)
    requires IsScalarProgram(scalar) && |scalar| < U32_RANGE
    ensures code == ComponentCode(l, scalar, odd)
  {
    code := IndexedScalarBody(scalar, RopeLoad(l));
    var tail := [Pick(1), Const(l.twoId), FMul];
    if odd {
      tail := tail + [One, FAdd];
    }
    tail := tail + [StoreResult(l.slot)];
    code := code + tail;
  }

  function EvenScalar(dag: NodeSoA, roots: (U32, U32)): (r: seq<Op>)
    requires dag.Valid() && roots.0 < dag.Size()
    ensures IsScalarProgram(r)
  {
    CompactScalar(dag, roots.0)
  }

  function OddScalar(dag: NodeSoA, roots: (U32, U32)): (r: seq<Op>)
    requires dag.Valid() && roots.1 < dag.Size()
    ensures IsScalarProgram(r)
  {
    CompactScalar(dag, roots.1)
  }

  /** A DAG with two roots whose code fits the u32 fields, as the casts of the source assume. */
  ghost predicate Compiles(dag: NodeSoA, roots: (U32, U32), l: Layout) {
    && dag.Valid() && roots.0 < dag.Size() && roots.1 < dag.Size()
    && |EvenScalar(dag, roots)| < U32_RANGE && |OddScalar(dag, roots)| < U32_RANGE
    && |RopeBody(l, EvenScalar(dag, roots), OddScalar(dag, roots))| < U32_RANGE
  }

  lemma ComponentSize(l: Layout, scalar: seq<Op>, odd: bool)
    requires IsScalarProgram(scalar) && |scalar| < U32_RANGE
    ensures |ComponentCode(l, scalar, odd)| <= 6 * |scalar| + 6
  {
    forall id: U32, h: U32 ensures |RopeLoad(l)(id, h)| <= 6 {
      RopeLoadIs(l, id, h);
    }
    IndexedBodySize(scalar, 0, RopeLoad(l), 6);
  }

  /** Every DAG of at most 70 million nodes compiles. */
  lemma SizeCompiles(dag: NodeSoA, roots: (U32, U32), l: Layout)
    requires dag.Valid() && roots.0 < dag.Size() <= 70_000_000 && roots.1 < dag.Size()
    ensures Compiles(dag, roots, l)
  {
    hide ComponentCode, CompactScalar, IsScalarProgram;
    CompactSize(dag, roots.0);
    CompactSize(dag, roots.1);
    ComponentSize(l, EvenScalar(dag, roots), false);
    ComponentSize(l, OddScalar(dag, roots), true);
  }

  /** The values of pair `(head, p)`: its coordinates from the buffer, its coefficient from the table. */
  function RotationEnv<V>(
      m: Arith<V>, ctx: Context<V>, buf: Buffer<V>, inputBase: U32, pair: nat, coefficient: (V, V)): Env<V>
    requires 2 * pair + 1 < U32_RANGE
  {
    Env((id: U32) => if id < 2 then ReadIndexed(m, buf, inputBase, 2 * pair + id)
                     else if id == 2 then coefficient.0 else coefficient.1,
        id => GetConst(m, ctx, id))
  }

  ghost predicate PairAgree<V>(e: Env<V>, f: Env<V>) {
    && (forall v: U32 :: v < 4 ==> e.vars(v) == f.vars(v))
    && forall c: U32 :: e.consts(c) == f.consts(c)
  }

  lemma FourAgree<V>(dag: NodeSoA, e: Env<V>, f: Env<V>)
    requires VarsBelow(dag, 4) && PairAgree(e, f)
    ensures AgreeOn(dag, e, f)
  {
  }

  lemma CoefficientLookup<V>(m: Arith<V>, constPool: seq<V>, two: V, cs: seq<(V, V)>, inputs: seq<V>, k: nat)
    requires k < |cs| && |constPool| + 1 + 2 * |cs| < U32_RANGE
    ensures var ctx := Context(inputs, constPool + [two] + Flatten(cs));
            && GetConst(m, ctx, |constPool|) == two
            && GetConst(m, ctx, |constPool| + 1 + 2 * k) == cs[k].0
            && GetConst(m, ctx, |constPool| + 1 + 2 * k + 1) == cs[k].1
  {
    var flat := Flatten(cs);
    assert forall j :: 0 <= j < |flat| ==> (constPool + [two] + flat)[|constPool| + 1 + j] == flat[j];
  }

  lemma PairMeaning<V>(
      m: Arith<V>, dag: NodeSoA, root: U32, constPool: seq<V>, two: V, cs: seq<(V, V)>, inputs: seq<V>,
      l: Layout, buf: Buffer<V>, pair: nat)
    requires dag.Valid() && root < dag.Size() && VarsBelow(dag, 4)
    requires pair < |cs| && |constPool| + 1 + 2 * |cs| < U32_RANGE
    requires l.twoId == |constPool| && l.coefBase == |constPool| + 1
    ensures var ctx := Context(inputs, constPool + [two] + Flatten(cs));
            ScalarValue(m, PairEnv(m, ctx, buf, l, pair), CompactScalar(dag, root))
            == Eval(m, dag, RotationEnv(m, ctx, buf, l.inputBase, pair, cs[pair]), root)
  {
    hide Flatten, Eval, ScalarValue, PairEnv, RotationEnv, PairAgree, VarsBelow, CompactScalar, AgreeOn;
    var ctx := Context(inputs, constPool + [two] + Flatten(cs));
    var e, f := PairEnv(m, ctx, buf, l, pair), RotationEnv(m, ctx, buf, l.inputBase, pair, cs[pair]);
    CompactScalarCorrect(m, e, dag, root);
    PairEnvMeaning(m, constPool, two, cs, inputs, l, buf, pair);
    FourAgree(dag, e, f);
    EvalAgrees(m, dag, e, f, root);
  }

  lemma PairEnvMeaning<V>(
      m: Arith<V>, constPool: seq<V>, two: V, cs: seq<(V, V)>, inputs: seq<V>, l: Layout, buf: Buffer<V>, pair: nat)
    requires pair < |cs| && |constPool| + 1 + 2 * |cs| < U32_RANGE && l.coefBase == |constPool| + 1
    ensures var ctx := Context(inputs, constPool + [two] + Flatten(cs));
            PairAgree(PairEnv(m, ctx, buf, l, pair), RotationEnv(m, ctx, buf, l.inputBase, pair, cs[pair]))
  {
    hide Flatten, GetConst, ReadIndexed;
    CoefficientLookup(m, constPool, two, cs, inputs, pair);
    var ctx := Context(inputs, constPool + [two] + Flatten(cs));
    var e, f := PairVars(m, ctx, buf, l, pair), RotationEnv(m, ctx, buf, l.inputBase, pair, cs[pair]).vars;
    assert e(0) == f(0) && e(1) == f(1) && e(2) == f(2) && e(3) == f(3);
  }

  /** What flat cell `c` should hold once every pair is rotated. */
  function RotatedCell<V>(
      m: Arith<V>, ctx: Context<V>, dag: NodeSoA, roots: (U32, U32), cs: seq<(V, V)>, l: Layout, buf: Buffer<V>, c: nat): V
    requires dag.Valid() && roots.0 < dag.Size() && roots.1 < dag.Size() && c < |buf.data| && 2 * |cs| < U32_RANGE
  {
    if IsOutput(buf, l.slot, 2 * |cs|, c) then
      var t := c - l.slot * buf.width;
      Eval(m, dag, RotationEnv(m, ctx, buf, l.inputBase, t / 2, cs[t / 2]), if t % 2 == 0 then roots.0 else roots.1)
    else buf.data[c]
  }

  lemma CellMeaning<V>(
      m: Arith<V>, dag: NodeSoA, roots: (U32, U32), constPool: seq<V>, two: V, cs: seq<(V, V)>, inputs: seq<V>,
      l: Layout, buf: Buffer<V>, c: nat)
    requires dag.Valid() && roots.0 < dag.Size() && roots.1 < dag.Size() && VarsBelow(dag, 4)
    requires |constPool| + 1 + 2 * |cs| < U32_RANGE && l.twoId == |constPool| && l.coefBase == |constPool| + 1
    requires c < |buf.data|
    ensures var ctx := Context(inputs, constPool + [two] + Flatten(cs));
            RotatedCell(m, ctx, dag, roots, cs, l, buf, c)
            == if IsOutput(buf, l.slot, 2 * |cs|, c)
               then Rotated(m, ctx, l, EvenScalar(dag, roots), OddScalar(dag, roots), buf, c - l.slot * buf.width)
               else buf.data[c]
  {
    hide Eval, Flatten, RotationEnv, VarsBelow, IsScalarProgram, EvenScalar, OddScalar, Rotated;
    if IsOutput(buf, l.slot, 2 * |cs|, c) {
      RotatedMeaning(m, dag, roots, constPool, two, cs, inputs, l, buf, c - l.slot * buf.width);
    }
  }

  /** An output element's scalar result is the value of the root of its parity. */
  lemma RotatedMeaning<V>(
      m: Arith<V>, dag: NodeSoA, roots: (U32, U32), constPool: seq<V>, two: V, cs: seq<(V, V)>, inputs: seq<V>,
      l: Layout, buf: Buffer<V>, t: nat)
    requires dag.Valid() && roots.0 < dag.Size() && roots.1 < dag.Size() && VarsBelow(dag, 4)
    requires |constPool| + 1 + 2 * |cs| < U32_RANGE && l.twoId == |constPool| && l.coefBase == |constPool| + 1
    requires t < 2 * |cs|
    ensures var ctx := Context(inputs, constPool + [two] + Flatten(cs));
            Rotated(m, ctx, l, EvenScalar(dag, roots), OddScalar(dag, roots), buf, t)
            == Eval(m, dag, RotationEnv(m, ctx, buf, l.inputBase, t / 2, cs[t / 2]), if t % 2 == 0 then roots.0 else roots.1)
  {
    hide Eval, Flatten, CompactScalar, PairEnv, RotationEnv, ScalarValue, VarsBelow, IsScalarProgram;
    if t % 2 == 0 {
      PairMeaning(m, dag, roots.0, constPool, two, cs, inputs, l, buf, t / 2);
    } else {
      PairMeaning(m, dag, roots.1, constPool, two, cs, inputs, l, buf, t / 2);
    }
  }

  /**
   The vector program rotates every pair: with the owned constants bound, output elements
   `2i` and `2i + 1` receive the values of the two DAG roots on coordinates `x[2i]`,
   `x[2i + 1]` and the coefficient of pair `i` inside its head; every other cell and the
   caller's stack are unchanged.
   */
  lemma RopeProgramCorrect<V(!new)>(
      m: Arith<V>, dag: NodeSoA, roots: (U32, U32), constPool: seq<V>, two: V, cs: seq<(V, V)>, inputs: seq<V>,
      l: Layout, pre: seq<V>, buf: Buffer<V>)
    requires Compiles(dag, roots, l) && VarsBelow(dag, 4)
    requires |constPool| + 1 + 2 * |cs| < U32_RANGE && l.twoId == |constPool| && l.coefBase == |constPool| + 1
    requires m.CountersSurvive() && ExactDoubling(m, two) && buf.Valid() && LayoutFresh(buf, l, |cs|)
    ensures var ctx := Context(inputs, constPool + [two] + Flatten(cs));
            var r := Run(m, ctx, PairLoop(|cs|, l, dag, roots), State(pre, buf));
            && r.Some? && r.value.stack == pre && |r.value.buf.data| == |buf.data|
            && forall c :: 0 <= c < |buf.data| ==>
                 r.value.buf.data[c] == RotatedCell(m, ctx, dag, roots, cs, l, buf, c)
  {
    hide Run, Flatten, EvenScalar, OddScalar, RopeBody, RotatedCell, Rotated;
    var ctx := Context(inputs, constPool + [two] + Flatten(cs));
    if cs != [] {
      CoefficientLookup(m, constPool, two, cs, inputs, 0);
    }
    RopeRun(m, ctx, l, EvenScalar(dag, roots), OddScalar(dag, roots), |cs|, pre, buf);
    forall c | 0 <= c < |buf.data| {
      CellMeaning(m, dag, roots, constPool, two, cs, inputs, l, buf, c);
    }
  }

  lemma RopeRun<V(!new)>(
      m: Arith<V>, ctx: Context<V>, l: Layout, even: seq<Op>, odd: seq<Op>, pairs: U32, pre: seq<V>, buf: Buffer<V>)
    requires IsScalarProgram(even) && |even| < U32_RANGE && IsScalarProgram(odd) && |odd| < U32_RANGE
    requires |RopeBody(l, even, odd)| < U32_RANGE && 2 * pairs < U32_RANGE
    requires m.CountersSurvive() && buf.Valid() && LayoutFresh(buf, l, pairs)
    requires pairs > 0 ==> ExactDoubling(m, GetConst(m, ctx, l.twoId))
    ensures var body := RopeBody(l, even, odd);
            var r := Run(m, ctx, [Loop(pairs, |body|)] + body, State(pre, buf));
            r.Some? && r.value.stack == pre && RotatedTo(m, ctx, l, even, odd, buf, 2 * pairs, r.value.buf)
  {
    hide RopeBody, Rotated, LayoutFresh, ExactDoubling, GetConst, IsScalarProgram, Iterate, Run, RopeWrites, IsOutput;
    var body := RopeBody(l, even, odd);
    ProgramIsLoop(m, ctx, pairs, body, State(pre, buf));
    NoRotations(m, ctx, l, even, odd, body, State(pre, buf));
    if pairs > 0 {
      RopeIterations(m, ctx, l, even, odd, 0, pairs, pre, buf);
      RopeWritesCells(m, ctx, l, even, odd, 0, pairs, buf, buf);
    }
  }

  lemma NoRotations<V>(
      m: Arith<V>, ctx: Context<V>, l: Layout, even: seq<Op>, odd: seq<Op>, body: seq<Op>, st: State<V>)
    requires IsScalarProgram(even) && IsScalarProgram(odd) && st.buf.Valid()
    ensures Iterate(m, ctx, body, 0, 0, st) == Some(st) && RotatedTo(m, ctx, l, even, odd, st.buf, 0, st.buf)
  {
    hide IsScalarProgram, Rotated;
  }

  // ------------------------------------------------------------- built, then run

  /** Even head dimensions within the cap, and a coefficient for each pair of a head. */
  ghost predicate Shaped<V>(config: RopeConfig, coefficient: nat -> Option<(V, V)>) {
    && config.headDim > 0 && config.headDim % 2 == 0 && config.heads * config.headDim <= MAX_COORDINATES
    && forall pair :: 0 <= pair < config.headDim / 2 ==> coefficient(pair).Some?
  }

  /** What flat cell `c` should hold: each head starts over with the first coefficient. */
  ghost function HeadCell<V>(
      m: Arith<V>, ctx: Context<V>, dag: NodeSoA, roots: (U32, U32), config: RopeConfig, coefficient: nat -> Option<(V, V)>,
      inputBase: U32, slot: U32, buf: Buffer<V>, c: nat): V
    requires dag.Valid() && roots.0 < dag.Size() && roots.1 < dag.Size() && c < |buf.data|
    requires Shaped(config, coefficient)
  {
    if IsOutput(buf, slot, config.heads * config.headDim, c) then
      var t := c - slot * buf.width;
      var i := t / 2;
      Eval(m, dag, RotationEnv(m, ctx, buf, inputBase, i, coefficient(i % (config.headDim / 2)).value),
           if t % 2 == 0 then roots.0 else roots.1)
    else buf.data[c]
  }

  lemma PairCount(heads: nat, headDim: nat)
    requires headDim % 2 == 0
    ensures heads * headDim / 2 == heads * (headDim / 2) && 2 * (heads * (headDim / 2)) == heads * headDim
  {
    assert headDim == 2 * (headDim / 2);
    assert heads * headDim == 2 * (heads * (headDim / 2));
  }

  lemma HeadCellIs<V>(
      m: Arith<V>, ctx: Context<V>, dag: NodeSoA, roots: (U32, U32), config: RopeConfig, coefficient: nat -> Option<(V, V)>,
      cs: seq<(V, V)>, l: Layout, buf: Buffer<V>, c: nat)
    requires dag.Valid() && roots.0 < dag.Size() && roots.1 < dag.Size() && c < |buf.data|
    requires Shaped(config, coefficient)
    requires |cs| == config.heads * (config.headDim / 2) && Restarted(cs, config.headDim / 2, coefficient)
    ensures 2 * |cs| == config.heads * config.headDim
    ensures HeadCell(m, ctx, dag, roots, config, coefficient, l.inputBase, l.slot, buf, c)
            == RotatedCell(m, ctx, dag, roots, cs, l, buf, c)
  {
    hide Eval, RotationEnv;
    PairCount(config.heads, config.headDim);
  }

  /**
   What the compiler returns, run on any stack and on any buffer with a fresh layout:
   outputs `2i` and `2i + 1` are the two roots on `x[2i]`, `x[2i + 1]` and the coefficient of
   pair `i` inside its head; every other cell and the caller's stack are unchanged.
   */
  lemma BuiltRopeCorrect<V(!new)>(
      m: Arith<V>, p: RopeProgram<V>, config: RopeConfig, dag: NodeSoA, roots: (U32, U32), constPool: seq<V>, two: V,
      coefficient: nat -> Option<(V, V)>, inputBase: U32, slot: U32, l: Layout, inputs: seq<V>, pre: seq<V>,
      buf: Buffer<V>)
    requires |constPool| + 1 + MAX_COORDINATES < U32_RANGE && l == LayoutOf(inputBase, slot, |constPool|)
    requires Compiles(dag, roots, l) && VarsBelow(dag, 4)
    requires Built(p, l, config, dag, roots, constPool, two, coefficient)
    requires Shaped(config, coefficient)
    requires m.CountersSurvive() && ExactDoubling(m, two) && buf.Valid() && LayoutFresh(buf, l, |p.coefficients|)
    ensures var ctx := Context(inputs, p.pool);
            var r := Run(m, ctx, p.ops, State(pre, buf));
            && r.Some? && r.value.stack == pre && |r.value.buf.data| == |buf.data|
            && forall c :: 0 <= c < |buf.data| ==>
                 r.value.buf.data[c] == HeadCell(m, ctx, dag, roots, config, coefficient, inputBase, slot, buf, c)
  {
    hide Run, Flatten, EvenScalar, OddScalar, RopeBody, RotatedCell, HeadCell, Restarted, LayoutFresh, ExactDoubling;
    PairCount(config.heads, config.headDim);
    RopeProgramCorrect(m, dag, roots, constPool, two, p.coefficients, inputs, l, pre, buf);
    forall c | 0 <= c < |buf.data| {
      HeadCellIs(m, Context(inputs, p.pool), dag, roots, config, coefficient, p.coefficients, l, buf, c);
    }
  }
}
