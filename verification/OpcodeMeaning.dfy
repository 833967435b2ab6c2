/**
 Every opcode of the dispatcher on explicit operands: what it takes from the stack, what it
 leaves there, and what it does when operands are missing or an address is out of range.
 */
module OpcodeMeaning {
  import opened Wrappers
  import opened Machine
  import opened HotLoop
  import FragmentEval

  /** Opcodes that need no operand. */
  lemma Leaves<V>(m: Arith<V>, ctx: Context<V>, s: seq<V>, buf: Buffer<V>, id: U32)
    requires buf.Valid()
    ensures Step(m, ctx, One, State(s, buf)) == Some(State(s + [m.one], buf))
    ensures Step(m, ctx, Zero, State(s, buf)) == Some(State(s + [m.zero], buf))
    ensures Step(m, ctx, Var(id), State(s, buf))
            == Some(State(s + [if id < |ctx.inputs| then ctx.inputs[id] else m.nan], buf))
    ensures Step(m, ctx, Const(id), State(s, buf))
            == Some(State(s + [if id < |ctx.weights| then ctx.weights[id] else m.nan], buf))
  {
  }

  lemma Tops<V>(pre: seq<V>, a: V, b: V, x: V)
    ensures var s := pre + [a, b];
            && s[..|s| - 2] == pre && Popped(s) == pre + [a] && Popped(Popped(s)) == pre && s + [x] == pre + [a, b, x]
            && s[|s| - 1] == b && s[|s| - 2] == a
  {
  }

  lemma Few<V>(a: V, x: V)
    ensures [] + [x] == [x] && [a] + [x] == [a, x] && Popped([a]) == [] && Popped<V>([]) == []
  {
  }

  /** Arithmetic on the two topmost values, `b` on top of `a`. */
  lemma OnTwo<V>(m: Arith<V>, ctx: Context<V>, pre: seq<V>, a: V, b: V, buf: Buffer<V>)
    requires buf.Valid()
    ensures var st := State(pre + [a, b], buf);
            && Step(m, ctx, Bml, st) == Some(State(pre + [m.bml(a, b)], buf))
            && Step(m, ctx, FAdd, st) == Some(State(pre + [m.add(a, b)], buf))
            && Step(m, ctx, FMul, st) == Some(State(pre + [m.mul(a, b)], buf))
            && Step(m, ctx, FMax, st) == Some(State(pre + [m.max(a, b)], buf))
  {
    Tops(pre, a, b, a);
    assert TopOr(pre + [a], m.nan) == a;
  }

  /** Moves among the two topmost values. */
  lemma Moves<V>(m: Arith<V>, ctx: Context<V>, pre: seq<V>, a: V, b: V, buf: Buffer<V>)
    requires buf.Valid()
    ensures var st := State(pre + [a, b], buf);
            && Step(m, ctx, Swap, st) == Some(State(pre + [b, a], buf))
            && Step(m, ctx, Drop, st) == Some(State(pre + [a], buf))
            && Step(m, ctx, Dup, st) == Step(m, ctx, Pick(0), st) == Some(State(pre + [a, b, b], buf))
            && Step(m, ctx, Pick(1), st) == Some(State(pre + [a, b, a], buf))
  {
    Tops(pre, a, b, a);
    Tops(pre, a, b, b);
  }

  /** Loads replace the offset on top; an address that leaves the slice or 32 bits gives NaN. */
  lemma Loads<V>(m: Arith<V>, ctx: Context<V>, pre: seq<V>, a: V, buf: Buffer<V>, base: U32)
    requires buf.Valid()
    ensures var st, k := State(pre + [a], buf), m.exactU32(a);
            && Step(m, ctx, ContextVarIndexed(base), st)
               == Some(State(pre + [if k.Some? && base + k.value < 0x1_0000_0000 && base + k.value < |ctx.inputs|
                                    then ctx.inputs[base + k.value] else m.nan], buf))
            && Step(m, ctx, ContextConstIndexed(base), st)
               == Some(State(pre + [if k.Some? && base + k.value < 0x1_0000_0000 && base + k.value < |ctx.weights|
                                    then ctx.weights[base + k.value] else m.nan], buf))
    ensures var st, k := State(pre + [a], buf), m.castU32(a);
            Step(m, ctx, VarIndexed(base), st)
            == Some(State(pre + [if base + k < 0x1_0000_0000 && base + k < |buf.data| then buf.data[base + k] else m.nan], buf))
  {
    assert Popped(pre + [a]) == pre;
  }

  /** A store takes the offset and the value below it; outside the buffer's shape it writes nothing. */
  lemma Store<V>(m: Arith<V>, ctx: Context<V>, pre: seq<V>, v: V, a: V, buf: Buffer<V>, slot: U32)
    requires buf.Valid()
    ensures var k := m.castU32(a);
            var r := Step(m, ctx, StoreResult(slot), State(pre + [v, a], buf));
            && r.Some? && r.value.stack == pre && |r.value.buf.data| == |buf.data|
            && forall c :: 0 <= c < |buf.data| ==>
                 r.value.buf.data[c] == if slot < buf.slots && k < buf.width && c == slot * buf.width + k then v else buf.data[c]
  {
    var s := pre + [v, a];
    assert Popped(s) == pre + [v] && Popped(pre + [v]) == pre;
  }

  /**
   Missing operands: arithmetic reads zeros and keeps a lone operand, selection reads NaN and
   consumes it, `Dup` panics, and `Swap` and `Drop` do nothing.
   */
  lemma MissingOperands<V>(m: Arith<V>, ctx: Context<V>, b: V, buf: Buffer<V>)
    requires buf.Valid()
    ensures var st := State([b], buf);
            && Step(m, ctx, Bml, st) == Some(State([b, m.bml(m.zero, b)], buf))
            && Step(m, ctx, FAdd, st) == Some(State([b, m.add(m.zero, b)], buf))
            && Step(m, ctx, FMul, st) == Some(State([b, m.mul(m.zero, b)], buf))
            && Step(m, ctx, FMax, st) == Some(State([m.max(m.nan, b)], buf))
            && Step(m, ctx, Swap, st) == Some(st)
    ensures var st := State([], buf);
            && Step(m, ctx, Bml, st) == Some(State([m.bml(m.zero, m.zero)], buf))
            && Step(m, ctx, Dup, st) == None && Step(m, ctx, Swap, st) == Step(m, ctx, Drop, st) == Some(st)
  {
    Few(b, m.bml(m.zero, b));
    Few(b, m.add(m.zero, b));
    Few(b, m.mul(m.zero, b));
    Few(b, m.max(m.nan, b));
    Few(b, m.bml(m.zero, m.zero));
  }

  /** `Pick` copies the value at a depth; too deep means the bottom, and an empty stack gives zero. */
  lemma Picks<V>(m: Arith<V>, ctx: Context<V>, s: seq<V>, d: U32, buf: Buffer<V>)
    requires buf.Valid()
    ensures Step(m, ctx, Pick(d), State(s, buf))
            == Some(State(s + [if s == [] then m.zero else if d < |s| then s[|s| - 1 - d] else s[0]], buf))
  {
  }

  /** One more iteration runs the body on what the earlier ones left, under the next counter. */
  lemma {:induction false} IterateLast<V>(m: Arith<V>, ctx: Context<V>, body: seq<Op>, k: nat, count: U32, st: State<V>)
    requires st.buf.Valid() && k <= count && count + 1 < U32_RANGE
    ensures var before := Iterate(m, ctx, body, k, count, st);
            Iterate(m, ctx, body, k, count + 1, st)
            == if before.None? then None
               else Run(m, ctx, body, before.value.(stack := before.value.stack + [m.fromU32(count)]))
    decreases count - k
  {
    hide Run;
    if k < count {
      var next := Run(m, ctx, body, st.(stack := st.stack + [m.fromU32(k)]));
      if next.Some? {
        IterateLast(m, ctx, body, k + 1, count, next.value);
      }
    }
  }

  /**
   A loop runs its body `count` times, pushing 0, 1, 2, ... before each run, and then goes on
   behind it; a body that leaves the program ends the run instead.
   */
  lemma LoopRuns<V>(m: Arith<V>, ctx: Context<V>, count: U32, body: seq<Op>, rest: seq<Op>, st: State<V>)
    requires |body| < U32_RANGE - 1 && st.buf.Valid() && count + 1 < U32_RANGE
    ensures Run(m, ctx, [Loop(0, |body|)] + body + rest, st) == Run(m, ctx, rest, st)
    ensures var once := Iterate(m, ctx, body, 0, count, st);
            Run(m, ctx, [Loop(count + 1, |body|)] + body + rest, st)
            == if once.None? then None
               else
                 var last := Run(m, ctx, body, once.value.(stack := once.value.stack + [m.fromU32(count)]));
                 if last.None? then None else Run(m, ctx, rest, last.value)
    ensures Run(m, ctx, [Loop(count, |body| + 1)] + body, st) == Some(st)
  {
    hide Iterate;
    LoopThen(m, ctx, 0, body, rest, st);
    LoopThen(m, ctx, count + 1, body, rest, st);
    NoIterations(m, ctx, body, st);
    IterateLast(m, ctx, body, 0, count, st);
    assert ([Loop(count, |body| + 1)] + body)[0] == Loop(count, |body| + 1);
  }

  lemma NoIterations<V>(m: Arith<V>, ctx: Context<V>, body: seq<Op>, st: State<V>)
    requires st.buf.Valid()
    ensures Iterate(m, ctx, body, 0, 0, st) == Some(st)
  {
  }

  lemma LoopThen<V>(m: Arith<V>, ctx: Context<V>, count: U32, body: seq<Op>, rest: seq<Op>, st: State<V>)
    requires |body| < U32_RANGE && st.buf.Valid()
    ensures var after := Iterate(m, ctx, body, 0, count, st);
            Run(m, ctx, [Loop(count, |body|)] + body + rest, st)
            == if after.None? then None else Run(m, ctx, rest, after.value)
  {
    hide Iterate;
    var ops := [Loop(count, |body|)] + body + rest;
    assert ops[0] == Loop(count, |body|) && ops[1..1 + |body|] == body && ops[1 + |body|..] == rest;
  }

  /** The interpreter of fragments where it differs: buffer opcodes and missing operands. */
  lemma FragmentDiffers<V>(m: Arith<V>, ctx: Context<V>, pre: seq<V>, v: V, a: V, base: U32, slot: U32)
    ensures FragmentEval.FragStep(m, ctx, VarIndexed(base), pre + [a]) == Some(pre + [m.nan])
    ensures FragmentEval.FragStep(m, ctx, StoreResult(slot), pre + [v, a]) == Some(pre)
    ensures FragmentEval.FragStep(m, ctx, Bml, [a]) == FragmentEval.FragStep(m, ctx, Bml, []) == None
    ensures FragmentEval.FragStep(m, ctx, Dup, []) == None
    ensures FragmentEval.FragStep(m, ctx, FAdd, [a]) == Some([m.add(m.zero, a)])
    ensures FragmentEval.FragStep(m, ctx, FMul, [a]) == Some([m.mul(m.zero, a)])
    ensures FragmentEval.FragStep(m, ctx, FMax, [a]) == Some([m.max(m.nan, a)])
  {
    assert Popped(pre + [a]) == pre && Popped(pre + [v, a]) == pre + [v] && Popped(pre + [v]) == pre;
    Few(a, m.add(m.zero, a));
    Few(a, m.mul(m.zero, a));
    Few(a, m.max(m.nan, a));
  }
}
