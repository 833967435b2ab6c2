/**
 The runtime's stack interpreter `dispatch_ops`. A counter loop pushes the index of
 the iteration before each run of its body, the body runs through the same
 dispatcher, and the only panic is `Dup` on an empty stack.
 */
module HotLoop {
  import opened Wrappers
  import opened Machine

  datatype State<V> = State(stack: seq<V>, buf: Buffer<V>)

  predicate LoopFree(ops: seq<Op>) {
    forall k :: 0 <= k < |ops| ==> !ops[k].Loop?
  }

  // The stack after `pop().unwrap_or(..)` and the value it delivers.
  function Popped<V>(s: seq<V>): (r: seq<V>)
    ensures |r| <= |s|
  {
    if |s| == 0 then s else s[..|s| - 1]
  }

  function TopOr<V>(s: seq<V>, default: V): V {
    if |s| == 0 then default else s[|s| - 1]
  }

  // Binary operators read two operands (zero when absent) and truncate only when both exist.
  function Binary<V>(m: Arith<V>, f: (V, V) -> V, s: seq<V>): seq<V> {
    var b := TopOr(s, m.zero);
    var a := if |s| > 1 then s[|s| - 2] else m.zero;
    (if |s| >= 2 then s[..|s| - 2] else s) + [f(a, b)]
  }

  /** One opcode other than `Loop`; None is a panic. */
  function Step<V>(m: Arith<V>, ctx: Context<V>, op: Op, st: State<V>): (r: Option<State<V>>)
    requires !op.Loop? && st.buf.Valid()
    ensures r.Some? ==> r.value.buf.Valid() && r.value.buf.width == st.buf.width && r.value.buf.slots == st.buf.slots
    ensures r.None? ==> op.Dup? && st.stack == []
  {
    var s := st.stack;
    match op
    case One => Some(st.(stack := s + [m.one]))
    case Zero => Some(st.(stack := s + [m.zero]))
    case Var(id) => Some(st.(stack := s + [GetVar(m, ctx, id)]))
    case Const(id) => Some(st.(stack := s + [GetConst(m, ctx, id)]))
    case ContextVarIndexed(base) =>
      var k := ContextIndex(m, base, TopOr(s, m.nan));
      Some(st.(stack := Popped(s) + [if k.Some? then GetVar(m, ctx, k.value) else m.nan]))
    case ContextConstIndexed(base) =>
      var k := ContextIndex(m, base, TopOr(s, m.nan));
      Some(st.(stack := Popped(s) + [if k.Some? then GetConst(m, ctx, k.value) else m.nan]))
    case VarIndexed(base) =>
      var offset := m.castU32(TopOr(s, m.zero));
      Some(st.(stack := Popped(s) + [ReadIndexed(m, st.buf, base, offset)]))
    case StoreResult(slot) =>
      var offset := m.castU32(TopOr(s, m.zero));
      var value := TopOr(Popped(s), m.nan);
      Some(State(Popped(Popped(s)), WriteSlot(st.buf, slot, offset, value)))
    case Bml => Some(st.(stack := Binary(m, m.bml, s)))
    case FAdd => Some(st.(stack := Binary(m, m.add, s)))
    case FMul => Some(st.(stack := Binary(m, m.mul, s)))
    case FMax =>
      var right := TopOr(s, m.nan);
      var left := TopOr(Popped(s), m.nan);
      Some(st.(stack := Popped(Popped(s)) + [m.max(left, right)]))
    case Dup => if s == [] then None else Some(st.(stack := s + [s[|s| - 1]]))
    case Pick(depth) =>
      var v := if |s| == 0 then m.zero else if depth < |s| then s[|s| - 1 - depth] else s[0];
      Some(st.(stack := s + [v]))
    case Drop => Some(st.(stack := Popped(s)))
    case Swap =>
      var n := |s|;
      Some(if n >= 2 then st.(stack := s[..n - 2] + [s[n - 1], s[n - 2]]) else st)
  }

  /** `dispatch_ops`: a loop whose body leaves the program ends the dispatch. */
  function Run<V>(m: Arith<V>, ctx: Context<V>, ops: seq<Op>, st: State<V>): (r: Option<State<V>>)
    requires st.buf.Valid()
    ensures r.Some? ==> r.value.buf.Valid() && r.value.buf.width == st.buf.width && r.value.buf.slots == st.buf.slots
    decreases |ops|, 0
  {
    if ops == [] then Some(st)
    else if ops[0].Loop? then
      var end := 1 + ops[0].bodyLen;
      if end > |ops| then Some(st)
      else
        var st' :- Iterate(m, ctx, ops[1..end], 0, ops[0].count, st);
        Run(m, ctx, ops[end..], st')
    else
      var st' :- Step(m, ctx, ops[0], st);
      Run(m, ctx, ops[1..], st')
  }

  /** Iterations `k..count` of a loop body, each under its own counter. */
  function Iterate<V>(m: Arith<V>, ctx: Context<V>, body: seq<Op>, k: nat, count: U32, st: State<V>): (r: Option<State<V>>)
    requires st.buf.Valid() && k <= count
    ensures r.Some? ==> r.value.buf.Valid() && r.value.buf.width == st.buf.width && r.value.buf.slots == st.buf.slots
    decreases |body|, 1 + count - k
  {
    if k == count then Some(st)
    else
      var st' :- Run(m, ctx, body, st.(stack := st.stack + [m.fromU32(k)]));
      Iterate(m, ctx, body, k + 1, count, st')
  }

  lemma {:induction false} RunConcat<V>(m: Arith<V>, ctx: Context<V>, a: seq<Op>, b: seq<Op>, st: State<V>)
    requires LoopFree(a) && st.buf.Valid()
    ensures Run(m, ctx, a + b, st) ==
            match Run(m, ctx, a, st) case None => None case Some(st') => Run(m, ctx, b, st')
    decreases |a|
  {
    if a == [] {
      assert a + b == b;
    } else {
      assert (a + b)[1..] == a[1..] + b;
      match Step(m, ctx, a[0], st)
      case None =>
      case Some(st') => RunConcat(m, ctx, a[1..], b, st');
    }
  }

  /** Every top-level loop of `ops` finds its whole body inside `ops`. */
  predicate Closed(ops: seq<Op>) {
    if ops == [] then true
    else if ops[0].Loop? then 1 + ops[0].bodyLen <= |ops| && Closed(ops[1 + ops[0].bodyLen..])
    else Closed(ops[1..])
  }

  lemma {:induction false} RunConcatClosed<V>(m: Arith<V>, ctx: Context<V>, a: seq<Op>, b: seq<Op>, st: State<V>)
    requires Closed(a) && st.buf.Valid()
    ensures Run(m, ctx, a + b, st) ==
            match Run(m, ctx, a, st) case None => None case Some(st') => Run(m, ctx, b, st')
    decreases |a|
  {
    hide Step;
    if a == [] {
      assert a + b == b;
    } else if a[0].Loop? {
      var end := 1 + a[0].bodyLen;
      assert (a + b)[1..end] == a[1..end] && (a + b)[end..] == a[end..] + b;
      match Iterate(m, ctx, a[1..end], 0, a[0].count, st)
      case None =>
      case Some(st') => RunConcatClosed(m, ctx, a[end..], b, st');
    } else {
      assert (a + b)[1..] == a[1..] + b;
      match Step(m, ctx, a[0], st)
      case None =>
      case Some(st') => RunConcatClosed(m, ctx, a[1..], b, st');
    }
  }

  lemma {:induction false} ClosedConcat(a: seq<Op>, b: seq<Op>)
    requires Closed(a) && Closed(b)
    ensures Closed(a + b)
    decreases |a|
  {
    if a == [] {
      assert a + b == b;
    } else {
      var end := if a[0].Loop? then 1 + a[0].bodyLen else 1;
      assert (a + b)[end..] == a[end..] + b;
      ClosedConcat(a[end..], b);
    }
  }

  lemma RunSingle<V>(m: Arith<V>, ctx: Context<V>, op: Op, st: State<V>)
    requires !op.Loop? && st.buf.Valid()
    ensures Run(m, ctx, [op], st) == Step(m, ctx, op, st)
  {
    var ops := [op];
    assert ops[1..] == [];
  }

  lemma RunPair<V>(m: Arith<V>, ctx: Context<V>, x: Op, y: Op, st: State<V>)
    requires !x.Loop? && !y.Loop? && st.buf.Valid()
    ensures Run(m, ctx, [x, y], st) == match Step(m, ctx, x, st) case None => None case Some(st') => Step(m, ctx, y, st')
  {
    RunSingle(m, ctx, x, st);
    if st' :| Step(m, ctx, x, st) == Some(st') {
      RunSingle(m, ctx, y, st');
    }
    RunConcat(m, ctx, [x], [y], st);
    assert [x] + [y] == [x, y];
  }

  // What single opcodes do to the values on top of any stack.

  lemma PickStep<V>(m: Arith<V>, ctx: Context<V>, s: seq<V>, depth: U32, buf: Buffer<V>)
    requires buf.Valid() && depth < |s|
    ensures Step(m, ctx, Pick(depth), State(s, buf)) == Some(State(s + [s[|s| - 1 - depth]], buf))
  {
  }

  lemma SwapStep<V>(m: Arith<V>, ctx: Context<V>, t: seq<V>, a: V, b: V, buf: Buffer<V>)
    requires buf.Valid()
    ensures Step(m, ctx, Swap, State(t + [a] + [b], buf)) == Some(State(t + [b] + [a], buf))
  {
    var s := t + [a] + [b];
    assert s[..|s| - 2] + [b, a] == t + [b] + [a];
  }

  lemma DropStep<V>(m: Arith<V>, ctx: Context<V>, t: seq<V>, a: V, buf: Buffer<V>)
    requires buf.Valid()
    ensures Step(m, ctx, Drop, State(t + [a], buf)) == Some(State(t, buf))
  {
    assert Popped(t + [a]) == t;
  }

  lemma LoadStep<V>(m: Arith<V>, ctx: Context<V>, address: U32, t: seq<V>, offset: V, buf: Buffer<V>)
    requires buf.Valid()
    ensures Step(m, ctx, VarIndexed(address), State(t + [offset], buf))
            == Some(State(t + [ReadIndexed(m, buf, address, m.castU32(offset))], buf))
  {
    assert Popped(t + [offset]) == t;
  }

  lemma StoreStep<V>(m: Arith<V>, ctx: Context<V>, slot: U32, t: seq<V>, value: V, offset: V, buf: Buffer<V>)
    requires buf.Valid()
    ensures Step(m, ctx, StoreResult(slot), State(t + [value] + [offset], buf))
            == Some(State(t, WriteSlot(buf, slot, m.castU32(offset), value)))
  {
    assert Popped(t + [value] + [offset]) == t + [value];
    assert Popped(t + [value]) == t;
  }

  lemma BinaryStep<V>(m: Arith<V>, ctx: Context<V>, t: seq<V>, a: V, b: V, buf: Buffer<V>)
    requires buf.Valid()
    ensures Step(m, ctx, FMul, State(t + [a] + [b], buf)) == Some(State(t + [m.mul(a, b)], buf))
    ensures Step(m, ctx, FAdd, State(t + [a] + [b], buf)) == Some(State(t + [m.add(a, b)], buf))
  {
    var s := t + [a] + [b];
    assert s[..|s| - 2] == t;
  }

  /** `HotLoop`: the interpreter object, whose stack is reused between executions. */
  class HotLoop<V> {
    var stack: seq<V>

    constructor ()
      ensures stack == []
    {
      stack := [];
    }

    /** Executes `ops` on the current stack; `ok` is false where the source panics. */
    method Dispatch(m: Arith<V>, ctx: Context<V>, ops: seq<Op>, buf: ResultBuffer<V>) returns (ok: bool)
      requires buf.Valid()
      modifies this, buf.data
      ensures buf.Valid()
      ensures ok <==> Run(m, ctx, ops, old(State(stack, buf.View()))).Some?
      ensures ok ==> Run(m, ctx, ops, old(State(stack, buf.View()))) == Some(State(stack, buf.View()))
      decreases |ops|, 0
    {
      ghost var start := State(stack, buf.View());
      var i := 0;
      while i < |ops|
        invariant 0 <= i <= |ops| && buf.Valid()
        invariant Run(m, ctx, ops, start) == Run(m, ctx, ops[i..], State(stack, buf.View()))
      {
        ghost var rest := ops[i..];
        if ops[i].Loop? {
          var end := i + 1 + ops[i].bodyLen;
          if end > |ops| {
            return true;
          }
          assert rest[1..end - i] == ops[i + 1..end] && rest[end - i..] == ops[end..];
          ok := Repeat(m, ctx, ops[i + 1..end], ops[i].count, buf);
          i := end;
        } else {
          assert rest[1..] == ops[i + 1..];
          ok := Apply(m, ctx, ops[i], buf);
          i := i + 1;
        }
        if !ok {
          return;
        }
      }
      return true;
    }

    /** The `for iter in 0..count` of a counter loop. */
    method Repeat(m: Arith<V>, ctx: Context<V>, body: seq<Op>, count: U32, buf: ResultBuffer<V>) returns (ok: bool)
      requires buf.Valid()
      modifies this, buf.data
      ensures buf.Valid()
      ensures ok <==> Iterate(m, ctx, body, 0, count, old(State(stack, buf.View()))).Some?
      ensures ok ==> Iterate(m, ctx, body, 0, count, old(State(stack, buf.View()))) == Some(State(stack, buf.View()))
      decreases |body|, 1
    {
      ghost var entry := State(stack, buf.View());
      for k := 0 to count
        invariant buf.Valid()
        invariant Iterate(m, ctx, body, 0, count, entry) == Iterate(m, ctx, body, k, count, State(stack, buf.View()))
      {
        stack := stack + [m.fromU32(k)];
        ok := Dispatch(m, ctx, body, buf);
        if !ok {
          return;
        }
      }
      return true;
    }

    /** One arm of the dispatcher's `match`. */
    method Apply(m: Arith<V>, ctx: Context<V>, op: Op, buf: ResultBuffer<V>) returns (ok: bool)
      requires buf.Valid() && !op.Loop?
      modifies this, buf.data
      ensures buf.Valid()
      ensures ok <==> Step(m, ctx, op, old(State(stack, buf.View()))).Some?
      ensures ok ==> Step(m, ctx, op, old(State(stack, buf.View()))) == Some(State(stack, buf.View()))
    {
      ok := true;
      match op
      case One => stack := stack + [m.one];
      case Zero => stack := stack + [m.zero];
      case Var(id) => stack := stack + [GetVar(m, ctx, id)];
      case Const(id) => stack := stack + [GetConst(m, ctx, id)];
      case ContextVarIndexed(base) =>
        var k := ContextIndex(m, base, TopOr(stack, m.nan));
        stack := Popped(stack) + [if k.Some? then GetVar(m, ctx, k.value) else m.nan];
      case ContextConstIndexed(base) =>
        var k := ContextIndex(m, base, TopOr(stack, m.nan));
        stack := Popped(stack) + [if k.Some? then GetConst(m, ctx, k.value) else m.nan];
      case VarIndexed(base) =>
        var v := buf.Read(m, base, m.castU32(TopOr(stack, m.zero)));
        stack := Popped(stack) + [v];
      case StoreResult(slot) =>
        var offset := m.castU32(TopOr(stack, m.zero));
        stack := Popped(stack);
        buf.Write(slot, offset, TopOr(stack, m.nan));
        stack := Popped(stack);
      case Bml => stack := Binary(m, m.bml, stack);
      case FAdd => stack := Binary(m, m.add, stack);
      case FMul => stack := Binary(m, m.mul, stack);
      case FMax =>
        var right := TopOr(stack, m.nan);
        stack := Popped(stack);
        stack := Popped(stack) + [m.max(TopOr(stack, m.nan), right)];
      case Dup =>
        if stack == [] {
          return false;
        }
        stack := stack + [stack[|stack| - 1]];
      case Pick(depth) =>
        var n := |stack|;
        var index := if 1 + depth <= n then n - 1 - depth else 0;
        stack := stack + [if index < n then stack[index] else m.zero];
      case Drop => stack := Popped(stack);
      case Swap =>
        var n := |stack|;
        if n >= 2 {
          ghost var s := stack;
          stack := stack[n - 2 := stack[n - 1]][n - 1 := stack[n - 2]];
          assert stack == s[..n - 2] + [s[n - 1], s[n - 2]];
        }
    }

    /** `execute_full`: a fresh run of a program, delivering the value it leaves on top. */
    method ExecuteFull(m: Arith<V>, ctx: Context<V>, ops: seq<Op>, buf: ResultBuffer<V>) returns (result: Option<V>)
      requires buf.Valid()
      modifies this, buf.data
      ensures buf.Valid()
      ensures result.None? <==> Run(m, ctx, ops, old(State([], buf.View()))).None?
      ensures result.Some? ==>
                var final := Run(m, ctx, ops, old(State([], buf.View()))).value;
                result.value == TopOr(final.stack, m.nan) && buf.View() == final.buf
    {
      stack := [];
      var ok := Dispatch(m, ctx, ops, buf);
      if !ok {
        return None;
      }
      result := Some(TopOr(stack, m.nan));
      stack := Popped(stack);
    }
  }
}
