/**
 A fragment's own interpreter: three hand-unrolled loop levels over one value stack and
 no counters, and beside it the checked counter interpreter that indexed programs use.
 */
module FragmentEval {
  import opened Wrappers
  import opened Machine
  import opened HotLoop

  /** `uses_counter_loops`. */
  predicate UsesCounterLoops(ops: seq<Op>) {
    exists k :: 0 <= k < |ops| && (ops[k].ContextVarIndexed? || ops[k].ContextConstIndexed? || ops[k].FMax?)
  }

  /** One opcode of the uncounted interpreter; None where an `unwrap` panics. */
  function FragStep<V>(m: Arith<V>, ctx: Context<V>, op: Op, s: seq<V>): Option<seq<V>>
    requires !op.Loop?
  {
    match op
    case One => Some(s + [m.one])
    case Zero => Some(s + [m.zero])
    case Var(id) => Some(s + [GetVar(m, ctx, id)])
    case Const(id) => Some(s + [GetConst(m, ctx, id)])
    case ContextVarIndexed(base) =>
      var k := ContextIndex(m, base, TopOr(s, m.nan));
      Some(Popped(s) + [if k.Some? then GetVar(m, ctx, k.value) else m.nan])
    case ContextConstIndexed(base) =>
      var k := ContextIndex(m, base, TopOr(s, m.nan));
      Some(Popped(s) + [if k.Some? then GetConst(m, ctx, k.value) else m.nan])
    case VarIndexed(_) => Some(Popped(s) + [m.nan])
    case StoreResult(_) => Some(Popped(Popped(s)))
    case Bml => if |s| >= 2 then Some(s[..|s| - 2] + [m.bml(s[|s| - 2], s[|s| - 1])]) else None
    case Dup => if s == [] then None else Some(s + [s[|s| - 1]])
    case FAdd => Some(Popped(Popped(s)) + [m.add(TopOr(Popped(s), m.zero), TopOr(s, m.zero))])
    case FMul => Some(Popped(Popped(s)) + [m.mul(TopOr(Popped(s), m.zero), TopOr(s, m.zero))])
    case FMax => Some(Popped(Popped(s)) + [m.max(TopOr(Popped(s), m.nan), TopOr(s, m.nan))])
    case Pick(depth) => Some(s + [if |s| == 0 then m.zero else if depth < |s| then s[|s| - 1 - depth] else s[0]])
    case Drop => Some(Popped(s))
    case Swap => Some(if |s| >= 2 then s[..|s| - 2] + [s[|s| - 1], s[|s| - 2]] else s)
  }

  const MAX_NESTING := 2

  /**
   What one loop level does with positions `i..hi`: a loop's body is the range after it,
   wherever that range ends; reading past the program or a third level panics.
   */
  function Level<V>(m: Arith<V>, ctx: Context<V>, ops: seq<Op>, i: nat, hi: nat, depth: nat, s: seq<V>): Option<seq<V>>
    requires depth <= MAX_NESTING
    decreases MAX_NESTING - depth, 0, if i < hi then hi - i else 0
  {
    if i >= hi then Some(s)
    else if i >= |ops| then None
    else if ops[i].Loop? then
      if depth == MAX_NESTING then None
      else
        var end := i + 1 + ops[i].bodyLen;
        var s' :- Times(m, ctx, ops, i + 1, end, depth + 1, 0, ops[i].count, s);
        Level(m, ctx, ops, end, hi, depth, s')
    else
      var s' :- FragStep(m, ctx, ops[i], s);
      Level(m, ctx, ops, i + 1, hi, depth, s')
  }

  /** Repetitions `k..count` of a body range, all on the same stack. */
  function Times<V>(
      m: Arith<V>, ctx: Context<V>, ops: seq<Op>, lo: nat, hi: nat, depth: nat, k: nat, count: nat, s: seq<V>): Option<seq<V>>
    requires depth <= MAX_NESTING && k <= count
    decreases MAX_NESTING - depth, 1, count - k
  {
    if k == count then Some(s)
    else
      var s' :- Level(m, ctx, ops, lo, hi, depth, s);
      Times(m, ctx, ops, lo, hi, depth, k + 1, count, s')
  }

  /** The uncounted meaning of a whole program. */
  function Evaluated<V>(m: Arith<V>, ctx: Context<V>, ops: seq<Op>, s: seq<V>): Option<seq<V>> {
    Level(m, ctx, ops, 0, |ops|, 0, s)
  }

  // -------------------------------------------------- the checked counter interpreter

  /** One opcode of `evaluate_indexed_ops`; None is its `Err`. */
  function IndexedStep<V>(m: Arith<V>, ctx: Context<V>, op: Op, s: seq<V>): Option<seq<V>>
    requires !op.Loop?
  {
    var n := |s|;
    match op
    case One | Zero | Var(_) | Const(_) => FragStep(m, ctx, op, s)
    case ContextVarIndexed(_) | ContextConstIndexed(_) | VarIndexed(_) | Dup | Drop =>
      if n >= 1 then FragStep(m, ctx, op, s) else None
    case Bml | FAdd | FMul | FMax | Swap | StoreResult(_) =>
      if n >= 2 then FragStep(m, ctx, op, s) else None
    case Pick(depth) => if depth < n then FragStep(m, ctx, op, s) else None
  }

  function Indexed<V>(m: Arith<V>, ctx: Context<V>, ops: seq<Op>, depth: nat, s: seq<V>): Option<seq<V>>
    decreases |ops|, 0
  {
    if ops == [] then Some(s)
    else if ops[0].Loop? then
      var end := 1 + ops[0].bodyLen;
      if depth >= MAX_NESTING || end > |ops| then None
      else
        var s' :- IndexedTimes(m, ctx, ops[1..end], depth + 1, 0, ops[0].count, s);
        Indexed(m, ctx, ops[end..], depth, s')
    else
      var s' :- IndexedStep(m, ctx, ops[0], s);
      Indexed(m, ctx, ops[1..], depth, s')
  }

  function IndexedTimes<V>(m: Arith<V>, ctx: Context<V>, body: seq<Op>, depth: nat, k: nat, count: U32, s: seq<V>): Option<seq<V>>
    requires k <= count
    decreases |body|, 1 + count - k
  {
    if k == count then Some(s)
    else
      var s' :- Indexed(m, ctx, body, depth, s + [m.fromU32(k)]);
      IndexedTimes(m, ctx, body, depth, k + 1, count, s')
  }

  // ------------------------------------------------------------------- the evaluators

  /** The stack that fragments share and update in place. */
  class ValueStack<V> {
    var values: seq<V>

    constructor ()
      ensures values == []
    {
      values := [];
    }
  }

  /** The `match` shared by the three levels. */
  method Apply<V>(m: Arith<V>, ctx: Context<V>, op: Op, stack: ValueStack<V>) returns (ok: bool)
    requires !op.Loop?
    modifies stack
    ensures ok <==> FragStep(m, ctx, op, old(stack.values)).Some?
    ensures ok ==> FragStep(m, ctx, op, old(stack.values)) == Some(stack.values)
  {
    ok := true;
    var s := stack.values;
    match op
    case One => stack.values := s + [m.one];
    case Zero => stack.values := s + [m.zero];
    case Var(id) => stack.values := s + [GetVar(m, ctx, id)];
    case Const(id) => stack.values := s + [GetConst(m, ctx, id)];
    case ContextVarIndexed(base) =>
      var k := ContextIndex(m, base, TopOr(s, m.nan));
      stack.values := Popped(s) + [if k.Some? then GetVar(m, ctx, k.value) else m.nan];
    case ContextConstIndexed(base) =>
      var k := ContextIndex(m, base, TopOr(s, m.nan));
      stack.values := Popped(s) + [if k.Some? then GetConst(m, ctx, k.value) else m.nan];
    case VarIndexed(_) => stack.values := Popped(s) + [m.nan];
    case StoreResult(_) => stack.values := Popped(Popped(s));
    case Bml =>
      if |s| < 2 {
        return false;
      }
      stack.values := s[..|s| - 2] + [m.bml(s[|s| - 2], s[|s| - 1])];
    case Dup =>
      if s == [] {
        return false;
      }
      stack.values := s + [s[|s| - 1]];
    case FAdd => stack.values := Popped(Popped(s)) + [m.add(TopOr(Popped(s), m.zero), TopOr(s, m.zero))];
    case FMul => stack.values := Popped(Popped(s)) + [m.mul(TopOr(Popped(s), m.zero), TopOr(s, m.zero))];
    case FMax => stack.values := Popped(Popped(s)) + [m.max(TopOr(Popped(s), m.nan), TopOr(s, m.nan))];
    case Pick(depth) =>
      var index := if 1 + depth <= |s| then |s| - 1 - depth else 0;
      stack.values := s + [if index < |s| then s[index] else m.zero];
    case Drop => stack.values := Popped(s);
    case Swap =>
      if |s| >= 2 {
        stack.values := s[..|s| - 2] + [s[|s| - 1], s[|s| - 2]];
      }
  }

  /** The outermost of the three levels. */
  method RunTop<V>(m: Arith<V>, ctx: Context<V>, ops: seq<Op>, stack: ValueStack<V>) returns (ok: bool)
    modifies stack
    ensures ok <==> Evaluated(m, ctx, ops, old(stack.values)).Some?
    ensures ok ==> Evaluated(m, ctx, ops, old(stack.values)) == Some(stack.values)
  {
    hide FragStep;
    ghost var s0 := stack.values;
    var i := 0;
    while i < |ops|
      invariant Level(m, ctx, ops, 0, |ops|, 0, s0) == Level(m, ctx, ops, i, |ops|, 0, stack.values)
      decreases |ops| - i
    {
      match ops[i]
      case Loop(count, bodyLen) =>
        var bodyStart := i + 1;
        var bodyEnd := bodyStart + bodyLen;
        ghost var entry := stack.values;
        for k := 0 to count
          invariant Times(m, ctx, ops, bodyStart, bodyEnd, 1, 0, count, entry)
                    == Times(m, ctx, ops, bodyStart, bodyEnd, 1, k, count, stack.values)
        {
          ok := RunBody(m, ctx, ops, bodyStart, bodyEnd, stack);
          if !ok {
            return;
          }
        }
        i := bodyEnd;
      case _ =>
        ok := Apply(m, ctx, ops[i], stack);
        if !ok {
          return;
        }
        i := i + 1;
    }
    return true;
  }

  /** One run of an outer loop body. */
  method RunBody<V>(m: Arith<V>, ctx: Context<V>, ops: seq<Op>, start: nat, end: nat, stack: ValueStack<V>) returns (ok: bool)
    modifies stack
    ensures ok <==> Level(m, ctx, ops, start, end, 1, old(stack.values)).Some?
    ensures ok ==> Level(m, ctx, ops, start, end, 1, old(stack.values)) == Some(stack.values)
  {
    hide FragStep;
    ghost var s0 := stack.values;
    var j := start;
    while j < end
      invariant Level(m, ctx, ops, start, end, 1, s0) == Level(m, ctx, ops, j, end, 1, stack.values)
      decreases end - j
    {
      if j >= |ops| {
        return false;
      }
      match ops[j]
      case Loop(count, bodyLen) =>
        var innerStart := j + 1;
        var innerEnd := innerStart + bodyLen;
        ghost var entry := stack.values;
        for k := 0 to count
          invariant Times(m, ctx, ops, innerStart, innerEnd, 2, 0, count, entry)
                    == Times(m, ctx, ops, innerStart, innerEnd, 2, k, count, stack.values)
        {
          ok := RunInner(m, ctx, ops, innerStart, innerEnd, stack);
          if !ok {
            return;
          }
        }
        j := innerEnd;
      case _ =>
        ok := Apply(m, ctx, ops[j], stack);
        if !ok {
          return;
        }
        j := j + 1;
    }
    return true;
  }

  /** One run of an inner loop body, where a further loop panics. */
  method RunInner<V>(m: Arith<V>, ctx: Context<V>, ops: seq<Op>, start: nat, end: nat, stack: ValueStack<V>) returns (ok: bool)
    modifies stack
    ensures ok <==> Level(m, ctx, ops, start, end, 2, old(stack.values)).Some?
    ensures ok ==> Level(m, ctx, ops, start, end, 2, old(stack.values)) == Some(stack.values)
  {
    hide FragStep;
    ghost var s0 := stack.values;
    var k := start;
    while k < end
      invariant Level(m, ctx, ops, start, end, 2, s0) == Level(m, ctx, ops, k, end, 2, stack.values)
      decreases end - k
    {
      if k >= |ops| || ops[k].Loop? {
        return false;
      }
      ok := Apply(m, ctx, ops[k], stack);
      if !ok {
        return;
      }
      k := k + 1;
    }
    return true;
  }

  /** What `evaluate_on_stack_with_ctx` leaves: a failed counter run becomes a single NaN. */
  function FragmentResult<V>(m: Arith<V>, ctx: Context<V>, ops: seq<Op>, s: seq<V>): Option<seq<V>> {
    if UsesCounterLoops(ops) then
      match Indexed(m, ctx, ops, 0, s) case None => Some([m.nan]) case Some(s') => Some(s')
    else Evaluated(m, ctx, ops, s)
  }

  method EvaluateOnStackWithCtx<V>(m: Arith<V>, ctx: Context<V>, ops: seq<Op>, stack: ValueStack<V>) returns (ok: bool)
    modifies stack
    ensures ok <==> FragmentResult(m, ctx, ops, old(stack.values)).Some?
    ensures ok ==> FragmentResult(m, ctx, ops, old(stack.values)) == Some(stack.values)
  {
    if UsesCounterLoops(ops) {
      ok := RunIndexed(m, ctx, ops, 0, stack);
      if !ok {
        stack.values := [m.nan];
        ok := true;
      }
    } else {
      ok := RunTop(m, ctx, ops, stack);
    }
  }

  /** `evaluate_indexed_ops`. */
  method RunIndexed<V>(m: Arith<V>, ctx: Context<V>, ops: seq<Op>, depth: nat, stack: ValueStack<V>) returns (ok: bool)
    modifies stack
    ensures ok <==> Indexed(m, ctx, ops, depth, old(stack.values)).Some?
    ensures ok ==> Indexed(m, ctx, ops, depth, old(stack.values)) == Some(stack.values)
    decreases |ops|
  {
    hide FragStep;
    ghost var s0 := stack.values;
    var i := 0;
    while i < |ops|
      invariant 0 <= i <= |ops|
      invariant Indexed(m, ctx, ops, depth, s0) == Indexed(m, ctx, ops[i..], depth, stack.values)
    {
      ghost var rest := ops[i..];
      if ops[i].Loop? {
        var end := i + 1 + ops[i].bodyLen;
        if depth >= MAX_NESTING || end > |ops| {
          return false;
        }
        assert rest[1..end - i] == ops[i + 1..end] && rest[end - i..] == ops[end..];
        var body := ops[i + 1..end];
        ghost var entry := stack.values;
        for k := 0 to ops[i].count
          invariant IndexedTimes(m, ctx, body, depth + 1, 0, ops[i].count, entry)
                    == IndexedTimes(m, ctx, body, depth + 1, k, ops[i].count, stack.values)
        {
          stack.values := stack.values + [m.fromU32(k)];
          ok := RunIndexed(m, ctx, body, depth + 1, stack);
          if !ok {
            return;
          }
        }
        i := end;
      } else {
        assert rest[1..] == ops[i + 1..];
        ok := ApplyIndexed(m, ctx, ops[i], stack);
        if !ok {
          return;
        }
        i := i + 1;
      }
    }
    return true;
  }

  method ApplyIndexed<V>(m: Arith<V>, ctx: Context<V>, op: Op, stack: ValueStack<V>) returns (ok: bool)
    requires !op.Loop?
    modifies stack
    ensures ok <==> IndexedStep(m, ctx, op, old(stack.values)).Some?
    ensures ok ==> IndexedStep(m, ctx, op, old(stack.values)) == Some(stack.values)
  {
    var n := |stack.values|;
    match op {
      case ContextVarIndexed(_) | ContextConstIndexed(_) | VarIndexed(_) | Dup | Drop =>
        if n < 1 {
          return false;
        }
      case Bml | FAdd | FMul | FMax | Swap | StoreResult(_) =>
        if n < 2 {
          return false;
        }
      case Pick(depth) =>
        if depth >= n {
          return false;
        }
      case One | Zero | Var(_) | Const(_) =>
    }
    ok := Apply(m, ctx, op, stack);
  }

  // ----------------------------------------------------------- refinement of unrolling

  /** Loop bodies lie inside their enclosing body and nest at most `depth` deep. */
  predicate WellNested(ops: seq<Op>, depth: nat)
    decreases |ops|
  {
    if ops == [] then true
    else if ops[0].Loop? then
      var end := 1 + ops[0].bodyLen;
      depth > 0 && end <= |ops| && WellNested(ops[1..end], depth - 1) && WellNested(ops[end..], depth)
    else WellNested(ops[1..], depth)
  }

  function Repeat<T>(s: seq<T>, n: nat): seq<T> {
    if n == 0 then [] else s + Repeat(s, n - 1)
  }

  /** The loop-free program in which every body is written out `count` times. */
  function Unroll(ops: seq<Op>, depth: nat): (r: seq<Op>)
    requires WellNested(ops, depth)
    ensures LoopFree(r)
    decreases |ops|
  {
    if ops == [] then []
    else if ops[0].Loop? then
      var end := 1 + ops[0].bodyLen;
      var body := Unroll(ops[1..end], depth - 1);
      RepeatLoopFree(body, ops[0].count);
      Repeat(body, ops[0].count) + Unroll(ops[end..], depth)
    else [ops[0]] + Unroll(ops[1..], depth)
  }

  lemma {:induction false} RepeatLoopFree(body: seq<Op>, n: nat)
    requires LoopFree(body)
    ensures LoopFree(Repeat(body, n))
    decreases n
  {
    if n > 0 {
      RepeatLoopFree(body, n - 1);
    }
  }

  function FlatRun<V>(m: Arith<V>, ctx: Context<V>, ops: seq<Op>, s: seq<V>): Option<seq<V>>
    requires LoopFree(ops)
  {
    if ops == [] then Some(s)
    else
      var s' :- FragStep(m, ctx, ops[0], s);
      FlatRun(m, ctx, ops[1..], s')
  }

  lemma {:induction false} FlatConcat<V>(m: Arith<V>, ctx: Context<V>, a: seq<Op>, b: seq<Op>, s: seq<V>)
    requires LoopFree(a) && LoopFree(b)
    ensures FlatRun(m, ctx, a + b, s) ==
            match FlatRun(m, ctx, a, s) case None => None case Some(s') => FlatRun(m, ctx, b, s')
    decreases |a|
  {
    hide FragStep;
    if a == [] {
      assert a + b == b;
    } else {
      assert (a + b)[1..] == a[1..] + b;
      match FragStep(m, ctx, a[0], s)
      case None =>
      case Some(s') => FlatConcat(m, ctx, a[1..], b, s');
    }
  }

  lemma SliceOfSlice<T>(s: seq<T>, lo: nat, hi: nat, a: nat, b: nat)
    requires lo <= hi <= |s| && a <= b <= hi - lo
    ensures s[lo..hi][a..b] == s[lo + a..lo + b]
  {
    var x, y := s[lo..hi][a..b], s[lo + a..lo + b];
    forall k | 0 <= k < |x| ensures x[k] == y[k] {
      assert x[k] == s[lo..hi][a + k] == s[lo + a + k];
    }
  }

  /** Inside any level, a well-nested range behaves as its unrolling. */
  lemma {:induction false} LevelUnrolls<V>(
      m: Arith<V>, ctx: Context<V>, ops: seq<Op>, i: nat, hi: nat, depth: nat, s: seq<V>)
    requires i <= hi <= |ops| && depth <= MAX_NESTING && WellNested(ops[i..hi], MAX_NESTING - depth)
    ensures Level(m, ctx, ops, i, hi, depth, s) == FlatRun(m, ctx, Unroll(ops[i..hi], MAX_NESTING - depth), s)
    decreases MAX_NESTING - depth, 0, hi - i, 1
  {
    hide FragStep;
    if i < hi {
      if ops[i].Loop? {
        LoopUnrolls(m, ctx, ops, i, hi, depth, s);
      } else {
        var d := MAX_NESTING - depth;
        assert ops[i..hi][1..] == ops[i + 1..hi];
        var rest := Unroll(ops[i + 1..hi], d);
        assert ([ops[i]] + rest)[1..] == rest;
        match FragStep(m, ctx, ops[i], s)
        case None =>
        case Some(s') => LevelUnrolls(m, ctx, ops, i + 1, hi, depth, s');
      }
    }
  }

  lemma {:induction false} LoopUnrolls<V>(
      m: Arith<V>, ctx: Context<V>, ops: seq<Op>, i: nat, hi: nat, depth: nat, s: seq<V>)
    requires i < hi <= |ops| && depth <= MAX_NESTING && WellNested(ops[i..hi], MAX_NESTING - depth) && ops[i].Loop?
    ensures Level(m, ctx, ops, i, hi, depth, s) == FlatRun(m, ctx, Unroll(ops[i..hi], MAX_NESTING - depth), s)
    decreases MAX_NESTING - depth, 0, hi - i, 0
  {
    hide FragStep, FlatRun, WellNested, Unroll;
    var range := ops[i..hi];
    var d := MAX_NESTING - depth;
    var end := i + 1 + ops[i].bodyLen;
    var count := ops[i].count;
    LoopShape(range, d);
    SliceOfSlice(ops, i, hi, 1, end - i);
    SliceOfSlice(ops, i, hi, end - i, hi - i);
    assert range[end - i..] == range[end - i..hi - i];
    var body := Unroll(ops[i + 1..end], d - 1);
    RepeatLoopFree(body, count);
    TimesUnrolls(m, ctx, ops, i + 1, end, depth + 1, 0, count, s);
    FlatConcat(m, ctx, Repeat(body, count), Unroll(ops[end..hi], d), s);
    match Times(m, ctx, ops, i + 1, end, depth + 1, 0, count, s)
    case None =>
    case Some(s') => LevelUnrolls(m, ctx, ops, end, hi, depth, s');
  }

  lemma LoopShape(range: seq<Op>, d: nat)
    requires range != [] && range[0].Loop? && WellNested(range, d)
    ensures var end := 1 + range[0].bodyLen;
            && d > 0 && end <= |range| && WellNested(range[1..end], d - 1) && WellNested(range[end..], d)
            && Unroll(range, d) == Repeat(Unroll(range[1..end], d - 1), range[0].count) + Unroll(range[end..], d)
  {
  }

  lemma {:induction false} TimesUnrolls<V>(
      m: Arith<V>, ctx: Context<V>, ops: seq<Op>, lo: nat, hi: nat, depth: nat, k: nat, count: nat, s: seq<V>)
    requires lo <= hi <= |ops| && depth <= MAX_NESTING && k <= count && WellNested(ops[lo..hi], MAX_NESTING - depth)
    ensures LoopFree(Repeat(Unroll(ops[lo..hi], MAX_NESTING - depth), count - k))
    ensures Times(m, ctx, ops, lo, hi, depth, k, count, s)
            == FlatRun(m, ctx, Repeat(Unroll(ops[lo..hi], MAX_NESTING - depth), count - k), s)
    decreases MAX_NESTING - depth, 1, count - k, 0
  {
    hide FragStep;
    var body := Unroll(ops[lo..hi], MAX_NESTING - depth);
    RepeatLoopFree(body, count - k);
    if k < count {
      LevelUnrolls(m, ctx, ops, lo, hi, depth, s);
      RepeatLoopFree(body, count - k - 1);
      FlatConcat(m, ctx, body, Repeat(body, count - k - 1), s);
      match Level(m, ctx, ops, lo, hi, depth, s)
      case None =>
      case Some(s') => TimesUnrolls(m, ctx, ops, lo, hi, depth, k + 1, count, s');
    }
  }

  /**
   The three-level interpreter refines unrolling: on every well-nested program it ends
   with the stack of the unrolled program, and panics exactly when that program does.
   */
  lemma InterpreterUnrolls<V>(m: Arith<V>, ctx: Context<V>, ops: seq<Op>, s: seq<V>)
    requires WellNested(ops, MAX_NESTING)
    ensures Evaluated(m, ctx, ops, s) == FlatRun(m, ctx, Unroll(ops, MAX_NESTING), s)
  {
    assert ops[0..|ops|] == ops;
    LevelUnrolls(m, ctx, ops, 0, |ops|, 0, s);
  }
}
