/**
 Straight-line scalar programs: what every DAG lowering emits and every vector
 lowering consumes. Their run is strict: it stops with None when an opcode reaches
 below the program's own stack.
 */
module Scalar {
  import opened Wrappers
  import opened Machine
  import opened Dag

  /** The opcodes `indexed_scalar_body` accepts. */
  predicate IsScalar(op: Op) {
    op.Var? || op.Const? || op.One? || op.Zero? || op.Pick? || op.Dup? || op.Bml? || op.Drop? || op.Swap?
  }

  predicate AllScalar(ops: seq<Op>) {
    forall k :: 0 <= k < |ops| ==> IsScalar(ops[k])
  }

  /** All variables of the program have identifiers below `n`. */
  predicate ReadsBelow(ops: seq<Op>, n: nat) {
    forall k :: 0 <= k < |ops| && ops[k].Var? ==> ops[k].id < n
  }

  /** The net effect of one opcode on a local stack of height `d`; None below the stack. */
  function DepthAfter(op: Op, d: nat): Option<nat>
    requires IsScalar(op)
  {
    match op
    case Pick(depth) => if depth < d then Some(d + 1) else None
    case Dup => if d >= 1 then Some(d + 1) else None
    case Bml => if d >= 2 then Some(d - 1) else None
    case Drop => if d >= 1 then Some(d - 1) else None
    case Swap => if d >= 2 then Some(d) else None
    case _ => Some(d + 1)
  }

  /** Static stack checking of a whole program. */
  function Depth(ops: seq<Op>, d: nat): Option<nat>
    requires AllScalar(ops)
  {
    if ops == [] then Some(d)
    else
      var d' :- DepthAfter(ops[0], d);
      Depth(ops[1..], d')
  }

  /** A program that stays within its own stack and leaves exactly one value. */
  predicate IsScalarProgram(ops: seq<Op>) {
    AllScalar(ops) && Depth(ops, 0) == Some(1)
  }

  function ScalarStep<V>(m: Arith<V>, env: Env<V>, op: Op, s: seq<V>): (r: Option<seq<V>>)
    requires IsScalar(op)
    ensures match DepthAfter(op, |s|) case None => r.None? case Some(d) => r.Some? && |r.value| == d
  {
    var n := |s|;
    match op
    case Var(id) => Some(s + [env.vars(id)])
    case Const(id) => Some(s + [env.consts(id)])
    case One => Some(s + [m.one])
    case Zero => Some(s + [m.zero])
    case Pick(depth) => if depth < n then Some(s + [s[n - 1 - depth]]) else None
    case Dup => if n >= 1 then Some(s + [s[n - 1]]) else None
    case Bml => if n >= 2 then Some(s[..n - 2] + [m.bml(s[n - 2], s[n - 1])]) else None
    case Drop => if n >= 1 then Some(s[..n - 1]) else None
    case Swap => if n >= 2 then Some(s[..n - 2] + [s[n - 1], s[n - 2]]) else None
  }

  function ScalarRun<V>(m: Arith<V>, env: Env<V>, ops: seq<Op>, s: seq<V>): (r: Option<seq<V>>)
    requires AllScalar(ops)
    ensures match Depth(ops, |s|) case None => r.None? case Some(d) => r.Some? && |r.value| == d
  {
    if ops == [] then Some(s)
    else
      var s' :- ScalarStep(m, env, ops[0], s);
      ScalarRun(m, env, ops[1..], s')
  }

  /** The value a scalar program computes in an environment. */
  function ScalarValue<V>(m: Arith<V>, env: Env<V>, ops: seq<Op>): V
    requires IsScalarProgram(ops)
  {
    ScalarRun(m, env, ops, []).value[0]
  }

  lemma {:induction false} ScalarConcat<V>(m: Arith<V>, env: Env<V>, a: seq<Op>, b: seq<Op>, s: seq<V>)
    requires AllScalar(a) && AllScalar(b)
    ensures ScalarRun(m, env, a + b, s) ==
            match ScalarRun(m, env, a, s) case None => None case Some(s') => ScalarRun(m, env, b, s')
    decreases |a|
  {
    if a == [] {
      assert a + b == b;
    } else {
      assert (a + b)[1..] == a[1..] + b;
      match ScalarStep(m, env, a[0], s)
      case None =>
      case Some(s') => ScalarConcat(m, env, a[1..], b, s');
    }
  }

  lemma RunOne<V>(m: Arith<V>, env: Env<V>, x: Op, s: seq<V>)
    requires IsScalar(x)
    ensures ScalarRun(m, env, [x], s) == ScalarStep(m, env, x, s)
  {
    var ops := [x];
    assert ops[1..] == [];
  }

  lemma RunTwo<V>(m: Arith<V>, env: Env<V>, x: Op, y: Op, s: seq<V>)
    requires IsScalar(x) && IsScalar(y)
    ensures ScalarRun(m, env, [x, y], s) ==
            match ScalarStep(m, env, x, s) case None => None case Some(s') => ScalarStep(m, env, y, s')
  {
    RunOne(m, env, x, s);
    if s' :| ScalarStep(m, env, x, s) == Some(s') {
      RunOne(m, env, y, s');
    }
    assert [x, y] == [x] + [y];
    ScalarConcat(m, env, [x], [y], s);
  }

  lemma {:induction false} DepthConcat(a: seq<Op>, b: seq<Op>, d: nat)
    requires AllScalar(a) && AllScalar(b)
    ensures Depth(a + b, d) == match Depth(a, d) case None => None case Some(d') => Depth(b, d')
    decreases |a|
  {
    if a == [] {
      assert a + b == b;
    } else {
      assert (a + b)[1..] == a[1..] + b;
      match DepthAfter(a[0], d)
      case None =>
      case Some(d') => DepthConcat(a[1..], b, d');
    }
  }
}
