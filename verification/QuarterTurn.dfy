/**
 A concrete rotation that fails in place. Over exact reals with the operator
 `(x * x + x) / 2 - y`, which generates sums and products, two expressions mean the
 components of a rotation; their compiled program turns (1, 0) by a right angle into (0, 0).
 */
module QuarterTurn {
  import opened Wrappers
  import opened Machine
  import opened Dag
  import HotLoop
  import opened Rope
  import opened RopeLayout
  import opened RopeInPlace

  // -------------------------------------------------------------- the arithmetic

  /** The n-th triangular number, for every real n. */
  function Triangle(x: real): real {
    (x * x + x) / 2.0
  }

  function Cast(v: real): U32 {
    if 0.0 <= v && v.Floor < U32_RANGE then v.Floor else 0
  }

  function Exact(v: real): Option<U32> {
    if 0.0 <= v && v.Floor < U32_RANGE && v.Floor as real == v then Some(v.Floor) else None
  }

  function Reals(): Arith<real> {
    Arith(1.0, 0.0, 0.0, (x, y) => Triangle(x) - y, (x, y) => x + y, (x, y) => x * y,
          (x: real, y: real) => if x >= y then x else y, (k: U32) => k as real, v => Cast(v), v => Exact(v))
  }

  lemma RealsCount()
    ensures CountsExactly(Reals(), 2.0)
  {
    hide Cast, Exact, Triangle, Reals;
    forall k: U32 ensures Reals().castU32(Reals().fromU32(k)) == k && Reals().exactU32(Reals().fromU32(k)) == Some(k) {
      Returns(k);
    }
    forall k: U32 | 2 * k + 1 < U32_RANGE
      ensures Reals().mul(Reals().fromU32(k), 2.0) == Reals().fromU32(2 * k)
      ensures Reals().add(Reals().fromU32(2 * k), Reals().one) == Reals().fromU32(2 * k + 1)
    {
      Doubles(k);
    }
  }

  lemma Returns(k: U32)
    ensures Reals().castU32(Reals().fromU32(k)) == k && Reals().exactU32(Reals().fromU32(k)) == Some(k)
  {
    hide Cast, Exact, Triangle;
    CastBack(k);
  }

  lemma Doubles(k: U32)
    requires 2 * k + 1 < U32_RANGE
    ensures Reals().mul(Reals().fromU32(k), 2.0) == Reals().fromU32(2 * k)
    ensures Reals().add(Reals().fromU32(2 * k), Reals().one) == Reals().fromU32(2 * k + 1)
  {
    hide Cast, Exact, Triangle;
  }

  lemma CastBack(k: U32)
    ensures Cast(k as real) == k && Exact(k as real) == Some(k)
  {
    assert (k as real).Floor == k;
  }

  // ------------------------------------------------------------- expressions

  type Coordinate = k: U32 | k < 4

  datatype Expr = Unit | Nothing | X(id: Coordinate) | Apply(left: Expr, right: Expr)

  function Size(e: Expr): (n: nat)
    ensures n >= 1
  {
    if e.Apply? then Size(e.left) + Size(e.right) + 1 else 1
  }

  function Value(env: Env<real>, e: Expr): real {
    match e
    case Unit => 1.0
    case Nothing => 0.0
    case X(id) => env.vars(id)
    case Apply(l, r) => Triangle(Value(env, l)) - Value(env, r)
  }

  function KindOf(e: Expr): NodeKind {
    match e case Unit => OneNode case Nothing => ZeroNode case X(id) => VarNode(id) case Apply(_, _) => BmlNode
  }

  /** The DAG with the expression's nodes appended, its root last. */
  function Appended(dag: NodeSoA, e: Expr): (r: NodeSoA)
    requires |dag.kinds| + Size(e) <= U32_RANGE
    ensures |r.kinds| == |dag.kinds| + Size(e)
    decreases e
  {
    if e.Apply? then
      var l := Appended(dag, e.left);
      var r := Appended(l, e.right);
      Pushed(r, BmlNode, |l.kinds| - 1, |r.kinds| - 1)
    else Pushed(dag, KindOf(e), 0, 0)
  }

  lemma PushedNode(dag: NodeSoA, kind: NodeKind, left: U32, right: U32, env: Env<real>)
    requires dag.Valid() && VarsBelow(dag, 4) && |dag.kinds| < U32_RANGE && (kind.VarNode? ==> kind.id < 4)
    requires kind.BmlNode? ==> left < |dag.kinds| && right < |dag.kinds|
    ensures var r := Pushed(dag, kind, left, right);
            && r.Valid() && VarsBelow(r, 4) && Extends(dag, r)
            && (kind.BmlNode? ==> Eval(Reals(), r, env, |dag.kinds|)
                                  == Triangle(Eval(Reals(), dag, env, left)) - Eval(Reals(), dag, env, right))
  {
    var r := Pushed(dag, kind, left, right);
    if kind.BmlNode? {
      GrowthKeepsValues(Reals(), dag, r, env, left);
      GrowthKeepsValues(Reals(), dag, r, env, right);
    }
  }

  /** `r` extends `dag`, and its last node has the expression's value. */
  ghost predicate Ends(dag: NodeSoA, r: NodeSoA, e: Expr, env: Env<real>) {
    && r.Valid() && VarsBelow(r, 4) && Extends(dag, r) && r.kinds != []
    && Eval(Reals(), r, env, |r.kinds| - 1) == Value(env, e)
  }

  lemma ApplyEnds(dag: NodeSoA, l: NodeSoA, r: NodeSoA, e: Expr, env: Env<real>)
    requires e.Apply? && Ends(dag, l, e.left, env) && Ends(l, r, e.right, env) && |r.kinds| < U32_RANGE
    ensures Ends(dag, Pushed(r, BmlNode, |l.kinds| - 1, |r.kinds| - 1), e, env)
  {
    hide Triangle, Reals, VarsBelow, Eval;
    GrowthKeepsValues(Reals(), l, r, env, |l.kinds| - 1);
    PushedNode(r, BmlNode, |l.kinds| - 1, |r.kinds| - 1, env);
    ApplyValue(env, e.left, e.right);
  }

  /** The appended root has the expression's value. */
  lemma {:induction false} AppendedValue(dag: NodeSoA, e: Expr, env: Env<real>)
    requires dag.Valid() && VarsBelow(dag, 4) && |dag.kinds| + Size(e) <= U32_RANGE
    ensures Ends(dag, Appended(dag, e), e, env)
    decreases e
  {
    hide *;
    SizeOf(e);
    AppendedIs(dag, e);
    if e.Apply? {
      var l := Appended(dag, e.left);
      AppendedValue(dag, e.left, env);
      EndsValid(dag, l, e.left, env);
      AppendedValue(l, e.right, env);
      ApplyEnds(dag, l, Appended(l, e.right), e, env);
    } else {
      LeafEnds(dag, e, env);
    }
  }

  lemma SizeOf(e: Expr)
    ensures Size(e) == if e.Apply? then Size(e.left) + Size(e.right) + 1 else 1
  {
  }

  lemma AppendedIs(dag: NodeSoA, e: Expr)
    requires |dag.kinds| + Size(e) <= U32_RANGE
    ensures Appended(dag, e)
            == if e.Apply? then
                 var l := Appended(dag, e.left);
                 var r := Appended(l, e.right);
                 Pushed(r, BmlNode, |l.kinds| - 1, |r.kinds| - 1)
               else Pushed(dag, KindOf(e), 0, 0)
  {
    hide Pushed, Size, KindOf;
    SizeOf(e);
  }

  lemma EndsValid(dag: NodeSoA, r: NodeSoA, e: Expr, env: Env<real>)
    requires Ends(dag, r, e, env)
    ensures r.Valid() && VarsBelow(r, 4) && Extends(dag, r) && r.kinds != []
  {
  }

  lemma LeafEnds(dag: NodeSoA, e: Expr, env: Env<real>)
    requires dag.Valid() && VarsBelow(dag, 4) && |dag.kinds| < U32_RANGE && !e.Apply?
    ensures Ends(dag, Pushed(dag, KindOf(e), 0, 0), e, env)
  {
    hide Triangle, Reals, Eval, VarsBelow;
    PushedNode(dag, KindOf(e), 0, 0, env);
    LeafValue(Pushed(dag, KindOf(e), 0, 0), |dag.kinds|, e, env);
  }

  lemma LeafValue(dag: NodeSoA, k: nat, e: Expr, env: Env<real>)
    requires dag.Valid() && k < dag.Size() && !e.Apply? && dag.kinds[k] == KindOf(e)
    ensures Eval(Reals(), dag, env, k) == Value(env, e)
  {
  }

  function Neg(x: Expr): Expr { Apply(Nothing, x) }

  function Plus(x: Expr, y: Expr): Expr {
    Apply(Apply(Unit, Neg(x)), Apply(x, Neg(Apply(Unit, y))))
  }

  /** xy is T(x + y) - T(x) - T(y) for triangular numbers T. */
  function Times(x: Expr, y: Expr): Expr {
    Plus(Apply(Plus(x, y), Apply(x, Nothing)), Neg(Apply(y, Nothing)))
  }

  lemma ApplyValue(env: Env<real>, x: Expr, y: Expr)
    ensures Value(env, Apply(x, y)) == Triangle(Value(env, x)) - Value(env, y)
    ensures Size(Apply(x, y)) == Size(x) + Size(y) + 1
    ensures Value(env, Unit) == 1.0 && Value(env, Nothing) == 0.0 && Size(Unit) == 1 && Size(Nothing) == 1
  {
  }

  lemma NegValue(env: Env<real>, x: Expr)
    ensures Value(env, Neg(x)) == -Value(env, x) && Size(Neg(x)) == Size(x) + 2
  {
  }

  lemma PlusValue(env: Env<real>, x: Expr, y: Expr)
    ensures Value(env, Plus(x, y)) == Value(env, x) + Value(env, y)
    ensures Size(Plus(x, y)) == 2 * Size(x) + Size(y) + 10
  {
    hide Triangle, Value, Size, Neg;
    var next, before := Apply(Unit, Neg(x)), Apply(Unit, y);
    NegValue(env, x);
    ApplyValue(env, Unit, Neg(x));
    ApplyValue(env, Unit, y);
    NegValue(env, before);
    ApplyValue(env, x, Neg(before));
    ApplyValue(env, next, Apply(x, Neg(before)));
    NextTriangle(Value(env, x));
  }

  lemma NextTriangle(a: real)
    ensures Triangle(0.0) == 0.0 && Triangle(1.0) == 1.0 && Triangle(1.0 + a) == Triangle(a) + a + 1.0
  {
  }

  lemma TimesValue(env: Env<real>, x: Expr, y: Expr)
    ensures Value(env, Times(x, y)) == Value(env, x) * Value(env, y)
    ensures Size(Times(x, y)) == 6 * Size(x) + 3 * Size(y) + 40
  {
    hide Triangle, Value, Size, Neg, Plus;
    var left, right := Apply(Plus(x, y), Apply(x, Nothing)), Apply(y, Nothing);
    PlusValue(env, x, y);
    ApplyValue(env, x, Nothing);
    ApplyValue(env, y, Nothing);
    ApplyValue(env, Plus(x, y), Apply(x, Nothing));
    NegValue(env, right);
    PlusValue(env, left, Neg(right));
    SumTriangle(Value(env, x), Value(env, y));
  }

  lemma SumTriangle(a: real, b: real)
    ensures Triangle(a + b) == Triangle(a) + Triangle(b) + a * b
  {
    assert (a + b) * (a + b) == a * a + 2.0 * (a * b) + b * b;
  }

  // -------------------------------------------------------------- the rotation

  const EVEN := Plus(Times(X(0), X(2)), Neg(Times(X(1), X(3))))
  const ODD := Plus(Times(X(0), X(3)), Times(X(1), X(2)))

  lemma ComponentValues(env: Env<real>)
    ensures Value(env, EVEN) == env.vars(0) * env.vars(2) - env.vars(1) * env.vars(3)
    ensures Value(env, ODD) == env.vars(0) * env.vars(3) + env.vars(1) * env.vars(2)
    ensures Size(EVEN) <= 1000 && Size(ODD) <= 1000
  {
    hide Times, Plus, Neg, Value, Size;
    CoordinateValue(env, 0);
    CoordinateValue(env, 1);
    CoordinateValue(env, 2);
    CoordinateValue(env, 3);
    TimesValue(env, X(0), X(2));
    TimesValue(env, X(1), X(3));
    TimesValue(env, X(0), X(3));
    TimesValue(env, X(1), X(2));
    NegValue(env, Times(X(1), X(3)));
    PlusValue(env, Times(X(0), X(2)), Neg(Times(X(1), X(3))));
    PlusValue(env, Times(X(0), X(3)), Times(X(1), X(2)));
  }

  lemma CoordinateValue(env: Env<real>, id: Coordinate)
    ensures Value(env, X(id)) == env.vars(id) && Size(X(id)) == 1
  {
  }

  /** The hypotheses of `InPlaceExactly` can be met: a DAG whose roots mean the rotation. */
  lemma RotationDag(l: Layout) returns (dag: NodeSoA, roots: (U32, U32))
    ensures Compiles(dag, roots, l) && VarsBelow(dag, 4) && MeansRotation(Reals(), dag, roots, [])
  {
    hide Eval, Value, Size, Appended, EVEN, ODD, Compiles, Reals, VarsBelow;
    var none: Env<real> := Env(id => 0.0, id => 0.0);
    ComponentValues(none);
    var empty := NodeSoA([], [], []);
    assert VarsBelow(empty, 4) by { EmptyVars(); }
    var even := Appended(empty, EVEN);
    AppendedValue(empty, EVEN, none);
    AppendedValue(even, ODD, none);
    dag, roots := Appended(even, ODD), (|even.kinds| - 1, |even.kinds| + Size(ODD) - 1);
    SizeCompiles(dag, roots, l);
    forall env: Env<real>
      ensures Eval(Reals(), dag, env, roots.0) == env.vars(0) * env.vars(2) - env.vars(1) * env.vars(3)
      ensures Eval(Reals(), dag, env, roots.1) == env.vars(0) * env.vars(3) + env.vars(1) * env.vars(2)
    {
      ComponentValues(env);
      AppendedValue(empty, EVEN, env);
      AppendedValue(even, ODD, env);
      GrowthKeepsValues(Reals(), even, dag, env, roots.0);
    }
  }

  lemma EmptyVars()
    ensures VarsBelow(NodeSoA([], [], []), 4)
  {
  }

  /** A single pair at a right angle: cosine 0, sine 1. */
  const TURN: Bound<real> := Bound([], [], 2.0, [(0.0, 1.0)])

  /**
   Rotating the single pair (1, 0) in place by a right angle, where no later pair exists:
   the compiled program leaves (0, 0), and (0, 1) is right.
   */
  lemma InPlacePairGoesWrong() returns (dag: NodeSoA, roots: (U32, U32))
    ensures var l := Layout(0, 0, 1, 0);
            var buf := Buffer([1.0, 0.0], 2, 1);
            && Compiles(dag, roots, l) && VarsBelow(dag, 4) && MeansRotation(Reals(), dag, roots, [])
            && CountsExactly(Reals(), 2.0)
            && Rotating(Reals(), TURN, dag, roots, l, [], buf) == Some(HotLoop.State([], Buffer([0.0, 0.0], 2, 1)))
            && RotatedCell(Reals(), TURN.Ctx(), dag, roots, TURN.cs, l, buf, 0) == 0.0
            && RotatedCell(Reals(), TURN.Ctx(), dag, roots, TURN.cs, l, buf, 1) == 1.0
  {
    hide EvenScalar, OddScalar, RopeBody, MeansRotation, CountsExactly, VarsBelow, Rotating, RootOn, RotatedCell, Reals;
    var l := Layout(0, 0, 1, 0);
    var buf := Buffer([1.0, 0.0], 2, 1);
    dag, roots := RotationDag(l);
    RealsCount();
    InPlaceRun(Reals(), TURN, dag, roots, l, [], buf);
    var r := Rotating(Reals(), TURN, dag, roots, l, [], buf).value;
    RootsOn(Reals(), TURN, dag, roots, l, buf, 0);
    RootsOn(Reals(), TURN, dag, roots, l, HalfTurned(l, buf, 0, 0.0), 0);
    CellOn(Reals(), TURN, dag, roots, l, buf, 0);
    CellOn(Reals(), TURN, dag, roots, l, buf, 1);
    assert r.buf.data == [0.0, 0.0];
  }
}
