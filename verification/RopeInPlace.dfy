/**
 Rotating a vector in place, where no pair reads another pair's outputs: what the program
 computes instead, and exactly when that is the rotation.
 */
module RopeInPlace {
  import opened Arithmetic
  import opened Machine
  import opened Dag
  import opened Scalar
  import opened VectorLowering
  import opened CompactLowering
  import opened Rope
  import opened RopeLayout

  /** The output row is the input row. */
  predicate InPlace<V>(l: Layout, pairs: nat, buf: Buffer<V>) {
    OutputsFit(l, pairs, buf) && l.inputBase == l.slot * buf.width
  }

  lemma RowInside<V>(l: Layout, pairs: nat, buf: Buffer<V>)
    requires InPlace(l, pairs, buf)
    ensures l.inputBase + 2 * pairs <= |buf.data| && l.inputBase + buf.width == (l.slot + 1) * buf.width
    ensures pairs > 0 ==> l.inputBase + 2 * pairs <= U32_RANGE
  {
    assert (l.slot + 1) * buf.width == l.slot * buf.width + buf.width;
    MulMono(l.slot + 1, buf.slots, buf.width);
  }

  // ------------------------------------------------------------ what a run computes

  function EvenTurn<V>(m: Arith<V>, ctx: Context<V>, l: Layout, even: seq<Op>, initial: Buffer<V>, j: nat): V
    requires IsScalarProgram(even) && 2 * j + 1 < U32_RANGE
  {
    ScalarValue(m, PairEnv(m, ctx, initial, l, j), even)
  }

  /** The buffer the odd component of pair `j` reads: its first coordinate is already turned. */
  function HalfTurned<V>(l: Layout, initial: Buffer<V>, j: nat, v: V): Buffer<V>
    requires l.inputBase + 2 * j < |initial.data|
  {
    initial.(data := initial.data[l.inputBase + 2 * j := v])
  }

  function OddTurn<V>(m: Arith<V>, ctx: Context<V>, l: Layout, even: seq<Op>, odd: seq<Op>, initial: Buffer<V>, j: nat): V
    requires IsScalarProgram(even) && IsScalarProgram(odd) && 2 * j + 1 < U32_RANGE && l.inputBase + 2 * j < |initial.data|
  {
    ScalarValue(m, PairEnv(m, ctx, HalfTurned(l, initial, j, EvenTurn(m, ctx, l, even, initial, j)), l, j), odd)
  }

  /** The first `j` pairs are turned, all other cells are as they were. */
  ghost predicate Turned<V>(
      m: Arith<V>, ctx: Context<V>, l: Layout, even: seq<Op>, odd: seq<Op>, initial: Buffer<V>, j: nat, buf: Buffer<V>)
    requires IsScalarProgram(even) && IsScalarProgram(odd) && 2 * j < U32_RANGE && l.inputBase + 2 * j <= |initial.data|
  {
    && |buf.data| == |initial.data| && buf.width == initial.width && buf.slots == initial.slots
    && (forall k :: 0 <= k < j ==> buf.data[l.inputBase + 2 * k] == EvenTurn(m, ctx, l, even, initial, k))
    && (forall k :: 0 <= k < j ==> buf.data[l.inputBase + 2 * k + 1] == OddTurn(m, ctx, l, even, odd, initial, k))
    && forall c :: 0 <= c < |buf.data| && (c < l.inputBase || l.inputBase + 2 * j <= c) ==> buf.data[c] == initial.data[c]
  }

  // Two buffers with the same coordinates of a pair give its scalars the same values.
  lemma SamePair<V>(m: Arith<V>, ctx: Context<V>, l: Layout, a: Buffer<V>, b: Buffer<V>, j: nat, scalar: seq<Op>)
    requires IsScalarProgram(scalar) && 2 * j + 1 < U32_RANGE && |a.data| == |b.data| && l.inputBase + 2 * j + 1 < |a.data|
    requires a.data[l.inputBase + 2 * j] == b.data[l.inputBase + 2 * j]
    requires a.data[l.inputBase + 2 * j + 1] == b.data[l.inputBase + 2 * j + 1]
    ensures ScalarValue(m, PairEnv(m, ctx, a, l, j), scalar) == ScalarValue(m, PairEnv(m, ctx, b, l, j), scalar)
  {
    var e, f := PairEnv(m, ctx, a, l, j), PairEnv(m, ctx, b, l, j);
    forall id: U32 ensures e.vars(id) == f.vars(id) {
      assert id % 2 == 0 || id % 2 == 1;
    }
    ScalarRunAgrees(m, e, f, scalar, []);
  }

  lemma PairTurns<V>(
      m: Arith<V>, ctx: Context<V>, l: Layout, even: seq<Op>, odd: seq<Op>, initial: Buffer<V>, j: nat, pairs: nat, buf: Buffer<V>)
    requires IsScalarProgram(even) && IsScalarProgram(odd) && InPlace(l, pairs, initial) && j < pairs && buf.Valid()
    requires l.inputBase + 2 * pairs <= |initial.data|
    requires Turned(m, ctx, l, even, odd, initial, j, buf)
    ensures Turned(m, ctx, l, even, odd, initial, j + 1, PairWrites(m, ctx, l, even, odd, j, buf))
  {
    hide ScalarValue, PairEnv, IsScalarProgram, WriteSlot;
    var v := EvenTurn(m, ctx, l, even, initial, j);
    SamePair(m, ctx, l, buf, initial, j, even);
    SlotWrite(buf, l.slot, 2 * j, v);
    var half := WriteSlot(buf, l.slot, 2 * j, v);
    SamePair(m, ctx, l, half, HalfTurned(l, initial, j, v), j, odd);
    SlotWrite(half, l.slot, 2 * j + 1, OddTurn(m, ctx, l, even, odd, initial, j));
  }

  lemma {:induction false} AllTurn<V>(
      m: Arith<V>, ctx: Context<V>, l: Layout, even: seq<Op>, odd: seq<Op>, initial: Buffer<V>, j: nat, pairs: nat, buf: Buffer<V>)
    requires IsScalarProgram(even) && IsScalarProgram(odd) && InPlace(l, pairs, initial) && j <= pairs && buf.Valid()
    requires l.inputBase + 2 * pairs <= |initial.data|
    requires Turned(m, ctx, l, even, odd, initial, j, buf)
    ensures Turned(m, ctx, l, even, odd, initial, pairs, RopeWrites(m, ctx, l, even, odd, j, pairs, buf))
    decreases pairs - j
  {
    hide Turned, PairWrites, IsScalarProgram;
    if j < pairs {
      PairTurns(m, ctx, l, even, odd, initial, j, pairs, buf);
      AllTurn(m, ctx, l, even, odd, initial, j + 1, pairs, PairWrites(m, ctx, l, even, odd, j, buf));
    }
  }

  /** A root's value on pair `j` of a buffer. */
  function RootOn<V>(m: Arith<V>, b: Bound<V>, dag: NodeSoA, root: U32, l: Layout, buf: Buffer<V>, j: nat): V
    requires dag.Valid() && root < dag.Size() && b.Fits(l) && j < |b.cs|
  {
    Eval(m, dag, RotationEnv(m, b.Ctx(), buf, l.inputBase, j, b.cs[j]), root)
  }

  /**
   Rotated in place, every even output is right, and every odd output is the odd root on the
   already rotated first coordinate.
   */
  lemma InPlaceRun<V(!new)>(
      m: Arith<V>, b: Bound<V>, dag: NodeSoA, roots: (U32, U32), l: Layout, pre: seq<V>, buf: Buffer<V>)
    requires Compiles(dag, roots, l) && VarsBelow(dag, 4) && b.Fits(l) && CountsExactly(m, b.two) && InPlace(l, |b.cs|, buf)
    ensures l.inputBase + 2 * |b.cs| <= |buf.data|
    ensures var r := Rotating(m, b, dag, roots, l, pre, buf);
            && r.Some? && r.value.stack == pre && |r.value.buf.data| == |buf.data|
            && (forall k :: 0 <= k < |b.cs| ==>
                  var v := RootOn(m, b, dag, roots.0, l, buf, k);
                  && r.value.buf.data[l.inputBase + 2 * k] == v
                  && r.value.buf.data[l.inputBase + 2 * k + 1] == RootOn(m, b, dag, roots.1, l, HalfTurned(l, buf, k, v), k))
            && forall c :: 0 <= c < |buf.data| && (c < l.inputBase || l.inputBase + 2 * |b.cs| <= c) ==>
                 r.value.buf.data[c] == buf.data[c]
  {
    hide Eval, RotationEnv, ScalarValue, PairEnv, CompactScalar, IsScalarProgram, VarsBelow, RopeWrites, Rotating, Flatten;
    RowInside(l, |b.cs|, buf);
    RotatingWrites(m, b, dag, roots, l, pre, buf);
    AllTurn(m, b.Ctx(), l, EvenScalar(dag, roots), OddScalar(dag, roots), buf, 0, |b.cs|, buf);
    forall k | 0 <= k < |b.cs|
      ensures var v := RootOn(m, b, dag, roots.0, l, buf, k);
              && EvenTurn(m, b.Ctx(), l, EvenScalar(dag, roots), buf, k) == v
              && OddTurn(m, b.Ctx(), l, EvenScalar(dag, roots), OddScalar(dag, roots), buf, k)
                 == RootOn(m, b, dag, roots.1, l, HalfTurned(l, buf, k, v), k)
    {
      var v := RootOn(m, b, dag, roots.0, l, buf, k);
      PairMeaning(m, dag, roots.0, b.constPool, b.two, b.cs, b.inputs, l, buf, k);
      PairMeaning(m, dag, roots.1, b.constPool, b.two, b.cs, b.inputs, l, HalfTurned(l, buf, k, v), k);
    }
  }

  /** The odd root of pair `k` does not notice that its first coordinate is turned already. */
  ghost predicate Unnoticed<V>(m: Arith<V>, b: Bound<V>, dag: NodeSoA, roots: (U32, U32), l: Layout, buf: Buffer<V>, k: nat)
    requires dag.Valid() && roots.0 < dag.Size() && roots.1 < dag.Size() && b.Fits(l) && k < |b.cs|
    requires l.inputBase + 2 * k < |buf.data|
  {
    RootOn(m, b, dag, roots.1, l, HalfTurned(l, buf, k, RootOn(m, b, dag, roots.0, l, buf, k)), k)
    == RootOn(m, b, dag, roots.1, l, buf, k)
  }

  /** In place, the run rotates exactly when no odd root notices the turned coordinate. */
  lemma InPlaceRotates<V(!new)>(
      m: Arith<V>, b: Bound<V>, dag: NodeSoA, roots: (U32, U32), l: Layout, pre: seq<V>, buf: Buffer<V>)
    requires Compiles(dag, roots, l) && VarsBelow(dag, 4) && b.Fits(l) && CountsExactly(m, b.two) && InPlace(l, |b.cs|, buf)
    ensures l.inputBase + 2 * |b.cs| <= |buf.data|
    ensures Rotates(m, b, dag, roots, l, pre, buf) <==> forall k :: 0 <= k < |b.cs| ==> Unnoticed(m, b, dag, roots, l, buf, k)
  {
    hide Rotating, Flatten, CountsExactly, VarsBelow, RootOn, RotatedCell, EvenScalar, OddScalar, RopeBody, Unnoticed, HalfTurned,
         IsScalarProgram;
    RowInside(l, |b.cs|, buf);
    InPlaceRun(m, b, dag, roots, l, pre, buf);
    RowRotated(m, b, dag, roots, l, buf, Rotating(m, b, dag, roots, l, pre, buf).value.buf.data);
  }

  lemma RowRotated<V>(m: Arith<V>, b: Bound<V>, dag: NodeSoA, roots: (U32, U32), l: Layout, buf: Buffer<V>, data: seq<V>)
    requires dag.Valid() && roots.0 < dag.Size() && roots.1 < dag.Size() && b.Fits(l) && InPlace(l, |b.cs|, buf)
    requires |data| == |buf.data| && l.inputBase + 2 * |b.cs| <= |data|
    requires forall k :: 0 <= k < |b.cs| ==>
               var v := RootOn(m, b, dag, roots.0, l, buf, k);
               && data[l.inputBase + 2 * k] == v
               && data[l.inputBase + 2 * k + 1] == RootOn(m, b, dag, roots.1, l, HalfTurned(l, buf, k, v), k)
    requires forall c :: 0 <= c < |data| && (c < l.inputBase || l.inputBase + 2 * |b.cs| <= c) ==> data[c] == buf.data[c]
    ensures (forall c :: 0 <= c < |data| ==> data[c] == RotatedCell(m, b.Ctx(), dag, roots, b.cs, l, buf, c))
            <==> forall k :: 0 <= k < |b.cs| ==> Unnoticed(m, b, dag, roots, l, buf, k)
  {
    hide Flatten, RootOn, RotatedCell, HalfTurned;
    if forall c :: 0 <= c < |data| ==> data[c] == RotatedCell(m, b.Ctx(), dag, roots, b.cs, l, buf, c) {
      forall k | 0 <= k < |b.cs| ensures Unnoticed(m, b, dag, roots, l, buf, k) {
        CellOn(m, b, dag, roots, l, buf, l.inputBase + 2 * k + 1);
      }
    }
    if forall k :: 0 <= k < |b.cs| ==> Unnoticed(m, b, dag, roots, l, buf, k) {
      forall c | 0 <= c < |data| ensures data[c] == RotatedCell(m, b.Ctx(), dag, roots, b.cs, l, buf, c) {
        CellOn(m, b, dag, roots, l, buf, c);
        if l.inputBase <= c < l.inputBase + 2 * |b.cs| {
          var k := (c - l.inputBase) / 2;
          assert c == l.inputBase + 2 * k || c == l.inputBase + 2 * k + 1;
          assert Unnoticed(m, b, dag, roots, l, buf, k);
        }
      }
    }
  }

  lemma CellOn<V>(m: Arith<V>, b: Bound<V>, dag: NodeSoA, roots: (U32, U32), l: Layout, buf: Buffer<V>, c: nat)
    requires dag.Valid() && roots.0 < dag.Size() && roots.1 < dag.Size() && b.Fits(l) && InPlace(l, |b.cs|, buf) && c < |buf.data|
    ensures RotatedCell(m, b.Ctx(), dag, roots, b.cs, l, buf, c)
            == if l.inputBase <= c < l.inputBase + 2 * |b.cs|
               then RootOn(m, b, dag, if (c - l.inputBase) % 2 == 0 then roots.0 else roots.1, l, buf, (c - l.inputBase) / 2)
               else buf.data[c]
  {
    hide Eval, RotationEnv, Flatten;
    RowInside(l, |b.cs|, buf);
  }

  // --------------------------------------------------------------- over the reals

  ghost predicate Supplied(env: Env<real>, constPool: seq<real>) {
    forall k: U32 :: k < |constPool| ==> env.consts(k) == constPool[k]
  }

  /** The two roots are the components of a plane rotation of the variables 0 and 1. */
  ghost predicate MeansRotation(m: Arith<real>, dag: NodeSoA, roots: (U32, U32), constPool: seq<real>)
    requires dag.Valid() && roots.0 < dag.Size() && roots.1 < dag.Size()
  {
    forall env: Env<real> {:trigger Eval(m, dag, env, roots.0)} {:trigger Eval(m, dag, env, roots.1)} ::
      Supplied(env, constPool) ==>
        && Eval(m, dag, env, roots.0) == env.vars(0) * env.vars(2) - env.vars(1) * env.vars(3)
        && Eval(m, dag, env, roots.1) == env.vars(0) * env.vars(3) + env.vars(1) * env.vars(2)
  }

  /** The first coordinate of pair `k` after its rotation. */
  function TurnedX(b: Bound<real>, l: Layout, buf: Buffer<real>, k: nat): real
    requires k < |b.cs| && l.inputBase + 2 * k + 1 < |buf.data|
  {
    buf.data[l.inputBase + 2 * k] * b.cs[k].0 - buf.data[l.inputBase + 2 * k + 1] * b.cs[k].1
  }

  lemma RootsOn(m: Arith<real>, b: Bound<real>, dag: NodeSoA, roots: (U32, U32), l: Layout, buf: Buffer<real>, k: nat)
    requires dag.Valid() && roots.0 < dag.Size() && roots.1 < dag.Size() && MeansRotation(m, dag, roots, b.constPool)
    requires b.Fits(l) && k < |b.cs| && l.inputBase + 2 * k + 1 < |buf.data| && l.inputBase + 2 * k + 1 < U32_RANGE
    ensures var (x, y) := (buf.data[l.inputBase + 2 * k], buf.data[l.inputBase + 2 * k + 1]);
            && RootOn(m, b, dag, roots.0, l, buf, k) == x * b.cs[k].0 - y * b.cs[k].1
            && RootOn(m, b, dag, roots.1, l, buf, k) == x * b.cs[k].1 + y * b.cs[k].0
  {
    hide Eval, Flatten, RotationEnv, Supplied;
    var env := RotationEnv(m, b.Ctx(), buf, l.inputBase, k, b.cs[k]);
    PairOperands(m, b, l, buf, k);
    assert Eval(m, dag, env, roots.0) == env.vars(0) * env.vars(2) - env.vars(1) * env.vars(3);
  }

  lemma PairOperands(m: Arith<real>, b: Bound<real>, l: Layout, buf: Buffer<real>, k: nat)
    requires b.Fits(l) && k < |b.cs| && l.inputBase + 2 * k + 1 < |buf.data| && l.inputBase + 2 * k + 1 < U32_RANGE
    ensures var env := RotationEnv(m, b.Ctx(), buf, l.inputBase, k, b.cs[k]);
            && Supplied(env, b.constPool)
            && env.vars(0) == buf.data[l.inputBase + 2 * k] && env.vars(1) == buf.data[l.inputBase + 2 * k + 1]
            && env.vars(2) == b.cs[k].0 && env.vars(3) == b.cs[k].1
  {
    hide Flatten;
    assert ReadIndexed(m, buf, l.inputBase, 2 * k) == buf.data[l.inputBase + 2 * k];
    assert ReadIndexed(m, buf, l.inputBase, 2 * k + 1) == buf.data[l.inputBase + 2 * k + 1];
  }

  /**
   Over the reals, a vector rotated in place comes out right if and only if every pair has
   sine zero or keeps its first coordinate.
   */
  lemma InPlaceExactly(m: Arith<real>, b: Bound<real>, dag: NodeSoA, roots: (U32, U32), l: Layout, pre: seq<real>, buf: Buffer<real>)
    requires Compiles(dag, roots, l) && VarsBelow(dag, 4) && MeansRotation(m, dag, roots, b.constPool)
    requires b.Fits(l) && CountsExactly(m, b.two) && InPlace(l, |b.cs|, buf)
    ensures l.inputBase + 2 * |b.cs| <= |buf.data|
    ensures Rotates(m, b, dag, roots, l, pre, buf)
            <==> forall k :: 0 <= k < |b.cs| ==>
                   b.cs[k].1 == 0.0 || TurnedX(b, l, buf, k) == buf.data[l.inputBase + 2 * k]
  {
    hide Rotates, RootOn, CountsExactly, VarsBelow, MeansRotation, TurnedX, Unnoticed, EvenScalar, OddScalar, RopeBody;
    RowInside(l, |b.cs|, buf);
    InPlaceRotates(m, b, dag, roots, l, pre, buf);
    forall k | 0 <= k < |b.cs|
      ensures Unnoticed(m, b, dag, roots, l, buf, k)
              <==> b.cs[k].1 == 0.0 || TurnedX(b, l, buf, k) == buf.data[l.inputBase + 2 * k]
    {
      TurnNoticed(m, b, dag, roots, l, buf, k);
    }
  }

  lemma TurnNoticed(m: Arith<real>, b: Bound<real>, dag: NodeSoA, roots: (U32, U32), l: Layout, buf: Buffer<real>, k: nat)
    requires dag.Valid() && roots.0 < dag.Size() && roots.1 < dag.Size() && MeansRotation(m, dag, roots, b.constPool)
    requires b.Fits(l) && k < |b.cs| && l.inputBase + 2 * k + 1 < |buf.data| && l.inputBase + 2 * k + 1 < U32_RANGE
    ensures Unnoticed(m, b, dag, roots, l, buf, k)
            <==> b.cs[k].1 == 0.0 || TurnedX(b, l, buf, k) == buf.data[l.inputBase + 2 * k]
  {
    hide RootOn, MeansRotation, Flatten;
    var c, s := b.cs[k].0, b.cs[k].1;
    var x, y := buf.data[l.inputBase + 2 * k], buf.data[l.inputBase + 2 * k + 1];
    var turned := TurnedX(b, l, buf, k);
    RootsOn(m, b, dag, roots, l, buf, k);
    var half := HalfTurned(l, buf, k, turned);
    assert half.data[l.inputBase + 2 * k] == turned && half.data[l.inputBase + 2 * k + 1] == y;
    RootsOn(m, b, dag, roots, l, half, k);
    assert RootOn(m, b, dag, roots.0, l, buf, k) == turned;
    assert RootOn(m, b, dag, roots.1, l, buf, k) == x * s + y * c;
    assert RootOn(m, b, dag, roots.1, l, half, k) == turned * s + y * c;
    var rest := y * c;
    assert Unnoticed(m, b, dag, roots, l, buf, k) <==> turned * s + rest == x * s + rest;
    SameSine(turned, x, s, rest);
  }

  lemma SameSine(a: real, x: real, s: real, r: real)
    ensures a * s + r == x * s + r <==> s == 0.0 || a == x
  {
    if a * s == x * s && s != 0.0 {
      assert (a - x) * s == 0.0;
    }
  }
}
