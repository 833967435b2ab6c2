/**
 Dot products and matrix products as RPN loops: `bml_dot_program`,
 `bml_matmul_program`, and the row loop `bml_matmul` that runs the dot program with
 one reused weight row.
 */
module Matmul {
  import opened Arithmetic
  import opened Wrappers
  import opened Machine
  import opened HotLoop
  import opened VectorLowering

  function DotBody(xBase: U32, wBase: U32): seq<Op> {
    [Dup, VarIndexed(xBase), Swap, VarIndexed(wBase), FMul, FAdd]
  }

  /** `bml_dot_program`. */
  function DotProgram(xBase: U32, wBase: U32, n: U32): seq<Op> {
    [Zero] + ([Loop(n, |DotBody(xBase, wBase)|)] + DotBody(xBase, wBase))
  }

  /** The left-to-right fold over elements `i..n`, starting from `acc`. */
  function Fold<V>(m: Arith<V>, x: nat -> V, w: nat -> V, i: nat, n: nat, acc: V): V
    requires i <= n
    decreases n - i
  {
    if i == n then acc else Fold(m, x, w, i + 1, n, m.add(acc, m.mul(x(i), w(i))))
  }

  function CellsAt<V>(m: Arith<V>, buf: Buffer<V>, base: U32): nat -> V {
    (i: nat) => if i < U32_RANGE then ReadIndexed(m, buf, base, i) else m.nan
  }

  /** The dot product a program computes: products in order, starting from zero. */
  function Dot<V>(m: Arith<V>, buf: Buffer<V>, xBase: U32, wBase: U32, n: U32): V {
    Fold(m, CellsAt(m, buf, xBase), CellsAt(m, buf, wBase), 0, n, m.zero)
  }

  lemma DotIteration<V>(m: Arith<V>, ctx: Context<V>, xBase: U32, wBase: U32, i: U32, pre: seq<V>, acc: V, buf: Buffer<V>)
    requires buf.Valid() && m.CountersSurvive()
    ensures Run(m, ctx, DotBody(xBase, wBase), State(pre + [acc] + [m.fromU32(i)], buf))
            == Some(State(pre + [m.add(acc, m.mul(ReadIndexed(m, buf, xBase, i), ReadIndexed(m, buf, wBase, i)))], buf))
  {
    hide Run;
    var c := m.fromU32(i);
    var x, w := ReadIndexed(m, buf, xBase, i), ReadIndexed(m, buf, wBase, i);
    var s := pre + [acc];
    DupStep(m, ctx, s, c, buf);
    LoadStep(m, ctx, xBase, s + [c], c, buf);
    SwapStep(m, ctx, s, c, x, buf);
    LoadStep(m, ctx, wBase, s + [x], c, buf);
    BinaryStep(m, ctx, s, x, w, buf);
    BinaryStep(m, ctx, pre, acc, m.mul(x, w), buf);
    hide Step;
    var a, b, d := [Dup, VarIndexed(xBase)], [Swap, VarIndexed(wBase)], [FMul, FAdd];
    RunPair(m, ctx, Dup, VarIndexed(xBase), State(s + [c], buf));
    RunPair(m, ctx, Swap, VarIndexed(wBase), State(s + [c] + [x], buf));
    RunPair(m, ctx, FMul, FAdd, State(s + [x] + [w], buf));
    RunConcat(m, ctx, b, d, State(s + [c] + [x], buf));
    RunConcat(m, ctx, a, b + d, State(s + [c], buf));
    assert a + (b + d) == DotBody(xBase, wBase);
  }

  lemma DupStep<V>(m: Arith<V>, ctx: Context<V>, s: seq<V>, c: V, buf: Buffer<V>)
    requires buf.Valid()
    ensures Step(m, ctx, Dup, State(s + [c], buf)) == Some(State(s + [c] + [c], buf))
  {
  }

  lemma {:induction false} DotIterations<V>(
      m: Arith<V>, ctx: Context<V>, xBase: U32, wBase: U32, i: nat, n: U32, pre: seq<V>, acc: V, buf: Buffer<V>)
    requires buf.Valid() && m.CountersSurvive() && i <= n
    ensures Iterate(m, ctx, DotBody(xBase, wBase), i, n, State(pre + [acc], buf))
            == Some(State(pre + [Fold(m, CellsAt(m, buf, xBase), CellsAt(m, buf, wBase), i, n, acc)], buf))
    decreases n - i
  {
    hide Run;
    if i < n {
      DotIteration(m, ctx, xBase, wBase, i, pre, acc, buf);
      var next := m.add(acc, m.mul(ReadIndexed(m, buf, xBase, i), ReadIndexed(m, buf, wBase, i)));
      DotIterations(m, ctx, xBase, wBase, i + 1, n, pre, next, buf);
    }
  }

  /** The dot program leaves the fold on top of any stack and changes nothing else. */
  lemma DotProgramCorrect<V>(m: Arith<V>, ctx: Context<V>, xBase: U32, wBase: U32, n: U32, pre: seq<V>, buf: Buffer<V>)
    requires buf.Valid() && m.CountersSurvive()
    ensures Closed(DotProgram(xBase, wBase, n))
    ensures Run(m, ctx, DotProgram(xBase, wBase, n), State(pre, buf))
            == Some(State(pre + [Dot(m, buf, xBase, wBase, n)], buf))
  {
    DotClosed(xBase, wBase, n);
    var body := DotBody(xBase, wBase);
    RunSingle(m, ctx, Zero, State(pre, buf));
    ProgramIsLoop(m, ctx, n, body, State(pre + [m.zero], buf));
    DotIterations(m, ctx, xBase, wBase, 0, n, pre, m.zero, buf);
    hide Run, Step;
    RunConcat(m, ctx, [Zero], [Loop(n, |body|)] + body, State(pre, buf));
  }

  lemma DotClosed(xBase: U32, wBase: U32, n: U32)
    ensures Closed(DotProgram(xBase, wBase, n))
  {
    var ops := DotProgram(xBase, wBase, n);
    assert ops[1..][7..] == [];
  }

  // ------------------------------------------------------------ bml_matmul_program

  /** Column `j` starts `j * n` elements into the weights. */
  predicate ColumnsFit(wBase: U32, nIn: U32, nOut: U32) {
    nOut > 0 ==> wBase + (nOut - 1) * nIn < U32_RANGE
  }

  lemma ColumnFits(wBase: U32, nIn: U32, nOut: U32, j: U32)
    requires ColumnsFit(wBase, nIn, nOut) && j < nOut
    ensures wBase + j * nIn < U32_RANGE
  {
    MulMono(j, nOut - 1, nIn);
  }

  function ColumnBase(wBase: U32, nIn: U32, nOut: U32, j: U32): (base: U32)
    requires ColumnsFit(wBase, nIn, nOut) && j < nOut
    ensures base == wBase + j * nIn
  {
    ColumnFits(wBase, nIn, nOut, j);
    wBase + j * nIn
  }

  function ColumnCode(xBase: U32, wBase: U32, nIn: U32, nOut: U32, slot: U32, j: U32): seq<Op>
    requires ColumnsFit(wBase, nIn, nOut) && j < nOut
  {
    DotProgram(xBase, ColumnBase(wBase, nIn, nOut, j), nIn) + [Const(j), StoreResult(slot)]
  }

  function MatmulCode(xBase: U32, wBase: U32, nIn: U32, nOut: U32, slot: U32, j: nat): seq<Op>
    requires ColumnsFit(wBase, nIn, nOut) && j <= nOut
  {
    if j == 0 then [] else MatmulCode(xBase, wBase, nIn, nOut, slot, j - 1) + ColumnCode(xBase, wBase, nIn, nOut, slot, j - 1)
  }

  /** `bml_matmul_program`. */
  method MatmulProgram(xBase: U32, wBase: U32, nIn: U32, nOut: U32, slot: U32) returns (ops: seq<Op>)
    requires ColumnsFit(wBase, nIn, nOut)
    ensures ops == MatmulCode(xBase, wBase, nIn, nOut, slot, nOut)
  {
    ops := [];
    for j := 0 to nOut
      invariant ops == MatmulCode(xBase, wBase, nIn, nOut, slot, j)
    {
      ghost var before := ops;
      ops := ops + [Zero];
      ColumnFits(wBase, nIn, nOut, j);
      var column := wBase + j * nIn;
      var body := [Dup, VarIndexed(xBase), Swap, VarIndexed(column), FMul, FAdd];
      ops := ops + [Loop(nIn, |body|)];
      ops := ops + body;
      ops := ops + [Const(j), StoreResult(slot)];
      assert ops == before + ColumnCode(xBase, wBase, nIn, nOut, slot, j);
    }
  }

  /** Outputs of earlier columns never cover the input or the weights of column `j`. */
  predicate OperandFresh<V>(buf: Buffer<V>, slot: U32, j: U32, base: U32, i: U32) {
    !IsOutput(buf, slot, j, base + i)
  }

  ghost predicate MatmulFresh<V>(buf: Buffer<V>, xBase: U32, wBase: U32, nIn: U32, nOut: U32, slot: U32)
    requires ColumnsFit(wBase, nIn, nOut)
  {
    forall j, i :: 0 <= j < nOut && 0 <= i < nIn ==>
      OperandFresh(buf, slot, j, xBase, i) && OperandFresh(buf, slot, j, ColumnBase(wBase, nIn, nOut, j), i)
  }

  /** Columns below `j` are stored, every other cell is as it was. */
  ghost predicate StoredTo<V>(
      m: Arith<V>, xBase: U32, wBase: U32, nIn: U32, nOut: U32, slot: U32, initial: Buffer<V>, j: U32, buf: Buffer<V>)
    requires ColumnsFit(wBase, nIn, nOut) && j <= nOut
  {
    && |buf.data| == |initial.data| && buf.width == initial.width && buf.slots == initial.slots
    && forall c :: 0 <= c < |buf.data| ==>
         buf.data[c] == if IsOutput(initial, slot, j, c)
                        then Dot(m, initial, xBase, ColumnBase(wBase, nIn, nOut, c - slot * initial.width), nIn)
                        else initial.data[c]
  }

  lemma {:induction false} FoldAgrees<V>(m: Arith<V>, x: nat -> V, w: nat -> V, y: nat -> V, u: nat -> V, i: nat, n: nat, acc: V)
    requires i <= n && forall k :: i <= k < n ==> x(k) == y(k) && w(k) == u(k)
    ensures Fold(m, x, w, i, n, acc) == Fold(m, y, u, i, n, acc)
    decreases n - i
  {
    if i < n {
      FoldAgrees(m, x, w, y, u, i + 1, n, m.add(acc, m.mul(x(i), w(i))));
    }
  }

  lemma ColumnDot<V>(
      m: Arith<V>, xBase: U32, wBase: U32, nIn: U32, nOut: U32, slot: U32, initial: Buffer<V>, j: U32, buf: Buffer<V>)
    requires ColumnsFit(wBase, nIn, nOut) && j < nOut && MatmulFresh(initial, xBase, wBase, nIn, nOut, slot)
    requires StoredTo(m, xBase, wBase, nIn, nOut, slot, initial, j, buf)
    ensures Dot(m, buf, xBase, ColumnBase(wBase, nIn, nOut, j), nIn)
            == Dot(m, initial, xBase, ColumnBase(wBase, nIn, nOut, j), nIn)
  {
    var column := ColumnBase(wBase, nIn, nOut, j);
    forall i | 0 <= i < nIn
      ensures CellsAt(m, buf, xBase)(i) == CellsAt(m, initial, xBase)(i)
      ensures CellsAt(m, buf, column)(i) == CellsAt(m, initial, column)(i)
    {
      assert OperandFresh(initial, slot, j, xBase, i) && OperandFresh(initial, slot, j, column, i);
    }
    FoldAgrees(m, CellsAt(m, buf, xBase), CellsAt(m, buf, column), CellsAt(m, initial, xBase), CellsAt(m, initial, column),
               0, nIn, m.zero);
  }

  lemma ColumnRun<V>(
      m: Arith<V>, ctx: Context<V>, xBase: U32, wBase: U32, nIn: U32, nOut: U32, slot: U32, j: U32, pre: seq<V>, buf: Buffer<V>)
    requires ColumnsFit(wBase, nIn, nOut) && j < nOut && buf.Valid() && m.CountersSurvive()
    requires m.castU32(GetConst(m, ctx, j)) == j
    ensures Run(m, ctx, ColumnCode(xBase, wBase, nIn, nOut, slot, j), State(pre, buf))
            == Some(State(pre, WriteSlot(buf, slot, j, Dot(m, buf, xBase, ColumnBase(wBase, nIn, nOut, j), nIn))))
  {
    hide Run, WriteSlot, Dot;
    var dot := DotProgram(xBase, ColumnBase(wBase, nIn, nOut, j), nIn);
    var v := Dot(m, buf, xBase, ColumnBase(wBase, nIn, nOut, j), nIn);
    DotProgramCorrect(m, ctx, xBase, ColumnBase(wBase, nIn, nOut, j), nIn, pre, buf);
    StoreStep(m, ctx, slot, pre, v, GetConst(m, ctx, j), buf);
    RunPair(m, ctx, Const(j), StoreResult(slot), State(pre + [v], buf));
    RunConcatClosed(m, ctx, dot, [Const(j), StoreResult(slot)], State(pre, buf));
  }

  lemma {:induction false} MatmulClosed(xBase: U32, wBase: U32, nIn: U32, nOut: U32, slot: U32, j: nat)
    requires ColumnsFit(wBase, nIn, nOut) && j <= nOut
    ensures Closed(MatmulCode(xBase, wBase, nIn, nOut, slot, j))
    decreases j
  {
    if j > 0 {
      MatmulClosed(xBase, wBase, nIn, nOut, slot, j - 1);
      DotClosed(xBase, ColumnBase(wBase, nIn, nOut, j - 1), nIn);
      ClosedConcat(DotProgram(xBase, ColumnBase(wBase, nIn, nOut, j - 1), nIn), [Const(j - 1), StoreResult(slot)]);
      ClosedConcat(MatmulCode(xBase, wBase, nIn, nOut, slot, j - 1), ColumnCode(xBase, wBase, nIn, nOut, slot, j - 1));
    }
  }

  /**
   The matrix program stores, for each column, the fold of the input with that column at
   the column's offset, restores the stack, and touches no other cell.
   */
  lemma {:induction false} MatmulProgramCorrect<V>(
      m: Arith<V>, ctx: Context<V>, xBase: U32, wBase: U32, nIn: U32, nOut: U32, slot: U32, j: nat, pre: seq<V>, buf: Buffer<V>)
    requires ColumnsFit(wBase, nIn, nOut) && j <= nOut && buf.Valid() && m.CountersSurvive()
    requires forall k: U32 :: k < nOut ==> m.castU32(GetConst(m, ctx, k)) == k
    requires MatmulFresh(buf, xBase, wBase, nIn, nOut, slot)
    ensures var r := Run(m, ctx, MatmulCode(xBase, wBase, nIn, nOut, slot, j), State(pre, buf));
            r.Some? && r.value.stack == pre && StoredTo(m, xBase, wBase, nIn, nOut, slot, buf, j, r.value.buf)
    decreases j
  {
    hide Step, ColumnCode, Dot, MatmulFresh, Fold;
    if j > 0 {
      MatmulProgramCorrect(m, ctx, xBase, wBase, nIn, nOut, slot, j - 1, pre, buf);
      MatmulClosed(xBase, wBase, nIn, nOut, slot, j - 1);
      var before := MatmulCode(xBase, wBase, nIn, nOut, slot, j - 1);
      var now := Run(m, ctx, before, State(pre, buf)).value.buf;
      RunConcatClosed(m, ctx, before, ColumnCode(xBase, wBase, nIn, nOut, slot, j - 1), State(pre, buf));
      ColumnRun(m, ctx, xBase, wBase, nIn, nOut, slot, j - 1, pre, now);
      ColumnDot(m, xBase, wBase, nIn, nOut, slot, buf, j - 1, now);
      ColumnStored(m, xBase, wBase, nIn, nOut, slot, buf, j - 1, now);
    } else {
      assert Run(m, ctx, [], State(pre, buf)) == Some(State(pre, buf));
    }
  }

  lemma ColumnStored<V>(
      m: Arith<V>, xBase: U32, wBase: U32, nIn: U32, nOut: U32, slot: U32, initial: Buffer<V>, j: U32, buf: Buffer<V>)
    requires ColumnsFit(wBase, nIn, nOut) && j < nOut && initial.Valid() && buf.Valid()
    requires StoredTo(m, xBase, wBase, nIn, nOut, slot, initial, j, buf)
    ensures StoredTo(m, xBase, wBase, nIn, nOut, slot, initial, j + 1,
                     WriteSlot(buf, slot, j, Dot(m, initial, xBase, ColumnBase(wBase, nIn, nOut, j), nIn)))
  {
    hide Dot;
    assert (slot + 1) * initial.width == slot * initial.width + initial.width;
  }

  // --------------------------------------------------- bml_matmul: the row loop

  datatype ProjectionError = InvalidDimensions | IndexOverflow | RangeOutsidePool

  /** One output row: the fold of the input with the widened weight row. */
  function RowDot<V, F>(m: Arith<V>, widen: F -> V, x: seq<V>, weights: seq<F>, start: nat): V
    requires start + |x| <= |weights|
  {
    Fold(m, (i: nat) => if i < |x| then x[i] else m.nan, (i: nat) => if i < |x| then widen(weights[start + i]) else m.nan,
         0, |x|, m.zero)
  }

  /** Row `r` of a matrix stored at `offset` lies inside the pool. */
  lemma RowInside(offset: nat, n: nat, rows: nat, r: nat, size: nat)
    requires r < rows && offset + n * rows <= size
    ensures 0 <= r * n && offset + r * n + n <= size
  {
    MulMono(0, r, n);
    MulMono(r + 1, rows, n);
    assert (r + 1) * n == r * n + n && n * rows == rows * n;
  }

  /** The fold, from zero and left to right, of the products of `x[i]` and the weight at `offset + row * n + i`. */
  ghost predicate IsRowFold<V, F>(
      m: Arith<V>, widen: F -> V, x: seq<V>, weights: seq<F>, offset: nat, n: nat, row: nat, v: V)
  {
    && |x| == n && 0 <= row * n && offset + row * n + n <= |weights|
    && v == Fold(m, (i: nat) => if i < n then x[i] else m.nan,
                 (i: nat) => if i < n then widen(weights[offset + row * n + i]) else m.nan, 0, n, m.zero)
  }

  /** `bml_matmul`: row-major weights, one scratch buffer for all rows. */
  method BmlMatmul<V, F>(
      m: Arith<V>, widen: F -> V, hot: HotLoop<V>, x: seq<V>, weights: seq<F>, offset: nat, nIn: U32, nOut: U32)
    returns (r: Result<seq<V>, ProjectionError>)
    requires m.CountersSurvive()
    modifies hot
    ensures r.Ok? <==> nIn != 0 && nOut != 0 && |x| == nIn && 2 * nIn < 0x1_0000_0000 && offset + nIn * nOut <= |weights|
    ensures r.Ok? ==> |r.value| == nOut
    ensures r.Ok? ==> forall row :: 0 <= row < nOut ==>
              && 0 <= row * nIn && offset + row * nIn + nIn <= |weights|
              && r.value[row] == Fold(m, (i: nat) => if i < nIn then x[i] else m.nan,
                                      (i: nat) => if i < nIn then widen(weights[offset + row * nIn + i]) else m.nan,
                                      0, nIn, m.zero)
  {
    hide IsRowFold, RowDot;
    if nIn == 0 || nOut == 0 || |x| != nIn {
      return Err(InvalidDimensions);
    }
    if 2 * nIn >= U32_RANGE {
      return Err(IndexOverflow);
    }
    if offset + nIn * nOut > |weights| {
      return Err(RangeOutsidePool);
    }
    var buf := new ResultBuffer(m.zero, 2, nIn);
    FillSlot(buf, 0, x);
    var output: seq<V> := [];
    for row := 0 to nOut
      invariant fresh(buf.data) && buf.Valid() && buf.slotSize == nIn && buf.nSlots == 2 && buf.data[..nIn] == x
      invariant |output| == row
      invariant forall k :: 0 <= k < row ==> IsRowFold(m, widen, x, weights, offset, nIn, k, output[k])
    {
      RowInside(offset, nIn, nOut, row, |weights|);
      var v := RunRow(m, widen, hot, buf, x, weights, offset + row * nIn);
      RowDotIsFold(m, widen, x, weights, offset, nIn, row);
      output := output + [v];
    }
    r := Ok(output);
    forall row | 0 <= row < nOut
      ensures && 0 <= row * nIn && offset + row * nIn + nIn <= |weights|
              && r.value[row] == Fold(m, (i: nat) => if i < nIn then x[i] else m.nan,
                                      (i: nat) => if i < nIn then widen(weights[offset + row * nIn + i]) else m.nan,
                                      0, nIn, m.zero)
    {
      RowFoldIs(m, widen, x, weights, offset, nIn, row, r.value[row]);
    }
  }

  lemma RowFoldIs<V, F>(m: Arith<V>, widen: F -> V, x: seq<V>, weights: seq<F>, offset: nat, n: nat, row: nat, v: V)
    requires IsRowFold(m, widen, x, weights, offset, n, row, v)
    ensures && |x| == n && 0 <= row * n && offset + row * n + n <= |weights|
            && v == Fold(m, (i: nat) => if i < n then x[i] else m.nan,
                         (i: nat) => if i < n then widen(weights[offset + row * n + i]) else m.nan, 0, n, m.zero)
  {
  }

  lemma RowDotIsFold<V, F>(m: Arith<V>, widen: F -> V, x: seq<V>, weights: seq<F>, offset: nat, n: nat, row: nat)
    requires |x| == n && 0 <= row * n && offset + row * n + n <= |weights|
    ensures IsRowFold(m, widen, x, weights, offset, n, row, RowDot(m, widen, x, weights, offset + row * n))
  {
    var start := offset + row * n;
    FoldAgrees(m, (i: nat) => if i < |x| then x[i] else m.nan,
               (i: nat) => if i < |x| then widen(weights[start + i]) else m.nan,
               (i: nat) => if i < n then x[i] else m.nan,
               (i: nat) => if i < n then widen(weights[offset + row * n + i]) else m.nan, 0, n, m.zero);
  }

  /** One turn of the row loop: refill the weight row, run the dot program. */
  method RunRow<V, F>(
      m: Arith<V>, widen: F -> V, hot: HotLoop<V>, buf: ResultBuffer<V>, x: seq<V>, weights: seq<F>, start: nat)
    returns (v: V)
    requires m.CountersSurvive() && 2 * |x| < U32_RANGE && start + |x| <= |weights|
    requires buf.Valid() && buf.slotSize == |x| && buf.nSlots == 2 && buf.data[..|x|] == x
    modifies hot, buf.data
    ensures buf.Valid() && buf.data[..|x|] == x
    ensures v == RowDot(m, widen, x, weights, start)
  {
    var n := |x|;
    var widened := seq(n, i requires 0 <= i < n => widen(weights[start + i]));
    FillSlot(buf, 1, widened);
    assert buf.data[..] == x + widened;
    var ctx := Context([], []);
    RowProgram(m, ctx, buf.View(), x, widened, n);
    RowFold(m, widen, x, weights, start, widened);
    hide Run, RowDot, Fold;
    var result := hot.ExecuteFull(m, ctx, DotProgram(0, n, n), buf);
    assert buf.data[..] == x + widened;
    v := result.value;
  }

  /** `buf.write(slot, i, value)` for every element of one of the two rows. */
  method FillSlot<V>(buf: ResultBuffer<V>, slot: U32, values: seq<V>)
    requires buf.Valid() && slot < buf.nSlots == 2 && |values| == buf.slotSize < U32_RANGE
    modifies buf.data
    ensures buf.Valid()
    ensures slot == 0 ==> buf.data[..] == values + old(buf.data[..])[|values|..]
    ensures slot == 1 ==> buf.data[..] == old(buf.data[..])[..|values|] + values
  {
    ghost var before := buf.data[..];
    ghost var base := if slot == 0 then 0 else |values|;
    for i := 0 to |values|
      invariant buf.Valid()
      invariant forall c :: 0 <= c < |before| ==>
                  buf.data[c] == if base <= c < base + i then values[c - base] else before[c]
    {
      hide WriteSlot;
      SlotWrite(buf.View(), slot, i, values[i]);
      ghost var now := buf.data[..];
      buf.Write(slot, i, values[i]);
      assert buf.data[..] == now[base + i := values[i]];
    }
  }

  /** Running the dot program on the two rows leaves their fold on top. */
  lemma RowProgram<V>(m: Arith<V>, ctx: Context<V>, buf: Buffer<V>, x: seq<V>, w: seq<V>, n: U32)
    requires m.CountersSurvive() && |x| == |w| == n && 2 * n < U32_RANGE && buf.Valid()
    requires buf.data == x + w
    ensures var r := Run(m, ctx, DotProgram(0, n, n), State([], buf));
            r.Some? && r.value.buf == buf &&
            TopOr(r.value.stack, m.nan) == Fold(m, (i: nat) => if i < n then x[i] else m.nan,
                                                (i: nat) => if i < n then w[i] else m.nan, 0, n, m.zero)
  {
    hide Run;
    DotProgramCorrect(m, ctx, 0, n, n, [], buf);
    FoldAgrees(m, CellsAt(m, buf, 0), CellsAt(m, buf, n), (i: nat) => if i < n then x[i] else m.nan,
               (i: nat) => if i < n then w[i] else m.nan, 0, n, m.zero);
  }

  lemma RowFold<V, F>(m: Arith<V>, widen: F -> V, x: seq<V>, weights: seq<F>, start: nat, w: seq<V>)
    requires start + |x| <= |weights| && |w| == |x|
    requires forall i :: 0 <= i < |x| ==> w[i] == widen(weights[start + i])
    ensures RowDot(m, widen, x, weights, start)
            == Fold(m, (i: nat) => if i < |x| then x[i] else m.nan, (i: nat) => if i < |x| then w[i] else m.nan, 0, |x|, m.zero)
  {
    FoldAgrees(m, (i: nat) => if i < |x| then x[i] else m.nan,
               (i: nat) => if i < |x| then widen(weights[start + i]) else m.nan,
               (i: nat) => if i < |x| then x[i] else m.nan, (i: nat) => if i < |x| then w[i] else m.nan, 0, |x|, m.zero);
  }
}
