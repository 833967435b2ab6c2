/**
 Column splitting of a matrix-vector product: each fragment carries the input and its own
 columns of the row-major weights, zero-padded where the weights end. Concatenating what
 the fragments compute gives the unsplit product, with the same order of additions.
 */
module Columns {
  import opened Arithmetic
  import opened Bytes
  import opened Chunking
  import opened Machine
  import Matmul

  datatype VectorFragment<V> = VectorFragment(
    fragmentId: U32, x: seq<V>, wColumns: seq<V>, nIn: U32, nOutTotal: U32, jStart: U32, nCols: U32, outputSlot: U32)

  /** Row-major weights at a position, zero behind their end. */
  function WeightAt<V>(m: Arith<V>, weights: seq<V>, idx: nat): V {
    if idx < |weights| then weights[idx] else m.zero
  }

  /** A row of the selected columns. */
  function Row<V>(m: Arith<V>, weights: seq<V>, start: nat, nCols: nat): (r: seq<V>)
    ensures |r| == nCols
  {
    seq(nCols, jj requires 0 <= jj < nCols => WeightAt(m, weights, start + jj))
  }

  /** The selected columns of the first `rows` rows. */
  function Rows<V>(m: Arith<V>, weights: seq<V>, base: nat, nOut: nat, nCols: nat, rows: nat): (r: seq<V>)
    ensures |r| == rows * nCols
  {
    if rows == 0 then []
    else
      MulMono(0, rows - 1, nOut);
      Rows(m, weights, base, nOut, nCols, rows - 1) + Row(m, weights, base + (rows - 1) * nOut, nCols)
  }

  lemma {:induction false} RowsAt<V>(m: Arith<V>, weights: seq<V>, base: nat, nOut: nat, nCols: nat, rows: nat, i: nat, j: nat)
    requires i < rows && j < nCols
    ensures 0 <= i * nCols && i * nCols + j < rows * nCols && 0 <= i * nOut
    ensures Rows(m, weights, base, nOut, nCols, rows)[i * nCols + j] == WeightAt(m, weights, base + i * nOut + j)
    decreases rows
  {
    MulMono(0, i, nOut);
    MulMono(0, i, nCols);
    MulMono(i + 1, rows, nCols);
    assert (i + 1) * nCols == i * nCols + nCols;
    if i < rows - 1 {
      RowsAt(m, weights, base, nOut, nCols, rows - 1, i, j);
    }
  }

  // ------------------------------------------------------------------- products

  /** The fold of one column, left to right from zero. */
  function ColumnDot<V>(m: Arith<V>, x: seq<V>, weights: seq<V>, base: nat, nOut: nat, n: nat): V
    requires n <= |x|
  {
    if n == 0 then m.zero
    else
      MulMono(0, n - 1, nOut);
      m.add(ColumnDot(m, x, weights, base, nOut, n - 1), m.mul(x[n - 1], WeightAt(m, weights, base + (n - 1) * nOut)))
  }

  function Min(a: nat, b: nat): nat {
    if a < b then a else b
  }

  /** The unsplit product: one fold per output. */
  function Product<V>(m: Arith<V>, x: seq<V>, weights: seq<V>, offset: nat, nIn: nat, nOut: nat): (y: seq<V>)
    ensures |y| == nOut
  {
    seq(nOut, j requires 0 <= j < nOut => ColumnDot(m, x, weights, offset + j, nOut, Min(nIn, |x|)))
  }

  lemma {:induction false} FoldLast<V>(m: Arith<V>, x: nat -> V, w: nat -> V, i: nat, n: nat, acc: V)
    requires i <= n
    ensures Matmul.Fold(m, x, w, i, n + 1, acc) == m.add(Matmul.Fold(m, x, w, i, n, acc), m.mul(x(n), w(n)))
    decreases n - i
  {
    if i < n {
      FoldLast(m, x, w, i + 1, n, m.add(acc, m.mul(x(i), w(i))));
    }
  }

  lemma {:induction false} ColumnDotIsFold<V>(m: Arith<V>, x: seq<V>, weights: seq<V>, base: nat, nOut: nat, n: nat,
                                               y: nat -> V, w: nat -> V)
    requires n <= |x| && forall i: nat :: i < n ==> y(i) == x[i]
    requires forall i: nat :: i < n ==> w(i) == if 0 <= base + i * nOut < |weights| then weights[base + i * nOut] else m.zero
    ensures ColumnDot(m, x, weights, base, nOut, n) == Matmul.Fold(m, y, w, 0, n, m.zero)
    decreases n
  {
    if n > 0 {
      ColumnDotIsFold(m, x, weights, base, nOut, n - 1, y, w);
      FoldLast(m, y, w, 0, n - 1, m.zero);
      MulMono(0, n - 1, nOut);
    }
  }

  /**
   Output `j` of the unsplit product is the fold, from zero and in the order of the inputs,
   of x[i] and the weight at position offset + i * nOut + j, which is zero behind the end.
   */
  lemma ProductMeans<V>(m: Arith<V>, x: seq<V>, weights: seq<V>, offset: nat, nIn: nat, nOut: nat, j: nat,
                        y: nat -> V, w: nat -> V, n: nat)
    requires j < nOut && n == if nIn < |x| then nIn else |x|
    requires forall i: nat :: i < n ==> y(i) == x[i]
    requires forall i: nat :: i < n ==>
               w(i) == if 0 <= offset + i * nOut + j < |weights| then weights[offset + i * nOut + j] else m.zero
    ensures Product(m, x, weights, offset, nIn, nOut)[j] == Matmul.Fold(m, y, w, 0, n, m.zero)
  {
    hide ColumnDot;
    assert Product(m, x, weights, offset, nIn, nOut)[j] == ColumnDot(m, x, weights, offset + j, nOut, n);
    ColumnDotIsFold(m, x, weights, offset + j, nOut, n, y, w);
  }

  /** The fold `execute` computes for column `j` of a fragment. */
  function FragmentDot<V>(m: Arith<V>, vf: VectorFragment<V>, j: nat, n: nat): V
    requires n <= |vf.x| && j < vf.nCols
  {
    if n == 0 then m.zero
    else
      var dot := FragmentDot(m, vf, j, n - 1);
      MulMono(0, n - 1, vf.nCols);
      var idx := (n - 1) * vf.nCols + j;
      if idx < |vf.wColumns| then m.add(dot, m.mul(vf.x[n - 1], vf.wColumns[idx])) else dot
  }

  function Executed<V>(m: Arith<V>, vf: VectorFragment<V>): (y: seq<V>)
    ensures |y| == vf.nCols
  {
    seq(vf.nCols, j requires 0 <= j < vf.nCols => FragmentDot(m, vf, j, Min(vf.nIn, |vf.x|)))
  }

  /** `VectorFragment::new` on values. */
  function Fragment<V>(m: Arith<V>, id: U32, x: seq<V>, weights: seq<V>, offset: nat, nIn: U32, nOut: U32,
                       jStart: U32, nCols: U32, slot: U32): VectorFragment<V>
  {
    VectorFragment(id, x, Rows(m, weights, offset + jStart, nOut, nCols, nIn), nIn, nOut, jStart, nCols, slot)
  }

  lemma {:induction false} FragmentDotIsColumnDot<V>(m: Arith<V>, id: U32, x: seq<V>, weights: seq<V>, offset: nat, nIn: U32,
                                                     nOut: U32, jStart: U32, nCols: U32, slot: U32, j: nat, n: nat)
    requires j < nCols && n <= nIn && n <= |x|
    ensures FragmentDot(m, Fragment(m, id, x, weights, offset, nIn, nOut, jStart, nCols, slot), j, n)
            == ColumnDot(m, x, weights, offset + jStart + j, nOut, n)
    decreases n
  {
    hide Rows;
    if n > 0 {
      FragmentDotIsColumnDot(m, id, x, weights, offset, nIn, nOut, jStart, nCols, slot, j, n - 1);
      RowsAt(m, weights, offset + jStart, nOut, nCols, nIn, n - 1, j);
    }
  }

  /** A fragment computes its own slice of the product. */
  lemma ExecutedIsSlice<V>(m: Arith<V>, id: U32, x: seq<V>, weights: seq<V>, offset: nat, nIn: U32, nOut: U32,
                           jStart: U32, nCols: U32, slot: U32)
    requires jStart + nCols <= nOut
    ensures Executed(m, Fragment(m, id, x, weights, offset, nIn, nOut, jStart, nCols, slot))
            == Product(m, x, weights, offset, nIn, nOut)[jStart..jStart + nCols]
  {
    hide FragmentDot, ColumnDot, Rows;
    var vf := Fragment(m, id, x, weights, offset, nIn, nOut, jStart, nCols, slot);
    var slice := Product(m, x, weights, offset, nIn, nOut)[jStart..jStart + nCols];
    forall j | 0 <= j < nCols ensures Executed(m, vf)[j] == slice[j] {
      FragmentDotIsColumnDot(m, id, x, weights, offset, nIn, nOut, jStart, nCols, slot, j, Min(nIn, |x|));
    }
  }

  // ----------------------------------------------------------------- the ranges

  /** `cols_per_frag`; the sum is 32-bit arithmetic in the source. */
  function ColsPerFrag(nOut: nat, nFragments: nat): nat
    requires nFragments > 0
  {
    (nOut + nFragments - 1) / nFragments
  }

  /** No product below overflows, and together the fragments reach the last column. */
  lemma ColsBounds(nOut: nat, nFragments: nat)
    requires nFragments > 0
    ensures nOut <= nFragments * ColsPerFrag(nOut, nFragments) <= nOut + nFragments - 1
    ensures nOut > 0 ==> ColsPerFrag(nOut, nFragments) > 0
  {
    var a := nOut + nFragments - 1;
    assert a == nFragments * (a / nFragments) + a % nFragments;
  }

  lemma StartBound(nOut: nat, nFragments: nat, k: nat)
    requires k < nFragments
    ensures 0 <= k * ColsPerFrag(nOut, nFragments) <= nOut + nFragments - 1
  {
    ColsBounds(nOut, nFragments);
    MulMono(0, k, ColsPerFrag(nOut, nFragments));
    MulMono(k, nFragments, ColsPerFrag(nOut, nFragments));
  }

  datatype Request<V> = Request(x: seq<V>, weights: seq<V>, offset: U64, nIn: U32, nOut: U32, nFragments: U32, slot: U32)

  /** What the source demands: a positive count and sizes that do not overflow. */
  predicate Admitted<V>(q: Request<V>) {
    q.nFragments > 0 && q.nOut + q.nFragments < U32_RANGE && q.offset + q.nIn * q.nOut <= USIZE_MAX
  }

  /** The fragments from number `k` on. */
  function SplitFrom<V>(m: Arith<V>, q: Request<V>, k: nat): seq<VectorFragment<V>>
    requires Admitted(q) && k <= q.nFragments
    decreases q.nFragments - k
  {
    if k == q.nFragments then []
    else
      StartBound(q.nOut, q.nFragments, k);
      var cols := ColsPerFrag(q.nOut, q.nFragments);
      var start := k * cols;
      if start >= q.nOut then []
      else [Fragment(m, k, q.x, q.weights, q.offset, q.nIn, q.nOut, start, Min(cols, q.nOut - start), q.slot)]
           + SplitFrom(m, q, k + 1)
  }

  /** Nonempty ranges that follow one another from `start` to `end`. */
  predicate Tiles<V>(fragments: seq<VectorFragment<V>>, start: nat, end: nat) {
    if fragments == [] then start == end
    else fragments[0].jStart == start && fragments[0].nCols > 0 && Tiles(fragments[1..], start + fragments[0].nCols, end)
  }

  function Outputs<V>(m: Arith<V>, fragments: seq<VectorFragment<V>>): (r: seq<seq<V>>)
    ensures |r| == |fragments|
  {
    if fragments == [] then [] else [Executed(m, fragments[0])] + Outputs(m, fragments[1..])
  }

  lemma {:induction false} SplitTiles<V>(m: Arith<V>, q: Request<V>, k: nat)
    requires Admitted(q) && k <= q.nFragments
    ensures 0 <= k * ColsPerFrag(q.nOut, q.nFragments)
    ensures var start := Min(k * ColsPerFrag(q.nOut, q.nFragments), q.nOut);
            && Tiles(SplitFrom(m, q, k), start, q.nOut)
            && Concat(Outputs(m, SplitFrom(m, q, k))) == Product(m, q.x, q.weights, q.offset, q.nIn, q.nOut)[start..]
    decreases q.nFragments - k
  {
    hide Product, Executed, Fragment;
    var cols := ColsPerFrag(q.nOut, q.nFragments);
    var full := Product(m, q.x, q.weights, q.offset, q.nIn, q.nOut);
    ColsBounds(q.nOut, q.nFragments);
    MulMono(0, k, cols);
    assert full[q.nOut..] == [];
    if k < q.nFragments && k * cols < q.nOut {
      StartBound(q.nOut, q.nFragments, k);
      var start, width := k * cols, Min(cols, q.nOut - k * cols);
      assert (k + 1) * cols == k * cols + cols;
      SplitTiles(m, q, k + 1);
      SplitStep(m, q, k, start, width);
      ExecutedIsSlice(m, k, q.x, q.weights, q.offset, q.nIn, q.nOut, start, width, q.slot);
      assert full[start..start + width] + full[start + width..] == full[start..];
    }
  }

  lemma SplitStep<V>(m: Arith<V>, q: Request<V>, k: U32, start: U32, width: U32)
    requires Admitted(q) && k < q.nFragments && start == k * ColsPerFrag(q.nOut, q.nFragments) < q.nOut
    requires width == Min(ColsPerFrag(q.nOut, q.nFragments), q.nOut - start)
    ensures var vf := Fragment(m, k, q.x, q.weights, q.offset, q.nIn, q.nOut, start, width, q.slot);
            && SplitFrom(m, q, k) == [vf] + SplitFrom(m, q, k + 1) && vf.jStart == start && vf.nCols == width
            && Outputs(m, SplitFrom(m, q, k)) == [Executed(m, vf)] + Outputs(m, SplitFrom(m, q, k + 1))
  {
    hide Rows, ColsPerFrag;
  }

  /**
   The fragments' column ranges are nonempty, disjoint, ordered and cover all columns, and
   their results concatenate to the unsplit product.
   */
  lemma SplitRefinesProduct<V>(m: Arith<V>, q: Request<V>)
    requires Admitted(q)
    ensures Tiles(SplitFrom(m, q, 0), 0, q.nOut) && |SplitFrom(m, q, 0)| <= q.nFragments
    ensures Concat(Outputs(m, SplitFrom(m, q, 0))) == Product(m, q.x, q.weights, q.offset, q.nIn, q.nOut)
  {
    hide Product, Tiles, Concat, Outputs;
    SplitTiles(m, q, 0);
    SplitCount(m, q, 0);
    var full := Product(m, q.x, q.weights, q.offset, q.nIn, q.nOut);
    assert full[0..] == full;
  }

  lemma {:induction false} SplitCount<V>(m: Arith<V>, q: Request<V>, k: nat)
    requires Admitted(q) && k <= q.nFragments
    ensures |SplitFrom(m, q, k)| <= q.nFragments - k
    decreases q.nFragments - k
  {
    hide Fragment;
    if k < q.nFragments {
      SplitCount(m, q, k + 1);
    }
  }

  /**
   Fragment `k` carries its number, the whole input, the shape, the slot, its range of
   columns, and at row i and its column c the weight at offset + i * nOut + (first + c).
   */
  lemma {:induction false} SplitFields<V>(m: Arith<V>, q: Request<V>, from: nat, k: nat, i: nat, c: nat)
    requires Admitted(q) && from <= q.nFragments && from <= k < from + |SplitFrom(m, q, from)|
    ensures k < q.nFragments
    ensures var vf := SplitFrom(m, q, from)[k - from];
            var first := k * ((q.nOut + q.nFragments - 1) / q.nFragments);
            && vf.fragmentId == k && vf.x == q.x && vf.nIn == q.nIn && vf.nOutTotal == q.nOut && vf.outputSlot == q.slot
            && vf.jStart == first < q.nOut && |vf.wColumns| == q.nIn * vf.nCols
            && vf.nCols == Min((q.nOut + q.nFragments - 1) / q.nFragments, q.nOut - first)
            && (i < q.nIn && c < vf.nCols ==>
                  && 0 <= i * q.nOut && 0 <= i * vf.nCols && i * vf.nCols + c < |vf.wColumns|
                  && vf.wColumns[i * vf.nCols + c]
                     == if q.offset + i * q.nOut + (first + c) < |q.weights| then q.weights[q.offset + i * q.nOut + (first + c)]
                        else m.zero)
    decreases k - from
  {
    hide Rows;
    var cols := ColsPerFrag(q.nOut, q.nFragments);
    if from < q.nFragments {
      StartBound(q.nOut, q.nFragments, from);
      if k == from {
        var first := k * cols;
        var width := Min(cols, q.nOut - first);
        if i < q.nIn && c < width {
          RowsAt(m, q.weights, q.offset + first, q.nOut, width, q.nIn, i, c);
        }
      } else {
        SplitFields(m, q, from + 1, k, i, c);
      }
    }
  }

  // ---------------------------------------------------------------- the methods

  lemma RowPush<V>(m: Arith<V>, weights: seq<V>, start: nat, n: nat)
    ensures Row(m, weights, start, n + 1) == Row(m, weights, start, n) + [WeightAt(m, weights, start + n)]
  {
  }

  /** The inner loop of `new`: one row, zero-padded. */
  method PushRow<V>(m: Arith<V>, wColumns: seq<V>, weights: seq<V>, start: nat, nCols: nat) returns (r: seq<V>)
    ensures r == wColumns + Row(m, weights, start, nCols)
  {
    hide Row;
    r := wColumns;
    assert Row(m, weights, start, 0) == [];
    for jj := 0 to nCols
      invariant r == wColumns + Row(m, weights, start, jj)
    {
      RowPush(m, weights, start, jj);
      var idx := start + jj;
      r := r + [if idx < |weights| then weights[idx] else m.zero];
    }
  }

  /** `VectorFragment::new`: pushes row by row. */
  method NewFragment<V>(m: Arith<V>, id: U32, x: seq<V>, weights: seq<V>, offset: U64, nIn: U32, nOut: U32,
                        jStart: U32, nCols: U32, slot: U32)
    returns (vf: VectorFragment<V>)
    requires nIn > 0 ==> offset + (nIn - 1) * nOut + jStart + nCols <= USIZE_MAX
    ensures vf == Fragment(m, id, x, weights, offset, nIn, nOut, jStart, nCols, slot)
  {
    hide Row;
    var wColumns: seq<V> := [];
    for i := 0 to nIn
      invariant wColumns == Rows(m, weights, offset + jStart, nOut, nCols, i)
    {
      MulMono(0, i, nOut);
      wColumns := PushRow(m, wColumns, weights, offset + i * nOut + jStart, nCols);
    }
    vf := VectorFragment(id, x, wColumns, nIn, nOut, jStart, nCols, slot);
  }

  /** `VectorFragment::execute`: fills the output in place. */
  method Execute<V>(m: Arith<V>, vf: VectorFragment<V>) returns (y: array<V>)
    ensures fresh(y) && y[..] == Executed(m, vf)
  {
    hide FragmentDot;
    y := new V[vf.nCols](_ => m.zero);
    for j := 0 to vf.nCols
      invariant fresh(y) && forall k :: 0 <= k < j ==> y[k] == Executed(m, vf)[k]
    {
      y[j] := Dot(m, vf, j);
    }
  }

  /** The inner loop of `execute`. */
  method Dot<V>(m: Arith<V>, vf: VectorFragment<V>, j: nat) returns (dot: V)
    requires j < vf.nCols
    ensures dot == FragmentDot(m, vf, j, Min(vf.nIn, |vf.x|))
  {
    dot := m.zero;
    for i := 0 to Min(vf.nIn, |vf.x|)
      invariant dot == FragmentDot(m, vf, j, i)
    {
      MulMono(0, i, vf.nCols);
      var wIdx := i * vf.nCols + j;
      if wIdx < |vf.wColumns| {
        dot := m.add(dot, m.mul(vf.x[i], vf.wColumns[wIdx]));
      }
    }
  }

  lemma SplitEnds<V>(m: Arith<V>, q: Request<V>, k: nat)
    requires Admitted(q) && k < q.nFragments && k * ColsPerFrag(q.nOut, q.nFragments) >= q.nOut
    ensures SplitFrom(m, q, k) == []
  {
  }

  lemma SplitDone<V>(m: Arith<V>, q: Request<V>, fragments: seq<VectorFragment<V>>)
    requires Admitted(q)
    ensures SplitFrom(m, q, q.nFragments) == [] && fragments + [] == fragments
  {
  }

  /** `split_matmul_columns`. */
  method SplitMatmulColumns<V>(m: Arith<V>, q: Request<V>) returns (fragments: seq<VectorFragment<V>>)
    requires Admitted(q)
    ensures fragments == SplitFrom(m, q, 0)
  {
    hide Fragment, ColsPerFrag, SplitFrom;
    ColsBounds(q.nOut, q.nFragments);
    var colsPerFrag: nat := ColsPerFrag(q.nOut, q.nFragments);
    fragments := [];
    for fragId := 0 to q.nFragments
      invariant fragments + SplitFrom(m, q, fragId) == SplitFrom(m, q, 0)
    {
      StartBound(q.nOut, q.nFragments, fragId);
      var jStart: U32 := fragId * colsPerFrag;
      if jStart >= q.nOut {
        SplitEnds(m, q, fragId);
        break;
      }
      var nCols: U32 := Min(colsPerFrag, q.nOut - jStart);
      assert (q.nIn - 1) * q.nOut + q.nOut == q.nIn * q.nOut;
      var vf := NewFragment(m, fragId, q.x, q.weights, q.offset, q.nIn, q.nOut, jStart, nCols, q.slot);
      SplitStep(m, q, fragId, jStart, nCols);
      fragments := fragments + [vf];
    }
    SplitDone(m, q, fragments);
  }
}
