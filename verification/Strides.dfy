/** Round-robin slices `list[start::step]`: their elements, their composition, their partition. */
module Strides {
  import opened Arithmetic

  function Stride<T>(s: seq<T>, start: nat, step: nat): seq<T>
    requires step > 0
    decreases |s| - start
  {
    if start >= |s| then [] else [s[start]] + Stride(s, start + step, step)
  }

  /** Element `k` of a slice, and how long the slice is. */
  lemma {:induction false} StrideAt<T>(s: seq<T>, start: nat, step: nat, k: nat)
    requires step > 0
    ensures 0 <= k * step
    ensures k < |Stride(s, start, step)| <==> start + k * step < |s|
    ensures k < |Stride(s, start, step)| ==> Stride(s, start, step)[k] == s[start + k * step]
    decreases k
  {
    MulMono(0, k, step);
    if k > 0 {
      assert k * step == (k - 1) * step + step;
      MulMono(0, k - 1, step);
      if start < |s| {
        StrideAt(s, start + step, step, k - 1);
      }
    }
  }

  /** Slicing a slice is one slice: part `p` of `f` of slice `i` of `n` is slice `i + n*p` of `n*f`. */
  lemma StrideCompose<T>(s: seq<T>, i: nat, n: nat, p: nat, f: nat)
    requires n > 0 && f > 0
    ensures n * f > 0 && 0 <= n * p
    ensures Stride(Stride(s, i, n), p, f) == Stride(s, i + n * p, n * f)
  {
    MulMono(1, n, f);
    MulMono(0, n, p);
    var parent := Stride(s, i, n);
    var a, b := Stride(parent, p, f), Stride(s, i + n * p, n * f);
    ComposeAt(s, i, n, p, f, |a|);
    ComposeAt(s, i, n, p, f, |b|);
    forall k | 0 <= k < |a| ensures a[k] == b[k] {
      ComposeAt(s, i, n, p, f, k);
    }
  }

  lemma ComposeAt<T>(s: seq<T>, i: nat, n: nat, p: nat, f: nat, k: nat)
    requires n > 0 && f > 0 && n * f > 0 && 0 <= n * p
    ensures var a, b := Stride(Stride(s, i, n), p, f), Stride(s, i + n * p, n * f);
            (k < |a| <==> k < |b|) && (k < |a| && k < |b| ==> a[k] == b[k])
  {
    StrideAt(Stride(s, i, n), p, f, k);
    StrideAt(s, i, n, p + k * f);
    StrideAt(s, i + n * p, n * f, k);
    Distribute(n, p, f, k);
  }

  lemma Distribute(n: nat, p: nat, f: nat, k: nat)
    ensures (p + k * f) * n == n * p + k * (n * f)
  {
    assert (p + k * f) * n == p * n + (k * f) * n;
    assert (k * f) * n == k * (n * f);
  }

  /** Every position belongs to the slice of its remainder. */
  lemma Owner<T>(s: seq<T>, n: nat, j: nat)
    requires n > 0 && j < |s|
    ensures 0 <= j % n < n && 0 <= j / n < |Stride(s, j % n, n)|
    ensures Stride(s, j % n, n)[j / n] == s[j]
  {
    assert j == n * (j / n) + j % n;
    StrideAt(s, j % n, n, j / n);
  }

  /** Element `k` of slice `i` comes from a position whose remainder is `i`. */
  lemma Origin<T>(s: seq<T>, n: nat, i: nat, k: nat)
    requires i < n && k < |Stride(s, i, n)|
    ensures 0 <= k * n && i + k * n < |s| && (i + k * n) % n == i && (i + k * n) / n == k
    ensures Stride(s, i, n)[k] == s[i + k * n]
  {
    StrideAt(s, i, n, k);
    DivModUnique(i + k * n, n, k, i);
  }

  // ----------------------------------------------------------------------- labels

  /** A shard label `index/count`. */
  datatype Label = Label(index: nat, count: nat)

  /** `partition_labels`: the leaves of a parent shard, or a rejected parent. */
  function PartitionLabels(parentIndex: nat, parentCount: nat, fanout: nat): (labels: seq<Label>)
    requires parentIndex < parentCount && fanout > 0
    ensures |labels| == fanout
  {
    seq(fanout, part requires 0 <= part < fanout =>
      MulMono(0, parentCount, part);
      Label(parentIndex + parentCount * part, parentCount * fanout))
  }

  /** The leaves are distinct shards of the finer campaign, and exactly those of the parent's residue. */
  lemma LeafLabels(parentIndex: nat, parentCount: nat, fanout: nat, a: nat)
    requires parentIndex < parentCount && fanout > 0 && a < fanout
    ensures PartitionLabels(parentIndex, parentCount, fanout)[a].index < parentCount * fanout
    ensures PartitionLabels(parentIndex, parentCount, fanout)[a].index % parentCount == parentIndex
    ensures PartitionLabels(parentIndex, parentCount, fanout)[a].index / parentCount == a
  {
    MulMono(0, parentCount, a);
    MulMono(a + 1, fanout, parentCount);
    assert (a + 1) * parentCount == parentCount * a + parentCount;
    DivModUnique(parentIndex + parentCount * a, parentCount, a, parentIndex);
  }

  /** Each leaf's slice of the list is the parent's slice cut again, so leaves partition their parent. */
  lemma LeavesPartitionParent<T>(s: seq<T>, parentIndex: nat, parentCount: nat, fanout: nat, part: nat)
    requires parentIndex < parentCount && part < fanout
    ensures var leaf := PartitionLabels(parentIndex, parentCount, fanout)[part];
            leaf.count > 0 && Stride(s, leaf.index, leaf.count) == Stride(Stride(s, parentIndex, parentCount), part, fanout)
  {
    StrideCompose(s, parentIndex, parentCount, part, fanout);
  }

  /** `n` increasing numbers below `n` are 0, 1, 2, ... */
  lemma {:induction false} IncreasingIsIdentity(s: seq<nat>, n: nat)
    requires |s| == n && (forall k :: 0 <= k < n ==> s[k] < n) && forall i, j :: 0 <= i < j < n ==> s[i] < s[j]
    ensures forall k :: 0 <= k < n ==> s[k] == k
  {
    for k := 0 to n
      invariant forall i :: 0 <= i < k ==> s[i] >= i
    {
      assert k > 0 ==> s[k - 1] < s[k];
    }
    var k := n;
    while k > 0
      invariant 0 <= k <= n
      invariant forall i :: k <= i < n ==> s[i] <= i
    {
      k := k - 1;
      assert k < n - 1 ==> s[k] < s[k + 1];
    }
  }
}
