/**
 Greedy chunking with a byte bound, the algorithm behind both `fragment_program` and
 `sub_fragment_with_threshold`: close the current chunk when the next item would exceed
 the target, never splitting an item and never emitting an empty chunk.
 */
module Chunking {

  function Total<T>(items: seq<T>, size: T -> nat): nat {
    if items == [] then 0 else Total(items[..|items| - 1], size) + size(items[|items| - 1])
  }

  function Concat<T>(chunks: seq<seq<T>>): seq<T> {
    if chunks == [] then [] else chunks[0] + Concat(chunks[1..])
  }

  /** How far a chunk of `k` items and `acc` bytes grows. */
  function Extend<T>(items: seq<T>, size: T -> nat, target: nat, k: nat, acc: nat): (r: nat)
    requires k <= |items|
    ensures k <= r <= |items|
    decreases |items| - k
  {
    if k < |items| && acc + size(items[k]) <= target then Extend(items, size, target, k + 1, acc + size(items[k])) else k
  }

  /** The length of the first chunk: the first item, and all that still fit. */
  function FirstLen<T>(items: seq<T>, size: T -> nat, target: nat): (r: nat)
    requires items != []
    ensures 1 <= r <= |items|
  {
    Extend(items, size, target, 1, size(items[0]))
  }

  function Greedy<T>(items: seq<T>, size: T -> nat, target: nat): seq<seq<T>> {
    if items == [] then []
    else
      var k := FirstLen(items, size, target);
      [items[..k]] + Greedy(items[k..], size, target)
  }

  // ------------------------------------------------------------------ totals

  lemma {:induction false} TotalConcat<T>(a: seq<T>, b: seq<T>, size: T -> nat)
    ensures Total(a + b, size) == Total(a, size) + Total(b, size)
    decreases |b|
  {
    if b == [] {
      assert a + b == a;
    } else {
      assert (a + b)[..|a + b| - 1] == a + b[..|b| - 1];
      TotalConcat(a, b[..|b| - 1], size);
    }
  }

  lemma TotalSlice<T>(items: seq<T>, size: T -> nat, i: nat, j: nat, k: nat)
    requires i <= j <= k <= |items|
    ensures Total(items[j..k], size) <= Total(items[i..k], size)
    ensures Total(items[i..j], size) <= Total(items[i..k], size)
  {
    assert items[i..k] == items[i..j] + items[j..k];
    TotalConcat(items[i..j], items[j..k], size);
  }

  lemma PrefixGrows<T>(items: seq<T>, size: T -> nat, r: nat, k: nat)
    requires r < k <= |items|
    ensures Total(items[..r], size) + size(items[r]) <= Total(items[..k], size)
  {
    assert items[..r + 1][..r] == items[..r];
    TotalSlice(items, size, 0, r + 1, k);
    assert items[0..k] == items[..k] && items[0..r + 1] == items[..r + 1];
  }

  lemma {:induction false} ExtendFits<T>(items: seq<T>, size: T -> nat, target: nat, k: nat, acc: nat)
    requires k <= |items| && acc == Total(items[..k], size)
    ensures var r := Extend(items, size, target, k, acc);
            && (r > k ==> Total(items[..r], size) <= target)
            && (r < |items| ==> Total(items[..r], size) + size(items[r]) > target)
    decreases |items| - k
  {
    if k < |items| && acc + size(items[k]) <= target {
      assert items[..k + 1][..k] == items[..k];
      ExtendFits(items, size, target, k + 1, acc + size(items[k]));
    }
  }

  /** A first chunk fits unless it is one oversized item, and the next item would not fit. */
  lemma FirstLenFits<T>(items: seq<T>, size: T -> nat, target: nat)
    requires items != []
    ensures var k := FirstLen(items, size, target);
            && (k > 1 || size(items[0]) <= target ==> Total(items[..k], size) <= target)
            && (k < |items| ==> Total(items[..k], size) + size(items[k]) > target)
  {
    assert items[..1] == [items[0]] && [items[0]][..0] == [];
    assert Total(items[..1], size) == size(items[0]);
    ExtendFits(items, size, target, 1, size(items[0]));
  }

  // ------------------------------------------------------------ lossless, bounded

  lemma {:induction false} GreedyLossless<T>(items: seq<T>, size: T -> nat, target: nat)
    ensures Concat(Greedy(items, size, target)) == items
    ensures forall c :: c in Greedy(items, size, target) ==> c != []
    decreases |items|
  {
    hide FirstLen;
    if items != [] {
      var k := FirstLen(items, size, target);
      var rest := Greedy(items[k..], size, target);
      GreedyLossless(items[k..], size, target);
      assert Greedy(items, size, target) == [items[..k]] + rest && ([items[..k]] + rest)[1..] == rest;
      assert items == items[..k] + items[k..];
    }
  }

  /** Every chunk is within the target when every single item is. */
  lemma {:induction false} GreedyBounded<T>(items: seq<T>, size: T -> nat, target: nat)
    requires forall k :: 0 <= k < |items| ==> size(items[k]) <= target
    ensures forall c :: c in Greedy(items, size, target) ==> Total(c, size) <= target
    decreases |items|
  {
    if items != [] {
      var k := FirstLen(items, size, target);
      FirstLenFits(items, size, target);
      GreedyBounded(items[k..], size, target);
    }
  }

  // ------------------------------------------------------------------ determined

  /** Nonempty chunks, each one item or within the target, that the next item would exceed. */
  ghost predicate Closed<T>(chunks: seq<seq<T>>, size: T -> nat, target: nat) {
    chunks == []
    || (&& chunks[0] != [] && (|chunks[0]| == 1 || Total(chunks[0], size) <= target)
        && (|chunks| > 1 && chunks[1] != [] ==> Total(chunks[0], size) + size(chunks[1][0]) > target)
        && Closed(chunks[1..], size, target))
  }

  lemma {:induction false} GreedyIsClosed<T>(items: seq<T>, size: T -> nat, target: nat)
    ensures Closed(Greedy(items, size, target), size, target)
    decreases |items|
  {
    hide FirstLen, Total;
    if items != [] {
      var k := FirstLen(items, size, target);
      var rest := Greedy(items[k..], size, target);
      GreedyIsClosed(items[k..], size, target);
      FirstLenFits(items, size, target);
      NextItem(items[k..], size, target);
      assert ([items[..k]] + rest)[1..] == rest;
    }
  }

  lemma {:induction false} ClosedIsGreedy<T>(items: seq<T>, size: T -> nat, target: nat, chunks: seq<seq<T>>)
    requires Concat(chunks) == items && Closed(chunks, size, target)
    ensures chunks == Greedy(items, size, target)
    decreases |chunks|
  {
    hide FirstLen, Total;
    if chunks != [] {
      FirstIsGreedy(items, size, target, chunks);
      ClosedIsGreedy(items[|chunks[0]|..], size, target, chunks[1..]);
      assert chunks == [chunks[0]] + chunks[1..];
    }
  }

  /** The greedy chunks are the only division of the items that is closed in this sense. */
  lemma GreedyExactly<T>(items: seq<T>, size: T -> nat, target: nat, chunks: seq<seq<T>>)
    ensures chunks == Greedy(items, size, target) <==> Concat(chunks) == items && Closed(chunks, size, target)
  {
    hide Greedy, Concat, Closed;
    GreedyIsClosed(items, size, target);
    GreedyLossless(items, size, target);
    if Concat(chunks) == items && Closed(chunks, size, target) {
      ClosedIsGreedy(items, size, target, chunks);
    }
  }

  /** The greedy chunks of a rest begin with its first item. */
  lemma NextItem<T>(items: seq<T>, size: T -> nat, target: nat)
    ensures var chunks := Greedy(items, size, target);
            (chunks == [] <==> items == []) && (items != [] ==> chunks[0] != [] && chunks[0][0] == items[0])
  {
  }

  lemma FirstIsGreedy<T>(items: seq<T>, size: T -> nat, target: nat, chunks: seq<seq<T>>)
    requires items != [] && chunks != [] && Concat(chunks) == items && Closed(chunks, size, target)
    ensures |chunks[0]| == FirstLen(items, size, target)
    ensures chunks[0] == items[..|chunks[0]|] && Concat(chunks[1..]) == items[|chunks[0]|..]
  {
    var c, k := chunks[0], FirstLen(items, size, target);
    assert items[..|c|] == c && items[|c|..] == Concat(chunks[1..]);
    if |c| < |items| {
      assert items[|c|] == items[|c|..][0] == chunks[1][0];
    }
    FirstLenFits(items, size, target);
    if |c| > 1 {
      FitsFirst(items, size, target, |c|);
    }
    if |c| < k {
      PrefixGrows(items, size, |c|, k);
    }
  }

  // --------------------------------------------------------------------- optimal

  ghost predicate Within<T(!new)>(chunks: seq<seq<T>>, size: T -> nat, target: nat) {
    forall k :: 0 <= k < |chunks| ==> Total(chunks[k], size) <= target
  }

  /** A prefix that fits is never longer than the greedy first chunk. */
  lemma FitsFirst<T>(items: seq<T>, size: T -> nat, target: nat, k: nat)
    requires items != [] && k <= |items| && Total(items[..k], size) <= target
    ensures k <= FirstLen(items, size, target)
  {
    FirstLenFits(items, size, target);
    var r := FirstLen(items, size, target);
    if k > r {
      PrefixGrows(items, size, r, k);
    }
  }

  /** Greedy never needs more chunks for a suffix. */
  lemma {:induction false} GreedySuffix<T>(items: seq<T>, size: T -> nat, target: nat, n: nat)
    requires n <= |items|
    ensures |Greedy(items[n..], size, target)| <= |Greedy(items, size, target)|
    decreases |items|
  {
    if n < |items| {
      var a := FirstLen(items, size, target);
      if n >= a {
        GreedySuffix(items[a..], size, target, n - a);
        assert items[a..][n - a..] == items[n..];
      } else {
        var rest := items[n..];
        var b := FirstLen(rest, size, target);
        SuffixReaches(items, size, target, n);
        GreedySuffix(items[a..], size, target, n + b - a);
        assert items[a..][n + b - a..] == rest[b..];
      }
    }
  }

  lemma SuffixReaches<T>(items: seq<T>, size: T -> nat, target: nat, n: nat)
    requires items != [] && n < FirstLen(items, size, target)
    ensures n + FirstLen(items[n..], size, target) >= FirstLen(items, size, target)
  {
    var a := FirstLen(items, size, target);
    FirstLenFits(items, size, target);
    if a > 1 {
      TotalSlice(items, size, 0, n, a);
      assert items[n..][..a - n] == items[n..a] && items[0..a] == items[..a];
      FitsFirst(items[n..], size, target, a - n);
    }
  }

  /** No contiguous partition within the target uses fewer chunks than greedy. */
  lemma {:induction false} GreedyOptimal<T(!new)>(items: seq<T>, size: T -> nat, target: nat, chunks: seq<seq<T>>)
    requires Concat(chunks) == items && Within(chunks, size, target)
    ensures |Greedy(items, size, target)| <= |chunks|
    decreases |chunks|
  {
    if chunks != [] && items != [] {
      var p := chunks[0];
      assert items[..|p|] == p && items[|p|..] == Concat(chunks[1..]);
      GreedyOptimal(items[|p|..], size, target, chunks[1..]);
      var k := FirstLen(items, size, target);
      FitsFirst(items, size, target, |p|);
      GreedySuffix(items[|p|..], size, target, k - |p|);
      assert items[|p|..][k - |p|..] == items[k..];
    }
  }

  // ------------------------------------------------- the accumulating loop agrees

  /** A chunk under construction: empty, one item, or within the target. */
  ghost predicate Open<T>(current: seq<T>, size: T -> nat, target: nat) {
    |current| <= 1 || Total(current, size) <= target
  }

  /** Closing the current chunk before `item` is what greedy does. */
  lemma CloseStep<T>(current: seq<T>, item: T, rest: seq<T>, size: T -> nat, target: nat)
    requires current != [] && Open(current, size, target) && Total(current, size) + size(item) > target
    ensures Greedy(current + [item] + rest, size, target) == [current] + Greedy([item] + rest, size, target)
  {
    var items := current + [item] + rest;
    var k := FirstLen(items, size, target);
    FirstLenFits(items, size, target);
    assert items[..|current|] == current && items[|current|..] == [item] + rest;
    if |current| > 1 {
      FitsFirst(items, size, target, |current|);
    }
    assert k >= |current|;
    if k > |current| {
      PrefixGrows(items, size, |current|, k);
    }
  }

  /** The last chunk is what remains open. */
  lemma CloseLast<T>(current: seq<T>, size: T -> nat, target: nat)
    requires current != [] && Open(current, size, target)
    ensures Greedy(current, size, target) == [current]
  {
    assert current[..|current|] == current && current[|current|..] == [];
    if |current| > 1 {
      FitsFirst(current, size, target, |current|);
    }
  }

  lemma OpenPush<T>(current: seq<T>, item: T, size: T -> nat, target: nat)
    requires Open(current, size, target) && (current == [] || Total(current, size) + size(item) <= target)
    ensures Open(current + [item], size, target)
    ensures Total(current + [item], size) == Total(current, size) + size(item)
  {
    assert (current + [item])[..|current|] == current;
  }
}
