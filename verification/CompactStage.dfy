/**
 `compact_stage`: local common-subexpression elimination. Nodes are keyed by their
 kind and their already compacted children, and each key is emitted once.
 */
module CompactStage {
  import opened Machine
  import opened Dag

  datatype Key = Key(kind: NodeKind, left: U32, right: U32)

  /** The compacted DAG, the node that stands for each key, and the image of each old node. */
  datatype Compact = Compact(dag: NodeSoA, unique: map<Key, U32>, mapping: seq<U32>)

  const EMPTY := Compact(NodeSoA([], [], []), map[], [])

  function KeyOf(dag: NodeSoA, mapping: seq<U32>, index: nat): Key
    requires dag.Valid() && index < dag.Size() && index <= |mapping|
  {
    if dag.kinds[index].BmlNode? then Key(BmlNode, mapping[dag.lefts[index]], mapping[dag.rights[index]])
    else Key(dag.kinds[index], 0, 0)
  }

  /** The key stored at node `id` of a DAG whose leaves carry zero children. */
  function StoredKey(dag: NodeSoA, id: nat): Key
    requires id < dag.Size() && |dag.lefts| == |dag.rights| == dag.Size()
  {
    Key(dag.kinds[id], dag.lefts[id], dag.rights[id])
  }

  /**
   Between two nodes: the table lists exactly the compacted nodes, one per key, and
   images never exceed the nodes they stand for.
   */
  ghost predicate Compacted(c: Compact, n: nat) {
    && c.dag.Valid() && |c.mapping| == n && c.dag.Size() <= n
    && (forall i :: 0 <= i < n ==> c.mapping[i] <= i && c.mapping[i] < c.dag.Size())
    && (forall id :: 0 <= id < c.dag.Size() ==>
          StoredKey(c.dag, id) in c.unique && c.unique[StoredKey(c.dag, id)] == id)
    && (forall k :: k in c.unique ==> c.unique[k] < c.dag.Size() && StoredKey(c.dag, c.unique[k]) == k)
  }

  function CompactNode(dag: NodeSoA, c: Compact, index: nat): Compact
    requires dag.Valid() && index < dag.Size() && Compacted(c, index)
  {
    var key := KeyOf(dag, c.mapping, index);
    if key in c.unique then c.(mapping := c.mapping + [c.unique[key]])
    else
      var id := c.dag.Size();
      Compact(Pushed(c.dag, key.kind, key.left, key.right), c.unique[key := id], c.mapping + [id])
  }

  lemma CompactNodeKeeps(dag: NodeSoA, c: Compact, index: nat)
    requires dag.Valid() && index < dag.Size() && Compacted(c, index)
    ensures Compacted(CompactNode(dag, c, index), index + 1)
  {
    var key := KeyOf(dag, c.mapping, index);
    var r := CompactNode(dag, c, index);
    if key !in c.unique {
      assert forall id :: 0 <= id < c.dag.Size() ==> StoredKey(r.dag, id) == StoredKey(c.dag, id);
      assert StoredKey(r.dag, c.dag.Size()) == key;
    }
  }

  function CompactPrefix(dag: NodeSoA, n: nat): (c: Compact)
    requires dag.Valid() && n <= dag.Size()
    ensures Compacted(c, n)
  {
    hide Compacted, CompactNode;
    if n == 0 then
      EmptyCompacted();
      EMPTY
    else
      var before := CompactPrefix(dag, n - 1);
      CompactNodeKeeps(dag, before, n - 1);
      CompactNode(dag, before, n - 1)
  }

  lemma EmptyCompacted()
    ensures Compacted(EMPTY, 0)
  {
  }

  /** `compact_stage`. */
  method CompactStageDag(dag: NodeSoA, roots: seq<U32>) returns (compact: NodeSoA, images: seq<U32>)
    requires dag.Valid() && forall i :: 0 <= i < |roots| ==> roots[i] < dag.Size()
    ensures compact == CompactPrefix(dag, dag.Size()).dag
    ensures |images| == |roots|
    ensures forall i :: 0 <= i < |roots| ==> images[i] == CompactPrefix(dag, dag.Size()).mapping[roots[i]]
  {
    var c := EMPTY;
    for index := 0 to dag.Size()
      invariant c == CompactPrefix(dag, index)
    {
      c := AddNode(dag, c, index);
    }
    compact := c.dag;
    images := seq(|roots|, i requires 0 <= i < |roots| => c.mapping[roots[i]]);
  }

  /** One turn of the loop: look the key up, insert it if it is new, record the image. */
  method AddNode(dag: NodeSoA, c: Compact, index: nat) returns (r: Compact)
    requires dag.Valid() && index < dag.Size() && Compacted(c, index)
    ensures r == CompactNode(dag, c, index)
  {
    var key := KeyOf(dag, c.mapping, index);
    var compact, unique, node := c.dag, c.unique, 0;
    if key in unique {
      node := unique[key];
    } else {
      node := compact.Size();
      compact := Pushed(compact, key.kind, key.left, key.right);
      unique := unique[key := node];
    }
    r := Compact(compact, unique, c.mapping + [node]);
  }

  /** Every node processed so far has an image with the node's value. */
  ghost predicate SameValues<V>(m: Arith<V>, env: Env<V>, dag: NodeSoA, c: Compact, n: nat)
    requires dag.Valid() && n <= dag.Size() && Compacted(c, n)
  {
    forall i :: 0 <= i < n ==> Eval(m, c.dag, env, c.mapping[i]) == Eval(m, dag, env, i)
  }

  /** Compaction preserves meaning: every node's image has the node's value. */
  lemma {:induction false} CompactCorrect<V>(m: Arith<V>, env: Env<V>, dag: NodeSoA, n: nat)
    requires dag.Valid() && n <= dag.Size()
    ensures SameValues(m, env, dag, CompactPrefix(dag, n), n)
    decreases n
  {
    if n > 0 {
      CompactCorrect(m, env, dag, n - 1);
      CompactNodeKeeps(dag, CompactPrefix(dag, n - 1), n - 1);
      CompactNodeCorrect(m, env, dag, CompactPrefix(dag, n - 1), n - 1);
    }
  }

  lemma CompactNodeCorrect<V>(m: Arith<V>, env: Env<V>, dag: NodeSoA, c: Compact, index: nat)
    requires dag.Valid() && index < dag.Size() && Compacted(c, index) && SameValues(m, env, dag, c, index)
    requires Compacted(CompactNode(dag, c, index), index + 1)
    ensures SameValues(m, env, dag, CompactNode(dag, c, index), index + 1)
  {
    var r := CompactNode(dag, c, index);
    forall id | 0 <= id < c.dag.Size() ensures Eval(m, r.dag, env, id) == Eval(m, c.dag, env, id) {
      GrowthKeepsValues(m, c.dag, r.dag, env, id);
    }
    assert StoredKey(r.dag, r.mapping[index]) == KeyOf(dag, c.mapping, index);
  }

  /** Sharing is maximal: no two compacted nodes have the same kind and children. */
  lemma CompactShares(dag: NodeSoA, i: nat, j: nat)
    requires dag.Valid()
    requires i < CompactPrefix(dag, dag.Size()).dag.Size() && j < CompactPrefix(dag, dag.Size()).dag.Size()
    ensures var c := CompactPrefix(dag, dag.Size()).dag; StoredKey(c, i) == StoredKey(c, j) ==> i == j
    ensures CompactPrefix(dag, dag.Size()).dag.Size() <= dag.Size()
  {
  }
}
