/** The whole way of a DAG: lowered, cut, written to a file, read back and evaluated. */
module StoredDag {
  import opened Wrappers
  import opened Bytes
  import opened Machine
  import opened Dag
  import opened Linearize
  import opened Chunking
  import opened Fragmentation
  import opened FragmentMeaning
  import opened GraphCodec

  /** The context of an evaluation at `x`: the pool's patterns as machine values. */
  function ContextAt<V>(x: V, pool: seq<U64>, value: U64 -> V): Context<V> {
    Context([x], seq(|pool|, k requires 0 <= k < |pool| => value(pool[k])))
  }

  /**
   Reading the file of a compiled DAG back within the budgets and evaluating the graph gives
   the DAG's recursive value, whatever the fragment threshold was.
   */
  lemma StoredDagKeepsMeaning<V>(
      m: Arith<V>, value: U64 -> V, x: V, dag: NodeSoA, root: nat, pool: seq<U64>, threshold: nat,
      maxFragments: nat, maxOps: nat, maxConstants: nat)
    requires dag.Valid() && root < dag.Size() && maxOps <= USIZE_MAX
    requires var g := Graph(Greedy(Linearized(dag, root), OpBytes(), threshold), pool);
             Encodable(g) && Covers(g, maxFragments, maxOps, maxConstants)
    ensures var g := Graph(Greedy(Linearized(dag, root), OpBytes(), threshold), pool);
            var r := Decoded(Serialized(g), maxFragments, maxOps, maxConstants);
            && r.Ok?
            && GraphValue(m, ContextAt(x, r.value.constPool, value), r.value.fragments)
               == Some(Eval(m, dag, ContextEnv(m, ContextAt(x, pool, value)), root))
  {
    hide Eval, GraphValue, Greedy, Linearized, Decoded, Serialized, Encodable, Covers, ContextAt;
    GraphRoundTrip(Graph(Greedy(Linearized(dag, root), OpBytes(), threshold), pool), maxFragments, maxOps, maxConstants);
    FragmentedDag(m, ContextAt(x, pool, value), dag, root, threshold);
  }
}
