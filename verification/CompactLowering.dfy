/** Both lowering passes together: a stage is compacted, then lowered with use counts. */
module CompactLowering {
  import opened Wrappers
  import opened Machine
  import opened Dag
  import opened Scalar
  import Stages = StageLowering
  import Compaction = CompactStage

  /** Compaction followed by the use-counting lowering. */
  function CompactScalar(dag: NodeSoA, root: U32): (r: seq<Op>)
    requires dag.Valid() && root < dag.Size()
    ensures IsScalarProgram(r)
  {
    var c := Compaction.CompactPrefix(dag, dag.Size());
    Stages.StageProgramCorrect(SampleArith(), SampleEnv(), c.dag, c.mapping[root], []);
    Stages.StageProgram(c.dag, c.mapping[root])
  }

  // Any interpretation shows that the emitted code is a scalar program.
  ghost function SampleArith(): Arith<int> {
    Arith(1, 0, 0, (x, y) => 0, (x, y) => 0, (x, y) => 0, (x, y) => 0, k => 0, v => 0, v => None)
  }

  ghost function SampleEnv(): Env<int> {
    Env(id => 0, id => 0)
  }

  lemma CompactSize(dag: NodeSoA, root: U32)
    requires dag.Valid() && root < dag.Size()
    ensures |CompactScalar(dag, root)| <= 5 * dag.Size()
  {
    var c := Compaction.CompactPrefix(dag, dag.Size());
    Stages.StageSize(c.dag, c.mapping[root]);
  }

  /** Both lowering passes preserve the value of the root. */
  lemma CompactScalarCorrect<V>(m: Arith<V>, env: Env<V>, dag: NodeSoA, root: U32)
    requires dag.Valid() && root < dag.Size()
    ensures ScalarValue(m, env, CompactScalar(dag, root)) == Eval(m, dag, env, root)
  {
    var c := Compaction.CompactPrefix(dag, dag.Size());
    Compaction.CompactCorrect(m, env, dag, dag.Size());
    Stages.StageProgramCorrect(m, env, c.dag, c.mapping[root], []);
  }
}
