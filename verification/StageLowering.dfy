/**
 `linearize_stage`: the lowering that counts uses. A value whose last use is on top of
 the stack is consumed in place, the others are copied, and dead values are dropped as
 soon as they surface below the top.
 */
module StageLowering {
  import opened Wrappers
  import opened Sequences
  import opened Machine
  import opened Dag
  import opened Scalar
  import opened Linearize

  // ------------------------------------------------------------------- use counts

  /** How often node `u` reads node `v`. */
  function Reads(dag: NodeSoA, u: nat, v: nat): nat
    requires dag.Valid() && u < dag.Size()
  {
    if dag.kinds[u].BmlNode? then (if dag.lefts[u] == v then 1 else 0) + (if dag.rights[u] == v then 1 else 0) else 0
  }

  /** Uses of `v` by the nodes still to be emitted; the root is used once by the caller. */
  function Remaining(dag: NodeSoA, root: nat, rest: seq<nat>, v: nat): nat
    requires dag.Valid() && InDag(dag, rest)
  {
    if rest == [] then (if v == root then 1 else 0)
    else Reads(dag, rest[0], v) + Remaining(dag, root, rest[1..], v)
  }

  lemma {:induction false} RemainingPush(dag: NodeSoA, root: nat, rest: seq<nat>, id: nat, v: nat)
    requires dag.Valid() && InDag(dag, rest) && id < dag.Size()
    ensures Remaining(dag, root, rest + [id], v) == Remaining(dag, root, rest, v) + Reads(dag, id, v)
    decreases |rest|
  {
    if rest == [] {
      assert [id][1..] == [];
    } else {
      assert (rest + [id])[1..] == rest[1..] + [id];
      RemainingPush(dag, root, rest[1..], id, v);
    }
  }

  /** The use table agrees with what remains to be emitted. */
  ghost predicate Counts(dag: NodeSoA, root: nat, rest: seq<nat>, uses: seq<nat>)
    requires dag.Valid() && InDag(dag, rest)
  {
    |uses| == dag.Size() && forall v :: 0 <= v < |uses| ==> uses[v] == Remaining(dag, root, rest, v)
  }

  function CountNode(dag: NodeSoA, uses: seq<nat>, id: nat): seq<nat>
    requires dag.Valid() && |uses| == dag.Size() && id < dag.Size()
  {
    if dag.kinds[id].BmlNode? then
      var once := uses[dag.lefts[id] := uses[dag.lefts[id]] + 1];
      once[dag.rights[id] := once[dag.rights[id]] + 1]
    else uses
  }

  /** First pass: the visiting order and the use counts. */
  method CountUses(dag: NodeSoA, root: U32) returns (order: seq<nat>, uses: seq<nat>)
    requires dag.Valid() && root < dag.Size()
    ensures order == PostOrder(dag, root) && InDag(dag, order) && Counts(dag, root, order, uses)
  {
    var pending := [Pending(root, false)];
    var visited: seq<bool> := seq(dag.Size(), _ => false);
    order := [];
    uses := seq(dag.Size(), _ => 0);
    uses := uses[root := 1];
    DrainStart(dag, root);
    while pending != []
      invariant InRange(dag, pending) && Drain(dag, pending, order) == Some(PostOrder(dag, root))
      invariant |visited| == dag.Size() && forall v :: 0 <= v < |visited| ==> (visited[v] <==> v in order)
      invariant InDag(dag, order) && Counts(dag, root, order, uses)
      decreases PendingWeight(pending)
    {
      PopStep(dag, pending, order);
      var top := pending[|pending| - 1];
      pending := pending[..|pending| - 1];
      if visited[top.id] {
        continue;
      }
      if dag.kinds[top.id].BmlNode? && !top.expanded {
        pending := pending + Children(dag, top.id);
        continue;
      }
      visited := visited[top.id := true];
      CountNodeCounts(dag, root, order, uses, top.id);
      uses := CountNode(dag, uses, top.id);
      order := order + [top.id];
    }
  }

  lemma CountNodeCounts(dag: NodeSoA, root: nat, order: seq<nat>, uses: seq<nat>, id: nat)
    requires dag.Valid() && id < dag.Size() && InDag(dag, order) && Counts(dag, root, order, uses)
    ensures Counts(dag, root, order + [id], CountNode(dag, uses, id))
  {
    forall v | 0 <= v < |uses|
      ensures CountNode(dag, uses, id)[v] == Remaining(dag, root, order + [id], v)
    {
      RemainingPush(dag, root, order, id, v);
    }
  }

  // ------------------------------------------------------------------- second pass

  /** Program text, the nodes whose values are on the stack, and the uses left. */
  datatype Stage = Stage(ops: seq<Op>, stack: seq<nat>, uses: seq<nat>)

  ghost predicate OnStack(dag: NodeSoA, id: nat, stack: seq<nat>, uses: seq<nat>)
    requires dag.Valid()
  {
    && id < dag.Size() && dag.kinds[id].BmlNode? && |uses| == dag.Size() && |stack| < U32_RANGE
    && dag.lefts[id] in stack && dag.rights[id] in stack
  }

  /** How operands at two stack positions reach the top, and which stack entries they consume. */
  function OperandsAt(stack: seq<nat>, uses: seq<nat>, leftAt: nat, rightAt: nat): (seq<Op>, seq<nat>)
    requires leftAt < |stack| < U32_RANGE && rightAt < |stack|
    requires stack[leftAt] < |uses| && stack[rightAt] < |uses|
  {
    var left, right := stack[leftAt], stack[rightAt];
    var len := |stack|;
    if left != right && leftAt + 2 == len && rightAt + 1 == len && uses[left] == 1 && uses[right] == 1 then
      ([], stack[..len - 2])
    else if left == right && leftAt + 1 == len && uses[left] == 2 then
      ([Dup], stack[..len - 1])
    else if leftAt + 1 == len && uses[left] == 1 then
      ([Pick(len - 1 - rightAt)], stack[..len - 1])
    else if rightAt + 1 == len && uses[right] == 1 then
      ([Pick(len - 1 - leftAt), Swap], stack[..len - 1])
    else
      ([Pick(len - 1 - leftAt), Pick(len - rightAt)], stack)
  }

  function Operands(dag: NodeSoA, id: nat, stack: seq<nat>, uses: seq<nat>): (seq<Op>, seq<nat>)
    requires dag.Valid() && OnStack(dag, id, stack, uses)
  {
    OperandsAt(stack, uses, PositionOf(stack, dag.lefts[id]), PositionOf(stack, dag.rights[id]))
  }

  function LeafOp(kind: NodeKind): Op
    requires !kind.BmlNode?
  {
    match kind
    case OneNode => One
    case ZeroNode => Zero
    case VarNode(v) => Var(v)
    case ConstNode(c) => Const(c)
  }

  function Consume(uses: seq<nat>, left: nat, right: nat): seq<nat>
    requires left < |uses| && right < |uses| && uses[left] >= 1
    requires (if left == right then 2 else 1) <= uses[right]
  {
    var once := uses[left := uses[left] - 1];
    once[right := once[right] - 1]
  }

  /** The nodes whose operands a step may find: on the stack, with uses left for it. */
  ghost predicate Available(dag: NodeSoA, st: Stage, id: nat)
    requires dag.Valid() && id < dag.Size()
  {
    && |st.uses| == dag.Size() && |st.stack| < U32_RANGE
    && (dag.kinds[id].BmlNode? ==>
          && dag.lefts[id] in st.stack && dag.rights[id] in st.stack
          && forall v :: 0 <= v < |st.uses| ==> Reads(dag, id, v) <= st.uses[v])
  }

  function Compute(dag: NodeSoA, st: Stage, id: nat): Stage
    requires dag.Valid() && id < dag.Size() && Available(dag, st, id)
  {
    if dag.kinds[id].BmlNode? then
      var (code, below) := Operands(dag, id, st.stack, st.uses);
      var left, right := dag.lefts[id], dag.rights[id];
      assert Reads(dag, id, left) <= st.uses[left] && Reads(dag, id, right) <= st.uses[right];
      Stage(st.ops + code + [Bml], below + [id], Consume(st.uses, left, right))
    else Stage(st.ops + [LeafOp(dag.kinds[id])], st.stack + [id], st.uses)
  }

  ghost predicate InTable(st: Stage) {
    forall k :: 0 <= k < |st.stack| ==> st.stack[k] < |st.uses|
  }

  /** Drops dead values from below the top. */
  function DropDead(st: Stage): Stage
    requires InTable(st)
    decreases |st.stack|
  {
    var len := |st.stack|;
    if len > 1 && st.uses[st.stack[len - 2]] == 0 then
      DropDead(DropOne(st))
    else st
  }

  // ---------------------------------------------------------------- its invariant

  /** Before emitting `rest`: live nodes are on the stack, once, and counted exactly. */
  ghost predicate Live(dag: NodeSoA, root: nat, done: seq<nat>, rest: seq<nat>, st: Stage)
    requires dag.Valid() && InDag(dag, rest)
  {
    && Counts(dag, root, rest, st.uses)
    && Distinct(st.stack)
    && (forall k :: 0 <= k < |st.stack| ==> st.stack[k] in done)
    && forall v :: v in done && v < dag.Size() && st.uses[v] > 0 ==> v in st.stack
  }

  lemma LiveAvailable(dag: NodeSoA, root: nat, done: seq<nat>, rest: seq<nat>, st: Stage)
    requires dag.Valid() && InDag(dag, rest) && rest != [] && InDag(dag, done) && Live(dag, root, done, rest, st)
    requires Ready(dag, done, rest[0])
    ensures Available(dag, st, rest[0])
  {
    var id := rest[0];
    Pigeonhole(st.stack + [id], dag.Size());
    forall v | 0 <= v < |st.uses| ensures Reads(dag, id, v) <= st.uses[v] {
    }
    if dag.kinds[id].BmlNode? {
      assert Reads(dag, id, dag.lefts[id]) >= 1 && Reads(dag, id, dag.rights[id]) >= 1;
    }
  }

  // A value leaves the stack only when this node was its last reader.
  lemma OperandsKeep(dag: NodeSoA, st: Stage, id: nat)
    requires dag.Valid() && id < dag.Size() && dag.kinds[id].BmlNode? && Available(dag, st, id) && Distinct(st.stack)
    ensures var below := Operands(dag, id, st.stack, st.uses).1;
            && below <= st.stack
            && forall v :: v in st.stack && v !in below ==> v < |st.uses| && Reads(dag, id, v) == st.uses[v]
  {
    var left, right := dag.lefts[id], dag.rights[id];
    var stack, len := st.stack, |st.stack|;
    var leftAt, rightAt := PositionOf(stack, left), PositionOf(stack, right);
    assert Reads(dag, id, left) <= st.uses[left] && Reads(dag, id, right) <= st.uses[right];
    var below := Operands(dag, id, stack, st.uses).1;
    forall v | v in stack && v !in below ensures v < |st.uses| && Reads(dag, id, v) == st.uses[v] {
      var k := PositionOf(stack, v);
      assert k >= |below|;
      assert stack[leftAt] == left && stack[rightAt] == right;
    }
  }

  lemma ComputeLive(dag: NodeSoA, root: nat, done: seq<nat>, rest: seq<nat>, st: Stage)
    requires dag.Valid() && InDag(dag, rest) && rest != [] && InDag(dag, done) && Live(dag, root, done, rest, st)
    requires Ready(dag, done, rest[0]) && Available(dag, st, rest[0])
    ensures InDag(dag, rest[1..]) && Live(dag, root, done + [rest[0]], rest[1..], Compute(dag, st, rest[0]))
  {
    var id := rest[0];
    var next := Compute(dag, st, id);
    if dag.kinds[id].BmlNode? {
      OperandsKeep(dag, st, id);
      forall v | 0 <= v < |st.uses| ensures next.uses[v] == st.uses[v] - Reads(dag, id, v) {
      }
    }
    var after := done + [id];
    forall v | v in after && v < dag.Size() && next.uses[v] > 0 ensures v in next.stack {
      assert next.stack[|next.stack| - 1] == id;
      if v != id {
        assert v in done && st.uses[v] > 0;
      }
    }
    forall k | 0 <= k < |next.stack| ensures next.stack[k] in after {
      if k < |next.stack| - 1 {
        assert next.stack[k] == st.stack[k];
      } else {
        assert after[|done|] == id;
      }
    }
  }

  function DropOne(st: Stage): Stage
    requires |st.stack| > 1
  {
    var len := |st.stack|;
    Stage(st.ops + [Swap, Drop], st.stack[..len - 2] + [st.stack[len - 1]], st.uses)
  }

  lemma DropOneLive(dag: NodeSoA, root: nat, done: seq<nat>, rest: seq<nat>, st: Stage)
    requires dag.Valid() && InDag(dag, rest) && InDag(dag, done) && Live(dag, root, done, rest, st)
    requires InTable(st) && |st.stack| > 1 && st.uses[st.stack[|st.stack| - 2]] == 0
    ensures InTable(DropOne(st)) && Live(dag, root, done, rest, DropOne(st))
  {
    var len := |st.stack|;
    var next := DropOne(st);
    forall v | v in st.stack && v != st.stack[len - 2] ensures v in next.stack {
      var k := PositionOf(st.stack, v);
      assert if k < len - 2 then next.stack[k] == v else next.stack[len - 2] == v;
    }
    assert forall k :: 0 <= k < |next.stack| ==> next.stack[k] == st.stack[if k < len - 2 then k else len - 1];
  }

  lemma {:induction false} DropDeadLive(dag: NodeSoA, root: nat, done: seq<nat>, rest: seq<nat>, st: Stage)
    requires dag.Valid() && InDag(dag, rest) && InDag(dag, done) && Live(dag, root, done, rest, st) && InTable(st)
    ensures Live(dag, root, done, rest, DropDead(st))
    decreases |st.stack|
  {
    if |st.stack| > 1 && st.uses[st.stack[|st.stack| - 2]] == 0 {
      DropOneLive(dag, root, done, rest, st);
      DropDeadLive(dag, root, done, rest, DropOne(st));
    }
  }

  /** Whether the value below the top, if any, is still needed. */
  ghost predicate SecondLive(st: Stage) {
    |st.stack| > 1 ==> st.stack[|st.stack| - 2] < |st.uses| && st.uses[st.stack[|st.stack| - 2]] > 0
  }

  lemma {:induction false} DropDeadShape(st: Stage, top: nat)
    requires InTable(st) && st.stack != [] && st.stack[|st.stack| - 1] == top
    ensures var r := DropDead(st); r.stack != [] && r.stack[|r.stack| - 1] == top && SecondLive(r)
    decreases |st.stack|
  {
    if |st.stack| > 1 && st.uses[st.stack[|st.stack| - 2]] == 0 {
      DropDeadShape(DropOne(st), top);
    }
  }

  // ------------------------------------------------------------- the whole lowering

  lemma {:induction false} OrderedAt(dag: NodeSoA, done: seq<nat>, rest: seq<nat>)
    requires dag.Valid() && rest != [] && Ordered(dag, done + rest)
    ensures InDag(dag, done) && InDag(dag, rest) && Ready(dag, done, rest[0])
    decreases |rest|
  {
    var order := done + rest;
    OrderedFacts(dag, order);
    assert forall k :: 0 <= k < |rest| ==> rest[k] == order[|done| + k];
    if |rest| == 1 {
      assert order[..|order| - 1] == done;
    } else {
      assert order[..|order| - 1] == done + rest[..|rest| - 1];
      OrderedAt(dag, done, rest[..|rest| - 1]);
    }
  }

  /** One node: compute its value, then drop what died. */
  function EmitStep(dag: NodeSoA, root: nat, done: seq<nat>, rest: seq<nat>, st: Stage): (r: Stage)
    requires dag.Valid() && rest != [] && Ordered(dag, done + rest)
    requires InDag(dag, rest) && Live(dag, root, done, rest, st)
    ensures InDag(dag, rest[1..]) && Live(dag, root, done + [rest[0]], rest[1..], r)
  {
    OrderedAt(dag, done, rest);
    LiveAvailable(dag, root, done, rest, st);
    ComputeLive(dag, root, done, rest, st);
    ComputeInTable(dag, done, rest, st);
    DropDeadLive(dag, root, done + [rest[0]], rest[1..], Compute(dag, st, rest[0]));
    DropDead(Compute(dag, st, rest[0]))
  }

  lemma ComputeInTable(dag: NodeSoA, done: seq<nat>, rest: seq<nat>, st: Stage)
    requires dag.Valid() && InDag(dag, rest) && rest != [] && Available(dag, st, rest[0])
    requires InDag(dag, done) && forall k :: 0 <= k < |st.stack| ==> st.stack[k] in done
    ensures InTable(Compute(dag, st, rest[0]))
  {
  }

  function EmitAll(dag: NodeSoA, root: nat, done: seq<nat>, rest: seq<nat>, st: Stage): Stage
    requires dag.Valid() && Ordered(dag, done + rest)
    requires InDag(dag, rest) && Live(dag, root, done, rest, st)
    decreases |rest|
  {
    if rest == [] then st
    else
      assert done + [rest[0]] + rest[1..] == done + rest;
      EmitAll(dag, root, done + [rest[0]], rest[1..], EmitStep(dag, root, done, rest, st))
  }

  function UsesOf(dag: NodeSoA, root: nat, order: seq<nat>): (uses: seq<nat>)
    requires dag.Valid() && InDag(dag, order)
    ensures Counts(dag, root, order, uses)
  {
    seq(dag.Size(), v requires 0 <= v => Remaining(dag, root, order, v))
  }

  function StageResult(dag: NodeSoA, root: nat): Stage
    requires dag.Valid() && root < dag.Size()
  {
    PostOrderOf(dag, root);
    var order := PostOrder(dag, root);
    OrderedFacts(dag, order);
    assert [] + order == order;
    EmitAll(dag, root, [], order, Stage([], [], UsesOf(dag, root, order)))
  }

  function StageProgram(dag: NodeSoA, root: nat): seq<Op>
    requires dag.Valid() && root < dag.Size()
  {
    StageResult(dag, root).ops
  }

  /** The operand cases of the source, in its order. */
  method EmitOperands(dag: NodeSoA, id: nat, stack: seq<nat>, uses: seq<nat>) returns (code: seq<Op>, below: seq<nat>)
    requires dag.Valid() && OnStack(dag, id, stack, uses)
    ensures (code, below) == Operands(dag, id, stack, uses)
  {
    var left, right := dag.lefts[id], dag.rights[id];
    var leftAt := PositionIn(stack, left);
    var rightAt := PositionIn(stack, right);
    var len := |stack|;
    code, below := [], stack;
    if left != right && leftAt + 2 == len && rightAt + 1 == len && uses[left] == 1 && uses[right] == 1 {
      below := stack[..len - 2];
    } else if left == right && leftAt + 1 == len && uses[left] == 2 {
      code := [Dup];
      below := stack[..len - 1];
    } else if leftAt + 1 == len && uses[left] == 1 {
      code := [Pick(len - 1 - rightAt)];
      below := stack[..len - 1];
    } else if rightAt + 1 == len && uses[right] == 1 {
      code := [Pick(len - 1 - leftAt), Swap];
      below := stack[..len - 1];
    } else {
      code := [Pick(len - 1 - leftAt), Pick(len - rightAt)];
    }
  }

  /** `iter().position(..).unwrap()`. */
  method PositionIn(stack: seq<nat>, v: nat) returns (p: nat)
    requires v in stack
    ensures p == PositionOf(stack, v)
  {
    p := 0;
    while stack[p] != v
      invariant p < |stack| && v !in stack[..p]
      decreases |stack| - p
    {
      assert v in stack[p + 1..];
      p := p + 1;
      assert stack[..p] == stack[..p - 1] + [stack[p - 1]];
    }
    assert PositionOf(stack, v) >= p by {
      assert stack[PositionOf(stack, v)] == v && forall k :: 0 <= k < p ==> stack[..p][k] == stack[k];
    }
  }

  method EmitValue(dag: NodeSoA, st: Stage, id: nat) returns (r: Stage)
    requires dag.Valid() && id < dag.Size() && Available(dag, st, id)
    ensures r == Compute(dag, st, id)
  {
    if dag.kinds[id].BmlNode? {
      var left, right := dag.lefts[id], dag.rights[id];
      var code, below := EmitOperands(dag, id, st.stack, st.uses);
      assert Reads(dag, id, left) <= st.uses[left] && Reads(dag, id, right) <= st.uses[right];
      var uses := st.uses[left := st.uses[left] - 1];
      uses := uses[right := uses[right] - 1];
      r := Stage(st.ops + code + [Bml], below + [id], uses);
    } else {
      r := Stage(st.ops + [LeafOp(dag.kinds[id])], st.stack + [id], st.uses);
    }
  }

  method DropDeadValues(st: Stage) returns (r: Stage)
    requires InTable(st)
    ensures r == DropDead(st)
  {
    r := st;
    while |r.stack| > 1 && r.uses[r.stack[|r.stack| - 2]] == 0
      invariant InTable(r) && DropDead(r) == DropDead(st)
      decreases |r.stack|
    {
      var len := |r.stack|;
      r := Stage(r.ops + [Swap, Drop], r.stack[..len - 2] + [r.stack[len - 1]], r.uses);
    }
  }

  /** What the emission loop keeps: finishing from here gives the whole program. */
  ghost predicate Emitting(dag: NodeSoA, root: nat, order: seq<nat>, i: nat, st: Stage)
    requires dag.Valid() && root < dag.Size() && i <= |order|
  {
    && Ordered(dag, order[..i] + order[i..]) && InDag(dag, order[i..])
    && Live(dag, root, order[..i], order[i..], st)
    && EmitAll(dag, root, order[..i], order[i..], st) == StageResult(dag, root)
  }

  lemma EmittingStep(dag: NodeSoA, root: nat, order: seq<nat>, i: nat, st: Stage)
    requires dag.Valid() && root < dag.Size() && i < |order| && Emitting(dag, root, order, i, st)
    ensures order[i] < dag.Size() && Available(dag, st, order[i]) && InTable(Compute(dag, st, order[i]))
    ensures Emitting(dag, root, order, i + 1, DropDead(Compute(dag, st, order[i])))
  {
    hide Compute, DropDead, StageResult, Available, InTable, Ordered;
    var done, rest := order[..i], order[i..];
    OrderedAt(dag, done, rest);
    LiveAvailable(dag, root, done, rest, st);
    ComputeInTable(dag, done, rest, st);
    var next := EmitStep(dag, root, done, rest, st);
    assert done + [rest[0]] == order[..i + 1] && rest[1..] == order[i + 1..];
    assert order[..i + 1] + order[i + 1..] == done + rest;
  }

  lemma EmittingStart(dag: NodeSoA, root: nat, uses: seq<nat>)
    requires dag.Valid() && root < dag.Size()
    requires InDag(dag, PostOrder(dag, root)) && Counts(dag, root, PostOrder(dag, root), uses)
    ensures Emitting(dag, root, PostOrder(dag, root), 0, Stage([], [], uses))
  {
    var order := PostOrder(dag, root);
    PostOrderOf(dag, root);
    assert uses == UsesOf(dag, root, order);
    assert order[..0] == [] && order[0..] == order && [] + order == order;
  }

  /** `linearize_stage`. */
  method LinearizeStage(dag: NodeSoA, root: U32) returns (ops: seq<Op>)
    requires dag.Valid() && root < dag.Size()
    ensures ops == StageProgram(dag, root)
  {
    var order, uses := CountUses(dag, root);
    var st := Stage([], [], uses);
    EmittingStart(dag, root, uses);
    for i := 0 to |order|
      invariant Emitting(dag, root, order, i, st)
    {
      EmittingStep(dag, root, order, i, st);
      st := EmitValue(dag, st, order[i]);
      st := DropDeadValues(st);
    }
    ops := st.ops;
  }

  // ------------------------------------------------------------------------- size

  // Code and stack after `n` nodes: a drop shortens the stack by what it adds to the code.
  ghost predicate Small(st: Stage, n: nat) {
    |st.ops| + 2 * |st.stack| <= 5 * n
  }

  lemma ComputeSmall(dag: NodeSoA, st: Stage, id: nat, n: nat)
    requires dag.Valid() && id < dag.Size() && Available(dag, st, id) && Small(st, n)
    ensures Small(Compute(dag, st, id), n + 1)
  {
  }

  lemma {:induction false} DropDeadSmall(st: Stage, n: nat)
    requires InTable(st) && Small(st, n)
    ensures Small(DropDead(st), n)
    decreases |st.stack|
  {
    if |st.stack| > 1 && st.uses[st.stack[|st.stack| - 2]] == 0 {
      DropDeadSmall(DropOne(st), n);
    }
  }

  lemma {:induction false} EmitAllSmall(dag: NodeSoA, root: nat, done: seq<nat>, rest: seq<nat>, st: Stage, n: nat)
    requires dag.Valid() && Ordered(dag, done + rest) && InDag(dag, rest) && Live(dag, root, done, rest, st) && Small(st, n)
    ensures Small(EmitAll(dag, root, done, rest, st), n + |rest|)
    decreases |rest|
  {
    hide Compute, DropDead, Small;
    if rest != [] {
      OrderedAt(dag, done, rest);
      LiveAvailable(dag, root, done, rest, st);
      ComputeInTable(dag, done, rest, st);
      ComputeSmall(dag, st, rest[0], n);
      DropDeadSmall(Compute(dag, st, rest[0]), n + 1);
      assert done + [rest[0]] + rest[1..] == done + rest;
      EmitAllSmall(dag, root, done + [rest[0]], rest[1..], EmitStep(dag, root, done, rest, st), n + 1);
    }
  }

  /** At most five opcodes per node. */
  lemma StageSize(dag: NodeSoA, root: nat)
    requires dag.Valid() && root < dag.Size()
    ensures |StageProgram(dag, root)| <= 5 * dag.Size()
  {
    PostOrderOf(dag, root);
    var order := PostOrder(dag, root);
    OrderedFacts(dag, order);
    assert [] + order == order;
    EmitAllSmall(dag, root, [], order, Stage([], [], UsesOf(dag, root, order)), 0);
  }

  // ------------------------------------------------------------------ correctness

  /** The program so far leaves exactly the values of the nodes on the stage's stack. */
  ghost predicate Holds<V>(m: Arith<V>, env: Env<V>, dag: NodeSoA, s: seq<V>, st: Stage)
    requires dag.Valid()
  {
    InDag(dag, st.stack) && AllScalar(st.ops) && ScalarRun(m, env, st.ops, s) == Some(s + Values(m, dag, env, st.stack))
  }

  lemma ValuesConcat<V>(m: Arith<V>, dag: NodeSoA, env: Env<V>, a: seq<nat>, b: seq<nat>)
    requires dag.Valid() && InDag(dag, a) && InDag(dag, b)
    ensures InDag(dag, a + b) && Values(m, dag, env, a + b) == Values(m, dag, env, a) + Values(m, dag, env, b)
  {
  }

  lemma ValuesLast<V>(m: Arith<V>, dag: NodeSoA, env: Env<V>, s: seq<V>, ids: seq<nat>)
    requires dag.Valid() && InDag(dag, ids) && ids != []
    ensures InDag(dag, ids[..|ids| - 1])
    ensures s + Values(m, dag, env, ids) == s + Values(m, dag, env, ids[..|ids| - 1]) + [Eval(m, dag, env, ids[|ids| - 1])]
  {
  }

  lemma BmlRun<V>(m: Arith<V>, env: Env<V>, w: seq<V>, a: V, b: V)
    ensures ScalarRun(m, env, [Bml], w + [a] + [b]) == Some(w + [m.bml(a, b)])
  {
    RunOne(m, env, Bml, w + [a] + [b]);
    assert (w + [a] + [b])[..|w|] == w;
  }

  lemma CodeThenBml<V>(m: Arith<V>, env: Env<V>, code: seq<Op>, t: seq<V>, w: seq<V>, a: V, b: V)
    requires AllScalar(code) && ScalarRun(m, env, code, t) == Some(w + [a] + [b])
    ensures ScalarRun(m, env, code + [Bml], t) == Some(w + [m.bml(a, b)])
  {
    ScalarConcat(m, env, code, [Bml], t);
    BmlRun(m, env, w, a, b);
  }

  lemma DupRun<V>(m: Arith<V>, env: Env<V>, w: seq<V>, a: V)
    ensures ScalarRun(m, env, [Dup] + [Bml], w + [a]) == Some(w + [m.bml(a, a)])
  {
    RunOne(m, env, Dup, w + [a]);
    CodeThenBml(m, env, [Dup], w + [a], w, a, a);
  }

  lemma PickRun<V>(m: Arith<V>, env: Env<V>, w: seq<V>, a: V, at: nat)
    requires at <= |w| && |w| - at < U32_RANGE
    ensures ScalarRun(m, env, [Pick(|w| - at)] + [Bml], w + [a]) == Some(w + [m.bml(a, (w + [a])[at])])
  {
    RunOne(m, env, Pick(|w| - at), w + [a]);
    CodeThenBml(m, env, [Pick(|w| - at)], w + [a], w, a, (w + [a])[at]);
  }

  lemma PickSwapRun<V>(m: Arith<V>, env: Env<V>, w: seq<V>, b: V, at: nat)
    requires at <= |w| && |w| - at < U32_RANGE
    ensures ScalarRun(m, env, [Pick(|w| - at), Swap] + [Bml], w + [b]) == Some(w + [m.bml((w + [b])[at], b)])
  {
    var a := (w + [b])[at];
    RunTwo(m, env, Pick(|w| - at), Swap, w + [b]);
    assert (w + [b] + [a])[..|w|] + [a, b] == w + [a] + [b];
    CodeThenBml(m, env, [Pick(|w| - at), Swap], w + [b], w, a, b);
  }

  lemma OperandsShape(dag: NodeSoA, id: nat, stack: seq<nat>, uses: seq<nat>)
    requires dag.Valid() && OnStack(dag, id, stack, uses) && InDag(dag, stack)
    ensures AllScalar(Operands(dag, id, stack, uses).0 + [Bml]) && InDag(dag, Operands(dag, id, stack, uses).1)
  {
  }

  /** Operand code followed by the operator replaces the consumed entries by the result. */
  lemma OperandsRun<V>(
      m: Arith<V>, env: Env<V>, dag: NodeSoA, stack: seq<nat>, uses: seq<nat>, i: nat, j: nat, s: seq<V>,
      code: seq<Op>, below: seq<nat>)
    requires dag.Valid() && InDag(dag, stack) && |uses| == dag.Size() && i < |stack| < U32_RANGE && j < |stack|
    requires (code, below) == OperandsAt(stack, uses, i, j) && AllScalar(code + [Bml]) && InDag(dag, below)
    ensures ScalarRun(m, env, code + [Bml], s + Values(m, dag, env, stack))
            == Some(s + Values(m, dag, env, below) + [m.bml(Eval(m, dag, env, stack[i]), Eval(m, dag, env, stack[j]))])
  {
    var left, right := stack[i], stack[j];
    var len := |stack|;
    if left != right && i + 2 == len && j + 1 == len && uses[left] == 1 && uses[right] == 1 {
      TwoOnTop(m, env, dag, stack, s);
    } else if left == right && i + 1 == len && uses[left] == 2 {
      ValuesLast(m, dag, env, s, stack);
      DupRun(m, env, s + Values(m, dag, env, below), Eval(m, dag, env, left));
    } else if i + 1 == len && uses[left] == 1 {
      LeftOnTop(m, env, dag, stack, s, j);
    } else if j + 1 == len && uses[right] == 1 {
      RightOnTop(m, env, dag, stack, s, i);
    } else {
      BothCopied(m, env, dag, stack, s, i, j);
    }
  }

  lemma LeftOnTop<V>(m: Arith<V>, env: Env<V>, dag: NodeSoA, stack: seq<nat>, s: seq<V>, j: nat)
    requires dag.Valid() && InDag(dag, stack) && j < |stack| < U32_RANGE
    ensures var len := |stack|;
            && InDag(dag, stack[..len - 1])
            && ScalarRun(m, env, [Pick(len - 1 - j)] + [Bml], s + Values(m, dag, env, stack))
               == Some(s + Values(m, dag, env, stack[..len - 1])
                       + [m.bml(Eval(m, dag, env, stack[len - 1]), Eval(m, dag, env, stack[j]))])
  {
    var len := |stack|;
    ValuesLast(m, dag, env, s, stack);
    assert (s + Values(m, dag, env, stack))[|s| + j] == Eval(m, dag, env, stack[j]);
    PickRun(m, env, s + Values(m, dag, env, stack[..len - 1]), Eval(m, dag, env, stack[len - 1]), |s| + j);
  }

  lemma RightOnTop<V>(m: Arith<V>, env: Env<V>, dag: NodeSoA, stack: seq<nat>, s: seq<V>, i: nat)
    requires dag.Valid() && InDag(dag, stack) && i < |stack| < U32_RANGE
    ensures var len := |stack|;
            && InDag(dag, stack[..len - 1])
            && ScalarRun(m, env, [Pick(len - 1 - i), Swap] + [Bml], s + Values(m, dag, env, stack))
               == Some(s + Values(m, dag, env, stack[..len - 1])
                       + [m.bml(Eval(m, dag, env, stack[i]), Eval(m, dag, env, stack[len - 1]))])
  {
    var len := |stack|;
    ValuesLast(m, dag, env, s, stack);
    assert (s + Values(m, dag, env, stack))[|s| + i] == Eval(m, dag, env, stack[i]);
    PickSwapRun(m, env, s + Values(m, dag, env, stack[..len - 1]), Eval(m, dag, env, stack[len - 1]), |s| + i);
  }

  lemma BothCopied<V>(m: Arith<V>, env: Env<V>, dag: NodeSoA, stack: seq<nat>, s: seq<V>, i: nat, j: nat)
    requires dag.Valid() && InDag(dag, stack) && i < |stack| < U32_RANGE && j < |stack|
    ensures ScalarRun(m, env, [Pick(|stack| - 1 - i), Pick(|stack| - j)] + [Bml], s + Values(m, dag, env, stack))
            == Some(s + Values(m, dag, env, stack) + [m.bml(Eval(m, dag, env, stack[i]), Eval(m, dag, env, stack[j]))])
  {
    var t := s + Values(m, dag, env, stack);
    assert t[|s| + i] == Eval(m, dag, env, stack[i]) && t[|s| + j] == Eval(m, dag, env, stack[j]);
    PickPickBmlRun(m, env, t, |s| + i, |s| + j);
    var x, y := Pick(|stack| - 1 - i), Pick(|stack| - j);
    assert [x, y] + [Bml] == [x, y, Bml];
  }

  lemma TwoOnTop<V>(m: Arith<V>, env: Env<V>, dag: NodeSoA, stack: seq<nat>, s: seq<V>)
    requires dag.Valid() && InDag(dag, stack) && |stack| >= 2
    ensures var len := |stack|;
            && InDag(dag, stack[..len - 2])
            && ScalarRun(m, env, [] + [Bml], s + Values(m, dag, env, stack))
               == Some(s + Values(m, dag, env, stack[..len - 2])
                       + [m.bml(Eval(m, dag, env, stack[len - 2]), Eval(m, dag, env, stack[len - 1]))])
  {
    var len := |stack|;
    ValuesLast(m, dag, env, s, stack);
    ValuesLast(m, dag, env, s, stack[..len - 1]);
    assert stack[..len - 1][..len - 2] == stack[..len - 2];
    BmlRun(m, env, s + Values(m, dag, env, stack[..len - 2]), Eval(m, dag, env, stack[len - 2]), Eval(m, dag, env, stack[len - 1]));
    assert [] + [Bml] == [Bml];
  }

  lemma ComputeBmlHolds<V>(m: Arith<V>, env: Env<V>, dag: NodeSoA, s: seq<V>, st: Stage, id: nat)
    requires dag.Valid() && OnStack(dag, id, st.stack, st.uses) && Available(dag, st, id) && Holds(m, env, dag, s, st)
    ensures Holds(m, env, dag, s, Compute(dag, st, id))
  {
    var (code, below) := Operands(dag, id, st.stack, st.uses);
    OperandsShape(dag, id, st.stack, st.uses);
    var i, j := PositionOf(st.stack, dag.lefts[id]), PositionOf(st.stack, dag.rights[id]);
    OperandsRun(m, env, dag, st.stack, st.uses, i, j, s, code, below);
    ScalarConcat(m, env, st.ops, code + [Bml], s);
    assert st.ops + (code + [Bml]) == st.ops + code + [Bml];
    assert s + Values(m, dag, env, below) + [Eval(m, dag, env, id)] == s + Values(m, dag, env, below + [id]);
  }

  lemma ComputeHolds<V>(m: Arith<V>, env: Env<V>, dag: NodeSoA, s: seq<V>, st: Stage, id: nat)
    requires dag.Valid() && id < dag.Size() && Available(dag, st, id) && Holds(m, env, dag, s, st)
    ensures Holds(m, env, dag, s, Compute(dag, st, id))
  {
    if dag.kinds[id].BmlNode? {
      ComputeBmlHolds(m, env, dag, s, st, id);
    } else {
      var op := LeafOp(dag.kinds[id]);
      var t := s + Values(m, dag, env, st.stack);
      RunOne(m, env, op, t);
      ScalarConcat(m, env, st.ops, [op], s);
      assert t + [Eval(m, dag, env, id)] == s + Values(m, dag, env, st.stack + [id]);
    }
  }

  lemma {:induction false} DropDeadHolds<V>(m: Arith<V>, env: Env<V>, dag: NodeSoA, s: seq<V>, st: Stage)
    requires dag.Valid() && InTable(st) && Holds(m, env, dag, s, st)
    ensures Holds(m, env, dag, s, DropDead(st))
    decreases |st.stack|
  {
    var len := |st.stack|;
    if len > 1 && st.uses[st.stack[len - 2]] == 0 {
      var x, y := st.stack[len - 2], st.stack[len - 1];
      var next := Stage(st.ops + [Swap, Drop], st.stack[..len - 2] + [y], st.uses);
      var w := s + Values(m, dag, env, st.stack[..len - 2]);
      assert s + Values(m, dag, env, st.stack) == w + [Eval(m, dag, env, x), Eval(m, dag, env, y)];
      DropSecondRun(m, env, w, Eval(m, dag, env, x), Eval(m, dag, env, y));
      ScalarConcat(m, env, st.ops, [Swap, Drop], s);
      ValuesConcat(m, dag, env, st.stack[..len - 2], [y]);
      assert w + [Eval(m, dag, env, y)] == s + Values(m, dag, env, next.stack);
      DropDeadHolds(m, env, dag, s, next);
    }
  }

  lemma EmitStepHolds<V>(
      m: Arith<V>, env: Env<V>, dag: NodeSoA, root: nat, done: seq<nat>, rest: seq<nat>, s: seq<V>, st: Stage)
    requires dag.Valid() && rest != [] && Ordered(dag, done + rest) && InDag(dag, rest)
    requires Live(dag, root, done, rest, st) && Holds(m, env, dag, s, st)
    ensures var r := EmitStep(dag, root, done, rest, st);
            Holds(m, env, dag, s, r) && r.stack != [] && r.stack[|r.stack| - 1] == rest[0] && SecondLive(r)
  {
    OrderedAt(dag, done, rest);
    LiveAvailable(dag, root, done, rest, st);
    ComputeInTable(dag, done, rest, st);
    ComputeHolds(m, env, dag, s, st, rest[0]);
    DropDeadHolds(m, env, dag, s, Compute(dag, st, rest[0]));
    DropDeadShape(Compute(dag, st, rest[0]), rest[0]);
  }

  /** Every value used by what follows is right, and at the end only the root remains. */
  lemma {:induction false} EmitAllHolds<V>(
      m: Arith<V>, env: Env<V>, dag: NodeSoA, root: nat, done: seq<nat>, rest: seq<nat>, s: seq<V>, st: Stage)
    requires dag.Valid() && Ordered(dag, done + rest) && InDag(dag, rest) && InDag(dag, done)
    requires Live(dag, root, done, rest, st) && Holds(m, env, dag, s, st) && rest != [] && rest[|rest| - 1] == root
    ensures var r := EmitAll(dag, root, done, rest, st); Holds(m, env, dag, s, r) && r.stack == [root]
    decreases |rest|
  {
    EmitStepHolds(m, env, dag, root, done, rest, s, st);
    var next := EmitStep(dag, root, done, rest, st);
    assert done + [rest[0]] + rest[1..] == done + rest;
    if |rest| == 1 {
      LastStep(dag, root, done + [rest[0]], next);
      assert EmitAll(dag, root, done + [rest[0]], [], next) == next;
    } else {
      EmitAllHolds(m, env, dag, root, done + [rest[0]], rest[1..], s, next);
    }
  }

  // With nothing left to emit only the root has a use, so nothing else can lie below it.
  lemma LastStep(dag: NodeSoA, root: nat, done: seq<nat>, st: Stage)
    requires dag.Valid() && Live(dag, root, done, [], st)
    requires st.stack != [] && st.stack[|st.stack| - 1] == root && SecondLive(st)
    ensures st.stack == [root]
  {
    assert forall v :: 0 <= v < |st.uses| && st.uses[v] > 0 ==> v == root;
  }

  /** The compact lowering computes the DAG's value and leaves nothing else behind. */
  lemma StageProgramCorrect<V>(m: Arith<V>, env: Env<V>, dag: NodeSoA, root: nat, s: seq<V>)
    requires dag.Valid() && root < dag.Size()
    ensures IsScalarProgram(StageProgram(dag, root))
    ensures ScalarRun(m, env, StageProgram(dag, root), s) == Some(s + [Eval(m, dag, env, root)])
    ensures ScalarValue(m, env, StageProgram(dag, root)) == Eval(m, dag, env, root)
  {
    StageProgramRun(m, env, dag, root, s);
    StageProgramRun(m, env, dag, root, []);
  }

  lemma StageProgramRun<V>(m: Arith<V>, env: Env<V>, dag: NodeSoA, root: nat, s: seq<V>)
    requires dag.Valid() && root < dag.Size()
    ensures AllScalar(StageProgram(dag, root))
    ensures ScalarRun(m, env, StageProgram(dag, root), s) == Some(s + [Eval(m, dag, env, root)])
  {
    var order := PostOrder(dag, root);
    PostOrderOf(dag, root);
    OrderedFacts(dag, order);
    var start := Stage([], [], UsesOf(dag, root, order));
    EmittingStart(dag, root, start.uses);
    assert order[..0] == [] && order[0..] == order;
    StartHolds(m, env, dag, s, start);
    EmitAllHolds(m, env, dag, root, [], order, s, start);
    RootOnly(m, env, dag, root, s, StageResult(dag, root));
  }

  lemma StartHolds<V>(m: Arith<V>, env: Env<V>, dag: NodeSoA, s: seq<V>, st: Stage)
    requires dag.Valid() && st.ops == [] && st.stack == []
    ensures Holds(m, env, dag, s, st)
  {
    assert s + Values(m, dag, env, []) == s;
  }

  lemma RootOnly<V>(m: Arith<V>, env: Env<V>, dag: NodeSoA, root: nat, s: seq<V>, st: Stage)
    requires dag.Valid() && root < dag.Size() && st.stack == [root] && Holds(m, env, dag, s, st)
    ensures ScalarRun(m, env, st.ops, s) == Some(s + [Eval(m, dag, env, root)])
  {
    assert Values(m, dag, env, [root]) == [Eval(m, dag, env, root)];
  }
}
