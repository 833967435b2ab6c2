/**
 Mutation campaigns: a frozen candidate list, its round-robin assignment to shards, and
 the check that a shard's outcomes are complete. Digests and phase evidence are
 parameters; field shapes that types already guarantee are not repeated.
 */
module Campaign {
  import opened Wrappers
  import opened Sequences
  import opened Strides

  /** A cargo-mutants candidate: its unique name, package, remaining identity, and diff. */
  datatype Candidate = Candidate(name: string, pkg: string, identity: string, diff: string)

  /** What an outcome repeats of its candidate: everything but the diff. */
  datatype Mutant = Mutant(name: string, pkg: string, identity: string)

  datatype Summary = Success | Caught | Missed | Timeout | Unviable | Unknown

  datatype Outcome =
    | Baseline(summary: Summary, phases: nat)
    | Mutation(mutant: Mutant, summary: Summary, phases: nat)

  /** A shard's outcomes file. */
  datatype Report = Report(
    toolVersionOk: bool, start: int, end: int, outcomes: seq<Outcome>,
    total: int, caught: int, missed: int, timeout: int, unviable: int, success: int)

  /** Revision, tree, file hashes and package versions, as one record. */
  datatype Source = Source(id: string, packages: set<string>, wellFormed: bool)

  datatype Assignment = Assignment(shard: Label, candidates: seq<Candidate>, digest: nat)

  datatype Manifest = Manifest(
    source: Source, diffSha: string, candidates: seq<Candidate>, candidatesDigest: nat, shards: seq<Assignment>,
    checksum: nat)

  /** The hash and the phase-evidence check; the flag tells baselines from mutants. */
  datatype Tools = Tools(
    digest: seq<Candidate> -> nat,
    payload: (Source, string, seq<Candidate>, nat, seq<Assignment>) -> nat,
    report: Report -> nat,
    phases: (nat, Summary, bool) -> bool)

  // -------------------------------------------------------------------- candidates

  function Names(cs: seq<Candidate>): (names: seq<string>)
    ensures |names| == |cs|
  {
    seq(|cs|, k requires 0 <= k < |cs| => cs[k].name)
  }

  function NameSet(names: seq<string>): set<string> {
    set x | x in names
  }

  /** Names that are each present once: as many as their set. */
  lemma {:induction false} DistinctCount(names: seq<string>)
    requires Distinct(names)
    ensures |NameSet(names)| == |names|
    decreases |names|
  {
    if names != [] {
      var front, last := names[..|names| - 1], names[|names| - 1];
      assert names == front + [last];
      DistinctCount(front);
      assert NameSet(names) == NameSet(front) + {last};
    }
  }

  /** A candidate list with nonempty, unique names. */
  ghost predicate Unique(cs: seq<Candidate>) {
    Distinct(Names(cs)) && forall k :: 0 <= k < |cs| ==> cs[k].name != ""
  }

  // The first `i` candidates are named, distinct, and indexed by name.
  ghost predicate Mapped(cs: seq<Candidate>, i: nat, byName: map<string, Candidate>) {
    && i <= |cs|
    && (forall k :: 0 <= k < i ==> cs[k].name in byName && byName[cs[k].name] == cs[k] && cs[k].name != "")
    && (forall x :: x in byName ==> x in Names(cs)[..i])
    && Distinct(Names(cs)[..i])
  }

  lemma MapStep(cs: seq<Candidate>, i: nat, byName: map<string, Candidate>)
    requires Mapped(cs, i, byName) && i < |cs|
    ensures cs[i].name == "" || cs[i].name in byName ==> !Unique(cs)
    ensures cs[i].name != "" && cs[i].name !in byName ==> Mapped(cs, i + 1, byName[cs[i].name := cs[i]])
  {
    var before, after := Names(cs)[..i], Names(cs)[..i + 1];
    assert after == before + [cs[i].name];
    if cs[i].name in byName {
      var k :| 0 <= k < i && before[k] == cs[i].name;
      assert Names(cs)[k] == Names(cs)[i];
    } else {
      forall a | 0 <= a < i ensures before[a] != cs[i].name {
        assert cs[a].name in byName;
      }
    }
  }

  lemma MapDone(cs: seq<Candidate>, byName: map<string, Candidate>)
    requires Mapped(cs, |cs|, byName)
    ensures Unique(cs) && byName.Keys == NameSet(Names(cs))
  {
    assert Names(cs)[..|cs|] == Names(cs);
    forall x | x in Names(cs) ensures x in byName {
      var k :| 0 <= k < |cs| && Names(cs)[k] == x;
      assert cs[k].name in byName;
    }
  }

  /** `candidate_map`: candidates by name, unless a name is empty or repeated. */
  method CandidateMap(cs: seq<Candidate>) returns (r: Result<map<string, Candidate>, string>)
    ensures r.Ok? <==> Unique(cs)
    ensures r.Ok? ==> r.value.Keys == NameSet(Names(cs))
                      && forall k :: 0 <= k < |cs| ==> cs[k].name in r.value && r.value[cs[k].name] == cs[k]
  {
    hide Unique, NameSet, Distinct;
    var byName: map<string, Candidate> := map[];
    MapStart(cs);
    for i := 0 to |cs|
      invariant Mapped(cs, i, byName)
    {
      MapStep(cs, i, byName);
      if cs[i].name == "" {
        return Err("invalid candidate identity or diff");
      }
      if cs[i].name in byName {
        return Err("duplicate candidate");
      }
      byName := byName[cs[i].name := cs[i]];
    }
    MapDone(cs, byName);
    r := Ok(byName);
  }

  lemma MapStart(cs: seq<Candidate>)
    ensures Mapped(cs, 0, map[])
  {
  }

  /** Slices of a unique list are unique, and names of different slices differ. */
  lemma StridesUnique(cs: seq<Candidate>, n: nat, i: nat)
    requires Unique(cs) && i < n
    ensures Unique(Stride(cs, i, n))
  {
    var slice := Stride(cs, i, n);
    forall a, b | 0 <= a < b < |slice| ensures Names(slice)[a] != Names(slice)[b] {
      Origin(cs, n, i, a);
      Origin(cs, n, i, b);
      assert Names(cs)[i + a * n] == slice[a].name && Names(cs)[i + b * n] == slice[b].name;
    }
    forall k | 0 <= k < |slice| ensures slice[k].name != "" {
      Origin(cs, n, i, k);
    }
  }

  lemma StridesDisjoint(cs: seq<Candidate>, n: nat, i: nat, j: nat, x: string)
    requires Unique(cs) && i < n && j < n && x in Names(Stride(cs, i, n)) && x in Names(Stride(cs, j, n))
    ensures i == j
  {
    var a :| 0 <= a < |Stride(cs, i, n)| && Names(Stride(cs, i, n))[a] == x;
    var b :| 0 <= b < |Stride(cs, j, n)| && Names(Stride(cs, j, n))[b] == x;
    Origin(cs, n, i, a);
    Origin(cs, n, j, b);
    assert Names(cs)[i + a * n] == x && Names(cs)[j + b * n] == x;
  }

  // ---------------------------------------------------------------------- manifest

  function Assigned(tools: Tools, candidates: seq<Candidate>, count: nat): (shards: seq<Assignment>)
    requires count > 0
    ensures |shards| == count
    ensures forall i :: 0 <= i < count ==>
              && shards[i].shard == Label(i, count) && shards[i].candidates == Stride(candidates, i, count)
              && shards[i].digest == tools.digest(shards[i].candidates)
  {
    seq(count, i requires 0 <= i < count =>
      Assignment(Label(i, count), Stride(candidates, i, count), tools.digest(Stride(candidates, i, count))))
  }

  function Frozen(tools: Tools, source: Source, diffSha: string, candidates: seq<Candidate>, count: nat): Manifest
    requires count > 0
  {
    var shards := Assigned(tools, candidates, count);
    var d := tools.digest(candidates);
    Manifest(source, diffSha, candidates, d, shards, tools.payload(source, diffSha, candidates, d, shards))
  }

  /** The campaigns `make_manifest` accepts. */
  ghost predicate Freezable(source: Source, candidates: seq<Candidate>, listed: seq<seq<Candidate>>) {
    && source.wellFormed && Unique(candidates) && candidates != []
    && (forall k :: 0 <= k < |candidates| ==> candidates[k].pkg in source.packages)
    && 1 <= |listed| <= |candidates|
    && forall i :: 0 <= i < |listed| ==> listed[i] == Stride(candidates, i, |listed|)
  }

  /** `make_manifest`: the listed shards must be the round-robin slices. */
  method MakeManifest(tools: Tools, source: Source, diffSha: string, candidates: seq<Candidate>, listed: seq<seq<Candidate>>)
    returns (r: Result<Manifest, string>)
    ensures r.Ok? <==> Freezable(source, candidates, listed)
    ensures r.Ok? ==> r.value == Frozen(tools, source, diffSha, candidates, |listed|)
    ensures r.Ok? ==>
              && r.value.source == source && r.value.diffSha == diffSha && r.value.candidates == candidates
              && r.value.candidatesDigest == tools.digest(candidates) && |r.value.shards| == |listed|
              && r.value.checksum == tools.payload(source, diffSha, candidates, r.value.candidatesDigest, r.value.shards)
              && forall i :: 0 <= i < |listed| ==>
                   && r.value.shards[i].shard == Label(i, |listed|) && r.value.shards[i].candidates == listed[i]
                   && r.value.shards[i].digest == tools.digest(listed[i])
  {
    if !source.wellFormed {
      return Err("invalid source snapshot");
    }
    var expected := CandidateMap(candidates);
    if expected.Err? {
      return Err(expected.error);
    }
    if candidates == [] {
      return Err("final campaign must have candidates");
    }
    for k := 0 to |candidates|
      invariant forall a :: 0 <= a < k ==> candidates[a].pkg in source.packages
    {
      if candidates[k].pkg !in source.packages {
        return Err("candidate package is outside frozen workspace");
      }
    }
    if !(1 <= |listed| <= |candidates|) {
      return Err("invalid shard count or empty shard");
    }
    var count := |listed|;
    var assignments: seq<Assignment> := [];
    for index := 0 to count
      invariant assignments == Assigned(tools, candidates, count)[..index]
      invariant forall i :: 0 <= i < index ==> listed[i] == Stride(candidates, i, count)
    {
      var actual := listed[index];
      var checked := CandidateMap(actual);
      StridesUnique(candidates, count, index);
      if checked.Err? {
        return Err(checked.error);
      }
      if actual != Stride(candidates, index, count) {
        return Err("cargo-mutants assignment differs from round-robin shard");
      }
      assignments := assignments + [Assignment(Label(index, count), actual, tools.digest(actual))];
    }
    assert assignments == Assigned(tools, candidates, count);
    var d := tools.digest(candidates);
    r := Ok(Manifest(source, diffSha, candidates, d, assignments, tools.payload(source, diffSha, candidates, d, assignments)));
  }

  function Listed(m: Manifest): (listed: seq<seq<Candidate>>)
    ensures |listed| == |m.shards|
  {
    seq(|m.shards|, k requires 0 <= k < |m.shards| => m.shards[k].candidates)
  }

  /** A manifest that could have been made. */
  ghost predicate ValidManifest(tools: Tools, m: Manifest) {
    Freezable(m.source, m.candidates, Listed(m)) && m == Frozen(tools, m.source, m.diffSha, m.candidates, |m.shards|)
  }

  /** `validate_manifest`: accepts exactly the manifests that rebuild to themselves. */
  method ValidateManifest(tools: Tools, m: Manifest) returns (r: Result<seq<Assignment>, string>)
    ensures r.Ok? <==> ValidManifest(tools, m)
    ensures r.Ok? ==> r.value == m.shards
  {
    if m.checksum != tools.payload(m.source, m.diffSha, m.candidates, m.candidatesDigest, m.shards) {
      return Err("manifest checksum mismatch");
    }
    if m.shards == [] {
      return Err("missing shard assignments");
    }
    var rebuilt := MakeManifest(tools, m.source, m.diffSha, m.candidates, Listed(m));
    if rebuilt.Err? {
      return Err(rebuilt.error);
    }
    if rebuilt.value != m {
      return Err("campaign candidate or assignment metadata mismatch");
    }
    r := Ok(m.shards);
  }

  /** What is made validates: `make_manifest` and `validate_manifest` agree. */
  lemma MadeValidates(tools: Tools, source: Source, diffSha: string, candidates: seq<Candidate>, listed: seq<seq<Candidate>>)
    requires Freezable(source, candidates, listed)
    ensures ValidManifest(tools, Frozen(tools, source, diffSha, candidates, |listed|))
  {
    var m := Frozen(tools, source, diffSha, candidates, |listed|);
    assert Listed(m) == listed;
  }

  /** Every candidate is assigned to exactly one shard, the one of its remainder. */
  lemma AssignedOnce(tools: Tools, m: Manifest, k: nat, i: nat)
    requires ValidManifest(tools, m) && k < |m.candidates| && i < |m.shards|
    ensures m.candidates[k].name in Names(m.shards[i].candidates) <==> i == k % |m.shards|
  {
    var n := |m.shards|;
    Owner(m.candidates, n, k);
    assert Names(Stride(m.candidates, k % n, n))[k / n] == m.candidates[k].name;
    if m.candidates[k].name in Names(m.shards[i].candidates) {
      StridesDisjoint(m.candidates, n, i, k % n, m.candidates[k].name);
    }
  }

  // ------------------------------------------------------------------------ plans

  /**
   The leaf check of `check_plans`, for any parent shard and fanout: once both manifests
   validate over the same candidates, the nested assignment never differs from the parent's,
   leaves never overlap, and their union has no holes.
   */
  method CheckLeaves(tools: Tools, original: Manifest, nested: Manifest, parentIndex: nat, fanout: nat)
    returns (r: Result<(), string>)
    requires ValidManifest(tools, original) && ValidManifest(tools, nested) && nested.candidates == original.candidates
    requires parentIndex < |original.shards| && fanout > 0 && |nested.shards| == |original.shards| * fanout
    ensures r == Ok(())
  {
    hide ValidManifest;
    var n := |original.shards|;
    ShardSlices(tools, original);
    ShardSlices(tools, nested);
    var parent := original.shards[parentIndex].candidates;
    var leaves := PartitionLabels(parentIndex, n, fanout);
    StridesUnique(original.candidates, n, parentIndex);
    var seen: set<string> := {};
    for part := 0 to fanout
      invariant forall x :: x in seen <==> InLeaves(parent, fanout, part, x)
    {
      LeafLabels(parentIndex, n, fanout, part);
      LeavesPartitionParent(original.candidates, parentIndex, n, fanout, part);
      var values := nested.shards[leaves[part].index].candidates;
      if values != Stride(parent, part, fanout) {
        return Err("nested CLI assignment differs from parent partition");
      }
      StridesUnique(parent, fanout, part);
      var names := CandidateMap(values);
      if names.Err? {
        return Err("duplicate candidate");
      }
      if seen * names.value.Keys != {} {
        var x :| x in seen && x in names.value.Keys;
        var q :| 0 <= q < part && x in Names(Stride(parent, q, fanout));
        StridesDisjoint(parent, fanout, q, part, x);
        return Err("nested leaves overlap");
      }
      seen := seen + names.value.Keys;
    }
    var all := CandidateMap(parent);
    if all.Err? {
      return Err("duplicate candidate");
    }
    LeavesCover(parent, fanout);
    if seen != all.value.Keys {
      return Err("nested union has holes");
    }
    r := Ok(());
  }

  lemma ShardSlices(tools: Tools, m: Manifest)
    requires ValidManifest(tools, m)
    ensures Unique(m.candidates) && |m.shards| > 0
    ensures forall i :: 0 <= i < |m.shards| ==>
              m.shards[i].shard == Label(i, |m.shards|) && m.shards[i].candidates == Stride(m.candidates, i, |m.shards|)
  {
  }

  /** Whether `x` names a candidate of one of the first `parts` leaves. */
  ghost predicate InLeaves(cs: seq<Candidate>, n: nat, parts: nat, x: string)
    requires n > 0
  {
    exists q :: 0 <= q < parts && x in Names(Stride(cs, q, n))
  }

  lemma LeavesCover(cs: seq<Candidate>, n: nat)
    requires n > 0
    ensures forall x :: InLeaves(cs, n, n, x) <==> x in Names(cs)
  {
    hide InLeaves;
    forall x ensures InLeaves(cs, n, n, x) <==> x in Names(cs) {
      InSomeLeaf(cs, n, x);
    }
  }

  lemma InSomeLeaf(cs: seq<Candidate>, n: nat, x: string)
    requires n > 0
    ensures InLeaves(cs, n, n, x) <==> x in Names(cs)
  {
    if x in Names(cs) {
      var j :| 0 <= j < |cs| && Names(cs)[j] == x;
      Owner(cs, n, j);
      assert Names(Stride(cs, j % n, n))[j / n] == x;
    }
    if InLeaves(cs, n, n, x) {
      var q :| 0 <= q < n && x in Names(Stride(cs, q, n));
      var k :| 0 <= k < |Stride(cs, q, n)| && Names(Stride(cs, q, n))[k] == x;
      Origin(cs, n, q, k);
      assert Names(cs)[q + k * n] == x;
    }
  }
}
