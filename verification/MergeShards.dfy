/** `merge_shards`, statement by statement, against the facts about collected outcomes. */
module MergeShards {
  import opened Wrappers
  import opened Sequences
  import opened Campaign
  import opened Merge
  import opened Outcomes
  import opened Strides

  // --------------------------------------------------------------------- gathering

  // The first `k` results are valid, of different shards, and indexed by shard.
  ghost predicate Gathered(tools: Tools, m: Manifest, results: seq<ShardResult>, k: nat, byShard: map<nat, ShardResult>) {
    && k <= |results|
    && (forall j :: 0 <= j < k ==> ValidResult(tools, m, results[j]) && results[j].shard.index in byShard
                                   && byShard[results[j].shard.index] == results[j])
    && (forall i :: i in byShard ==> i in Indices(results)[..k])
    && Distinct(Indices(results)[..k])
  }

  lemma GatherStep(tools: Tools, m: Manifest, results: seq<ShardResult>, k: nat, byShard: map<nat, ShardResult>)
    requires Gathered(tools, m, results, k, byShard) && k < |results|
    ensures results[k].shard.index in byShard ==> !AllPresent(tools, m, results)
    ensures results[k].shard.index !in byShard && ValidResult(tools, m, results[k]) ==>
              Gathered(tools, m, results, k + 1, byShard[results[k].shard.index := results[k]])
  {
    hide ValidResult;
    var i := results[k].shard.index;
    assert Indices(results)[..k + 1] == Indices(results)[..k] + [i];
    if i in byShard {
      var j :| 0 <= j < k && Indices(results)[j] == i;
      assert Indices(results)[j] == Indices(results)[k];
    } else {
      forall j | 0 <= j < k ensures Indices(results)[j] != i {
        assert results[j].shard.index in byShard;
      }
    }
  }

  lemma GatherEnd(tools: Tools, m: Manifest, results: seq<ShardResult>, byShard: map<nat, ShardResult>)
    requires Gathered(tools, m, results, |results|, byShard) && |results| == |m.shards|
    ensures AllPresent(tools, m, results)
    ensures forall i :: 0 <= i < |m.shards| ==> i in byShard && i in Indices(results) && byShard[i] == ResultOf(results, i)
  {
    hide ValidResult;
    assert Indices(results)[..|results|] == Indices(results);
    ShardsCovered(tools, m, results);
    forall i | 0 <= i < |m.shards| ensures i in byShard && i in Indices(results) && byShard[i] == ResultOf(results, i) {
      var j :| 0 <= j < |results| && results[j] == ResultOf(results, i);
      assert results[j].shard.index in byShard;
    }
  }

  /** The first loop: one valid result per shard. */
  method Gather(tools: Tools, m: Manifest, results: seq<ShardResult>) returns (r: Result<map<nat, ShardResult>, string>)
    requires ValidManifest(tools, m)
    ensures r.Ok? <==> AllPresent(tools, m, results)
    ensures r.Ok? ==> forall i :: 0 <= i < |m.shards| ==>
                        i in r.value && i in Indices(results) && r.value[i] == ResultOf(results, i)
  {
    hide ValidManifest, ValidResult, Gathered, ResultOf;
    if |results| != |m.shards| {
      return Err("missing or extra shard");
    }
    var byShard: map<nat, ShardResult> := map[];
    GatherStart(tools, m, results);
    for k := 0 to |results|
      invariant Gathered(tools, m, results, k, byShard)
    {
      var result := results[k];
      GatherStep(tools, m, results, k, byShard);
      if result.shard.index in byShard {
        return Err("duplicate shard result");
      }
      var valid := ValidateResult(tools, m, result);
      if valid.Err? {
        return Err(valid.error);
      }
      byShard := byShard[result.shard.index := result];
    }
    GatherEnd(tools, m, results, byShard);
    r := Ok(byShard);
  }

  lemma GatherStart(tools: Tools, m: Manifest, results: seq<ShardResult>)
    ensures Gathered(tools, m, results, 0, map[])
  {
  }

  // ---------------------------------------------------------------------- main result

  /**
   Exactly once, in manifest order: row `k` is the outcome of candidate `k`, taken from the
   report of the shard the candidate was assigned to.
   */
  ghost predicate ExactlyOnce(m: Manifest, results: seq<ShardResult>, rows: seq<Row>) {
    && |rows| == |m.candidates| && |m.shards| > 0
    && forall k :: 0 <= k < |rows| ==> RowOf(m, results, rows[k], k)
  }

  ghost predicate RowOf(m: Manifest, results: seq<ShardResult>, row: Row, k: nat)
    requires k < |m.candidates| && |m.shards| > 0
  {
    && row.outcome.Mutation? && row.outcome.mutant == MutantOf(m.candidates[k])
    && row.shard == Label(k % |m.shards|, |m.shards|)
    && k % |m.shards| in Indices(results) && row.outcome in ResultOf(results, k % |m.shards|).report.outcomes
  }

  lemma BelongsExactly(tools: Tools, m: Manifest, results: seq<ShardResult>, row: Row, k: nat)
    requires ValidManifest(tools, m) && k < |m.candidates| && Belongs(m, results, row)
    requires row.outcome.mutant.name == m.candidates[k].name
    ensures |m.shards| > 0 && RowOf(m, results, row, k)
  {
    hide ValidManifest;
    ShardSlices(tools, m);
    var i := row.shard.index;
    var c :| c in m.shards[i].candidates && row.outcome.mutant == MutantOf(c);
    var j :| 0 <= j < |m.shards[i].candidates| && m.shards[i].candidates[j] == c;
    Origin(m.candidates, |m.shards|, i, j);
    var at := i + j * |m.shards|;
    assert m.candidates[at] == c;
    assert Names(m.candidates)[at] == Names(m.candidates)[k];
    assert at == k;
  }

  /** Sorting what was collected puts every candidate's outcome at its own position. */
  lemma SortedExactlyOnce(tools: Tools, m: Manifest, results: seq<ShardResult>, rows: seq<Row>)
    requires ValidManifest(tools, m) && AllBelong(m, results, rows)
    requires (forall k :: 0 <= k < |rows| ==> rows[k].outcome.Mutation?) && Distinct(RowNames(rows))
    requires NameSet(RowNames(rows)) == NameSet(Names(m.candidates))
    ensures AllListed(m.candidates, rows) && ExactlyOnce(m, results, Sorted(m.candidates, rows))
  {
    hide ValidManifest, Belongs, Distinct, Sorted, Ordered, RowOf;
    forall k | 0 <= k < |rows| ensures Merge.Listed(m.candidates, rows[k]) {
      assert RowNames(rows)[k] in NameSet(RowNames(rows));
    }
    var sorted := Sorted(m.candidates, rows);
    SortedKeeps(m.candidates, rows, Caught);
    PermutedNames(rows, sorted);
    ShardSlices(tools, m);
    OrderedFollows(m.candidates, sorted);
    forall k | 0 <= k < |sorted| ensures RowOf(m, results, sorted[k], k) {
      assert sorted[k] in multiset(rows);
      BelongsExactly(tools, m, results, sorted[k], k);
    }
  }

  /** The earliest start and the latest end among the reports. */
  ghost predicate Spans(results: seq<ShardResult>, start: int, end: int) {
    && (forall k :: 0 <= k < |results| ==> start <= results[k].report.start && results[k].report.end <= end)
    && (exists k :: 0 <= k < |results| && results[k].report.start == start)
    && (exists k :: 0 <= k < |results| && results[k].report.end == end)
  }

  method Span(results: seq<ShardResult>) returns (start: int, end: int)
    requires results != []
    ensures Spans(results, start, end)
  {
    start, end := results[0].report.start, results[0].report.end;
    ghost var first, last := 0, 0;
    for k := 1 to |results|
      invariant forall j :: 0 <= j < k ==> start <= results[j].report.start && results[j].report.end <= end
      invariant 0 <= first < k && results[first].report.start == start
      invariant 0 <= last < k && results[last].report.end == end
    {
      if results[k].report.start < start {
        start := results[k].report.start;
        first := k;
      }
      if results[k].report.end > end {
        end := results[k].report.end;
        last := k;
      }
    }
  }

  /** The true totals of a merge: all candidates, and per summary the sum over the shards. */
  ghost predicate TrueCounts(m: Manifest, results: seq<ShardResult>, merged: Merged) {
    var n := |m.shards|;
    && (forall i :: 0 <= i < n ==> i in Indices(results))
    && merged.total == |m.candidates|
    && merged.caught == SumDeclared(results, n, Caught) && merged.missed == SumDeclared(results, n, Missed)
    && merged.timeout == SumDeclared(results, n, Timeout) && merged.unviable == SumDeclared(results, n, Unviable)
  }

  /** The second loop: outcomes and baselines in assignment order; no name can repeat. */
  method CollectAll(tools: Tools, m: Manifest, results: seq<ShardResult>, byShard: map<nat, ShardResult>)
    returns (r: Result<(seq<Row>, seq<Row>, set<string>), string>)
    requires ValidManifest(tools, m) && AllPresent(tools, m, results)
    requires forall i :: 0 <= i < |m.shards| ==> i in byShard && i in Indices(results) && byShard[i] == ResultOf(results, i)
    ensures r.Ok? && r.value.0 == CollectedBaselines(results, |m.shards|, |m.shards|)
    ensures r.value.1 == Collected(results, |m.shards|, |m.shards|)
    ensures (forall k :: 0 <= k < |r.value.1| ==> r.value.1[k].outcome.Mutation?) && r.value.2 == NameSet(RowNames(r.value.1))
  {
    hide ValidManifest, AllPresent, AllBelong, NamesOfShards, NameSet, Distinct, Indices, Mutations, Baselines, ResultOf,
         Tagged, MutantNames, RowNames;
    var baselines: seq<Row> := [];
    var mutations: seq<Row> := [];
    var seen: set<string> := {};
    CollectedFacts(tools, m, results, 0);
    NothingSeen();
    for i := 0 to |m.shards|
      invariant baselines == CollectedBaselines(results, |m.shards|, i) && mutations == Collected(results, |m.shards|, i)
      invariant forall k :: 0 <= k < |mutations| ==> mutations[k].outcome.Mutation?
      invariant seen == NameSet(RowNames(mutations))
    {
      var report := byShard[i].report;
      CollectedFacts(tools, m, results, i);
      CollectedFacts(tools, m, results, i + 1);
      ShardNames(tools, m, results, i);
      var ms := Mutations(report.outcomes);
      BelongConcat(m, results, mutations, []);
      AppendedNames(mutations, ms, Label(i, |m.shards|));
      NewShard(tools, m, i, RowNames(mutations), MutantNames(ms));
      NameSetConcat(RowNames(mutations), MutantNames(ms));
      baselines := baselines + Tagged(Baselines(report.outcomes), Label(i, |m.shards|));
      var ok: bool;
      ok, mutations, seen := AppendShard(mutations, seen, ms, Label(i, |m.shards|));
      if !ok {
        return Err("candidate appears in more than one shard");
      }
    }
    r := Ok((baselines, mutations, seen));
  }

  lemma NothingSeen()
    ensures NameSet(RowNames([])) == {}
  {
  }

  lemma NameSetConcat(a: seq<string>, b: seq<string>)
    ensures NameSet(a + b) == NameSet(a) + NameSet(b)
  {
  }

  /**
   `merge_shards` for ordinary results: it succeeds exactly when the manifest is valid and
   each shard has one valid result; then the merged report holds every candidate exactly
   once, in manifest order, with true totals and all baselines.
   */
  method MergeResults(tools: Tools, m: Manifest, results: seq<ShardResult>) returns (r: Result<Merged, string>)
    ensures r.Ok? <==> ValidManifest(tools, m) && AllPresent(tools, m, results)
    ensures r.Ok? ==> ExactlyOnce(m, results, r.value.mutations) && TrueCounts(m, results, r.value)
    ensures r.Ok? ==>
              var ms := RowOutcomes(r.value.mutations);
              && r.value.total == |ms| && r.value.caught == |PlacesOf(ms, Caught)| && r.value.missed == |PlacesOf(ms, Missed)|
              && r.value.timeout == |PlacesOf(ms, Timeout)| && r.value.unviable == |PlacesOf(ms, Unviable)|
    ensures r.Ok? ==> Spans(results, r.value.start, r.value.end)
    ensures r.Ok? ==> && |r.value.baselines| == |m.shards| > 0 && r.value.baseline == r.value.baselines[0]
                      && forall i :: 0 <= i < |m.shards| ==>
                           && i in Indices(results) && r.value.baselines[i].shard == Label(i, |m.shards|)
                           && [r.value.baselines[i].outcome] == Baselines(ResultOf(results, i).report.outcomes)
  {
    hide ValidManifest, AllPresent, ExactlyOnce, Collected, AllBelong, NamesOfShards, NameSet, Distinct, SumDeclared, Spans,
         Indices, ResultOf, Sorted, RowNames, CollectedBaselines, Baselines, Count, RowOutcomes, PlacesOf;
    var assignments := ValidateManifest(tools, m);
    if assignments.Err? {
      return Err(assignments.error);
    }
    var byShard := Gather(tools, m, results);
    if byShard.Err? {
      return Err(byShard.error);
    }
    var collected := CollectAll(tools, m, results, byShard.value);
    if collected.Err? {
      return Err("candidate appears in more than one shard");
    }
    var (baselines, mutations, seen) := collected.value;
    CollectedFacts(tools, m, results, |m.shards|);
    AllNames(tools, m, seen);
    var expected := CandidateMap(m.candidates);
    ShardSlices(tools, m);
    if expected.Err? || seen != expected.value.Keys {
      return Err("candidate union has holes");
    }
    SortedExactlyOnce(tools, m, results, mutations);
    var sorted := Sorted(m.candidates, mutations);
    SortedCounts(tools, m, results, mutations);
    ManyResults(tools, m, results);
    var start, end := Span(results);
    BaselineRows(tools, m, results, |m.shards|);
    r := Ok(Merged(baselines[0], sorted, |sorted|, Count(RowOutcomes(sorted), Caught), Count(RowOutcomes(sorted), Missed),
                   Count(RowOutcomes(sorted), Timeout), Count(RowOutcomes(sorted), Unviable), start, end, baselines));
    SortedLength(m, results, sorted);
    CountIsCardinality(RowOutcomes(sorted), Caught);
    CountIsCardinality(RowOutcomes(sorted), Missed);
    CountIsCardinality(RowOutcomes(sorted), Timeout);
    CountIsCardinality(RowOutcomes(sorted), Unviable);
  }

  lemma SortedLength(m: Manifest, results: seq<ShardResult>, rows: seq<Row>)
    requires ExactlyOnce(m, results, rows)
    ensures |rows| == |m.candidates|
  {
  }

  lemma ManyResults(tools: Tools, m: Manifest, results: seq<ShardResult>)
    requires AllPresent(tools, m, results)
    ensures |results| == |m.shards|
  {
  }

  lemma SortedCounts(tools: Tools, m: Manifest, results: seq<ShardResult>, rows: seq<Row>)
    requires AllPresent(tools, m, results) && AllListed(m.candidates, rows)
    requires forall i :: 0 <= i < |m.shards| ==> i in Indices(results)
    requires rows == Collected(results, |m.shards|, |m.shards|)
    ensures forall s :: Counted(s) ==>
              Count(RowOutcomes(Sorted(m.candidates, rows)), s) == SumDeclared(results, |m.shards|, s)
  {
    hide AllPresent, Sorted, SumDeclared, Collected, Count, RowOutcomes, Indices;
    forall s | Counted(s)
      ensures Count(RowOutcomes(Sorted(m.candidates, rows)), s) == SumDeclared(results, |m.shards|, s)
    {
      SortedKeeps(m.candidates, rows, s);
      CollectedCounts(tools, m, results, |m.shards|, s);
    }
  }

  /** Each shard contributes its one baseline. */
  lemma {:induction false} BaselineRows(tools: Tools, m: Manifest, results: seq<ShardResult>, n: nat)
    requires AllPresent(tools, m, results) && n <= |m.shards|
    ensures forall i :: 0 <= i < n ==> i in Indices(results)
    ensures var rows := CollectedBaselines(results, |m.shards|, n);
            |rows| == n && forall i :: 0 <= i < n ==>
              && rows[i].shard == Label(i, |m.shards|)
              && [rows[i].outcome] == Baselines(ResultOf(results, i).report.outcomes)
    decreases n
  {
    hide AllPresent, Indices, ResultOf, Baselines, ValidResult;
    ShardsCovered(tools, m, results);
    if n > 0 {
      BaselineRows(tools, m, results, n - 1);
      OneBaseline(tools, m, ResultOf(results, n - 1));
      var bs := Baselines(ResultOf(results, n - 1).report.outcomes);
      assert Tagged(bs, Label(n - 1, |m.shards|)) == [Row(bs[0], Label(n - 1, |m.shards|))];
    }
  }

  lemma OneBaseline(tools: Tools, m: Manifest, r: ShardResult)
    requires ValidResult(tools, m, r)
    ensures |Baselines(r.report.outcomes)| == 1
  {
  }
}
