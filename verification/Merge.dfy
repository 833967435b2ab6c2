/**
 Merging the sealed shard results of a campaign: exactly one outcome per candidate, in
 manifest order, with counts that add up. Once each result is valid, the merge's own
 checks for repeated candidates and holes cannot fail.
 */
module Merge {
  import opened Wrappers
  import opened Sequences
  import opened Campaign
  import opened Outcomes
  import opened Strides

  /** A format-1 seal. */
  datatype ShardResult = ShardResult(
    shard: Label, manifestChecksum: nat, source: Source, candidates: seq<Candidate>, report: Report, reportDigest: nat)

  /** A merged outcome, tagged with the shard it came from. */
  datatype Row = Row(outcome: Outcome, shard: Label)

  datatype Merged = Merged(
    baseline: Row, mutations: seq<Row>, total: nat, caught: nat, missed: nat, timeout: nat, unviable: nat,
    start: int, end: int, baselines: seq<Row>)

  // --------------------------------------------------------------------- one result

  predicate IsLabel(m: Manifest, l: Label) {
    l.count == |m.shards| && l.index < l.count
  }

  /** The seals `validate_v1_result` accepts. */
  ghost predicate ValidResult(tools: Tools, m: Manifest, r: ShardResult) {
    && IsLabel(m, r.shard) && r.manifestChecksum == m.checksum && r.source == m.source
    && r.candidates == m.shards[r.shard.index].candidates
    && r.reportDigest == tools.report(r.report) && Complete(tools, r.report, r.candidates)
  }

  method ValidateResult(tools: Tools, m: Manifest, r: ShardResult) returns (v: Result<(Outcome, seq<Outcome>), string>)
    requires ValidManifest(tools, m)
    ensures v.Ok? <==> ValidResult(tools, m, r)
    ensures v.Ok? ==> [v.value.0] == Baselines(r.report.outcomes) && v.value.1 == Mutations(r.report.outcomes)
  {
    hide Complete, ValidManifest;
    if !IsLabel(m, r.shard) {
      return Err("unexpected shard index");
    }
    if r.manifestChecksum != m.checksum {
      return Err("shard belongs to another candidate manifest");
    }
    if r.source != m.source {
      return Err("shard sources differ");
    }
    if r.candidates != m.shards[r.shard.index].candidates {
      return Err("shard assignment mismatch");
    }
    if r.reportDigest != tools.report(r.report) {
      return Err("shard outcome checksum mismatch");
    }
    v := ValidateOutcomes(tools, r.report, r.candidates);
  }

  // ---------------------------------------------------------------- all the results

  function Indices(results: seq<ShardResult>): (ids: seq<nat>)
    ensures |ids| == |results|
  {
    seq(|results|, k requires 0 <= k < |results| => results[k].shard.index)
  }

  /** One valid result for each shard, in any order. */
  ghost predicate AllPresent(tools: Tools, m: Manifest, results: seq<ShardResult>) {
    && |results| == |m.shards| && Distinct(Indices(results))
    && forall k :: 0 <= k < |results| ==> ValidResult(tools, m, results[k])
  }

  /** The result of shard `i`. */
  function ResultOf(results: seq<ShardResult>, i: nat): (r: ShardResult)
    requires i in Indices(results)
    ensures r in results && r.shard.index == i
  {
    if results[0].shard.index == i then results[0]
    else
      RestHas(results, i);
      ResultOf(results[1..], i)
  }

  lemma RestHas(results: seq<ShardResult>, i: nat)
    requires i in Indices(results) && results[0].shard.index != i
    ensures i in Indices(results[1..])
  {
    var k :| 0 <= k < |results| && Indices(results)[k] == i;
    assert Indices(results[1..])[k - 1] == i;
  }

  lemma ShardsCovered(tools: Tools, m: Manifest, results: seq<ShardResult>)
    requires AllPresent(tools, m, results)
    ensures forall i :: 0 <= i < |m.shards| ==> i in Indices(results) && ValidResult(tools, m, ResultOf(results, i))
  {
    hide ValidResult;
    forall k | 0 <= k < |results| ensures Indices(results)[k] < |m.shards| {
      LabelInRange(tools, m, results[k]);
    }
    Pigeonhole(Indices(results), |m.shards|);
  }

  lemma LabelInRange(tools: Tools, m: Manifest, r: ShardResult)
    requires ValidResult(tools, m, r)
    ensures r.shard.index < |m.shards| && r.shard == Label(r.shard.index, |m.shards|)
  {
  }

  // -------------------------------------------------------------------- collecting

  function Tagged(ms: seq<Outcome>, shard: Label): (rows: seq<Row>)
    ensures |rows| == |ms|
  {
    seq(|ms|, k requires 0 <= k < |ms| => Row(ms[k], shard))
  }

  /** The mutant outcomes of the first `n` shards, shard by shard. */
  function Collected(results: seq<ShardResult>, count: nat, n: nat): (rows: seq<Row>)
    requires forall i :: 0 <= i < n ==> i in Indices(results)
  {
    if n == 0 then []
    else Collected(results, count, n - 1) + Tagged(Mutations(ResultOf(results, n - 1).report.outcomes), Label(n - 1, count))
  }

  function CollectedBaselines(results: seq<ShardResult>, count: nat, n: nat): (rows: seq<Row>)
    requires forall i :: 0 <= i < n ==> i in Indices(results)
  {
    if n == 0 then []
    else CollectedBaselines(results, count, n - 1)
         + Tagged(Baselines(ResultOf(results, n - 1).report.outcomes), Label(n - 1, count))
  }

  /** A row belongs: its mutant is a candidate of its shard, and it is in that shard's report. */
  ghost predicate Belongs(m: Manifest, results: seq<ShardResult>, row: Row) {
    && IsLabel(m, row.shard) && row.outcome.Mutation?
    && row.shard.index in Indices(results) && row.outcome in ResultOf(results, row.shard.index).report.outcomes
    && exists c :: c in m.shards[row.shard.index].candidates && row.outcome.mutant == MutantOf(c)
  }

  function RowNames(rows: seq<Row>): (names: seq<string>)
    requires forall k :: 0 <= k < |rows| ==> rows[k].outcome.Mutation?
    ensures |names| == |rows|
  {
    seq(|rows|, k requires 0 <= k < |rows| => rows[k].outcome.mutant.name)
  }

  function RowOutcomes(rows: seq<Row>): (ms: seq<Outcome>)
    ensures |ms| == |rows|
  {
    seq(|rows|, k requires 0 <= k < |rows| => rows[k].outcome)
  }

  ghost predicate AllBelong(m: Manifest, results: seq<ShardResult>, rows: seq<Row>) {
    forall k :: 0 <= k < |rows| ==> Belongs(m, results, rows[k])
  }

  lemma CompleteMutants(tools: Tools, m: Manifest, results: seq<ShardResult>, i: nat, k: nat)
    requires ValidManifest(tools, m) && AllPresent(tools, m, results) && i < |m.shards|
    requires i in Indices(results) && k < |Mutations(ResultOf(results, i).report.outcomes)|
    ensures Belongs(m, results, Row(Mutations(ResultOf(results, i).report.outcomes)[k], Label(i, |m.shards|)))
  {
    hide ValidManifest;
    ShardsCovered(tools, m, results);
    var r := ResultOf(results, i);
    var o := Mutations(r.report.outcomes)[k];
    var j :| 0 <= j < |r.report.outcomes| && r.report.outcomes[j] == o;
    assert Acceptable(tools, r.candidates, r.report.outcomes[j]);
    var a :| 0 <= a < |r.candidates| && o.mutant == MutantOf(r.candidates[a]);
    assert r.candidates[a] in m.shards[i].candidates;
  }

  /** Names seen in the first `n` shards: all of theirs, and no others. */
  ghost predicate NamesOfShards(m: Manifest, n: nat, names: set<string>)
    requires n <= |m.shards|
  {
    forall x :: x in names <==> exists i :: 0 <= i < n && x in Names(m.shards[i].candidates)
  }

  lemma ShardNames(tools: Tools, m: Manifest, results: seq<ShardResult>, i: nat)
    requires AllPresent(tools, m, results) && i < |m.shards|
    ensures i in Indices(results)
    ensures var ms := Mutations(ResultOf(results, i).report.outcomes);
            && Distinct(MutantNames(ms)) && NameSet(MutantNames(ms)) == NameSet(Names(m.shards[i].candidates))
  {
    ShardsCovered(tools, m, results);
  }

  lemma NewName(tools: Tools, m: Manifest, n: nat, names: set<string>, x: string)
    requires ValidManifest(tools, m) && n < |m.shards| && NamesOfShards(m, n, names)
    requires x in Names(m.shards[n].candidates)
    ensures x !in names
  {
    hide ValidManifest;
    ShardSlices(tools, m);
    if x in names {
      var i :| 0 <= i < n && x in Names(m.shards[i].candidates);
      StridesDisjoint(m.candidates, |m.shards|, i, n, x);
    }
  }

  lemma AllNames(tools: Tools, m: Manifest, names: set<string>)
    requires ValidManifest(tools, m) && NamesOfShards(m, |m.shards|, names)
    ensures names == NameSet(Names(m.candidates))
  {
    hide ValidManifest;
    ShardSlices(tools, m);
    LeavesCover(m.candidates, |m.shards|);
    forall x ensures x in names <==> x in Names(m.candidates) {
      assert InLeaves(m.candidates, |m.shards|, |m.shards|, x) <==> x in Names(m.candidates);
    }
  }

  /** What the first `n` shards contribute: rows that belong, each name once, all of theirs. */
  lemma {:induction false} CollectedFacts(tools: Tools, m: Manifest, results: seq<ShardResult>, n: nat)
    requires ValidManifest(tools, m) && AllPresent(tools, m, results) && n <= |m.shards|
    ensures forall i :: 0 <= i < n ==> i in Indices(results)
    ensures var rows := Collected(results, |m.shards|, n);
            && AllBelong(m, results, rows) && Distinct(RowNames(rows)) && NamesOfShards(m, n, NameSet(RowNames(rows)))
    decreases n
  {
    hide ValidManifest, AllPresent, AllBelong, Belongs, Distinct, NameSet, NamesOfShards, ResultOf, Mutations, Tagged,
         MutantNames, Indices, RowNames;
    ShardsCovered(tools, m, results);
    if n == 0 {
      NothingCollected(m, results);
    } else {
      CollectedFacts(tools, m, results, n - 1);
      var ms := Mutations(ResultOf(results, n - 1).report.outcomes);
      ShardNames(tools, m, results, n - 1);
      ShardBelongs(tools, m, results, n - 1);
      var before := Collected(results, |m.shards|, n - 1);
      BelongConcat(m, results, before, Tagged(ms, Label(n - 1, |m.shards|)));
      AppendedNames(before, ms, Label(n - 1, |m.shards|));
      NewShard(tools, m, n - 1, RowNames(before), MutantNames(ms));
    }
  }

  lemma ShardBelongs(tools: Tools, m: Manifest, results: seq<ShardResult>, i: nat)
    requires ValidManifest(tools, m) && AllPresent(tools, m, results) && i < |m.shards| && i in Indices(results)
    ensures AllBelong(m, results, Tagged(Mutations(ResultOf(results, i).report.outcomes), Label(i, |m.shards|)))
  {
    hide ValidManifest, AllPresent, Belongs, ResultOf, Mutations;
    var ms := Mutations(ResultOf(results, i).report.outcomes);
    var rows := Tagged(ms, Label(i, |m.shards|));
    forall k | 0 <= k < |rows| ensures Belongs(m, results, rows[k]) {
      CompleteMutants(tools, m, results, i, k);
    }
  }

  lemma AppendedNames(rows: seq<Row>, ms: seq<Outcome>, shard: Label)
    requires (forall k :: 0 <= k < |rows| ==> rows[k].outcome.Mutation?) && forall k :: 0 <= k < |ms| ==> ms[k].Mutation?
    ensures forall k :: 0 <= k < |rows + Tagged(ms, shard)| ==> (rows + Tagged(ms, shard))[k].outcome.Mutation?
    ensures RowNames(rows + Tagged(ms, shard)) == RowNames(rows) + MutantNames(ms)
  {
  }

  lemma BelongConcat(m: Manifest, results: seq<ShardResult>, a: seq<Row>, b: seq<Row>)
    requires AllBelong(m, results, a) && AllBelong(m, results, b)
    ensures AllBelong(m, results, a + b)
    ensures forall k :: 0 <= k < |a| ==> a[k].outcome.Mutation?
    ensures forall k :: 0 <= k < |a + b| ==> (a + b)[k].outcome.Mutation?
  {
    forall k | 0 <= k < |a| ensures a[k].outcome.Mutation? {
      assert Belongs(m, results, a[k]);
    }
    forall k | 0 <= k < |b| ensures b[k].outcome.Mutation? {
      assert Belongs(m, results, b[k]);
    }
  }

  lemma NothingCollected(m: Manifest, results: seq<ShardResult>)
    ensures AllBelong(m, results, [])
    ensures Distinct(RowNames([])) && NamesOfShards(m, 0, NameSet(RowNames([])))
  {
  }

  lemma NewShard(tools: Tools, m: Manifest, n: nat, before: seq<string>, added: seq<string>)
    requires ValidManifest(tools, m) && n < |m.shards| && Distinct(before) && NamesOfShards(m, n, NameSet(before))
    requires Distinct(added) && NameSet(added) == NameSet(Names(m.shards[n].candidates))
    ensures Distinct(before + added) && NamesOfShards(m, n + 1, NameSet(before + added))
    ensures NameSet(before) !! NameSet(added)
  {
    hide ValidManifest;
    forall x | x in added ensures x !in before {
      assert x in NameSet(added);
      NewName(tools, m, n, NameSet(before), x);
      assert x !in NameSet(before);
    }
    forall i, j | 0 <= i < j < |before + added| ensures (before + added)[i] != (before + added)[j] {
      if i < |before| && j >= |before| {
        assert (before + added)[j] in added;
      }
    }
    forall x ensures x in NameSet(before + added) <==> x in NameSet(before) || x in NameSet(added) {
    }
    forall x ensures x in NameSet(before + added) <==> exists i :: 0 <= i < n + 1 && x in Names(m.shards[i].candidates) {
      assert x in NameSet(added) <==> x in Names(m.shards[n].candidates);
    }
  }

  /** One shard's outcomes: refuses a name that was seen before. */
  method AppendShard(rows: seq<Row>, seen: set<string>, ms: seq<Outcome>, shard: Label)
    returns (ok: bool, rows': seq<Row>, seen': set<string>)
    requires (forall k :: 0 <= k < |ms| ==> ms[k].Mutation?) && Distinct(MutantNames(ms))
    ensures ok <==> seen !! NameSet(MutantNames(ms))
    ensures ok ==> rows' == rows + Tagged(ms, shard) && seen' == seen + NameSet(MutantNames(ms))
  {
    rows', seen' := rows, seen;
    for k := 0 to |ms|
      invariant rows' == rows + Tagged(ms, shard)[..k] && seen' == seen + NameSet(MutantNames(ms)[..k])
      invariant forall a :: 0 <= a < k ==> ms[a].mutant.name !in seen
    {
      var name := ms[k].mutant.name;
      assert MutantNames(ms)[k] == name && name in NameSet(MutantNames(ms));
      if name in seen' {
        assert name !in MutantNames(ms)[..k];
        return false, rows', seen';
      }
      assert MutantNames(ms)[..k + 1] == MutantNames(ms)[..k] + [name];
      assert NameSet(MutantNames(ms)[..k + 1]) == NameSet(MutantNames(ms)[..k]) + {name};
      seen' := seen' + {name};
      rows' := rows' + [Row(ms[k], shard)];
    }
    assert MutantNames(ms)[..|ms|] == MutantNames(ms);
    forall x | x in NameSet(MutantNames(ms)) ensures x !in seen {
      var a :| 0 <= a < |ms| && MutantNames(ms)[a] == x;
    }
    ok := true;
  }

  // ---------------------------------------------------------------------- ordering

  /** The position of a name in the manifest. */
  function Position(cs: seq<Candidate>, name: string): (p: nat)
    requires name in Names(cs)
    ensures p < |cs| && cs[p].name == name
  {
    if cs[0].name == name then 0
    else
      NameInRest(cs, name);
      1 + Position(cs[1..], name)
  }

  lemma NameInRest(cs: seq<Candidate>, name: string)
    requires name in Names(cs) && cs[0].name != name
    ensures name in Names(cs[1..])
  {
    var k :| 0 <= k < |cs| && Names(cs)[k] == name;
    assert Names(cs[1..])[k - 1] == name;
  }

  predicate Listed(cs: seq<Candidate>, row: Row) {
    row.outcome.Mutation? && row.outcome.mutant.name in Names(cs)
  }

  predicate AllListed(cs: seq<Candidate>, rows: seq<Row>) {
    forall k :: 0 <= k < |rows| ==> Listed(cs, rows[k])
  }

  function Key(cs: seq<Candidate>, row: Row): nat
    requires Listed(cs, row)
  {
    Position(cs, row.outcome.mutant.name)
  }

  function Insert(cs: seq<Candidate>, row: Row, rows: seq<Row>): (r: seq<Row>)
    requires Listed(cs, row) && AllListed(cs, rows)
    ensures |r| == |rows| + 1 && AllListed(cs, r)
    decreases |rows|
  {
    if rows == [] then [row]
    else
      var last := rows[|rows| - 1];
      if Key(cs, row) >= Key(cs, last) then rows + [row] else Insert(cs, row, rows[..|rows| - 1]) + [last]
  }

  /** `mutations.sort` by manifest position: a stable sort. */
  function Sorted(cs: seq<Candidate>, rows: seq<Row>): (r: seq<Row>)
    requires AllListed(cs, rows)
    ensures |r| == |rows| && AllListed(cs, r)
    decreases |rows|
  {
    if rows == [] then [] else Insert(cs, rows[|rows| - 1], Sorted(cs, rows[..|rows| - 1]))
  }

  ghost predicate Ordered(cs: seq<Candidate>, rows: seq<Row>)
    requires AllListed(cs, rows)
  {
    forall i, j :: 0 <= i < j < |rows| ==> Key(cs, rows[i]) <= Key(cs, rows[j])
  }

  lemma {:induction false} InsertOrdered(cs: seq<Candidate>, row: Row, rows: seq<Row>)
    requires Listed(cs, row) && AllListed(cs, rows) && Ordered(cs, rows)
    ensures Ordered(cs, Insert(cs, row, rows)) && multiset(Insert(cs, row, rows)) == multiset(rows) + multiset{row}
    decreases |rows|
  {
    hide Key;
    if rows != [] {
      var front, last := rows[..|rows| - 1], rows[|rows| - 1];
      assert rows == front + [last];
      if Key(cs, row) < Key(cs, last) {
        InsertOrdered(cs, row, front);
        var inner := Insert(cs, row, front);
        forall i | 0 <= i < |inner| ensures Key(cs, inner[i]) <= Key(cs, last) {
          assert inner[i] in multiset(inner);
          assert inner[i] == row || inner[i] in front;
        }
      }
    }
  }

  lemma {:induction false} InsertCounts(cs: seq<Candidate>, row: Row, rows: seq<Row>, s: Summary)
    requires Listed(cs, row) && AllListed(cs, rows)
    ensures Count(RowOutcomes(Insert(cs, row, rows)), s)
            == Count(RowOutcomes(rows), s) + if row.outcome.summary == s then 1 else 0
    decreases |rows|
  {
    hide Key;
    if rows == [] {
      CountPush([], row, s);
    } else {
      var front, last := rows[..|rows| - 1], rows[|rows| - 1];
      assert rows == front + [last];
      CountPush(front, last, s);
      if Key(cs, row) >= Key(cs, last) {
        CountPush(rows, row, s);
      } else {
        InsertCounts(cs, row, front, s);
        CountPush(Insert(cs, row, front), last, s);
      }
    }
  }

  lemma CountPush(rows: seq<Row>, row: Row, s: Summary)
    ensures Count(RowOutcomes(rows + [row]), s) == Count(RowOutcomes(rows), s) + if row.outcome.summary == s then 1 else 0
  {
    assert RowOutcomes(rows + [row])[..|rows|] == RowOutcomes(rows);
  }

  lemma {:induction false} SortedKeeps(cs: seq<Candidate>, rows: seq<Row>, s: Summary)
    requires AllListed(cs, rows)
    ensures var r := Sorted(cs, rows);
            Ordered(cs, r) && multiset(r) == multiset(rows) && Count(RowOutcomes(r), s) == Count(RowOutcomes(rows), s)
    decreases |rows|
  {
    hide Key, Ordered;
    if rows == [] {
      OrderedNothing(cs);
    } else {
      var front, last := rows[..|rows| - 1], rows[|rows| - 1];
      assert rows == front + [last];
      SortedKeeps(cs, front, s);
      InsertOrdered(cs, last, Sorted(cs, front));
      InsertCounts(cs, last, Sorted(cs, front), s);
      CountPush(front, last, s);
    }
  }

  lemma OrderedNothing(cs: seq<Candidate>)
    ensures Ordered(cs, [])
  {
  }

  /** Rows in manifest order whose names are exactly the candidates', once each, follow the candidates. */
  lemma OrderedFollows(cs: seq<Candidate>, rows: seq<Row>)
    requires Unique(cs) && AllListed(cs, rows) && Ordered(cs, rows)
    requires Distinct(RowNames(rows)) && NameSet(RowNames(rows)) == NameSet(Names(cs))
    ensures |rows| == |cs| && forall k :: 0 <= k < |cs| ==> rows[k].outcome.mutant.name == cs[k].name
  {
    DistinctCount(RowNames(rows));
    DistinctCount(Names(cs));
    var keys := seq(|rows|, k requires 0 <= k < |rows| => Key(cs, rows[k]));
    forall i, j | 0 <= i < j < |keys| ensures keys[i] < keys[j] {
      assert RowNames(rows)[i] != RowNames(rows)[j];
    }
    IncreasingIsIdentity(keys, |cs|);
    forall k | 0 <= k < |cs| ensures rows[k].outcome.mutant.name == cs[k].name {
      assert keys[k] == k;
    }
  }

  lemma PermutedNames(a: seq<Row>, b: seq<Row>)
    requires multiset(a) == multiset(b) && (forall k :: 0 <= k < |a| ==> a[k].outcome.Mutation?)
    requires forall k :: 0 <= k < |b| ==> b[k].outcome.Mutation?
    requires Distinct(RowNames(a))
    ensures Distinct(RowNames(b)) && NameSet(RowNames(b)) == NameSet(RowNames(a))
  {
    forall x ensures x in RowNames(a) <==> x in RowNames(b) {
      NamePermuted(a, b, x);
      NamePermuted(b, a, x);
    }
    forall i, j | 0 <= i < j < |b| ensures RowNames(b)[i] != RowNames(b)[j] {
      NamesStayDistinct(a, b, i, j);
    }
  }

  lemma NamePermuted(a: seq<Row>, b: seq<Row>, x: string)
    requires multiset(a) == multiset(b) && (forall k :: 0 <= k < |a| ==> a[k].outcome.Mutation?)
    requires forall k :: 0 <= k < |b| ==> b[k].outcome.Mutation?
    ensures x in RowNames(a) ==> x in RowNames(b)
  {
    if x in RowNames(a) {
      var k :| 0 <= k < |a| && RowNames(a)[k] == x;
      assert a[k] in multiset(b);
      var j :| 0 <= j < |b| && b[j] == a[k];
      assert RowNames(b)[j] == x;
    }
  }

  /** Two rows of one name would already be two rows before the permutation. */
  lemma NamesStayDistinct(a: seq<Row>, b: seq<Row>, i: nat, j: nat)
    requires multiset(a) == multiset(b) && (forall k :: 0 <= k < |a| ==> a[k].outcome.Mutation?)
    requires (forall k :: 0 <= k < |b| ==> b[k].outcome.Mutation?) && Distinct(RowNames(a)) && i < j < |b|
    ensures RowNames(b)[i] != RowNames(b)[j]
  {
    assert b[i] in multiset(a) && b[j] in multiset(a);
    var p :| 0 <= p < |a| && a[p] == b[i];
    var q :| 0 <= q < |a| && a[q] == b[j];
    OnceInDistinct(a, p);
    if b[i] == b[j] {
      TwiceAtTwoPlaces(b, i, j);
    } else {
      assert RowNames(a)[p] == RowNames(b)[i] && RowNames(a)[q] == RowNames(b)[j];
    }
  }

  lemma OnceInDistinct(a: seq<Row>, p: nat)
    requires (forall k :: 0 <= k < |a| ==> a[k].outcome.Mutation?) && Distinct(RowNames(a)) && p < |a|
    ensures multiset(a)[a[p]] == 1
  {
    assert a == a[..p] + [a[p]] + a[p + 1..];
    forall k | 0 <= k < |a| && k != p ensures a[k] != a[p] {
      assert RowNames(a)[k] != RowNames(a)[p];
    }
    assert a[p] !in a[..p] && a[p] !in a[p + 1..];
  }

  lemma TwiceAtTwoPlaces(b: seq<Row>, i: nat, j: nat)
    requires i < j < |b| && b[i] == b[j]
    ensures multiset(b)[b[i]] >= 2
  {
    assert b == b[..i] + [b[i]] + b[i + 1..j] + [b[j]] + b[j + 1..];
  }

  // ------------------------------------------------------------------------- sums

  function Declared(data: Report, s: Summary): int {
    match s
    case Caught => data.caught
    case Missed => data.missed
    case Timeout => data.timeout
    case Unviable => data.unviable
    case Success => data.success
    case Unknown => 0
  }

  /** The sum of what the first `n` shards declare. */
  function SumDeclared(results: seq<ShardResult>, n: nat, s: Summary): int
    requires forall i :: 0 <= i < n ==> i in Indices(results)
  {
    if n == 0 then 0 else SumDeclared(results, n - 1, s) + Declared(ResultOf(results, n - 1).report, s)
  }

  lemma {:induction false} CountConcat(a: seq<Outcome>, b: seq<Outcome>, s: Summary)
    ensures Count(a + b, s) == Count(a, s) + Count(b, s)
    decreases |b|
  {
    if b == [] {
      assert a + b == a;
    } else {
      assert (a + b)[..|a + b| - 1] == a + b[..|b| - 1];
      CountConcat(a, b[..|b| - 1], s);
    }
  }

  lemma {:induction false} CollectedCounts(tools: Tools, m: Manifest, results: seq<ShardResult>, n: nat, s: Summary)
    requires AllPresent(tools, m, results) && n <= |m.shards| && Counted(s)
    ensures forall i :: 0 <= i < n ==> i in Indices(results)
    ensures Count(RowOutcomes(Collected(results, |m.shards|, n)), s) == SumDeclared(results, n, s)
    decreases n
  {
    hide AllPresent, ResultOf, Mutations, Tagged, Declared, Count, Indices, ValidResult, RowOutcomes;
    ShardsCovered(tools, m, results);
    if n == 0 {
      NoneCounted(s);
    } else {
      CollectedCounts(tools, m, results, n - 1, s);
      var before := Collected(results, |m.shards|, n - 1);
      var ms := Mutations(ResultOf(results, n - 1).report.outcomes);
      AppendedOutcomes(before, ms, Label(n - 1, |m.shards|));
      CountConcat(RowOutcomes(before), ms, s);
      DeclaredIsCount(tools, m, ResultOf(results, n - 1), s);
    }
  }

  lemma NoneCounted(s: Summary)
    ensures Count(RowOutcomes([]), s) == 0
  {
  }

  lemma AppendedOutcomes(rows: seq<Row>, ms: seq<Outcome>, shard: Label)
    ensures RowOutcomes(rows + Tagged(ms, shard)) == RowOutcomes(rows) + ms
  {
  }

  lemma DeclaredIsCount(tools: Tools, m: Manifest, r: ShardResult, s: Summary)
    requires ValidResult(tools, m, r) && Counted(s)
    ensures Declared(r.report, s) == Count(Mutations(r.report.outcomes), s)
  {
  }
}
