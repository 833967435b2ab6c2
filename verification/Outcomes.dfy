/** The completeness check of one shard's report against its candidates. */
module Outcomes {
  import opened Wrappers
  import opened Sequences
  import opened Campaign

  /** The candidate without its diff. */
  function MutantOf(c: Candidate): (m: Mutant)
    ensures m.name == c.name && m.pkg == c.pkg && m.identity == c.identity
  {
    Mutant(c.name, c.pkg, c.identity)
  }

  /** The mutant outcomes, in report order. */
  function Mutations(outcomes: seq<Outcome>): (ms: seq<Outcome>)
    ensures forall k :: 0 <= k < |ms| ==> ms[k].Mutation? && ms[k] in outcomes
  {
    if outcomes == [] then []
    else
      var last := outcomes[|outcomes| - 1];
      Mutations(outcomes[..|outcomes| - 1]) + (if last.Mutation? then [last] else [])
  }

  function Baselines(outcomes: seq<Outcome>): (bs: seq<Outcome>)
    ensures forall k :: 0 <= k < |bs| ==> bs[k].Baseline?
  {
    if outcomes == [] then []
    else
      var last := outcomes[|outcomes| - 1];
      Baselines(outcomes[..|outcomes| - 1]) + (if last.Baseline? then [last] else [])
  }

  function MutantNames(ms: seq<Outcome>): (names: seq<string>)
    requires forall k :: 0 <= k < |ms| ==> ms[k].Mutation?
    ensures |names| == |ms|
  {
    seq(|ms|, k requires 0 <= k < |ms| => ms[k].mutant.name)
  }

  /** How many outcomes have a summary. */
  function Count(ms: seq<Outcome>, s: Summary): nat {
    if ms == [] then 0 else Count(ms[..|ms| - 1], s) + if ms[|ms| - 1].summary == s then 1 else 0
  }

  predicate Counted(s: Summary)
    ensures Counted(s) <==> s != Success && s != Unknown
  {
    s == Caught || s == Missed || s == Timeout || s == Unviable
  }

  /** A baseline that passed, or a known candidate with a counted summary, each with its evidence. */
  ghost predicate Acceptable(tools: Tools, cs: seq<Candidate>, o: Outcome) {
    match o
    case Baseline(s, p) => s == Success && tools.phases(p, Success, true)
    case Mutation(m, s, p) =>
      && (exists k :: 0 <= k < |cs| && m == MutantOf(cs[k]))
      && Counted(s) && tools.phases(p, s, false)
  }

  ghost predicate CountsMatch(data: Report) {
    var ms := Mutations(data.outcomes);
    && data.caught == Count(ms, Caught) && data.missed == Count(ms, Missed)
    && data.timeout == Count(ms, Timeout) && data.unviable == Count(ms, Unviable) && data.success == 0
  }

  /** Consistent and complete evidence: each candidate exactly once, one baseline, true counts. */
  ghost predicate Complete(tools: Tools, data: Report, cs: seq<Candidate>) {
    && Unique(cs) && data.toolVersionOk && data.end >= data.start
    && (forall k :: 0 <= k < |data.outcomes| ==> Acceptable(tools, cs, data.outcomes[k]))
    && |Baselines(data.outcomes)| == 1
    && Distinct(MutantNames(Mutations(data.outcomes)))
    && NameSet(MutantNames(Mutations(data.outcomes))) == NameSet(Names(cs))
    && data.total == |cs| && CountsMatch(data)
  }

  // ----------------------------------------------------------- what a report says

  /** The places of the outcomes with a summary. */
  function PlacesOf(ms: seq<Outcome>, s: Summary): (places: set<nat>) {
    set k | 0 <= k < |ms| && ms[k].summary == s
  }

  lemma {:induction false} CountIsCardinality(ms: seq<Outcome>, s: Summary)
    ensures Count(ms, s) == |PlacesOf(ms, s)|
    decreases |ms|
  {
    hide PlacesOf;
    if ms == [] {
      NoPlaces(s);
    } else {
      CountIsCardinality(ms[..|ms| - 1], s);
      LastPlace(ms, s);
    }
  }

  lemma NoPlaces(s: Summary)
    ensures PlacesOf([], s) == {}
  {
  }

  lemma LastPlace(ms: seq<Outcome>, s: Summary)
    requires ms != []
    ensures |PlacesOf(ms, s)| == |PlacesOf(ms[..|ms| - 1], s)| + if ms[|ms| - 1].summary == s then 1 else 0
  {
    var n := |ms| - 1;
    var before := PlacesOf(ms[..n], s);
    if ms[n].summary == s {
      assert PlacesOf(ms, s) == before + {n};
    } else {
      assert PlacesOf(ms, s) == before;
    }
  }

  lemma {:induction false} CountsAddUp(ms: seq<Outcome>)
    requires forall k :: 0 <= k < |ms| ==> Counted(ms[k].summary)
    ensures Count(ms, Caught) + Count(ms, Missed) + Count(ms, Timeout) + Count(ms, Unviable) == |ms|
    decreases |ms|
  {
    if ms != [] {
      CountsAddUp(ms[..|ms| - 1]);
    }
  }

  /** The two lists split a report: nothing is lost, added or counted twice. */
  lemma {:induction false} ReportSplits(outcomes: seq<Outcome>, o: Outcome)
    ensures multiset(Mutations(outcomes))[o] + multiset(Baselines(outcomes))[o] == multiset(outcomes)[o]
    ensures |Mutations(outcomes)| + |Baselines(outcomes)| == |outcomes|
    decreases |outcomes|
  {
    if outcomes != [] {
      ReportSplits(outcomes[..|outcomes| - 1], o);
      SplitsLast(outcomes, o);
    }
  }

  lemma SplitsLast(outcomes: seq<Outcome>, o: Outcome)
    requires outcomes != []
    ensures var front := outcomes[..|outcomes| - 1];
            var more := if o == outcomes[|outcomes| - 1] then 1 else 0;
            && multiset(outcomes)[o] == multiset(front)[o] + more
            && multiset(Mutations(outcomes))[o] + multiset(Baselines(outcomes))[o]
               == multiset(Mutations(front))[o] + multiset(Baselines(front))[o] + more
            && |Mutations(outcomes)| + |Baselines(outcomes)| == |Mutations(front)| + |Baselines(front)| + 1
  {
    var n := |outcomes| - 1;
    var front, last := outcomes[..n], [outcomes[n]];
    assert outcomes == front + last;
    Joins(front, last, o);
    if last[0].Mutation? {
      Joins(Mutations(front), last, o);
      Joins(Baselines(front), [], o);
    } else {
      Joins(Baselines(front), last, o);
      Joins(Mutations(front), [], o);
    }
  }

  lemma Joins(a: seq<Outcome>, b: seq<Outcome>, o: Outcome)
    ensures multiset(a + b)[o] == multiset(a)[o] + multiset(b)[o]
  {
  }

  /** Mutant outcomes keep their order: the list of a joined report is the joined list. */
  lemma {:induction false} MutationsInOrder(a: seq<Outcome>, b: seq<Outcome>)
    ensures Mutations(a + b) == Mutations(a) + Mutations(b)
    decreases |b|
  {
    if b == [] {
      assert a + b == a;
    } else {
      var n := |b| - 1;
      assert (a + b)[..|a + b| - 1] == a + b[..n];
      MutationsInOrder(a, b[..n]);
    }
  }

  /**
   A complete report has one outcome more than there are candidates: exactly one baseline
   beside the mutants. The declared counts are the numbers of outcomes with each summary
   and add up to the number of candidates.
   */
  lemma CompleteCounts(tools: Tools, data: Report, cs: seq<Candidate>)
    requires Complete(tools, data, cs)
    ensures |data.outcomes| == |cs| + 1 && |Mutations(data.outcomes)| == data.total == |cs|
    ensures var ms := Mutations(data.outcomes);
            && data.caught == |PlacesOf(ms, Caught)| && data.missed == |PlacesOf(ms, Missed)|
            && data.timeout == |PlacesOf(ms, Timeout)| && data.unviable == |PlacesOf(ms, Unviable)| && data.success == 0
    ensures data.caught + data.missed + data.timeout + data.unviable == |cs|
  {
    hide Mutations, Baselines, Count, Acceptable, Unique, PlacesOf;
    var ms := Mutations(data.outcomes);
    ReportSplits(data.outcomes, Baseline(Success, 0));
    DistinctCount(MutantNames(ms));
    UniqueNames(cs);
    DistinctCount(Names(cs));
    CountIsCardinality(ms, Caught);
    CountIsCardinality(ms, Missed);
    CountIsCardinality(ms, Timeout);
    CountIsCardinality(ms, Unviable);
    forall k | 0 <= k < |ms| ensures Counted(ms[k].summary) {
      MutantAccepted(tools, data, cs, k);
    }
    CountsAddUp(ms);
  }

  lemma UniqueNames(cs: seq<Candidate>)
    requires Unique(cs)
    ensures Distinct(Names(cs))
  {
  }

  lemma MutantAccepted(tools: Tools, data: Report, cs: seq<Candidate>, k: nat)
    requires Complete(tools, data, cs) && k < |Mutations(data.outcomes)|
    ensures var o := Mutations(data.outcomes)[k];
            && o.Mutation? && Counted(o.summary) && tools.phases(o.phases, o.summary, false)
            && exists j :: 0 <= j < |cs| && o.mutant == MutantOf(cs[j])
  {
    hide Mutations, Count, Unique;
    var o := Mutations(data.outcomes)[k];
    assert o in data.outcomes;
  }

  /**
   In a complete report each candidate has an outcome that repeats its name, package and
   identity, with one of four summaries and the evidence for it, and it has it only once.
   */
  lemma CompleteCovers(tools: Tools, data: Report, cs: seq<Candidate>, c: nat) returns (o: Outcome)
    requires Complete(tools, data, cs) && c < |cs|
    ensures o in data.outcomes && o.Mutation? && o.mutant == Mutant(cs[c].name, cs[c].pkg, cs[c].identity)
    ensures o.summary in {Caught, Missed, Timeout, Unviable} && tools.phases(o.phases, o.summary, false)
    ensures forall p :: p in data.outcomes && p.Mutation? && p.mutant.name == cs[c].name ==> p == o
    ensures multiset(data.outcomes)[o] == 1
  {
    hide Mutations, Baselines, Count, Acceptable, CountsMatch, Unique, NameSet;
    var ms := Mutations(data.outcomes);
    var k := PlaceOf(tools, data, cs, c);
    o := ms[k];
    forall p | p in data.outcomes && p.Mutation? && p.mutant.name == cs[c].name ensures p == o {
      InMutations(data.outcomes, p);
      var i :| 0 <= i < |ms| && ms[i] == p;
      assert MutantNames(ms)[i] == MutantNames(ms)[k];
    }
    OnceAmong(ms, k);
    ReportSplits(data.outcomes, o);
  }

  lemma PlaceOf(tools: Tools, data: Report, cs: seq<Candidate>, c: nat) returns (k: nat)
    requires Complete(tools, data, cs) && c < |cs|
    ensures k < |Mutations(data.outcomes)|
    ensures var o := Mutations(data.outcomes)[k];
            && o.mutant == Mutant(cs[c].name, cs[c].pkg, cs[c].identity)
            && o.summary in {Caught, Missed, Timeout, Unviable} && tools.phases(o.phases, o.summary, false)
  {
    hide Mutations, Baselines, Count, Acceptable, CountsMatch;
    var ms := Mutations(data.outcomes);
    assert Names(cs)[c] in NameSet(Names(cs));
    k :| 0 <= k < |ms| && MutantNames(ms)[k] == cs[c].name;
    MutantAccepted(tools, data, cs, k);
    var j :| 0 <= j < |cs| && ms[k].mutant == MutantOf(cs[j]);
    assert Names(cs)[j] == Names(cs)[c];
  }

  lemma InMutations(outcomes: seq<Outcome>, o: Outcome)
    requires o in outcomes && o.Mutation?
    ensures o in Mutations(outcomes)
  {
    hide Mutations, Baselines;
    ReportSplits(outcomes, o);
    assert o in multiset(outcomes);
    assert o !in Baselines(outcomes);
  }

  lemma OnceAmong(ms: seq<Outcome>, k: nat)
    requires (forall i :: 0 <= i < |ms| ==> ms[i].Mutation?) && Distinct(MutantNames(ms)) && k < |ms|
    ensures multiset(ms)[ms[k]] == 1
  {
    assert ms == ms[..k] + [ms[k]] + ms[k + 1..];
    forall i | 0 <= i < |ms| && i != k ensures ms[i] != ms[k] {
      assert MutantNames(ms)[i] != MutantNames(ms)[k];
    }
    assert ms[k] !in ms[..k] && ms[k] !in ms[k + 1..];
  }

  // Whether the first `i` outcomes were accepted, and what they contributed.
  ghost predicate Scanned(tools: Tools, cs: seq<Candidate>, outcomes: seq<Outcome>, i: nat,
                          baselines: seq<Outcome>, mutations: seq<Outcome>, seen: set<string>)
  {
    && i <= |outcomes| && (forall k :: 0 <= k < i ==> Acceptable(tools, cs, outcomes[k]))
    && baselines == Baselines(outcomes[..i]) && mutations == Mutations(outcomes[..i])
    && Distinct(MutantNames(mutations)) && seen == NameSet(MutantNames(mutations))
  }

  lemma ScanBaseline(tools: Tools, cs: seq<Candidate>, outcomes: seq<Outcome>, i: nat,
                     baselines: seq<Outcome>, mutations: seq<Outcome>, seen: set<string>)
    requires Scanned(tools, cs, outcomes, i, baselines, mutations, seen) && i < |outcomes|
    requires outcomes[i].Baseline? && Acceptable(tools, cs, outcomes[i])
    ensures Scanned(tools, cs, outcomes, i + 1, baselines + [outcomes[i]], mutations, seen)
  {
    hide Acceptable, Distinct, NameSet;
    assert outcomes[..i + 1][..i] == outcomes[..i];
  }

  lemma ScanMutation(tools: Tools, cs: seq<Candidate>, outcomes: seq<Outcome>, i: nat,
                     baselines: seq<Outcome>, mutations: seq<Outcome>, seen: set<string>)
    requires Scanned(tools, cs, outcomes, i, baselines, mutations, seen) && i < |outcomes|
    requires outcomes[i].Mutation? && Acceptable(tools, cs, outcomes[i]) && outcomes[i].mutant.name !in seen
    ensures Scanned(tools, cs, outcomes, i + 1, baselines, mutations + [outcomes[i]], seen + {outcomes[i].mutant.name})
  {
    hide Acceptable;
    assert outcomes[..i + 1][..i] == outcomes[..i];
    var before, after := MutantNames(mutations), MutantNames(mutations + [outcomes[i]]);
    assert after == before + [outcomes[i].mutant.name];
    forall k | 0 <= k < |before| ensures before[k] != outcomes[i].mutant.name {
      assert before[k] in seen;
    }
  }

  lemma {:induction false} MutationsPrefix(outcomes: seq<Outcome>, i: nat)
    requires i <= |outcomes|
    ensures Mutations(outcomes[..i]) <= Mutations(outcomes)
    decreases |outcomes|
  {
    if i < |outcomes| {
      var front := outcomes[..|outcomes| - 1];
      assert front[..i] == outcomes[..i];
      MutationsPrefix(front, i);
    } else {
      assert outcomes[..i] == outcomes;
    }
  }

  /** A second outcome for a name can never complete. */
  lemma RepeatedName(tools: Tools, cs: seq<Candidate>, data: Report, i: nat,
                     baselines: seq<Outcome>, mutations: seq<Outcome>, seen: set<string>)
    requires Scanned(tools, cs, data.outcomes, i, baselines, mutations, seen) && i < |data.outcomes|
    requires data.outcomes[i].Mutation? && data.outcomes[i].mutant.name in seen
    ensures !Complete(tools, data, cs)
  {
    hide Acceptable;
    var outcomes := data.outcomes;
    assert outcomes[..i + 1][..i] == outcomes[..i];
    MutationsPrefix(outcomes, i + 1);
    var longer, all := Mutations(outcomes[..i + 1]), Mutations(outcomes);
    assert longer == mutations + [outcomes[i]];
    var k :| 0 <= k < |mutations| && MutantNames(mutations)[k] == outcomes[i].mutant.name;
    assert all[k] == longer[k] && all[|mutations|] == longer[|mutations|];
    assert MutantNames(all)[k] == MutantNames(all)[|mutations|];
  }

  /** `validate_outcomes`: accepts exactly the complete reports. */
  method ValidateOutcomes(tools: Tools, data: Report, cs: seq<Candidate>)
    returns (r: Result<(Outcome, seq<Outcome>), string>)
    ensures r.Ok? <==> Complete(tools, data, cs)
    ensures r.Ok? ==> [r.value.0] == Baselines(data.outcomes) && r.value.1 == Mutations(data.outcomes)
  {
    hide Scanned, Unique, NameSet, Distinct, Count;
    var expected := CandidateMap(cs);
    if expected.Err? {
      return Err(expected.error);
    }
    if !data.toolVersionOk {
      return Err("unexpected outcomes version");
    }
    if !(data.end >= data.start) {
      return Err("campaign ends before it starts");
    }
    var baselines: seq<Outcome> := [];
    var mutations: seq<Outcome> := [];
    var seen: set<string> := {};
    ScanStart(tools, cs, data.outcomes);
    for i := 0 to |data.outcomes|
      invariant Scanned(tools, cs, data.outcomes, i, baselines, mutations, seen)
    {
      var outcome := data.outcomes[i];
      match outcome {
        case Baseline(summary, phases) =>
          if summary != Success || !tools.phases(phases, Success, true) {
            return Err("shard baseline failed");
          }
          ScanBaseline(tools, cs, data.outcomes, i, baselines, mutations, seen);
          baselines := baselines + [outcome];
        case Mutation(mutant, summary, phases) =>
          var known := KnownMutant(expected.value, cs, mutant);
          if !known {
            return Err("unexpected candidate");
          }
          if mutant.name in seen {
            RepeatedName(tools, cs, data, i, baselines, mutations, seen);
            return Err("duplicate mutant outcome");
          }
          if !Counted(summary) || !tools.phases(phases, summary, false) {
            return Err("unknown mutant summary");
          }
          ScanMutation(tools, cs, data.outcomes, i, baselines, mutations, seen);
          seen := seen + {mutant.name};
          mutations := mutations + [outcome];
      }
    }
    ScanEnd(tools, cs, data.outcomes, baselines, mutations, seen);
    if |baselines| != 1 {
      return Err("exactly one successful baseline required per shard");
    }
    if seen != expected.value.Keys {
      return Err("incomplete candidate outcomes");
    }
    if data.total != |cs| {
      return Err("total_mutants count mismatch");
    }
    if || data.caught != Count(mutations, Caught) || data.missed != Count(mutations, Missed)
       || data.timeout != Count(mutations, Timeout) || data.unviable != Count(mutations, Unviable) || data.success != 0 {
      return Err("count mismatch");
    }
    r := Ok((baselines[0], mutations));
  }

  /** The candidate of that name is the mutant's, field by field. */
  method KnownMutant(byName: map<string, Candidate>, cs: seq<Candidate>, mutant: Mutant) returns (known: bool)
    requires Unique(cs) && byName.Keys == NameSet(Names(cs))
    requires forall k :: 0 <= k < |cs| ==> cs[k].name in byName && byName[cs[k].name] == cs[k]
    ensures known <==> exists k :: 0 <= k < |cs| && mutant == MutantOf(cs[k])
  {
    if mutant.name !in byName {
      return false;
    }
    var k :| 0 <= k < |cs| && Names(cs)[k] == mutant.name;
    assert byName[mutant.name] == cs[k];
    return mutant == MutantOf(byName[mutant.name]);
  }

  lemma ScanStart(tools: Tools, cs: seq<Candidate>, outcomes: seq<Outcome>)
    ensures Scanned(tools, cs, outcomes, 0, [], [], {})
  {
  }

  lemma ScanEnd(tools: Tools, cs: seq<Candidate>, outcomes: seq<Outcome>,
                baselines: seq<Outcome>, mutations: seq<Outcome>, seen: set<string>)
    requires Scanned(tools, cs, outcomes, |outcomes|, baselines, mutations, seen)
    ensures forall k :: 0 <= k < |outcomes| ==> Acceptable(tools, cs, outcomes[k])
    ensures baselines == Baselines(outcomes) && mutations == Mutations(outcomes)
    ensures Distinct(MutantNames(mutations)) && seen == NameSet(MutantNames(mutations))
  {
    assert outcomes[..|outcomes|] == outcomes;
  }
}
