/**
 The `.bmlgraph` file: magic, version, counted fragments of opcodes, and from version 2
 a counted pool of 64-bit constants. The writer picks the oldest version that knows every
 opcode; the reader checks allocation budgets before it grows anything.
 */
module GraphCodec {
  import opened Wrappers
  import opened Bytes
  import opened OpCodec
  import Machine

  /** Constants are carried as the bit patterns of their doubles. */
  datatype Graph = Graph(fragments: seq<seq<Op>>, constPool: seq<U64>)


  // -------------------------------------------------------------------- writing

  ghost predicate SomeOp(fragments: seq<seq<Op>>, p: Op -> bool) {
    exists i, j :: 0 <= i < |fragments| && 0 <= j < |fragments[i]| && p(fragments[i][j])
  }

  function IsSelection(): Op -> bool { (op: Op) => op.FMax? }

  function IsContext(): Op -> bool { (op: Op) => IsContextLoad(op) }

  ghost function VersionFor(fragments: seq<seq<Op>>): (v: U32)
    ensures BASE_VERSION <= v <= SELECTION_VERSION
  {
    if SomeOp(fragments, IsSelection()) then SELECTION_VERSION
    else if SomeOp(fragments, IsContext()) then CONTEXT_VERSION
    else BASE_VERSION
  }

  function EncodeFragment(ops: seq<Op>): seq<Byte> {
    Le32(|ops| % Machine.U32_RANGE) + EncodeOps(ops)
  }

  function EncodeFragments(fragments: seq<seq<Op>>): seq<Byte> {
    if fragments == [] then []
    else EncodeFragment(fragments[0]) + EncodeFragments(fragments[1..])
  }

  function EncodePool(pool: seq<U64>): (b: seq<Byte>)
    ensures |b| == 8 * |pool|
  {
    if pool == [] then [] else Le64(pool[0]) + EncodePool(pool[1..])
  }

  function PoolBytes(pool: seq<U64>): seq<Byte> {
    Le64(|pool| % U64_RANGE) + EncodePool(pool)
  }

  function Body(g: Graph): seq<Byte> {
    Le32(|g.fragments| % Machine.U32_RANGE) + (EncodeFragments(g.fragments) + PoolBytes(g.constPool))
  }

  /** The bytes of a graph; counts are truncated to their encoded widths. */
  ghost function Serialized(g: Graph): seq<Byte> {
    Le32(MAGIC) + (Le32(VersionFor(g.fragments)) + Body(g))
  }

  /** `any` over all opcodes of all fragments. */
  method AnyOp(fragments: seq<seq<Op>>, p: Op -> bool) returns (r: bool)
    ensures r <==> SomeOp(fragments, p)
  {
    for i := 0 to |fragments|
      invariant forall a, j :: 0 <= a < i && 0 <= j < |fragments[a]| ==> !p(fragments[a][j])
    {
      for j := 0 to |fragments[i]|
        invariant forall k :: 0 <= k < j ==> !p(fragments[i][k])
      {
        if p(fragments[i][j]) {
          return true;
        }
      }
    }
    return false;
  }

  lemma FragmentsFrom(fragments: seq<seq<Op>>, i: nat)
    requires i < |fragments|
    ensures EncodeFragments(fragments[i..]) == EncodeFragment(fragments[i]) + EncodeFragments(fragments[i + 1..])
  {
    assert fragments[i..][1..] == fragments[i + 1..];
  }

  lemma PoolFrom(pool: seq<U64>, i: nat)
    requires i < |pool|
    ensures EncodePool(pool[i..]) == Le64(pool[i]) + EncodePool(pool[i + 1..])
  {
    assert pool[i..][1..] == pool[i + 1..];
  }

  method AppendFragments(bytes: seq<Byte>, fragments: seq<seq<Op>>) returns (r: seq<Byte>)
    ensures r == bytes + EncodeFragments(fragments)
  {
    hide EncodeOps, Le32;
    r := bytes;
    assert fragments[0..] == fragments;
    for i := 0 to |fragments|
      invariant r + EncodeFragments(fragments[i..]) == bytes + EncodeFragments(fragments)
    {
      FragmentsFrom(fragments, i);
      r := r + Le32(|fragments[i]| % Machine.U32_RANGE);
      r := AppendOps(r, fragments[i]);
    }
    assert fragments[|fragments|..] == [];
  }

  method AppendPool(bytes: seq<Byte>, pool: seq<U64>) returns (r: seq<Byte>)
    ensures r == bytes + EncodePool(pool)
  {
    hide Le64;
    r := bytes;
    assert pool[0..] == pool;
    for i := 0 to |pool|
      invariant r + EncodePool(pool[i..]) == bytes + EncodePool(pool)
    {
      PoolFrom(pool, i);
      r := r + Le64(pool[i]);
    }
    assert pool[|pool|..] == [];
  }

  /** `serialize`. */
  method Serialize(g: Graph) returns (bytes: seq<Byte>)
    ensures bytes == Serialized(g)
  {
    hide EncodeFragments, EncodePool, Le32, Le64;
    var selection := AnyOp(g.fragments, IsSelection());
    var context := AnyOp(g.fragments, IsContext());
    var version := if selection then SELECTION_VERSION else if context then CONTEXT_VERSION else BASE_VERSION;
    bytes := Le32(MAGIC) + Le32(version);
    bytes := bytes + Le32(|g.fragments| % Machine.U32_RANGE);
    bytes := AppendFragments(bytes, g.fragments);
    bytes := bytes + Le64(|g.constPool| % U64_RANGE);
    bytes := AppendPool(bytes, g.constPool);
  }

  // -------------------------------------------------------------------- reading

  function ParseFragments(version: nat, s: seq<Byte>, n: nat, total: nat, maxOps: nat): Parsed<seq<seq<Op>>>
    decreases n
  {
    if n == 0 then Ok(([], s))
    else if |s| < 4 then Err(Truncated)
    else if total + Read32(s) > USIZE_MAX then Err(OpcodeOverflow)
    else if total + Read32(s) > maxOps then Err(OpcodeBudget)
    else
      var (ops, rest) :- ParseOps(version, s[4..], Read32(s));
      var (fragments, after) :- ParseFragments(version, rest, n - 1, total + Read32(s), maxOps);
      Ok(([ops] + fragments, after))
  }

  function Values(s: seq<Byte>, n: nat): (vs: seq<U64>)
    requires |s| >= 8 * n
    ensures |vs| == n
  {
    if n == 0 then [] else [Read64(s)] + Values(s[8..], n - 1)
  }

  function ParsePool(s: seq<Byte>, maxConstants: nat): Parsed<seq<U64>> {
    if |s| < 8 then Err(BadPool)
    else if Read64(s) > maxConstants then Err(ConstantBudget)
    else if Read64(s) * 8 > USIZE_MAX || |s| - 8 < Read64(s) * 8 then Err(BadPool)
    else Ok((Values(s[8..], Read64(s)), s[8 + Read64(s) * 8..]))
  }

  function ParseBody(version: nat, s: seq<Byte>, n: nat, maxOps: nat, maxConstants: nat): Result<Graph, ParseError> {
    var (fragments, rest) :- ParseFragments(version, s, n, 0, maxOps);
    var (pool, after) :- if version >= 2 then ParsePool(rest, maxConstants) else Ok(([], rest));
    if after == [] then Ok(Graph(fragments, pool)) else Err(TrailingBytes)
  }

  /** `deserialize_with_limits` as a function of the bytes. */
  function Decoded(bytes: seq<Byte>, maxFragments: nat, maxOps: nat, maxConstants: nat): Result<Graph, ParseError> {
    if |bytes| < 12 then Err(TooSmall)
    else if Read32(bytes) != MAGIC then Err(BadMagic)
    else if !(1 <= Read32(bytes[4..]) <= SELECTION_VERSION) then Err(BadVersion)
    else if Read32(bytes[8..]) > maxFragments then Err(FragmentBudget)
    else ParseBody(Read32(bytes[4..]), bytes[12..], Read32(bytes[8..]), maxOps, maxConstants)
  }

  /** `deserialize_with_limits`: one offset moves through the bytes. */
  method DeserializeWithLimits(bytes: seq<Byte>, maxFragments: nat, maxOps: nat, maxConstants: nat)
    returns (r: Result<Graph, ParseError>)
    requires |bytes| <= USIZE_MAX
    ensures r == Decoded(bytes, maxFragments, maxOps, maxConstants)
  {
    if |bytes| < 12 {
      return Err(TooSmall);
    }
    var magic := Read32(bytes[0..4]);
    assert magic == Read32(bytes) by { assert bytes[0..4][..4] == bytes[..4]; }
    if magic != MAGIC {
      return Err(BadMagic);
    }
    var version := Read32(bytes[4..]);
    if !(1 <= version <= SELECTION_VERSION) {
      return Err(BadVersion);
    }
    var numFragments := Read32(bytes[8..]);
    if numFragments > maxFragments {
      return Err(FragmentBudget);
    }
    var parsed := ReadFragments(version, bytes, numFragments, maxOps);
    if parsed.Err? {
      return Err(parsed.error);
    }
    var (fragments, offset) := parsed.value;
    var pool: seq<U64> := [];
    if version >= 2 {
      if |bytes| - offset < 8 {
        return Err(BadPool);
      }
      var count := Read64(bytes[offset..]);
      if count > maxConstants {
        return Err(ConstantBudget);
      }
      assert bytes[offset..][8..] == bytes[offset + 8..];
      offset := offset + 8;
      if count * 8 > USIZE_MAX || offset + count * 8 > USIZE_MAX || offset + count * 8 > |bytes| {
        return Err(BadPool);
      }
      pool := ReadValues(bytes, offset, count);
      offset := offset + count * 8;
    }
    if offset != |bytes| {
      return Err(TrailingBytes);
    }
    r := Ok(Graph(fragments, pool));
  }

  method ReadValues(bytes: seq<Byte>, offset: nat, count: nat) returns (vs: seq<U64>)
    requires offset + count * 8 <= |bytes|
    ensures vs == Values(bytes[offset..], count)
  {
    vs := [];
    for i := 0 to count
      invariant vs + Values(bytes[offset + 8 * i..], count - i) == Values(bytes[offset..], count)
    {
      assert bytes[offset + 8 * i..][8..] == bytes[offset + 8 * (i + 1)..];
      vs := vs + [Read64(bytes[offset + 8 * i..])];
    }
  }

  /** The fragment loop, with its running opcode total. */
  method ReadFragments(version: nat, bytes: seq<Byte>, numFragments: U32, maxOps: nat)
    returns (r: Result<(seq<seq<Op>>, nat), ParseError>)
    requires |bytes| >= 12
    ensures match ParseFragments(version, bytes[12..], numFragments, 0, maxOps)
            case Err(e) => r == Err(e)
            case Ok((fragments, rest)) =>
              r.Ok? && r.value.0 == fragments && r.value.1 <= |bytes| && rest == bytes[r.value.1..]
  {
    hide ParseOps, Read32;
    var offset: nat := 12;
    var total: nat := 0;
    var fragments: seq<seq<Op>> := [];
    PrependNothing(ParseFragments(version, bytes[12..], numFragments, 0, maxOps));
    for i := 0 to numFragments
      invariant offset <= |bytes|
      invariant ParseFragments(version, bytes[12..], numFragments, 0, maxOps)
                == Prepend(fragments, ParseFragments(version, bytes[offset..], numFragments - i, total, maxOps))
    {
      if offset + 4 > |bytes| {
        return Err(Truncated);
      }
      var numOps := Read32(bytes[offset..]);
      if total + numOps > USIZE_MAX {
        return Err(OpcodeOverflow);
      }
      total := total + numOps;
      if total > maxOps {
        return Err(OpcodeBudget);
      }
      assert bytes[offset..][4..] == bytes[offset + 4..];
      offset := offset + 4;
      var parsed := ReadOps(version, bytes, offset, numOps);
      if parsed.Err? {
        return Err(parsed.error);
      }
      offset := parsed.value.1;
      PrependNext(fragments, parsed.value.0, ParseFragments(version, bytes[offset..], numFragments - i - 1, total, maxOps));
      fragments := fragments + [parsed.value.0];
    }
    r := Ok((fragments, offset));
  }

  method ReadOps(version: nat, bytes: seq<Byte>, start: nat, numOps: nat) returns (r: Result<(seq<Op>, nat), ParseError>)
    requires start <= |bytes|
    ensures match ParseOps(version, bytes[start..], numOps)
            case Err(e) => r == Err(e)
            case Ok((ops, rest)) => r.Ok? && r.value.0 == ops && r.value.1 <= |bytes| && rest == bytes[r.value.1..]
  {
    hide ParseOp;
    var offset: nat := start;
    var ops: seq<Op> := [];
    PrependNothing(ParseOps(version, bytes[start..], numOps));
    for i := 0 to numOps
      invariant offset <= |bytes|
      invariant ParseOps(version, bytes[start..], numOps)
                == Prepend(ops, ParseOps(version, bytes[offset..], numOps - i))
    {
      var parsed := ReadOp(version, bytes, offset);
      if parsed.Err? {
        return Err(parsed.error);
      }
      offset := parsed.value.1;
      PrependNext(ops, parsed.value.0, ParseOps(version, bytes[offset..], numOps - i - 1));
      ops := ops + [parsed.value.0];
    }
    r := Ok((ops, offset));
  }

  /** The tag `match`. */
  method ReadOp(version: nat, bytes: seq<Byte>, start: nat) returns (r: Result<(Op, nat), ParseError>)
    requires start <= |bytes|
    ensures match ParseOp(version, bytes[start..])
            case Err(e) => r == Err(e)
            case Ok((op, rest)) => r.Ok? && r.value.0 == op && r.value.1 <= |bytes| && rest == bytes[r.value.1..]
  {
    if start >= |bytes| {
      return Err(Truncated);
    }
    var tag := bytes[start];
    var offset := start + 1;
    assert bytes[start..][1..] == bytes[offset..];
    var nullary := Nullary(version, tag);
    if nullary.Some? {
      return Ok((nullary.value, offset));
    }
    if tag == 3 {
      if offset + 8 > |bytes| {
        return Err(Truncated);
      }
      assert bytes[offset..][4..] == bytes[offset + 4..] && bytes[offset..][8..] == bytes[offset + 8..];
      return Ok((Machine.Loop(Read32(bytes[offset..]), Read32(bytes[offset + 4..])), offset + 8));
    }
    if Unary(version, tag, 0).None? {
      return Err(UnknownTag(tag));
    }
    if offset + 4 > |bytes| {
      return Err(Truncated);
    }
    assert bytes[offset..][4..] == bytes[offset + 4..];
    r := Ok((Unary(version, tag, Read32(bytes[offset..])).value, offset + 4));
  }

  // ------------------------------------------------------------------ round trips

  function TotalOps(fragments: seq<seq<Op>>): nat {
    if fragments == [] then 0 else |fragments[0]| + TotalOps(fragments[1..])
  }

  ghost predicate FragmentsFit(version: nat, fragments: seq<seq<Op>>) {
    forall k :: 0 <= k < |fragments| ==> |fragments[k]| < Machine.U32_RANGE && AllAdmitted(version, fragments[k])
  }

  /** Written fragments are read back exactly when their opcodes fit the budget. */
  lemma {:induction false} FragmentsRoundTrip(version: nat, fragments: seq<seq<Op>>, rest: seq<Byte>, total: nat, maxOps: nat)
    requires FragmentsFit(version, fragments) && maxOps <= USIZE_MAX && total <= maxOps
    ensures var r := ParseFragments(version, EncodeFragments(fragments) + rest, |fragments|, total, maxOps);
            if total + TotalOps(fragments) <= maxOps then r == Ok((fragments, rest)) else r.Err?
    decreases |fragments|
  {
    hide EncodeOps, ParseOps, Le32, Read32, AllAdmitted;
    if fragments == [] {
      assert EncodeFragments(fragments) + rest == rest;
    } else {
      var ops := fragments[0];
      var tail := EncodeFragments(fragments[1..]) + rest;
      var s := EncodeFragments(fragments) + rest;
      assert s == Le32(|ops|) + (EncodeOps(ops) + tail);
      Read32Le(|ops|, EncodeOps(ops) + tail);
      ParseEncodedOps(version, ops, tail);
      if total + |ops| <= maxOps {
        FragmentsRoundTrip(version, fragments[1..], rest, total + |ops|, maxOps);
        assert [ops] + fragments[1..] == fragments;
      }
    }
  }

  /** What reads as fragments is exactly their encoding, within the budget. */
  lemma {:induction false} ParsedFragmentsAreEncoded(version: nat, s: seq<Byte>, n: nat, total: nat, maxOps: nat)
    requires ParseFragments(version, s, n, total, maxOps).Ok? && total <= maxOps
    ensures var (fragments, rest) := ParseFragments(version, s, n, total, maxOps).value;
            && |fragments| == n && FragmentsFit(version, fragments) && total + TotalOps(fragments) <= maxOps
            && s == EncodeFragments(fragments) + rest
    decreases n
  {
    hide EncodeOps, ParseOps, Le32, Read32, AllAdmitted, EncodeFragments, FragmentsFit, TotalOps;
    if n == 0 {
      NoFragments(version, s);
    } else {
      var count := Read32(s);
      Le32Read(s);
      ParsedOpsAreEncoded(version, s[4..], count);
      var (ops, rest) := ParseOps(version, s[4..], count).value;
      ParsedFragmentsAreEncoded(version, rest, n - 1, total + count, maxOps);
      var (fragments, after) := ParseFragments(version, rest, n - 1, total + count, maxOps).value;
      FragmentsCons(version, ops, fragments, after);
      assert s == Le32(count) + (EncodeOps(ops) + (EncodeFragments(fragments) + after));
    }
  }

  lemma NoFragments(version: nat, s: seq<Byte>)
    ensures FragmentsFit(version, []) && TotalOps([]) == 0 && EncodeFragments([]) + s == s
  {
  }

  lemma FragmentsCons(version: nat, ops: seq<Op>, fragments: seq<seq<Op>>, after: seq<Byte>)
    requires |ops| < Machine.U32_RANGE
    ensures FragmentsFit(version, [ops] + fragments) <==> AllAdmitted(version, ops) && FragmentsFit(version, fragments)
    ensures TotalOps([ops] + fragments) == |ops| + TotalOps(fragments)
    ensures EncodeFragments([ops] + fragments) + after == Le32(|ops|) + (EncodeOps(ops) + (EncodeFragments(fragments) + after))
  {
    hide EncodeOps, Le32, AllAdmitted;
    var all := [ops] + fragments;
    assert all[0] == ops && all[1..] == fragments;
    assert forall k :: 0 <= k < |fragments| ==> fragments[k] == all[k + 1];
  }

  lemma {:induction false} ValuesRoundTrip(pool: seq<U64>, rest: seq<Byte>)
    ensures Values(EncodePool(pool) + rest, |pool|) == pool
    ensures (EncodePool(pool) + rest)[8 * |pool|..] == rest
    decreases |pool|
  {
    if pool != [] {
      var tail := EncodePool(pool[1..]) + rest;
      assert EncodePool(pool) + rest == Le64(pool[0]) + tail;
      Read64Le(pool[0], tail);
      ValuesRoundTrip(pool[1..], rest);
    }
  }

  lemma {:induction false} ValuesAreEncoded(s: seq<Byte>, n: nat)
    requires |s| >= 8 * n
    ensures EncodePool(Values(s, n)) + s[8 * n..] == s
    decreases n
  {
    hide Le64, Read64, EncodePool;
    if n > 0 {
      Le64Read(s);
      ValuesAreEncoded(s[8..], n - 1);
      PoolCons(Read64(s), Values(s[8..], n - 1), s[8 * n..]);
      assert s[8..][8 * (n - 1)..] == s[8 * n..];
    } else {
      PoolNothing(s);
    }
  }

  lemma PoolCons(x: U64, pool: seq<U64>, rest: seq<Byte>)
    ensures EncodePool([x] + pool) + rest == Le64(x) + (EncodePool(pool) + rest)
  {
    hide Le64;
    assert ([x] + pool)[1..] == pool;
  }

  lemma PoolNothing(s: seq<Byte>)
    ensures EncodePool([]) + s[0..] == s
  {
  }

  lemma PoolRoundTrip(pool: seq<U64>, rest: seq<Byte>, maxConstants: nat)
    requires |pool| * 8 <= USIZE_MAX
    ensures var r := ParsePool(PoolBytes(pool) + rest, maxConstants);
            if |pool| <= maxConstants then r == Ok((pool, rest)) else r.Err?
  {
    hide ParsePool, Values, EncodePool, Read64, Le64;
    var s := PoolBytes(pool) + rest;
    assert s == Le64(|pool|) + (EncodePool(pool) + rest);
    Read64Le(|pool|, EncodePool(pool) + rest);
    PoolAfterCount(s, pool, rest, maxConstants);
  }

  lemma PoolAfterCount(s: seq<Byte>, pool: seq<U64>, rest: seq<Byte>, maxConstants: nat)
    requires |pool| * 8 <= USIZE_MAX && |s| >= 8 && Read64(s) == |pool| && s[8..] == EncodePool(pool) + rest
    ensures var r := ParsePool(s, maxConstants); if |pool| <= maxConstants then r == Ok((pool, rest)) else r.Err?
  {
    hide Values, EncodePool, Read64;
    ValuesRoundTrip(pool, rest);
    assert s[8..][8 * |pool|..] == s[8 + |pool| * 8..];
  }

  lemma ParsedPoolIsEncoded(s: seq<Byte>, maxConstants: nat)
    requires ParsePool(s, maxConstants).Ok?
    ensures var (pool, rest) := ParsePool(s, maxConstants).value;
            && |pool| <= maxConstants && |pool| * 8 <= USIZE_MAX
            && s == PoolBytes(pool) + rest
  {
    hide Values, EncodePool, Read64, Le64;
    var n := Read64(s);
    Le64Read(s);
    ValuesAreEncoded(s[8..], n);
    assert s[8..][8 * n..] == s[8 + n * 8..];
  }

  // ------------------------------------------------------------------ main results

  /** Counts fit the encoded widths, and the file is not longer than memory. */
  ghost predicate Encodable(g: Graph) {
    && |g.fragments| < Machine.U32_RANGE && (forall k :: 0 <= k < |g.fragments| ==> |g.fragments[k]| < Machine.U32_RANGE)
    && |g.constPool| * 8 <= USIZE_MAX
  }

  ghost predicate Covers(g: Graph, maxFragments: nat, maxOps: nat, maxConstants: nat) {
    |g.fragments| <= maxFragments && TotalOps(g.fragments) <= maxOps && |g.constPool| <= maxConstants
  }

  /** The chosen version knows every opcode written, and no older version would do. */
  lemma VersionAdmits(fragments: seq<seq<Op>>, version: nat)
    requires version >= BASE_VERSION
    ensures version >= VersionFor(fragments) <==> forall k :: 0 <= k < |fragments| ==> AllAdmitted(version, fragments[k])
  {
    if version < VersionFor(fragments) {
      if SomeOp(fragments, IsSelection()) {
        var i, j :| 0 <= i < |fragments| && 0 <= j < |fragments[i]| && fragments[i][j].FMax?;
        assert !Admits(version, fragments[i][j]);
      } else {
        var i, j :| 0 <= i < |fragments| && 0 <= j < |fragments[i]| && IsContext()(fragments[i][j]);
        assert !Admits(version, fragments[i][j]);
      }
    } else {
      forall k, j | 0 <= k < |fragments| && 0 <= j < |fragments[k]| ensures Admits(version, fragments[k][j]) {
        assert IsSelection()(fragments[k][j]) <==> fragments[k][j].FMax?;
        assert IsContext()(fragments[k][j]) <==> (fragments[k][j].ContextVarIndexed? || fragments[k][j].ContextConstIndexed?);
      }
    }
  }

  lemma HeaderBytes(version: U32, n: U32, rest: seq<Byte>)
    ensures var bytes := Le32(MAGIC) + (Le32(version) + (Le32(n) + rest));
            && |bytes| >= 12 && Read32(bytes) == MAGIC && Read32(bytes[4..]) == version && Read32(bytes[8..]) == n
            && bytes[8..] == Le32(n) + rest && bytes[12..] == rest
  {
    var bytes := Le32(MAGIC) + (Le32(version) + (Le32(n) + rest));
    Read32Le(MAGIC, Le32(version) + (Le32(n) + rest));
    Read32Le(version, Le32(n) + rest);
    Read32Le(n, rest);
    assert bytes[8..] == bytes[4..][4..] && bytes[12..] == bytes[8..][4..];
  }

  /**
   Round trip: a serialized graph is read back unchanged, and under given budgets reading
   succeeds exactly when they cover the graph's counts.
   */
  lemma GraphRoundTrip(g: Graph, maxFragments: nat, maxOps: nat, maxConstants: nat)
    requires Encodable(g) && maxOps <= USIZE_MAX
    ensures var r := Decoded(Serialized(g), maxFragments, maxOps, maxConstants);
            if Covers(g, maxFragments, maxOps, maxConstants) then r == Ok(g) else r.Err?
  {
    hide Le32, Read32, PoolBytes, EncodeFragments, ParseFragments, ParsePool, AllAdmitted, TotalOps, VersionFor;
    var version := VersionFor(g.fragments);
    var rest := EncodeFragments(g.fragments) + PoolBytes(g.constPool);
    HeaderBytes(version, |g.fragments|, rest);
    VersionAdmits(g.fragments, version);
    FragmentsRoundTrip(version, g.fragments, PoolBytes(g.constPool), 0, maxOps);
    PoolRoundTrip(g.constPool, [], maxConstants);
    assert PoolBytes(g.constPool) + [] == PoolBytes(g.constPool);
  }

  /** The budgets are the only difference between the bounded and the unbounded reader. */
  lemma LimitsAreExact(bytes: seq<Byte>, maxFragments: nat, maxOps: nat, maxConstants: nat, g: Graph)
    requires maxFragments <= USIZE_MAX && maxOps <= USIZE_MAX && maxConstants <= USIZE_MAX
    ensures Decoded(bytes, maxFragments, maxOps, maxConstants) == Ok(g)
            <==> Decoded(bytes, USIZE_MAX, USIZE_MAX, USIZE_MAX) == Ok(g) && Covers(g, maxFragments, maxOps, maxConstants)
  {
    if |bytes| >= 12 {
      var version, n, s := Read32(bytes[4..]), Read32(bytes[8..]), bytes[12..];
      if ParseFragments(version, s, n, 0, USIZE_MAX).Ok? {
        ParsedFragmentsAreEncoded(version, s, n, 0, USIZE_MAX);
        var (fragments, rest) := ParseFragments(version, s, n, 0, USIZE_MAX).value;
        FragmentsRoundTrip(version, fragments, rest, 0, maxOps);
      }
      if ParseFragments(version, s, n, 0, maxOps).Ok? {
        ParsedFragmentsAreEncoded(version, s, n, 0, maxOps);
        var (fragments, rest) := ParseFragments(version, s, n, 0, maxOps).value;
        FragmentsRoundTrip(version, fragments, rest, 0, USIZE_MAX);
      }
    }
  }

  /**
   Canonical encoding: an accepted file of version 2 or later re-serializes to the same
   bytes outside the version field, which can only get smaller; a version 1 file gains
   the empty constant pool.
   */
  lemma DecodedIsCanonical(bytes: seq<Byte>, maxFragments: nat, maxOps: nat, maxConstants: nat)
    requires Decoded(bytes, maxFragments, maxOps, maxConstants).Ok?
    ensures var g := Decoded(bytes, maxFragments, maxOps, maxConstants).value;
            var out := Serialized(g);
            && Encodable(g) && Covers(g, maxFragments, maxOps, maxConstants)
            && |bytes| >= 12 && |out| >= 12 && out[..4] == bytes[..4]
            && Read32(out[4..]) == VersionFor(g.fragments)
            && if Read32(bytes[4..]) >= 2 then out[8..] == bytes[8..] && VersionFor(g.fragments) <= Read32(bytes[4..])
               else out[8..] == bytes[8..] + Le64(0) && VersionFor(g.fragments) == BASE_VERSION
  {
    hide Le32, Read32, PoolBytes, EncodeFragments, Decoded, Serialized, FragmentsFit, Covers, TotalOps, VersionFor;
    var g := Decoded(bytes, maxFragments, maxOps, maxConstants).value;
    DecodedBody(bytes, maxFragments, maxOps, maxConstants);
    var version := Read32(bytes[4..]);
    ReadHeader(bytes);
    SerializedLayout(g);
    if version >= 2 {
      AdmittedVersion(version, g.fragments);
    } else {
      OldFilesNeedNothing(version, g.fragments);
      NoPool();
      assert bytes[8..] + Le64(0) == Le32(|g.fragments|) + (EncodeFragments(g.fragments) + Le64(0));
    }
  }

  /** What an accepted file says, behind its version. */
  lemma DecodedBody(bytes: seq<Byte>, maxFragments: nat, maxOps: nat, maxConstants: nat)
    requires Decoded(bytes, maxFragments, maxOps, maxConstants).Ok?
    ensures var g := Decoded(bytes, maxFragments, maxOps, maxConstants).value;
            && Encodable(g) && Covers(g, maxFragments, maxOps, maxConstants)
            && |bytes| >= 12 && Read32(bytes) == MAGIC && Read32(bytes[8..]) == |g.fragments|
            && FragmentsFit(Read32(bytes[4..]), g.fragments)
            && if Read32(bytes[4..]) >= 2 then bytes[12..] == EncodeFragments(g.fragments) + PoolBytes(g.constPool)
               else g.constPool == [] && bytes[12..] == EncodeFragments(g.fragments)
  {
    hide Read32, PoolBytes, EncodeFragments, ParseFragments, ParsePool, AllAdmitted, TotalOps;
    var version, n, s := Read32(bytes[4..]), Read32(bytes[8..]), bytes[12..];
    ParsedFragmentsAreEncoded(version, s, n, 0, maxOps);
    var (fragments, rest) := ParseFragments(version, s, n, 0, maxOps).value;
    if version >= 2 {
      ParsedPoolIsEncoded(rest, maxConstants);
      var (pool, after) := ParsePool(rest, maxConstants).value;
      assert PoolBytes(pool) + [] == PoolBytes(pool);
    } else {
      assert EncodeFragments(fragments) + [] == EncodeFragments(fragments);
    }
  }

  lemma SerializedLayout(g: Graph)
    requires |g.fragments| < Machine.U32_RANGE
    ensures var out := Serialized(g);
            && |out| >= 12 && out[..4] == Le32(MAGIC) && Read32(out[4..]) == VersionFor(g.fragments)
            && out[8..] == Le32(|g.fragments|) + (EncodeFragments(g.fragments) + PoolBytes(g.constPool))
  {
    hide Le32, Read32, PoolBytes, EncodeFragments, VersionFor;
    HeaderBytes(VersionFor(g.fragments), |g.fragments|, EncodeFragments(g.fragments) + PoolBytes(g.constPool));
    assert Serialized(g)[..4] == Le32(MAGIC);
  }

  lemma AdmittedVersion(version: nat, fragments: seq<seq<Op>>)
    requires version >= BASE_VERSION && FragmentsFit(version, fragments)
    ensures VersionFor(fragments) <= version
  {
    hide VersionFor, AllAdmitted;
    VersionAdmits(fragments, version);
  }

  lemma NoPool()
    ensures PoolBytes([]) == Le64(0)
  {
    hide Le64;
    assert Le64(0) + [] == Le64(0);
  }

  lemma ReadHeader(bytes: seq<Byte>)
    requires |bytes| >= 12
    ensures bytes[..4] == Le32(Read32(bytes)) && bytes[8..] == Le32(Read32(bytes[8..])) + bytes[12..]
  {
    hide Le32, Read32;
    Le32Read(bytes);
    Le32Read(bytes[8..]);
    assert bytes[8..][4..] == bytes[12..];
    assert (Le32(Read32(bytes)) + bytes[4..])[..4] == Le32(Read32(bytes));
  }

  lemma OldFilesNeedNothing(version: nat, fragments: seq<seq<Op>>)
    requires version < BASE_VERSION && FragmentsFit(version, fragments)
    ensures VersionFor(fragments) == BASE_VERSION
  {
    forall k, j | 0 <= k < |fragments| && 0 <= j < |fragments[k]| ensures Admits(BASE_VERSION, fragments[k][j]) {
      assert Admits(version, fragments[k][j]);
    }
    VersionAdmits(fragments, BASE_VERSION);
  }

  /** Prefix-free: no proper extension of an accepted file is accepted. */
  lemma ExtensionRejected(bytes: seq<Byte>, more: seq<Byte>, maxFragments: nat, maxOps: nat, maxConstants: nat)
    requires Decoded(bytes, maxFragments, maxOps, maxConstants).Ok? && more != [] && maxOps <= USIZE_MAX
    ensures Decoded(bytes + more, maxFragments, maxOps, maxConstants) == Err(TrailingBytes)
  {
    hide Read32, PoolBytes, EncodeFragments, ParseFragments, ParsePool, FragmentsFit, TotalOps;
    var version, n, s := Read32(bytes[4..]), Read32(bytes[8..]), bytes[12..];
    SameHeader(bytes, more);
    ParsedFragmentsAreEncoded(version, s, n, 0, maxOps);
    var (fragments, rest) := ParseFragments(version, s, n, 0, maxOps).value;
    assert s + more == EncodeFragments(fragments) + (rest + more);
    FragmentsRoundTrip(version, fragments, rest + more, 0, maxOps);
    if version >= 2 {
      ParsedPoolIsEncoded(rest, maxConstants);
      var (pool, after) := ParsePool(rest, maxConstants).value;
      assert rest + more == PoolBytes(pool) + more;
      PoolRoundTrip(pool, more, maxConstants);
    }
  }

  lemma SameHeader(bytes: seq<Byte>, more: seq<Byte>)
    requires |bytes| >= 12
    ensures Read32(bytes + more) == Read32(bytes) && Read32((bytes + more)[4..]) == Read32(bytes[4..])
    ensures Read32((bytes + more)[8..]) == Read32(bytes[8..]) && (bytes + more)[12..] == bytes[12..] + more
  {
    hide Value;
    var longer := bytes + more;
    assert longer[..4] == bytes[..4] && longer[4..][..4] == bytes[4..][..4] && longer[8..][..4] == bytes[8..][..4];
  }

  /** Different graphs never share a file: the writer is injective on encodable graphs. */
  lemma SerializedInjective(a: Graph, b: Graph)
    requires Encodable(a) && Encodable(b) && Serialized(a) == Serialized(b)
    requires TotalOps(a.fragments) <= USIZE_MAX && TotalOps(b.fragments) <= USIZE_MAX
    ensures a == b
  {
    GraphRoundTrip(a, USIZE_MAX, USIZE_MAX, USIZE_MAX);
    GraphRoundTrip(b, USIZE_MAX, USIZE_MAX, USIZE_MAX);
  }
}
