/**
 The `.bmlgraph` file described by byte positions alone, and the main result about its
 reader: a file is read as a graph exactly when it is laid out as that graph's file and the
 budgets cover it.
 */
module GraphLayout {
  import opened Wrappers
  import opened Bytes
  import opened Chunking
  import opened FormatTable
  import opened GraphCodec
  import opened OpCodec
  import M = Machine

  // ----------------------------------------------------------------- the layout

  /** A 64-bit number, least significant byte first. */
  predicate LongAt(s: seq<Byte>, at: nat, x: nat) {
    WordAt(s, at, x % 0x1_0000_0000) && WordAt(s, at + 4, x / 0x1_0000_0000)
  }

  function OpWidth(op: Op): nat {
    1 + 4 * EntryOf(op).operands
  }

  function OpsWidth(ops: seq<Op>): nat {
    if ops == [] then 0 else OpWidth(ops[0]) + OpsWidth(ops[1..])
  }

  /** Opcodes one behind the other, as the table describes them. */
  predicate OpsAt(s: seq<Byte>, ops: seq<Op>) {
    ops == [] || (StartsWith(s, ops[0]) && OpsAt(s[OpWidth(ops[0])..], ops[1..]))
  }

  /** A counted pool up to the end of the file. */
  predicate PoolAt(s: seq<Byte>, pool: seq<U64>) {
    |s| == 8 + 8 * |pool| && LongAt(s, 0, |pool|) && forall k :: 0 <= k < |pool| ==> LongAt(s, 8 + 8 * k, pool[k])
  }

  /** Counted fragments, then what remains of the file. */
  predicate FragmentsAt(s: seq<Byte>, fragments: seq<seq<Op>>, pooled: bool, pool: seq<U64>) {
    if fragments == [] then
      if pooled then PoolAt(s, pool) else s == [] && pool == []
    else
      && |s| >= 4 + OpsWidth(fragments[0]) && WordAt(s, 0, |fragments[0]|) && OpsAt(s[4..], fragments[0])
      && FragmentsAt(s[4 + OpsWidth(fragments[0])..], fragments[1..], pooled, pool)
  }

  predicate KnownOps(version: nat, fragments: seq<seq<Op>>) {
    forall k, j :: 0 <= k < |fragments| && 0 <= j < |fragments[k]| ==> version >= EntryOf(fragments[k][j]).since
  }

  /** A graph's file: four letters, the version, the fragments, and from version 2 the pool. */
  predicate GraphFile(s: seq<Byte>, version: nat, g: Graph) {
    && |s| >= 12 && s[..4] == [0x47, 0x42, 0x4D, 0x4C] && WordAt(s, 4, version) && WordAt(s, 8, |g.fragments|)
    && FragmentsAt(s[12..], g.fragments, version >= 2, g.constPool)
  }

  // -------------------------------------------------- the layout and the encoding

  lemma WordPrefix(s: seq<Byte>, x: nat)
    ensures WordAt(s, 0, x) <==> x < M.U32_RANGE && Le32(x) <= s
    ensures WordAt(s, 0, x) ==> s == Le32(x) + s[4..]
  {
    hide Le32, Read32, WordAt;
    TooShort(s, x);
    if |s| >= 4 {
      WordIs(s, 0, x);
      Le32Read(s);
      assert s[0..] == s;
      if x < M.U32_RANGE && Le32(x) <= s {
        assert s == Le32(x) + s[4..];
        Read32Le(x, s[4..]);
      }
    }
  }

  lemma TooShort(s: seq<Byte>, x: nat)
    ensures |s| < 4 ==> !WordAt(s, 0, x)
  {
  }

  lemma LongIs(s: seq<Byte>, at: nat, x: nat)
    requires at + 8 <= |s|
    ensures LongAt(s, at, x) <==> Read64(s[at..]) == x
  {
    hide Read32, Read64, WordAt;
    ReadBytes(s[at..]);
    assert s[at..][4..] == s[at + 4..];
    WordIs(s, at, x % 0x1_0000_0000);
    WordIs(s, at + 4, x / 0x1_0000_0000);
  }

  lemma LongPrefix(s: seq<Byte>, x: nat)
    requires |s| >= 8
    ensures LongAt(s, 0, x) <==> x < U64_RANGE && s == Le64(x) + s[8..]
  {
    hide Le64, Read64, LongAt;
    LongIs(s, 0, x);
    Le64Read(s);
    assert s[0..] == s;
    if x < U64_RANGE && s == Le64(x) + s[8..] {
      Read64Le(x, s[8..]);
    }
  }

  lemma OpPrefix(s: seq<Byte>, op: Op)
    ensures StartsWith(s, op) <==> EncodeOp(op) <= s
    ensures StartsWith(s, op) ==> |EncodeOp(op)| == OpWidth(op) && s == EncodeOp(op) + s[OpWidth(op)..]
  {
    hide EncodeOp, StartsWith, EntryOf;
    EncodedAsTable(op);
    if StartsWith(s, op) {
      TableIsEncoding(s, op);
    }
    if EncodeOp(op) <= s {
      StartsWithKeeps(EncodeOp(op), s[|EncodeOp(op)|..], op);
      assert s == EncodeOp(op) + s[|EncodeOp(op)|..];
    }
  }

  lemma {:induction false} OpsPrefix(s: seq<Byte>, ops: seq<Op>)
    ensures |EncodeOps(ops)| == OpsWidth(ops)
    ensures OpsAt(s, ops) <==> EncodeOps(ops) <= s
    decreases |ops|
  {
    hide EncodeOp, StartsWith, OpWidth;
    if ops != [] {
      OpPrefix(s, ops[0]);
      OpPrefix(EncodeOp(ops[0]), ops[0]);
      var rest := if StartsWith(s, ops[0]) then s[OpWidth(ops[0])..] else [];
      OpsPrefix(rest, ops[1..]);
      assert EncodeOps(ops) == EncodeOp(ops[0]) + EncodeOps(ops[1..]);
    }
  }

  lemma {:induction false} PoolWords(s: seq<Byte>, pool: seq<U64>)
    requires |s| == 8 * |pool|
    ensures s == EncodePool(pool) <==> forall k :: 0 <= k < |pool| ==> LongAt(s, 8 * k, pool[k])
    decreases |pool|
  {
    hide Le64, LongAt;
    if pool != [] {
      var rest := s[8..];
      LongPrefix(s, pool[0]);
      PoolWords(rest, pool[1..]);
      forall k | 1 <= k < |pool| ensures LongAt(s, 8 * k, pool[k]) <==> LongAt(rest, 8 * (k - 1), pool[1..][k - 1]) {
        LongShift(s, 8, 8 * k, pool[k]);
      }
    }
  }

  lemma LongShift(s: seq<Byte>, d: nat, at: nat, x: nat)
    requires d <= at && d <= |s|
    ensures LongAt(s, at, x) <==> LongAt(s[d..], at - d, x)
  {
  }

  lemma PoolLaidOut(s: seq<Byte>, pool: seq<U64>)
    ensures PoolAt(s, pool) <==> |pool| < U64_RANGE && s == PoolBytes(pool)
  {
    hide Le64, LongAt, EncodePool;
    if |s| == 8 + 8 * |pool| {
      LongPrefix(s, |pool|);
      PoolWords(s[8..], pool);
      forall k | 0 <= k < |pool| ensures LongAt(s, 8 + 8 * k, pool[k]) <==> LongAt(s[8..], 8 * k, pool[k]) {
        LongShift(s, 8, 8 + 8 * k, pool[k]);
      }
    }
  }

  ghost predicate Counted(fragments: seq<seq<Op>>) {
    forall k :: 0 <= k < |fragments| ==> |fragments[k]| < M.U32_RANGE
  }

  lemma FragmentPrefix(s: seq<Byte>, ops: seq<Op>)
    requires |ops| < M.U32_RANGE
    ensures |EncodeFragment(ops)| == 4 + OpsWidth(ops)
    ensures |s| >= 4 + OpsWidth(ops) && WordAt(s, 0, |ops|) && OpsAt(s[4..], ops) <==> EncodeFragment(ops) <= s
  {
    hide Le32, WordAt, OpsAt, OpsWidth, EncodeOps;
    WordPrefix(s, |ops|);
    OpsPrefix(if |s| >= 4 then s[4..] else [], ops);
    if |s| >= 4 && Le32(|ops|) <= s {
      Parts(s, Le32(|ops|), EncodeOps(ops));
    }
  }

  lemma Parts<T>(s: seq<T>, a: seq<T>, b: seq<T>)
    requires a <= s
    ensures a + b <= s <==> b <= s[|a|..]
    ensures s == a + b <==> s[|a|..] == b
  {
    assert s == a + s[|a|..];
    if b <= s[|a|..] {
      assert s[|a|..] == b + s[|a|..][|b|..];
    }
    if a + b <= s {
      assert (a + b)[|a|..] == s[..|a| + |b|][|a|..];
    }
  }

  lemma FragmentsUnfold(fragments: seq<seq<Op>>, end: seq<Byte>)
    requires fragments != []
    ensures EncodeFragments(fragments) + end == EncodeFragment(fragments[0]) + (EncodeFragments(fragments[1..]) + end)
  {
    hide EncodeFragment;
  }

  lemma {:induction false} FragmentsLaidOut(s: seq<Byte>, fragments: seq<seq<Op>>, pooled: bool, pool: seq<U64>)
    ensures FragmentsAt(s, fragments, pooled, pool) <==>
              && Counted(fragments) && (if pooled then |pool| < U64_RANGE else pool == [])
              && s == EncodeFragments(fragments) + (if pooled then PoolBytes(pool) else [])
    decreases |fragments|
  {
    hide WordAt, OpsAt, OpsWidth, EncodeFragment, PoolAt, PoolBytes, Counted;
    if fragments == [] {
      NoneCounted();
      PoolLaidOut(s, pool);
    } else {
      var ops, end := fragments[0], if pooled then PoolBytes(pool) else [];
      CountedCons(fragments);
      WordPrefix(s, |ops|);
      if |ops| < M.U32_RANGE {
        FragmentPrefix(s, ops);
        FragmentsUnfold(fragments, end);
        if EncodeFragment(ops) <= s {
          Parts(s, EncodeFragment(ops), EncodeFragments(fragments[1..]) + end);
          FragmentsLaidOut(s[4 + OpsWidth(ops)..], fragments[1..], pooled, pool);
        }
      }
    }
  }

  lemma NoneCounted()
    ensures Counted([]) && EncodeFragments([]) == []
  {
  }

  lemma CountedCons(fragments: seq<seq<Op>>)
    requires fragments != []
    ensures Counted(fragments) <==> |fragments[0]| < M.U32_RANGE && Counted(fragments[1..])
  {
    assert Counted(fragments[1..]) ==> forall k :: 1 <= k < |fragments| ==> fragments[k] == fragments[1..][k - 1];
  }

  /** The reader's total counts all opcodes. */
  lemma {:induction false} TotalIsLength(fragments: seq<seq<Op>>)
    ensures TotalOps(fragments) == |Concat(fragments)|
    decreases |fragments|
  {
    if fragments != [] {
      TotalIsLength(fragments[1..]);
    }
  }

  lemma KnownIsAdmitted(version: nat, fragments: seq<seq<Op>>)
    requires version >= 1
    ensures KnownOps(version, fragments) <==> forall k :: 0 <= k < |fragments| ==> AllAdmitted(version, fragments[k])
  {
    hide EntryOf, Admits;
    forall k, j | 0 <= k < |fragments| && 0 <= j < |fragments[k]|
      ensures Admits(version, fragments[k][j]) <==> version >= EntryOf(fragments[k][j]).since
    {
      KnownSince(version, fragments[k][j]);
    }
  }

  lemma Letters()
    ensures Le32(MAGIC) == [0x47, 0x42, 0x4D, 0x4C]
  {
    WrittenBytes(MAGIC);
  }

  // --------------------------------------------------------------- main results

  /** The header of a laid-out file and what the reader takes from it. */
  lemma HeaderRead(s: seq<Byte>)
    requires |s| >= 12
    ensures s[..4] == [0x47, 0x42, 0x4D, 0x4C] <==> Read32(s) == MAGIC
    ensures forall x: nat :: WordAt(s, 4, x) <==> Read32(s[4..]) == x
    ensures forall x: nat :: WordAt(s, 8, x) <==> Read32(s[8..]) == x
  {
    hide Le32, Read32, WordAt;
    Letters();
    Le32Read(s);
    Read32Le(MAGIC, s[4..]);
    assert s == s[..4] + s[4..];
    assert (Le32(Read32(s)) + s[4..])[..4] == Le32(Read32(s));
    forall x: nat ensures (WordAt(s, 4, x) <==> Read32(s[4..]) == x) && (WordAt(s, 8, x) <==> Read32(s[8..]) == x) {
      WordIs(s, 4, x);
      WordIs(s, 8, x);
    }
  }

  /** The writer's bytes are the graph's file in the oldest version with a pool that will do. */
  lemma WrittenAsLaidOut(g: Graph)
    requires Encodable(g)
    ensures GraphFile(Serialized(g), VersionFor(g.fragments), g)
    ensures forall v: nat :: v >= 2 ==> (KnownOps(v, g.fragments) <==> v >= VersionFor(g.fragments))
  {
    hide Le32, Read32, PoolBytes, EncodeFragments, FragmentsAt, KnownOps, VersionFor;
    var version := VersionFor(g.fragments);
    var out := Serialized(g);
    HeaderBytes(version, |g.fragments|, EncodeFragments(g.fragments) + PoolBytes(g.constPool));
    HeaderRead(out);
    FragmentsLaidOut(out[12..], g.fragments, true, g.constPool);
    forall v: nat | v >= 2 ensures KnownOps(v, g.fragments) <==> v >= version {
      WriterVersion(g.fragments, v);
    }
  }

  /** A version from 2 on knows all opcodes exactly when it is not older than the writer's. */
  lemma WriterVersion(fragments: seq<seq<Op>>, v: nat)
    requires v >= 2
    ensures KnownOps(v, fragments) <==> v >= VersionFor(fragments)
  {
    hide VersionFor, KnownOps, AllAdmitted;
    VersionAdmits(fragments, v);
    KnownIsAdmitted(v, fragments);
  }

  /**
   The reader gives a graph exactly when the bytes are laid out as that graph's file in one
   of the versions 1 to 4, the version knows every opcode, and the counts are within the
   budgets.
   */
  lemma ReadsExactly(s: seq<Byte>, maxFragments: nat, maxOps: nat, maxConstants: nat, g: Graph)
    requires |s| <= USIZE_MAX && maxOps <= USIZE_MAX
    ensures Decoded(s, maxFragments, maxOps, maxConstants) == Ok(g) <==>
              && |g.fragments| <= maxFragments && |Concat(g.fragments)| <= maxOps && |g.constPool| <= maxConstants
              && exists version :: 1 <= version <= 4 && GraphFile(s, version, g) && KnownOps(version, g.fragments)
  {
    hide Read32, WordAt, PoolBytes, EncodeFragments, FragmentsAt, Decoded, KnownOps, Concat, TotalOps;
    TotalIsLength(g.fragments);
    if Decoded(s, maxFragments, maxOps, maxConstants) == Ok(g) {
      DecodedIsLaidOut(s, maxFragments, maxOps, maxConstants);
    }
    if version :| 1 <= version <= 4 && GraphFile(s, version, g) && KnownOps(version, g.fragments)
                  && Covers(g, maxFragments, maxOps, maxConstants) {
      LaidOutDecodes(s, version, g, maxFragments, maxOps, maxConstants);
    }
  }

  lemma DecodedIsLaidOut(s: seq<Byte>, maxFragments: nat, maxOps: nat, maxConstants: nat)
    requires Decoded(s, maxFragments, maxOps, maxConstants).Ok?
    ensures var g := Decoded(s, maxFragments, maxOps, maxConstants).value;
            && |s| >= 12 && 1 <= Read32(s[4..]) <= 4 && Covers(g, maxFragments, maxOps, maxConstants)
            && GraphFile(s, Read32(s[4..]), g) && KnownOps(Read32(s[4..]), g.fragments)
  {
    hide Read32, WordAt, PoolBytes, EncodeFragments, FragmentsAt, Decoded, KnownOps, TotalOps;
    var g := Decoded(s, maxFragments, maxOps, maxConstants).value;
    DecodedBody(s, maxFragments, maxOps, maxConstants);
    VersionRange(s, maxFragments, maxOps, maxConstants);
    HeaderRead(s);
    var version := Read32(s[4..]);
    FragmentsLaidOut(s[12..], g.fragments, version >= 2, g.constPool);
    assert EncodeFragments(g.fragments) + [] == EncodeFragments(g.fragments);
    KnownIsAdmitted(version, g.fragments);
  }

  lemma VersionRange(s: seq<Byte>, maxFragments: nat, maxOps: nat, maxConstants: nat)
    requires Decoded(s, maxFragments, maxOps, maxConstants).Ok?
    ensures |s| >= 12 && 1 <= Read32(s[4..]) <= 4
  {
  }

  lemma LaidOutDecodes(s: seq<Byte>, version: nat, g: Graph, maxFragments: nat, maxOps: nat, maxConstants: nat)
    requires |s| <= USIZE_MAX && maxOps <= USIZE_MAX && 1 <= version <= 4
    requires GraphFile(s, version, g) && KnownOps(version, g.fragments) && Covers(g, maxFragments, maxOps, maxConstants)
    ensures Decoded(s, maxFragments, maxOps, maxConstants) == Ok(g)
  {
    hide Read32, WordAt, PoolBytes, EncodeFragments, FragmentsAt, KnownOps, ParseFragments, ParsePool, TotalOps;
    HeaderRead(s);
    FragmentsLaidOut(s[12..], g.fragments, version >= 2, g.constPool);
    KnownIsAdmitted(version, g.fragments);
    FragmentsRoundTrip(version, g.fragments, if version >= 2 then PoolBytes(g.constPool) else [], 0, maxOps);
    if version >= 2 {
      PoolFits(s[12..], EncodeFragments(g.fragments), g.constPool);
      PoolRoundTrip(g.constPool, [], maxConstants);
      assert PoolBytes(g.constPool) + [] == PoolBytes(g.constPool);
    }
  }

  lemma PoolFits(s: seq<Byte>, front: seq<Byte>, pool: seq<U64>)
    requires s == front + PoolBytes(pool)
    ensures 8 * |pool| <= |s|
  {
    assert |PoolBytes(pool)| == 8 + 8 * |pool|;
  }
}
