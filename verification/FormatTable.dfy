/**
 The opcode table of the file formats, apart from the codecs: each opcode's tag, its number
 of 32-bit operands and the oldest graph version that knows it. Both decoders accept
 exactly what the table describes.
 */
module FormatTable {
  import opened Wrappers
  import opened Bytes
  import opened OpCodec
  import opened ShardFormat
  import M = Machine

  datatype Entry = Entry(tag: Byte, operands: nat, since: nat)

  function EntryOf(op: Op): Entry {
    match op
    case One => Entry(0, 0, 1)
    case Bml => Entry(1, 0, 1)
    case Dup => Entry(2, 0, 1)
    case Loop(_, _) => Entry(3, 2, 1)
    case Var(_) => Entry(4, 1, 1)
    case Const(_) => Entry(5, 1, 1)
    case Zero => Entry(6, 0, 1)
    case VarIndexed(_) => Entry(7, 1, 1)
    case StoreResult(_) => Entry(8, 1, 1)
    case FAdd => Entry(9, 0, 1)
    case FMul => Entry(10, 0, 1)
    case Pick(_) => Entry(11, 1, 1)
    case Drop => Entry(12, 0, 1)
    case Swap => Entry(13, 0, 1)
    case ContextVarIndexed(_) => Entry(14, 1, 3)
    case ContextConstIndexed(_) => Entry(15, 1, 3)
    case FMax => Entry(16, 0, 4)
  }

  /** The operands in file order: a loop's count comes before its body length. */
  function Operands(op: Op): (words: seq<U32>)
    ensures |words| == EntryOf(op).operands
  {
    match op
    case Loop(count, bodyLen) => [count, bodyLen]
    case Var(id) => [id]
    case Const(id) => [id]
    case VarIndexed(base) => [base]
    case StoreResult(slot) => [slot]
    case Pick(depth) => [depth]
    case ContextVarIndexed(base) => [base]
    case ContextConstIndexed(base) => [base]
    case One | Bml | Dup | Zero | FAdd | FMul | Drop | Swap | FMax => []
  }

  /** `x` stands at a byte position, least significant byte first. */
  predicate WordAt(s: seq<Byte>, at: nat, x: nat) {
    at + 4 <= |s| && s[at] as nat + 0x100 * s[at + 1] as nat + 0x1_0000 * s[at + 2] as nat + 0x100_0000 * s[at + 3] as nat == x
  }

  /** The bytes begin with the opcode as the table describes it. */
  predicate StartsWith(s: seq<Byte>, op: Op) {
    && |s| >= 1 + 4 * EntryOf(op).operands && s[0] == EntryOf(op).tag
    && (EntryOf(op).operands >= 1 ==> WordAt(s, 1, Operands(op)[0]))
    && (EntryOf(op).operands >= 2 ==> WordAt(s, 5, Operands(op)[1]))
  }

  /** Seventeen tags, one for each opcode. */
  lemma TagsDistinct(a: Op, b: Op, tag: Byte)
    ensures EntryOf(a).tag == EntryOf(b).tag && Operands(a) == Operands(b) <==> a == b
    ensures (exists op :: EntryOf(op).tag == tag) <==> tag <= 16
  {
    if tag <= 16 {
      assert EntryOf(WithTag(tag)).tag == tag;
    }
  }

  /** Some opcode with a tag. */
  function WithTag(tag: Byte): (op: Op)
    requires tag <= 16
    ensures EntryOf(op).tag == tag
  {
    [M.One, M.Bml, M.Dup, M.Loop(0, 0), M.Var(0), M.Const(0), M.Zero, M.VarIndexed(0), M.StoreResult(0), M.FAdd,
     M.FMul, M.Pick(0), M.Drop, M.Swap, M.ContextVarIndexed(0), M.ContextConstIndexed(0), M.FMax][tag]
  }

  lemma WordIs(s: seq<Byte>, at: nat, x: nat)
    requires at + 4 <= |s|
    ensures WordAt(s, at, x) <==> Read32(s[at..]) == x
  {
    hide Read32;
    ReadBytes(s[at..]);
  }

  /** What is written is the table's tag, then the operands, and nothing else. */
  lemma EncodedAsTable(op: Op)
    ensures StartsWith(EncodeOp(op), op) && |EncodeOp(op)| == 1 + 4 * EntryOf(op).operands
  {
    hide Le32, WordAt;
    match op
    case Loop(count, bodyLen) =>
      OperandAt([3], count, Le32(bodyLen));
      OperandAt([3] + Le32(count), bodyLen, []);
      assert [3] + Le32(count) + Le32(bodyLen) + [] == EncodeOp(op) == [3] + Le32(count) + Le32(bodyLen);
    case Var(a) => OperandAt([4], a, []);
    case Const(a) => OperandAt([5], a, []);
    case VarIndexed(a) => OperandAt([7], a, []);
    case StoreResult(a) => OperandAt([8], a, []);
    case Pick(a) => OperandAt([11], a, []);
    case ContextVarIndexed(a) => OperandAt([14], a, []);
    case ContextConstIndexed(a) => OperandAt([15], a, []);
    case One | Bml | Dup | Zero | FAdd | FMul | Drop | Swap | FMax =>
  }

  lemma OperandAt(front: seq<Byte>, x: U32, rest: seq<Byte>)
    ensures WordAt(front + Le32(x) + rest, |front|, x) && front + Le32(x) + [] == front + Le32(x)
  {
    hide Le32, Read32;
    var s := front + Le32(x) + rest;
    assert s[|front|..] == Le32(x) + rest;
    Read32Le(x, rest);
    WordIs(s, |front|, x);
  }

  lemma StartsWithKeeps(s: seq<Byte>, rest: seq<Byte>, op: Op)
    requires |s| == 1 + 4 * EntryOf(op).operands
    ensures StartsWith(s, op) <==> StartsWith(s + rest, op)
    ensures (s + rest)[|s|..] == rest
  {
  }

  /** The table leaves no choice. */
  lemma TableIsEncoding(s: seq<Byte>, op: Op)
    requires StartsWith(s, op)
    ensures s == EncodeOp(op) + s[1 + 4 * EntryOf(op).operands..]
  {
    hide Le32, Read32, WordAt;
    EncodedAsTable(op);
    assert s == [s[0]] + s[1..];
    if EntryOf(op).operands >= 1 {
      WordIs(s, 1, Operands(op)[0]);
      Le32Read(s[1..]);
      assert s[1..][4..] == s[5..];
    }
    if EntryOf(op).operands >= 2 {
      WordIs(s, 5, Operands(op)[1]);
      Le32Read(s[5..]);
      assert s[5..][4..] == s[9..];
    }
  }

  lemma KnownSince(version: nat, op: Op)
    requires version >= 1
    ensures Admits(version, op) <==> version >= EntryOf(op).since
  {
  }

  /**
   The graph decoder reads an opcode exactly when the version knows it and the bytes begin
   with it as the table describes; it leaves what follows.
   */
  lemma DecodesTable(version: nat, s: seq<Byte>, op: Op, rest: seq<Byte>)
    requires version >= 1
    ensures ParseOp(version, s) == Ok((op, rest)) <==>
              version >= EntryOf(op).since && StartsWith(s, op) && rest == s[1 + 4 * EntryOf(op).operands..]
  {
    hide ParseOp, EncodeOp, StartsWith, Admits, EntryOf;
    KnownSince(version, op);
    EncodedAsTable(op);
    if ParseOp(version, s) == Ok((op, rest)) {
      ParsedIsEncoded(version, s);
      StartsWithKeeps(EncodeOp(op), rest, op);
    }
    if Admits(version, op) && StartsWith(s, op) {
      TableIsEncoding(s, op);
      ParseEncoded(version, op, s[1 + 4 * EntryOf(op).operands..]);
    }
  }

  /** A tag is unknown exactly when no opcode of the version has it. */
  lemma UnknownExactly(version: nat, s: seq<Byte>)
    requires version >= 1
    ensures s != [] ==>
              (ParseOp(version, s) == Err(UnknownTag(s[0])) <==>
                 forall op :: EntryOf(op).tag == s[0] ==> version < EntryOf(op).since)
    ensures s != [] ==>
              (DeserializeOp(s) == Err(ShardReader.UnknownOpcode(s[0])) <==>
                 forall op :: EntryOf(op).tag == s[0] ==> IsContextLoad(op))
  {
    if s != [] && s[0] <= 16 {
      assert EntryOf(WithTag(s[0])).tag == s[0];
    }
  }

  /** The shard decoder: the same table without the context loads. */
  lemma ShardDecodesTable(s: seq<Byte>, op: Op, n: nat)
    ensures DeserializeOp(s) == Ok((op, n)) <==>
              !IsContextLoad(op) && StartsWith(s, op) && n == 1 + 4 * EntryOf(op).operands
  {
    hide ParseOp, DeserializeOp, StartsWith, EntryOf;
    DecodersAgree(s);
    SinceAtMost(op);
    if DeserializeOp(s) == Ok((op, n)) {
      DecodesTable(SELECTION_VERSION, s, op, s[n..]);
      assert |s[n..]| == |s| - n;
    }
    if !IsContextLoad(op) && StartsWith(s, op) {
      StartsLength(s, op);
      var rest := s[1 + 4 * EntryOf(op).operands..];
      DecodesTable(SELECTION_VERSION, s, op, rest);
      assert |s[DeserializeOp(s).value.1..]| == |s| - DeserializeOp(s).value.1;
    }
  }

  lemma SinceAtMost(op: Op)
    ensures EntryOf(op).since <= SELECTION_VERSION && (IsContextLoad(op) <==> EntryOf(op).since == CONTEXT_VERSION)
  {
  }

  lemma StartsLength(s: seq<Byte>, op: Op)
    requires StartsWith(s, op)
    ensures |s| >= 1 + 4 * EntryOf(op).operands
  {
  }
}
