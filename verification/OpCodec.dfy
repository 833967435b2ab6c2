/**
 The byte encoding of opcodes shared by `.bmlgraph` files and distributed shards: one
 tag byte, then zero, one or two little-endian u32 operands. Later format versions admit
 more tags.
 */
module OpCodec {
  import opened Wrappers
  import opened Bytes
  import M = Machine

  type Op = M.Op

  const MAGIC: U32 := 0x4C4D4247
  const BASE_VERSION := 2
  const CONTEXT_VERSION := 3
  const SELECTION_VERSION := 4

  datatype ParseError =
    | TooSmall | BadMagic | BadVersion | FragmentBudget | Truncated | OpcodeOverflow | OpcodeBudget
    | UnknownTag(tag: Byte) | ConstantBudget | BadPool | TrailingBytes

  /** The format versions whose decoder knows the opcode's tag. */
  predicate Admits(version: nat, op: Op) {
    && (op.FMax? ==> version >= SELECTION_VERSION)
    && (op.ContextVarIndexed? || op.ContextConstIndexed? ==> version >= CONTEXT_VERSION)
  }

  predicate IsContextLoad(op: Op) {
    op.ContextVarIndexed? || op.ContextConstIndexed?
  }

  function EncodeOp(op: Op): (b: seq<Byte>)
    ensures |b| >= 1
  {
    match op
    case One => [0]
    case Bml => [1]
    case Dup => [2]
    case Loop(count, bodyLen) => [3] + (Le32(count) + Le32(bodyLen))
    case Var(id) => [4] + Le32(id)
    case Const(id) => [5] + Le32(id)
    case Zero => [6]
    case VarIndexed(base) => [7] + Le32(base)
    case StoreResult(slot) => [8] + Le32(slot)
    case FAdd => [9]
    case FMul => [10]
    case Pick(depth) => [11] + Le32(depth)
    case Drop => [12]
    case Swap => [13]
    case ContextVarIndexed(base) => [14] + Le32(base)
    case ContextConstIndexed(base) => [15] + Le32(base)
    case FMax => [16]
  }

  type Parsed<T> = Result<(T, seq<Byte>), ParseError>

  /** A tag's operand-free opcode, if it has one in this version. */
  function Nullary(version: nat, tag: Byte): Option<Op> {
    match tag
    case 0 => Some(M.One)
    case 1 => Some(M.Bml)
    case 2 => Some(M.Dup)
    case 6 => Some(M.Zero)
    case 9 => Some(M.FAdd)
    case 10 => Some(M.FMul)
    case 12 => Some(M.Drop)
    case 13 => Some(M.Swap)
    case 16 => if version >= SELECTION_VERSION then Some(M.FMax) else None
    case _ => None
  }

  /** A tag's opcode with one operand, if it has one in this version. */
  function Unary(version: nat, tag: Byte, arg: U32): Option<Op> {
    match tag
    case 4 => Some(M.Var(arg))
    case 5 => Some(M.Const(arg))
    case 7 => Some(M.VarIndexed(arg))
    case 8 => Some(M.StoreResult(arg))
    case 11 => Some(M.Pick(arg))
    case 14 => if version >= CONTEXT_VERSION then Some(M.ContextVarIndexed(arg)) else None
    case 15 => if version >= CONTEXT_VERSION then Some(M.ContextConstIndexed(arg)) else None
    case _ => None
  }

  /** Decodes one opcode and returns what follows it. */
  function ParseOp(version: nat, s: seq<Byte>): Parsed<Op> {
    if s == [] then Err(Truncated)
    else
      var tag, rest := s[0], s[1..];
      if Nullary(version, tag).Some? then Ok((Nullary(version, tag).value, rest))
      else if tag == 3 then
        if |rest| < 8 then Err(Truncated) else Ok((M.Loop(Read32(rest), Read32(rest[4..])), rest[8..]))
      else if Unary(version, tag, 0).Some? then
        if |rest| < 4 then Err(Truncated) else Ok((Unary(version, tag, Read32(rest)).value, rest[4..]))
      else Err(UnknownTag(tag))
  }

  /** An encoded opcode decodes to itself and leaves what follows it. */
  lemma ParseEncoded(version: nat, op: Op, rest: seq<Byte>)
    requires Admits(version, op)
    ensures ParseOp(version, EncodeOp(op) + rest) == Ok((op, rest))
  {
    hide Le32, Read32, ParseOp;
    var s := EncodeOp(op) + rest;
    match op
    case Loop(count, bodyLen) => ParseLoop(version, s, count, bodyLen, rest);
    case Var(a) => ParseUnary(version, s, 4, a, rest);
    case Const(a) => ParseUnary(version, s, 5, a, rest);
    case VarIndexed(a) => ParseUnary(version, s, 7, a, rest);
    case StoreResult(a) => ParseUnary(version, s, 8, a, rest);
    case Pick(a) => ParseUnary(version, s, 11, a, rest);
    case ContextVarIndexed(a) => ParseUnary(version, s, 14, a, rest);
    case ContextConstIndexed(a) => ParseUnary(version, s, 15, a, rest);
    case One | Bml | Dup | Zero | FAdd | FMul | Drop | Swap | FMax =>
      ParseNullary(version, s, EncodeOp(op)[0], rest);
  }

  lemma ParseNullary(version: nat, s: seq<Byte>, tag: Byte, rest: seq<Byte>)
    requires s == [tag] + rest && Nullary(version, tag).Some?
    ensures ParseOp(version, s) == Ok((Nullary(version, tag).value, rest))
  {
    hide Nullary;
    assert s[1..] == rest;
  }

  lemma ParseUnary(version: nat, s: seq<Byte>, tag: Byte, a: U32, rest: seq<Byte>)
    requires s == [tag] + Le32(a) + rest && tag != 3 && Nullary(version, tag).None? && Unary(version, tag, 0).Some?
    ensures ParseOp(version, s) == Ok((Unary(version, tag, a).value, rest))
  {
    hide Le32, Read32, Nullary;
    assert s[1..] == Le32(a) + rest;
    Read32Le(a, rest);
  }

  lemma ParseLoop(version: nat, s: seq<Byte>, count: U32, bodyLen: U32, rest: seq<Byte>)
    requires s == [3] + (Le32(count) + Le32(bodyLen)) + rest
    ensures ParseOp(version, s) == Ok((M.Loop(count, bodyLen), rest))
  {
    hide Le32, Read32;
    assert s[1..] == Le32(count) + (Le32(bodyLen) + rest);
    Read32Le(count, Le32(bodyLen) + rest);
    Read32Le(bodyLen, rest);
    assert s[1..][8..] == rest;
  }

  /** What decodes is exactly the opcode's encoding, and its version admits it. */
  lemma ParsedIsEncoded(version: nat, s: seq<Byte>)
    requires ParseOp(version, s).Ok?
    ensures var (op, rest) := ParseOp(version, s).value; Admits(version, op) && s == EncodeOp(op) + rest
  {
    var (op, rest) := ParseOp(version, s).value;
    var tail := s[1..];
    assert s == [s[0]] + tail;
    if op.Loop? {
      Le32Read(tail);
      Le32Read(tail[4..]);
      assert tail[4..][4..] == tail[8..];
    } else if Nullary(version, s[0]).None? {
      Le32Read(tail);
    }
  }

  // ------------------------------------------------------------------ opcode lists

  function EncodeOps(ops: seq<Op>): seq<Byte> {
    if ops == [] then [] else EncodeOp(ops[0]) + EncodeOps(ops[1..])
  }

  function ParseOps(version: nat, s: seq<Byte>, n: nat): Parsed<seq<Op>> {
    if n == 0 then Ok(([], s))
    else
      var (op, rest) :- ParseOp(version, s);
      var (ops, after) :- ParseOps(version, rest, n - 1);
      Ok(([op] + ops, after))
  }

  predicate AllAdmitted(version: nat, ops: seq<Op>) {
    forall k :: 0 <= k < |ops| ==> Admits(version, ops[k])
  }

  lemma {:induction false} ParseEncodedOps(version: nat, ops: seq<Op>, rest: seq<Byte>)
    requires AllAdmitted(version, ops)
    ensures ParseOps(version, EncodeOps(ops) + rest, |ops|) == Ok((ops, rest))
    decreases |ops|
  {
    if ops == [] {
      assert [] + rest == rest;
    } else {
      var tail := EncodeOps(ops[1..]) + rest;
      assert EncodeOps(ops) + rest == EncodeOp(ops[0]) + tail;
      ParseEncoded(version, ops[0], tail);
      ParseEncodedOps(version, ops[1..], rest);
      assert [ops[0]] + ops[1..] == ops;
    }
  }

  lemma {:induction false} ParsedOpsAreEncoded(version: nat, s: seq<Byte>, n: nat)
    requires ParseOps(version, s, n).Ok?
    ensures var (ops, rest) := ParseOps(version, s, n).value;
            |ops| == n && AllAdmitted(version, ops) && s == EncodeOps(ops) + rest
    decreases n
  {
    if n > 0 {
      var (op, rest) := ParseOp(version, s).value;
      ParsedIsEncoded(version, s);
      ParsedOpsAreEncoded(version, rest, n - 1);
      var (ops, after) := ParseOps(version, rest, n - 1).value;
      assert ([op] + ops)[1..] == ops;
      assert EncodeOp(op) + (EncodeOps(ops) + after) == EncodeOps([op] + ops) + after;
    }
  }

  lemma {:induction false} EncodeOpsConcat(a: seq<Op>, b: seq<Op>)
    ensures EncodeOps(a + b) == EncodeOps(a) + EncodeOps(b)
    decreases |a|
  {
    if a == [] {
      assert a + b == b;
    } else {
      assert (a + b)[1..] == a[1..] + b;
      EncodeOpsConcat(a[1..], b);
    }
  }

  lemma {:induction false} EncodeOpsLength(ops: seq<Op>)
    ensures |EncodeOps(ops)| >= |ops|
    decreases |ops|
  {
    if ops != [] {
      EncodeOpsLength(ops[1..]);
    }
  }

  lemma OpsFrom(ops: seq<Op>, i: nat)
    requires i < |ops|
    ensures EncodeOps(ops[i..]) == EncodeOp(ops[i]) + EncodeOps(ops[i + 1..])
  {
    assert ops[i..][1..] == ops[i + 1..];
  }

  /** The writer's loop over opcodes. */
  method AppendOps(bytes: seq<Byte>, ops: seq<Op>) returns (r: seq<Byte>)
    ensures r == bytes + EncodeOps(ops)
  {
    hide EncodeOp, EncodeOps;
    r := bytes;
    assert ops[0..] == ops;
    for i := 0 to |ops|
      invariant r + EncodeOps(ops[i..]) == bytes + EncodeOps(ops)
    {
      OpsFrom(ops, i);
      r := r + EncodeOp(ops[i]);
    }
    NothingLeft(ops);
  }

  lemma NothingLeft(ops: seq<Op>)
    ensures EncodeOps(ops[|ops|..]) == []
  {
  }
}
