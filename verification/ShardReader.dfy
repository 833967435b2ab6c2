/**
 Reading a distributed file: one cursor over the remaining bytes. Each step is a function
 from the bytes to a value and what is left, and a method that moves the cursor.
 */
module ShardReader {
  import opened Wrappers
  import opened Bytes
  import opened Utf8
  import opened OpCodec

  datatype ShardError =
    | FileTooBig | TruncatedFile | BadUtf8 | WrongMagic | WrongVersion | BadLayerRange | OpcodeCount | UnknownOpcode(tag: Byte)
    | TruncatedOpcode | NeedsSelectionVersion | WeightOverflow | TensorCount | TensorOverflow | TensorRange
    | BadFragmentCount | TrailingData | ContextLoads

  /** A value and the bytes behind it. */
  type Read<T> = Result<(T, seq<Byte>), ShardError>

  function Take(s: seq<Byte>, count: nat): Read<seq<Byte>> {
    if |s| < count then Err(TruncatedFile) else Ok((s[..count], s[count..]))
  }

  function TakeU32(s: seq<Byte>): Read<U32> {
    if |s| < 4 then Err(TruncatedFile) else Ok((Read32(s), s[4..]))
  }

  function TakeU64(s: seq<Byte>): Read<U64> {
    if |s| < 8 then Err(TruncatedFile) else Ok((Read64(s), s[8..]))
  }

  function TakeText(s: seq<Byte>, count: nat): Read<Text> {
    var (raw, rest) :- Take(s, count);
    if FromUtf8(raw).Ok? then Ok((raw, rest)) else Err(BadUtf8)
  }

  /** Magic and version. */
  function TakePrefix(s: seq<Byte>): Read<U32> {
    var (magic, s1) :- TakeU32(s);
    if magic != MAGIC then Err(WrongMagic)
    else
      var (version, s2) :- TakeU32(s1);
      if version == BASE_VERSION || version == SELECTION_VERSION then Ok((version, s2)) else Err(WrongVersion)
  }

  /** A read of the cursor agrees with the function of the bytes. */
  ghost predicate Reads<T>(spec: Read<T>, r: Result<T, ShardError>, left: seq<Byte>) {
    match spec
    case Err(e) => r == Err(e)
    case Ok((value, rest)) => r == Ok(value) && left == rest
  }

  class DistributedReader {
    var bytes: seq<Byte>

    constructor (source: seq<Byte>)
      ensures bytes == source
    {
      bytes := source;
    }

    method TakeBytes(count: nat) returns (r: Result<seq<Byte>, ShardError>)
      modifies this
      ensures Reads(Take(old(bytes), count), r, bytes)
    {
      if |bytes| < count {
        return Err(TruncatedFile);
      }
      r := Ok(bytes[..count]);
      bytes := bytes[count..];
    }

    method U32() returns (r: Result<U32, ShardError>)
      modifies this
      ensures Reads(TakeU32(old(bytes)), r, bytes)
    {
      hide Value;
      ghost var was := bytes;
      var raw := TakeBytes(4);
      if raw.Err? {
        return Err(raw.error);
      }
      assert raw.value[..4] == was[..4];
      r := Ok(Read32(raw.value));
    }

    method U64() returns (r: Result<U64, ShardError>)
      modifies this
      ensures Reads(TakeU64(old(bytes)), r, bytes)
    {
      hide Value;
      ghost var was := bytes;
      var raw := TakeBytes(8);
      if raw.Err? {
        return Err(raw.error);
      }
      assert raw.value[..8] == was[..8];
      r := Ok(Read64(raw.value));
    }

    method Text(count: nat) returns (r: Result<seq<Byte>, ShardError>)
      modifies this
      ensures Reads(TakeText(old(bytes), count), r, bytes)
    {
      hide FromUtf8;
      var raw := TakeBytes(count);
      if raw.Err? {
        return Err(raw.error);
      }
      var text := FromUtf8(raw.value);
      if text.Err? {
        return Err(BadUtf8);
      }
      r := Ok(text.value);
    }

    method Prefix() returns (r: Result<U32, ShardError>)
      modifies this
      ensures Reads(TakePrefix(old(bytes)), r, bytes)
    {
      hide TakeU32;
      var magic := U32();
      if magic.Err? {
        return Err(magic.error);
      }
      if magic.value != MAGIC {
        return Err(WrongMagic);
      }
      var version := U32();
      if version.Err? {
        return Err(version.error);
      }
      if version.value != BASE_VERSION && version.value != SELECTION_VERSION {
        return Err(WrongVersion);
      }
      r := Ok(version.value);
    }

    method Finish() returns (r: Result<(), ShardError>)
      ensures r == if bytes == [] then Ok(()) else Err(TrailingData)
    {
      r := if bytes == [] then Ok(()) else Err(TrailingData);
    }
  }

  // -------------------------------------------------- what was written is read back

  lemma U32Back(x: U32, rest: seq<Byte>)
    ensures TakeU32(Le32(x) + rest) == Ok((x, rest))
  {
    Read32Le(x, rest);
  }

  lemma U64Back(x: U64, rest: seq<Byte>)
    ensures TakeU64(Le64(x) + rest) == Ok((x, rest))
  {
    Read64Le(x, rest);
  }

  lemma TextBack(text: Text, rest: seq<Byte>)
    requires FromUtf8(text).Ok?
    ensures TakeText(text + rest, |text|) == Ok((text, rest))
  {
    hide FromUtf8;
    assert (text + rest)[..|text|] == text && (text + rest)[|text|..] == rest;
  }

  lemma PrefixBack(version: U32, rest: seq<Byte>)
    requires version == BASE_VERSION || version == SELECTION_VERSION
    ensures TakePrefix(Le32(MAGIC) + (Le32(version) + rest)) == Ok((version, rest))
  {
    hide TakeU32, Le32;
    U32Back(MAGIC, Le32(version) + rest);
    U32Back(version, rest);
  }

  // ------------------------------------------------------ what is read was written

  lemma U32Was(s: seq<Byte>)
    requires TakeU32(s).Ok?
    ensures s == Le32(TakeU32(s).value.0) + TakeU32(s).value.1
  {
    Le32Read(s);
  }

  lemma U64Was(s: seq<Byte>)
    requires TakeU64(s).Ok?
    ensures s == Le64(TakeU64(s).value.0) + TakeU64(s).value.1
  {
    Le64Read(s);
  }

  lemma TextWas(s: seq<Byte>, count: nat)
    requires TakeText(s, count).Ok?
    ensures var (text, rest) := TakeText(s, count).value; FromUtf8(text).Ok? && |text| == count && s == text + rest
  {
    hide FromUtf8;
  }

  lemma PrefixWas(s: seq<Byte>)
    requires TakePrefix(s).Ok?
    ensures var (version, rest) := TakePrefix(s).value; s == Le32(MAGIC) + (Le32(version) + rest)
  {
    hide TakeU32, Le32;
    U32Was(s);
    U32Was(TakeU32(s).value.1);
  }
}
