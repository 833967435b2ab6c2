/**
 Turning a model file into an executable with an embedded resource, inside that one file:
 the payload is moved towards the end block by block, backwards because source and target
 overlap; then the launcher, zero padding and a footer are written around it. The launcher
 accepts the result and sees exactly the original payload.
 */
module Embedding {
  import opened Wrappers
  import Arithmetic
  import opened Bytes
  import opened FnvHash

  const BLOCK: nat := 4 * 1024 * 1024
  const HASH_BLOCK: nat := 65536
  const PAGE: nat := 4096
  const MAX_PREFIX: nat := 1024 * 1024
  const FOOTER_BYTES: nat := 40

  /** "BMLF32V1". */
  const FOOTER_MAGIC: seq<Byte> := [0x42, 0x4D, 0x4C, 0x46, 0x33, 0x32, 0x56, 0x31]

  function Zeros(n: nat): (z: seq<Byte>)
    ensures |z| == n && forall k :: 0 <= k < n ==> z[k] == 0
  {
    seq(n, _ => 0)
  }

  // ------------------------------------------------------------------------ files

  /** The bytes after a write at `pos`; a gap behind the end is filled with zeros. */
  function Written(data: seq<Byte>, pos: nat, bytes: seq<Byte>): (r: seq<Byte>)
    ensures |r| == if bytes != [] && pos + |bytes| > |data| then pos + |bytes| else |data|
  {
    if bytes == [] then data
    else if pos + |bytes| <= |data| then data[..pos] + bytes + data[pos + |bytes|..]
    else if pos <= |data| then data[..pos] + bytes
    else data + Zeros(pos - |data|) + bytes
  }

  /** A file opened for reading and writing. */
  class File {
    var data: seq<Byte>
    var pos: nat

    constructor (contents: seq<Byte>)
      ensures data == contents && pos == 0
    {
      data := contents;
      pos := 0;
    }

    method Truncate(size: nat)
      modifies this
      ensures data == (if size <= old(|data|) then old(data)[..size] else old(data) + Zeros(size - old(|data|)))
      ensures pos == old(pos)
    {
      data := if size <= |data| then data[..size] else data + Zeros(size - |data|);
    }

    method Seek(offset: nat)
      modifies this
      ensures pos == offset && data == old(data)
    {
      pos := offset;
    }

    method Read(count: nat) returns (block: seq<Byte>)
      modifies this
      ensures data == old(data) && pos == old(pos) + |block|
      ensures block == if old(pos) >= |data| then []
                       else if old(pos) + count <= |data| then data[old(pos)..old(pos) + count] else data[old(pos)..]
    {
      block := if pos >= |data| then [] else if pos + count <= |data| then data[pos..pos + count] else data[pos..];
      pos := pos + |block|;
    }

    method Write(bytes: seq<Byte>)
      modifies this
      ensures data == Written(old(data), old(pos), bytes) && pos == old(pos) + |bytes|
    {
      data := Written(data, pos, bytes);
      pos := pos + |bytes|;
    }
  }

  // ------------------------------------------------------------------------- hash

  /** The hasher built with `BUILD_FNV`: 64 KiB blocks give the one-shot hash. */
  method HashRange(f: File, offset: nat, length: nat) returns (r: Option<U64>)
    modifies f
    ensures f.data == old(f.data)
    ensures r.Some? <==> length == 0 || offset + length <= |f.data|
    ensures r.Some? ==> r.value == if length == 0 then FNV_START else Fnv(f.data[offset..offset + length])
  {
    hide FnvFrom;
    f.Seek(offset);
    var remain := length;
    var h := FNV_START;
    NothingHashed(f.data, offset);
    while remain > 0
      invariant 0 <= remain <= length && f.pos == offset + (length - remain) && f.data == old(f.data)
      invariant remain < length ==> f.pos <= |f.data|
      invariant remain == length ==> h == FNV_START
      invariant f.pos <= |f.data| ==> offset <= |f.data| && h == Fnv(f.data[offset..f.pos])
    {
      var want := if remain < HASH_BLOCK then remain else HASH_BLOCK;
      ghost var start := f.pos;
      var block := f.Read(want);
      if |block| != want {
        return None;
      }
      ghost var before := f.data[offset..start];
      assert before + block == f.data[offset..f.pos];
      FnvConcat(FNV_START, before, block);
      h := HashBytes(h, block);
      remain := remain - want;
    }
    r := Some(h);
  }

  lemma NothingHashed(data: seq<Byte>, offset: nat)
    ensures Fnv([]) == FNV_START && (offset <= |data| ==> data[offset..offset] == [])
  {
  }

  // ------------------------------------------------------------------------ layout

  function PageAligned(n: nat): (offset: nat)
    ensures offset % PAGE == 0 && n <= offset < n + PAGE
  {
    (n + (PAGE - 1)) / PAGE * PAGE
  }

  function Footer(n: U64, offset: U64, payload: U64, checksum: U64): (b: seq<Byte>)
    ensures |b| == FOOTER_BYTES
  {
    FOOTER_MAGIC + (Le64(n) + (Le64(offset) + (Le64(payload) + Le64(checksum))))
  }

  /** Prefix, zero padding to a page, payload, footer. */
  function Embedded(prefix: seq<Byte>, payload: seq<Byte>, n: U64, checksum: U64): seq<Byte>
    requires PageAligned(|prefix|) < U64_RANGE && |payload| < U64_RANGE
  {
    var offset := PageAligned(|prefix|);
    prefix + Zeros(offset - |prefix|) + payload + Footer(n, offset, |payload|, checksum)
  }

  /** An n by n matrix of 32-bit floats. */
  function PayloadBytes(n: nat): (b: nat)
    ensures b == 4 * (n * n)
  {
    Arithmetic.MulMono(0, n, n);
    4 * (n * n)
  }

  datatype EmbedError = PrefixTooLong | InvalidLayout | ShortRead

  /** What the source checks before it touches the file. */
  function LayoutError(prefix: seq<Byte>, size: nat, sourceOffset: nat, n: U64): Option<EmbedError> {
    if |prefix| > MAX_PREFIX then Some(PrefixTooLong)
    else if PageAligned(|prefix|) < sourceOffset || size - sourceOffset != PayloadBytes(n) then Some(InvalidLayout)
    else None
  }

  /** The file between two block moves: the part still to move is untouched, the rest is in place. */
  ghost predicate Moving(data: seq<Byte>, original: seq<Byte>, source: nat, target: nat, payload: nat, remaining: nat) {
    && source <= target && |original| == source + payload && |data| == target + payload + FOOTER_BYTES
    && remaining <= payload
    && data[source..source + remaining] == original[source..source + remaining]
    && data[target + remaining..target + payload] == original[source + remaining..]
  }

  /** Moving one block towards the end never harms what is still to be read. */
  lemma MoveBlock(data: seq<Byte>, original: seq<Byte>, source: nat, target: nat, payload: nat, remaining: nat, begin: nat)
    requires Moving(data, original, source, target, payload, remaining) && begin < remaining
    ensures var block := data[source + begin..source + remaining];
            Moving(Written(data, target + begin, block), original, source, target, payload, begin)
  {
    var block := data[source + begin..source + remaining];
    var after := Written(data, target + begin, block);
    assert after == data[..target + begin] + block + data[target + remaining..];
    assert block == data[source..source + remaining][begin..] == original[source..source + remaining][begin..];
    assert after[source..source + begin] == data[source..source + begin] by {
      assert after[..source + begin] == data[..source + begin];
    }
    assert after[source..source + begin] == data[source..source + remaining][..begin]
        == original[source..source + remaining][..begin] == original[source..source + begin];
    assert after[target + begin..target + payload] == block + data[target + remaining..target + payload];
    assert original[source + begin..] == original[source + begin..source + remaining] + original[source + remaining..];
    assert block == original[source + begin..source + remaining];
  }

  /** `embed_in_place`: a short read cannot happen, and the file ends up as laid out. */
  method EmbedInPlace(f: File, prefix: seq<Byte>, sourceOffset: nat, n: U64, checksum: U64)
    returns (r: Result<nat, EmbedError>)
    requires |f.data| < U64_RANGE
    modifies f
    ensures r.Ok? <==> && |prefix| <= 0x10_0000 && sourceOffset <= PageAligned(|prefix|)
                       && old(|f.data|) == sourceOffset + 4 * (n * n)
    ensures match LayoutError(prefix, old(|f.data|), sourceOffset, n)
            case Some(e) => r == Err(e) && f.data == old(f.data)
            case None => r == Ok(PageAligned(|prefix|)) && sourceOffset <= old(|f.data|)
                         && f.data == Embedded(prefix, old(f.data)[sourceOffset..], n, checksum)
  {
    hide Written, Footer, PageAligned;
    var failed := LayoutError(prefix, |f.data|, sourceOffset, n);
    if failed.Some? {
      return Err(failed.value);
    }
    var payload := PayloadBytes(n);
    var offset := PageAligned(|prefix|);
    ghost var original := f.data;
    f.Truncate(offset + payload + FOOTER_BYTES);
    TruncatedStart(original, sourceOffset, offset, payload);
    var moved := MovePayload(f, original, sourceOffset, offset, payload);
    if !moved {
      return Err(ShortRead);
    }
    WriteAround(f, original, sourceOffset, offset, payload, prefix, Footer(n, offset, payload, checksum));
    r := Ok(offset);
  }

  /** The loop of block moves, from the end backwards. */
  method MovePayload(f: File, ghost original: seq<Byte>, source: nat, target: nat, payload: nat) returns (ok: bool)
    requires Moving(f.data, original, source, target, payload, payload)
    modifies f
    ensures ok && Moving(f.data, original, source, target, payload, 0)
  {
    hide Moving, Written;
    var remaining: nat := payload;
    while remaining > 0
      invariant Moving(f.data, original, source, target, payload, remaining)
    {
      var count := if BLOCK < remaining then BLOCK else remaining;
      var begin: nat := remaining - count;
      MovingSize(f.data, original, source, target, payload, remaining);
      f.Seek(source + begin);
      var block := f.Read(count);
      if |block| != count {
        return false;
      }
      MoveBlock(f.data, original, source, target, payload, remaining, begin);
      f.Seek(target + begin);
      f.Write(block);
      remaining := begin;
    }
    ok := true;
  }

  lemma MovingSize(data: seq<Byte>, original: seq<Byte>, source: nat, target: nat, payload: nat, remaining: nat)
    requires Moving(data, original, source, target, payload, remaining)
    ensures source + remaining <= |data|
  {
  }

  /** Launcher, padding and footer, around a payload that is already in place. */
  method WriteAround(f: File, ghost original: seq<Byte>, ghost source: nat, target: nat, payload: nat, prefix: seq<Byte>,
                     footer: seq<Byte>)
    requires Moving(f.data, original, source, target, payload, 0) && |prefix| <= target && |footer| == FOOTER_BYTES
    modifies f
    ensures source <= |original| && f.data == prefix + Zeros(target - |prefix|) + original[source..] + footer
  {
    hide Moving, Written;
    ghost var moved := f.data;
    f.Seek(0);
    f.Write(prefix);
    f.Write(Zeros(target - |prefix|));
    f.Seek(target + payload);
    f.Write(footer);
    Finished(moved, original, source, target, payload, prefix, footer);
  }

  lemma TruncatedStart(original: seq<Byte>, source: nat, target: nat, payload: nat)
    requires source <= target && |original| == source + payload
    ensures Moving(original + Zeros(target + payload + FOOTER_BYTES - |original|), original, source, target, payload, payload)
  {
  }

  lemma Finished(moved: seq<Byte>, original: seq<Byte>, source: nat, target: nat, payload: nat, prefix: seq<Byte>,
                 footer: seq<Byte>)
    requires Moving(moved, original, source, target, payload, 0) && |prefix| <= target && |footer| == FOOTER_BYTES
    ensures source <= |original|
    ensures Written(Written(Written(moved, 0, prefix), |prefix|, Zeros(target - |prefix|)), target + payload, footer)
            == prefix + Zeros(target - |prefix|) + original[source..] + footer
  {
    var one := Written(moved, 0, prefix);
    assert one == prefix + moved[|prefix|..];
    var two := Written(one, |prefix|, Zeros(target - |prefix|));
    assert two == prefix + Zeros(target - |prefix|) + moved[target..];
    assert moved[target..target + payload] == original[source..];
    var three := Written(two, target + payload, footer);
    assert three == two[..target + payload] + footer;
    assert two[..target + payload] == prefix + Zeros(target - |prefix|) + moved[target..target + payload];
  }

  // ------------------------------------------------------------------------ reader

  function FooterAt(bytes: seq<Byte>): (f: seq<Byte>)
    requires |bytes| >= FOOTER_BYTES
    ensures |f| == FOOTER_BYTES
  {
    bytes[|bytes| - FOOTER_BYTES..]
  }

  /** `open_resource`: the exposed payload, or nothing. */
  method OpenResource(bytes: seq<Byte>, n: U64) returns (r: Option<seq<Byte>>)
    requires |bytes| < U64_RANGE && PayloadBytes(n) < U64_RANGE
    ensures r == Opened(bytes, n)
  {
    hide FnvFrom, Value, PayloadBytes;
    if |bytes| < FOOTER_BYTES {
      return None;
    }
    var f := FooterAt(bytes);
    var footerN, offset, size, fnv := Read64(f[8..]), Read64(f[16..]), Read64(f[24..]), Read64(f[32..]);
    var before := |bytes| - FOOTER_BYTES;
    if f[..8] != FOOTER_MAGIC || footerN != n || offset > before || size != before - offset || size != PayloadBytes(n)
       || offset % PAGE != 0 {
      return None;
    }
    var data := bytes[offset..before];
    var h := HashBytes(FNV_START, data);
    if h != fnv {
      return None;
    }
    r := Some(data);
  }

  function Opened(bytes: seq<Byte>, n: U64): Option<seq<Byte>> {
    if |bytes| < FOOTER_BYTES then None
    else
      var f := FooterAt(bytes);
      var before := |bytes| - FOOTER_BYTES;
      var offset := Read64(f[16..]);
      if || f[..8] != FOOTER_MAGIC || Read64(f[8..]) != n || offset > before || Read64(f[24..]) != before - offset
         || Read64(f[24..]) != PayloadBytes(n) || offset % PAGE != 0 || Fnv(bytes[offset..before]) != Read64(f[32..])
      then None
      else Some(bytes[offset..before])
  }

  /** Where the footer's fields are: the letters of its name, then four numbers. */
  lemma FooterFields(n: U64, offset: U64, payload: U64, checksum: U64)
    ensures var f := Footer(n, offset, payload, checksum);
            && (forall k :: 0 <= k < 8 ==> f[k] == "BMLF32V1"[k] as int)
            && f[..8] == FOOTER_MAGIC && Read64(f[8..]) == n && Read64(f[16..]) == offset
            && Read64(f[24..]) == payload && Read64(f[32..]) == checksum
  {
    hide Le64, Read64;
    var f := Footer(n, offset, payload, checksum);
    var s3 := Le64(checksum) + [];
    var s2 := Le64(payload) + s3;
    var s1 := Le64(offset) + s2;
    var s0 := Le64(n) + s1;
    assert s3 == Le64(checksum);
    assert f[8..] == s0;
    Read64Le(n, s1);
    Read64Le(offset, s2);
    Read64Le(payload, s3);
    Read64Le(checksum, []);
    assert f[16..] == s0[8..] && f[24..] == s0[8..][8..] && f[32..] == s0[8..][8..][8..];
  }

  lemma FooterIs(f: seq<Byte>)
    requires |f| == FOOTER_BYTES && f[..8] == FOOTER_MAGIC
    ensures f == Footer(Read64(f[8..]), Read64(f[16..]), Read64(f[24..]), Read64(f[32..]))
  {
    hide Le64, Read64;
    Le64Read(f[8..]);
    Le64Read(f[16..]);
    Le64Read(f[24..]);
    Le64Read(f[32..]);
    assert f[8..][8..] == f[16..] && f[16..][8..] == f[24..] && f[24..][8..] == f[32..] && f[32..][8..] == [];
    assert f == f[..8] + f[8..];
  }

  /**
   The reader accepts exactly the files made of any page-aligned front, 4 n^2 bytes of data
   and the footer that describes them with their hash; it exposes exactly that data.
   */
  lemma OpenedExactly(bytes: seq<Byte>, n: U64, data: seq<Byte>)
    requires |bytes| < U64_RANGE
    ensures Opened(bytes, n) == Some(data) <==>
              |data| == 4 * (n * n)
              && exists offset: nat :: Described(bytes, offset, n, data)
  {
    hide Fnv, Footer, Read64;
    if Opened(bytes, n) == Some(data) {
      var f := FooterAt(bytes);
      var offset := Read64(f[16..]);
      FooterIs(f);
      assert bytes == bytes[..offset] + bytes[offset..|bytes| - FOOTER_BYTES] + f;
      assert Described(bytes, offset, n, data);
    }
    if |data| == PayloadBytes(n) && exists offset: nat :: Described(bytes, offset, n, data) {
      var offset: nat :| Described(bytes, offset, n, data);
      DescribedOpens(bytes, offset, n, data);
    }
  }

  ghost predicate Described(bytes: seq<Byte>, offset: nat, n: U64, data: seq<Byte>) {
    && offset % 4096 == 0 && |bytes| == offset + |data| + 40 && |bytes| < U64_RANGE
    && bytes == bytes[..offset] + data + Footer(n, offset, |data|, Fnv(data))
  }

  lemma DescribedOpens(bytes: seq<Byte>, offset: nat, n: U64, data: seq<Byte>)
    requires Described(bytes, offset, n, data) && |data| == PayloadBytes(n)
    ensures Opened(bytes, n) == Some(data)
  {
    hide Fnv, Footer, Read64;
    FooterFields(n, offset, |data|, Fnv(data));
    assert FooterAt(bytes) == Footer(n, offset, |data|, Fnv(data));
    assert bytes[offset..|bytes| - FOOTER_BYTES] == data;
  }

  /** A payload in which exactly one byte was altered is never exposed. */
  lemma AlteredPayloadRejected(bytes: seq<Byte>, n: U64, i: nat, b: Byte)
    requires |bytes| < U64_RANGE && Opened(bytes, n).Some?
    requires |bytes| - FOOTER_BYTES - |Opened(bytes, n).value| <= i < |bytes| - FOOTER_BYTES && b != bytes[i]
    ensures Opened(bytes[i := b], n) == None
  {
    hide Fnv, Read64;
    var before := |bytes| - FOOTER_BYTES;
    var offset := Read64(FooterAt(bytes)[16..]);
    assert FooterAt(bytes[i := b]) == FooterAt(bytes);
    assert bytes[i := b][offset..before] == bytes[offset..before][i - offset := b];
    OneByteMatters(bytes[offset..before], i - offset, b);
  }

  /** What embedding writes with the payload's hash, the launcher opens to that payload. */
  lemma EmbeddedOpens(prefix: seq<Byte>, payload: seq<Byte>, n: U64)
    requires PageAligned(|prefix|) + |payload| + FOOTER_BYTES < U64_RANGE && |payload| == PayloadBytes(n)
    ensures Opened(Embedded(prefix, payload, n, Fnv(payload)), n) == Some(payload)
  {
    hide Fnv, Footer, Read64;
    var offset := PageAligned(|prefix|);
    var bytes := Embedded(prefix, payload, n, Fnv(payload));
    assert bytes[..offset] == prefix + Zeros(offset - |prefix|);
    DescribedOpens(bytes, offset, n, payload);
  }

  /** Where the launcher, the padding, the payload and the footer end up. */
  lemma EmbeddedLayout(prefix: seq<Byte>, payload: seq<Byte>, n: U64, checksum: U64)
    requires PageAligned(|prefix|) < U64_RANGE && |payload| < U64_RANGE
    ensures var bytes := Embedded(prefix, payload, n, checksum);
            var offset := PageAligned(|prefix|);
            && offset % 4096 == 0 && |prefix| <= offset < |prefix| + 4096 && |bytes| == offset + |payload| + 40
            && bytes[..|prefix|] == prefix && (forall k :: |prefix| <= k < offset ==> bytes[k] == 0)
            && bytes[offset..offset + |payload|] == payload
            && bytes[offset + |payload|..] == Footer(n, offset, |payload|, checksum)
  {
    hide Footer;
    EmbeddedLength(prefix, payload, n, checksum);
  }

  /** The whole trip: hash the payload block by block, embed it in place, open the result. */
  method EmbedAndOpen(f: File, prefix: seq<Byte>, sourceOffset: nat, n: U64) returns (r: Option<seq<Byte>>)
    requires |f.data| + MAX_PREFIX + PAGE + FOOTER_BYTES < U64_RANGE
    requires LayoutError(prefix, |f.data|, sourceOffset, n).None?
    modifies f
    ensures sourceOffset <= old(|f.data|) && r == Some(old(f.data)[sourceOffset..])
  {
    hide Fnv, Embedded, Opened;
    ghost var payload := f.data[sourceOffset..];
    NothingHashed(f.data, sourceOffset);
    var checksum := HashRange(f, sourceOffset, PayloadBytes(n));
    assert f.data[sourceOffset..sourceOffset + PayloadBytes(n)] == payload;
    var offset := EmbedInPlace(f, prefix, sourceOffset, n, checksum.value);
    EmbeddedLength(prefix, payload, n, checksum.value);
    EmbeddedOpens(prefix, payload, n);
    r := OpenResource(f.data, n);
  }

  lemma EmbeddedLength(prefix: seq<Byte>, payload: seq<Byte>, n: U64, checksum: U64)
    requires PageAligned(|prefix|) < U64_RANGE && |payload| < U64_RANGE
    ensures |Embedded(prefix, payload, n, checksum)| == PageAligned(|prefix|) + |payload| + FOOTER_BYTES
  {
  }
}
