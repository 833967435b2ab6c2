/** Bytes and little-endian integers, as `to_le_bytes` and `from_le_bytes` move them. */
module Bytes {
  import opened Wrappers
  import Machine

  type U32 = Machine.U32
  type Byte = x: int | 0 <= x < 256
  type U64 = x: int | 0 <= x < 0x1_0000_0000_0000_0000

  const U64_RANGE := 0x1_0000_0000_0000_0000
  const USIZE_MAX := 0xFFFF_FFFF_FFFF_FFFF

  /** The `n` low bytes of `x`, least significant first. */
  function Le(n: nat, x: nat): (b: seq<Byte>)
    ensures |b| == n
  {
    if n == 0 then [] else [x % 256] + Le(n - 1, x / 256)
  }

  function Value(b: seq<Byte>): nat {
    if b == [] then 0 else b[0] + 256 * Value(b[1..])
  }

  function Range(n: nat): (r: nat)
    ensures r >= 1
  {
    if n == 0 then 1 else 256 * Range(n - 1)
  }

  lemma {:induction false} ValueOfLe(n: nat, x: nat)
    requires x < Range(n)
    ensures Value(Le(n, x)) == x
    decreases n
  {
    if n > 0 {
      ValueOfLe(n - 1, x / 256);
      assert Le(n, x)[1..] == Le(n - 1, x / 256);
    }
  }

  lemma {:induction false} LeOfValue(b: seq<Byte>)
    ensures Value(b) < Range(|b|) && Le(|b|, Value(b)) == b
    decreases |b|
  {
    if b != [] {
      LeOfValue(b[1..]);
      assert Value(b) % 256 == b[0] && Value(b) / 256 == Value(b[1..]);
    }
  }

  lemma Widths()
    ensures Range(4) == 0x1_0000_0000 && Range(8) == 0x1_0000_0000_0000_0000
  {
    assert Range(1) == 256 && Range(2) == 0x1_0000 && Range(3) == 0x100_0000;
    assert Range(5) == 0x100_0000_0000 && Range(6) == 0x1_0000_0000_0000 && Range(7) == 0x100_0000_0000_0000;
  }

  function Le32(x: U32): (b: seq<Byte>)
    ensures |b| == 4
  {
    Le(4, x)
  }

  function Le64(x: U64): (b: seq<Byte>)
    ensures |b| == 8
  {
    Le(8, x)
  }

  function Read32(b: seq<Byte>): U32
    requires |b| >= 4
  {
    LeOfValue(b[..4]);
    Widths();
    Value(b[..4])
  }

  function Read64(b: seq<Byte>): U64
    requires |b| >= 8
  {
    LeOfValue(b[..8]);
    Widths();
    Value(b[..8])
  }

  /** The position of every byte. */
  lemma WrittenBytes(x: U32)
    ensures Le32(x) == [x % 256, x / 256 % 256, x / 0x1_0000 % 256, x / 0x100_0000]
  {
    assert Le(4, x) == [x % 256] + Le(3, x / 256);
    assert Le(3, x / 256) == [x / 256 % 256] + Le(2, x / 0x1_0000);
    assert Le(2, x / 0x1_0000) == [x / 0x1_0000 % 256] + Le(1, x / 0x100_0000);
    assert Le(1, x / 0x100_0000) == [x / 0x100_0000] + Le(0, 0);
  }

  lemma ReadBytes(b: seq<Byte>)
    requires |b| >= 4
    ensures Read32(b) == b[0] as nat + 0x100 * b[1] as nat + 0x1_0000 * b[2] as nat + 0x100_0000 * b[3] as nat
    ensures |b| >= 8 ==> Read64(b) == Read32(b) + 0x1_0000_0000 * Read32(b[4..])
  {
    ValueOfFour(b);
    if |b| >= 8 {
      ValueOfEight(b);
      ValueOfFour(b[4..]);
    }
  }

  lemma ValueOfFour(b: seq<Byte>)
    requires |b| >= 4
    ensures Value(b[..4]) == b[0] as nat + 0x100 * b[1] as nat + 0x1_0000 * b[2] as nat + 0x100_0000 * b[3] as nat
  {
    var c := b[..4];
    assert c[1..][1..] == c[2..] && c[2..][1..] == c[3..] && c[3..][1..] == [];
    assert Value(c[3..]) == b[3] && Value(c[2..]) == b[2] + 0x100 * Value(c[3..]);
  }

  lemma ValueOfEight(b: seq<Byte>)
    requires |b| >= 8
    ensures Value(b[..8]) == Value(b[..4]) + 0x1_0000_0000 * Value(b[4..][..4])
  {
    ValueOfConcat(b[..4], b[4..][..4]);
    assert b[..8] == b[..4] + b[4..][..4];
    Widths();
  }

  lemma {:induction false} ValueOfConcat(a: seq<Byte>, b: seq<Byte>)
    ensures Value(a + b) == Value(a) + Range(|a|) * Value(b)
    decreases |a|
  {
    if a == [] {
      assert a + b == b;
    } else {
      assert (a + b)[1..] == a[1..] + b;
      ValueOfConcat(a[1..], b);
      assert 256 * (Range(|a| - 1) * Value(b)) == Range(|a|) * Value(b);
    }
  }

  /** Reading what was written, whatever follows. */
  lemma Read32Le(x: U32, rest: seq<Byte>)
    ensures Read32(Le32(x) + rest) == x && (Le32(x) + rest)[4..] == rest
  {
    assert (Le32(x) + rest)[..4] == Le32(x);
    Widths();
    ValueOfLe(4, x);
  }

  lemma Read64Le(x: U64, rest: seq<Byte>)
    ensures Read64(Le64(x) + rest) == x && (Le64(x) + rest)[8..] == rest
  {
    assert (Le64(x) + rest)[..8] == Le64(x);
    Widths();
    ValueOfLe(8, x);
  }

  /** Writing what was read gives back the bytes. */
  lemma Le32Read(b: seq<Byte>)
    requires |b| >= 4
    ensures Le32(Read32(b)) + b[4..] == b
  {
    LeOfValue(b[..4]);
  }

  lemma Le64Read(b: seq<Byte>)
    requires |b| >= 8
    ensures Le64(Read64(b)) + b[8..] == b
  {
    LeOfValue(b[..8]);
  }

  /** What a reader's loop has read so far, in front of what remains to be read. */
  function Prepend<T, E>(front: seq<T>, r: Result<(seq<T>, seq<Byte>), E>): Result<(seq<T>, seq<Byte>), E> {
    match r
    case Err(e) => Err(e)
    case Ok((xs, rest)) => Ok((front + xs, rest))
  }

  lemma PrependNothing<T, E>(r: Result<(seq<T>, seq<Byte>), E>)
    ensures Prepend([], r) == r
  {
    if r.Ok? {
      assert [] + r.value.0 == r.value.0;
    }
  }

  lemma PrependNext<T, E>(front: seq<T>, x: T, r: Result<(seq<T>, seq<Byte>), E>)
    ensures Prepend(front, Prepend([x], r)) == Prepend(front + [x], r)
  {
    if r.Ok? {
      assert front + ([x] + r.value.0) == front + [x] + r.value.0;
    }
  }
}
