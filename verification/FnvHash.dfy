/**
 The 64-bit FNV-1a hash. Exclusive or is defined on binary digits; each step can be undone,
 so two byte strings that differ in one byte never have the same hash.
 */
module FnvHash {
  import opened Bytes

  // ------------------------------------------------------------------- exclusive or

  /** 1 when the lowest digits differ. */
  function Differ(a: nat, b: nat): (d: nat) {
    if a % 2 != b % 2 then 1 else 0
  }

  function XorBits(n: nat, a: nat, b: nat): (r: nat)
    ensures r < Range2(n)
  {
    if n == 0 then 0 else (if a % 2 != b % 2 then 1 else 0) + 2 * XorBits(n - 1, a / 2, b / 2)
  }

  function Range2(n: nat): (r: nat)
    ensures r >= 1
  {
    if n == 0 then 1 else 2 * Range2(n - 1)
  }

  /** Binary digit `i` of a number. */
  function Digit(x: nat, i: nat): (d: nat)
    ensures d == 0 || d == 1
  {
    if i == 0 then x % 2 else Digit(x / 2, i - 1)
  }

  /** A digit of the result is 1 exactly when the operands differ there. */
  lemma {:induction false} XorDigit(n: nat, a: nat, b: nat, i: nat)
    requires i < n
    ensures Digit(XorBits(n, a, b), i) == if Digit(a, i) != Digit(b, i) then 1 else 0
    decreases n
  {
    if i > 0 {
      XorDigit(n - 1, a / 2, b / 2, i - 1);
      assert XorBits(n, a, b) / 2 == XorBits(n - 1, a / 2, b / 2);
    }
  }

  /** Doing it twice gives the number back. */
  lemma {:induction false} XorTwice(n: nat, a: nat, b: nat)
    requires a < Range2(n)
    ensures XorBits(n, XorBits(n, a, b), b) == a
    decreases n
  {
    if n > 0 {
      XorTwice(n - 1, a / 2, b / 2);
      var x := XorBits(n, a, b);
      assert x / 2 == XorBits(n - 1, a / 2, b / 2) && x % 2 == Differ(a, b);
    }
  }

  lemma {:induction false} XorCommutes(n: nat, a: nat, b: nat)
    ensures XorBits(n, a, b) == XorBits(n, b, a)
    decreases n
  {
    if n > 0 {
      XorCommutes(n - 1, a / 2, b / 2);
    }
  }

  lemma EightBits()
    ensures Range2(8) == 256
  {
    assert Range2(4) == 16;
  }

  // ----------------------------------------------------------------------- one step

  const FNV_START: U64 := 14695981039346656037
  const FNV_PRIME: nat := 1099511628211

  /** The inverse of the prime modulo 2^64. */
  const FNV_INVERSE: nat := 14886173955864302971

  /** The state with one byte folded into its low eight bits. */
  function Folded(h: U64, b: Byte): U64 {
    EightBits();
    h - h % 256 + XorBits(8, h % 256, b)
  }

  /** One FNV-1a step: exclusive or into the low byte, then multiply modulo 2^64. */
  function Mix(h: U64, b: Byte): U64 {
    (Folded(h, b) * FNV_PRIME) % U64_RANGE
  }

  lemma FoldedParts(h: U64, b: Byte)
    ensures Folded(h, b) / 256 == h / 256 && Folded(h, b) % 256 == XorBits(8, h % 256, b)
  {
    hide XorBits, Range2;
    EightBits();
    var x := XorBits(8, h % 256, b);
    assert Folded(h, b) == 256 * (h / 256) + x;
  }

  lemma FoldedInjective(h: U64, b: Byte, g: U64, c: Byte)
    requires Folded(h, b) == Folded(g, c)
    ensures h == g ==> b == c
    ensures b == c ==> h == g
  {
    hide Folded, XorBits, Range2;
    EightBits();
    FoldedParts(h, b);
    FoldedParts(g, c);
    XorTwice(8, h % 256, b);
    XorTwice(8, g % 256, c);
    XorTwice(8, b, h % 256);
    XorTwice(8, c, g % 256);
    XorCommutes(8, b, h % 256);
    XorCommutes(8, c, g % 256);
    assert h == 256 * (h / 256) + h % 256 && g == 256 * (g / 256) + g % 256;
  }

  lemma InverseOfPrime()
    ensures FNV_PRIME * FNV_INVERSE == 1 + 887285111055 * U64_RANGE
  {
  }

  /** Multiplying by the prime loses nothing. */
  lemma PrimeInjective(x: U64, y: U64)
    requires (x * FNV_PRIME) % U64_RANGE == (y * FNV_PRIME) % U64_RANGE
    ensures x == y
  {
    InverseOfPrime();
    var k := (x * FNV_PRIME) / U64_RANGE - (y * FNV_PRIME) / U64_RANGE;
    var d: int := x - y;
    assert d * FNV_PRIME == k * U64_RANGE;
    assert d * FNV_PRIME * FNV_INVERSE == k * U64_RANGE * FNV_INVERSE;
    assert d * (FNV_PRIME * FNV_INVERSE) == d + d * 887285111055 * U64_RANGE;
    var q := k * FNV_INVERSE - d * 887285111055;
    assert d == q * U64_RANGE;
    assert q >= 1 ==> d >= U64_RANGE;
    assert q <= -1 ==> d <= -U64_RANGE;
  }

  /** A step can be undone: it is injective in the state and in the byte. */
  lemma MixInjective(h: U64, b: Byte, g: U64, c: Byte)
    requires Mix(h, b) == Mix(g, c)
    ensures h == g ==> b == c
    ensures b == c ==> h == g
  {
    PrimeInjective(Folded(h, b), Folded(g, c));
    FoldedInjective(h, b, g, c);
  }

  // ------------------------------------------------------------------ whole strings

  function FnvFrom(h: U64, bytes: seq<Byte>): U64
    decreases |bytes|
  {
    if bytes == [] then h else FnvFrom(Mix(h, bytes[0]), bytes[1..])
  }

  function Fnv(bytes: seq<Byte>): U64 {
    FnvFrom(FNV_START, bytes)
  }

  lemma {:induction false} FnvConcat(h: U64, a: seq<Byte>, b: seq<Byte>)
    ensures FnvFrom(h, a + b) == FnvFrom(FnvFrom(h, a), b)
    decreases |a|
  {
    hide Mix;
    if a == [] {
      assert a + b == b;
    } else {
      assert (a + b)[1..] == a[1..] + b;
      FnvConcat(Mix(h, a[0]), a[1..], b);
    }
  }

  /** The same bytes keep different states different. */
  lemma {:induction false} FnvFromInjective(h: U64, g: U64, bytes: seq<Byte>)
    requires FnvFrom(h, bytes) == FnvFrom(g, bytes)
    ensures h == g
    decreases |bytes|
  {
    hide Mix;
    if bytes != [] {
      FnvFromInjective(Mix(h, bytes[0]), Mix(g, bytes[0]), bytes[1..]);
      MixInjective(h, bytes[0], g, bytes[0]);
    }
  }

  /** Altering exactly one byte always alters the hash. */
  lemma OneByteMatters(bytes: seq<Byte>, i: nat, b: Byte)
    requires i < |bytes| && b != bytes[i]
    ensures Fnv(bytes[i := b]) != Fnv(bytes)
  {
    hide Mix;
    var front, rest := bytes[..i], bytes[i + 1..];
    assert bytes == front + ([bytes[i]] + rest) && bytes[i := b] == front + ([b] + rest);
    FnvConcat(FNV_START, front, [bytes[i]] + rest);
    FnvConcat(FNV_START, front, [b] + rest);
    var h := FnvFrom(FNV_START, front);
    assert ([bytes[i]] + rest)[1..] == rest && ([b] + rest)[1..] == rest;
    if Fnv(bytes[i := b]) == Fnv(bytes) {
      FnvFromInjective(Mix(h, bytes[i]), Mix(h, b), rest);
      MixInjective(h, bytes[i], h, b);
    }
  }

  /** The published values of the hash for the empty string and for "a". */
  lemma PublishedValues()
    ensures Fnv([]) == 0xcbf29ce484222325
    ensures Fnv([0x61]) == 0xaf63dc4c8601ec8c
  {
    hide Mix, XorBits, DigitSum;
    Unfold(FNV_START, 0x61, []);
    DigitsForA();
    XorOfBytes(0x25, 0x61);
    MixIs(FNV_START, 0x61, 0x44);
    assert ((FNV_START - 0x25 + 0x44) * FNV_PRIME) % U64_RANGE == 0xaf63dc4c8601ec8c;
  }

  lemma DigitsForA()
    ensures DigitSum(0x25, 0x61) == 0x44
  {
  }

  lemma Unfold(h: U64, b: Byte, rest: seq<Byte>)
    ensures FnvFrom(h, [b] + rest) == FnvFrom(Mix(h, b), rest)
    ensures FnvFrom(h, []) == h
  {
    assert ([b] + rest)[1..] == rest;
  }

  /** The exclusive or of two bytes, digit by digit. */
  function DigitSum(a: nat, b: nat): nat {
    Differ(a, b) + 2 * Differ(a / 2, b / 2) + 4 * Differ(a / 4, b / 4) + 8 * Differ(a / 8, b / 8)
    + 16 * Differ(a / 16, b / 16) + 32 * Differ(a / 32, b / 32) + 64 * Differ(a / 64, b / 64) + 128 * Differ(a / 128, b / 128)
  }

  lemma XorOfBytes(a: nat, b: nat)
    ensures XorBits(8, a, b) == DigitSum(a, b)
  {
    hide Differ, XorBits;
    XorStep(7, a, b);
    XorStep(6, a / 2, b / 2);
    XorStep(5, a / 4, b / 4);
    XorStep(4, a / 8, b / 8);
    XorStep(3, a / 16, b / 16);
    XorStep(2, a / 32, b / 32);
    XorStep(1, a / 64, b / 64);
    XorStep(0, a / 128, b / 128);
    Halves(a);
    Halves(b);
  }

  lemma Halves(a: nat)
    ensures a / 2 / 2 == a / 4 && a / 4 / 2 == a / 8 && a / 8 / 2 == a / 16
    ensures a / 16 / 2 == a / 32 && a / 32 / 2 == a / 64 && a / 64 / 2 == a / 128
  {
  }

  lemma XorStep(n: nat, a: nat, b: nat)
    ensures XorBits(n + 1, a, b) == Differ(a, b) + 2 * XorBits(n, a / 2, b / 2)
    ensures XorBits(0, a / 2, b / 2) == 0
  {
  }

  lemma MixIs(h: U64, b: Byte, x: Byte)
    requires XorBits(8, h % 256, b) == x
    ensures Mix(h, b) == ((h - h % 256 + x) * FNV_PRIME) % U64_RANGE
  {
  }

  /** `fnv`: the one-shot hash of the launcher. */
  method HashBytes(start: U64, bytes: seq<Byte>) returns (h: U64)
    ensures h == FnvFrom(start, bytes)
  {
    hide Mix;
    h := start;
    for i := 0 to |bytes|
      invariant FnvFrom(start, bytes) == FnvFrom(h, bytes[i..])
    {
      assert bytes[i..][1..] == bytes[i + 1..];
      h := Mix(h, bytes[i]);
    }
  }
}
