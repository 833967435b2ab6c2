/**
 Exact dyadic literals from the number one alone: every term is one BML application with
 integer operand and power of two, so any operator that is exact on those makes each node
 evaluate to its literal.
 */
module DyadicLiterals {
  import opened Bytes
  import opened Dag
  import opened Machine
  import opened Rebinding

  function Pow2(n: int): real
    decreases if n < 0 then -n else n
  {
    if n == 0 then 1.0 else if n > 0 then 2.0 * Pow2(n - 1) else Pow2(n + 1) / 2.0
  }

  /** `bml(n, 2^k) = 2^n - k` without rounding, where that is an integer or a power of two. */
  ghost predicate ExactOnPowers<V>(m: Arith<V>, lit: real -> V) {
    && m.one == lit(1.0) && m.zero == lit(0.0)
    && forall n: int, k: int {:trigger lit(n as real), Pow2(k)} ::
         -32 <= n <= 32 && 0 <= k <= 32 && (n >= 0 || k == 0) ==>
           m.bml(lit(n as real), lit(Pow2(k))) == lit(Pow2(n) - k as real)
  }

  // ------------------------------------------------------------------- the terms

  /** BML of two earlier terms (-1 is the given one), meant as 2^n - k. */
  datatype Term = Term(left: int, right: int, n: int, k: int)

  /** The terms in building order. */
  function TermAt(j: nat): (t: Term)
    requires j < 23
    ensures -1 <= t.left < j && -1 <= t.right < j
    ensures -32 <= t.n <= 32 && 0 <= t.k <= 32 && (t.n >= 0 || t.k == 0)
  {
    match j
    case 0 => Term(-1, -1, 1, 0)  // 2
    case 1 => Term(0, -1, 2, 0)   // 4
    case 2 => Term(-1, 1, 1, 2)   // 0
    case 3 => Term(0, 0, 2, 1)    // 3
    case 4 => Term(3, -1, 3, 0)   // 8
    case 5 => Term(3, 4, 3, 3)    // 5
    case 6 => Term(3, 1, 3, 2)    // 6
    case 7 => Term(3, 0, 3, 1)    // 7
    case 8 => Term(1, -1, 4, 0)   // 16
    case 9 => Term(5, -1, 5, 0)   // 32
    case 10 => Term(6, -1, 6, 0)   // 64
    case 11 => Term(7, -1, 7, 0)   // 128
    case 12 => Term(4, -1, 8, 0)   // 256
    case 13 => Term(1, 11, 4, 7)   // 9
    case 14 => Term(13, -1, 9, 0)  // 512
    case 15 => Term(-1, 4, 1, 3)   // -1
    case 16 => Term(15, -1, -1, 0) // 1/2
    case 17 => Term(-1, 10, 1, 6)  // -4
    case 18 => Term(17, -1, -4, 0) // 1/16
    case 19 => Term(-1, 11, 1, 7)  // -5
    case 20 => Term(19, -1, -5, 0) // 1/32
    case 21 => Term(9, -1, 32, 0)  // 2^32
    case 22 => Term(1, 21, 4, 32)  // -16
  }

  /** What a term is meant to be. */
  function Meaning(j: int): real
    requires -1 <= j < 23
  {
    if j == -1 then 1.0 else Pow2(TermAt(j).n) - TermAt(j).k as real
  }

  /** The node of term `j` when the terms start at `base`. */
  function NodeOf(base: nat, one: U32, j: int): nat
    requires -1 <= j < 23
  {
    if j == -1 then one else base + j
  }

  /** The builder after the first `n` terms. */
  function WithTerms(b: NodeSoA, one: U32, n: nat): (r: NodeSoA)
    requires one < |b.kinds| && |b.kinds| + 23 <= U32_RANGE && n <= 23
    ensures |r.kinds| == |b.kinds| + n
  {
    if n == 0 then b
    else
      var t := TermAt(n - 1);
      Pushed(WithTerms(b, one, n - 1), BmlNode, NodeOf(|b.kinds|, one, t.left), NodeOf(|b.kinds|, one, t.right))
  }

  lemma {:induction false} TermsValid(b: NodeSoA, one: U32, n: nat)
    requires b.Valid() && one < |b.kinds| && |b.kinds| + 23 <= U32_RANGE && n <= 23
    ensures WithTerms(b, one, n).Valid() && Extends(b, WithTerms(b, one, n))
    decreases n
  {
    hide TermAt;
    if n > 0 {
      TermsValid(b, one, n - 1);
    }
  }

  lemma {:induction false} TermsVars(b: NodeSoA, one: U32, n: nat, vars: nat)
    requires one < |b.kinds| && |b.kinds| + 23 <= U32_RANGE && n <= 23 && VarsBelow(b, vars)
    ensures VarsBelow(WithTerms(b, one, n), vars)
    decreases n
  {
    hide TermAt;
    if n > 0 {
      TermsVars(b, one, n - 1, vars);
    }
  }

  lemma Powers()
    ensures Pow2(-5) == 0.03125 && Pow2(-4) == 0.0625 && Pow2(-1) == 0.5 && Pow2(0) == 1.0 && Pow2(1) == 2.0
    ensures Pow2(2) == 4.0 && Pow2(3) == 8.0 && Pow2(4) == 16.0 && Pow2(5) == 32.0 && Pow2(6) == 64.0 && Pow2(7) == 128.0
    ensures Pow2(8) == 256.0 && Pow2(9) == 512.0 && Pow2(32) == 4294967296.0
  {
    assert Pow2(-2) == 0.25 && Pow2(-3) == 0.125;
    assert Pow2(12) == 4096.0 by { assert Pow2(10) == 1024.0; }
    assert Pow2(16) == 65536.0 by { assert Pow2(14) == 16384.0; }
    assert Pow2(20) == 1048576.0 by { assert Pow2(18) == 262144.0; }
    assert Pow2(24) == 16777216.0 by { assert Pow2(22) == 4194304.0; }
    assert Pow2(28) == 268435456.0 by { assert Pow2(26) == 67108864.0; }
    assert Pow2(30) == 1073741824.0;
  }

  /** Each term's operands are meant as an integer and a power of two. */
  lemma TermExponents(j: nat)
    requires j < 23
    ensures Meaning(TermAt(j).left) == TermAt(j).n as real && Meaning(TermAt(j).right) == Pow2(TermAt(j).k)
  {
    hide Pow2;
    Powers();
    match j {
      case 0 =>
      case 1 =>
      case 2 =>
      case 3 =>
      case 4 =>
      case 5 =>
      case 6 =>
      case 7 =>
      case 8 =>
      case 9 =>
      case 10 =>
      case 11 =>
      case 12 =>
      case 13 =>
      case 14 =>
      case 15 =>
      case 16 =>
      case 17 =>
      case 18 =>
      case 19 =>
      case 20 =>
      case 21 =>
      case 22 =>
    }
  }

  lemma ApplyExact<V>(m: Arith<V>, lit: real -> V, n: int, k: int)
    requires ExactOnPowers(m, lit) && -32 <= n <= 32 && 0 <= k <= 32 && (n >= 0 || k == 0)
    ensures m.bml(lit(n as real), lit(Pow2(k))) == lit(Pow2(n) - k as real)
  {
    hide Pow2;
  }

  /** Every term evaluates to its meaning. */
  lemma {:induction false} TermMeanings<V>(m: Arith<V>, lit: real -> V, b: NodeSoA, env: Env<V>, one: U32, n: nat)
    requires b.Valid() && one < |b.kinds| && |b.kinds| + 23 <= U32_RANGE && n <= 23
    requires ExactOnPowers(m, lit) && Eval(m, b, env, one) == lit(1.0)
    ensures WithTerms(b, one, n).Valid()
    ensures forall j :: -1 <= j < n ==>
              && NodeOf(|b.kinds|, one, j) < |WithTerms(b, one, n).kinds|
              && Eval(m, WithTerms(b, one, n), env, NodeOf(|b.kinds|, one, j)) == lit(Meaning(j))
    decreases n
  {
    TermsValid(b, one, n);
    if n > 0 {
      TermMeanings(m, lit, b, env, one, n - 1);
      TermsValid(b, one, n - 1);
      TermStep(m, lit, b, env, one, n - 1);
    }
  }

  lemma TermStep<V>(m: Arith<V>, lit: real -> V, b: NodeSoA, env: Env<V>, one: U32, n: nat)
    requires b.Valid() && one < |b.kinds| && |b.kinds| + 23 <= U32_RANGE && n < 23
    requires ExactOnPowers(m, lit) && WithTerms(b, one, n).Valid() && WithTerms(b, one, n + 1).Valid()
    requires forall j :: -1 <= j < n ==>
              && NodeOf(|b.kinds|, one, j) < |WithTerms(b, one, n).kinds|
              && Eval(m, WithTerms(b, one, n), env, NodeOf(|b.kinds|, one, j)) == lit(Meaning(j))
    ensures forall j :: -1 <= j <= n ==>
              && NodeOf(|b.kinds|, one, j) < |WithTerms(b, one, n + 1).kinds|
              && Eval(m, WithTerms(b, one, n + 1), env, NodeOf(|b.kinds|, one, j)) == lit(Meaning(j))
  {
    hide TermAt, Pow2, ExactOnPowers, Eval;
    var before, after := WithTerms(b, one, n), WithTerms(b, one, n + 1);
    forall j | -1 <= j < n
      ensures NodeOf(|b.kinds|, one, j) < |after.kinds| && Eval(m, after, env, NodeOf(|b.kinds|, one, j)) == lit(Meaning(j))
    {
      GrowthKeepsValues(m, before, after, env, NodeOf(|b.kinds|, one, j));
    }
    TermExponents(n);
    ApplyExact(m, lit, TermAt(n).n, TermAt(n).k);
    TermValue(m, b, env, one, n);
  }

  lemma TermValue<V>(m: Arith<V>, b: NodeSoA, env: Env<V>, one: U32, n: nat)
    requires one < |b.kinds| && |b.kinds| + 23 <= U32_RANGE && n < 23 && WithTerms(b, one, n + 1).Valid()
    ensures var after := WithTerms(b, one, n + 1);
            var left, right := NodeOf(|b.kinds|, one, TermAt(n).left), NodeOf(|b.kinds|, one, TermAt(n).right);
            && left < |after.kinds| && right < |after.kinds|
            && Eval(m, after, env, |b.kinds| + n) == m.bml(Eval(m, after, env, left), Eval(m, after, env, right))
  {
    hide TermAt;
  }

  // ---------------------------------------------------------------- the literals

  /** The binary64 pattern of 2^e, in normal range. */
  function PowerBits(e: int): (b: U64)
    requires -32 <= e <= 32
    ensures b < 0x8000_0000_0000_0000
  {
    (1023 + e) * 0x10_0000_0000_0000
  }

  /** Bit patterns mean the numbers they encode: zero, powers of two, and their negations. */
  ghost predicate Represents<V>(value: U64 -> V, lit: real -> V) {
    && value(ZERO_BITS) == lit(0.0)
    && forall e: int {:trigger PowerBits(e)} :: -32 <= e <= 32 ==>
         value(PowerBits(e)) == lit(Pow2(e)) && value(0x8000_0000_0000_0000 + PowerBits(e)) == lit(-Pow2(e))
  }

  /** The number a pattern encodes in binary64, apart from subnormals, infinities and NaNs. */
  function DoubleOf(bits: U64): real {
    var fraction := bits % 0x10_0000_0000_0000;
    var exponent := bits / 0x10_0000_0000_0000 % 2048;
    var magnitude := if exponent == 0 then 0.0 else (1.0 + fraction as real / 4503599627370496.0) * Pow2(exponent - 1023);
    if bits / 0x8000_0000_0000_0000 == 1 then -magnitude else magnitude
  }

  lemma PowerBitsDecode(e: int)
    requires -32 <= e <= 32
    ensures DoubleOf(PowerBits(e)) == Pow2(e) && DoubleOf(0x8000_0000_0000_0000 + PowerBits(e)) == -Pow2(e)
    ensures DoubleOf(ZERO_BITS) == 0.0
  {
    hide Pow2, DoubleOf;
    PowerDecodes(PowerBits(e), 0, 1023 + e);
    PowerDecodes(0x8000_0000_0000_0000 + PowerBits(e), 1, 1023 + e);
    ZeroDecodes();
  }

  lemma ZeroDecodes()
    ensures DoubleOf(ZERO_BITS) == 0.0
  {
    hide Pow2;
  }

  lemma PowerDecodes(bits: U64, sign: nat, exponent: nat)
    requires bits == (2048 * sign + exponent) * 0x10_0000_0000_0000 && sign <= 1 && 0 < exponent < 2048
    ensures DoubleOf(bits) == if sign == 1 then -Pow2(exponent - 1023) else Pow2(exponent - 1023)
  {
    hide Pow2;
    assert bits % 0x10_0000_0000_0000 == 0 && bits / 0x10_0000_0000_0000 == 2048 * sign + exponent;
    assert bits / 0x10_0000_0000_0000 % 2048 == exponent && bits / 0x8000_0000_0000_0000 == sign;
    assert 1.0 + 0 as real / 4503599627370496.0 == 1.0;
  }

  /** Whoever decodes patterns as binary64 represents what the table needs. */
  lemma DecodingRepresents<V>(value: U64 -> V, lit: real -> V)
    requires forall bits: U64 :: value(bits) == lit(DoubleOf(bits))
    ensures Represents(value, lit)
  {
    hide DoubleOf, Pow2, PowerBits;
    forall e: int | -32 <= e <= 32
      ensures value(PowerBits(e)) == lit(Pow2(e)) && value(0x8000_0000_0000_0000 + PowerBits(e)) == lit(-Pow2(e))
    {
      PowerBitsDecode(e);
    }
    PowerBitsDecode(0);
  }

  /** The table `dyadic_literals` returns: each literal with the node that constructs it. */
  function TableOf(zero: U32, one: U32, two: U32, four: U32, sixteen: U32, thirtyTwo: U32, sixtyFour: U32,
                   oneTwentyEight: U32, twoFiftySix: U32, fiveTwelve: U32, half: U32, oneSixteenth: U32,
                   oneThirtySecond: U32, minusSixteen: U32): Literals
  {
    [(ZERO_BITS, zero), (PowerBits(0), one), (PowerBits(1), two), (PowerBits(2), four), (PowerBits(4), sixteen),
     (PowerBits(5), thirtyTwo), (PowerBits(6), sixtyFour), (PowerBits(7), oneTwentyEight), (PowerBits(8), twoFiftySix),
     (PowerBits(9), fiveTwelve), (PowerBits(-1), half), (PowerBits(-4), oneSixteenth), (PowerBits(-5), oneThirtySecond),
     (0x8000_0000_0000_0000 + PowerBits(4), minusSixteen)]
  }

  function Table(base: nat, one: U32): Literals
    requires base + 23 <= U32_RANGE
  {
    TableOf(base + 2, one, base, base + 1, base + 8, base + 9, base + 10, base + 11, base + 12, base + 14, base + 16,
            base + 18, base + 20, base + 22)
  }

  /** The numbers in the table, and the term that constructs each of them. */
  lemma TableNumbers(base: nat, one: U32)
    requires base + 23 <= U32_RANGE
    ensures var numbers := [0.0, 1.0, 2.0, 4.0, 16.0, 32.0, 64.0, 128.0, 256.0, 512.0, 0.5, 0.0625, 0.03125, -16.0];
            |Table(base, one)| == |numbers| && forall i :: 0 <= i < |numbers| ==> DoubleOf(Table(base, one)[i].0) == numbers[i]
  {
    hide DoubleOf, Pow2, PowerBits;
    Powers();
    PowerBitsDecode(0);
    PowerBitsDecode(1);
    PowerBitsDecode(2);
    PowerBitsDecode(4);
    PowerBitsDecode(5);
    PowerBitsDecode(6);
    PowerBitsDecode(7);
    PowerBitsDecode(8);
    PowerBitsDecode(9);
    PowerBitsDecode(-1);
    PowerBitsDecode(-4);
    PowerBitsDecode(-5);
  }

  lemma TableNodes(base: nat, one: U32, l: (U64, U32))
    requires base + 23 <= U32_RANGE && l in Table(base, one)
    ensures base <= l.1 < base + 23 || l.1 == one
  {
    hide PowerBits;
  }

  /** The nodes the table names are the constructions of its literals. */
  lemma TableHolds<V>(m: Arith<V>, lit: real -> V, value: U64 -> V, b: NodeSoA, env: Env<V>, one: U32)
    requires b.Valid() && one < |b.kinds| && |b.kinds| + 23 <= U32_RANGE
    requires ExactOnPowers(m, lit) && Represents(value, lit) && Eval(m, b, env, one) == lit(1.0)
    ensures WithTerms(b, one, 23).Valid()
    ensures LiteralsHold(m, WithTerms(b, one, 23), env, value, Table(|b.kinds|, one))
    ensures value(ONE_BITS) == m.one && value(ZERO_BITS) == m.zero
  {
    hide Eval, WithTerms, Pow2, PowerBits, Meaning, Table, TermAt;
    TermMeanings(m, lit, b, env, one, 23);
    var soa, base := WithTerms(b, one, 23), |b.kinds|;
    OneBits();
    forall l | l in Table(base, one)
      ensures l.1 < |soa.kinds| && Eval(m, soa, env, l.1) == value(l.0)
    {
      TableEntry(lit, value, base, one, l);
    }
  }

  lemma OneBits()
    ensures PowerBits(0) == ONE_BITS && Pow2(0) == 1.0 && Meaning(-1) == 1.0
  {
  }

  /** An entry of the table names a term that is meant as the number its bits encode. */
  lemma TableEntry<V>(lit: real -> V, value: U64 -> V, base: nat, one: U32, l: (U64, U32))
    requires base + 23 <= U32_RANGE && Represents(value, lit) && l in Table(base, one)
    ensures exists j :: -1 <= j < 23 && l.1 == NodeOf(base, one, j) && value(l.0) == lit(Meaning(j))
  {
    hide Pow2, PowerBits, Meaning, TermAt, Represents;
    OneBits();
    OtherMeanings();
    ZeroAndOne(value, lit);
    if l == (ZERO_BITS, base + 2) {
      assert l.1 == NodeOf(base, one, 2);
    } else if l == (PowerBits(0), one) {
      assert l.1 == NodeOf(base, one, -1);
    } else if l == (0x8000_0000_0000_0000 + PowerBits(4), base + 22) {
      PowerValue(value, lit, 4, 8);
      assert l.1 == NodeOf(base, one, 22);
    } else if l == (PowerBits(1), base) {
      PowerValue(value, lit, 1, 0);
      assert l.1 == NodeOf(base, one, 0);
    } else if l == (PowerBits(2), base + 1) {
      PowerValue(value, lit, 2, 1);
      assert l.1 == NodeOf(base, one, 1);
    } else if l == (PowerBits(4), base + 8) {
      PowerValue(value, lit, 4, 8);
      assert l.1 == NodeOf(base, one, 8);
    } else if l == (PowerBits(5), base + 9) {
      PowerValue(value, lit, 5, 9);
      assert l.1 == NodeOf(base, one, 9);
    } else if l == (PowerBits(6), base + 10) {
      PowerValue(value, lit, 6, 10);
      assert l.1 == NodeOf(base, one, 10);
    } else if l == (PowerBits(7), base + 11) {
      PowerValue(value, lit, 7, 11);
      assert l.1 == NodeOf(base, one, 11);
    } else if l == (PowerBits(8), base + 12) {
      PowerValue(value, lit, 8, 12);
      assert l.1 == NodeOf(base, one, 12);
    } else if l == (PowerBits(9), base + 14) {
      PowerValue(value, lit, 9, 14);
      assert l.1 == NodeOf(base, one, 14);
    } else if l == (PowerBits(-1), base + 16) {
      PowerValue(value, lit, -1, 16);
      assert l.1 == NodeOf(base, one, 16);
    } else if l == (PowerBits(-4), base + 18) {
      PowerValue(value, lit, -4, 18);
      assert l.1 == NodeOf(base, one, 18);
    } else if l == (PowerBits(-5), base + 20) {
      PowerValue(value, lit, -5, 20);
      assert l.1 == NodeOf(base, one, 20);
    }
  }

  lemma ZeroAndOne<V>(value: U64 -> V, lit: real -> V)
    requires Represents(value, lit)
    ensures value(ZERO_BITS) == lit(0.0) && value(PowerBits(0)) == lit(1.0)
  {
  }

  lemma PowerValue<V>(value: U64 -> V, lit: real -> V, e: int, j: nat)
    requires Represents(value, lit) && j < 23 && TermAt(j).n == e && TermAt(j).k == 0
    ensures value(PowerBits(e)) == lit(Meaning(j)) && value(0x8000_0000_0000_0000 + PowerBits(e)) == lit(-Meaning(j))
  {
    hide Pow2, PowerBits;
  }

  lemma OtherMeanings()
    ensures Meaning(2) == 0.0 && Meaning(22) == -Meaning(8)
    ensures TermAt(0).n == 1 && TermAt(0).k == 0
          && TermAt(1).n == 2 && TermAt(1).k == 0
          && TermAt(8).n == 4 && TermAt(8).k == 0
          && TermAt(9).n == 5 && TermAt(9).k == 0
          && TermAt(10).n == 6 && TermAt(10).k == 0
          && TermAt(11).n == 7 && TermAt(11).k == 0
          && TermAt(12).n == 8 && TermAt(12).k == 0
          && TermAt(14).n == 9 && TermAt(14).k == 0
          && TermAt(16).n == -1 && TermAt(16).k == 0
          && TermAt(18).n == -4 && TermAt(18).k == 0
          && TermAt(20).n == -5 && TermAt(20).k == 0
  {
    hide Pow2;
    Powers();
  }

  // Whether the builder holds the first `j` terms.
  ghost predicate Has(soa: NodeSoA, b: NodeSoA, one: U32, j: nat) {
    one < |b.kinds| && |b.kinds| + 23 <= U32_RANGE && j <= 23 && soa == WithTerms(b, one, j)
  }

  /** One application of BML to earlier terms. */
  method Next(builder: Builder, ghost b: NodeSoA, ghost one: U32, ghost j: nat, left: U32, right: U32) returns (id: U32)
    requires j < 23 && Has(builder.soa, b, one, j)
    requires left == NodeOf(|b.kinds|, one, TermAt(j).left) && right == NodeOf(|b.kinds|, one, TermAt(j).right)
    modifies builder
    ensures Has(builder.soa, b, one, j + 1) && id == |b.kinds| + j
  {
    hide TermAt;
    id := builder.Bml(left, right);
  }

  lemma OperandsAre()
    ensures TermAt(0).left == -1 && TermAt(0).right == -1
    ensures TermAt(1).left == 0 && TermAt(1).right == -1
    ensures TermAt(2).left == -1 && TermAt(2).right == 1
    ensures TermAt(3).left == 0 && TermAt(3).right == 0
    ensures TermAt(4).left == 3 && TermAt(4).right == -1
    ensures TermAt(5).left == 3 && TermAt(5).right == 4
    ensures TermAt(6).left == 3 && TermAt(6).right == 1
    ensures TermAt(7).left == 3 && TermAt(7).right == 0
    ensures TermAt(8).left == 1 && TermAt(8).right == -1
    ensures TermAt(9).left == 5 && TermAt(9).right == -1
    ensures TermAt(10).left == 6 && TermAt(10).right == -1
    ensures TermAt(11).left == 7 && TermAt(11).right == -1
    ensures TermAt(12).left == 4 && TermAt(12).right == -1
    ensures TermAt(13).left == 1 && TermAt(13).right == 11
    ensures TermAt(14).left == 13 && TermAt(14).right == -1
    ensures TermAt(15).left == -1 && TermAt(15).right == 4
    ensures TermAt(16).left == 15 && TermAt(16).right == -1
    ensures TermAt(17).left == -1 && TermAt(17).right == 10
    ensures TermAt(18).left == 17 && TermAt(18).right == -1
    ensures TermAt(19).left == -1 && TermAt(19).right == 11
    ensures TermAt(20).left == 19 && TermAt(20).right == -1
    ensures TermAt(21).left == 9 && TermAt(21).right == -1
    ensures TermAt(22).left == 1 && TermAt(22).right == 21
  {
  }

  lemma NoTerms(b: NodeSoA, one: U32)
    requires one < |b.kinds| && |b.kinds| + 23 <= U32_RANGE
    ensures Has(b, b, one, 0)
  {
  }

  lemma HasAll(soa: NodeSoA, b: NodeSoA, one: U32)
    requires Has(soa, b, one, 23)
    ensures one < |b.kinds| && |b.kinds| + 23 <= U32_RANGE && soa == WithTerms(b, one, 23)
  {
  }

  /** The first eight terms. */
  method BuildDigits(builder: Builder, ghost b: NodeSoA, one: U32)
    returns (two: U32, four: U32, zero: U32, three: U32, eight: U32, five: U32, six: U32, seven: U32)
    requires builder.soa == b && one < |b.kinds| && |b.kinds| + 23 <= U32_RANGE
    modifies builder
    ensures Has(builder.soa, b, one, 8)
    ensures two == |b.kinds| && four == two + 1 && zero == two + 2 && three == two + 3
    ensures eight == two + 4 && five == two + 5 && six == two + 6 && seven == two + 7
  {
    hide Has, TermAt;
    OperandsAre();
    NoTerms(b, one);
    two := Next(builder, b, one, 0, one, one);
    four := Next(builder, b, one, 1, two, one);
    zero := Next(builder, b, one, 2, one, four);
    three := Next(builder, b, one, 3, two, two);
    eight := Next(builder, b, one, 4, three, one);
    five := Next(builder, b, one, 5, three, eight);
    six := Next(builder, b, one, 6, three, four);
    seven := Next(builder, b, one, 7, three, two);
  }

  /** `dyadic_literals`. */
  method Build(builder: Builder, one: U32) returns (literals: Literals)
    requires builder.soa.Valid() && one < |builder.soa.kinds| && |builder.soa.kinds| + 23 <= U32_RANGE
    modifies builder
    ensures builder.soa == WithTerms(old(builder.soa), one, 23)
    ensures literals == Table(old(|builder.soa.kinds|), one)
  {
    hide Has, TermAt, TableOf;
    ghost var b := builder.soa;
    OperandsAre();
    var two, four, zero, three, eight, five, six, seven := BuildDigits(builder, b, one);
    var sixteen := Next(builder, b, one, 8, four, one);
    var thirtyTwo := Next(builder, b, one, 9, five, one);
    var sixtyFour := Next(builder, b, one, 10, six, one);
    var oneTwentyEight := Next(builder, b, one, 11, seven, one);
    var twoFiftySix := Next(builder, b, one, 12, eight, one);
    var nine := Next(builder, b, one, 13, four, oneTwentyEight);
    var fiveTwelve := Next(builder, b, one, 14, nine, one);
    var minusOne := Next(builder, b, one, 15, one, eight);
    var half := Next(builder, b, one, 16, minusOne, one);
    var minusFour := Next(builder, b, one, 17, one, sixtyFour);
    var oneSixteenth := Next(builder, b, one, 18, minusFour, one);
    var minusFive := Next(builder, b, one, 19, one, oneTwentyEight);
    var oneThirtySecond := Next(builder, b, one, 20, minusFive, one);
    var twoTo32 := Next(builder, b, one, 21, thirtyTwo, one);
    var minusSixteen := Next(builder, b, one, 22, four, twoTo32);
    HasAll(builder.soa, b, one);
    literals := TableOf(zero, one, two, four, sixteen, thirtyTwo, sixtyFour, oneTwentyEight, twoFiftySix, fiveTwelve, half,
                        oneSixteenth, oneThirtySecond, minusSixteen);
  }

  // ------------------------------------------------ templates over these literals

  function DyadicBits(): seq<U64> {
    [ZERO_BITS, PowerBits(0), PowerBits(1), PowerBits(2), PowerBits(4), PowerBits(5), PowerBits(6), PowerBits(7),
     PowerBits(8), PowerBits(9), PowerBits(-1), PowerBits(-4), PowerBits(-5), 0x8000_0000_0000_0000 + PowerBits(4)]
  }

  /** A template of `nInputs` variables whose literals are all among `bits`. */
  ghost predicate CoveredBy(t: Template, nInputs: nat, bits: seq<U64>) {
    && t.dag.Valid()
    && forall k :: 0 <= k < t.dag.Size() ==>
         match t.dag.kinds[k]
         case VarNode(id) => id < nInputs
         case ConstNode(id) => id < |t.constPool| && t.constPool[id] in bits
         case OneNode => ONE_BITS in bits
         case ZeroNode => ZERO_BITS in bits
         case BmlNode => true
  }

  function Keys(literals: Literals): (bits: seq<U64>)
    ensures |bits| == |literals|
  {
    seq(|literals|, k requires 0 <= k < |literals| => literals[k].0)
  }

  lemma {:induction false} FindsKeys(literals: Literals, bits: U64)
    requires bits in Keys(literals)
    ensures Find(literals, bits).Some?
    decreases |literals|
  {
    if literals[0].0 != bits {
      var k :| 0 <= k < |literals| && Keys(literals)[k] == bits;
      assert Keys(literals[1..])[k - 1] == bits;
      FindsKeys(literals[1..], bits);
    }
  }

  lemma CoveredIsBound(t: Template, inputs: seq<U32>, literals: Literals)
    requires CoveredBy(t, |inputs|, Keys(literals))
    ensures Bound(t, inputs, literals)
  {
    hide Find, Keys;
    forall k | 0 <= k < t.dag.Size() && !t.dag.kinds[k].BmlNode?
      ensures Leaf(t, k, inputs, literals).Some?
    {
      match t.dag.kinds[k]
      case OneNode => FindsKeys(literals, ONE_BITS);
      case ZeroNode => FindsKeys(literals, ZERO_BITS);
      case VarNode(id) =>
      case ConstNode(id) => FindsKeys(literals, t.constPool[id]);
    }
  }

  lemma TableKeys(zero: U32, one: U32, two: U32, four: U32, sixteen: U32, thirtyTwo: U32, sixtyFour: U32,
                  oneTwentyEight: U32, twoFiftySix: U32, fiveTwelve: U32, half: U32, oneSixteenth: U32,
                  oneThirtySecond: U32, minusSixteen: U32)
    ensures Keys(TableOf(zero, one, two, four, sixteen, thirtyTwo, sixtyFour, oneTwentyEight, twoFiftySix, fiveTwelve, half,
                         oneSixteenth, oneThirtySecond, minusSixteen)) == DyadicBits()
  {
    hide PowerBits;
  }

  lemma KeysPush(literals: Literals, bits: U64, node: U32)
    ensures Keys(literals + [(bits, node)]) == Keys(literals) + [bits]
  {
  }
}
