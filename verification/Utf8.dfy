/**
 UTF-8 as the standards define it, and the scanner behind `from_utf8` and
 `from_utf8_lossy`: the byte syntax of section 4 of RFC 3629, and the replacement of
 maximal subparts of section 3.9 of the Unicode Standard. A text is its UTF-8 bytes.
 */
module Utf8 {
  import opened Wrappers
  import opened Bytes

  type Text = seq<Byte>

  /** U+FFFD in UTF-8. */
  const REPLACEMENT: Text := [0xEF, 0xBF, 0xBD]

  // -------------------------------------------------------------- the standards

  predicate IsTail(b: Byte) {
    0x80 <= b <= 0xBF
  }

  /** One encoded character: the productions of section 4 of RFC 3629. */
  predicate IsChar(s: Text) {
    || (|s| == 1 && s[0] <= 0x7F)
    || (|s| == 2 && 0xC2 <= s[0] <= 0xDF && IsTail(s[1]))
    || (|s| == 3 && IsTail(s[2])
        && (|| (s[0] == 0xE0 && 0xA0 <= s[1] <= 0xBF)
            || (0xE1 <= s[0] <= 0xEC && IsTail(s[1]))
            || (s[0] == 0xED && 0x80 <= s[1] <= 0x9F)
            || (0xEE <= s[0] <= 0xEF && IsTail(s[1]))))
    || (|s| == 4 && IsTail(s[2]) && IsTail(s[3])
        && (|| (s[0] == 0xF0 && 0x90 <= s[1] <= 0xBF)
            || (0xF1 <= s[0] <= 0xF3 && IsTail(s[1]))
            || (s[0] == 0xF4 && 0x80 <= s[1] <= 0x8F)))
  }

  /** Unicode scalar values: all code points but the surrogates. */
  predicate IsScalarValue(c: nat) {
    c < 0xD800 || 0xE000 <= c <= 0x10FFFF
  }

  /** The encoding of section 3 of RFC 3629: six bits in each byte after the first. */
  function Encoded(c: nat): (s: Text)
    requires IsScalarValue(c)
  {
    if c < 0x80 then [c]
    else if c < 0x800 then [0xC0 + c / 64, 0x80 + c % 64]
    else if c < 0x1_0000 then [0xE0 + c / 4096, 0x80 + c / 64 % 64, 0x80 + c % 64]
    else [0xF0 + c / 0x4_0000, 0x80 + c / 4096 % 64, 0x80 + c / 64 % 64, 0x80 + c % 64]
  }

  /** The number an encoded character stands for. */
  function CodePoint(s: Text): (c: int)
    requires IsChar(s)
  {
    if |s| == 1 then s[0]
    else if |s| == 2 then 64 * (s[0] as int - 0xC0) + (s[1] as int - 0x80)
    else if |s| == 3 then 4096 * (s[0] as int - 0xE0) + 64 * (s[1] as int - 0x80) + (s[2] as int - 0x80)
    else 0x4_0000 * (s[0] as int - 0xF0) + 4096 * (s[1] as int - 0x80) + 64 * (s[2] as int - 0x80) + (s[3] as int - 0x80)
  }

  /** The productions describe exactly the encodings of the scalar values, each of one value. */
  lemma CharsAreScalarValues(s: Text)
    ensures IsChar(s) ==> CodePoint(s) >= 0 && IsScalarValue(CodePoint(s)) && s == Encoded(CodePoint(s))
    ensures forall c: nat :: IsScalarValue(c) && s == Encoded(c) ==> IsChar(s) && CodePoint(s) == c
    ensures REPLACEMENT == Encoded(0xFFFD)
  {
    if IsChar(s) {
      CharIsEncoded(s);
    }
    forall c: nat | IsScalarValue(c) && s == Encoded(c) ensures IsChar(s) && CodePoint(s) == c {
      EncodedIsChar(c);
    }
  }

  /** Taking six bits at a time, and putting them together. */
  lemma Sextets(c: nat, a: nat, b: nat, d: nat, e: nat)
    requires b < 64 && d < 64 && e < 64
    ensures c == 0x4_0000 * a + 4096 * b + 64 * d + e
            <==> c / 0x4_0000 == a && c / 4096 % 64 == b && c / 64 % 64 == d && c % 64 == e
    ensures c / 4096 == 64 * (c / 0x4_0000) + c / 4096 % 64 && c / 64 == 64 * (c / 4096) + c / 64 % 64
  {
    assert c / 64 / 64 == c / 4096 && c / 4096 / 64 == c / 0x4_0000;
    assert c == 64 * (c / 64) + c % 64;
  }

  lemma CharIsEncoded(s: Text)
    requires IsChar(s)
    ensures CodePoint(s) >= 0 && IsScalarValue(CodePoint(s)) && s == Encoded(CodePoint(s))
  {
    match |s|
    case 1 =>
    case 2 => TwoBytes(s, s[0] as int - 0xC0, s[1] as int - 0x80);
    case 3 => ThreeBytes(s, s[0] as int - 0xE0, s[1] as int - 0x80, s[2] as int - 0x80);
    case 4 => FourBytes(s, s[0] as int - 0xF0, s[1] as int - 0x80, s[2] as int - 0x80, s[3] as int - 0x80);
  }

  lemma TwoBytes(s: Text, d: int, e: int)
    requires |s| == 2 && IsChar(s) && d == s[0] as int - 0xC0 && e == s[1] as int - 0x80
    ensures CodePoint(s) == 64 * d + e >= 0 && IsScalarValue(CodePoint(s)) && s == Encoded(CodePoint(s))
  {
    Sextets(64 * d + e, 0, 0, d, e);
  }

  lemma ThreeBytes(s: Text, b: int, d: int, e: int)
    requires |s| == 3 && IsChar(s) && b == s[0] as int - 0xE0 && d == s[1] as int - 0x80 && e == s[2] as int - 0x80
    ensures CodePoint(s) == 4096 * b + 64 * d + e >= 0 && IsScalarValue(CodePoint(s)) && s == Encoded(CodePoint(s))
  {
    Sextets(4096 * b + 64 * d + e, 0, b, d, e);
  }

  lemma FourBytes(s: Text, a: int, b: int, d: int, e: int)
    requires |s| == 4 && IsChar(s) && a == s[0] as int - 0xF0 && b == s[1] as int - 0x80
    requires d == s[2] as int - 0x80 && e == s[3] as int - 0x80
    ensures CodePoint(s) == 0x4_0000 * a + 4096 * b + 64 * d + e >= 0
    ensures IsScalarValue(CodePoint(s)) && s == Encoded(CodePoint(s))
  {
    Sextets(0x4_0000 * a + 4096 * b + 64 * d + e, a, b, d, e);
  }

  lemma EncodedIsChar(c: nat)
    requires IsScalarValue(c)
    ensures IsChar(Encoded(c)) && CodePoint(Encoded(c)) == c
  {
    Sextets(c, c / 0x4_0000, c / 4096 % 64, c / 64 % 64, c % 64);
  }

  /** A string of encoded characters. */
  ghost predicate WellFormed(s: Text) {
    s == [] || exists n :: 1 <= n <= |s| && IsChar(s[..n]) && WellFormed(s[n..])
  }

  /** The beginning of some encoded character. */
  ghost predicate Begins(s: Text) {
    exists t :: IsChar(s + t)
  }

  ghost predicate StartsWithChar(s: Text) {
    exists n :: 1 <= n <= |s| && IsChar(s[..n])
  }

  /** The longest beginning of a character at the front of `s`, or one byte. */
  ghost predicate MaximalSubpart(s: Text, n: nat) {
    && 1 <= n <= |s| && (n == 1 || Begins(s[..n]))
    && forall k :: n < k <= |s| ==> !Begins(s[..k])
  }

  /** Lossy decoding as the Unicode Standard recommends it. */
  ghost function Standard(s: Text): Text {
    if s == [] then []
    else if StartsWithChar(s) then
      var n :| 1 <= n <= |s| && IsChar(s[..n]);
      s[..n] + Standard(s[n..])
    else
      ScanMeetsStandard(s);
      var n: nat :| MaximalSubpart(s, n);
      REPLACEMENT + Standard(s[n..])
  }

  // ---------------------------------------------------------------- the scanner

  /** A character, an error of some length, or a sequence that more bytes may complete. */
  datatype Outcome = Good(n: nat) | Bad(n: nat) | More

  /** How many bytes a leading byte announces; 0 if none. */
  function Width(lead: Byte): nat {
    if lead <= 0x7F then 1
    else if 0xC2 <= lead <= 0xDF then 2
    else if 0xE0 <= lead <= 0xEF then 3
    else if 0xF0 <= lead <= 0xF4 then 4
    else 0
  }

  /** Which second bytes a leading byte admits. */
  predicate Second(lead: Byte, b: Byte) {
    && IsTail(b)
    && (lead == 0xE0 ==> b >= 0xA0)
    && (lead == 0xED ==> b <= 0x9F)
    && (lead == 0xF0 ==> b >= 0x90)
    && (lead == 0xF4 ==> b <= 0x8F)
  }

  function Scan(s: Text): (r: Outcome)
    requires s != []
    ensures r.Good? || r.Bad? ==> 1 <= r.n <= |s|
  {
    var w := Width(s[0]);
    if w == 0 then Bad(1)
    else if w == 1 then Good(1)
    else if |s| == 1 then More
    else if !Second(s[0], s[1]) then Bad(1)
    else if w == 2 then Good(2)
    else if |s| == 2 then More
    else if !IsTail(s[2]) then Bad(2)
    else if w == 3 then Good(3)
    else if |s| == 3 then More
    else if !IsTail(s[3]) then Bad(3)
    else Good(4)
  }

  /** The scanner's answers in the standards' words. */
  lemma ScanMeetsStandard(s: Text)
    requires s != []
    ensures StartsWithChar(s) <==> Scan(s).Good?
    ensures match Scan(s)
            case Good(n) => IsChar(s[..n])
            case Bad(n) => MaximalSubpart(s, n) && n < 4
            case More => MaximalSubpart(s, |s|) && |s| < 4 && Begins(s) && !IsChar(s)
  {
    match Scan(s)
    case Good(n) =>
      assert IsChar(s[..n]);
    case Bad(n) =>
      BadEnds(s);
    case More =>
      Completes(s);
      MoreIsNoChar(s);
      assert s[..|s|] == s;
  }

  lemma MoreIsNoChar(s: Text)
    requires s != [] && Scan(s).More?
    ensures !StartsWithChar(s) && !IsChar(s)
  {
  }

  /** An incomplete sequence is the beginning of a character. */
  lemma Completes(s: Text)
    requires s != [] && Scan(s).More?
    ensures Begins(s)
  {
    var second := if s[0] == 0xE0 then 0xA0 else if s[0] == 0xF0 then 0x90 else 0x80;
    var filled := if |s| == 1 then s + [second] else s;
    var padding := seq(Width(s[0]) - |filled|, i => 0x80);
    var t := (filled + padding)[|s|..];
    assert s + t == filled + padding;
    assert IsChar(s + t);
  }

  lemma BadEnds(s: Text)
    requires s != [] && Scan(s).Bad?
    ensures MaximalSubpart(s, Scan(s).n) && !StartsWithChar(s) && Scan(s).n < 4
  {
    var n := Scan(s).n;
    if n > 1 {
      assert Scan(s[..n]).More?;
      Completes(s[..n]);
    }
    forall k | n < k <= |s| ensures !Begins(s[..k]) {
      NeverChar(s, k);
    }
  }

  lemma NeverChar(s: Text, k: nat)
    requires s != [] && Scan(s).Bad? && Scan(s).n < k <= |s|
    ensures !Begins(s[..k])
  {
    forall t ensures !IsChar(s[..k] + t) {
      var whole := s[..k] + t;
      assert whole[0] == s[0] && whole[1] == s[1];
      if k > 2 {
        assert whole[2] == s[2];
      }
      if k > 3 {
        assert whole[3] == s[3];
      }
    }
  }

  /** No encoded character begins another. */
  lemma CharsArePrefixFree(s: Text, n: nat, m: nat)
    requires 1 <= n <= |s| && 1 <= m <= |s| && IsChar(s[..n]) && IsChar(s[..m])
    ensures n == m
  {
    assert s[..n][0] == s[0] == s[..m][0];
  }

  lemma SubpartIsUnique(s: Text, n: nat, m: nat)
    requires MaximalSubpart(s, n) && MaximalSubpart(s, m)
    ensures n == m
  {
  }

  // ------------------------------------------------------------- lossy decoding

  /** The first chunk's length: a character, an error, or all that remains. */
  function Taken(s: Text): (n: nat)
    requires s != []
    ensures 1 <= n <= |s|
  {
    match Scan(s) case Good(n) => n case Bad(n) => n case More => |s|
  }

  /** The text shown for the first chunk. */
  function Shown(s: Text): Text
    requires s != []
  {
    match Scan(s) case Good(n) => s[..n] case Bad(_) => REPLACEMENT case More => REPLACEMENT
  }

  /** `String::from_utf8_lossy`. */
  function Lossy(s: Text): Text {
    if s == [] then [] else Shown(s) + Lossy(s[Taken(s)..])
  }

  /** The scanner decodes as the Unicode Standard recommends. */
  lemma {:induction false} LossyIsStandard(s: Text)
    ensures Lossy(s) == Standard(s)
    decreases |s|
  {
    hide IsChar, Scan, Begins;
    if s != [] {
      ScanMeetsStandard(s);
      LossyIsStandard(s[Taken(s)..]);
      if StartsWithChar(s) {
        forall n | 1 <= n <= |s| && IsChar(s[..n]) ensures n == Taken(s) {
          CharsArePrefixFree(s, n, Taken(s));
        }
      } else {
        forall n: nat | MaximalSubpart(s, n) ensures n == Taken(s) {
          SubpartIsUnique(s, n, Taken(s));
        }
      }
    }
  }

  // ------------------------------------------------------------ `from_utf8`

  /** The length of the longest run of characters at the front. */
  function ValidUpTo(s: Text): (v: nat)
    ensures v <= |s|
    decreases |s|
  {
    if s == [] || !Scan(s).Good? then 0 else Scan(s).n + ValidUpTo(s[Scan(s).n..])
  }

  /** `Utf8Error`: `errorLen` is absent when more input may complete the sequence. */
  datatype Utf8Error = Utf8Error(validUpTo: nat, errorLen: Option<nat>)

  /** `std::str::from_utf8`; a valid string is its own bytes. */
  function FromUtf8(s: Text): (r: Result<Text, Utf8Error>)
    ensures r.Ok? ==> r.value == s
    ensures r.Err? ==> r.error.validUpTo < |s|
    ensures r.Err? && r.error.errorLen.Some? ==> 1 <= r.error.errorLen.value <= |s| - r.error.validUpTo
  {
    var v := ValidUpTo(s);
    if v == |s| then Ok(s)
    else
      StopsAtError(s);
      match Scan(s[v..])
      case Bad(n) => Err(Utf8Error(v, Some(n)))
      case More => Err(Utf8Error(v, None))
  }

  lemma {:induction false} StopsAtError(s: Text)
    requires ValidUpTo(s) < |s|
    ensures !Scan(s[ValidUpTo(s)..]).Good?
    decreases |s|
  {
    hide Scan;
    if Scan(s).Good? {
      var n := Scan(s).n;
      StopsAtError(s[n..]);
      assert s[n..][ValidUpTo(s[n..])..] == s[ValidUpTo(s)..];
    } else {
      assert s[0..] == s;
    }
  }

  /** Strict decoding accepts exactly the well-formed strings, which lossy decoding keeps. */
  lemma {:induction false} StrictIsWellFormed(s: Text)
    ensures FromUtf8(s).Ok? <==> WellFormed(s)
    ensures WellFormed(s) ==> Lossy(s) == s
    decreases |s|
  {
    hide IsChar, Scan, WellFormed;
    if s == [] {
      NothingIsWellFormed();
    } else {
      WellFormedStep(s);
      if Scan(s).Good? {
        var m := Scan(s).n;
        StrictIsWellFormed(s[m..]);
        assert ValidUpTo(s) == m + ValidUpTo(s[m..]);
        assert s == s[..m] + s[m..];
      }
    }
  }

  lemma NothingIsWellFormed()
    ensures WellFormed([])
  {
  }

  lemma WellFormedStep(s: Text)
    requires s != []
    ensures WellFormed(s) <==> Scan(s).Good? && WellFormed(s[Scan(s).n..])
  {
    hide IsChar, Scan, Begins, MaximalSubpart;
    ScanMeetsStandard(s);
    if Scan(s).Good? {
      forall n | 1 <= n <= |s| && IsChar(s[..n]) ensures n == Scan(s).n {
        CharsArePrefixFree(s, n, Scan(s).n);
      }
    }
  }
}
