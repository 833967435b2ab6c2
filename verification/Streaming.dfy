/**
 Streaming text out of token bytes: an incomplete trailing sequence is held back until
 more bytes arrive, so that the pieces shown are those of decoding the whole at once,
 wherever the byte stream was cut.
 */
module Streaming {
  import opened Wrappers
  import opened Utf8

  // -------------------------------------------------------------- the cut

  /** Where the trailing incomplete sequence starts; the length if there is none. */
  function Cut(s: Text): (c: nat)
    ensures c <= |s|
    decreases |s|
  {
    if s == [] || Scan(s).More? then 0 else Taken(s) + Cut(s[Taken(s)..])
  }

  /** The text that no further byte can change. */
  function CompleteText(s: Text): Text {
    Lossy(s[..Cut(s)])
  }

  function Held(s: Text): Text {
    s[Cut(s)..]
  }

  lemma {:induction false} CutSkipsValid(s: Text)
    ensures Cut(s) == ValidUpTo(s) + Cut(s[ValidUpTo(s)..])
    decreases |s|
  {
    hide Scan;
    if s != [] && Scan(s).Good? {
      var n := Scan(s).n;
      CutSkipsValid(s[n..]);
      assert s[n..][ValidUpTo(s[n..])..] == s[ValidUpTo(s)..];
    } else {
      assert s[0..] == s;
    }
  }

  /** One turn of the loop: what strict decoding reports tells the cut. */
  lemma CutByError(s: Text)
    ensures match FromUtf8(s)
            case Ok(_) => Cut(s) == |s|
            case Err(e) =>
              match e.errorLen
              case Some(n) => Cut(s) == e.validUpTo + n + Cut(s[e.validUpTo + n..])
              case None => Cut(s) == e.validUpTo
  {
    hide Scan, ValidUpTo, Cut;
    var v := ValidUpTo(s);
    if v == |s| {
      CutSkipsValid(s);
    } else {
      StopsAtError(s);
      CutAtError(s, v);
    }
  }

  lemma CutAtError(s: Text, v: nat)
    requires v == ValidUpTo(s) < |s| && !Scan(s[v..]).Good?
    ensures Cut(s) == if Scan(s[v..]).More? then v else v + Scan(s[v..]).n + Cut(s[v + Scan(s[v..]).n..])
  {
    hide Scan, ValidUpTo, Cut;
    CutSkipsValid(s);
    CutOnce(s[v..]);
    if Scan(s[v..]).Bad? {
      assert s[v..][Scan(s[v..]).n..] == s[v + Scan(s[v..]).n..];
    }
  }

  lemma CutOnce(s: Text)
    ensures Cut(s) == if s == [] || Scan(s).More? then 0 else Scan(s).n + Cut(s[Scan(s).n..])
  {
    hide Scan;
  }

  /** `complete_utf8_prefix`: as many turns as there are bytes always suffice. */
  method CompleteUtf8Prefix(bytes: Text) returns (r: nat)
    ensures r == Cut(bytes)
  {
    hide Cut, FromUtf8;
    var offset: nat := 0;
    assert bytes[0..] == bytes;
    for i := 0 to |bytes|
      invariant i <= offset <= |bytes|
      invariant Cut(bytes) == offset + Cut(bytes[offset..])
    {
      CutByError(bytes[offset..]);
      match FromUtf8(bytes[offset..]) {
        case Ok(_) => return |bytes|;
        case Err(error) =>
          match error.errorLen {
            case Some(length) =>
              assert bytes[offset..][error.validUpTo + length..] == bytes[offset + error.validUpTo + length..];
              offset := offset + (error.validUpTo + length);
            case None => return offset + error.validUpTo;
          }
      }
    }
    r := |bytes|;
  }

  // ------------------------------------------------- decoding splits at the cut

  /** Bytes that arrive later never change a finished chunk. */
  lemma ScanStable(a: Text, b: Text)
    requires a != [] && !Scan(a).More?
    ensures Scan(a + b) == Scan(a) && Taken(a + b) == Taken(a) && Shown(a + b) == Shown(a)
    ensures (a + b)[Taken(a)..] == a[Taken(a)..] + b
  {
    assert (a + b)[..Taken(a)] == a[..Taken(a)];
  }

  /** A finished chunk is shown the same when the text stops anywhere behind it. */
  lemma ShownBeforeCut(a: Text, c: nat)
    requires a != [] && !Scan(a).More? && Taken(a) <= c <= |a|
    ensures Lossy(a[..c]) == Shown(a) + Lossy(a[Taken(a)..c])
  {
    var front := a[..c];
    assert front[..Taken(a)] == a[..Taken(a)];
    assert front[Taken(a)..] == a[Taken(a)..c];
  }

  lemma CompleteStep(a: Text)
    requires a != [] && !Scan(a).More?
    ensures CompleteText(a) == Shown(a) + CompleteText(a[Taken(a)..])
    ensures Held(a) == Held(a[Taken(a)..])
  {
    hide Scan, Lossy, Shown;
    var rest := a[Taken(a)..];
    ShownBeforeCut(a, Cut(a));
    assert a[Taken(a)..Cut(a)] == rest[..Cut(rest)];
    assert a[Cut(a)..] == rest[Cut(rest)..];
  }

  /** Nothing is held back but an incomplete sequence. */
  lemma {:induction false} HeldIsIncomplete(a: Text)
    ensures Held(a) == [] || Scan(Held(a)).More?
    decreases |a|
  {
    hide Scan, Lossy, Shown;
    if a != [] && !Scan(a).More? {
      HeldIsIncomplete(a[Taken(a)..]);
      CompleteStep(a);
    } else {
      assert a[0..] == a;
    }
  }

  /** The pending bytes: at most three, and the beginning of a character they do not yet make. */
  lemma HeldIsProperPrefix(a: Text)
    ensures var p := Held(a);
            |p| <= 3 && (p != [] ==> Begins(p) && !IsChar(p) && !StartsWithChar(p))
  {
    hide Scan, Held, Begins, IsChar, StartsWithChar, MaximalSubpart;
    HeldIsIncomplete(a);
    if Held(a) != [] {
      ScanMeetsStandard(Held(a));
    }
  }

  /** What is shown of a longer stream starts with what was shown before. */
  lemma {:induction false} CompleteTextGrows(a: Text, b: Text)
    ensures CompleteText(a + b) == CompleteText(a) + CompleteText(Held(a) + b)
    ensures Held(a + b) == Held(Held(a) + b)
    decreases |a|
  {
    hide Scan, Lossy, Shown, CompleteText, Held;
    if a == [] || Scan(a).More? {
      NothingComplete(a);
    } else {
      var rest := a[Taken(a)..];
      ScanStable(a, b);
      CompleteStep(a);
      CompleteStep(a + b);
      CompleteTextGrows(rest, b);
    }
  }

  lemma NothingComplete(a: Text)
    requires a == [] || Scan(a).More?
    ensures CompleteText(a) == [] && Held(a) == a
  {
    assert a[..0] == [] && a[0..] == a;
  }

  /** Lossy decoding splits at the cut. */
  lemma {:induction false} LossySplits(a: Text)
    ensures Lossy(a) == CompleteText(a) + Lossy(Held(a))
    decreases |a|
  {
    hide Scan, Shown, CompleteText, Held;
    if a == [] || Scan(a).More? {
      NothingComplete(a);
    } else {
      CompleteStep(a);
      LossySplits(a[Taken(a)..]);
    }
  }

  /** A well-formed stream is shown whole, byte for byte. */
  lemma {:induction false} WellFormedShown(a: Text)
    requires FromUtf8(a).Ok?
    ensures CompleteText(a) == a && Held(a) == []
  {
    CutByError(a);
    StrictIsWellFormed(a);
    assert a[..|a|] == a;
  }

  // --------------------------------------------------------- the pending buffer

  /** `take_decoded_text`: the text shown and what stays pending. */
  function TakeText(pending: Text, finish: bool): (Text, Text) {
    if finish then (Lossy(pending), []) else (CompleteText(pending), Held(pending))
  }

  class TextBuffer {
    var pending: Text

    constructor ()
      ensures pending == []
    {
      pending := [];
    }

    method Extend(bytes: Text)
      modifies this
      ensures pending == old(pending) + bytes
    {
      pending := pending + bytes;
    }

    /** `take_decoded_text`: decode up to the cut and drain. */
    method TakeDecodedText(finish: bool) returns (text: Text)
      modifies this
      ensures (text, pending) == TakeText(old(pending), finish)
    {
      var end := |pending|;
      if !finish {
        end := CompleteUtf8Prefix(pending);
      }
      assert finish ==> pending[..end] == pending && pending[end..] == [];
      text := Lossy(pending[..end]);
      pending := pending[end..];
    }
  }

  function Joined(pieces: seq<Text>): Text {
    if pieces == [] then [] else Joined(pieces[..|pieces| - 1]) + pieces[|pieces| - 1]
  }

  /** Feeding pieces one by one: all text shown so far, and the pending bytes. */
  function Streamed(pieces: seq<Text>): (Text, Text) {
    if pieces == [] then ([], [])
    else
      var (text, pending) := Streamed(pieces[..|pieces| - 1]);
      var (shown, left) := TakeText(pending + pieces[|pieces| - 1], false);
      (text + shown, left)
  }

  /**
   Chunk invariance: wherever the stream was cut into pieces, the texts shown are those
   of the whole stream, and finishing yields its lossy decoding.
   */
  lemma {:induction false} ChunkInvariance(pieces: seq<Text>)
    ensures Streamed(pieces) == (CompleteText(Joined(pieces)), Held(Joined(pieces)))
    ensures Streamed(pieces).0 + TakeText(Streamed(pieces).1, true).0 == Lossy(Joined(pieces))
    decreases |pieces|
  {
    hide CompleteText, Held, Lossy;
    if pieces == [] {
      NothingComplete([]);
    } else {
      var front := pieces[..|pieces| - 1];
      ChunkInvariance(front);
      CompleteTextGrows(Joined(front), pieces[|pieces| - 1]);
    }
    LossySplits(Joined(pieces));
  }
}
