/**
 The two text-accumulating loops of the server. Sampling is a parameter: `sampled` holds
 the outcome of each step (`None` when the logits are unusable). `accepts(k)` says
 whether the receiver still takes the piece with number `k`.
 */
module Generation {
  import opened Wrappers
  import opened Bytes
  import opened Utf8
  import opened Streaming

  datatype GenError = BadLogits | UnknownToken | BadToken | NonPrefix | NonPrefixFinal | NotUtf8

  /**
   `pieces[id]` is the output of token `id` without removing a leading space; `None` where
   the vocabulary entry is malformed.
   */
  datatype Tokenizer = Tokenizer(
    pieces: seq<Option<Text>>, addSpacePrefix: bool, addBos: bool, addEos: bool, bosId: U32, eosId: U32)

  const SPACE: Byte := 0x20

  function TokenPiece(t: Tokenizer, id: U32): (r: Result<Text, GenError>)
    ensures r.Err? ==> r.error == UnknownToken || r.error == BadToken
  {
    if id >= |t.pieces| then Err(UnknownToken)
    else match t.pieces[id] case None => Err(BadToken) case Some(piece) => Ok(piece)
  }

  /** The bytes of tokens one after another, without one leading space if asked. */
  function PieceBytes(t: Tokenizer, ids: seq<U32>, removeSpace: bool): (r: Result<Text, GenError>)
    ensures r.Err? ==> r.error == UnknownToken || r.error == BadToken
  {
    if ids == [] then Ok([])
    else
      var piece :- TokenPiece(t, ids[0]);
      var rest :- PieceBytes(t, ids[1..], false);
      Ok((if removeSpace && piece != [] && piece[0] == SPACE then piece[1..] else piece) + rest)
  }

  function SkipsBos(t: Tokenizer, ids: seq<U32>): bool {
    t.addBos && ids != [] && ids[0] == t.bosId
  }

  function WithoutSpecial(t: Tokenizer, ids: seq<U32>): seq<U32> {
    var a := if SkipsBos(t, ids) then ids[1..] else ids;
    if t.addEos && a != [] && a[|a| - 1] == t.eosId then a[..|a| - 1] else a
  }

  /** `Tokenizer::decode_bytes` with special tokens skipped. */
  function DecodeBytes(t: Tokenizer, ids: seq<U32>): (r: Result<Text, GenError>)
    ensures r.Err? ==> r.error == UnknownToken || r.error == BadToken
  {
    if exists k :: 0 <= k < |ids| && ids[k] >= |t.pieces| then Err(UnknownToken)
    else PieceBytes(t, WithoutSpecial(t, ids), t.addSpacePrefix && !SkipsBos(t, ids))
  }

  /** `Tokenizer::decode`: strict, unlike the streamed text. */
  function Decode(t: Tokenizer, ids: seq<U32>): Result<Text, GenError> {
    var bytes :- DecodeBytes(t, ids);
    match FromUtf8(bytes)
    case Ok(text) => Ok(text)
    case Err(_) => Err(NotUtf8)
  }

  lemma {:induction false} PieceBytesAppend(t: Tokenizer, ids: seq<U32>, id: U32, removeSpace: bool)
    requires PieceBytes(t, ids + [id], removeSpace).Ok?
    ensures PieceBytes(t, ids, removeSpace).Ok?
    ensures PieceBytes(t, ids, removeSpace).value <= PieceBytes(t, ids + [id], removeSpace).value
    decreases |ids|
  {
    if ids != [] {
      assert (ids + [id])[1..] == ids[1..] + [id];
      PieceBytesAppend(t, ids[1..], id, false);
    }
  }

  /** Decoded bytes only grow by appending, as long as no end token is decoded. */
  lemma DecodedBytesGrow(t: Tokenizer, ids: seq<U32>, id: U32)
    requires t.eosId !in ids && id != t.eosId && DecodeBytes(t, ids + [id]).Ok?
    ensures DecodeBytes(t, ids).Ok? && DecodeBytes(t, ids).value <= DecodeBytes(t, ids + [id]).value
  {
    var longer := ids + [id];
    forall k | 0 <= k < |ids| ensures ids[k] < |t.pieces| {
      assert longer[k] == ids[k];
    }
    if ids != [] {
      assert WithoutSpecial(t, longer) == WithoutSpecial(t, ids) + [id];
      PieceBytesAppend(t, WithoutSpecial(t, ids), id, t.addSpacePrefix && !SkipsBos(t, ids));
    }
  }

  /** What a step adds to the shown text when the decoded bytes grow. */
  lemma ShownTextGrows(a: Text, b: Text)
    requires a <= b
    ensures CompleteText(a) <= CompleteText(b)
  {
    hide CompleteText, Held;
    CompleteTextGrows(a, b[|a|..]);
    assert a + b[|a|..] == b;
  }

  /** The pieces of tokens, for the backend that decodes each on its own. */
  function TokenPieces(t: Tokenizer, ids: seq<U32>): (r: Result<seq<Text>, GenError>)
    ensures r.Ok? ==> |r.value| == |ids|
  {
    if ids == [] then Ok([])
    else
      var front :- TokenPieces(t, ids[..|ids| - 1]);
      var piece :- TokenPiece(t, ids[|ids| - 1]);
      Ok(front + [piece])
  }

  /** Tokens have pieces exactly when each is in the vocabulary with a well-formed entry. */
  lemma {:induction false} TokenPiecesAt(t: Tokenizer, ids: seq<U32>)
    ensures TokenPieces(t, ids).Ok? <==> forall k :: 0 <= k < |ids| ==> ids[k] < |t.pieces| && t.pieces[ids[k]].Some?
    ensures TokenPieces(t, ids).Ok? ==>
              |TokenPieces(t, ids).value| == |ids|
              && forall k :: 0 <= k < |ids| ==> t.pieces[ids[k]] == Some(TokenPieces(t, ids).value[k])
    decreases |ids|
  {
    if ids != [] {
      TokenPiecesAt(t, ids[..|ids| - 1]);
    }
  }

  lemma {:induction false} JoinedCons(piece: Text, pieces: seq<Text>)
    ensures Joined([piece] + pieces) == piece + Joined(pieces)
    decreases |pieces|
  {
    if pieces == [] {
      assert [piece] + pieces == [piece] && [piece][..0] == [];
    } else {
      var front := pieces[..|pieces| - 1];
      assert ([piece] + pieces)[..|pieces|] == [piece] + front;
      JoinedCons(piece, front);
    }
  }

  ghost predicate StartsWithSpace(piece: Text) {
    |piece| > 0 && piece[0] == 0x20
  }

  lemma {:induction false} PieceBytesJoined(t: Tokenizer, ids: seq<U32>, removeSpace: bool)
    ensures PieceBytes(t, ids, removeSpace).Ok? <==> TokenPieces(t, ids).Ok?
    ensures TokenPieces(t, ids).Ok? ==>
              var bytes, pieces := PieceBytes(t, ids, removeSpace).value, TokenPieces(t, ids).value;
              |pieces| == |ids|
              && Joined(pieces) == if removeSpace && ids != [] && StartsWithSpace(pieces[0]) then [0x20] + bytes else bytes
    ensures (forall k :: 0 <= k < |ids| ==> ids[k] < |t.pieces|) ==> PieceBytes(t, ids, removeSpace) != Err(UnknownToken)
    decreases |ids|
  {
    hide TokenPieces, Joined;
    TokenPiecesAt(t, ids);
    if ids == [] {
      NothingFed(t);
    } else {
      TokenPiecesAt(t, ids[1..]);
      PieceBytesJoined(t, ids[1..], false);
      if TokenPieces(t, ids).Ok? {
        var pieces := TokenPieces(t, ids).value;
        assert pieces == [pieces[0]] + TokenPieces(t, ids[1..]).value;
        JoinedCons(pieces[0], TokenPieces(t, ids[1..]).value);
      }
    }
  }

  /**
   The bytes of a list of tokens are those of its pieces, without one start token at the
   front and one end token at the back where the vocabulary adds them. The first byte is
   missing exactly when a space prefix is added, no start token was skipped and the first
   piece begins with a space.
   */
  lemma DecodeBytesJoins(t: Tokenizer, ids: seq<U32>, from: nat, to: nat)
    requires from == if t.addBos && |ids| >= 1 && ids[0] == t.bosId then 1 else 0
    requires to == if t.addEos && from < |ids| && ids[|ids| - 1] == t.eosId then |ids| - 1 else |ids|
    ensures DecodeBytes(t, ids) == Err(UnknownToken) <==> exists k :: 0 <= k < |ids| && ids[k] >= |t.pieces|
    ensures DecodeBytes(t, ids).Ok? <==>
              && (forall k :: 0 <= k < |ids| ==> ids[k] < |t.pieces|)
              && forall k :: from <= k < to ==> t.pieces[ids[k]].Some?
    ensures DecodeBytes(t, ids).Ok? ==>
              TokenPieces(t, ids[from..to]).Ok?
              && var bytes, pieces := DecodeBytes(t, ids).value, TokenPieces(t, ids[from..to]).value;
                 Joined(pieces) == if t.addSpacePrefix && from == 0 && to >= 1 && StartsWithSpace(pieces[0])
                                   then [0x20] + bytes else bytes
  {
    hide PieceBytes, TokenPieces, Joined, StartsWithSpace;
    var kept := ids[from..to];
    assert WithoutSpecial(t, ids) == kept;
    PieceBytesJoined(t, kept, t.addSpacePrefix && from == 0);
    TokenPiecesAt(t, kept);
    forall k | from <= k < to ensures kept[k - from] == ids[k] {
    }
  }

  /** Why a run of the loop over `ids` ended before using every step. */
  ghost predicate Ended(sampled: seq<Option<U32>>, ids: seq<U32>, eosId: U32) {
    |ids| == |sampled| || (|ids| < |sampled| && sampled[|ids|] == Some(eosId))
  }

  ghost predicate Consumed(sampled: seq<Option<U32>>, ids: seq<U32>, eosId: U32) {
    |ids| <= |sampled| && eosId !in ids && forall k :: 0 <= k < |ids| ==> sampled[k] == Some(ids[k])
  }

  ghost predicate AllAccepted(n: nat, accepts: nat -> bool) {
    forall k :: 0 <= k < n ==> accepts(k)
  }

  /**
   The loop of `generate_local`. The first `shown` pieces are those emitted inside the loop,
   and they make up the complete text of the generated bytes. Unless the receiver refuses
   one of them, the result is the lossy decoding of all generated bytes; whether it takes
   the final tail does not matter.
   */
  method GenerateLocal(t: Tokenizer, sampled: seq<Option<U32>>, accepts: nat -> bool)
    returns (r: Result<Text, GenError>, emitted: seq<Text>, ghost ids: seq<U32>, ghost shown: nat)
    ensures r.Ok? ==> r.value == Joined(emitted)
    ensures Consumed(sampled, ids, t.eosId) && TokenPieces(t, ids).Ok?
    ensures var all := Joined(TokenPieces(t, ids).value);
            && Joined(emitted) <= Lossy(all)
            && shown <= |emitted| <= shown + 1 && Joined(emitted[..shown]) == CompleteText(all)
            && (AllAccepted(shown, accepts) && Ended(sampled, ids, t.eosId) ==> r == Ok(Lossy(all)))
    ensures AllAccepted(shown, accepts) && r.Ok? ==> Ended(sampled, ids, t.eosId)
    ensures r.Err? ==> |ids| < |sampled|
                       && match sampled[|ids|]
                          case None => r.error == BadLogits
                          case Some(id) => TokenPiece(t, id).Err? && r.error == TokenPiece(t, id).error
  {
    hide CompleteText, Held, Lossy, Streamed, TokenPieces, TakeText, Joined;
    NothingFed(t);
    var buffer := new TextBuffer();
    var text: Text := [];
    emitted, ids, shown := [], [], 0;
    ghost var pieces: seq<Text> := [];
    for step := 0 to |sampled|
      invariant fresh(buffer) && shown == |emitted|
      invariant |ids| == step && Consumed(sampled, ids, t.eosId) && TokenPieces(t, ids) == Ok(pieces)
      invariant (text, buffer.pending) == Streamed(pieces) && text == Joined(emitted)
      invariant AllAccepted(|emitted|, accepts)
    {
      ChunkInvariance(pieces);
      assert emitted[..shown] == emitted;
      if sampled[step].None? {
        return Err(BadLogits), emitted, ids, shown;
      }
      var id := sampled[step].value;
      if id == t.eosId {
        break;
      }
      var bytes := TokenPiece(t, id);
      if bytes.Err? {
        return Err(bytes.error), emitted, ids, shown;
      }
      FeedStep(t, ids, pieces, id, bytes.value);
      ids, pieces := ids + [id], pieces + [bytes.value];
      buffer.Extend(bytes.value);
      var piece := buffer.TakeDecodedText(false);
      text := text + piece;
      ChunkInvariance(pieces);
      if piece != [] {
        JoinedSnoc(emitted, piece);
        emitted := emitted + [piece];
        shown := |emitted|;
        assert emitted[..shown] == emitted;
        if !accepts(|emitted| - 1) {
          return Ok(text), emitted, ids, shown;
        }
      }
    }
    ChunkInvariance(pieces);
    assert emitted[..shown] == emitted;
    ghost var before := emitted;
    var tail := buffer.TakeDecodedText(true);
    text := text + tail;
    if tail != [] {
      JoinedSnoc(emitted, tail);
      emitted := emitted + [tail];
      assert emitted[..shown] == before;
    }
    r := Ok(text);
  }

  lemma NothingFed(t: Tokenizer)
    ensures TokenPieces(t, []) == Ok([]) && Streamed([]) == ([], []) && Joined([]) == []
  {
  }

  lemma JoinedSnoc(emitted: seq<Text>, piece: Text)
    ensures Joined(emitted + [piece]) == Joined(emitted) + piece
  {
    assert (emitted + [piece])[..|emitted|] == emitted;
  }

  lemma FeedStep(t: Tokenizer, ids: seq<U32>, pieces: seq<Text>, id: U32, bytes: Text)
    requires TokenPieces(t, ids) == Ok(pieces) && TokenPiece(t, id) == Ok(bytes)
    ensures TokenPieces(t, ids + [id]) == Ok(pieces + [bytes])
    ensures var (shown, left) := TakeText(Streamed(pieces).1 + bytes, false);
            Streamed(pieces + [bytes]) == (Streamed(pieces).0 + shown, left)
  {
    hide TakeText;
    assert (ids + [id])[..|ids|] == ids && (pieces + [bytes])[..|pieces|] == pieces;
  }

  /** The emitted pieces as one text, when each step shows a longer text than the last. */
  lemma JoinedPush(emitted: seq<Text>, text: Text, next: Text)
    requires Joined(emitted) == text && text <= next
    ensures Joined(emitted + NewText(text, next)) == next
  {
    if |next| > |text| {
      JoinedSnoc(emitted, next[|text|..]);
    } else {
      assert emitted + [] == emitted;
    }
  }

  /** The piece to emit when the text has become longer. */
  function NewText(text: Text, next: Text): seq<Text> {
    if |next| > |text| then [next[|text|..]] else []
  }

  /**
   The loop of `generate_remote`. Emitted text is never retracted: the non-prefix errors
   do not occur. The final decoding is strict: unless the receiver refuses one of the `shown`
   pieces emitted inside the loop, the run succeeds exactly when the generated bytes are well
   formed, and then returns them unchanged.
   */
  method GenerateRemote(t: Tokenizer, sampled: seq<Option<U32>>, accepts: nat -> bool)
    returns (r: Result<Text, GenError>, emitted: seq<Text>, ghost ids: seq<U32>, ghost shown: nat)
    ensures r != Err(NonPrefix) && r != Err(NonPrefixFinal)
    ensures Consumed(sampled, ids, t.eosId) && DecodeBytes(t, ids).Ok?
    ensures var bytes := DecodeBytes(t, ids).value;
            && Joined(emitted) == CompleteText(bytes)
            && (r.Ok? ==> r.value <= Joined(emitted))
            && shown <= |emitted| && Joined(emitted[..shown]) == CompleteText(bytes)
            && (AllAccepted(shown, accepts) && Ended(sampled, ids, t.eosId) ==>
                  if WellFormed(bytes) then r == Ok(bytes) && Joined(emitted) == bytes else r == Err(NotUtf8))
    ensures AllAccepted(shown, accepts) && r.Ok? ==> Ended(sampled, ids, t.eosId)
    ensures r.Err? && !Ended(sampled, ids, t.eosId) ==>
              |ids| < |sampled|
              && match sampled[|ids|]
                 case None => r.error == BadLogits
                 case Some(id) => DecodeBytes(t, ids + [id]).Err? && r.error == DecodeBytes(t, ids + [id]).error
  {
    hide CompleteText, Held, Lossy, DecodeBytes, FromUtf8, WellFormed, Joined;
    NothingDecoded(t);
    var text: Text := [];
    emitted, ids, shown := [], [], 0;
    var generated: seq<U32> := [];
    ghost var bytesSoFar: Text := [];
    for step := 0 to |sampled|
      invariant generated == ids && |ids| == step && Consumed(sampled, ids, t.eosId)
      invariant DecodeBytes(t, ids) == Ok(bytesSoFar) && text == CompleteText(bytesSoFar) == Joined(emitted)
      invariant AllAccepted(|emitted|, accepts) && shown == |emitted| && emitted[..shown] == emitted
    {
      if sampled[step].None? {
        return Err(BadLogits), emitted, ids, shown;
      }
      var token := sampled[step].value;
      if token == t.eosId {
        break;
      }
      generated := generated + [token];
      var decoded := DecodeBytes(t, generated);
      if decoded.Err? {
        return Err(decoded.error), emitted, ids, shown;
      }
      DecodedBytesGrow(t, ids, token);
      ShownTextGrows(bytesSoFar, decoded.value);
      ids, bytesSoFar := generated, decoded.value;
      var cut := CompleteUtf8Prefix(decoded.value);
      var next := Lossy(decoded.value[..cut]);
      assert next == CompleteText(bytesSoFar) by { NextIsComplete(decoded.value); }
      if !(text <= next) {
        return Err(NonPrefix), emitted, ids, shown;
      }
      JoinedPush(emitted, text, next);
      emitted := emitted + NewText(text, next);
      shown := |emitted|;
      assert emitted[..shown] == emitted;
      if |next| > |text| {
        if !accepts(|emitted| - 1) {
          return Ok(text), emitted, ids, shown;
        }
      }
      text := next;
    }
    var final := Decode(t, generated);
    StrictIsWellFormed(bytesSoFar);
    if final.Err? {
      return Err(final.error), emitted, ids, shown;
    }
    WellFormedShown(bytesSoFar);
    var finalText := final.value;
    if !(text <= finalText) {
      return Err(NonPrefixFinal), emitted, ids, shown;
    }
    JoinedPush(emitted, text, finalText);
    ghost var before := emitted;
    emitted := emitted + NewText(text, finalText);
    assert emitted[..shown] == before;
    r := Ok(finalText);
  }

  lemma NothingDecoded(t: Tokenizer)
    ensures DecodeBytes(t, []) == Ok([]) && CompleteText([]) == [] && Joined([]) == []
  {
  }

  // ------------------------------------------------------ where the two loops differ

  /** A vocabulary of one token with the given bytes, and nothing special about it. */
  function OneToken(piece: Text): Tokenizer {
    Tokenizer([Some(piece)], false, false, false, 1, 2)
  }

  lemma OneTokenBytes(piece: Text)
    ensures OneToken(piece).eosId == 2 && TokenPiece(OneToken(piece), 0) == Ok(piece)
    ensures DecodeBytes(OneToken(piece), [0]) == Ok(piece)
    ensures TokenPieces(OneToken(piece), [0]) == Ok([piece]) && Joined([piece]) == piece
  {
    var t := OneToken(piece);
    var ids: seq<U32> := [0];
    assert ids[1..] == [] && PieceBytes(t, [], false) == Ok([]);
    assert PieceBytes(t, ids, false) == Ok(piece + []) && piece + [] == piece;
    assert WithoutSpecial(t, ids) == ids;
    assert ids[..0] == [] && TokenPieces(t, []) == Ok([]) && TokenPiece(t, ids[0]) == Ok(piece);
    assert [] + [piece] == [piece];
    assert [piece][..0] == [] && [] + piece == piece;
  }

  /**
   A byte that begins no character is shown as U+FFFD at once, so the remote loop has
   already streamed it when its final decoding fails. A first byte alone is held back.
   */
  lemma StrayBytes()
    ensures CompleteText([0xFF]) == Lossy([0xFF]) == REPLACEMENT && !WellFormed([0xFF])
    ensures CompleteText([0xE2]) == [] && Lossy([0xE2]) == REPLACEMENT && !WellFormed([0xE2])
  {
    var stray, lead: Text := [0xFF], [0xE2];
    assert Scan(stray) == Bad(1) && stray[1..] == [] && stray[..1] == stray && Cut(stray[1..]) == 0;
    assert Scan(lead) == More && lead[1..] == [] && lead[..0] == [];
    WellFormedStep(stray);
    WellFormedStep(lead);
    assert REPLACEMENT + [] == REPLACEMENT;
  }

  /**
   One token, an undisturbed receiver: the local loop returns U+FFFD for either byte, the
   remote loop fails on both, after streaming U+FFFD for the first.
   */
  method LoopsDiffer() returns (local: seq<Result<Text, GenError>>, remote: seq<Result<Text, GenError>>, streamed: seq<Text>)
    ensures local == [Ok(REPLACEMENT), Ok(REPLACEMENT)]
    ensures remote == [Err(NotUtf8), Err(NotUtf8)] && streamed == [REPLACEMENT, []]
  {
    StrayBytes();
    var a, b, text := BothLoops([0xFF]);
    var c, d, held := BothLoops([0xE2]);
    local, remote, streamed := [a, c], [b, d], [text, held];
  }

  /** Both loops on a single token that is sampled once. */
  method BothLoops(piece: Text) returns (local: Result<Text, GenError>, remote: Result<Text, GenError>, streamed: Text)
    ensures local == Ok(Lossy(piece))
    ensures remote == if WellFormed(piece) then Ok(piece) else Err(NotUtf8)
    ensures streamed == CompleteText(piece)
  {
    hide Lossy, CompleteText, WellFormed, DecodeBytes, TokenPieces, TokenPiece, Joined, Consumed, Ended, OneToken;
    var t, sampled := OneToken(piece), [Some(0)];
    OneTokenBytes(piece);
    var emitted;
    ghost var ids, shown;
    local, emitted, ids, shown := GenerateLocal(t, sampled, _ => true);
    OnceSampled(t, ids);
    remote, emitted, ids, shown := GenerateRemote(t, sampled, _ => true);
    OnceSampled(t, ids);
    streamed := Joined(emitted);
  }

  /**
   With a prefix space the remote loop takes the space off the first token, the local loop
   does not.
   */
  method PrefixSpace() returns (local: Result<Text, GenError>, remote: Result<Text, GenError>)
    ensures local == Ok([0x20, 0x48, 0x69]) && remote == Ok([0x48, 0x69])
  {
    hide CompleteText, Held, Lossy, DecodeBytes, WellFormed, TokenPieces, Joined, Consumed, Ended;
    var t := OneToken([0x20, 0x48, 0x69]).(addSpacePrefix := true, addBos := true);
    var sampled: seq<Option<U32>> := [Some(0), Some(2)];
    var emitted;
    ghost var ids, shown;
    local, emitted, ids, shown := GenerateLocal(t, sampled, _ => true);
    SpacedToken(t, ids);
    remote, emitted, ids, shown := GenerateRemote(t, sampled, _ => true);
    SpacedToken(t, ids);
  }

  lemma SpacedToken(t: Tokenizer, ids: seq<U32>)
    requires t == OneToken([0x20, 0x48, 0x69]).(addSpacePrefix := true, addBos := true)
    requires Consumed([Some(0), Some(2)], ids, t.eosId)
    ensures DecodeBytes(t, [0]) == Ok([0x48, 0x69]) && WellFormed([0x48, 0x69])
    ensures TokenPieces(t, [0]).Ok? && Joined(TokenPieces(t, [0]).value) == Lossy([0x20, 0x48, 0x69]) == [0x20, 0x48, 0x69]
    ensures if ids == [] then !Ended([Some(0), Some(2)], ids, t.eosId) && ids + [0] == [0]
            else ids == [0] && Ended([Some(0), Some(2)], ids, t.eosId)
  {
    hide WellFormed, Lossy, TokenPieces, Joined, DecodeBytes;
    var piece: Text := [0x20, 0x48, 0x69];
    var zero: seq<U32> := [0];
    OneTokenBytes(piece);
    TokenPiecesAt(t, zero);
    assert TokenPieces(t, zero).value == [piece];
    LettersAreText();
    DecodeBytesJoins(t, zero, 0, 1);
    assert zero[0..1] == zero && [0x20] + DecodeBytes(t, zero).value == piece && piece[1..] == [0x48, 0x69];
    OneThenEnd(t, ids);
  }

  lemma StopsAtEnd(sampled: seq<Option<U32>>, ids: seq<U32>, eosId: U32, k: nat)
    requires Consumed(sampled, ids, eosId) && k < |sampled| && sampled[k] == Some(eosId)
    ensures |ids| <= k
  {
  }

  lemma OneThenEnd(t: Tokenizer, ids: seq<U32>)
    requires t.eosId == 2 && Consumed([Some(0), Some(2)], ids, t.eosId)
    ensures if ids == [] then !Ended([Some(0), Some(2)], ids, t.eosId) && ids + [0] == [0]
            else ids == [0] && Ended([Some(0), Some(2)], ids, t.eosId)
  {
    StopsAtEnd([Some(0), Some(2)], ids, t.eosId, 1);
  }

  lemma LettersAreText()
    ensures WellFormed([0x48, 0x69]) && Lossy([0x20, 0x48, 0x69]) == [0x20, 0x48, 0x69]
  {
    WellFormedStep([0x20, 0x48, 0x69]);
    StrictIsWellFormed([0x20, 0x48, 0x69]);
  }

  lemma OnceSampled(t: Tokenizer, ids: seq<U32>)
    requires t.eosId == 2 && Consumed([Some(0)], ids, t.eosId)
    ensures if ids == [] then !Ended([Some(0)], ids, t.eosId) && ids + [0] == [0] else ids == [0] && Ended([Some(0)], ids, t.eosId)
  {
  }

  lemma NextIsComplete(bytes: Text)
    ensures Lossy(bytes[..Cut(bytes)]) == CompleteText(bytes)
  {
  }
}
