/**
 What the key decoder makes of a stream of input: which bytes are one frame, told by the bytes alone
 and by what the event parser says about them.
 */
module KeyFrames {
  import opened Basics
  import opened Options
  import opened KeyDecoder

  /** Frames that may be complete but may also go on: an escape, or the start of a sequence. They are
      timed, all but the last one. */
  predicate Timed(frame: seq<byte>) {
    frame == [ESC] || frame == [ESC, ESC] || frame == [ESC, BRACKET] || frame == [ESC, BIG_O]
  }

  predicate Pausing(frame: seq<byte>) {
    Timed(frame) || frame == [ESC, ESC, BRACKET]
  }

  /** The decoder when it has collected this frame and nothing else. */
  function Collected(frame: seq<byte>, now: nat): State {
    State(frame, if Timed(frame) then Some(now) else None, None)
  }

  /** Feeding these bytes to an idle decoder yields these frames and leaves it idle. */
  ghost predicate Yields(parse: Parser, bytes: seq<byte>, frames: seq<Frame>) {
    forall now :: Run(parse, IDLE, bytes, now) == IDLE && Frames(parse, IDLE, bytes, now) == frames
  }

  /** The decoder collects the first `k` of these bytes, whatever its kind of frame, if every step does. */
  lemma {:induction false} Collects(parse: Parser, bytes: seq<byte>, k: nat, now: nat)
    requires k <= |bytes|
    requires forall i :: 0 <= i < k ==> Continues(parse, bytes, i, now)
    ensures Run(parse, IDLE, bytes[..k], now) == Collected(bytes[..k], now)
    ensures Frames(parse, IDLE, bytes[..k], now) == []
  {
    hide Next, Output;
    if k > 0 {
      Collects(parse, bytes, k - 1, now);
      assert bytes[..k][..k - 1] == bytes[..k - 1];
      assert Continues(parse, bytes, k - 1, now);
    }
  }

  ghost predicate Continues(parse: Parser, bytes: seq<byte>, i: int, now: nat) {
    && 0 <= i < |bytes|
    && Next(parse, Collected(bytes[..i], now), bytes[i], now) == Collected(bytes[..i + 1], now)
    && Output(parse, Collected(bytes[..i], now), bytes[i]) == []
  }

  /** The last byte ends the frame, and the frame is handed over or not. */
  lemma CollectedEnds(parse: Parser, bytes: seq<byte>, frames: seq<Frame>, now: nat)
    requires bytes != []
    requires
      var n := |bytes| - 1;
      && (forall i :: 0 <= i < n ==> Continues(parse, bytes, i, now))
      && Next(parse, Collected(bytes[..n], now), bytes[n], now) == IDLE
      && Output(parse, Collected(bytes[..n], now), bytes[n]) == frames
    ensures Run(parse, IDLE, bytes, now) == IDLE && Frames(parse, IDLE, bytes, now) == frames
  {
    hide Next, Output;
    Collects(parse, bytes, |bytes| - 1, now);
    assert [] + frames == frames;
  }

  // ----- Keys -----

  /** What the event parser is asked about: bytes that are not a control sequence, and about whose
      beginnings it has not decided yet. Two escapes go on with a bracket only. */
  ghost predicate Key(parse: Parser, bytes: seq<byte>) {
    && 0 < |bytes| <= MAX_SEQUENCE && !StartsWith(bytes, [ESC, BRACKET]) && !Pausing(bytes)
    && (StartsWith(bytes, [ESC, ESC]) && |bytes| > 2 ==> bytes[2] == BRACKET)
    && forall k :: 0 < k < |bytes| ==> Undecided(parse, bytes[..k])
  }

  predicate Undecided(parse: Parser, frame: seq<byte>) {
    Pausing(frame) || parse(frame).NeedsMore?
  }

  lemma PrefixOfKey(bytes: seq<byte>, k: nat)
    requires k < |bytes| && !StartsWith(bytes, [ESC, BRACKET])
    requires StartsWith(bytes, [ESC, ESC]) && |bytes| > 2 ==> bytes[2] == BRACKET
    ensures bytes[..k + 1] == bytes[..k] + [bytes[k]] && !StartsWith(bytes[..k + 1], [ESC, BRACKET])
    ensures !StartsWith(bytes[..k + 1], PASTE_START)
    ensures bytes[..k] == [ESC, ESC] ==> bytes[k] == BRACKET
  {
    assert 1 <= k ==> bytes[..k + 1][..2] == bytes[..2];
    assert 5 <= k ==> bytes[..k + 1][..6] == bytes[..6] && bytes[..6][..2] == bytes[..2];
    assert PASTE_START[..2] == [ESC, BRACKET];
  }

  lemma KeyContinues(parse: Parser, bytes: seq<byte>, k: nat, now: nat)
    requires Key(parse, bytes) && k + 1 < |bytes|
    ensures Continues(parse, bytes, k, now)
  {
    hide StartsWith;
    PrefixOfKey(bytes, k);
    assert Undecided(parse, bytes[..k + 1]);
  }

  /** A key is handed over when the parser takes it for complete. One that is broken, or of which the
      parser cannot have enough, is dropped as a whole. */
  lemma KeyIsFramed(parse: Parser, bytes: seq<byte>)
    requires Key(parse, bytes) && (parse(bytes).NeedsMore? ==> |bytes| == MAX_SEQUENCE)
    ensures Yields(parse, bytes, if parse(bytes).Complete? then [Plain(bytes)] else [])
  {
    forall now: nat
      ensures Run(parse, IDLE, bytes, now) == IDLE
      ensures Frames(parse, IDLE, bytes, now) == if parse(bytes).Complete? then [Plain(bytes)] else []
    {
      hide StartsWith, Continues, Run, Frames, Key;
      var n := |bytes| - 1;
      forall i | 0 <= i < n
        ensures Continues(parse, bytes, i, now)
      {
        KeyContinues(parse, bytes, i, now);
      }
      KeyEnds(parse, bytes, now);
      CollectedEnds(parse, bytes, if parse(bytes).Complete? then [Plain(bytes)] else [], now);
    }
  }

  lemma KeyEnds(parse: Parser, bytes: seq<byte>, now: nat)
    requires Key(parse, bytes) && (parse(bytes).NeedsMore? ==> |bytes| == MAX_SEQUENCE)
    ensures
      var n := |bytes| - 1;
      && Next(parse, Collected(bytes[..n], now), bytes[n], now) == IDLE
      && Output(parse, Collected(bytes[..n], now), bytes[n])
         == if parse(bytes).Complete? then [Plain(bytes)] else []
  {
    hide StartsWith;
    PrefixOfKey(bytes, |bytes| - 1);
    assert bytes[..|bytes|] == bytes;
  }

  // ----- Control sequences and mouse reports -----

  /** The bytes that end a control sequence. */
  predicate Ends(b: byte) {
    0x40 <= b <= 0x7E
  }

  /** A control sequence: parameters that end no sequence, and then a byte that does. A bracket may be
      the first parameter, and the sequence is neither a mouse report nor the start of a paste. */
  ghost predicate Sequence(bytes: seq<byte>) {
    && 3 <= |bytes| && bytes[0] == ESC && bytes[1] == BRACKET && bytes[2] != BIG_M && bytes != PASTE_START
    && (forall i :: 2 <= i < |bytes| - 1 ==> Parameter(bytes, i))
    && Ends(bytes[|bytes| - 1]) && (|bytes| == 3 ==> bytes[2] != BRACKET)
  }

  predicate Parameter(bytes: seq<byte>, i: nat)
    requires i < |bytes|
  {
    !Ends(bytes[i]) || (i == 2 && bytes[2] == BRACKET)
  }

  /** Of a longer sequence nothing is kept, but the decoder still waits for its end. */
  function InSequence(bytes: seq<byte>, k: nat, now: nat): State
    requires k <= |bytes|
  {
    if k < MAX_SEQUENCE then Collected(bytes[..k], now) else State([], None, Some(Csi))
  }

  lemma StartsNoPaste(bytes: seq<byte>)
    requires Sequence(bytes) && 6 <= |bytes|
    ensures bytes[..6] != PASTE_START
  {
    assert bytes[..6][5] == bytes[5];
    if |bytes| == 6 {
      assert bytes[..6] == bytes;
    } else {
      assert Parameter(bytes, 5);
    }
  }

  lemma PrefixOfSequence(bytes: seq<byte>, k: nat)
    requires Sequence(bytes) && k < |bytes|
    ensures bytes[..k + 1] == bytes[..k] + [bytes[k]]
    ensures 2 <= k + 1 ==> StartsWith(bytes[..k + 1], [ESC, BRACKET])
    ensures 2 <= k ==> bytes[..k + 1][2] == bytes[2]
    ensures !StartsWith(bytes[..k + 1], PASTE_START)
  {
    if 5 <= k {
      StartsNoPaste(bytes);
      assert bytes[..k + 1][..6] == bytes[..6];
    }
  }

  lemma SequenceStep(parse: Parser, bytes: seq<byte>, k: nat, now: nat)
    requires Sequence(bytes) && k + 1 < |bytes|
    ensures Next(parse, InSequence(bytes, k, now), bytes[k], now) == InSequence(bytes, k + 1, now)
    ensures Output(parse, InSequence(bytes, k, now), bytes[k]) == []
  {
    hide StartsWith;
    PrefixOfSequence(bytes, k);
    assert k == 0 ==> bytes[..1] == [ESC];
    assert k == 1 ==> bytes[..2] == [ESC, BRACKET];
    assert k == 2 ==> bytes[..3] == [ESC, BRACKET, bytes[2]];
    assert 2 <= k ==> Parameter(bytes, k);
  }

  lemma {:induction false} SequenceCollects(parse: Parser, bytes: seq<byte>, k: nat, now: nat)
    requires Sequence(bytes) && k < |bytes|
    ensures Run(parse, IDLE, bytes[..k], now) == InSequence(bytes, k, now)
    ensures Frames(parse, IDLE, bytes[..k], now) == []
  {
    hide Next, Output, Sequence;
    if k > 0 {
      SequenceCollects(parse, bytes, k - 1, now);
      SequenceStep(parse, bytes, k - 1, now);
      assert bytes[..k][..k - 1] == bytes[..k - 1];
    }
  }

  lemma SequenceEnds(parse: Parser, bytes: seq<byte>, now: nat)
    requires Sequence(bytes)
    ensures
      var n := |bytes| - 1;
      && Next(parse, InSequence(bytes, n, now), bytes[n], now) == IDLE
      && Output(parse, InSequence(bytes, n, now), bytes[n])
         == if |bytes| <= MAX_SEQUENCE then [Plain(bytes)] else []
  {
    hide StartsWith;
    var n := |bytes| - 1;
    PrefixOfSequence(bytes, n);
    assert bytes[..n + 1] == bytes;
    assert n == 2 ==> bytes == [ESC, BRACKET, bytes[2]] && bytes[..2] == [ESC, BRACKET];
  }

  /** A control sequence of at most 256 bytes is one frame; a longer one is none, up to its last byte. */
  lemma SequenceIsFramed(parse: Parser, bytes: seq<byte>)
    requires Sequence(bytes)
    ensures Yields(parse, bytes, if |bytes| <= MAX_SEQUENCE then [Plain(bytes)] else [])
  {
    hide Sequence;
    forall now: nat
      ensures Run(parse, IDLE, bytes, now) == IDLE
      ensures Frames(parse, IDLE, bytes, now) == if |bytes| <= MAX_SEQUENCE then [Plain(bytes)] else []
    {
      SequenceRuns(parse, bytes, now);
    }
  }

  lemma {:induction false} SequenceRuns(parse: Parser, bytes: seq<byte>, now: nat)
    requires Sequence(bytes)
    ensures Run(parse, IDLE, bytes, now) == IDLE
    ensures Frames(parse, IDLE, bytes, now) == if |bytes| <= MAX_SEQUENCE then [Plain(bytes)] else []
  {
    hide Next, Output, Run, Frames, InSequence, Final, Parameter;
    SequenceCollects(parse, bytes, |bytes| - 1, now);
    SequenceEnds(parse, bytes, now);
    RunLast(parse, IDLE, bytes, now);
  }

  /** A mouse report of the old kind: three bytes follow, whatever they are. */
  predicate Report(bytes: seq<byte>) {
    |bytes| == 6 && bytes[..3] == [ESC, BRACKET, BIG_M]
  }

  lemma ReportStep(parse: Parser, bytes: seq<byte>, k: nat, now: nat)
    requires Report(bytes) && k < 6
    ensures k < 5 ==> Continues(parse, bytes, k, now)
    ensures k == 5 ==>
              && Next(parse, Collected(bytes[..k], now), bytes[k], now) == IDLE
              && Output(parse, Collected(bytes[..k], now), bytes[k]) == [Plain(bytes)]
  {
    assert bytes[..k + 1] == bytes[..k] + [bytes[k]];
    assert bytes[0] == bytes[..3][0] && bytes[1] == bytes[..3][1] && bytes[2] == bytes[..3][2];
    ShortIsNoPaste(bytes[..k + 1]);
    assert k == 0 ==> bytes[..1] == [ESC];
    assert k == 1 ==> bytes[..2] == [ESC, BRACKET];
    assert 1 <= k ==> bytes[..k + 1][..2] == [ESC, BRACKET];
    assert k == 5 ==> bytes[..k + 1] == bytes;
  }

  lemma ReportIsFramed(parse: Parser, bytes: seq<byte>)
    requires Report(bytes)
    ensures Yields(parse, bytes, [Plain(bytes)])
  {
    hide Run, Frames, Next, Output, Continues;
    forall now: nat
      ensures Run(parse, IDLE, bytes, now) == IDLE && Frames(parse, IDLE, bytes, now) == [Plain(bytes)]
    {
      forall i | 0 <= i < 6
        ensures i < 5 ==> Continues(parse, bytes, i, now)
      {
        ReportStep(parse, bytes, i, now);
      }
      ReportStep(parse, bytes, 5, now);
      CollectedEnds(parse, bytes, [Plain(bytes)], now);
    }
  }

  lemma PasteIsFramed(parse: Parser, bytes: seq<byte>)
    requires IsPaste(bytes)
    ensures Yields(parse, bytes, if |bytes| <= MAX_PASTE_FRAME then [Plain(bytes)] else [])
  {
    forall now: nat
      ensures Run(parse, IDLE, bytes, now) == IDLE
      ensures Frames(parse, IDLE, bytes, now) == if |bytes| <= MAX_PASTE_FRAME then [Plain(bytes)] else []
    {
      WholePaste(parse, bytes, now);
    }
  }

  // ----- Escapes -----

  lemma TwoEscapes(parse: Parser, now: nat)
    ensures Run(parse, IDLE, [ESC, ESC], now) == Collected([ESC, ESC], now)
    ensures Frames(parse, IDLE, [ESC, ESC], now) == []
  {
    assert [ESC, ESC][..1] == [ESC] && [ESC][..0] == [];
    assert Run(parse, IDLE, [ESC], now) == Collected([ESC], now) && Frames(parse, IDLE, [ESC], now) == [];
  }

  /** Two escapes that no bracket follows come first, as a frame of their own, and what follows them is
      read as if it had come alone. */
  lemma EscapesSplit(parse: Parser, rest: seq<byte>, now: nat)
    requires rest != [] && rest[0] != BRACKET
    ensures Run(parse, IDLE, [ESC, ESC] + rest, now) == Run(parse, IDLE, rest, now)
    ensures Frames(parse, IDLE, [ESC, ESC] + rest, now) == [Plain([ESC, ESC])] + Frames(parse, IDLE, rest, now)
  {
    hide Run, Frames;
    var b, behind := rest[0], rest[1..];
    assert rest == [b] + behind;
    TwoEscapes(parse, now);
    RunConcat(parse, IDLE, [ESC, ESC], rest, now);
    RunConcat(parse, Collected([ESC, ESC], now), [b], behind, now);
    RunConcat(parse, IDLE, [b], behind, now);
    OneByte(parse, Collected([ESC, ESC], now), b, now);
    OneByte(parse, IDLE, b, now);
    SplitByte(parse, b, now);
  }

  lemma OneByte(parse: Parser, s: State, b: byte, now: nat)
    ensures Run(parse, s, [b], now) == Next(parse, s, b, now) && Frames(parse, s, [b], now) == Output(parse, s, b)
  {
    assert [b][..0] == [];
    assert [] + Output(parse, s, b) == Output(parse, s, b);
  }

  lemma SplitByte(parse: Parser, b: byte, now: nat)
    requires b != BRACKET
    ensures Next(parse, Collected([ESC, ESC], now), b, now) == Next(parse, IDLE, b, now)
    ensures Output(parse, Collected([ESC, ESC], now), b) == [Plain([ESC, ESC])] + Output(parse, IDLE, b)
  {
    assert [] + [b] == [b];
  }

  /** An escape, two escapes, and an escape with a bracket or a capital O are handed over when nothing
      has followed them for the delay, and not before. */
  lemma EscapesExpire(parse: Parser, frame: seq<byte>, now: nat, later: nat)
    requires Timed(frame)
    ensures
      var s := Run(parse, IDLE, frame, now);
      if later < now + ESC_DELAY then Fed(parse, s, [], later) == s && FedFrames(parse, s, [], later) == []
      else
        && Fed(parse, s, [], later) == IDLE
        && FedFrames(parse, s, [], later)
           == [if frame == [ESC, BRACKET] || frame == [ESC, BIG_O] then Alternate(frame[1..]) else Plain(frame)]
    ensures Frames(parse, IDLE, frame, now) == []
  {
    TimedCollects(parse, frame, now);
  }

  lemma TimedCollects(parse: Parser, frame: seq<byte>, now: nat)
    requires Timed(frame)
    ensures Run(parse, IDLE, frame, now) == Collected(frame, now) && Frames(parse, IDLE, frame, now) == []
  {
    OneByte(parse, IDLE, ESC, now);
    if |frame| == 2 {
      assert frame == [ESC] + [frame[1]] && [] + [ESC] == [ESC];
      RunConcat(parse, IDLE, [ESC], [frame[1]], now);
      OneByte(parse, Collected([ESC], now), frame[1], now);
    }
  }

  // ----- Whole streams -----

  /** A part of the stream, and the frames that it yields. */
  datatype Piece = Piece(bytes: seq<byte>, frames: seq<Frame>)

  /** What a piece can be: a key, a control sequence, a mouse report, a paste, or two escapes that
      something other than a bracket follows. */
  ghost predicate Cut(parse: Parser, piece: Piece, behind: seq<byte>) {
    || (Key(parse, piece.bytes) && parse(piece.bytes).Complete? && piece.frames == [Plain(piece.bytes)])
    || (Key(parse, piece.bytes) && parse(piece.bytes).Broken? && piece.frames == [])
    || (Sequence(piece.bytes) && |piece.bytes| <= MAX_SEQUENCE && piece.frames == [Plain(piece.bytes)])
    || (Sequence(piece.bytes) && |piece.bytes| > MAX_SEQUENCE && piece.frames == [])
    || (Report(piece.bytes) && piece.frames == [Plain(piece.bytes)])
    || (IsPaste(piece.bytes) && |piece.bytes| <= MAX_PASTE_FRAME && piece.frames == [Plain(piece.bytes)])
    || (IsPaste(piece.bytes) && |piece.bytes| > MAX_PASTE_FRAME && piece.frames == [])
    || (piece.bytes == [ESC, ESC] && behind != [] && behind[0] != BRACKET && piece.frames == [Plain(piece.bytes)])
  }

  ghost predicate AllCut(parse: Parser, pieces: seq<Piece>) {
    pieces != [] ==> Cut(parse, pieces[0], Stream(pieces[1..])) && AllCut(parse, pieces[1..])
  }

  function Stream(pieces: seq<Piece>): seq<byte> {
    if pieces == [] then [] else pieces[0].bytes + Stream(pieces[1..])
  }

  function FramesOf(pieces: seq<Piece>): seq<Frame> {
    if pieces == [] then [] else pieces[0].frames + FramesOf(pieces[1..])
  }

  lemma CutYields(parse: Parser, piece: Piece, behind: seq<byte>)
    requires Cut(parse, piece, behind) && piece.bytes != [ESC, ESC]
    ensures Yields(parse, piece.bytes, piece.frames)
  {
    hide Key, Sequence, Report, IsPaste, Yields;
    var bytes := piece.bytes;
    if Key(parse, bytes) && !parse(bytes).NeedsMore?
       && piece.frames == (if parse(bytes).Complete? then [Plain(bytes)] else []) {
      KeyIsFramed(parse, bytes);
    } else if Report(bytes) && piece.frames == [Plain(bytes)] {
      ReportIsFramed(parse, bytes);
    } else if Sequence(bytes) && piece.frames == (if |bytes| <= MAX_SEQUENCE then [Plain(bytes)] else []) {
      SequenceIsFramed(parse, bytes);
    } else {
      PasteIsFramed(parse, bytes);
    }
  }

  /** Over a whole stream, the frames are those of the pieces into which it is cut, in their order; then
      the decoder is idle again. */
  lemma {:induction false} StreamIsCut(parse: Parser, pieces: seq<Piece>)
    requires AllCut(parse, pieces)
    ensures Yields(parse, Stream(pieces), FramesOf(pieces))
  {
    hide Cut;
    if pieces != [] {
      StreamIsCut(parse, pieces[1..]);
      forall now: nat
        ensures Run(parse, IDLE, Stream(pieces), now) == IDLE
        ensures Frames(parse, IDLE, Stream(pieces), now) == FramesOf(pieces)
      {
        hide Run, Frames;
        var piece, rest := pieces[0], Stream(pieces[1..]);
        if piece.bytes == [ESC, ESC] {
          EscapesAreCut(parse, piece, rest);
          EscapesSplit(parse, rest, now);
        } else {
          CutYields(parse, piece, rest);
          RunConcat(parse, IDLE, piece.bytes, rest, now);
        }
      }
    }
  }

  lemma EscapesAreCut(parse: Parser, piece: Piece, behind: seq<byte>)
    requires Cut(parse, piece, behind) && piece.bytes == [ESC, ESC]
    ensures behind != [] && behind[0] != BRACKET && piece.frames == [Plain(piece.bytes)]
  {}

  /** The same for a stream that comes in chunks, as long as the reader does not pause in it for as long
      as an escape is waited for. */
  lemma ChunkedStreamIsCut(parse: Parser, pieces: seq<Piece>, chunks: seq<Chunk>)
    requires AllCut(parse, pieces) && chunks != [] && Timely(chunks) && Joined(chunks) == Stream(pieces)
    ensures AllFrames(parse, IDLE, chunks) == FramesOf(pieces) && FedAll(parse, IDLE, chunks) == IDLE
  {
    hide Run, Frames, AllCut, Timely, FedAll, AllFrames;
    StreamIsCut(parse, pieces);
    ChunksAsOne(parse, IDLE, chunks);
    var start := chunks[0].at;
    assert Run(parse, IDLE, Stream(pieces), start) == IDLE;
    assert [] + Frames(parse, IDLE, Stream(pieces), start) == Frames(parse, IDLE, Stream(pieces), start);
  }
}
