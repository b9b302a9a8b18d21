/**
 Framing of host terminal input. Bytes are collected into frames, one for each key, mouse report
 or paste, and handed to an event parser. Escape alone is told apart from the start of a sequence
 by a short delay, and sequences without an end are discarded.
 */
module KeyDecoder {
  import opened Basics
  import opened Options

  const ESC: byte := 0x1B
  const BRACKET: byte := 0x5B
  const BIG_O: byte := 0x4F
  const BIG_M: byte := 0x4D
  const PASTE_START: seq<byte> := [0x1B, 0x5B, 0x32, 0x30, 0x30, 0x7E]
  const PASTE_END: seq<byte> := [0x1B, 0x5B, 0x32, 0x30, 0x31, 0x7E]
  const MAX_SEQUENCE: nat := 256
  const MAX_PASTE: nat := 1024 * 1024
  const MAX_PASTE_FRAME: nat := MAX_PASTE + 12
  const ESC_DELAY: nat := 30
  const POLL_INTERVAL: nat := 50

  /** What the event parser says about a frame that is not a control sequence. */
  datatype Verdict = Complete | NeedsMore | Broken

  type Parser = seq<byte> -> Verdict

  /** A frame handed to the event parser; `Alternate` is one whose event gets the Alt modifier. */
  datatype Frame = Plain(bytes: seq<byte>) | Alternate(bytes: seq<byte>)

  datatype Discard = Csi | Paste(tail: seq<byte>)

  datatype State = State(frame: seq<byte>, escapeAt: Option<nat>, discard: Option<Discard>)

  const IDLE := State([], None, None)

  predicate StartsWith(s: seq<byte>, start: seq<byte>) {
    |start| <= |s| && s[..|start|] == start
  }

  predicate EndsWith(s: seq<byte>, end: seq<byte>) {
    |end| <= |s| && s[|s| - |end|..] == end
  }

  /** A byte that ends a control sequence. */
  predicate Final(b: byte) {
    0x40 <= b <= 0x7E
  }

  // ----- One byte -----

  function Discarded(s: State, b: byte): State
    requires s.discard.Some?
  {
    match s.discard.value
    case Csi => if Final(b) then s.(discard := None) else s
    case Paste(tail) =>
      var longer := tail + [b];
      var last := if |longer| > |PASTE_END| then longer[1..] else longer;
      s.(discard := if last == PASTE_END then None else Some(Paste(last)))
  }

  /** Two escapes that no bracket follows are a frame of their own. */
  predicate SplitsEscapes(s: State, b: byte) {
    s.frame == [ESC, ESC] && b != BRACKET
  }

  function Accepted(parse: Parser, s: State, b: byte, now: nat): State
    requires s.discard.None?
  {
    var frame := (if SplitsEscapes(s, b) then [] else s.frame) + [b];
    var timed := State(frame, Some(now), None);
    var kept := State(frame, None, None);
    if frame == [ESC] || frame == [ESC, ESC] || frame == [ESC, BRACKET] || frame == [ESC, BIG_O] then timed
    else if StartsWith(frame, PASTE_START) then
      if EndsWith(frame, PASTE_END) then IDLE
      else if |frame| > MAX_PASTE_FRAME then IDLE.(discard := Some(Paste(frame[|frame| - |PASTE_END|..])))
      else kept
    else if StartsWith(frame, [ESC, BRACKET]) then
      if frame == [ESC, BRACKET, BRACKET] then kept
      else if frame[2] == BIG_M then if |frame| == 6 then IDLE else kept
      else if Final(b) then IDLE
      else if |frame| >= MAX_SEQUENCE then IDLE.(discard := Some(Csi))
      else kept
    else if frame == [ESC, ESC, BRACKET] then kept
    else if parse(frame).NeedsMore? && |frame| < MAX_SEQUENCE then kept
    else IDLE
  }

  /** Whether the frame is complete with its last byte, and is handed over. */
  predicate Completes(parse: Parser, frame: seq<byte>)
    requires frame != []
  {
    if frame == [ESC] || frame == [ESC, ESC] || frame == [ESC, BRACKET] || frame == [ESC, BIG_O] then false
    else if StartsWith(frame, PASTE_START) then
      EndsWith(frame, PASTE_END) && PayloadLength(frame) <= MAX_PASTE
    else if StartsWith(frame, [ESC, BRACKET]) then
      frame != [ESC, BRACKET, BRACKET]
      && if frame[2] == BIG_M then |frame| == 6 else Final(frame[|frame| - 1])
    else frame != [ESC, ESC, BRACKET] && parse(frame).Complete?
  }

  /** The two markers of a paste cannot overlap, so that the difference is never negative. */
  function PayloadLength(frame: seq<byte>): nat
    requires StartsWith(frame, PASTE_START) && EndsWith(frame, PASTE_END)
  {
    MarkersDoNotOverlap(frame);
    |frame| - |PASTE_START| - |PASTE_END|
  }

  lemma MarkersDoNotOverlap(frame: seq<byte>)
    requires StartsWith(frame, PASTE_START) && EndsWith(frame, PASTE_END)
    ensures |PASTE_START| + |PASTE_END| <= |frame|
  {
    var end := frame[|frame| - |PASTE_END|..];
    assert end[0] == PASTE_END[0] && end[4] == PASTE_END[4];
    assert frame[..6] == PASTE_START;
  }

  function Emitted(parse: Parser, s: State, b: byte): seq<Frame>
    requires s.discard.None?
  {
    var frame := (if SplitsEscapes(s, b) then [] else s.frame) + [b];
    (if SplitsEscapes(s, b) then [Plain(s.frame)] else []) + (if Completes(parse, frame) then [Plain(frame)] else [])
  }

  function Next(parse: Parser, s: State, b: byte, now: nat): State {
    if s.discard.Some? then Discarded(s, b) else Accepted(parse, s, b, now)
  }

  function Output(parse: Parser, s: State, b: byte): seq<Frame> {
    if s.discard.Some? then [] else Emitted(parse, s, b)
  }

  // ----- Many bytes, and time -----

  function Run(parse: Parser, s: State, bytes: seq<byte>, now: nat): State {
    if bytes == [] then s
    else Next(parse, Run(parse, s, bytes[..|bytes| - 1], now), bytes[|bytes| - 1], now)
  }

  function Frames(parse: Parser, s: State, bytes: seq<byte>, now: nat): seq<Frame> {
    if bytes == [] then []
    else
      var init := bytes[..|bytes| - 1];
      Frames(parse, s, init, now) + Output(parse, Run(parse, s, init, now), bytes[|bytes| - 1])
  }

  predicate Expires(s: State, now: nat) {
    s.escapeAt.Some? && now >= s.escapeAt.value + ESC_DELAY
  }

  function Expired(s: State, now: nat): State {
    if Expires(s, now) then s.(frame := [], escapeAt := None) else s
  }

  function ExpiredFrames(s: State, now: nat): seq<Frame> {
    if !Expires(s, now) then []
    else if s.frame == [ESC, BRACKET] || s.frame == [ESC, BIG_O] then [Alternate(s.frame[1..])]
    else [Plain(s.frame)]
  }

  function Fed(parse: Parser, s: State, bytes: seq<byte>, now: nat): State {
    Run(parse, Expired(s, now), bytes, now)
  }

  function FedFrames(parse: Parser, s: State, bytes: seq<byte>, now: nat): seq<Frame> {
    ExpiredFrames(s, now) + Frames(parse, Expired(s, now), bytes, now)
  }

  function Wait(s: State, now: nat): nat {
    if s.escapeAt.None? then POLL_INTERVAL
    else
      var elapsed := if now >= s.escapeAt.value then now - s.escapeAt.value else 0;
      var left := if elapsed < ESC_DELAY then ESC_DELAY - elapsed else 0;
      if left < POLL_INTERVAL then left else POLL_INTERVAL
  }

  class Decoder {
    const parse: Parser
    var frame: seq<byte>
    var escapeAt: Option<nat>
    var discard: Option<Discard>

    ghost function Now(): State
      reads this
    {
      State(frame, escapeAt, discard)
    }

    constructor (parse: Parser)
      ensures this.parse == parse && Now() == IDLE
    {
      this.parse := parse;
      frame, escapeAt, discard := [], None, None;
    }

    method Feed(bytes: seq<byte>, now: nat) returns (events: seq<Frame>)
      modifies this
      ensures Now() == Fed(parse, old(Now()), bytes, now)
      ensures events == FedFrames(parse, old(Now()), bytes, now)
    {
      hide Accepted, Emitted, Discarded;
      events := Expire(now);
      ghost var start, first := Now(), events;
      assert first + [] == first;
      for i := 0 to |bytes|
        invariant Now() == Run(parse, start, bytes[..i], now)
        invariant events == first + Frames(parse, start, bytes[..i], now)
      {
        assert bytes[..i + 1][..i] == bytes[..i];
        ghost var before := Frames(parse, start, bytes[..i], now);
        ghost var here := Now();
        if discard.Some? {
          DiscardByte(bytes[i]);
          assert before + [] == before;
        } else {
          var completed := AcceptByte(bytes[i], now);
          assert first + (before + completed) == first + before + completed;
          events := events + completed;
        }
      }
      assert bytes[..|bytes|] == bytes;
    }

    method DiscardByte(b: byte)
      requires discard.Some?
      modifies this
      ensures Now() == Discarded(old(Now()), b)
    {
      match discard.value
      case Csi =>
        if 0x40 <= b <= 0x7E {
          discard := None;
        }
      case Paste(tail) =>
        tail := tail + [b];
        if |tail| > |PASTE_END| {
          tail := tail[1..];
        }
        discard := if tail == PASTE_END then None else Some(Paste(tail));
    }

    method Finish() returns (completed: seq<Frame>)
      modifies this`frame
      ensures frame == [] && completed == [Plain(old(frame))]
    {
      completed := [Plain(frame)];
      frame := [];
    }

    method Expire(now: nat) returns (events: seq<Frame>)
      modifies this
      ensures Now() == Expired(old(Now()), now) && events == ExpiredFrames(old(Now()), now)
    {
      if escapeAt.None? || now < escapeAt.value + ESC_DELAY {
        return [];
      }
      escapeAt := None;
      if frame == [ESC, BRACKET] || frame == [ESC, BIG_O] {
        events := [Alternate(frame[1..])];
      } else {
        events := [Plain(frame)];
      }
      frame := [];
    }

    /** Looks at a paste that has just grown by one byte. */
    method AcceptPaste() returns (events: seq<Frame>)
      requires discard.None? && escapeAt.None? && StartsWith(frame, PASTE_START)
      modifies this
      ensures Now() == if EndsWith(old(frame), PASTE_END) then IDLE
                       else if |old(frame)| > MAX_PASTE_FRAME
                       then IDLE.(discard := Some(Paste(old(frame)[|old(frame)| - |PASTE_END|..])))
                       else old(Now())
      ensures events == if EndsWith(old(frame), PASTE_END) && PayloadLength(old(frame)) <= MAX_PASTE
                        then [Plain(old(frame))] else []
    {
      events := [];
      if EndsWith(frame, PASTE_END) {
        MarkersDoNotOverlap(frame);
        if |frame| - |PASTE_START| - |PASTE_END| <= MAX_PASTE {
          events := Finish();
        } else {
          frame := [];
        }
      } else if |frame| > MAX_PASTE + |PASTE_START| + |PASTE_END| {
        discard := Some(Paste(frame[|frame| - |PASTE_END|..]));
        frame := [];
      }
    }

    /** Looks at a control sequence that has just grown by the byte `b`. */
    method AcceptSequence(b: byte) returns (events: seq<Frame>)
      requires discard.None? && escapeAt.None? && StartsWith(frame, [ESC, BRACKET])
      requires 2 < |frame| && frame[|frame| - 1] == b
      modifies this
      ensures
        var grown := old(frame);
        Now() == if grown == [ESC, BRACKET, BRACKET] then old(Now())
                 else if grown[2] == BIG_M then if |grown| == 6 then IDLE else old(Now())
                 else if Final(b) then IDLE
                 else if |grown| >= MAX_SEQUENCE then IDLE.(discard := Some(Csi))
                 else old(Now())
      ensures
        var grown := old(frame);
        events == if grown != [ESC, BRACKET, BRACKET] && (if grown[2] == BIG_M then |grown| == 6 else Final(b))
                  then [Plain(grown)] else []
    {
      events := [];
      if frame == [ESC, BRACKET, BRACKET] {
        return;
      } else if frame[2] == BIG_M {
        if |frame| == 6 {
          events := Finish();
        }
      } else if |frame| > 2 && 0x40 <= b <= 0x7E {
        events := Finish();
      } else if |frame| >= MAX_SEQUENCE {
        frame := [];
        discard := Some(Csi);
      }
    }

    method AcceptByte(b: byte, now: nat) returns (events: seq<Frame>)
      requires discard.None?
      modifies this
      ensures Now() == Accepted(parse, old(Now()), b, now)
      ensures events == Emitted(parse, old(Now()), b)
    {
      hide EndsWith, PayloadLength, Final;
      events := [];
      if frame == [ESC, ESC] && b != BRACKET {
        events := Finish();
      }
      ghost var split := events;
      assert split + [] == split;
      frame := frame + [b];
      if frame == [ESC] || frame == [ESC, ESC] {
        escapeAt := Some(now);
        return;
      }
      escapeAt := None;
      if frame == [ESC, BRACKET] || frame == [ESC, BIG_O] {
        escapeAt := Some(now);
        return;
      }
      if StartsWith(frame, PASTE_START) {
        var pasted := AcceptPaste();
        events := events + pasted;
        return;
      }
      if StartsWith(frame, [ESC, BRACKET]) {
        var completed := AcceptSequence(b);
        events := events + completed;
        return;
      }
      if frame == [ESC, ESC, BRACKET] {
        return;
      }
      match parse(frame) {
        case Complete =>
          var completed := Finish();
          events := events + completed;
        case NeedsMore =>
        case Broken => frame := [];
      }
      if |frame| >= MAX_SEQUENCE {
        frame := [];
      }
    }
  }

  // ----- Bounds -----

  /** Frames of pastes and of everything else are bounded, and nothing is timed while discarding. */
  ghost predicate Bounded(s: State) {
    && (StartsWith(s.frame, PASTE_START) ==> |s.frame| <= MAX_PASTE_FRAME)
    && (!StartsWith(s.frame, PASTE_START) ==> |s.frame| < MAX_SEQUENCE)
    && (s.frame != [] && StartsWith(s.frame, [ESC, BRACKET]) && 3 <= |s.frame| && s.frame[2] == BIG_M ==> |s.frame| < 6)
    && (s.discard.Some? ==> s.frame == [] && s.escapeAt.None?)
    && (s.discard.Some? && s.discard.value.Paste? ==> |s.discard.value.tail| <= |PASTE_END|)
  }

  lemma Grown(s: seq<byte>, b: byte, start: seq<byte>)
    requires |start| <= |s|
    ensures StartsWith(s + [b], start) <==> StartsWith(s, start)
  {
    assert (s + [b])[..|start|] == s[..|start|];
  }

  lemma AcceptedIsBounded(parse: Parser, s: State, b: byte, now: nat)
    requires Bounded(s) && s.discard.None?
    ensures Bounded(Accepted(parse, s, b, now))
  {
    hide StartsWith, EndsWith, Final;
    var before := if SplitsEscapes(s, b) then [] else s.frame;
    var frame := before + [b];
    ShortIsNoPaste([]);
    ShortIsNoPaste(frame);
    if |PASTE_START| <= |before| {
      Grown(before, b, PASTE_START);
    }
    if 2 <= |before| {
      Grown(before, b, [ESC, BRACKET]);
    }
    assert 3 <= |before| ==> frame[2] == before[2];
    assert |frame| <= 2 || 2 <= |before|;
  }

  lemma ShortIsNoPaste(frame: seq<byte>)
    ensures |frame| < |PASTE_START| ==> !StartsWith(frame, PASTE_START)
    ensures |frame| < 2 ==> !StartsWith(frame, [ESC, BRACKET])
    ensures StartsWith(frame, PASTE_START) ==> frame[2] != BIG_M
  {
    if StartsWith(frame, PASTE_START) {
      assert frame[2] == frame[..6][2];
    }
  }

  /** After every byte, frames that are not pastes have fewer than 256 bytes, and pastes are cut off
      behind the greatest paste that is handed over. */
  lemma {:induction false} FramesStayBounded(parse: Parser, s: State, bytes: seq<byte>, now: nat)
    requires Bounded(s)
    ensures Bounded(Run(parse, s, bytes, now))
  {
    if bytes != [] {
      FramesStayBounded(parse, s, bytes[..|bytes| - 1], now);
      var before := Run(parse, s, bytes[..|bytes| - 1], now);
      if before.discard.None? {
        AcceptedIsBounded(parse, before, bytes[|bytes| - 1], now);
      }
    }
  }

  // ----- Fragmented input -----

  datatype Chunk = Chunk(bytes: seq<byte>, at: nat)

  /** Chunks with bytes in them that follow each other faster than an escape expires. */
  ghost predicate Timely(chunks: seq<Chunk>) {
    && (forall i :: 0 <= i < |chunks| ==> chunks[i].bytes != [])
    && (forall i :: 0 < i < |chunks| ==> chunks[i - 1].at <= chunks[i].at < chunks[i - 1].at + ESC_DELAY)
  }

  function FedAll(parse: Parser, s: State, chunks: seq<Chunk>): State {
    if chunks == [] then s
    else
      var last := chunks[|chunks| - 1];
      Fed(parse, FedAll(parse, s, chunks[..|chunks| - 1]), last.bytes, last.at)
  }

  function AllFrames(parse: Parser, s: State, chunks: seq<Chunk>): seq<Frame> {
    if chunks == [] then []
    else
      var init, last := chunks[..|chunks| - 1], chunks[|chunks| - 1];
      AllFrames(parse, s, init) + FedFrames(parse, FedAll(parse, s, init), last.bytes, last.at)
  }

  function Joined(chunks: seq<Chunk>): seq<byte> {
    if chunks == [] then [] else Joined(chunks[..|chunks| - 1]) + chunks[|chunks| - 1].bytes
  }

  /** Equal but for the time at which an escape was seen. */
  predicate SameButTime(a: State, b: State) {
    a.frame == b.frame && a.discard == b.discard && (a.escapeAt.Some? <==> b.escapeAt.Some?)
  }

  lemma StepIgnoresTime(parse: Parser, a: State, b: State, next: byte, now: nat, later: nat)
    requires SameButTime(a, b)
    ensures SameButTime(Next(parse, a, next, now), Next(parse, b, next, later))
    ensures Output(parse, a, next) == Output(parse, b, next)
  {}

  lemma {:induction false} RunIgnoresTime(parse: Parser, a: State, b: State, bytes: seq<byte>, now: nat, later: nat)
    requires SameButTime(a, b)
    ensures SameButTime(Run(parse, a, bytes, now), Run(parse, b, bytes, later))
    ensures Frames(parse, a, bytes, now) == Frames(parse, b, bytes, later)
  {
    hide Next, Output;
    if bytes != [] {
      var init, last := bytes[..|bytes| - 1], bytes[|bytes| - 1];
      RunIgnoresTime(parse, a, b, init, now, later);
      StepIgnoresTime(parse, Run(parse, a, init, now), Run(parse, b, init, later), last, now, later);
    }
  }

  lemma {:induction false} RunConcat(parse: Parser, s: State, a: seq<byte>, b: seq<byte>, now: nat)
    ensures
      var middle := Run(parse, s, a, now);
      && Run(parse, s, a + b, now) == Run(parse, middle, b, now)
      && Frames(parse, s, a + b, now) == Frames(parse, s, a, now) + Frames(parse, middle, b, now)
    decreases |b|
  {
    hide Next, Output;
    if b == [] {
      assert a + [] == a && Frames(parse, s, a, now) + [] == Frames(parse, s, a, now);
    } else {
      var init := b[..|b| - 1];
      RunConcat(parse, s, a, init, now);
      assert (a + b)[..|a + b| - 1] == a + init;
    }
  }

  /** An escape that is timed after a non-empty run was seen in it. */
  lemma RunTimesEscapes(parse: Parser, s: State, bytes: seq<byte>, now: nat)
    requires Bounded(s) && bytes != []
    ensures
      var end := Run(parse, s, bytes, now);
      end.escapeAt.Some? ==> end.escapeAt == Some(now)
  {
    FramesStayBounded(parse, s, bytes[..|bytes| - 1], now);
  }

  lemma ExpiredIsBounded(s: State, now: nat)
    requires Bounded(s)
    ensures Bounded(Expired(s, now))
  {}

  lemma {:induction false} ChunksAsOne(parse: Parser, s: State, chunks: seq<Chunk>)
    requires Bounded(s) && chunks != [] && Timely(chunks)
    ensures
      var end := FedAll(parse, s, chunks);
      && Bounded(end)
      && SameButTime(end, Fed(parse, s, Joined(chunks), chunks[0].at))
      && (end.escapeAt.Some? ==> end.escapeAt.value == chunks[|chunks| - 1].at)
    ensures AllFrames(parse, s, chunks) == FedFrames(parse, s, Joined(chunks), chunks[0].at)
  {
    hide Run, Frames, Bounded;
    var start := chunks[0].at;
    var init, last := chunks[..|chunks| - 1], chunks[|chunks| - 1];
    ExpiredIsBounded(s, start);
    if init == [] {
      assert Joined(init) == [] && FedAll(parse, s, init) == s && AllFrames(parse, s, init) == [];
      assert Joined(chunks) == [] + last.bytes == last.bytes;
      assert [] + FedFrames(parse, s, last.bytes, start) == FedFrames(parse, s, last.bytes, start);
      FramesStayBounded(parse, Expired(s, start), last.bytes, start);
      RunTimesEscapes(parse, Expired(s, start), last.bytes, start);
    } else {
      assert init[0] == chunks[0] && init[|init| - 1] == chunks[|chunks| - 2];
      ChunksAsOne(parse, s, init);
      var before, whole := FedAll(parse, s, init), Fed(parse, s, Joined(init), start);
      assert Expired(before, last.at) == before && ExpiredFrames(before, last.at) == [];
      FramesStayBounded(parse, before, last.bytes, last.at);
      RunTimesEscapes(parse, before, last.bytes, last.at);
      RunIgnoresTime(parse, before, whole, last.bytes, last.at, start);
      RunConcat(parse, Expired(s, start), Joined(init), last.bytes, start);
      Regroup(ExpiredFrames(s, start), Frames(parse, Expired(s, start), Joined(init), start),
              Frames(parse, whole, last.bytes, start));
      assert [] + Frames(parse, before, last.bytes, last.at) == Frames(parse, before, last.bytes, last.at);
    }
  }

  // ----- Pastes -----

  /** The state inside a paste whose first `k` bytes are those of `stream`. */
  function Inside(stream: seq<byte>, k: nat): State
    requires |PASTE_START| <= k <= |stream|
  {
    if k <= MAX_PASTE_FRAME then State(stream[..k], None, None)
    else State([], None, Some(Paste(stream[k - |PASTE_END|..k])))
  }

  /** The state after the first `k` bytes of a start marker. */
  function Starting(k: nat, now: nat): State
    requires k <= |PASTE_START|
  {
    State(PASTE_START[..k], if k == 1 || k == 2 then Some(now) else None, None)
  }

  /** A control sequence that is neither finished nor a paste is kept. */
  lemma SequenceContinues(parse: Parser, frame: seq<byte>, b: byte, now: nat)
    requires StartsWith(frame, [ESC, BRACKET]) && !StartsWith(frame + [b], PASTE_START)
    requires |frame| + 1 < MAX_SEQUENCE && !Final(b) && (frame + [b])[2] != BIG_M
    ensures Accepted(parse, State(frame, None, None), b, now) == State(frame + [b], None, None)
    ensures Accepted(parse, State(frame, Some(now), None), b, now) == State(frame + [b], None, None)
    ensures Emitted(parse, State(frame, None, None), b) == [] == Emitted(parse, State(frame, Some(now), None), b)
  {
    assert frame[0] == ESC && frame[1] == BRACKET;
    assert (frame + [b])[..2] == [ESC, BRACKET];
  }

  lemma StartContinues(parse: Parser, k: nat, now: nat)
    requires k < |PASTE_START|
    ensures Next(parse, Starting(k, now), PASTE_START[k], now) == Starting(k + 1, now)
    ensures Output(parse, Starting(k, now), PASTE_START[k]) == []
  {
    var frame := PASTE_START[..k];
    assert PASTE_START[..k + 1] == frame + [PASTE_START[k]];
    if 2 <= k < 5 {
      hide Accepted, Emitted;
      assert frame[..2] == [ESC, BRACKET];
      assert (frame + [PASTE_START[k]])[2] == PASTE_START[2];
      SequenceContinues(parse, frame, PASTE_START[k], now);
    } else if k == 5 {
      assert frame + [PASTE_START[k]] == PASTE_START;
    } else {
      assert k == 1 ==> frame == [ESC];
    }
  }

  lemma {:induction false} PasteStarts(parse: Parser, k: nat, now: nat)
    requires k <= |PASTE_START|
    ensures Run(parse, IDLE, PASTE_START[..k], now) == Starting(k, now)
    ensures Frames(parse, IDLE, PASTE_START[..k], now) == []
  {
    hide Next, Output;
    if 0 < k {
      PasteStarts(parse, k - 1, now);
      StartContinues(parse, k - 1, now);
      assert PASTE_START[..k][..k - 1] == PASTE_START[..k - 1];
    }
  }

  lemma PasteContinues(parse: Parser, stream: seq<byte>, k: nat, now: nat)
    requires |PASTE_START| <= k < |stream| && StartsWith(stream, PASTE_START) && !EndsWith(stream[..k + 1], PASTE_END)
    ensures Next(parse, Inside(stream, k), stream[k], now) == Inside(stream, k + 1)
    ensures Output(parse, Inside(stream, k), stream[k]) == []
  {
    assert stream[..k + 1] == stream[..k] + [stream[k]];
    Grown(stream[..k], stream[k], PASTE_START);
    if k <= MAX_PASTE_FRAME {
      assert stream[..k + 1][k - 5..] == stream[k - 5..k + 1];
    } else {
      assert (stream[k - 6..k] + [stream[k]])[1..] == stream[k - 5..k + 1];
      assert stream[..k + 1][k - 5..] == stream[k - 5..k + 1];
    }
  }

  lemma PasteEnds(parse: Parser, stream: seq<byte>, now: nat)
    requires |PASTE_START| < |stream| && StartsWith(stream, PASTE_START) && EndsWith(stream, PASTE_END)
    ensures
      var k := |stream| - 1;
      && Next(parse, Inside(stream, k), stream[k], now) == IDLE
      && Output(parse, Inside(stream, k), stream[k]) == if |stream| <= MAX_PASTE_FRAME then [Plain(stream)] else []
  {
    var k := |stream| - 1;
    assert stream == stream[..k] + [stream[k]];
    MarkersDoNotOverlap(stream);
    if k > MAX_PASTE_FRAME {
      assert (stream[k - 6..k] + [stream[k]])[1..] == stream[k - 5..];
    }
  }

  lemma {:induction false} PasteGoesOn(parse: Parser, stream: seq<byte>, k: nat, now: nat)
    requires |PASTE_START| <= k <= |stream| && StartsWith(stream, PASTE_START)
    requires forall i :: 0 <= i <= k ==> !EndsWith(stream[..i], PASTE_END)
    ensures Run(parse, IDLE, stream[..k], now) == Inside(stream, k) && Frames(parse, IDLE, stream[..k], now) == []
    decreases k
  {
    hide Next, Output, EndsWith;
    if k == |PASTE_START| {
      assert stream[..k] == PASTE_START == PASTE_START[..k];
      PasteStarts(parse, k, now);
    } else {
      PasteGoesOn(parse, stream, k - 1, now);
      PasteContinues(parse, stream, k - 1, now);
      assert stream[..k][..k - 1] == stream[..k - 1];
    }
  }

  ghost predicate IsPaste(stream: seq<byte>) {
    && StartsWith(stream, PASTE_START) && EndsWith(stream, PASTE_END)
    && forall i :: 0 <= i < |stream| ==> !EndsWith(stream[..i], PASTE_END)
  }

  lemma MarkedIsPaste(payload: seq<byte>)
    requires forall i :: 0 <= i < |PASTE_START + payload + PASTE_END| ==>
               !EndsWith((PASTE_START + payload + PASTE_END)[..i], PASTE_END)
    ensures IsPaste(PASTE_START + payload + PASTE_END)
  {
    var stream := PASTE_START + payload + PASTE_END;
    assert stream[|PASTE_START + payload|..] == PASTE_END;
    assert stream[..|PASTE_START|] == PASTE_START;
  }

  lemma WholePaste(parse: Parser, stream: seq<byte>, now: nat)
    requires IsPaste(stream)
    ensures Run(parse, IDLE, stream, now) == IDLE && |PASTE_START| + |PASTE_END| <= |stream|
    ensures Frames(parse, IDLE, stream, now) == if |stream| <= MAX_PASTE_FRAME then [Plain(stream)] else []
  {
    hide Next, Output, Run, Frames;
    MarkersDoNotOverlap(stream);
    PasteGoesOn(parse, stream, |stream| - 1, now);
    PasteEnds(parse, stream, now);
    RunLast(parse, IDLE, stream, now);
  }

  /** A paste whose end marker first occurs at its end is handed over as one frame if its payload is
      at most 1 MiB, and not at all otherwise; either way the decoder is idle again. */
  lemma PasteIsOneFrameOrNone(parse: Parser, payload: seq<byte>, now: nat)
    requires forall i :: 0 <= i < |PASTE_START + payload + PASTE_END| ==>
               !EndsWith((PASTE_START + payload + PASTE_END)[..i], PASTE_END)
    ensures
      var stream := PASTE_START + payload + PASTE_END;
      && Fed(parse, IDLE, stream, now) == IDLE
      && FedFrames(parse, IDLE, stream, now) == if |payload| <= MAX_PASTE then [Plain(stream)] else []
  {
    hide Next, Output, Run, Frames, IsPaste;
    var stream := PASTE_START + payload + PASTE_END;
    MarkedIsPaste(payload);
    WholePaste(parse, stream, now);
    assert [] + Frames(parse, IDLE, stream, now) == Frames(parse, IDLE, stream, now);
  }

  /** The time at which the last byte has arrived. */
  function LastAt(chunks: seq<Chunk>): nat {
    if chunks == [] then 0
    else
      var last := chunks[|chunks| - 1];
      if last.bytes != [] then last.at else LastAt(chunks[..|chunks| - 1])
  }

  /** While only the first one or two bytes of the start marker have arrived, which might be keys of
      their own, the rest does not keep the reader waiting for longer than an escape. */
  ghost predicate Paced(chunks: seq<Chunk>) {
    forall i :: 0 <= i < |chunks| && 1 <= |Joined(chunks[..i])| <= 2 ==>
      chunks[i].at < LastAt(chunks[..i]) + ESC_DELAY
  }

  /** Within a paste, only the first two bytes of the start marker are timed. */
  lemma TimedInMarker(parse: Parser, stream: seq<byte>, k: nat)
    requires IsPaste(stream) && k <= |stream|
    ensures Run(parse, IDLE, stream[..k], 0).escapeAt.Some? ==> 1 <= k <= 2
  {
    hide Next, Output, EndsWith, Run;
    if k <= |PASTE_START| {
      assert stream[..k] == PASTE_START[..k];
      PasteStarts(parse, k, 0);
    } else if k < |stream| {
      PasteGoesOn(parse, stream, k, 0);
    } else {
      assert stream[..k] == stream;
      WholePaste(parse, stream, 0);
    }
  }

  lemma {:induction false} PasteInChunks(parse: Parser, stream: seq<byte>, chunks: seq<Chunk>)
    ensures
      IsPaste(stream) && Paced(chunks) && Joined(chunks) <= stream ==>
        var end := FedAll(parse, IDLE, chunks);
        && Bounded(end) && SameButTime(end, Run(parse, IDLE, Joined(chunks), 0))
        && (end.escapeAt.Some? ==> end.escapeAt.value == LastAt(chunks))
        && AllFrames(parse, IDLE, chunks) == Frames(parse, IDLE, Joined(chunks), 0)
  {
    hide Run, Frames, IsPaste;
    if chunks == [] {
      IdleIsBounded(parse);
    } else if IsPaste(stream) && Paced(chunks) && Joined(chunks) <= stream {
      var n := |chunks| - 1;
      var init, last := chunks[..n], chunks[n];
      PacedBefore(chunks);
      assert Joined(init) <= Joined(chunks);
      PasteInChunks(parse, stream, init);
      var before := FedAll(parse, IDLE, init);
      var whole := Run(parse, IDLE, Joined(init), 0);
      TimedInMarker(parse, stream, |Joined(init)|);
      assert stream[..|Joined(init)|] == Joined(init);
      assert Expired(before, last.at) == before && ExpiredFrames(before, last.at) == [];
      FramesStayBounded(parse, before, last.bytes, last.at);
      RunIgnoresTime(parse, before, whole, last.bytes, last.at, 0);
      RunConcat(parse, IDLE, Joined(init), last.bytes, 0);
      assert [] + Frames(parse, before, last.bytes, last.at) == Frames(parse, before, last.bytes, last.at);
      if last.bytes != [] {
        RunTimesEscapes(parse, before, last.bytes, last.at);
      } else {
        NothingRun(parse, before, last.at);
      }
    }
  }

  lemma IdleIsBounded(parse: Parser)
    ensures Bounded(IDLE) && Run(parse, IDLE, [], 0) == IDLE && Frames(parse, IDLE, [], 0) == []
  {
  }

  lemma NothingRun(parse: Parser, s: State, now: nat)
    ensures Run(parse, s, [], now) == s
  {
  }

  lemma PacedBefore(chunks: seq<Chunk>)
    requires Paced(chunks) && chunks != []
    ensures Paced(chunks[..|chunks| - 1])
  {
    hide Joined, LastAt;
    var init := chunks[..|chunks| - 1];
    forall i | 0 <= i < |init|
      ensures init[..i] == chunks[..i] && init[i] == chunks[i]
    {
    }
  }

  /** The same however the reader delivers it, in any chunks and with any gaps between them, but for
      the delay that tells an escape from the start of the marker. */
  lemma ChunkedPasteIsOneFrameOrNone(parse: Parser, payload: seq<byte>, chunks: seq<Chunk>)
    requires Joined(chunks) == PASTE_START + payload + PASTE_END && Paced(chunks)
    requires forall i :: 0 <= i < |Joined(chunks)| ==> !EndsWith(Joined(chunks)[..i], PASTE_END)
    ensures FedAll(parse, IDLE, chunks) == IDLE
    ensures AllFrames(parse, IDLE, chunks) == if |payload| <= MAX_PASTE then [Plain(Joined(chunks))] else []
  {
    hide Next, Output, Run, Frames, FedAll, AllFrames, IsPaste, EndsWith, Paced, LastAt, Bounded;
    var stream := Joined(chunks);
    MarkedIsPaste(payload);
    PasteInChunks(parse, stream, chunks);
    WholePaste(parse, stream, 0);
  }

  lemma RunLast(parse: Parser, s: State, bytes: seq<byte>, now: nat)
    requires bytes != []
    ensures
      var init, last := bytes[..|bytes| - 1], bytes[|bytes| - 1];
      && Run(parse, s, bytes, now) == Next(parse, Run(parse, s, init, now), last, now)
      && Frames(parse, s, bytes, now) == Frames(parse, s, init, now) + Output(parse, Run(parse, s, init, now), last)
  {}

  // ----- Waiting -----

  /** Polling for no longer than `Wait` never misses an escape's delay, and never sleeps longer than
      the poll interval. */
  lemma WaitEndsAtExpiry(s: State, now: nat)
    requires s.escapeAt.Some? ==> s.escapeAt.value <= now
    ensures Wait(s, now) <= POLL_INTERVAL
    ensures s.escapeAt.Some? ==>
              Expires(s, now + Wait(s, now)) && forall t :: now <= t < now + Wait(s, now) ==> !Expires(s, t)
  {}
}
