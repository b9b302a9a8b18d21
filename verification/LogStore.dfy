/**
 Appending to the diagnostic log of one process run: four numbered segments of bounded size,
 of which segment 0 is written and segment 3 is the oldest. The writer may be killed between
 any two steps on the file system, and between any two bytes of a write.
 */
module LogStore {
  import opened Basics
  import opened Options

  type Segments = map<nat, seq<byte>>

  const NEWLINE: byte := 10
  const MAX_RECORD_BYTES: nat := 2048

  /** One step that a kill can separate from the next one. */
  datatype Step = Create | Remove(index: nat) | Rename(index: nat) | Write(data: byte)

  datatype AppendError = RecordTooLarge | SegmentTooLarge

  // ----- Steps on the file system -----

  /** `Create` opens segment 0 for appending, `Rename(i)` turns segment `i - 1` into segment `i`. */
  function Perform(segments: Segments, step: Step): Segments {
    match step
    case Create => if 0 in segments then segments else segments[0 := []]
    case Remove(index) => segments - {index}
    case Rename(index) =>
      if 0 < index && index - 1 in segments then segments[index := segments[index - 1]] - {index - 1} else segments
    case Write(data) => if 0 in segments then segments[0 := segments[0] + [data]] else segments
  }

  function PerformAll(segments: Segments, steps: seq<Step>): Segments
    decreases |steps|
  {
    if steps == [] then segments else PerformAll(Perform(segments, steps[0]), steps[1..])
  }

  lemma PerformConcat(segments: Segments, first: seq<Step>, second: seq<Step>)
    ensures PerformAll(segments, first + second) == PerformAll(PerformAll(segments, first), second)
    decreases |first|
  {
    if first == [] {
      assert first + second == second;
    } else {
      assert (first + second)[1..] == first[1..] + second;
      PerformConcat(Perform(segments, first[0]), first[1..], second);
    }
  }

  /** What is left when the writer is killed after `done` steps. */
  function Killed(segments: Segments, steps: seq<Step>, done: nat): Segments {
    PerformAll(segments, if done < |steps| then steps[..done] else steps)
  }

  lemma KilledConcat(segments: Segments, first: seq<Step>, second: seq<Step>, done: nat)
    ensures done <= |first| ==> Killed(segments, first + second, done) == Killed(segments, first, done)
    ensures |first| <= done ==>
              Killed(segments, first + second, done) == Killed(PerformAll(segments, first), second, done - |first|)
  {
    if done < |first| {
      assert (first + second)[..done] == first[..done];
    } else if done < |first + second| {
      assert (first + second)[..done] == first + second[..done - |first|];
      PerformConcat(segments, first, second[..done - |first|]);
    } else {
      PerformConcat(segments, first, second);
    }
    if done == |first| {
      assert first[..done] == first;
    }
  }

  // ----- The steps of one append -----

  /** Moves segment `index - 1` up, and then everything below it. */
  function Rotation(segments: Segments, index: nat): seq<Step>
    decreases index
  {
    if index == 0 then []
    else if index - 1 !in segments then Rotation(segments, index - 1)
    else
      var shift := Shift(segments, index);
      shift + Rotation(PerformAll(segments, shift), index - 1)
  }

  function Shift(segments: Segments, index: nat): seq<Step> {
    (if index in segments then [Remove(index)] else []) + [Rename(index)]
  }

  function Bytes(data: seq<byte>): (steps: seq<Step>) {
    seq(|data|, i requires 0 <= i < |data| => Write(data[i]))
  }

  predicate Unterminated(data: seq<byte>) {
    0 < |data| && data[|data| - 1] != NEWLINE
  }

  function Repair(data: seq<byte>): seq<Step> {
    if Unterminated(data) then [Write(NEWLINE)] else []
  }

  predicate Full(segments: Segments, limit: nat, encoded: seq<byte>)
    requires 0 in segments
  {
    |segments[0]| + |encoded| + 1 > limit
  }

  function Preparing(segments: Segments, limit: nat, encoded: seq<byte>): seq<Step>
    requires 0 in segments
  {
    if Full(segments, limit, encoded) then Rotation(segments, 3) + [Create] else Repair(segments[0])
  }

  /** The steps after segment 0 has been opened. */
  function Filling(segments: Segments, limit: nat, encoded: seq<byte>): (steps: seq<Step>)
    requires 0 in segments
    ensures |encoded| <= |steps|
  {
    Preparing(segments, limit, encoded) + Bytes(encoded)
  }

  function Opened(segments: Segments): Segments {
    Perform(segments, Create)
  }

  function Plan(segments: Segments, limit: nat, encoded: seq<byte>): Result<seq<Step>, AppendError> {
    if |encoded| > MAX_RECORD_BYTES then Err(RecordTooLarge)
    else if |Opened(segments)[0]| > limit then Err(SegmentTooLarge)
    else Ok([Create] + Filling(Opened(segments), limit, encoded))
  }

  /** The store of one run. `steps` lists what has been done to the files, so that the state a
      killed writer leaves is the one after some prefix of it. */
  class Store {
    const segmentBytes: nat
    var segments: Segments
    ghost var steps: seq<Step>

    constructor (segmentBytes: nat)
      ensures this.segmentBytes == segmentBytes && segments == map[] && steps == []
    {
      this.segmentBytes := segmentBytes;
      segments := map[];
      steps := [];
    }

    method Do(step: Step)
      modifies this
      ensures segments == Perform(old(segments), step)
      ensures steps == old(steps) + [step]
    {
      segments := Perform(segments, step);
      steps := steps + [step];
    }

    method Append(encoded: seq<byte>) returns (result: Result<(), AppendError>)
      modifies this
      ensures match Plan(old(segments), segmentBytes, encoded)
              case Ok(plan) =>
                result == Ok(()) && steps == old(steps) + plan && segments == PerformAll(old(segments), plan)
              case Err(error) =>
                result == Err(error)
                && segments == if error.RecordTooLarge? then old(segments) else Opened(old(segments))
    {
      if |encoded| > MAX_RECORD_BYTES {
        return Err(RecordTooLarge);
      }
      Do(Create);
      if |segments[0]| > segmentBytes {
        return Err(SegmentTooLarge);
      }
      ghost var ready := segments;
      Fill(encoded);
      PlanOpens(old(segments), Filling(ready, segmentBytes, encoded));
      Regroup(old(steps), [Create], Filling(ready, segmentBytes, encoded));
      result := Ok(());
    }

    method Fill(encoded: seq<byte>)
      requires 0 in segments
      modifies this
      ensures segments == PerformAll(old(segments), Filling(old(segments), segmentBytes, encoded))
      ensures steps == old(steps) + Filling(old(segments), segmentBytes, encoded)
    {
      ghost var preparing := Preparing(segments, segmentBytes, encoded);
      PerformConcat(segments, preparing, Bytes(encoded));
      if |segments[0]| + |encoded| + 1 > segmentBytes {
        Rotate();
      }
      Terminate();
      assert steps == old(steps) + preparing;
      WriteAll(encoded);
      assert steps == old(steps) + (preparing + Bytes(encoded));
    }

    /** Moves every segment up by one, dropping the oldest, and opens a new segment 0. */
    method Rotate()
      requires 0 in segments
      modifies this
      ensures segments == PerformAll(old(segments), Rotation(old(segments), 3) + [Create])
      ensures steps == old(steps) + (Rotation(old(segments), 3) + [Create])
      ensures 0 in segments && segments[0] == []
    {
      ghost var start, all := segments, Rotation(segments, 3);
      var index := 3;
      while index > 0
        invariant index <= 3
        invariant steps + Rotation(segments, index) == old(steps) + all
        invariant PerformAll(segments, Rotation(segments, index)) == PerformAll(start, all)
        invariant 0 in segments <==> index > 0
      {
        if index - 1 in segments {
          ShiftUp(index);
        }
        index := index - 1;
      }
      PerformConcat(start, all, [Create]);
      PerformOne(segments, Create);
      assert Rotation(segments, 0) == [] && steps + [] == steps;
      Do(Create);
      Regroup(old(steps), all, [Create]);
    }

    method ShiftUp(index: nat)
      requires 0 < index && index - 1 in segments
      modifies this
      ensures segments == PerformAll(old(segments), Shift(old(segments), index))
      ensures steps == old(steps) + Shift(old(segments), index)
      ensures 0 in segments <==> 0 in old(segments) && index > 1
      ensures PerformAll(segments, Rotation(segments, index - 1))
           == PerformAll(old(segments), Rotation(old(segments), index))
      ensures steps + Rotation(segments, index - 1) == old(steps) + Rotation(old(segments), index)
    {
      ghost var shift := Shift(segments, index);
      PerformConcat(segments, shift, Rotation(PerformAll(segments, shift), index - 1));
      ShiftEffect(segments, index);
      if index in segments {
        Do(Remove(index));
      }
      Do(Rename(index));
      assert segments == PerformAll(old(segments), shift);
      assert Rotation(old(segments), index) == shift + Rotation(segments, index - 1);
      assert steps == old(steps) + shift;
    }

    /** Ends a line that a killed writer left unfinished. */
    method Terminate()
      requires 0 in segments
      modifies this
      ensures segments == PerformAll(old(segments), Repair(old(segments)[0]))
      ensures steps == old(steps) + Repair(old(segments)[0])
    {
      if 0 < |segments[0]| && segments[0][|segments[0]| - 1] != NEWLINE {
        PerformOne(segments, Write(NEWLINE));
        Do(Write(NEWLINE));
      }
    }

    method WriteAll(data: seq<byte>)
      modifies this
      ensures segments == PerformAll(old(segments), Bytes(data))
      ensures steps == old(steps) + Bytes(data)
    {
      ghost var bytes := Bytes(data);
      for i := 0 to |data|
        invariant steps == old(steps) + bytes[..i]
        invariant segments == PerformAll(old(segments), bytes[..i])
      {
        PerformConcat(old(segments), bytes[..i], [bytes[i]]);
        PerformOne(segments, bytes[i]);
        Do(Write(data[i]));
        assert bytes[..i + 1] == bytes[..i] + [bytes[i]];
      }
      assert bytes[..|data|] == bytes;
    }
  }

  lemma PerformOne(segments: Segments, step: Step)
    ensures PerformAll(segments, [step]) == Perform(segments, step)
  {
    assert PerformAll(Perform(segments, step), []) == Perform(segments, step);
  }

  lemma PlanOpens(segments: Segments, filling: seq<Step>)
    ensures PerformAll(segments, [Create] + filling) == PerformAll(Opened(segments), filling)
  {
    PerformConcat(segments, [Create], filling);
    PerformOne(segments, Create);
  }

  lemma ShiftEffect(segments: Segments, index: nat)
    requires 0 < index && index - 1 in segments
    ensures PerformAll(segments, Shift(segments, index)) == segments[index := segments[index - 1]] - {index - 1}
  {
    if index in segments {
      var removed := Perform(segments, Remove(index));
      PerformConcat(segments, [Remove(index)], [Rename(index)]);
      PerformOne(segments, Remove(index));
      PerformOne(removed, Rename(index));
    } else {
      PerformOne(segments, Rename(index));
    }
  }

  // ----- Lines -----

  /** A file cut behind every newline: its complete lines, and what follows the last newline. */
  datatype Text = Text(lines: seq<seq<byte>>, tail: seq<byte>)

  function Extend(text: Text, next: byte): Text {
    if next == NEWLINE then Text(text.lines + [text.tail + [next]], []) else Text(text.lines, text.tail + [next])
  }

  function Split(data: seq<byte>): (text: Text)
    ensures Unterminated(data) <==> text.tail != []
    decreases |data|
  {
    if data == [] then Text([], []) else Extend(Split(data[..|data| - 1]), data[|data| - 1])
  }

  function Lines(data: seq<byte>): seq<seq<byte>> {
    Split(data).lines + Open(Split(data).tail)
  }

  function Open(tail: seq<byte>): seq<seq<byte>> {
    if tail == [] then [] else [tail]
  }

  function Join(lines: seq<seq<byte>>): seq<byte> {
    if lines == [] then [] else Join(lines[..|lines| - 1]) + lines[|lines| - 1]
  }

  /** A record as it is written: one line, ended by its only newline. */
  ghost predicate IsRecord(encoded: seq<byte>) {
    && 0 < |encoded|
    && encoded[|encoded| - 1] == NEWLINE
    && NEWLINE !in encoded[..|encoded| - 1]
  }

  /** Nothing is lost, and the file is cut exactly behind every newline. */
  ghost predicate Exact(text: Text, data: seq<byte>) {
    && Join(text.lines) + text.tail == data
    && (forall line :: line in text.lines ==> IsRecord(line))
    && NEWLINE !in text.tail
  }

  lemma ExtendIsExact(text: Text, data: seq<byte>, next: byte)
    requires Exact(text, data)
    ensures Exact(Extend(text, next), data + [next])
  {
    if next == NEWLINE {
      var line := text.tail + [next];
      assert line[..|line| - 1] == text.tail;
      var lines := text.lines + [line];
      assert lines[..|lines| - 1] == text.lines;
      assert Join(lines) == Join(text.lines) + line;
      assert Join(lines) + [] == Join(lines);
    }
  }

  lemma {:induction false} SplitIsExact(data: seq<byte>)
    ensures Exact(Split(data), data)
    decreases |data|
  {
    if data != [] {
      SplitIsExact(data[..|data| - 1]);
      ExtendIsExact(Split(data[..|data| - 1]), data[..|data| - 1], data[|data| - 1]);
      assert data[..|data| - 1] + [data[|data| - 1]] == data;
    }
  }

  lemma SplitExtends(data: seq<byte>, next: byte)
    ensures Split(data + [next]) == Extend(Split(data), next)
  {
    assert (data + [next])[..|data|] == data;
  }

  lemma {:induction false} SplitStep(data: seq<byte>, encoded: seq<byte>, n: nat)
    requires n < |encoded| && encoded[n] != NEWLINE
    requires Split(data + encoded[..n]) == Text(Split(data).lines, encoded[..n])
    ensures Split(data + encoded[..n + 1]) == Text(Split(data).lines, encoded[..n + 1])
  {
    hide Split;
    assert encoded[..n + 1] == encoded[..n] + [encoded[n]];
    Regroup(data, encoded[..n], [encoded[n]]);
    SplitExtends(data + encoded[..n], encoded[n]);
  }

  lemma {:induction false} SplitPart(data: seq<byte>, encoded: seq<byte>, n: nat)
    requires IsRecord(encoded) && n < |encoded| && !Unterminated(data)
    ensures Split(data + encoded[..n]) == Text(Split(data).lines, encoded[..n])
  {
    hide Split, IsRecord;
    if n == 0 {
      assert data + encoded[..0] == data;
    } else {
      SplitPart(data, encoded, n - 1);
      RecordEndsAtNewline(encoded, n - 1);
      SplitStep(data, encoded, n - 1);
    }
  }

  lemma RecordEndsAtNewline(encoded: seq<byte>, i: nat)
    requires IsRecord(encoded) && i < |encoded| - 1
    ensures encoded[i] != NEWLINE
  {
    assert encoded[i] == encoded[..|encoded| - 1][i];
  }

  lemma SplitWhole(data: seq<byte>, encoded: seq<byte>)
    requires IsRecord(encoded) && !Unterminated(data)
    ensures Split(data + encoded) == Text(Split(data).lines + [encoded], [])
  {
    hide Split;
    var n := |encoded| - 1;
    SplitPart(data, encoded, n);
    SplitExtends(data + encoded[..n], NEWLINE);
    assert data + encoded == data + encoded[..n] + [NEWLINE];
    assert encoded == encoded[..n] + [NEWLINE];
  }

  /** A line in the log and what an append wrote of its record: a complete record is found as it
      was written, a torn one at most with a newline behind it. */
  predicate StandsFor(line: seq<byte>, piece: seq<byte>) {
    line == piece || (Unterminated(piece) && line == piece + [NEWLINE])
  }

  ghost predicate AllStand(lines: seq<seq<byte>>, pieces: seq<seq<byte>>) {
    |lines| == |pieces| && forall i :: 0 <= i < |lines| ==> StandsFor(lines[i], pieces[i])
  }

  function Kept(segments: Segments, index: nat): seq<seq<byte>> {
    if index in segments then Lines(segments[index]) else []
  }

  /** All lines of a run, oldest segment first. */
  function AllLines(segments: Segments): seq<seq<byte>> {
    Older(segments) + Kept(segments, 0)
  }

  function Older(segments: Segments): seq<seq<byte>> {
    Kept(segments, 3) + Kept(segments, 2) + Kept(segments, 1)
  }

  ghost predicate Bounded(segments: Segments, limit: nat) {
    forall i :: i in segments ==> i <= 3 && |segments[i]| <= limit
  }

  // ----- What a killed append leaves -----

  lemma ShiftKeepsLines(segments: Segments, index: nat)
    requires 0 < index <= 3 && index - 1 in segments
    ensures AllLines(segments[index := segments[index - 1]] - {index - 1}) == AllLines(segments - {index})
  {
    var after := segments[index := segments[index - 1]] - {index - 1};
    var without := segments - {index};
    assert Kept(after, index) == Kept(without, index - 1);
    assert Kept(after, index - 1) == [] == Kept(without, index);
    assert forall i :: i != index && i != index - 1 ==> Kept(after, i) == Kept(without, i);
    FourParts(Kept(after, 3), Kept(after, 2), Kept(after, 1), Kept(after, 0));
    FourParts(Kept(without, 3), Kept(without, 2), Kept(without, 1), Kept(without, 0));
  }

  lemma FourParts(a: seq<seq<byte>>, b: seq<seq<byte>>, c: seq<seq<byte>>, d: seq<seq<byte>>)
    ensures a == [] ==> a + b + c + d == b + c + d
    ensures b == [] ==> a + b + c + d == a + c + d
    ensures c == [] ==> a + b + c + d == a + b + d
    ensures d == [] ==> a + b + c + d == a + b + c
  {}

  /** The segments whose lines are left when `done` steps of a rotation from `index` on are done. */
  function Surviving(segments: Segments, index: nat, done: nat): Segments {
    if index == 3 && 2 in segments && 3 in segments && 1 <= done then segments - {3} else segments
  }

  lemma ShiftKilled(segments: Segments, index: nat, done: nat)
    requires 0 < index <= 3 && index - 1 in segments && (index < 3 ==> index !in segments)
    requires done < |Shift(segments, index)|
    ensures Killed(segments, Shift(segments, index), done)
         == if index == 3 then Surviving(segments, 3, done) else segments
  {
    var shift := Shift(segments, index);
    if done == 1 {
      assert shift[..1] == [Remove(index)];
      PerformOne(segments, Remove(index));
    }
  }

  /** Killed anywhere, a rotation keeps all lines in their order, or loses just the oldest segment:
      exactly when it has got as far as to remove it. */
  ghost predicate Rotated(segments: Segments, after: Segments, index: nat, done: nat, limit: nat) {
    Bounded(after, limit) && AllLines(after) == AllLines(Surviving(segments, index, done))
  }

  lemma {:induction false} RotationKilled(segments: Segments, index: nat, done: nat, limit: nat)
    requires index <= 3 && (index < 3 ==> index !in segments) && Bounded(segments, limit)
    ensures Rotated(segments, Killed(segments, Rotation(segments, index), done), index, done, limit)
    ensures 0 < index && |Rotation(segments, index)| <= done ==>
              0 !in Killed(segments, Rotation(segments, index), done)
    decreases index
  {
    hide AllLines, Perform, PerformAll;
    if index == 0 {
      NothingToDo(segments, done);
    } else if index - 1 !in segments {
      RotationKilled(segments, index - 1, done, limit);
      if index == 1 {
        assert Rotation(segments, 0) == [];
        NothingToDo(segments, done);
      }
    } else {
      var shift := Shift(segments, index);
      var shifted := PerformAll(segments, shift);
      ShiftEffect(segments, index);
      ShiftKeepsLines(segments, index);
      KilledConcat(segments, shift, Rotation(shifted, index - 1), done);
      assert index !in segments ==> segments - {index} == segments;
      if done < |shift| {
        ShiftKilled(segments, index, done);
      } else {
        RotationKilled(shifted, index - 1, done - |shift|, limit);
        if index == 1 {
          assert Rotation(shifted, 0) == [];
          NothingToDo(shifted, done - |shift|);
        }
      }
    }
  }

  lemma NothingToDo(segments: Segments, done: nat)
    ensures Killed(segments, [], done) == segments
  {}

  lemma StandAppend(lines: seq<seq<byte>>, pieces: seq<seq<byte>>, line: seq<byte>, piece: seq<byte>)
    requires AllStand(lines, pieces) && StandsFor(line, piece)
    ensures AllStand(lines + [line], pieces + [piece])
  {}

  lemma StandRepaired(lines: seq<seq<byte>>, line: seq<byte>, pieces: seq<seq<byte>>)
    requires AllStand(lines + [line], pieces) && Unterminated(line)
    ensures AllStand(lines + [line + [NEWLINE]], pieces)
  {
    assert StandsFor((lines + [line])[|lines|], pieces[|lines|]);
    forall i | 0 <= i < |lines|
      ensures StandsFor(lines[i], pieces[i])
    {
      assert (lines + [line])[i] == lines[i];
    }
  }

  lemma OnlyNewestChanges(segments: Segments, data: seq<byte>)
    ensures AllLines(segments[0 := data]) == Older(segments) + Lines(data)
  {
    assert Older(segments[0 := data]) == Older(segments);
  }

  lemma RepairEffect(segments: Segments, pieces: seq<seq<byte>>)
    requires 0 in segments && Unterminated(segments[0]) && AllStand(AllLines(segments), pieces)
    ensures AllStand(AllLines(segments[0 := segments[0] + [NEWLINE]]), pieces)
  {
    hide Split, Kept, Older, AllLines;
    var data := segments[0];
    var text := Split(data);
    var after := segments[0 := data + [NEWLINE]];
    SplitExtends(data, NEWLINE);
    OnlyNewestChanges(segments, data + [NEWLINE]);
    OnlyNewestChanges(segments, data);
    assert segments[0 := data] == segments;
    assert AllLines(segments) == (Older(segments) + text.lines) + [text.tail];
    assert AllLines(after) == (Older(segments) + text.lines) + [text.tail + [NEWLINE]];
    SplitIsExact(data);
    StandRepaired(Older(segments) + text.lines, text.tail, pieces);
  }

  lemma RepairKilled(segments: Segments, done: nat, pieces: seq<seq<byte>>)
    requires 0 in segments && AllStand(AllLines(segments), pieces)
    ensures
      var repair := Repair(segments[0]);
      var after := Killed(segments, repair, done);
      && (after == segments || (|repair| == 1 && after == segments[0 := segments[0] + [NEWLINE]]))
      && (|repair| <= done ==> !Unterminated(after[0]))
      && AllStand(AllLines(after), pieces)
  {
    if Unterminated(segments[0]) && 1 <= done {
      PerformOne(segments, Write(NEWLINE));
      RepairEffect(segments, pieces);
    }
  }

  /** The part of the record that has been written when `done` steps of its plan are done. */
  function Written(steps: nat, encoded: seq<byte>, done: nat): (n: nat)
    ensures n <= |encoded|
  {
    if steps <= done then |encoded|
    else if done + |encoded| <= steps then 0
    else done + |encoded| - steps
  }

  lemma {:induction false} BytesEffect(segments: Segments, data: seq<byte>)
    requires 0 in segments
    ensures PerformAll(segments, Bytes(data)) == segments[0 := segments[0] + data]
    decreases |data|
  {
    if data == [] {
      assert segments[0] + data == segments[0];
      assert segments[0 := segments[0]] == segments;
    } else {
      var next := Perform(segments, Write(data[0]));
      assert Bytes(data)[1..] == Bytes(data[1..]);
      BytesEffect(next, data[1..]);
      assert next[0] + data[1..] == segments[0] + data;
      assert next[0 := segments[0] + data] == segments[0 := segments[0] + data];
    }
  }

  function Piece(encoded: seq<byte>, n: nat): seq<seq<byte>>
    requires n <= |encoded|
  {
    if n == 0 then [] else [encoded[..n]]
  }

  lemma StandWithPiece(older: seq<seq<byte>>, lines: seq<seq<byte>>, pieces: seq<seq<byte>>, piece: seq<byte>)
    requires AllStand(older + lines, pieces)
    ensures AllStand(older + (lines + [piece]), pieces + [piece])
  {
    assert older + (lines + [piece]) == older + lines + [piece];
    StandAppend(older + lines, pieces, piece, piece);
  }

  lemma BytesStand(segments: Segments, encoded: seq<byte>, n: nat, pieces: seq<seq<byte>>)
    requires 0 in segments && !Unterminated(segments[0]) && IsRecord(encoded) && n <= |encoded|
    requires AllStand(AllLines(segments), pieces)
    ensures AllStand(AllLines(segments[0 := segments[0] + encoded[..n]]), pieces + Piece(encoded, n))
  {
    hide AllLines, Kept, Older, Split;
    OnlyNewestChanges(segments, segments[0] + encoded[..n]);
    OnlyNewestChanges(segments, segments[0]);
    assert segments[0 := segments[0]] == segments;
    if n == 0 {
      assert segments[0] + encoded[..0] == segments[0];
      assert pieces + Piece(encoded, n) == pieces;
    } else {
      var lines := Lines(segments[0]);
      if n == |encoded| {
        assert encoded[..n] == encoded;
        SplitWhole(segments[0], encoded);
      } else {
        SplitPart(segments[0], encoded, n);
      }
      assert Lines(segments[0] + encoded[..n]) == lines + [encoded[..n]];
      StandWithPiece(Older(segments), lines, pieces, encoded[..n]);
    }
  }

  lemma BytesKilled(segments: Segments, encoded: seq<byte>, done: nat)
    requires 0 in segments
    ensures Killed(segments, Bytes(encoded), done)
         == segments[0 := segments[0] + encoded[..Written(|encoded|, encoded, done)]]
  {
    var n := Written(|encoded|, encoded, done);
    assert (if done < |encoded| then Bytes(encoded)[..done] else Bytes(encoded)) == Bytes(encoded[..n]);
    BytesEffect(segments, encoded[..n]);
  }

  // ----- Appends that may be killed -----

  /** An append of `encoded` that is killed after `done` steps of its plan, if it has more. */
  datatype Attempt = Attempt(encoded: seq<byte>, done: nat)

  function After(segments: Segments, limit: nat, attempt: Attempt): Segments {
    match Plan(segments, limit, attempt.encoded)
    case Ok(plan) => Killed(segments, plan, attempt.done)
    case Err(error) => if error.SegmentTooLarge? && 0 < attempt.done then Opened(segments) else segments
  }

  /** What an attempt writes of its record, if it writes anything. */
  function Contribution(segments: Segments, limit: nat, attempt: Attempt): seq<seq<byte>> {
    match Plan(segments, limit, attempt.encoded)
    case Ok(plan) => Piece(attempt.encoded, Written(|plan|, attempt.encoded, attempt.done))
    case Err(_) => []
  }

  /** Once segment 0 is open, `done` steps are enough for a full rotation to remove the oldest segment. */
  predicate Removes(segments: Segments, limit: nat, encoded: seq<byte>, done: nat)
    requires 0 in segments
  {
    Full(segments, limit, encoded) && 2 in segments && 3 in segments && 1 <= done
  }

  function LostWithin(segments: Segments, limit: nat, encoded: seq<byte>, done: nat): nat
    requires 0 in segments
  {
    if Removes(segments, limit, encoded, done) then |Kept(segments, 3)| else 0
  }

  /** The attempt rotates while segments 2 and 3 exist, and gets as far as its second step, which
      then is to remove segment 3. */
  predicate DropsOldest(segments: Segments, limit: nat, attempt: Attempt) {
    Plan(segments, limit, attempt.encoded).Ok? && 1 <= attempt.done
    && Removes(Opened(segments), limit, attempt.encoded, attempt.done - 1)
  }

  /** The number of lines that an attempt destroys: all of the oldest segment's, or none. */
  function LostBy(segments: Segments, limit: nat, attempt: Attempt): nat {
    if DropsOldest(segments, limit, attempt) then |Kept(segments, 3)| else 0
  }

  /** Preparing segment 0 for a record leaves room for it, in a file that ends with a whole line. */
  lemma PreparingKilled(segments: Segments, limit: nat, encoded: seq<byte>, done: nat, pieces: seq<seq<byte>>)
    requires 0 in segments && Bounded(segments, limit) && MAX_RECORD_BYTES <= limit && |encoded| <= MAX_RECORD_BYTES
    requires AllStand(AllLines(segments), pieces)
    ensures LostWithin(segments, limit, encoded, done) <= |pieces|
    ensures
      var preparing := Preparing(segments, limit, encoded);
      var after := Killed(segments, preparing, done);
      && Bounded(after, limit)
      && AllStand(AllLines(after), pieces[LostWithin(segments, limit, encoded, done)..])
      && (|preparing| <= done ==> 0 in after && !Unterminated(after[0]) && |after[0]| + |encoded| <= limit)
  {
    hide AllLines, Kept, Rotation, PerformAll, Older;
    assert pieces[0..] == pieces;
    if Full(segments, limit, encoded) {
      var rotation := Rotation(segments, 3);
      var rotated := Killed(segments, rotation, done);
      RotationKilled(segments, 3, done, limit);
      if Removes(segments, limit, encoded, done) {
        DropOldest(segments, pieces);
      }
      KilledConcat(segments, rotation, [Create], done);
      if |rotation| <= done {
        assert rotated == PerformAll(segments, rotation);
        if |rotation| < done {
          PerformOne(rotated, Create);
          CreateKeepsLines(rotated);
        }
      }
    } else {
      RepairKilled(segments, done, pieces);
    }
  }

  lemma CreateKeepsLines(segments: Segments)
    ensures AllLines(Opened(segments)) == AllLines(segments)
    ensures Kept(Opened(segments), 3) == Kept(segments, 3)
  {
    assert Older(Opened(segments)) == Older(segments);
  }

  lemma OldestFirst(a: seq<seq<byte>>, b: seq<seq<byte>>, c: seq<seq<byte>>, d: seq<seq<byte>>)
    ensures a + b + c + d == a + ([] + b + c + d)
  {}

  lemma StandBehind(first: seq<seq<byte>>, second: seq<seq<byte>>, pieces: seq<seq<byte>>)
    requires AllStand(first + second, pieces)
    ensures |first| <= |pieces| && AllStand(second, pieces[|first|..])
  {
    forall i | 0 <= i < |second|
      ensures StandsFor(second[i], pieces[|first|..][i])
    {
      assert (first + second)[|first| + i] == second[i];
    }
  }

  lemma DropOldest(segments: Segments, pieces: seq<seq<byte>>)
    requires 3 in segments && AllStand(AllLines(segments), pieces)
    ensures |Kept(segments, 3)| <= |pieces|
    ensures AllStand(AllLines(segments - {3}), pieces[|Kept(segments, 3)|..])
  {
    var without := segments - {3};
    assert forall i :: i != 3 ==> Kept(without, i) == Kept(segments, i);
    OldestFirst(Kept(segments, 3), Kept(segments, 2), Kept(segments, 1), Kept(segments, 0));
    StandBehind(Kept(segments, 3), AllLines(without), pieces);
  }

  lemma FillingKilled(segments: Segments, limit: nat, encoded: seq<byte>, done: nat, pieces: seq<seq<byte>>)
    requires 0 in segments && Bounded(segments, limit) && MAX_RECORD_BYTES <= limit && |encoded| <= MAX_RECORD_BYTES
    requires IsRecord(encoded) && AllStand(AllLines(segments), pieces)
    ensures LostWithin(segments, limit, encoded, done) <= |pieces|
    ensures
      var filling := Filling(segments, limit, encoded);
      var after := Killed(segments, filling, done);
      && Bounded(after, limit)
      && AllStand(AllLines(after), pieces[LostWithin(segments, limit, encoded, done)..]
                                   + Piece(encoded, Written(|filling|, encoded, done)))
  {
    hide AllLines, Rotation, Kept, Perform, PerformAll, Shift, Full;
    var preparing := Preparing(segments, limit, encoded);
    var lost := LostWithin(segments, limit, encoded, done);
    PreparingKilled(segments, limit, encoded, done, pieces);
    KilledConcat(segments, preparing, Bytes(encoded), done);
    if |preparing| <= done {
      var prepared := PerformAll(segments, preparing);
      assert prepared == Killed(segments, preparing, done);
      BytesKilled(prepared, encoded, done - |preparing|);
      BytesStand(prepared, encoded, Written(|encoded|, encoded, done - |preparing|), pieces[lost..]);
    } else {
      assert pieces[lost..] + [] == pieces[lost..];
    }
  }

  lemma NothingDone(segments: Segments, steps: seq<Step>)
    ensures Killed(segments, steps, 0) == segments
  {}

  /** Wherever an append is killed, it destroys nothing or exactly the lines of the oldest segment,
      keeps all others in their places, and adds just what it wrote of its own record as a line of
      its own. */
  lemma AttemptEffect(segments: Segments, limit: nat, attempt: Attempt, pieces: seq<seq<byte>>)
    requires Bounded(segments, limit) && MAX_RECORD_BYTES <= limit && IsRecord(attempt.encoded)
    requires AllStand(AllLines(segments), pieces)
    ensures LostBy(segments, limit, attempt) <= |pieces|
    ensures Bounded(After(segments, limit, attempt), limit)
    ensures AllStand(AllLines(After(segments, limit, attempt)),
                     pieces[LostBy(segments, limit, attempt)..] + Contribution(segments, limit, attempt))
  {
    hide AllLines, Rotation, Kept, PerformAll, Shift, Filling;
    var encoded, done := attempt.encoded, attempt.done;
    assert pieces[0..] + [] == pieces;
    if |encoded| <= MAX_RECORD_BYTES {
      var ready := Opened(segments);
      CreateKeepsLines(segments);
      KilledConcat(segments, [Create], Filling(ready, limit, encoded), done);
      if 1 <= done {
        PerformOne(segments, Create);
        FillingKilled(ready, limit, encoded, done - 1, pieces);
      } else {
        NothingDone(segments, [Create] + Filling(ready, limit, encoded));
      }
    }
  }

  // ----- Whole runs -----

  function RunAll(segments: Segments, limit: nat, attempts: seq<Attempt>): Segments
    decreases |attempts|
  {
    if attempts == [] then segments else RunAll(After(segments, limit, attempts[0]), limit, attempts[1..])
  }

  /** What the attempts of a run wrote of their records, in the order of the attempts. */
  function Contributions(segments: Segments, limit: nat, attempts: seq<Attempt>): seq<seq<byte>>
    decreases |attempts|
  {
    if attempts == [] then []
    else Contribution(segments, limit, attempts[0])
         + Contributions(After(segments, limit, attempts[0]), limit, attempts[1..])
  }

  /** The number of lines that the attempts of a run destroy. */
  function TotalLost(segments: Segments, limit: nat, attempts: seq<Attempt>): nat
    decreases |attempts|
  {
    if attempts == [] then 0
    else LostBy(segments, limit, attempts[0]) + TotalLost(After(segments, limit, attempts[0]), limit, attempts[1..])
  }

  /** For every run of appends, each killed anywhere or complete: all segments stay within their
      limit, and the lines on disk, from the oldest segment to the newest, stand one for one for all
      that was written but the oldest pieces, as many as were in the segments that full rotations
      have removed. A torn record is a line of its own, so that it never takes a later record with it. */
  lemma {:induction false} NewestRecordsSurvive(segments: Segments, limit: nat, attempts: seq<Attempt>,
                                                pieces: seq<seq<byte>>)
    requires Bounded(segments, limit) && MAX_RECORD_BYTES <= limit && AllStand(AllLines(segments), pieces)
    requires forall a :: a in attempts ==> IsRecord(a.encoded)
    ensures Bounded(RunAll(segments, limit, attempts), limit)
    ensures
      var written := pieces + Contributions(segments, limit, attempts);
      var lost := TotalLost(segments, limit, attempts);
      lost <= |written| && AllStand(AllLines(RunAll(segments, limit, attempts)), written[lost..])
    decreases |attempts|
  {
    hide AllLines, Kept, After, Contribution, LostBy;
    if attempts == [] {
      assert (pieces + [])[0..] == pieces;
    } else {
      var attempt := attempts[0];
      AttemptEffect(segments, limit, attempt, pieces);
      var first := LostBy(segments, limit, attempt);
      var contribution := Contribution(segments, limit, attempt);
      var after := After(segments, limit, attempt);
      NewestRecordsSurvive(after, limit, attempts[1..], pieces[first..] + contribution);
      LossesAdd(pieces, contribution, Contributions(after, limit, attempts[1..]), first,
                TotalLost(after, limit, attempts[1..]));
    }
  }

  lemma LossesAdd(a: seq<seq<byte>>, b: seq<seq<byte>>, c: seq<seq<byte>>, first: nat, more: nat)
    requires first <= |a| && more <= |a[first..] + b + c|
    ensures first + more <= |a + (b + c)|
    ensures (a + (b + c))[first + more..] == (a[first..] + b + c)[more..]
  {}

  /** An append is refused, with no record touched, if and only if the record is too long or segment 0 is
      over its limit already, as another program may have left it. */
  lemma AppendFailsIff(segments: Segments, limit: nat, encoded: seq<byte>)
    ensures Plan(segments, limit, encoded) == Err(RecordTooLarge) <==> |encoded| > 2048
    ensures Plan(segments, limit, encoded) == Err(SegmentTooLarge) <==>
            |encoded| <= 2048 && 0 in segments && |segments[0]| > limit
  {
  }

  function At(segments: Segments, i: nat): Option<seq<byte>> {
    if i in segments then Some(segments[i]) else None
  }

  /** What is in a place when everything below another one has been moved up. */
  function MovedUp(segments: Segments, index: nat, i: nat): Option<seq<byte>> {
    if 1 <= i <= index && i - 1 in segments then Some(segments[i - 1]) else if i < index then None else At(segments, i)
  }

  /** A rotation moves each segment up by one place, over the last one. */
  lemma {:induction false} RotationMoves(segments: Segments, index: nat)
    ensures
      var after := PerformAll(segments, Rotation(segments, index));
      forall i: nat :: At(after, i) == MovedUp(segments, index, i)
    decreases index
  {
    hide Perform, PerformAll;
    if index == 0 {
      NothingToDo(segments, 0);
      assert PerformAll(segments, []) == segments;
    } else if index - 1 !in segments {
      RotationMoves(segments, index - 1);
      assert At(segments, index - 1) == None;
      assert Rotation(segments, index) == Rotation(segments, index - 1);
    } else {
      var shift := Shift(segments, index);
      var shifted := PerformAll(segments, shift);
      ShiftEffect(segments, index);
      PerformConcat(segments, shift, Rotation(shifted, index - 1));
      RotationMoves(shifted, index - 1);
      assert Rotation(segments, index) == shift + Rotation(shifted, index - 1);
      assert shifted == segments[index := segments[index - 1]] - {index - 1};
    }
  }

  /** An append that is not killed adds to segment 0 as long as the record and one more byte fit; otherwise
      the segments move up, segment 3 goes if there is a segment 2, and the record starts a segment 0. */
  lemma CompleteAppendRotatesIff(segments: Segments, limit: nat, encoded: seq<byte>)
    requires Plan(segments, limit, encoded).Ok?
    ensures
      var newest := if 0 in segments then segments[0] else [];
      var after := PerformAll(segments, Plan(segments, limit, encoded).value);
      if |newest| + |encoded| + 1 <= limit then
        after == segments[0 := newest + (if Unterminated(newest) then [NEWLINE] else []) + encoded]
      else
        && At(after, 0) == Some(encoded) && At(after, 1) == Some(newest) && At(after, 2) == At(segments, 1)
        && (2 in segments ==> At(after, 3) == At(segments, 2))
        && forall i: nat :: (i == 3 && 2 !in segments) || 3 < i ==> At(after, i) == At(segments, i)
  {
    hide Perform, PerformAll, Rotation;
    var ready := Opened(segments);
    OpenedIs(segments);
    var preparing := Preparing(ready, limit, encoded);
    PerformConcat(segments, [Create], Filling(ready, limit, encoded));
    PerformOne(segments, Create);
    PerformConcat(ready, preparing, Bytes(encoded));
    var prepared := PerformAll(ready, preparing);
    if Full(ready, limit, encoded) {
      var rotated := PerformAll(ready, Rotation(ready, 3));
      RotationMoves(ready, 3);
      PerformConcat(ready, Rotation(ready, 3), [Create]);
      PerformOne(rotated, Create);
      OpenedIs(rotated);
      assert At(rotated, 0) == MovedUp(ready, 3, 0) && prepared == rotated[0 := []];
      BytesEffect(prepared, encoded);
      assert [] + encoded == encoded;
      assert ready[0 := ready[0]] == ready;
      RecordBehindMoved(segments, ready, rotated, encoded);
    } else {
      RepairMakes(ready);
      BytesEffect(prepared, encoded);
    }
  }

  lemma RecordBehindMoved(segments: Segments, ready: Segments, rotated: Segments, encoded: seq<byte>)
    requires 0 in ready && ready == segments[0 := ready[0]]
    requires forall i: nat :: At(rotated, i) == MovedUp(ready, 3, i)
    ensures
      var after := rotated[0 := encoded];
      && At(after, 0) == Some(encoded) && At(after, 1) == Some(ready[0]) && At(after, 2) == At(segments, 1)
      && (2 in segments ==> At(after, 3) == At(segments, 2))
      && forall i: nat :: (i == 3 && 2 !in segments) || 3 < i ==> At(after, i) == At(segments, i)
  {
    var after := rotated[0 := encoded];
    forall i: nat | 0 < i
      ensures At(after, i) == MovedUp(ready, 3, i)
    {
      assert At(after, i) == At(rotated, i);
    }
  }

  lemma OpenedIs(segments: Segments)
    ensures Opened(segments) == segments[0 := if 0 in segments then segments[0] else []]
  {
    assert 0 in segments ==> segments[0 := segments[0]] == segments;
  }

  lemma RepairMakes(segments: Segments)
    requires 0 in segments
    ensures PerformAll(segments, Repair(segments[0]))
            == segments[0 := segments[0] + if Unterminated(segments[0]) then [NEWLINE] else []]
  {
    if Unterminated(segments[0]) {
      PerformOne(segments, Write(NEWLINE));
    } else {
      assert segments[0] + [] == segments[0] && segments[0 := segments[0]] == segments;
    }
  }

  /** An append that is not killed puts its record, whole and unchanged, at the end of the log. */
  lemma CompleteAppendIsLast(segments: Segments, limit: nat, encoded: seq<byte>, pieces: seq<seq<byte>>)
    requires Bounded(segments, limit) && MAX_RECORD_BYTES <= limit && |encoded| <= MAX_RECORD_BYTES && IsRecord(encoded)
    ensures Plan(segments, limit, encoded).Ok?
    ensures
      var steps := |Plan(segments, limit, encoded).value|;
      var lines := AllLines(After(segments, limit, Attempt(encoded, steps)));
      lines != [] && lines[|lines| - 1] == encoded
  {
    var attempt := Attempt(encoded, |Plan(segments, limit, encoded).value|);
    var lines := AllLines(segments);
    assert AllStand(lines, lines);
    AttemptEffect(segments, limit, attempt, lines);
    assert encoded[..|encoded|] == encoded;
    assert Contribution(segments, limit, attempt) == [encoded];
    var after := AllLines(After(segments, limit, attempt));
    assert StandsFor(after[|after| - 1], (lines[LostBy(segments, limit, attempt)..] + [encoded])[|after| - 1]);
  }
}
