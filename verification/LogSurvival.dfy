/**
 How much of the diagnostic log survives. Only full rotations destroy lines, and each leaves two
 segments that hold almost as much as a segment may.
 */
module LogSurvival {
  import opened Basics
  import opened Options
  import opened LogStore

  // ----- When lines are destroyed -----

  /** What an attempt has done to the files when it is killed. */
  function Performed(segments: Segments, limit: nat, attempt: Attempt): seq<Step> {
    match Plan(segments, limit, attempt.encoded)
    case Ok(plan) => if attempt.done < |plan| then plan[..attempt.done] else plan
    case Err(_) => []
  }

  lemma {:induction false} LowerRotationRemovesNoOldest(segments: Segments, index: nat)
    requires index < 3 && index !in segments
    ensures Remove(3) !in Rotation(segments, index)
    decreases index
  {
    if index > 0 {
      if index - 1 in segments {
        ShiftEffect(segments, index);
        LowerRotationRemovesNoOldest(PerformAll(segments, Shift(segments, index)), index - 1);
      } else {
        LowerRotationRemovesNoOldest(segments, index - 1);
      }
    }
  }

  lemma RotationRemovesFirst(segments: Segments)
    ensures 2 in segments && 3 in segments ==> Rotation(segments, 3) != [] && Rotation(segments, 3)[0] == Remove(3)
    ensures !(2 in segments && 3 in segments) ==> Remove(3) !in Rotation(segments, 3)
  {
    if 2 !in segments {
      LowerRotationRemovesNoOldest(segments, 2);
    } else if 3 !in segments {
      ShiftEffect(segments, 3);
      LowerRotationRemovesNoOldest(PerformAll(segments, Shift(segments, 3)), 2);
    }
  }

  lemma FillingRemovesFirst(segments: Segments, limit: nat, encoded: seq<byte>)
    requires 0 in segments
    ensures
      var filling := Filling(segments, limit, encoded);
      if Removes(segments, limit, encoded, 1) then filling != [] && filling[0] == Remove(3)
      else Remove(3) !in filling
  {
    hide Rotation, Full;
    RotationRemovesFirst(segments);
  }

  /** An attempt counts as destroying the oldest lines exactly when removing segment 3 is among the
      steps that it has done. */
  lemma DroppingIsRemoving(segments: Segments, limit: nat, attempt: Attempt)
    ensures DropsOldest(segments, limit, attempt) <==> Remove(3) in Performed(segments, limit, attempt)
  {
    hide Filling, Full;
    if Plan(segments, limit, attempt.encoded).Ok? {
      var plan := Plan(segments, limit, attempt.encoded).value;
      FillingRemovesFirst(Opened(segments), limit, attempt.encoded);
      if DropsOldest(segments, limit, attempt) {
        assert plan[1] == Remove(3) && Performed(segments, limit, attempt)[1] == Remove(3);
      }
    }
  }

  // ----- Segments that are nearly full -----

  predicate NearlyFull(data: seq<byte>, limit: nat) {
    |data| + MAX_RECORD_BYTES >= limit
  }

  predicate FullAt(segments: Segments, limit: nat, index: nat) {
    index in segments && NearlyFull(segments[index], limit)
  }

  /** Every segment but the one that is written is nearly full. */
  ghost predicate Packed(segments: Segments, limit: nat) {
    forall i :: i in segments && 0 < i ==> NearlyFull(segments[i], limit)
  }

  ghost predicate TwoFull(segments: Segments, limit: nat) {
    exists i, j :: i < j && FullAt(segments, limit, i) && FullAt(segments, limit, j)
  }

  lemma ShiftKeepsTwoFull(segments: Segments, index: nat, limit: nat)
    requires 0 < index && index - 1 in segments && TwoFull(segments - {index}, limit)
    ensures TwoFull(segments[index := segments[index - 1]] - {index - 1}, limit)
  {
    var before := segments - {index};
    var after := segments[index := segments[index - 1]] - {index - 1};
    var i, j :| i < j && FullAt(before, limit, i) && FullAt(before, limit, j);
    var i', j' := if i == index - 1 then index else i, if j == index - 1 then index else j;
    assert FullAt(after, limit, i') && FullAt(after, limit, j');
    assert i' < j' || j' < i';
  }

  lemma {:induction false} RotationPacks(segments: Segments, index: nat, done: nat, limit: nat)
    requires index <= 3 && (index < 3 ==> index !in segments) && Packed(segments, limit)
    requires 0 in segments ==> NearlyFull(segments[0], limit)
    ensures
      var after := Killed(segments, Rotation(segments, index), done);
      && Packed(after, limit) && (0 in after ==> NearlyFull(after[0], limit))
      && (TwoFull(Surviving(segments, index, done), limit) ==> TwoFull(after, limit))
    decreases index
  {
    hide Perform, PerformAll, TwoFull;
    if index == 0 {
      NothingToDo(segments, done);
    } else if index - 1 !in segments {
      RotationPacks(segments, index - 1, done, limit);
    } else {
      var shift := Shift(segments, index);
      var shifted := PerformAll(segments, shift);
      ShiftEffect(segments, index);
      KilledConcat(segments, shift, Rotation(shifted, index - 1), done);
      assert index !in segments ==> segments - {index} == segments;
      if done < |shift| {
        ShiftKilled(segments, index, done);
      } else {
        RotationPacks(shifted, index - 1, done - |shift|, limit);
        if TwoFull(Surviving(segments, index, done), limit) {
          ShiftKeepsTwoFull(segments, index, limit);
        }
      }
    }
  }

  /** Opening or writing segment 0 leaves all others, and leaves at least as much in it. */
  ghost predicate Grown(segments: Segments, after: Segments) {
    && (forall i :: 0 < i ==> (i in after <==> i in segments))
    && (forall i :: 0 < i && i in segments ==> after[i] == segments[i])
    && (0 in segments ==> 0 in after && |segments[0]| <= |after[0]|)
  }

  lemma GrownKeepsFull(segments: Segments, after: Segments, limit: nat)
    requires Grown(segments, after)
    ensures Packed(segments, limit) ==> Packed(after, limit)
    ensures TwoFull(segments, limit) ==> TwoFull(after, limit)
  {
    if TwoFull(segments, limit) {
      var i, j :| i < j && FullAt(segments, limit, i) && FullAt(segments, limit, j);
      assert FullAt(after, limit, i) && FullAt(after, limit, j);
    }
  }

  lemma PreparingPacks(segments: Segments, limit: nat, encoded: seq<byte>, done: nat)
    requires 0 in segments && Packed(segments, limit) && |encoded| <= MAX_RECORD_BYTES
    ensures
      var after := Killed(segments, Preparing(segments, limit, encoded), done);
      Packed(after, limit)
      && (Removes(segments, limit, encoded, done) || TwoFull(segments, limit) ==> TwoFull(after, limit))
  {
    hide Rotation, PerformAll, TwoFull, Packed;
    if Full(segments, limit, encoded) {
      var rotation := Rotation(segments, 3);
      var rotated := Killed(segments, rotation, done);
      RotationPacks(segments, 3, done, limit);
      if Removes(segments, limit, encoded, done) {
        TwoRemain(segments, limit);
      }
      KilledConcat(segments, rotation, [Create], done);
      if |rotation| < done {
        assert rotated == PerformAll(segments, rotation);
        PerformOne(rotated, Create);
        GrownKeepsFull(rotated, Opened(rotated), limit);
      }
    } else {
      var lines := AllLines(segments);
      assert AllStand(lines, lines);
      RepairKilled(segments, done, lines);
      GrownKeepsFull(segments, Killed(segments, Repair(segments[0]), done), limit);
    }
  }

  lemma TwoRemain(segments: Segments, limit: nat)
    requires 0 in segments && NearlyFull(segments[0], limit) && 2 in segments && Packed(segments, limit)
    ensures TwoFull(segments - {3}, limit)
  {
    assert FullAt(segments - {3}, limit, 0) && FullAt(segments - {3}, limit, 2);
  }

  lemma FillingPacks(segments: Segments, limit: nat, encoded: seq<byte>, done: nat)
    requires 0 in segments && Packed(segments, limit) && |encoded| <= MAX_RECORD_BYTES && Bounded(segments, limit)
    requires MAX_RECORD_BYTES <= limit
    ensures
      var after := Killed(segments, Filling(segments, limit, encoded), done);
      Packed(after, limit)
      && (Removes(segments, limit, encoded, done) || TwoFull(segments, limit) ==> TwoFull(after, limit))
  {
    hide Rotation, Perform, PerformAll, Shift, TwoFull, Packed, AllLines, Removes, Preparing;
    var preparing := Preparing(segments, limit, encoded);
    PreparingPacks(segments, limit, encoded, done);
    KilledConcat(segments, preparing, Bytes(encoded), done);
    if |preparing| <= done {
      var prepared := PerformAll(segments, preparing);
      assert prepared == Killed(segments, preparing, done);
      assert AllStand(AllLines(segments), AllLines(segments));
      PreparingKilled(segments, limit, encoded, done, AllLines(segments));
      BytesKilled(prepared, encoded, done - |preparing|);
      GrownKeepsFull(prepared, Killed(prepared, Bytes(encoded), done - |preparing|), limit);
    }
  }

  /** Whatever an attempt does before it is killed, all segments but the first stay nearly full; and
      if it destroys lines, two nearly full segments are left. */
  lemma AttemptPacks(segments: Segments, limit: nat, attempt: Attempt)
    requires Bounded(segments, limit) && MAX_RECORD_BYTES <= limit && Packed(segments, limit)
    ensures Packed(After(segments, limit, attempt), limit)
    ensures DropsOldest(segments, limit, attempt) || TwoFull(segments, limit) ==>
              TwoFull(After(segments, limit, attempt), limit)
  {
    hide Filling, PerformAll, TwoFull, Packed, Removes;
    var encoded, done := attempt.encoded, attempt.done;
    var ready := Opened(segments);
    GrownKeepsFull(segments, ready, limit);
    if Plan(segments, limit, encoded).Ok? {
      KilledConcat(segments, [Create], Filling(ready, limit, encoded), done);
      if 1 <= done {
        PerformOne(segments, Create);
        FillingPacks(ready, limit, encoded, done - 1);
      } else {
        NothingDone(segments, [Create] + Filling(ready, limit, encoded));
      }
    }
  }

  lemma {:induction false} RunPacks(segments: Segments, limit: nat, attempts: seq<Attempt>)
    requires Bounded(segments, limit) && MAX_RECORD_BYTES <= limit && Packed(segments, limit)
    requires forall a :: a in attempts ==> IsRecord(a.encoded)
    ensures TotalLost(segments, limit, attempts) > 0 || TwoFull(segments, limit) ==>
              TwoFull(RunAll(segments, limit, attempts), limit)
    decreases |attempts|
  {
    hide TwoFull, Packed, After, AllLines, DropsOldest, Contribution, IsRecord;
    if attempts != [] {
      var lines := AllLines(segments);
      assert AllStand(lines, lines);
      AttemptEffect(segments, limit, attempts[0], lines);
      AttemptPacks(segments, limit, attempts[0]);
      RunPacks(After(segments, limit, attempts[0]), limit, attempts[1..]);
    }
  }

  // ----- In bytes -----

  lemma {:induction false} JoinConcat(a: seq<seq<byte>>, b: seq<seq<byte>>)
    ensures Join(a + b) == Join(a) + Join(b)
  {
    if b == [] {
      assert a + b == a;
    } else {
      JoinConcat(a, b[..|b| - 1]);
      assert (a + b)[..|a + b| - 1] == a + b[..|b| - 1];
      assert Join(a) + (Join(b[..|b| - 1]) + b[|b| - 1]) == Join(a) + Join(b[..|b| - 1]) + b[|b| - 1];
    }
  }

  lemma LinesHoldData(data: seq<byte>)
    ensures Join(Lines(data)) == data
  {
    hide Split;
    SplitIsExact(data);
    JoinConcat(Split(data).lines, Open(Split(data).tail));
    if Split(data).tail != [] {
      assert [Split(data).tail][..0] == [];
    }
  }

  function Size(segments: Segments, index: nat): nat {
    if index in segments then |segments[index]| else 0
  }

  lemma LinesHoldSegments(segments: Segments)
    ensures |Join(AllLines(segments))|
         == Size(segments, 3) + Size(segments, 2) + Size(segments, 1) + Size(segments, 0)
  {
    hide Lines, Join;
    forall i
      ensures |Join(Kept(segments, i))| == Size(segments, i)
    {
      if i in segments {
        LinesHoldData(segments[i]);
      } else {
        NothingJoined();
      }
    }
    JoinConcat(Older(segments), Kept(segments, 0));
    JoinConcat(Kept(segments, 3) + Kept(segments, 2), Kept(segments, 1));
    JoinConcat(Kept(segments, 3), Kept(segments, 2));
  }

  lemma NothingJoined()
    ensures Join([]) == []
  {
  }

  /** From an empty log, over any run of appends that may each be killed anywhere: either nothing has
      been lost at all, or lines of at least twice a segment's limit less a record survive, and they
      are the newest ones. */
  lemma EnoughSurvives(limit: nat, attempts: seq<Attempt>)
    requires MAX_RECORD_BYTES <= limit && forall a :: a in attempts ==> IsRecord(a.encoded)
    ensures
      var written, lost := Contributions(map[], limit, attempts), TotalLost(map[], limit, attempts);
      var lines := AllLines(RunAll(map[], limit, attempts));
      && lost <= |written| && AllStand(lines, written[lost..])
      && (lost == 0 || |Join(lines)| >= 2 * (limit - MAX_RECORD_BYTES))
  {
    hide AllLines, Join, RunAll, TotalLost, Contributions;
    NothingStands();
    NewestRecordsSurvive(map[], limit, attempts, []);
    assert [] + Contributions(map[], limit, attempts) == Contributions(map[], limit, attempts);
    var end := RunAll(map[], limit, attempts);
    RunPacks(map[], limit, attempts);
    if TotalLost(map[], limit, attempts) > 0 {
      var i, j :| i < j && FullAt(end, limit, i) && FullAt(end, limit, j);
      LinesHoldSegments(end);
      assert i <= 3 && j <= 3;
    }
  }

  lemma NothingStands()
    ensures AllLines(map[]) == [] && AllStand([], [])
  {
  }
}
