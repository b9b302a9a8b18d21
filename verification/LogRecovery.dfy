/**
 Reading back what killed writers have left. A line on disk is whole when it is the record that was
 written, also when a writer was killed just before its newline and a later one has added that; any
 other line is torn.
 */
module LogRecovery {
  import opened Basics
  import opened LogStore
  import opened LogReader

  // ----- Where lines come from -----

  /** The records of which the pieces of a run are parts, in the same order. */
  function Sources(segments: Segments, limit: nat, attempts: seq<Attempt>): seq<seq<byte>>
    decreases |attempts|
  {
    if attempts == [] then []
    else
      (if Contribution(segments, limit, attempts[0]) == [] then [] else [attempts[0].encoded])
      + Sources(After(segments, limit, attempts[0]), limit, attempts[1..])
  }

  /** Each piece is the beginning of its record. */
  ghost predicate PartsOf(pieces: seq<seq<byte>>, sources: seq<seq<byte>>) {
    |pieces| == |sources| && forall i :: 0 <= i < |pieces| ==> pieces[i] <= sources[i] && IsRecord(sources[i])
  }

  lemma {:induction false} ContributionsAreParts(segments: Segments, limit: nat, attempts: seq<Attempt>)
    requires forall a :: a in attempts ==> IsRecord(a.encoded)
    ensures PartsOf(Contributions(segments, limit, attempts), Sources(segments, limit, attempts))
    decreases |attempts|
  {
    hide After, Plan, IsRecord;
    if attempts != [] {
      ContributionsAreParts(After(segments, limit, attempts[0]), limit, attempts[1..]);
    }
  }

  /** An attempt that is not killed has written all of its record. */
  lemma CompleteAttemptIsWhole(segments: Segments, limit: nat, attempt: Attempt)
    requires Plan(segments, limit, attempt.encoded).Ok? && attempt.encoded != []
    requires |Plan(segments, limit, attempt.encoded).value| <= attempt.done
    ensures Contribution(segments, limit, attempt) == [attempt.encoded]
  {
    assert attempt.encoded[..|attempt.encoded|] == attempt.encoded;
  }

  // ----- Whole and torn lines -----

  function Whole(lines: seq<seq<byte>>, sources: seq<seq<byte>>): seq<seq<byte>>
    requires |lines| == |sources|
  {
    if lines == [] then []
    else
      var n := |lines| - 1;
      Whole(lines[..n], sources[..n]) + if lines[n] == sources[n] then [lines[n]] else []
  }

  function Torn(lines: seq<seq<byte>>, sources: seq<seq<byte>>): seq<seq<byte>>
    requires |lines| == |sources|
  {
    if lines == [] then []
    else
      var n := |lines| - 1;
      Torn(lines[..n], sources[..n]) + if lines[n] == sources[n] then [] else [lines[n]]
  }

  /** The line is a record cut by more than its newline, and ended by a later writer. */
  ghost predicate Repaired(line: seq<byte>, source: seq<byte>) {
    exists n: nat :: n < |source| - 1 && line == source[..n] + [NEWLINE]
  }

  /** What a torn line can be: only when it has been repaired does it end with a newline, and only
      then may the reader take it for a record. A piece that was never cut is a whole line. */
  lemma LineOfPiece(line: seq<byte>, piece: seq<byte>, source: seq<byte>)
    requires StandsFor(line, piece) && piece <= source && IsRecord(source)
    ensures piece == source ==> line == source
    ensures |piece| == |source| - 1 && line != piece ==> line == source
    ensures line != source && Unterminated(line) ==> line == piece
    ensures line != source && line != [] && !Unterminated(line) ==> Repaired(line, source)
  {
    var n := |piece|;
    assert piece == source[..n];
    if n < |source| && n > 0 {
      assert source[n - 1] == source[..|source| - 1][n - 1];
    }
    if n == |source| - 1 {
      assert source == source[..n] + [NEWLINE];
    }
  }

  // ----- What the reader selects -----

  /** The sequence is made of the two others, each in its order. */
  ghost predicate Merges(all: seq<Record>, a: seq<Record>, b: seq<Record>)
    decreases |all|
  {
    if all == [] then a == [] && b == []
    else
      var last, init := all[|all| - 1], all[..|all| - 1];
      || (a != [] && a[|a| - 1] == last && Merges(init, a[..|a| - 1], b))
      || (b != [] && b[|b| - 1] == last && Merges(init, a, b[..|b| - 1]))
  }

  lemma {:induction false} MergesCount(all: seq<Record>, a: seq<Record>, b: seq<Record>)
    requires Merges(all, a, b)
    ensures |all| == |a| + |b| && (b == [] ==> all == a)
    decreases |all|
  {
    if all != [] {
      var last, init := all[|all| - 1], all[..|all| - 1];
      if a != [] && a[|a| - 1] == last && Merges(init, a[..|a| - 1], b) {
        MergesCount(init, a[..|a| - 1], b);
      } else {
        MergesCount(init, a, b[..|b| - 1]);
      }
    }
  }

  lemma MergesOneMore(all: seq<Record>, a: seq<Record>, b: seq<Record>, more: seq<Record>)
    requires Merges(all, a, b) && |more| <= 1
    ensures Merges(all + more, a + more, b) && Merges(all + more, a, b + more)
  {
    if more == [] {
      assert all + more == all && a + more == a && b + more == b;
    } else {
      assert (all + more)[..|all|] == all && (a + more)[..|a|] == a && (b + more)[..|b|] == b;
    }
  }

  lemma SelectedOneMore(parse: Parser, filter: Filter, run: nat, lines: seq<seq<byte>>, line: seq<byte>)
    ensures Selected(parse, filter, run, lines + [line])
         == Selected(parse, filter, run, lines) + Chosen(parse, filter, run, line)
    ensures |Chosen(parse, filter, run, line)| <= 1
  {
    assert (lines + [line])[..|lines|] == lines;
  }

  lemma NothingMore(parse: Parser, filter: Filter, run: nat, lines: seq<seq<byte>>)
    ensures lines + [] == lines && Selected(parse, filter, run, []) == []
  {
  }

  /** Every whole record that matches is selected, in order; whatever else is selected comes from a
      torn line. This holds for any record parser. */
  lemma {:induction false} WholeRecordsAreRead(parse: Parser, filter: Filter, run: nat,
                                               lines: seq<seq<byte>>, sources: seq<seq<byte>>)
    requires |lines| == |sources|
    ensures Merges(Selected(parse, filter, run, lines),
                   Selected(parse, filter, run, Whole(lines, sources)),
                   Selected(parse, filter, run, Torn(lines, sources)))
  {
    hide Selected, Chosen, Merges;
    if lines == [] {
      NothingMore(parse, filter, run, []);
      NothingMerges();
    } else {
      var n := |lines| - 1;
      var line := lines[n];
      var whole, torn := Whole(lines[..n], sources[..n]), Torn(lines[..n], sources[..n]);
      WholeRecordsAreRead(parse, filter, run, lines[..n], sources[..n]);
      assert lines == lines[..n] + [line];
      SelectedOneMore(parse, filter, run, lines[..n], line);
      MergesOneMore(Selected(parse, filter, run, lines[..n]), Selected(parse, filter, run, whole),
                    Selected(parse, filter, run, torn), Chosen(parse, filter, run, line));
      if line == sources[n] {
        SelectedOneMore(parse, filter, run, whole, line);
        NothingMore(parse, filter, run, torn);
      } else {
        SelectedOneMore(parse, filter, run, torn, line);
        NothingMore(parse, filter, run, whole);
      }
    }
  }

  lemma NothingMerges()
    ensures Merges([], [], [])
  {
  }

  lemma {:induction false} NothingTornIff(parse: Parser, filter: Filter, run: nat,
                                          lines: seq<seq<byte>>, sources: seq<seq<byte>>)
    requires |lines| == |sources|
    ensures Selected(parse, filter, run, Torn(lines, sources)) == []
      <==> forall i :: 0 <= i < |lines| && lines[i] != sources[i] ==> Chosen(parse, filter, run, lines[i]) == []
  {
    hide Chosen;
    if lines != [] {
      var n := |lines| - 1;
      NothingTornIff(parse, filter, run, lines[..n], sources[..n]);
      assert forall i :: 0 <= i < n ==> lines[..n][i] == lines[i] && sources[..n][i] == sources[i];
      var torn := Torn(lines[..n], sources[..n]);
      if lines[n] == sources[n] {
        NothingMore(parse, filter, run, torn);
      } else {
        SelectedOneMore(parse, filter, run, torn, lines[n]);
      }
    }
  }

  /** The reader takes a torn line for a matching record. */
  predicate Misread(parse: Parser, filter: Filter, run: nat, line: seq<byte>, source: seq<byte>) {
    line != source && Chosen(parse, filter, run, line) != []
  }

  /** Only a record that was cut by more than its newline, and was then ended by a later writer, can
      be misread. */
  lemma MisreadIsRepaired(parse: Parser, filter: Filter, run: nat, line: seq<byte>, piece: seq<byte>,
                          source: seq<byte>)
    requires StandsFor(line, piece) && piece <= source && IsRecord(source)
    requires Misread(parse, filter, run, line, source)
    ensures Repaired(line, source)
  {
    LineOfPiece(line, piece, source);
  }

  /** Exactly the whole records are read if and only if no torn line can be read as a record. */
  lemma TornLinesHideNothing(parse: Parser, filter: Filter, run: nat,
                             lines: seq<seq<byte>>, sources: seq<seq<byte>>)
    requires |lines| == |sources|
    ensures Selected(parse, filter, run, lines) == Selected(parse, filter, run, Whole(lines, sources))
      <==> forall i :: 0 <= i < |lines| ==> !Misread(parse, filter, run, lines[i], sources[i])
  {
    hide Selected, Whole, Torn, Chosen, Merges;
    WholeRecordsAreRead(parse, filter, run, lines, sources);
    MergesCount(Selected(parse, filter, run, lines), Selected(parse, filter, run, Whole(lines, sources)),
                Selected(parse, filter, run, Torn(lines, sources)));
    NothingTornIff(parse, filter, run, lines, sources);
  }

  /** A writer killed just before its newline has written its record, once another writer has ended
      the line: it is read although its append was never complete. */
  lemma MissingNewlineIsNotTorn(encoded: seq<byte>)
    requires IsRecord(encoded)
    ensures
      var piece := encoded[..|encoded| - 1];
      StandsFor(encoded, piece) <==> piece != []
  {
    var piece := encoded[..|encoded| - 1];
    assert encoded == piece + [NEWLINE];
    if piece != [] {
      assert piece[|piece| - 1] != NEWLINE;
    }
  }

  // ----- Whole runs -----

  /** One process: its run, and its appends, each killed somewhere or complete. */
  datatype Life = Life(run: nat, attempts: seq<Attempt>)

  function Log(limit: nat, life: Life): Run {
    Run(life.run, RunAll(map[], limit, life.attempts))
  }

  /** The records of which the lines on disk are parts. */
  function Surviving(limit: nat, life: Life): seq<seq<byte>> {
    var lost, sources := TotalLost(map[], limit, life.attempts), Sources(map[], limit, life.attempts);
    if lost <= |sources| then sources[lost..] else []
  }

  ghost predicate Proper(limit: nat, life: Life) {
    MAX_RECORD_BYTES <= limit && forall a :: a in life.attempts ==> IsRecord(a.encoded)
  }

  /** A line on disk, for a record or a part of one. */
  ghost predicate LineOf(line: seq<byte>, source: seq<byte>) {
    IsRecord(source) && exists piece :: piece <= source && StandsFor(line, piece)
  }

  /** The lines of a process on disk, one for each surviving record or part of one. */
  lemma LinesOfLife(limit: nat, life: Life)
    requires Proper(limit, life)
    ensures Bounded(Log(limit, life).segments, limit)
    ensures
      var lines, sources := AllLines(Log(limit, life).segments), Surviving(limit, life);
      |lines| == |sources| && forall i :: 0 <= i < |lines| ==> LineOf(lines[i], sources[i])
  {
    hide AllLines, RunAll, TotalLost, Contributions, Sources, IsRecord, LineOf, AllStand, PartsOf;
    EmptyLog(limit);
    NewestRecordsSurvive(map[], limit, life.attempts, []);
    ContributionsAreParts(map[], limit, life.attempts);
    var written := Contributions(map[], limit, life.attempts);
    assert [] + written == written;
    LinesOfPieces(AllLines(Log(limit, life).segments), written, Sources(map[], limit, life.attempts),
                  TotalLost(map[], limit, life.attempts));
  }

  lemma LinesOfPieces(lines: seq<seq<byte>>, pieces: seq<seq<byte>>, sources: seq<seq<byte>>, lost: nat)
    requires lost <= |pieces| && AllStand(lines, pieces[lost..]) && PartsOf(pieces, sources)
    ensures lost <= |sources| && |lines| == |sources[lost..]|
    ensures forall i :: 0 <= i < |lines| ==> LineOf(lines[i], sources[lost..][i])
  {
    hide LineOf, IsRecord, StandsFor;
    forall i | 0 <= i < |lines|
      ensures LineOf(lines[i], sources[lost..][i])
    {
      assert pieces[lost..][i] == pieces[lost + i];
      PartIsLine(lines[i], pieces[lost + i], sources[lost + i]);
    }
  }

  lemma PartIsLine(line: seq<byte>, piece: seq<byte>, source: seq<byte>)
    requires StandsFor(line, piece) && piece <= source && IsRecord(source)
    ensures LineOf(line, source)
  {
  }

  lemma EmptyLog(limit: nat)
    ensures AllLines(map[]) == [] && AllStand([], []) && Bounded(map[], limit)
  {
  }

  lemma {:induction false} SelectedBackwards(parse: Parser, filter: Filter, run: nat, lines: seq<seq<byte>>)
    ensures Selected(parse, filter, run, Reversed(lines)) == Reversed(Selected(parse, filter, run, lines))
  {
    hide Selected, Chosen;
    NothingMore(parse, filter, run, []);
    if lines == [] {
      assert Reversed(lines) == [];
    } else {
      var n := |lines| - 1;
      SelectedBackwards(parse, filter, run, lines[..n]);
      assert lines == lines[..n] + [lines[n]];
      assert Reversed(lines) == [lines[n]] + Reversed(lines[..n]);
      SelectedOneMore(parse, filter, run, lines[..n], lines[n]);
      SelectedJoined(parse, filter, run, [lines[n]], Reversed(lines[..n]));
      SelectedOneMore(parse, filter, run, [], lines[n]);
      assert [] + [lines[n]] == [lines[n]];
      ReversedConcat(Selected(parse, filter, run, lines[..n]), Chosen(parse, filter, run, lines[n]));
      assert Reversed(Chosen(parse, filter, run, lines[n])) == Chosen(parse, filter, run, lines[n]);
    }
  }

  lemma {:induction false} SelectedJoined(parse: Parser, filter: Filter, run: nat, a: seq<seq<byte>>, b: seq<seq<byte>>)
    ensures Selected(parse, filter, run, a + b) == Selected(parse, filter, run, a) + Selected(parse, filter, run, b)
  {
    hide Selected, Chosen;
    NothingMore(parse, filter, run, a);
    if b == [] {
      assert Selected(parse, filter, run, a) + [] == Selected(parse, filter, run, a);
    } else {
      var n := |b| - 1;
      SelectedJoined(parse, filter, run, a, b[..n]);
      SelectedOneMore(parse, filter, run, a + b[..n], b[n]);
      SelectedOneMore(parse, filter, run, b[..n], b[n]);
      assert a + b == a + b[..n] + [b[n]] && b == b[..n] + [b[n]];
    }
  }

  /** The whole records of a process on disk that match, newest first. */
  function Expected(parse: Parser, filter: Filter, limit: nat, life: Life): seq<Record> {
    var lines, sources := AllLines(Log(limit, life).segments), Surviving(limit, life);
    if |lines| == |sources| then Reversed(Selected(parse, filter, life.run, Whole(lines, sources))) else []
  }

  /** Reading a run, after any appends that may each have been killed anywhere: the segments can be
      read, and exactly the whole records among the surviving ones are found, newest first, if and
      only if no torn line can be read as a record. */
  lemma RunIsReadBack(parse: Parser, filter: Filter, limit: nat, life: Life)
    requires Proper(limit, life)
    ensures
      var lines, sources := AllLines(Log(limit, life).segments), Surviving(limit, life);
      && |lines| == |sources|
      && !Oversized([Log(limit, life)], limit)
      && (AllSelected(parse, filter, [Log(limit, life)]) == Expected(parse, filter, limit, life)
        <==> forall i :: 0 <= i < |lines| ==> !Misread(parse, filter, life.run, lines[i], sources[i]))
  {
    hide AllLines, Selected, Whole, Misread, Surviving, Proper, RunAll;
    LinesOfLife(limit, life);
    var lines, sources := AllLines(Log(limit, life).segments), Surviving(limit, life);
    TornLinesHideNothing(parse, filter, life.run, lines, sources);
    SelectedBackwards(parse, filter, life.run, lines);
    OneRun(parse, filter, Log(limit, life));
    var all := Selected(parse, filter, life.run, lines);
    var whole := Selected(parse, filter, life.run, Whole(lines, sources));
    assert Reversed(Reversed(all)) == all && Reversed(Reversed(whole)) == whole;
  }

  lemma OneRun(parse: Parser, filter: Filter, run: Run)
    ensures AllSelected(parse, filter, [run]) == Selected(parse, filter, run.id, Visited(run.segments))
  {
    assert [run][..0] == [];
  }

  function Logs(limit: nat, lives: seq<Life>): seq<Run> {
    seq(|lives|, i requires 0 <= i < |lives| => Log(limit, lives[i]))
  }

  ghost predicate NothingMisread(parse: Parser, filter: Filter, limit: nat, life: Life) {
    var lines, sources := AllLines(Log(limit, life).segments), Surviving(limit, life);
    |lines| == |sources|
    && forall i :: 0 <= i < |lines| ==> !Misread(parse, filter, life.run, lines[i], sources[i])
  }

  /** The whole records of several processes, in the order in which the reader visits them. */
  function AllExpected(parse: Parser, filter: Filter, limit: nat, lives: seq<Life>): seq<Record> {
    if lives == [] then []
    else
      AllExpected(parse, filter, limit, lives[..|lives| - 1]) + Expected(parse, filter, limit, lives[|lives| - 1])
  }

  lemma LifeIsReadBack(parse: Parser, filter: Filter, limit: nat, life: Life)
    ensures
      Proper(limit, life) && NothingMisread(parse, filter, limit, life) ==>
        && !Oversized([Log(limit, life)], limit)
        && Selected(parse, filter, life.run, Visited(Log(limit, life).segments))
           == Expected(parse, filter, limit, life)
  {
    hide Log, Oversized, Selected, Expected, AllLines, Proper, Misread;
    if Proper(limit, life) && NothingMisread(parse, filter, limit, life) {
      RunIsReadBack(parse, filter, limit, life);
      OneRun(parse, filter, Log(limit, life));
      LogOf(limit, life);
    }
  }

  lemma LogOf(limit: nat, life: Life)
    ensures Log(limit, life).id == life.run
  {
  }

  lemma OversizedLast(runs: seq<Run>, run: Run, limit: nat)
    requires !Oversized(runs, limit) && !Oversized([run], limit)
    ensures !Oversized(runs + [run], limit)
  {
    assert run in [run];
  }

  lemma AllSelectedLast(parse: Parser, filter: Filter, runs: seq<Run>, run: Run)
    ensures AllSelected(parse, filter, runs + [run])
         == AllSelected(parse, filter, runs) + Selected(parse, filter, run.id, Visited(run.segments))
  {
    assert (runs + [run])[..|runs|] == runs;
  }

  /** The same for any number of processes: with this, a reader of all their runs returns the newest
      of exactly the whole surviving records that match (`LogReader.Reader.ReadFiltered`). */
  lemma {:induction false} RunsAreReadBack(parse: Parser, filter: Filter, limit: nat, lives: seq<Life>)
    requires forall i :: 0 <= i < |lives| ==>
      Proper(limit, lives[i]) && NothingMisread(parse, filter, limit, lives[i])
    ensures !Oversized(Logs(limit, lives), limit)
    ensures AllSelected(parse, filter, Logs(limit, lives)) == AllExpected(parse, filter, limit, lives)
  {
    hide Log, Selected, Proper, Expected, NothingMisread, Visited;
    if lives != [] {
      hide Oversized, AllSelected;
      var init, last := lives[..|lives| - 1], lives[|lives| - 1];
      RunsAreReadBack(parse, filter, limit, init);
      LifeIsReadBack(parse, filter, limit, last);
      LogOf(limit, last);
      OversizedLast(Logs(limit, init), Log(limit, last), limit);
      AllSelectedLast(parse, filter, Logs(limit, init), Log(limit, last));
      assert Logs(limit, lives) == Logs(limit, init) + [Log(limit, last)];
    }
  }
}
