/**
 Catching up with a pane's scrollback. While output keeps arriving, a background job rebuilds the
 terminal from a checkpoint and its history rows and then replays the output received since. Its
 result is adopted only when it has caught up with the live terminal; otherwise the rest is
 replayed by another job.
 */
module PaneHistory {
  import opened Basics
  import opened Options

  const MAX_HISTORY_REPLAY_BYTES: nat := 4 * 1024 * 1024

  /** Everything that changes an emulator. */
  datatype Input = Byte(data: byte) | Resize(columns: nat, rows: nat)

  /** What an emulator was created from: the screen of a checkpoint alone, or a history snapshot
      together with the rows above that screen. */
  datatype Base = Screen(sequence: nat) | Projection(snapshot: nat, sequence: nat, rows: seq<string>)

  /** An emulator is known by its base and by what it has been fed since. */
  datatype Emulator = Emulator(base: Base, fed: seq<Input>)

  datatype Chunk = Chunk(start: nat, end: nat, data: seq<byte>)

  datatype Prepared = Prepared(snapshot: nat, sequence: nat, vt: Emulator, gap: bool)

  datatype Job = Job(start: Prepared, chunks: seq<Chunk>, restore: bool)

  datatype JobError = RestoreFailed | FeedFailed | ReplayGap | Panicked

  /** How the emulator library reacts: whether a snapshot can be restored, and whether feeding a
      projection works and drops rows. */
  datatype Library = Library(restores: Base -> bool, feed: (Emulator, seq<byte>) -> Option<bool>)

  function Inputs(data: seq<byte>): (inputs: seq<Input>)
    ensures |inputs| == |data|
  {
    seq(|data|, i requires 0 <= i < |data| => Byte(data[i]))
  }

  function Feed(vt: Emulator, data: seq<byte>): Emulator {
    vt.(fed := vt.fed + Inputs(data))
  }

  /** Replays chunks in order, each of which must start where the emulator stands. */
  function Replayed(library: Library, prepared: Prepared, chunks: seq<Chunk>): Result<Prepared, JobError>
    decreases |chunks|
  {
    if chunks == [] then Ok(prepared)
    else if chunks[0].start != prepared.sequence then Err(ReplayGap)
    else
      match library.feed(prepared.vt, chunks[0].data)
      case None => Err(FeedFailed)
      case Some(evicted) =>
        Replayed(library, Prepared(prepared.snapshot, chunks[0].end, Feed(prepared.vt, chunks[0].data),
                                   prepared.gap || evicted), chunks[1..])
  }

  method ReplayHistory(library: Library, prepared: Prepared, chunks: seq<Chunk>)
    returns (result: Result<Prepared, JobError>)
    ensures result == Replayed(library, prepared, chunks)
  {
    var current := prepared;
    for i := 0 to |chunks|
      invariant Replayed(library, current, chunks[i..]) == Replayed(library, prepared, chunks)
    {
      var chunk := chunks[i];
      assert chunks[i..][1..] == chunks[i + 1..];
      if chunk.start != current.sequence {
        return Err(ReplayGap);
      }
      match library.feed(current.vt, chunk.data) {
        case None =>
          return Err(FeedFailed);
        case Some(evicted) =>
          current := Prepared(current.snapshot, chunk.end, Feed(current.vt, chunk.data), current.gap || evicted);
      }
    }
    result := Ok(current);
  }

  function JobResult(library: Library, job: Job): Result<Prepared, JobError> {
    if job.restore && !library.restores(job.start.vt.base) then Err(RestoreFailed)
    else Replayed(library, job.start, job.chunks)
  }

  // ----- The pane's state -----

  /** `stream` is everything that has happened to the live emulator since the last checkpoint. */
  datatype State = State(
    model: Emulator, gap: bool, sequence: nat, boundary: nat, snapshot: Option<nat>,
    replay: seq<Chunk>, replayBytes: nat, job: Option<Job>, requests: nat, stream: seq<Input>)

  function Cancelled(s: State): State {
    s.(snapshot := None, replay := [], replayBytes := 0, job := None)
  }

  function OnCheckpoint(s: State, sequence: nat, manifest: Option<nat>, gap: bool): State {
    Cancelled(s).(sequence := sequence, boundary := sequence, snapshot := manifest,
                  model := Emulator(Screen(sequence), []), gap := gap, stream := [])
  }

  function OnOutput(s: State, chunk: Chunk): State {
    var fed := s.(model := Feed(s.model, chunk.data), sequence := chunk.end, stream := s.stream + Inputs(chunk.data));
    if s.snapshot.None? then fed
    else if s.replayBytes + |chunk.data| > MAX_HISTORY_REPLAY_BYTES then
      Cancelled(fed).(gap := true, requests := s.requests + 1)
    else fed.(replayBytes := s.replayBytes + |chunk.data|, replay := s.replay + [chunk])
  }

  function OnGeometry(s: State, columns: nat, rows: nat): State {
    var resize := Resize(columns, rows);
    Cancelled(s).(model := s.model.(fed := s.model.fed + [resize]), stream := s.stream + [resize])
  }

  function OnHistory(s: State, snapshot: nat, sequence: nat, rows: seq<string>, gap: bool): State {
    if s.snapshot != Some(snapshot) || sequence != s.boundary then s
    else
      var base := Projection(snapshot, sequence, rows);
      s.(job := Some(Job(Prepared(snapshot, sequence, Emulator(base, []), gap), s.replay, true)))
  }

  function NotBefore(chunks: seq<Chunk>, sequence: nat): seq<Chunk> {
    if chunks == [] then []
    else (if chunks[0].start >= sequence then [chunks[0]] else []) + NotBefore(chunks[1..], sequence)
  }

  /** The result of the job that has just been taken. `agrees` says whether the projection shows
      the same screen as the live emulator. */
  function OnResult(s: State, result: Result<Prepared, JobError>, agrees: bool): State {
    match result
    case Ok(prepared) =>
      if s.snapshot != Some(prepared.snapshot) then s
      else if prepared.sequence != s.sequence then
        s.(job := Some(Job(prepared, NotBefore(s.replay, prepared.sequence), false)))
      else if agrees then Cancelled(s).(model := prepared.vt, gap := prepared.gap)
      else Cancelled(s).(gap := true, requests := s.requests + 1)
    case Err(_) => Cancelled(s).(gap := true, requests := s.requests + 1)
  }

  /** The running job ends, normally or by panicking. */
  function OnJobEnd(library: Library, s: State, panics: bool, agrees: bool): State {
    if s.job.None? then s
    else OnResult(s.(job := None), if panics then Err(Panicked) else JobResult(library, s.job.value), agrees)
  }

  // ----- What every state satisfies -----

  /** The chunks cover the output from `start` to `end` without gap or overlap. */
  ghost predicate Chain(chunks: seq<Chunk>, start: nat, end: nat)
    decreases |chunks|
  {
    if chunks == [] then start == end
    else chunks[0].start == start && chunks[0].end == start + |chunks[0].data| && Chain(chunks[1..], chunks[0].end, end)
  }

  function Data(chunks: seq<Chunk>): seq<byte> {
    if chunks == [] then [] else chunks[0].data + Data(chunks[1..])
  }

  /** A job works on the current snapshot and ends at the end of one of the queued chunks, with
      exactly the queued output up to there. */
  ghost predicate JobFits(s: State, job: Job) {
    && s.snapshot == Some(job.start.snapshot)
    && job.start.vt.base.Projection?
    && job.start.vt.base.snapshot == job.start.snapshot
    && job.start.vt.base.sequence == s.boundary
    && exists k: nat, end: nat ::
         k <= |s.replay| && Chain(s.replay[..k], s.boundary, end) && Chain(job.chunks, job.start.sequence, end)
         && job.start.vt.fed + Inputs(Data(job.chunks)) == Inputs(Data(s.replay[..k]))
  }

  ghost predicate Valid(s: State) {
    && s.model.fed == s.stream
    && s.model.base.sequence == s.boundary
    && s.replayBytes == |Data(s.replay)| <= MAX_HISTORY_REPLAY_BYTES
    && (s.snapshot.None? ==> s.replay == [] && s.job.None?)
    && (s.snapshot.Some? ==> s.model.base.Screen?)
    && (s.snapshot.Some? ==> Chain(s.replay, s.boundary, s.sequence) && s.stream == Inputs(Data(s.replay)))
    && (s.job.Some? ==> JobFits(s, s.job.value))
  }

  lemma {:induction false} ChainConcat(a: seq<Chunk>, b: seq<Chunk>, start: nat, middle: nat, end: nat)
    requires Chain(a, start, middle)
    ensures Chain(b, middle, end) <==> Chain(a + b, start, end)
    ensures Data(a + b) == Data(a) + Data(b)
    ensures middle == start + |Data(a)|
    decreases |a|
  {
    if a == [] {
      assert a + b == b;
    } else {
      assert (a + b)[1..] == a[1..] + b;
      ChainConcat(a[1..], b, a[0].end, middle, end);
    }
  }

  lemma InputsConcat(a: seq<byte>, b: seq<byte>)
    ensures Inputs(a + b) == Inputs(a) + Inputs(b)
  {}

  /** Output without gaps is never reported as having one, and is replayed once and in order. */
  lemma {:induction false} ReplayOfChain(library: Library, prepared: Prepared, chunks: seq<Chunk>, end: nat)
    requires Chain(chunks, prepared.sequence, end)
    ensures
      var result := Replayed(library, prepared, chunks);
      && (result.Err? ==> result.error.FeedFailed?)
      && (result.Ok? ==>
            && result.value.snapshot == prepared.snapshot && result.value.sequence == end
            && result.value.vt == Emulator(prepared.vt.base, prepared.vt.fed + Inputs(Data(chunks))))
    decreases |chunks|
  {
    if chunks == [] {
      assert prepared.vt.fed + Inputs([]) == prepared.vt.fed;
    } else {
      var step := library.feed(prepared.vt, chunks[0].data);
      if step.Some? {
        var next := Prepared(prepared.snapshot, chunks[0].end, Feed(prepared.vt, chunks[0].data),
                             prepared.gap || step.value);
        ReplayOfChain(library, next, chunks[1..], end);
        InputsConcat(chunks[0].data, Data(chunks[1..]));
      }
    }
  }

  /** The queued chunks that do not start before `middle`, where one of them ends, cover just the
      rest of the output. */
  lemma {:induction false} RestOfChain(a: seq<Chunk>, b: seq<Chunk>, start: nat, middle: nat, end: nat)
    requires Chain(a, start, middle) && Chain(b, middle, end)
    ensures Chain(NotBefore(a + b, middle), middle, end)
    ensures Data(NotBefore(a + b, middle)) == Data(b)
    decreases |a| + |b|
  {
    if a == [] {
      assert a + b == b;
      if b != [] {
        AllNotBefore(b, middle, middle, end);
      }
    } else {
      assert (a + b)[1..] == a[1..] + b;
      ChainConcat(a[1..], [], a[0].end, middle, middle);
      RestOfChain(a[1..], b, a[0].end, middle, end);
      var rest := NotBefore(a[1..] + b, middle);
      if a[0].start >= middle {
        assert a[0].data == [] && ([a[0]] + rest)[1..] == rest;
      } else {
        assert [] + rest == rest;
      }
    }
  }

  lemma {:induction false} AllNotBefore(chunks: seq<Chunk>, sequence: nat, start: nat, end: nat)
    requires Chain(chunks, start, end) && sequence <= start
    ensures NotBefore(chunks, sequence) == chunks
    decreases |chunks|
  {
    if chunks != [] {
      AllNotBefore(chunks[1..], sequence, chunks[0].end, end);
    }
  }

  // ----- Every step keeps it -----

  /** What can happen to a pane. Output comes in contiguous ranges; `JobEnds` is the end of the
      background job, in time or not. */
  datatype Event =
    | Checkpoint(sequence: nat, manifest: Option<nat>, gap: bool)
    | Output(chunk: Chunk)
    | Geometry(columns: nat, rows: nat)
    | HistorySynced(snapshot: nat, sequence: nat, historyRows: seq<string>, gap: bool)
    | JobEnds(panics: bool, agrees: bool)

  ghost predicate Contiguous(s: State, event: Event) {
    event.Output? ==> event.chunk.start == s.sequence && event.chunk.end == s.sequence + |event.chunk.data|
  }

  function Step(library: Library, s: State, event: Event): State {
    match event
    case Checkpoint(sequence, manifest, gap) => OnCheckpoint(s, sequence, manifest, gap)
    case Output(chunk) => OnOutput(s, chunk)
    case Geometry(columns, rows) => OnGeometry(s, columns, rows)
    case HistorySynced(snapshot, sequence, rows, gap) => OnHistory(s, snapshot, sequence, rows, gap)
    case JobEnds(panics, agrees) => OnJobEnd(library, s, panics, agrees)
  }

  lemma OutputKeepsValid(s: State, chunk: Chunk)
    requires Valid(s) && chunk.start == s.sequence && chunk.end == s.sequence + |chunk.data|
    ensures Valid(OnOutput(s, chunk))
  {
    var next := OnOutput(s, chunk);
    if next.snapshot.Some? {
      assert Chain([chunk], s.sequence, chunk.end) by {
        assert [chunk][1..] == [];
      }
      assert Data([chunk]) == chunk.data by {
        assert chunk.data + Data([]) == chunk.data;
      }
      ChainConcat(s.replay, [chunk], s.boundary, s.sequence, chunk.end);
      InputsConcat(Data(s.replay), chunk.data);
      if s.job.Some? {
        var job := s.job.value;
        var k: nat, end: nat :| k <= |s.replay| && Chain(s.replay[..k], s.boundary, end)
                                && Chain(job.chunks, job.start.sequence, end)
                                && job.start.vt.fed + Inputs(Data(job.chunks)) == Inputs(Data(s.replay[..k]));
        assert next.replay[..k] == s.replay[..k];
      }
    }
  }

  lemma HistoryKeepsValid(s: State, snapshot: nat, sequence: nat, rows: seq<string>, gap: bool)
    requires Valid(s)
    ensures Valid(OnHistory(s, snapshot, sequence, rows, gap))
  {
    var next := OnHistory(s, snapshot, sequence, rows, gap);
    if next != s {
      assert s.replay[..|s.replay|] == s.replay;
      assert [] + Inputs(Data(s.replay)) == Inputs(Data(s.replay));
      assert JobFits(next, next.job.value);
    }
  }

  /** A finished job has replayed the output from the checkpoint up to the end of some queued chunk. */
  lemma ResultOfJob(library: Library, s: State) returns (k: nat)
    requires Valid(s) && s.job.Some?
    ensures
      var job := s.job.value;
      var result := JobResult(library, job);
      && k <= |s.replay|
      && (result.Err? ==> result.error != ReplayGap && result.error != Panicked)
      && (result.Ok? ==>
            && s.snapshot == Some(result.value.snapshot)
            && result.value.vt == Emulator(job.start.vt.base, Inputs(Data(s.replay[..k])))
            && Chain(s.replay[..k], s.boundary, result.value.sequence))
  {
    var job := s.job.value;
    var end: nat;
    k, end :| k <= |s.replay| && Chain(s.replay[..k], s.boundary, end) && Chain(job.chunks, job.start.sequence, end)
              && job.start.vt.fed + Inputs(Data(job.chunks)) == Inputs(Data(s.replay[..k]));
    ReplayOfChain(library, job.start, job.chunks, end);
  }

  /** When a job's result has caught up it holds all output since the checkpoint; otherwise the
      job that follows it will. */
  lemma JobEndKeepsValid(library: Library, s: State, panics: bool, agrees: bool)
    requires Valid(s)
    ensures Valid(OnJobEnd(library, s, panics, agrees))
    ensures
      var next := OnJobEnd(library, s, panics, agrees);
      next.job.Some? ==> CatchesUp(next)
  {
    hide Chain, JobResult, NotBefore;
    if s.job.Some? && !panics && JobResult(library, s.job.value).Ok? {
      var prepared := JobResult(library, s.job.value).value;
      var k := ResultOfJob(library, s);
      RestOfReplay(s, prepared, k);
      if prepared.sequence != s.sequence {
        var next := OnJobEnd(library, s, panics, agrees);
        assert next.replay[..|next.replay|] == next.replay;
        assert JobFits(next, next.job.value);
      }
    }
  }

  /** What is left to replay when a job has replayed the first `k` chunks of the queue. */
  lemma RestOfReplay(s: State, prepared: Prepared, k: nat)
    requires Valid(s) && s.snapshot.Some? && k <= |s.replay| && Chain(s.replay[..k], s.boundary, prepared.sequence)
    ensures prepared.sequence == s.sequence ==> Inputs(Data(s.replay[..k])) == s.stream
    ensures
      var rest := NotBefore(s.replay, prepared.sequence);
      && Chain(rest, prepared.sequence, s.sequence)
      && Inputs(Data(s.replay[..k])) + Inputs(Data(rest)) == s.stream
  {
    hide Chain, NotBefore, JobFits;
    var done, rest := s.replay[..k], s.replay[k..];
    assert done + rest == s.replay;
    ChainConcat(done, rest, s.boundary, prepared.sequence, s.sequence);
    ChainConcat(rest, [], prepared.sequence, s.sequence, s.sequence);
    InputsConcat(Data(done), Data(rest));
    RestOfChain(done, rest, s.boundary, prepared.sequence, s.sequence);
    if prepared.sequence == s.sequence {
      assert Data(rest) == [] && Inputs(Data(done)) + [] == Inputs(Data(done));
    }
  }

  /** The running job ends exactly where the live terminal stands. */
  ghost predicate CatchesUp(s: State) {
    s.job.Some? && !s.job.value.restore && Chain(s.job.value.chunks, s.job.value.start.sequence, s.sequence)
  }

  lemma StepKeepsValid(library: Library, s: State, event: Event)
    requires Valid(s) && Contiguous(s, event)
    ensures Valid(Step(library, s, event))
  {
    match event
    case Checkpoint(_, _, _) =>
    case Output(chunk) => OutputKeepsValid(s, chunk);
    case Geometry(_, _) =>
    case HistorySynced(snapshot, sequence, rows, gap) => HistoryKeepsValid(s, snapshot, sequence, rows, gap);
    case JobEnds(panics, agrees) => JobEndKeepsValid(library, s, panics, agrees);
  }

  // ----- What the end of a job brings -----

  /** The emulator of the job when it has replayed its first `i` chunks. */
  function ReplayedTo(job: Job, i: nat): Emulator
    requires i <= |job.chunks|
  {
    Feed(job.start.vt, Data(job.chunks[..i]))
  }

  /** The library can restore what the job starts from, and can feed it every chunk. */
  ghost predicate Succeeds(library: Library, job: Job) {
    && (job.restore ==> library.restores(job.start.vt.base))
    && forall i :: 0 <= i < |job.chunks| ==> library.feed(ReplayedTo(job, i), job.chunks[i].data).Some?
  }

  /** Rows were missing when the job was started, or the library drops some on the way. */
  ghost predicate LosesRows(library: Library, job: Job) {
    || job.start.gap
    || exists i :: 0 <= i < |job.chunks| && library.feed(ReplayedTo(job, i), job.chunks[i].data) == Some(true)
  }

  /** How far the output reaches that the job replays. */
  function EndOf(job: Job): nat {
    job.start.sequence + |Data(job.chunks)|
  }

  lemma FedFurther(job: Job, rest: Job, i: nat)
    requires job.chunks != [] && rest.chunks == job.chunks[1..] && i < |job.chunks|
    requires rest.start.vt == Feed(job.start.vt, job.chunks[0].data)
    ensures ReplayedTo(rest, i) == ReplayedTo(job, i + 1)
  {
    assert job.chunks[..i + 1][1..] == job.chunks[1..][..i];
    InputsConcat(job.chunks[0].data, Data(job.chunks[1..][..i]));
    Regroup(job.start.vt.fed, Inputs(job.chunks[0].data), Inputs(Data(job.chunks[1..][..i])));
  }

  lemma NothingReplayed(job: Job)
    ensures ReplayedTo(job, 0) == job.start.vt
  {
    assert job.chunks[..0] == [] && Inputs([]) == [];
  }

  lemma {:induction false} ReplaySucceedsIff(library: Library, job: Job, end: nat)
    requires Chain(job.chunks, job.start.sequence, end) && !job.restore
    ensures
      var result := Replayed(library, job.start, job.chunks);
      && (result.Ok? <==> Succeeds(library, job))
      && (result.Ok? ==> (result.value.gap <==> LosesRows(library, job)))
    decreases |job.chunks|
  {
    hide Feed, ReplayedTo;
    NothingReplayed(job);
    if job.chunks != [] {
      var step := library.feed(job.start.vt, job.chunks[0].data);
      if step.Some? {
        var next := Prepared(job.start.snapshot, job.chunks[0].end, Feed(job.start.vt, job.chunks[0].data),
                             job.start.gap || step.value);
        var rest := Job(next, job.chunks[1..], false);
        ReplaySucceedsIff(library, rest, end);
        forall i | 0 <= i < |rest.chunks|
          ensures ReplayedTo(rest, i) == ReplayedTo(job, i + 1) && rest.chunks[i] == job.chunks[i + 1]
        {
          FedFurther(job, rest, i);
        }
        LaterChunks(library, job, rest);
      }
    }
  }

  lemma LaterChunks(library: Library, job: Job, rest: Job)
    requires job.chunks != [] && |rest.chunks| == |job.chunks| - 1
    requires forall i :: 0 <= i < |rest.chunks| ==>
               ReplayedTo(rest, i) == ReplayedTo(job, i + 1) && rest.chunks[i] == job.chunks[i + 1]
    requires !job.restore && !rest.restore && library.feed(ReplayedTo(job, 0), job.chunks[0].data).Some?
    requires
      rest.start.gap == (job.start.gap || library.feed(ReplayedTo(job, 0), job.chunks[0].data).value)
    ensures Succeeds(library, job) <==> Succeeds(library, rest)
    ensures LosesRows(library, job) <==> LosesRows(library, rest)
  {
    hide ReplayedTo;
    forall i | 0 <= i < |job.chunks|
      ensures i > 0 ==> ReplayedTo(job, i) == ReplayedTo(rest, i - 1) && job.chunks[i] == rest.chunks[i - 1]
    {
      if i > 0 {
        assert ReplayedTo(rest, i - 1) == ReplayedTo(job, i - 1 + 1);
      }
    }
  }

  /** A job that succeeds brings the snapshot with its own output, and a gap if and only if rows are
      missing from it. */
  lemma JobSucceedsIff(library: Library, s: State)
    requires Valid(s) && s.job.Some?
    ensures
      var job := s.job.value;
      var result := JobResult(library, job);
      && (result.Ok? <==> Succeeds(library, job))
      && (result.Ok? ==>
            && result.value.snapshot == job.start.snapshot && result.value.sequence == EndOf(job)
            && (result.value.gap <==> LosesRows(library, job)))
  {
    hide Valid, Chain, Replayed, Succeeds, LosesRows;
    var job := s.job.value;
    JobIsChain(s);
    ReplaySucceedsIff(library, job.(restore := false), EndOf(job));
    ReplayOfChain(library, job.start, job.chunks, EndOf(job));
    WithoutRestore(library, job);
  }

  lemma JobIsChain(s: State)
    requires Valid(s) && s.job.Some?
    ensures Chain(s.job.value.chunks, s.job.value.start.sequence, EndOf(s.job.value))
  {
    var job := s.job.value;
    var k: nat, end: nat :| k <= |s.replay| && Chain(s.replay[..k], s.boundary, end)
                            && Chain(job.chunks, job.start.sequence, end)
                            && job.start.vt.fed + Inputs(Data(job.chunks)) == Inputs(Data(s.replay[..k]));
    ChainConcat(job.chunks, [], job.start.sequence, end, end);
  }

  lemma WithoutRestore(library: Library, job: Job)
    ensures Succeeds(library, job) <==>
            Succeeds(library, job.(restore := false)) && (job.restore ==> library.restores(job.start.vt.base))
    ensures LosesRows(library, job) <==> LosesRows(library, job.(restore := false))
  {
    assert forall i :: 0 <= i <= |job.chunks| ==> ReplayedTo(job.(restore := false), i) == ReplayedTo(job, i);
  }

  /** The terminal takes over the job's snapshot, fed all that has happened since the checkpoint. */
  ghost predicate Adopts(library: Library, s: State, next: State)
    requires s.job.Some?
  {
    && next.model == Emulator(s.job.value.start.vt.base, s.stream)
    && (next.gap <==> LosesRows(library, s.job.value)) && next.requests == s.requests
    && next.snapshot.None? && next.job.None? && next.replay == []
  }

  /** Another job replays the rest of the output from where this one has ended, and no row is dropped
      silently. */
  ghost predicate Continues(library: Library, s: State, next: State)
    requires s.job.Some?
  {
    && CatchesUp(next) && next.job.value.start.vt.base == s.job.value.start.vt.base
    && next.job.value.start.sequence == EndOf(s.job.value) && EndOf(next.job.value) == s.sequence
    && (next.job.value.start.gap <==> LosesRows(library, s.job.value))
    && next.(job := s.job) == s
  }

  /** The history is given up: a gap is shown, and a new checkpoint requested. */
  ghost predicate GivesUp(s: State, next: State) {
    && next.model == s.model && next.gap && next.requests == s.requests + 1
    && next.snapshot.None? && next.job.None? && next.replay == []
  }

  /** What the end of a job does, by how it ends: a job that fails is given up; one that is behind the
      terminal is continued; one that has caught up is adopted if it agrees with the terminal, and
      given up if not. */
  lemma JobEndDecides(library: Library, s: State, panics: bool, agrees: bool)
    requires Valid(s) && s.job.Some?
    ensures
      var job, next := s.job.value, OnJobEnd(library, s, panics, agrees);
      && next.stream == s.stream && next.sequence == s.sequence && next.boundary == s.boundary
      && if panics || !Succeeds(library, job) then GivesUp(s, next)
         else if EndOf(job) != s.sequence then Continues(library, s, next)
         else if agrees then Adopts(library, s, next)
         else GivesUp(s, next)
  {
    hide Succeeds, LosesRows, Chain, JobResult, NotBefore;
    JobEndKeepsValid(library, s, panics, agrees);
    JobSucceedsIff(library, s);
    if !panics && Succeeds(library, s.job.value) {
      var k := ResultOfJob(library, s);
      RestOfReplay(s, JobResult(library, s.job.value).value, k);
      if EndOf(s.job.value) != s.sequence {
        var next := OnJobEnd(library, s, panics, agrees);
        ChainConcat(next.job.value.chunks, [], next.job.value.start.sequence, s.sequence, s.sequence);
      }
    }
  }

  /** A history is adopted if and only if its job ends well, has caught up with the terminal and shows
      the same screen; and then it is the snapshot of the current checkpoint, fed exactly the output
      received since then, once and in order. */
  lemma AdoptedHistoryIsExact(library: Library, s: State, panics: bool, agrees: bool)
    requires Valid(s)
    ensures
      var next := OnJobEnd(library, s, panics, agrees);
      && (next.model != s.model <==>
            s.job.Some? && !panics && agrees && Succeeds(library, s.job.value) && EndOf(s.job.value) == s.sequence)
      && (next.model != s.model ==>
            && next.model.base.Projection? && next.model.base == s.job.value.start.vt.base
            && s.snapshot == Some(next.model.base.snapshot) && next.model.base.sequence == s.boundary
            && next.model.fed == s.stream == Inputs(Data(s.replay)) && |s.stream| == s.sequence - s.boundary
            && next.snapshot.None? && next.job.None?)
  {
    hide OnJobEnd, Succeeds, LosesRows;
    if s.job.Some? {
      JobEndDecides(library, s, panics, agrees);
      ChainConcat(s.replay, [], s.boundary, s.sequence, s.sequence);
    } else {
      NoJobEnds(library, s, panics, agrees);
    }
  }

  lemma NoJobEnds(library: Library, s: State, panics: bool, agrees: bool)
    requires s.job.None?
    ensures OnJobEnd(library, s, panics, agrees) == s
  {}

  /** Rows that belong to the current checkpoint start a job from them that catches up with the
      terminal; others change nothing. */
  lemma HistoryStartsJob(library: Library, s: State, snapshot: nat, sequence: nat, rows: seq<string>, gap: bool)
    requires Valid(s)
    ensures
      var next := Step(library, s, HistorySynced(snapshot, sequence, rows, gap));
      if s.snapshot == Some(snapshot) && s.boundary == sequence
      then
        && next.(job := s.job) == s && next.job.Some? && next.job.value.restore
        && next.job.value.start.vt == Emulator(Projection(snapshot, sequence, rows), [])
        && next.job.value.start.gap == gap && EndOf(next.job.value) == s.sequence
      else next == s
  {
    if s.snapshot == Some(snapshot) {
      ChainConcat(s.replay, [], s.boundary, s.sequence, s.sequence);
    }
  }

  /** Output is queued while a snapshot is awaited, until there is too much of it: then the history is
      given up. */
  lemma OutputIsQueued(library: Library, s: State, chunk: Chunk)
    requires Valid(s) && Contiguous(s, Output(chunk))
    ensures
      var next := Step(library, s, Output(chunk));
      && next.sequence == s.sequence + |chunk.data|
      && if s.snapshot.None? then next.job.None? && next.requests == s.requests && next.gap == s.gap
      else if |s.stream| + |chunk.data| <= MAX_HISTORY_REPLAY_BYTES
      then next.snapshot == s.snapshot && next.job == s.job && next.requests == s.requests && next.gap == s.gap
      else next.snapshot.None? && next.job.None? && next.requests == s.requests + 1 && next.gap
  {
  }

  /** A new size gives the history up silently, since it cannot be replayed across it. */
  lemma GeometryCancels(library: Library, s: State, columns: nat, rows: nat)
    requires Valid(s)
    ensures
      var next := Step(library, s, Geometry(columns, rows));
      && next.snapshot.None? && next.job.None?
      && next.requests == s.requests && next.gap == s.gap && next.sequence == s.sequence
  {
  }

  /** The events of a run, each as the pane meets it. */
  ghost predicate Run(library: Library, s: State, events: seq<Event>, end: State)
    decreases |events|
  {
    if events == [] then s == end
    else Contiguous(s, events[0]) && Run(library, Step(library, s, events[0]), events[1..], end)
  }

  function Initial(sequence: nat): State {
    State(Emulator(Screen(sequence), []), false, sequence, sequence, None, [], 0, None, 0, [])
  }

  /** Whatever arrives in whatever order, the pane's terminal has been fed everything that happened
      since its checkpoint, once and in order, and the queue holds what its size says. */
  lemma {:induction false} RunsStayExact(library: Library, s: State, events: seq<Event>, end: State)
    requires Valid(s) && Run(library, s, events, end)
    ensures Valid(end)
    decreases |events|
  {
    if events != [] {
      StepKeepsValid(library, s, events[0]);
      RunsStayExact(library, Step(library, s, events[0]), events[1..], end);
    }
  }

  /** What happens to the live terminal since the last checkpoint, read off the events alone. */
  function StreamAfter(stream: seq<Input>, events: seq<Event>): seq<Input>
    decreases |events|
  {
    if events == [] then stream
    else
      match events[0]
      case Checkpoint(_, _, _) => StreamAfter([], events[1..])
      case Output(chunk) => StreamAfter(stream + Inputs(chunk.data), events[1..])
      case Geometry(columns, rows) => StreamAfter(stream + [Resize(columns, rows)], events[1..])
      case _ => StreamAfter(stream, events[1..])
  }

  /** The sequence of the last checkpoint. */
  function BoundaryAfter(boundary: nat, events: seq<Event>): nat
    decreases |events|
  {
    if events == [] then boundary
    else BoundaryAfter(if events[0].Checkpoint? then events[0].sequence else boundary, events[1..])
  }

  /** So the terminal has been fed what the events say, also when a projection has taken its place. */
  lemma {:induction false} RunsFeedEverything(library: Library, s: State, events: seq<Event>, end: State)
    requires Valid(s) && Run(library, s, events, end)
    ensures end.model.fed == StreamAfter(s.stream, events)
    ensures end.boundary == end.model.base.sequence == BoundaryAfter(s.boundary, events)
    decreases |events|
  {
    hide Valid;
    if events == [] {
      StreamIsFed(s);
    } else {
      var next := Step(library, s, events[0]);
      StepKeepsValid(library, s, events[0]);
      StepStreams(library, s, events[0]);
      RunsFeedEverything(library, next, events[1..], end);
    }
  }

  lemma StreamIsFed(s: State)
    requires Valid(s)
    ensures s.model.fed == s.stream && s.model.base.sequence == s.boundary
  {}

  lemma StepStreams(library: Library, s: State, event: Event)
    ensures Step(library, s, event).stream == StreamAfter(s.stream, [event])
    ensures Step(library, s, event).boundary == BoundaryAfter(s.boundary, [event])
  {
    hide JobResult, NotBefore;
  }

  lemma InitialIsValid(sequence: nat)
    ensures Valid(Initial(sequence))
  {}

  /** The same from a fresh pane on, for the job that ends next: an adopted projection belongs to the
      current snapshot and has been fed all output since its boundary, and the queue's size is right. */
  lemma RunsAdoptOnlyExactHistory(library: Library, sequence: nat, events: seq<Event>, end: State,
                                  panics: bool, agrees: bool)
    requires Run(library, Initial(sequence), events, end)
    ensures end.replayBytes == |Data(end.replay)| <= MAX_HISTORY_REPLAY_BYTES
    ensures
      var next := OnJobEnd(library, end, panics, agrees);
      next.model != end.model ==>
        && agrees && next.model.base.Projection?
        && end.snapshot == Some(next.model.base.snapshot) && next.model.base.sequence == end.boundary
        && next.model.fed == end.stream == Inputs(Data(end.replay)) && |end.stream| == end.sequence - end.boundary
  {
    hide Run, Initial, OnJobEnd;
    InitialIsValid(sequence);
    RunsStayExact(library, Initial(sequence), events, end);
    AdoptedHistoryIsExact(library, end, panics, agrees);
  }

  /** How many more jobs must end before none is left, once no more output arrives. */
  ghost function JobsLeft(s: State): nat {
    if s.job.None? then 0 else if CatchesUp(s) then 1 else 2
  }

  lemma JobsRunOut(library: Library, s: State, panics: bool, agrees: bool)
    requires Valid(s) && s.job.Some?
    ensures JobsLeft(OnJobEnd(library, s, panics, agrees)) < JobsLeft(s)
    ensures OnJobEnd(library, s, panics, agrees).stream == s.stream
    ensures OnJobEnd(library, s, panics, agrees).sequence == s.sequence
  {
    JobEndKeepsValid(library, s, panics, agrees);
    if CatchesUp(s) {
      ReplayOfChain(library, s.job.value.start, s.job.value.chunks, s.sequence);
    }
  }

  /** How a background job ends, and whether what it brings shows the same screen as the terminal. */
  datatype Ending = Ending(panics: bool, agrees: bool)

  /** The state when up to `n` jobs have ended one after the other, without new output. */
  ghost function AfterJobs(library: Library, s: State, endings: nat -> Ending, n: nat): State {
    if n == 0 then s
    else
      OnJobEnd(library, AfterJobs(library, s, endings, n - 1), endings(n - 1).panics, endings(n - 1).agrees)
  }

  lemma {:induction false} NoMoreJobs(library: Library, s: State, endings: nat -> Ending, n: nat, more: nat)
    requires n <= more && AfterJobs(library, s, endings, n).job.None?
    ensures AfterJobs(library, s, endings, more) == AfterJobs(library, s, endings, n)
  {
    if n < more {
      NoMoreJobs(library, s, endings, n, more - 1);
    }
  }

  /** The library restores every snapshot and feeds everything. */
  ghost predicate Cooperates(library: Library) {
    (forall base :: library.restores(base)) && forall vt, data :: library.feed(vt, data).Some?
  }

  ghost predicate EndWell(endings: nat -> Ending) {
    forall i: nat :: endings(i) == Ending(false, true)
  }

  /** With such a library, jobs that end well and agree with the terminal bring the history of the
      current snapshot to it, when no output arrives any more. */
  lemma HistoryIsAdopted(library: Library, s: State, endings: nat -> Ending)
    requires Valid(s) && s.job.Some? && Cooperates(library) && EndWell(endings)
    ensures
      var end := AfterJobs(library, s, endings, JobsLeft(s));
      && end.model == Emulator(s.job.value.start.vt.base, s.stream) && end.requests == s.requests
      && end.job.None? && end.snapshot.None?
  {
    hide OnJobEnd, LosesRows, Valid;
    var once := OnJobEnd(library, s, false, true);
    assert AfterJobs(library, s, endings, 0) == s && AfterJobs(library, s, endings, 1) == once;
    JobEndDecides(library, s, false, true);
    JobEndKeepsValid(library, s, false, true);
    if EndOf(s.job.value) != s.sequence {
      NotYetThere(s);
      JobEndDecides(library, once, false, true);
      assert AfterJobs(library, s, endings, 2) == OnJobEnd(library, once, false, true);
    } else {
      NoMoreJobs(library, s, endings, 1, JobsLeft(s));
    }
  }

  lemma NotYetThere(s: State)
    requires s.job.Some? && EndOf(s.job.value) != s.sequence
    ensures JobsLeft(s) == 2
  {
    if CatchesUp(s) {
      ChainConcat(s.job.value.chunks, [], s.job.value.start.sequence, s.sequence, s.sequence);
    }
  }

  // ----- From the checkpoint to its history -----

  function Outputs(chunks: seq<Chunk>): seq<Event> {
    seq(|chunks|, i requires 0 <= i < |chunks| => Output(chunks[i]))
  }

  lemma {:induction false} RunConcat(library: Library, s: State, a: seq<Event>, b: seq<Event>, end: State)
    returns (middle: State)
    requires Run(library, s, a + b, end)
    ensures Run(library, s, a, middle) && Run(library, middle, b, end)
    decreases |a|
  {
    hide Step, Contiguous;
    if a == [] {
      assert a + b == b;
      middle := s;
    } else {
      assert (a + b)[1..] == a[1..] + b;
      middle := RunConcat(library, Step(library, s, a[0]), a[1..], b, end);
    }
  }

  /** Output within the limit neither ends the wait for a history nor the job that prepares it. */
  lemma {:induction false} OutputsKeepHistory(library: Library, s: State, chunks: seq<Chunk>, end: State)
    requires Valid(s) && s.snapshot.Some? && Run(library, s, Outputs(chunks), end)
    requires |s.stream| + |Data(chunks)| <= MAX_HISTORY_REPLAY_BYTES
    ensures Valid(end) && end.snapshot == s.snapshot && end.job == s.job && end.requests == s.requests
    ensures end.stream == s.stream + Inputs(Data(chunks)) && end.boundary == s.boundary
    decreases |chunks|
  {
    hide Valid;
    if chunks == [] {
      assert s.stream + Inputs([]) == s.stream;
    } else {
      var event := Outputs(chunks)[0];
      var next := Step(library, s, event);
      assert Outputs(chunks)[1..] == Outputs(chunks[1..]);
      StepKeepsValid(library, s, event);
      OutputIsQueued(library, s, chunks[0]);
      StepStreams(library, s, event);
      assert next.stream == s.stream + Inputs(chunks[0].data);
      OutputsKeepHistory(library, next, chunks[1..], end);
      InputsConcat(chunks[0].data, Data(chunks[1..]));
      Regroup(s.stream, Inputs(chunks[0].data), Inputs(Data(chunks[1..])));
    }
  }

  lemma RunOne(library: Library, s: State, event: Event, end: State)
    requires Run(library, s, [event], end)
    ensures Contiguous(s, event) && end == Step(library, s, event)
  {
    assert [event][1..] == [];
  }

  lemma CheckpointAwaits(library: Library, s: State, sequence: nat, manifest: Option<nat>, gap: bool)
    ensures
      var next := Step(library, s, Checkpoint(sequence, manifest, gap));
      && next.snapshot == manifest && next.gap == gap && next.job.None? && next.requests == s.requests
      && next.stream == [] && next.boundary == next.sequence == sequence
  {}

  /** Whatever has happened before: a checkpoint that announces a history, the rows of this history and
      any output within the limit before and after them lead, when the jobs have ended well, to a
      terminal with these rows that has been fed just that output. */
  lemma HistoryArrives(library: Library, s: State, sequence: nat, id: nat, incomplete: bool, before: seq<Chunk>,
                       rows: seq<string>, gap: bool, later: seq<Chunk>, end: State, endings: nat -> Ending)
    requires Valid(s) && Cooperates(library) && EndWell(endings)
    requires |Data(before)| + |Data(later)| <= MAX_HISTORY_REPLAY_BYTES
    requires Run(library, s, [Checkpoint(sequence, Some(id), incomplete)] + Outputs(before)
                             + [HistorySynced(id, sequence, rows, gap)] + Outputs(later), end)
    ensures
      var done := AfterJobs(library, end, endings, JobsLeft(end));
      && done.model == Emulator(Projection(id, sequence, rows), Inputs(Data(before)) + Inputs(Data(later)))
      && done.requests == s.requests && done.job.None?
  {
    hide Valid, Step, AfterJobs, JobsLeft, Cooperates, EndWell, Run, Contiguous;
    var asked, synced := Checkpoint(sequence, Some(id), incomplete), HistorySynced(id, sequence, rows, gap);
    var fourth := RunConcat(library, s, [asked] + Outputs(before) + [synced], Outputs(later), end);
    var third := RunConcat(library, s, [asked] + Outputs(before), [synced], fourth);
    var first := RunConcat(library, s, [asked], Outputs(before), third);
    RunOne(library, s, asked, first);
    RunOne(library, third, synced, fourth);
    StepKeepsValid(library, s, asked);
    CheckpointAwaits(library, s, sequence, Some(id), incomplete);
    OutputsKeepHistory(library, first, before, third);
    assert [] + Inputs(Data(before)) == Inputs(Data(before));
    StepKeepsValid(library, third, synced);
    HistoryStartsJob(library, third, id, sequence, rows, gap);
    OutputsKeepHistory(library, fourth, later, end);
    HistoryIsAdopted(library, end, endings);
  }

  // ----- The pane -----

  class Pane {
    const library: Library
    var model: Emulator
    var gap: bool
    var sequence: nat
    var boundary: nat
    var snapshot: Option<nat>
    var replay: seq<Chunk>
    var replayBytes: nat
    var job: Option<Job>
    var requests: nat
    var ended: bool
    ghost var stream: seq<Input>

    ghost function Now(): State
      reads this
    {
      State(model, gap, sequence, boundary, snapshot, replay, replayBytes, job, requests, stream)
    }

    constructor (library: Library, sequence: nat)
      ensures Now() == Initial(sequence) && Valid(Now()) && this.library == library && !ended
    {
      this.library := library;
      model := Emulator(Screen(sequence), []);
      gap, ended := false, false;
      this.sequence, boundary := sequence, sequence;
      snapshot, job := None, None;
      replay, replayBytes, requests, stream := [], 0, 0, [];
    }

    method CancelHistory()
      modifies this
      ensures Now() == Cancelled(old(Now())) && ended == old(ended)
    {
      snapshot := None;
      replay := [];
      replayBytes := 0;
      job := None;
    }

    method RequestCheckpoint()
      modifies this`requests
      ensures requests == old(requests) + 1
    {
      requests := requests + 1;
    }

    method ApplyEvent(event: Event)
      requires Valid(Now()) && Contiguous(Now(), event)
      modifies this
      ensures Now() == Step(library, old(Now()), event) && Valid(Now()) && ended == old(ended)
    {
      hide Valid, OnJobEnd, OnOutput, OnCheckpoint;
      StepKeepsValid(library, Now(), event);
      match event
      case Checkpoint(at, manifest, incomplete) =>
        ReceiveCheckpoint(at, manifest, incomplete);
      case Output(chunk) =>
        ReceiveOutput(chunk);
      case Geometry(columns, rows) =>
        CancelHistory();
        model := model.(fed := model.fed + [Resize(columns, rows)]);
        stream := stream + [Resize(columns, rows)];
      case HistorySynced(id, at, historyRows, incomplete) =>
        if snapshot != Some(id) || at != boundary {
          return;
        }
        var vt := Emulator(Projection(id, at, historyRows), []);
        job := Some(Job(Prepared(id, at, vt, incomplete), replay, true));
      case JobEnds(panics, agrees) =>
        EndJob(panics, agrees);
    }

    method ReceiveOutput(chunk: Chunk)
      modifies this
      ensures Now() == OnOutput(old(Now()), chunk) && ended == old(ended)
    {
      model := Feed(model, chunk.data);
      stream := stream + Inputs(chunk.data);
      sequence := chunk.end;
      if snapshot.Some? {
        replayBytes := replayBytes + |chunk.data|;
        replay := replay + [chunk];
        if replayBytes > MAX_HISTORY_REPLAY_BYTES {
          gap := true;
          CancelHistory();
          RequestCheckpoint();
        }
      }
    }

    method ReceiveCheckpoint(at: nat, manifest: Option<nat>, incomplete: bool)
      modifies this
      ensures Now() == OnCheckpoint(old(Now()), at, manifest, incomplete) && ended == old(ended)
    {
      CancelHistory();
      sequence, boundary := at, at;
      snapshot := manifest;
      model := Emulator(Screen(at), []);
      gap := incomplete;
      stream := [];
    }

    /** Takes the job, if there is one, and publishes its result. */
    method EndJob(panics: bool, agrees: bool)
      modifies this
      ensures Now() == OnJobEnd(library, old(Now()), panics, agrees) && ended == old(ended)
    {
      if job.None? {
        return;
      }
      var result := RunJob(job.value, panics);
      job := None;
      PublishHistoryResult(result, agrees);
    }

    method RunJob(work: Job, panics: bool) returns (result: Result<Prepared, JobError>)
      ensures result == if panics then Err(Panicked) else JobResult(library, work)
    {
      if panics {
        return Err(Panicked);
      }
      if work.restore && !library.restores(work.start.vt.base) {
        return Err(RestoreFailed);
      }
      result := ReplayHistory(library, work.start, work.chunks);
    }

    method PublishHistoryResult(result: Result<Prepared, JobError>, agrees: bool)
      modifies this
      ensures Now() == OnResult(old(Now()), result, agrees) && ended == old(ended)
    {
      match result
      case Ok(prepared) =>
        if snapshot == Some(prepared.snapshot) {
          if prepared.sequence == sequence {
            if agrees {
              model := prepared.vt;
              gap := prepared.gap;
            } else {
              gap := true;
              RequestCheckpoint();
            }
            CancelHistory();
          } else {
            job := Some(Job(prepared, NotBefore(replay, prepared.sequence), false));
          }
        }
      case Err(_) =>
        gap := true;
        CancelHistory();
        RequestCheckpoint();
    }

    /** After the terminal has ended, waits for its history. The loop runs at most twice, whether the
        jobs panic and whatever their results show. */
    method FinishEndedHistory(endings: nat -> Ending)
      requires Valid(Now())
      modifies this
      ensures Valid(Now()) && ended == old(ended)
      ensures !ended ==> Now() == old(Now())
      ensures ended ==> job.None? && stream == old(stream) && sequence == old(sequence)
      ensures ended ==> Now() == AfterJobs(library, old(Now()), endings, JobsLeft(old(Now())))
      ensures ended && old(job).Some? && Cooperates(library) && EndWell(endings) ==>
                model == Emulator(old(job).value.start.vt.base, stream) && requests == old(requests)
    {
      hide Valid, OnJobEnd, CatchesUp, Cooperates, EndWell;
      if !ended {
        return;
      }
      var done := 0;
      ghost var start := Now();
      while job.Some?
        invariant Valid(Now()) && ended && stream == old(stream) && sequence == old(sequence)
        invariant Now() == AfterJobs(library, start, endings, done) && done + JobsLeft(Now()) <= JobsLeft(start)
        decreases JobsLeft(Now())
      {
        var ending := endings(done);
        JobEndKeepsValid(library, Now(), ending.panics, ending.agrees);
        JobsRunOut(library, Now(), ending.panics, ending.agrees);
        EndJob(ending.panics, ending.agrees);
        done := done + 1;
      }
      NoMoreJobs(library, start, endings, done, JobsLeft(start));
      if start.job.Some? && Cooperates(library) && EndWell(endings) {
        HistoryIsAdopted(library, start, endings);
      }
    }
  }
}
