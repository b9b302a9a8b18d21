/**
 Reading the newest matching records of the diagnostic logs with bounded memory: records are
 collected newest line first, and the collection is sorted and cut off whenever it has grown to
 twice the limit.
 */
module LogReader {
  import opened Basics
  import opened Options
  import opened LogStore

  datatype Record = Record(timestamp: nat, run: nat, level: nat, failed: bool, rest: string)

  /** Reads one line, with its newline, as a valid record. */
  type Parser = seq<byte> -> Option<Record>

  datatype Filter = Filter(failedOnly: bool, level: Option<nat>)

  datatype Run = Run(id: nat, segments: Segments)

  datatype History = History(records: seq<Record>, complete: bool)

  datatype ReadError = LimitOutOfRange | OversizedSegment

  const MAX_LIMIT: nat := 10_000

  // ----- The order of records -----

  /** Newer records come first, and among equal times the greater run. */
  predicate Precedes(a: Record, b: Record) {
    a.timestamp > b.timestamp || (a.timestamp == b.timestamp && a.run > b.run)
  }

  ghost predicate Sorted(s: seq<Record>) {
    forall i, j :: 0 <= i < j < |s| ==> !Precedes(s[j], s[i])
  }

  predicate SameKey(a: Record, b: Record) {
    a.timestamp == b.timestamp && a.run == b.run
  }

  function WithKey(s: seq<Record>, key: Record): seq<Record> {
    if s == [] then [] else (if SameKey(s[0], key) then [s[0]] else []) + WithKey(s[1..], key)
  }

  /** A sorted rearrangement that keeps records with the same key in their order. */
  ghost predicate IsStableSort(sorted: seq<Record>, s: seq<Record>) {
    Sorted(sorted) && forall key :: WithKey(sorted, key) == WithKey(s, key)
  }

  /** Puts a record behind all records it does not precede. */
  function Insert(sorted: seq<Record>, record: Record): (result: seq<Record>)
    ensures |result| == |sorted| + 1
  {
    if sorted == [] || !Precedes(record, sorted[|sorted| - 1]) then sorted + [record]
    else Insert(sorted[..|sorted| - 1], record) + [sorted[|sorted| - 1]]
  }

  function Sort(s: seq<Record>): (sorted: seq<Record>)
    ensures |sorted| == |s|
  {
    if s == [] then [] else Insert(Sort(s[..|s| - 1]), s[|s| - 1])
  }

  function Take(s: seq<Record>, limit: nat): seq<Record> {
    if |s| <= limit then s else s[..limit]
  }

  function Newest(s: seq<Record>, limit: nat): (newest: seq<Record>)
    ensures |newest| <= limit
  {
    Take(Sort(s), limit)
  }

  lemma WithKeyConcat(a: seq<Record>, b: seq<Record>, key: Record)
    ensures WithKey(a + b, key) == WithKey(a, key) + WithKey(b, key)
  {
    if a == [] {
      assert a + b == b;
    } else {
      assert (a + b)[1..] == a[1..] + b;
      WithKeyConcat(a[1..], b, key);
    }
  }

  /** A record may be put before one with another key. */
  lemma InsertedBefore(init: seq<Record>, inserted: seq<Record>, record: Record, last: Record, key: Record)
    requires Precedes(record, last) && WithKey(inserted, key) == WithKey(init + [record], key)
    ensures WithKey(inserted + [last], key) == WithKey(init + [last] + [record], key)
  {
    WithKeyConcat(inserted, [last], key);
    WithKeyConcat(init, [record], key);
    WithKeyConcat(init, [last], key);
    WithKeyConcat(init + [last], [record], key);
  }

  lemma {:induction false} InsertIsStable(sorted: seq<Record>, record: Record)
    requires Sorted(sorted)
    ensures Sorted(Insert(sorted, record))
    ensures forall key :: WithKey(Insert(sorted, record), key) == WithKey(sorted + [record], key)
    ensures forall x :: x in Insert(sorted, record) ==> x in sorted || x == record
  {
    if sorted != [] && Precedes(record, sorted[|sorted| - 1]) {
      var init, last := sorted[..|sorted| - 1], sorted[|sorted| - 1];
      InsertIsStable(init, record);
      forall key
        ensures WithKey(Insert(sorted, record), key) == WithKey(sorted + [record], key)
      {
        assert sorted == init + [last];
        InsertedBefore(init, Insert(init, record), record, last, key);
      }
      var inserted := Insert(init, record);
      forall i | 0 <= i < |inserted|
        ensures !Precedes(last, inserted[i])
      {
        assert inserted[i] in init || inserted[i] == record;
      }
    }
  }

  lemma {:induction false} InsertAdds(sorted: seq<Record>, record: Record)
    ensures multiset(Insert(sorted, record)) == multiset(sorted) + multiset{record}
  {
    if sorted != [] && Precedes(record, sorted[|sorted| - 1]) {
      var init, last := sorted[..|sorted| - 1], sorted[|sorted| - 1];
      InsertAdds(init, record);
      assert sorted == init + [last];
    }
  }

  lemma {:induction false} SortRearranges(s: seq<Record>)
    ensures multiset(Sort(s)) == multiset(s)
  {
    hide Insert;
    if s != [] {
      var init, last := s[..|s| - 1], s[|s| - 1];
      SortRearranges(init);
      InsertAdds(Sort(init), last);
      assert s == init + [last];
    }
  }

  /** Later, or at the same time and not of an earlier run. */
  predicate NoOlder(a: Record, b: Record) {
    a.timestamp > b.timestamp || (a.timestamp == b.timestamp && a.run >= b.run)
  }

  /** As many records are kept as the limit allows, from the newest on, and none that is omitted is newer
      than one that is kept. */
  lemma KeptAreNewest(s: seq<Record>, limit: nat)
    ensures
      var kept := Newest(s, limit);
      && |kept| == (if |s| < limit then |s| else limit) && multiset(kept) <= multiset(s)
      && (forall i, j :: 0 <= i < j < |kept| ==> NoOlder(kept[i], kept[j]))
      && forall r, o :: r in kept && o in multiset(s) - multiset(kept) ==> NoOlder(r, o)
  {
    SortIsStable(s);
    SortRearranges(s);
    var sorted, kept := Sort(s), Newest(s, limit);
    if limit < |s| {
      assert sorted == kept + sorted[limit..];
      forall r, o | r in kept && o in multiset(s) - multiset(kept)
        ensures NoOlder(r, o)
      {
        assert o in multiset(sorted[limit..]);
        var i :| 0 <= i < limit && sorted[i] == r;
        var j :| limit <= j < |s| && sorted[j] == o;
        assert !Precedes(sorted[j], sorted[i]);
      }
    }
    forall i, j | 0 <= i < j < |kept|
      ensures NoOlder(kept[i], kept[j])
    {
      assert kept[i] == sorted[i] && kept[j] == sorted[j] && !Precedes(sorted[j], sorted[i]);
    }
  }

  lemma {:induction false} SortIsStable(s: seq<Record>)
    ensures IsStableSort(Sort(s), s)
  {
    if s != [] {
      var init, last := s[..|s| - 1], s[|s| - 1];
      SortIsStable(init);
      InsertIsStable(Sort(init), last);
      forall key
        ensures WithKey(Sort(s), key) == WithKey(s, key)
      {
        WithKeyConcat(Sort(init), [last], key);
        WithKeyConcat(init, [last], key);
        assert s == init + [last];
      }
    }
  }

  lemma WithKeyMember(s: seq<Record>, key: Record) returns (i: nat)
    requires WithKey(s, key) != []
    ensures i < |s| && SameKey(s[i], key)
  {
    if SameKey(s[0], key) {
      i := 0;
    } else {
      var rest := WithKeyMember(s[1..], key);
      i := rest + 1;
    }
  }

  lemma SameHead(a: seq<Record>, b: seq<Record>)
    requires Sorted(a) && Sorted(b) && a != []
    requires forall key :: WithKey(a, key) == WithKey(b, key)
    ensures b != [] && a[0] == b[0]
  {
    assert WithKey(a, a[0]) == WithKey(b, a[0]);
    var i := WithKeyMember(b, a[0]);
    assert !Precedes(b[i], b[0]);
    assert WithKey(a, b[0]) == WithKey(b, b[0]);
    var j := WithKeyMember(a, b[0]);
    assert !Precedes(a[j], a[0]);
    assert SameKey(a[0], b[0]);
    assert WithKey(a, a[0])[0] == a[0] && WithKey(b, a[0])[0] == b[0];
  }

  /** There is just one stable sort, so that any stable sorting routine computes `Sort`. */
  lemma {:induction false} StableSortIsUnique(a: seq<Record>, b: seq<Record>)
    requires Sorted(a) && Sorted(b)
    requires forall key :: WithKey(a, key) == WithKey(b, key)
    ensures a == b
  {
    if a == [] {
      if b != [] {
        SameHead(b, a);
      }
    } else {
      SameHead(a, b);
      forall key
        ensures WithKey(a[1..], key) == WithKey(b[1..], key)
      {
        assert WithKey(a, key) == WithKey(b, key);
        var head := if SameKey(a[0], key) then [a[0]] else [];
        assert (head + WithKey(a[1..], key))[|head|..] == WithKey(a[1..], key);
        assert (head + WithKey(b[1..], key))[|head|..] == WithKey(b[1..], key);
      }
      StableSortIsUnique(a[1..], b[1..]);
    }
  }

  /** A sorted sequence is its own stable sort. */
  lemma SortOfSorted(s: seq<Record>)
    requires Sorted(s)
    ensures Sort(s) == s
  {
    SortIsStable(s);
    StableSortIsUnique(Sort(s), s);
  }

  // ----- Cutting off early loses nothing -----

  lemma {:induction false} TakeInsert(sorted: seq<Record>, record: Record, limit: nat)
    requires Sorted(sorted)
    ensures Take(Insert(sorted, record), limit) == Take(Insert(Take(sorted, limit), record), limit)
  {
    if |sorted| > limit {
      var init, last := sorted[..|sorted| - 1], sorted[|sorted| - 1];
      assert Take(sorted, limit) == Take(init, limit);
      if Precedes(record, last) {
        TakeInsert(init, record, limit);
        assert Take(Insert(init, record) + [last], limit) == Take(Insert(init, record), limit);
      } else if limit > 0 {
        assert Take(sorted, limit)[limit - 1] == sorted[limit - 1];
        assert !Precedes(record, sorted[limit - 1]);
      }
    }
  }

  lemma NewestOfNewest(s: seq<Record>, limit: nat)
    ensures Newest(Newest(s, limit), limit) == Newest(s, limit)
  {
    SortIsStable(s);
    SortOfSorted(Newest(s, limit));
  }

  lemma NewestGrows(a: seq<Record>, b: seq<Record>, record: Record, limit: nat)
    requires Newest(a, limit) == Newest(b, limit)
    ensures Newest(a + [record], limit) == Newest(b + [record], limit)
  {
    SortIsStable(a);
    SortIsStable(b);
    assert (a + [record])[..|a|] == a && (b + [record])[..|b|] == b;
    TakeInsert(Sort(a), record, limit);
    TakeInsert(Sort(b), record, limit);
  }

  // ----- What is read -----

  /** A line that cannot be read as a record of this run is reported and left out. */
  function Accept(parse: Parser, run: nat, line: seq<byte>): Option<Record> {
    if |line| <= MAX_RECORD_BYTES && 0 < |line| && line[|line| - 1] == NEWLINE then
      match parse(line)
      case Some(record) => if record.run == run then Some(record) else None
      case None => None
    else None
  }

  predicate Matches(filter: Filter, record: Record) {
    (!filter.failedOnly || record.failed) && (filter.level.Some? ==> record.level >= filter.level.value)
  }

  function Selected(parse: Parser, filter: Filter, run: nat, lines: seq<seq<byte>>): seq<Record> {
    if lines == [] then []
    else Selected(parse, filter, run, lines[..|lines| - 1]) + Chosen(parse, filter, run, lines[|lines| - 1])
  }

  function Chosen(parse: Parser, filter: Filter, run: nat, line: seq<byte>): seq<Record> {
    match Accept(parse, run, line)
    case Some(record) => if Matches(filter, record) then [record] else []
    case None => []
  }

  function Reversed<T>(s: seq<T>): (r: seq<T>)
    ensures |r| == |s|
    ensures forall i :: 0 <= i < |s| ==> r[i] == s[|s| - 1 - i]
  {
    seq(|s|, i requires 0 <= i < |s| => s[|s| - 1 - i])
  }

  /** The lines of a run in the order of the reader, which is the reverse of the append order. */
  function Visited(segments: Segments): seq<seq<byte>> {
    Reversed(AllLines(segments))
  }

  function AllSelected(parse: Parser, filter: Filter, runs: seq<Run>): seq<Record> {
    if runs == [] then []
    else
      var last := runs[|runs| - 1];
      AllSelected(parse, filter, runs[..|runs| - 1]) + Selected(parse, filter, last.id, Visited(last.segments))
  }

  ghost predicate Readable(parse: Parser, run: nat, lines: seq<seq<byte>>) {
    forall line :: line in lines ==> Accept(parse, run, line).Some?
  }

  ghost predicate Oversized(runs: seq<Run>, segmentBytes: nat) {
    exists run, i :: run in runs && 0 <= i < 4 && i in run.segments && |run.segments[i]| > segmentBytes
  }

  function VisitedBelow(segments: Segments, index: nat): seq<seq<byte>> {
    if index == 0 then [] else VisitedBelow(segments, index - 1) + Reversed(Kept(segments, index - 1))
  }

  lemma ReversedConcat<T>(a: seq<T>, b: seq<T>)
    ensures Reversed(a + b) == Reversed(b) + Reversed(a)
  {}

  lemma ReversedFour<T>(a: seq<T>, b: seq<T>, c: seq<T>, d: seq<T>)
    ensures Reversed(d + c + b + a) == Reversed(a) + Reversed(b) + Reversed(c) + Reversed(d)
  {
    ReversedConcat(d + c + b, a);
    ReversedConcat(d + c, b);
    ReversedConcat(d, c);
    assert Reversed(a) + (Reversed(b) + (Reversed(c) + Reversed(d)))
        == Reversed(a) + Reversed(b) + Reversed(c) + Reversed(d);
  }

  lemma ReversedMembers<T>(s: seq<T>)
    ensures forall x :: x in Reversed(s) <==> x in s
  {
    assert forall i :: 0 <= i < |s| ==> s[i] == Reversed(s)[|s| - 1 - i];
  }

  /** Segment by segment and each from its end, the reader meets all lines, newest first. */
  lemma VisitedBackwards(segments: Segments)
    ensures VisitedBelow(segments, 4) == Visited(segments)
    ensures forall line :: line in Visited(segments) <==> line in AllLines(segments)
  {
    hide Kept, Reversed;
    var (d, c, b, a) := (Kept(segments, 3), Kept(segments, 2), Kept(segments, 1), Kept(segments, 0));
    ReversedFour(a, b, c, d);
    ReversedMembers(AllLines(segments));
    assert VisitedBelow(segments, 0) == [];
    assert VisitedBelow(segments, 1) == [] + Reversed(a) == Reversed(a);
    assert VisitedBelow(segments, 2) == Reversed(a) + Reversed(b);
    assert VisitedBelow(segments, 3) == Reversed(a) + Reversed(b) + Reversed(c);
  }

  lemma SelectOne(parse: Parser, filter: Filter, run: nat, seen: seq<seq<byte>>, line: seq<byte>, before: seq<Record>)
    ensures before + Selected(parse, filter, run, seen) + Chosen(parse, filter, run, line)
         == before + Selected(parse, filter, run, seen + [line])
    ensures Readable(parse, run, seen + [line]) <==> Readable(parse, run, seen) && Accept(parse, run, line).Some?
  {
    assert (seen + [line])[..|seen|] == seen;
    assert forall l :: l in seen + [line] <==> l in seen || l == line;
  }

  lemma SelectNone(parse: Parser, filter: Filter, run: nat, before: seq<Record>)
    ensures before + Selected(parse, filter, run, []) == before
  {}

  lemma NoLineYet(parse: Parser, run: nat, lines: seq<seq<byte>>, done: seq<seq<byte>>)
    ensures done + Reversed(lines[|lines|..]) == done && Readable(parse, run, lines[|lines|..])
  {
    assert lines[|lines|..] == [];
  }

  /** The reader goes back by one line. */
  lemma OneLineBack(parse: Parser, run: nat, lines: seq<seq<byte>>, k: nat, done: seq<seq<byte>>)
    requires k < |lines|
    ensures done + Reversed(lines[k..]) == done + Reversed(lines[k + 1..]) + [lines[k]]
    ensures Readable(parse, run, lines[k..]) <==>
            Accept(parse, run, lines[k]).Some? && Readable(parse, run, lines[k + 1..])
  {
    hide Accept;
    var back := Reversed(lines[k + 1..]);
    assert lines[k..] == [lines[k]] + lines[k + 1..];
    ReversedConcat([lines[k]], lines[k + 1..]);
    assert done + back + [lines[k]] == done + (back + [lines[k]]);
    assert forall line :: line in lines[k..] <==> line == lines[k] || line in lines[k + 1..];
  }

  class Reader {
    const parse: Parser
    const segmentBytes: nat
    var records: seq<Record>
    var complete: bool
    /** The greatest number of records held at any time. */
    ghost var peak: nat

    constructor (parse: Parser, segmentBytes: nat)
      ensures this.parse == parse && this.segmentBytes == segmentBytes
    {
      this.parse := parse;
      this.segmentBytes := segmentBytes;
      records, complete, peak := [], true, 0;
    }

    /** Sorts what has been collected and cuts it off. */
    method KeepNewest(limit: nat)
      modifies this`records
      ensures records == Newest(old(records), limit)
    {
      records := Take(Sort(records), limit);
    }

    /** Within the memory bound, the collection is as good as all of `seen`. */
    ghost predicate Represents(seen: seq<Record>, limit: nat)
      reads this
    {
      |records| < 2 * limit && peak <= 2 * limit && Newest(records, limit) == Newest(seen, limit)
    }

    /** Looks at one line. `seen` is everything selected before it. */
    method Visit(run: nat, line: seq<byte>, limit: nat, filter: Filter, ghost seen: seq<Record>)
      requires 1 <= limit && Represents(seen, limit)
      modifies this
      ensures Represents(seen + Chosen(parse, filter, run, line), limit)
      ensures complete == (old(complete) && Accept(parse, run, line).Some?)
    {
      assert seen + [] == seen;
      match Accept(parse, run, line) {
        case Some(record) =>
          if Matches(filter, record) {
            NewestGrows(records, seen, record, limit);
            records := records + [record];
          }
        case None =>
          complete := false;
      }
      if peak < |records| {
        peak := |records|;
      }
      if |records| >= limit * 2 {
        NewestOfNewest(records, limit);
        KeepNewest(limit);
      }
    }

    /** Visits the lines of one segment from its end; `done` are the lines visited before. */
    method ReadLines(run: nat, lines: seq<seq<byte>>, limit: nat, filter: Filter,
                     ghost before: seq<Record>, ghost done: seq<seq<byte>>)
      requires 1 <= limit && Represents(before + Selected(parse, filter, run, done), limit)
      modifies this
      ensures Represents(before + Selected(parse, filter, run, done + Reversed(lines)), limit)
      ensures complete == (old(complete) && Readable(parse, run, lines))
    {
      hide Newest, Accept, Chosen, Reversed, Selected, Readable;
      ghost var seen := done;
      NoLineYet(parse, run, lines, done);
      for k := |lines| downto 0
        invariant seen == done + Reversed(lines[k..])
        invariant Represents(before + Selected(parse, filter, run, seen), limit)
        invariant complete == (old(complete) && Readable(parse, run, lines[k..]))
      {
        Visit(run, lines[k], limit, filter, before + Selected(parse, filter, run, seen));
        SelectOne(parse, filter, run, seen, lines[k], before);
        OneLineBack(parse, run, lines, k, done);
        seen := seen + [lines[k]];
      }
      assert lines[0..] == lines;
    }

    /** Visits the lines of one run and leaves at most `limit` records. */
    method ReadRun(run: Run, limit: nat, filter: Filter, ghost before: seq<Record>) returns (ok: bool)
      requires 1 <= limit && Represents(before, limit)
      modifies this
      ensures ok <==> !Oversized([run], segmentBytes)
      ensures ok ==> Represents(before + Selected(parse, filter, run.id, Visited(run.segments)), limit)
      ensures ok ==> complete == (old(complete) && Readable(parse, run.id, AllLines(run.segments)))
    {
      hide Sort, Accept, Selected, Lines, AllLines;
      ghost var seen: seq<seq<byte>> := [];
      SelectNone(parse, filter, run.id, before);
      for index := 0 to 4
        invariant seen == VisitedBelow(run.segments, index)
        invariant forall i :: 0 <= i < index && i in run.segments ==> |run.segments[i]| <= segmentBytes
        invariant Represents(before + Selected(parse, filter, run.id, seen), limit)
        invariant complete == (old(complete) && Readable(parse, run.id, seen))
      {
        if index in run.segments {
          if |run.segments[index]| > segmentBytes {
            assert run in [run] && 0 <= index < 4;
            return false;
          }
          var lines := Lines(run.segments[index]);
          ReadLines(run.id, lines, limit, filter, before, seen);
          ReversedMembers(lines);
          seen := seen + Reversed(lines);
        } else {
          assert seen + Reversed(Kept(run.segments, index)) == seen;
        }
      }
      VisitedBackwards(run.segments);
      KeepNewest(limit);
      NewestOfNewest(before + Selected(parse, filter, run.id, seen), limit);
      ok := true;
    }

    method ReadFiltered(runs: seq<Run>, limit: nat, filter: Filter) returns (result: Result<History, ReadError>)
      modifies this
      ensures !(1 <= limit <= MAX_LIMIT) ==> result == Err(LimitOutOfRange)
      ensures 1 <= limit <= MAX_LIMIT && Oversized(runs, segmentBytes) ==> result == Err(OversizedSegment)
      ensures 1 <= limit <= MAX_LIMIT && !Oversized(runs, segmentBytes) ==>
                && result.Ok?
                && result.value.records == Reversed(Newest(AllSelected(parse, filter, runs), limit))
                && (result.value.complete <==>
                    forall run :: run in runs ==> Readable(parse, run.id, AllLines(run.segments)))
                && peak <= 2 * limit
    {
      hide Sort, Accept, Selected, Lines, AllLines, Visited;
      if !(1 <= limit <= MAX_LIMIT) {
        return Err(LimitOutOfRange);
      }
      records, complete, peak := [], true, 0;
      for i := 0 to |runs|
        invariant !Oversized(runs[..i], segmentBytes)
        invariant Represents(AllSelected(parse, filter, runs[..i]), limit)
        invariant complete <==> forall run :: run in runs[..i] ==> Readable(parse, run.id, AllLines(run.segments))
      {
        var run := runs[i];
        assert runs[..i + 1] == runs[..i] + [run];
        ghost var before := AllSelected(parse, filter, runs[..i]);
        var ok := ReadRun(run, limit, filter, before);
        if !ok {
          assert Oversized(runs, segmentBytes);
          return Err(OversizedSegment);
        }
        assert runs[..i + 1][..i] == runs[..i];
      }
      assert runs[..|runs|] == runs;
      KeepNewest(limit);
      NewestOfNewest(AllSelected(parse, filter, runs), limit);
      result := Ok(History(Reversed(records), complete));
    }
  }
}
