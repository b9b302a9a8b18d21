/**
 Copy mode: a frozen text, wrapped into the rows of a pane. Selections and searches work on the
 text itself, across the places where it has been wrapped.
 */
module CopyMode {
  import opened Basics
  import opened Options

  /** A piece of text: a character and the number of cells it takes (none for a combining mark),
      or the end of a logical line. */
  datatype Symbol = Char(code: nat, width: nat) | Newline

  type Glyph = s: Symbol | s.Char? witness Char(0, 0)

  type Line = seq<Glyph>

  /** A physical row; a soft row is continued by the next one. */
  datatype Row = Row(glyphs: Line, soft: bool)

  type Page = seq<Row>

  datatype Position = Position(row: nat, column: nat)

  predicate Before(a: Position, b: Position) {
    a.row < b.row || (a.row == b.row && a.column < b.column)
  }

  // ----- The text of a page -----

  function RowText(row: Row): seq<Symbol> {
    if row.soft then row.glyphs else row.glyphs + [Newline]
  }

  /** The logical text: the rows, joined where they have been wrapped. */
  function Text(page: Page): seq<Symbol> {
    if page == [] then [] else Text(page[..|page| - 1]) + RowText(page[|page| - 1])
  }

  /** Where a position is in the logical text. */
  function Offset(page: Page, p: Position): nat
    requires p.row <= |page|
  {
    |Text(page[..p.row])| + p.column
  }

  predicate OnGlyph(page: Page, p: Position) {
    p.row < |page| && p.column < |page[p.row].glyphs|
  }

  /** A position the cursor can take: on a glyph, or at the start of an empty row. */
  predicate Reachable(page: Page, p: Position) {
    p.row < |page| && (p.column < |page[p.row].glyphs| || (page[p.row].glyphs == [] && p.column == 0))
  }

  lemma {:induction false} TextGrows(page: Page, r: nat, s: nat)
    requires r <= s <= |page|
    ensures Text(page[..r]) <= Text(page[..s])
    decreases s - r
  {
    if r < s {
      TextGrows(page, r, s - 1);
      assert page[..s][..s - 1] == page[..s - 1];
    }
  }

  lemma RowInText(page: Page, r: nat)
    requires r < |page|
    ensures Text(page[..r + 1]) == Text(page[..r]) + RowText(page[r])
    ensures Text(page[..r]) + RowText(page[r]) <= Text(page)
  {
    assert page[..r + 1][..r] == page[..r];
    TextGrows(page, r + 1, |page|);
    assert page[..|page|] == page;
  }

  /** What the text holds at the offset of a glyph. */
  lemma {:induction false} GlyphInText(page: Page, p: Position)
    requires OnGlyph(page, p)
    ensures Offset(page, p) < |Text(page[..p.row + 1])| <= |Text(page)|
    ensures Text(page)[Offset(page, p)] == page[p.row].glyphs[p.column]
  {
    hide Text;
    RowInText(page, p.row);
  }

  lemma OffsetsIncrease(page: Page, p: Position, q: Position)
    requires OnGlyph(page, p) && q.row < |page| && Before(p, q)
    ensures Offset(page, p) < Offset(page, q)
  {
    hide Text;
    if p.row < q.row {
      GlyphInText(page, p);
      TextGrows(page, p.row + 1, q.row);
    }
  }

  lemma NoText()
    ensures Text([]) == []
  {
  }

  lemma TextOfAppended(page: Page, row: Row)
    ensures Text(page + [row]) == Text(page) + RowText(row)
  {
    assert (page + [row])[..|page|] == page;
  }

  /** Every character of the text is at one position. */
  lemma {:induction false} PositionOf(page: Page, at: nat) returns (p: Position)
    requires at < |Text(page)| && Text(page)[at].Char?
    ensures OnGlyph(page, p) && Offset(page, p) == at
  {
    hide Text;
    NoText();
    var init, last := page[..|page| - 1], page[|page| - 1];
    assert page == init + [last];
    TextOfAppended(init, last);
    if at < |Text(init)| {
      p := PositionOf(init, at);
      assert page[..p.row] == init[..p.row];
    } else {
      p := Position(|init|, at - |Text(init)|);
      assert page[..p.row] == init;
    }
  }

  // ----- Wrapping -----

  /** The rows already full, the row being filled, and the cells used in it. */
  datatype Wrap = Wrap(rows: Page, row: Line, cells: nat)

  predicate Breaks(wrap: Wrap, glyph: Glyph, width: nat) {
    glyph.width > 0 && wrap.cells > 0 && wrap.cells + glyph.width > width
  }

  function Placed(wrap: Wrap, glyph: Glyph, width: nat): Wrap {
    if Breaks(wrap, glyph, width) then Wrap(wrap.rows + [Row(wrap.row, true)], [glyph], glyph.width)
    else Wrap(wrap.rows, wrap.row + [glyph], wrap.cells + glyph.width)
  }

  function Wrapping(line: Line, width: nat): Wrap {
    if line == [] then Wrap([], [], 0)
    else Placed(Wrapping(line[..|line| - 1], width), line[|line| - 1], width)
  }

  function RowsOf(line: Line, width: nat): Page {
    var wrap := Wrapping(line, width);
    wrap.rows + [Row(wrap.row, false)]
  }

  function Wrapped(lines: seq<Line>, width: nat): Page {
    if lines == [] then [] else Wrapped(lines[..|lines| - 1], width) + RowsOf(lines[|lines| - 1], width)
  }

  /** The lines, each with its newline. */
  function Document(lines: seq<Line>): seq<Symbol> {
    if lines == [] then [] else Document(lines[..|lines| - 1]) + lines[|lines| - 1] + [Newline]
  }

  function Cells(line: Line): nat {
    if line == [] then 0 else Cells(line[..|line| - 1]) + line[|line| - 1].width
  }

  /** At most one of the glyphs takes any cells. */
  ghost predicate SingleGlyph(row: Line) {
    forall i, j :: 0 <= i < j < |row| ==> row[i].width == 0 || row[j].width == 0
  }

  ghost predicate FitsIn(row: Line, width: nat) {
    Cells(row) <= width || SingleGlyph(row)
  }

  predicate Leads(row: Line) {
    row != [] && row[0].width > 0
  }

  /** A soft row is not empty, and the row that continues it starts with a glyph that takes cells. */
  ghost predicate WellWrapped(page: Page) {
    forall r :: 0 <= r < |page| && page[r].soft ==>
      page[r].glyphs != [] && (r + 1 < |page| ==> Leads(page[r + 1].glyphs))
  }

  ghost predicate WrapValid(wrap: Wrap, width: nat) {
    && wrap.cells == Cells(wrap.row)
    && FitsIn(wrap.row, width)
    && (wrap.rows != [] ==> Leads(wrap.row))
    && (forall r :: 0 <= r < |wrap.rows| ==>
      wrap.rows[r].soft && wrap.rows[r].glyphs != [] && FitsIn(wrap.rows[r].glyphs, width))
    && (forall r :: 0 < r < |wrap.rows| ==> Leads(wrap.rows[r].glyphs))
  }

  lemma NoCells(line: Line)
    requires Cells(line) == 0
    ensures forall i :: 0 <= i < |line| ==> line[i].width == 0
  {
    if line != [] {
      NoCells(line[..|line| - 1]);
    }
  }

  lemma CellsPlus(line: Line, glyph: Glyph)
    ensures Cells(line + [glyph]) == Cells(line) + glyph.width
  {
    assert (line + [glyph])[..|line|] == line;
  }

  lemma PlacedFits(wrap: Wrap, glyph: Glyph, width: nat)
    requires wrap.cells == Cells(wrap.row) && FitsIn(wrap.row, width)
    ensures
      var placed := Placed(wrap, glyph, width);
      placed.cells == Cells(placed.row) && FitsIn(placed.row, width)
  {
    if Breaks(wrap, glyph, width) {
      CellsPlus([], glyph);
      assert [] + [glyph] == [glyph];
    } else {
      CellsPlus(wrap.row, glyph);
      if wrap.cells == 0 {
        NoCells(wrap.row);
      }
    }
  }

  lemma PlacedKeepsValid(wrap: Wrap, glyph: Glyph, width: nat)
    requires WrapValid(wrap, width)
    ensures WrapValid(Placed(wrap, glyph, width), width)
  {
    hide Cells, FitsIn;
    PlacedFits(wrap, glyph, width);
    EmptyRow();
  }

  lemma EmptyRow()
    ensures Cells([]) == 0
  {
  }

  lemma {:induction false} WrappingIsValid(line: Line, width: nat)
    ensures WrapValid(Wrapping(line, width), width)
  {
    hide WrapValid, Placed;
    if line == [] {
      NothingIsValid(width);
    } else {
      WrappingIsValid(line[..|line| - 1], width);
      PlacedKeepsValid(Wrapping(line[..|line| - 1], width), line[|line| - 1], width);
    }
  }

  lemma NothingIsValid(width: nat)
    ensures WrapValid(Wrap([], [], 0), width)
  {
  }

  lemma PlacedAddsGlyph(wrap: Wrap, glyph: Glyph, width: nat)
    ensures
      var placed := Placed(wrap, glyph, width);
      Text(placed.rows) + placed.row == Text(wrap.rows) + wrap.row + [glyph]
  {
    assert (wrap.rows + [Row(wrap.row, true)])[..|wrap.rows|] == wrap.rows;
  }

  lemma {:induction false} WrappingKeepsText(line: Line, width: nat)
    ensures Text(Wrapping(line, width).rows) + Wrapping(line, width).row == line
  {
    hide Placed, Text;
    if line == [] {
      NoText();
    } else {
      WrappingKeepsText(line[..|line| - 1], width);
      PlacedAddsGlyph(Wrapping(line[..|line| - 1], width), line[|line| - 1], width);
      assert line == line[..|line| - 1] + [line[|line| - 1]];
    }
  }

  lemma {:induction false} TextOfJoined(a: Page, b: Page)
    ensures Text(a + b) == Text(a) + Text(b)
  {
    hide Text, RowText;
    if b == [] {
      NoText();
      assert a + b == a;
    } else {
      var init, last := b[..|b| - 1], b[|b| - 1];
      TextOfJoined(a, init);
      TextOfAppended(a + init, last);
      TextOfAppended(init, last);
      Regroup(Text(a), Text(init), RowText(last));
      assert a + b == a + init + [last];
      assert b == init + [last];
    }
  }

  lemma RowsKeepLine(line: Line, width: nat)
    ensures Text(RowsOf(line, width)) == line + [Newline]
  {
    hide Wrapping;
    var wrap := Wrapping(line, width);
    WrappingKeepsText(line, width);
    assert (wrap.rows + [Row(wrap.row, false)])[..|wrap.rows|] == wrap.rows;
  }

  /** Wrapping changes nothing in the text, whatever the width. */
  lemma {:induction false} WrappedKeepsDocument(lines: seq<Line>, width: nat)
    ensures Text(Wrapped(lines, width)) == Document(lines)
  {
    hide Text, RowsOf;
    if lines == [] {
      NoText();
    } else {
      var init, last := lines[..|lines| - 1], lines[|lines| - 1];
      WrappedKeepsDocument(init, width);
      TextOfJoined(Wrapped(init, width), RowsOf(last, width));
      RowsKeepLine(last, width);
      assert Document(init) + (last + [Newline]) == Document(init) + last + [Newline];
    }
  }

  ghost predicate RowsFit(page: Page, width: nat) {
    forall r :: 0 <= r < |page| ==> FitsIn(page[r].glyphs, width)
  }

  lemma RowsAreWellWrapped(line: Line, width: nat)
    ensures WellWrapped(RowsOf(line, width)) && RowsFit(RowsOf(line, width), width)
    ensures var rows := RowsOf(line, width); rows != [] && !rows[|rows| - 1].soft
  {
    hide Wrapping, FitsIn;
    WrappingIsValid(line, width);
  }

  lemma JoinedAreWellWrapped(a: Page, b: Page)
    requires WellWrapped(a) && WellWrapped(b) && (a != [] ==> !a[|a| - 1].soft)
    ensures WellWrapped(a + b)
  {
  }

  /** Wrapping cuts the lines into rows that fit, unless a single character is wider than the width,
      and never breaks before a combining mark. */
  lemma {:induction false} WrappedFits(lines: seq<Line>, width: nat)
    ensures WellWrapped(Wrapped(lines, width)) && RowsFit(Wrapped(lines, width), width)
    ensures var page := Wrapped(lines, width); page != [] ==> !page[|page| - 1].soft
  {
    hide RowsOf, FitsIn;
    if lines != [] {
      var init, last := lines[..|lines| - 1], lines[|lines| - 1];
      WrappedFits(init, width);
      RowsAreWellWrapped(last, width);
      JoinedAreWellWrapped(Wrapped(init, width), RowsOf(last, width));
    }
  }

  /** What is behind a full row starts with a character that does not fit behind it any more. */
  predicate Late(row: Line, next: Line, width: nat) {
    Cells(row) > 0 && next != [] && next[0].width > 0 && Cells(row) + next[0].width > width
  }

  /** Rows are broken only where the next character does not fit. */
  ghost predicate BreaksLate(page: Page, width: nat) {
    forall r :: 0 <= r < |page| && page[r].soft ==>
      r + 1 < |page| && Late(page[r].glyphs, page[r + 1].glyphs, width)
  }

  /** What follows a full row so far. */
  function Behind(wrap: Wrap, r: nat): Line
    requires r < |wrap.rows|
  {
    if r + 1 < |wrap.rows| then wrap.rows[r + 1].glyphs else wrap.row
  }

  ghost predicate LateSoFar(wrap: Wrap, width: nat) {
    && wrap.cells == Cells(wrap.row)
    && forall r :: 0 <= r < |wrap.rows| ==> Late(wrap.rows[r].glyphs, Behind(wrap, r), width)
  }

  lemma PlacedIsLate(wrap: Wrap, glyph: Glyph, width: nat)
    requires LateSoFar(wrap, width)
    ensures LateSoFar(Placed(wrap, glyph, width), width)
  {
    hide Cells;
    EmptyRow();
    CellsPlus(wrap.row, glyph);
    CellsPlus([], glyph);
    assert [] + [glyph] == [glyph];
    var placed, n := Placed(wrap, glyph, width), |wrap.rows|;
    forall r | 0 <= r < |placed.rows|
      ensures Late(placed.rows[r].glyphs, Behind(placed, r), width)
    {
      if r < n {
        assert Late(wrap.rows[r].glyphs, Behind(wrap, r), width);
      }
    }
  }

  lemma {:induction false} WrappingIsLate(line: Line, width: nat)
    ensures LateSoFar(Wrapping(line, width), width)
  {
    hide LateSoFar, Placed;
    if line == [] {
      NothingIsLate(width);
    } else {
      WrappingIsLate(line[..|line| - 1], width);
      PlacedIsLate(Wrapping(line[..|line| - 1], width), line[|line| - 1], width);
    }
  }

  lemma NothingIsLate(width: nat)
    ensures LateSoFar(Wrap([], [], 0), width)
  {
  }

  lemma RowsBreakLate(line: Line, width: nat)
    ensures BreaksLate(RowsOf(line, width), width)
    ensures var rows := RowsOf(line, width); rows != [] && !rows[|rows| - 1].soft
  {
    hide Wrapping, Late;
    WrappingIsLate(line, width);
    var wrap, rows := Wrapping(line, width), RowsOf(line, width);
    forall r | 0 <= r < |rows| && rows[r].soft
      ensures r + 1 < |rows| && Late(rows[r].glyphs, rows[r + 1].glyphs, width)
    {
      assert rows[r] == wrap.rows[r];
      assert Late(wrap.rows[r].glyphs, Behind(wrap, r), width);
    }
  }

  lemma JoinedBreakLate(a: Page, b: Page, width: nat)
    requires BreaksLate(a, width) && BreaksLate(b, width)
    ensures BreaksLate(a + b, width)
  {
    hide Late;
    forall r | 0 <= r < |a + b| && (a + b)[r].soft
      ensures r + 1 < |a + b| && Late((a + b)[r].glyphs, (a + b)[r + 1].glyphs, width)
    {
      if r < |a| {
        assert (a + b)[r] == a[r] && (a + b)[r + 1] == a[r + 1];
      } else {
        assert (a + b)[r] == b[r - |a|] && (a + b)[r + 1] == b[r - |a| + 1];
      }
    }
  }

  lemma {:induction false} WrappedBreaksLate(lines: seq<Line>, width: nat)
    ensures BreaksLate(Wrapped(lines, width), width)
  {
    hide RowsOf, Late, BreaksLate;
    if lines == [] {
      NoRows(width);
    } else {
      WrappedBreaksLate(lines[..|lines| - 1], width);
      RowsBreakLate(lines[|lines| - 1], width);
      JoinedBreakLate(Wrapped(lines[..|lines| - 1], width), RowsOf(lines[|lines| - 1], width), width);
    }
  }

  lemma NoRows(width: nat)
    ensures BreaksLate([], width)
  {
  }

  /** The rows of a page are as full as the width allows, and not fuller. */
  ghost predicate Tight(page: Page, width: nat) {
    RowsFit(page, width) && BreaksLate(page, width)
  }

  /** Tight rows of the same text have equal first rows: a shorter one would end with a character
      that fits behind it, or with a newline where the other has none. */
  lemma FirstRowsAgree(a: Page, b: Page, width: nat)
    requires a != [] && b != [] && Text(a) == Text(b) && Tight(a, width) && Tight(b, width)
    ensures a[0] == b[0]
  {
    hide Text, Cells, FitsIn;
    FirstRowOfText(a);
    FirstRowOfText(b);
    if |a[0].glyphs| < |b[0].glyphs| {
      NotShorter(a, b, width);
    } else if |b[0].glyphs| < |a[0].glyphs| {
      NotShorter(b, a, width);
    } else {
      assert a[0].glyphs == Text(a)[..|a[0].glyphs|] == b[0].glyphs;
      if a[0].soft {
        BehindSoftRow(a, width);
      }
      if b[0].soft {
        BehindSoftRow(b, width);
      }
    }
  }

  lemma FirstRowOfText(page: Page)
    requires page != []
    ensures Text(page) == RowText(page[0]) + Text(page[1..])
    ensures page[0].glyphs <= Text(page)
    ensures !page[0].soft ==> |page[0].glyphs| < |Text(page)| && Text(page)[|page[0].glyphs|] == Newline
  {
    hide Text;
    assert page == [page[0]] + page[1..];
    TextOfJoined([page[0]], page[1..]);
    NoText();
    TextOfAppended([], page[0]);
    assert [] + [page[0]] == [page[0]] && [] + RowText(page[0]) == RowText(page[0]);
  }

  lemma BehindSoftRow(page: Page, width: nat)
    requires page != [] && page[0].soft && BreaksLate(page, width)
    ensures |page| > 1 && Late(page[0].glyphs, page[1].glyphs, width) && page[1].glyphs != []
    ensures |page[0].glyphs| < |Text(page)| && Text(page)[|page[0].glyphs|] == page[1].glyphs[0]
  {
    hide Text;
    FirstRowOfText(page);
    FirstRowOfText(page[1..]);
    assert page[1..][0] == page[1];
  }

  lemma NotShorter(a: Page, b: Page, width: nat)
    requires a != [] && b != [] && Text(a) == Text(b) && Tight(a, width) && Tight(b, width)
    ensures |b[0].glyphs| <= |a[0].glyphs|
  {
    hide Text, Cells;
    FirstRowOfText(a);
    FirstRowOfText(b);
    var n := |a[0].glyphs|;
    if n < |b[0].glyphs| {
      assert b[0].glyphs[n] == Text(a)[n];
      if a[0].soft {
        BehindSoftRow(a, width);
        assert a[0].glyphs == b[0].glyphs[..n];
        TooFull(b[0].glyphs, n, width);
      }
    }
  }

  lemma TooFull(row: Line, n: nat, width: nat)
    requires n < |row| && Cells(row[..n]) > 0 && row[n].width > 0 && Cells(row[..n]) + row[n].width > width
    ensures !FitsIn(row, width)
  {
    CellsPlus(row[..n], row[n]);
    assert row[..n] + [row[n]] == row[..n + 1];
    CellsIncrease(row, n + 1, |row|);
    assert row[..|row|] == row;
    SomeCells(row[..n]);
    var i :| 0 <= i < n && row[..n][i].width > 0;
    assert row[i].width > 0;
  }

  lemma SomeCells(line: Line)
    requires Cells(line) > 0
    ensures exists i :: 0 <= i < |line| && line[i].width > 0
  {
    if line[|line| - 1].width == 0 {
      SomeCells(line[..|line| - 1]);
      var i :| 0 <= i < |line| - 1 && line[..|line| - 1][i].width > 0;
      assert line[i].width > 0;
    }
  }

  lemma {:induction false} TightIsUnique(a: Page, b: Page, width: nat)
    requires Text(a) == Text(b) && Tight(a, width) && Tight(b, width)
    ensures a == b
    decreases |a|
  {
    hide Text, RowText, FitsIn, Late;
    if a == [] || b == [] {
      SomeText(a, width);
      SomeText(b, width);
    } else {
      FirstRowsAgree(a, b, width);
      FirstRowOfText(a);
      FirstRowOfText(b);
      assert Text(a[1..]) == Text(a)[|RowText(a[0])|..] == Text(b[1..]);
      TailIsTight(a, width);
      TailIsTight(b, width);
      TightIsUnique(a[1..], b[1..], width);
      assert a == [a[0]] + a[1..] && b == [b[0]] + b[1..];
    }
  }

  lemma TailIsTight(page: Page, width: nat)
    requires page != [] && Tight(page, width)
    ensures Tight(page[1..], width)
  {
    hide FitsIn, Late;
    var rest := page[1..];
    forall r | 0 <= r < |rest|
      ensures FitsIn(rest[r].glyphs, width)
      ensures rest[r].soft ==> r + 1 < |rest| && Late(rest[r].glyphs, rest[r + 1].glyphs, width)
    {
      assert rest[r] == page[r + 1];
    }
  }

  lemma SomeText(page: Page, width: nat)
    requires BreaksLate(page, width)
    ensures Text(page) == [] <==> page == []
  {
    hide Text;
    NoText();
    if page != [] {
      FirstRowOfText(page);
      if page[0].soft {
        BehindSoftRow(page, width);
      }
    }
  }

  /** The rows are fixed by the text and the width: they are the only ones that hold the lines, fit,
      unless a single character is wider than the width, and are broken only where the next character
      does not fit. */
  lemma WrappedIsUnique(lines: seq<Line>, width: nat, page: Page)
    ensures page == Wrapped(lines, width) <==> Text(page) == Document(lines) && Tight(page, width)
  {
    hide Text, Tight, Wrapped, Document;
    WrappedKeepsDocument(lines, width);
    WrappedIsTight(lines, width);
    if Text(page) == Document(lines) && Tight(page, width) {
      TightIsUnique(page, Wrapped(lines, width), width);
    }
  }

  lemma WrappedIsTight(lines: seq<Line>, width: nat)
    ensures Tight(Wrapped(lines, width), width)
  {
    hide Wrapped, FitsIn, Late;
    WrappedFits(lines, width);
    WrappedBreaksLate(lines, width);
  }

  // ----- Selections -----

  /** The first place at or after one that is not held by a combining mark. */
  function SkipMarks(text: seq<Symbol>, at: nat): (end: nat)
    requires at <= |text|
    ensures at <= end <= |text|
    ensures end == |text| || text[end].Newline? || text[end].width > 0
    ensures forall i :: at <= i < end ==> text[i].Char? && text[i].width == 0
    decreases |text| - at
  {
    if at < |text| && text[at].Char? && text[at].width == 0 then SkipMarks(text, at + 1) else at
  }

  /** The end, in the text, of the character at an offset and the marks on it. */
  function EndOf(text: seq<Symbol>, at: nat): (end: nat)
    ensures at <= end && (at <= |text| ==> end <= |text|)
  {
    if at < |text| && text[at].Char? then SkipMarks(text, at + 1) else at
  }

  /** The text between two positions of a page, both included. */
  function Selected(page: Page, start: Position, end: Position): seq<Symbol>
    requires !Before(end, start) && end.row < |page|
  {
    var from := |Text(page[..start.row])| + Min(start.column, |page[start.row].glyphs|);
    var line := page[end.row].glyphs;
    var to := |Text(page[..end.row])| + SkipMarks(line, Min(end.column + 1, |line|));
    SelectedBounds(page, start, end);
    Text(page)[from..to]
  }

  lemma SelectedBounds(page: Page, start: Position, end: Position)
    requires !Before(end, start) && end.row < |page|
    ensures
      var from := |Text(page[..start.row])| + Min(start.column, |page[start.row].glyphs|);
      var line := page[end.row].glyphs;
      from <= |Text(page[..end.row])| + SkipMarks(line, Min(end.column + 1, |line|)) <= |Text(page)|
  {
    hide Text;
    RowInText(page, start.row);
    RowInText(page, end.row);
    if start.row < end.row {
      TextGrows(page, start.row + 1, end.row);
    }
  }

  predicate EndsMarks(text: seq<Symbol>, at: nat) {
    at < |text| ==> text[at].Newline? || text[at].width > 0
  }

  lemma {:induction false} SkipMarksInside(text: seq<Symbol>, line: Line, before: nat, at: nat)
    requires at <= |line| && before + |line| <= |text| && text[before..before + |line|] == line
    requires EndsMarks(text, before + |line|)
    ensures SkipMarks(text, before + at) == before + SkipMarks(line, at)
    decreases |line| - at
  {
    if at < |line| {
      assert text[before..before + |line|][at] == line[at];
      SkipMarksInside(text, line, before, at + 1);
    }
  }

  /** The marks on a character do not go on into the next row. */
  lemma {:induction false} MarksEndWithRow(page: Page, r: nat)
    requires WellWrapped(page) && r < |page| && page[r].glyphs != []
    ensures |Text(page[..r])| + |page[r].glyphs| <= |Text(page)|
    ensures EndsMarks(Text(page), |Text(page[..r])| + |page[r].glyphs|)
  {
    hide Text;
    RowInText(page, r);
    if page[r].soft {
      if r + 1 < |page| {
        GlyphInText(page, Position(r + 1, 0));
      } else {
        assert page[..r + 1] == page;
      }
    }
  }

  /** A selection between two cursor positions is one slice of the text: from the first character
      to the last one, with the combining marks on that. */
  lemma SelectionIsSlice(page: Page, start: Position, end: Position)
    requires WellWrapped(page) && Reachable(page, start) && Reachable(page, end) && !Before(end, start)
    ensures Offset(page, start) <= Offset(page, end) <= |Text(page)|
    ensures Selected(page, start, end)
         == Text(page)[Offset(page, start)..EndOf(Text(page), Offset(page, end))]
  {
    hide Text, WellWrapped, SkipMarks, EndOf;
    CursorsIncrease(page, start, end);
    SelectionEnd(page, end);
  }

  lemma {:induction false} SelectionEnd(page: Page, end: Position)
    requires WellWrapped(page) && Reachable(page, end)
    ensures
      var line := page[end.row].glyphs;
      && Offset(page, end) < |Text(page)|
      && |Text(page[..end.row])| + SkipMarks(line, Min(end.column + 1, |line|)) == EndOf(Text(page), Offset(page, end))
  {
    hide Text, WellWrapped, EndOf;
    if page[end.row].glyphs == [] {
      EmptyRowEnd(page, end);
    } else {
      GlyphEnd(page, end);
    }
  }

  lemma {:induction false} EmptyRowEnd(page: Page, p: Position)
    requires WellWrapped(page) && p.row < |page| && page[p.row].glyphs == [] && p.column == 0
    ensures Offset(page, p) < |Text(page)| && EndOf(Text(page), Offset(page, p)) == Offset(page, p)
  {
    hide Text;
    RowInText(page, p.row);
    assert Text(page)[Offset(page, p)] == Newline;
  }

  lemma {:induction false} GlyphEnd(page: Page, p: Position)
    requires WellWrapped(page) && OnGlyph(page, p)
    ensures Offset(page, p) < |Text(page)|
    ensures EndOf(Text(page), Offset(page, p))
         == |Text(page[..p.row])| + SkipMarks(page[p.row].glyphs, p.column + 1)
  {
    hide Text, WellWrapped, SkipMarks;
    RowGlyphsInText(page, p.row);
    GlyphInText(page, p);
    MarksEndWithRow(page, p.row);
    SkipMarksInside(Text(page), page[p.row].glyphs, |Text(page[..p.row])|, p.column + 1);
  }

  lemma RowGlyphsInText(page: Page, r: nat)
    requires r < |page|
    ensures
      var before := |Text(page[..r])|;
      before + |page[r].glyphs| <= |Text(page)|
      && Text(page)[before..before + |page[r].glyphs|] == page[r].glyphs
  {
    hide Text;
    RowInText(page, r);
  }

  /** Cursor positions are in the order of the text. */
  lemma CursorsIncrease(page: Page, p: Position, q: Position)
    requires WellWrapped(page) && Reachable(page, p) && Reachable(page, q)
    ensures Before(p, q) ==> Offset(page, p) < Offset(page, q)
    ensures Before(q, p) ==> Offset(page, q) < Offset(page, p)
  {
    CursorIncreases(page, p, q);
    CursorIncreases(page, q, p);
  }

  lemma CursorIncreases(page: Page, p: Position, q: Position)
    requires WellWrapped(page) && Reachable(page, p) && Reachable(page, q)
    ensures Before(p, q) ==> Offset(page, p) < Offset(page, q)
  {
    hide Text;
    if Before(p, q) {
      if page[p.row].glyphs == [] {
        RowInText(page, p.row);
        TextGrows(page, p.row + 1, q.row);
      } else {
        OffsetsIncrease(page, p, q);
      }
    }
  }

  function Earlier(p: Position, q: Position): Position {
    if Before(q, p) then q else p
  }

  function Later(p: Position, q: Position): Position {
    if Before(q, p) then p else q
  }

  /** What is copied when the selection goes from one position to another, in either direction. */
  function Copied(page: Page, p: Position, q: Position): seq<Symbol>
    requires p.row < |page| && q.row < |page|
  {
    Selected(page, Earlier(p, q), Later(p, q))
  }

  /** The part of a text from one of two characters to the other one and the marks on it. */
  function Excerpt(text: seq<Symbol>, a: nat, b: nat): seq<Symbol>
    requires a <= |text| && b <= |text|
  {
    text[Min(a, b)..EndOf(text, if a < b then b else a)]
  }

  lemma CopyIsExcerpt(page: Page, p: Position, q: Position)
    requires WellWrapped(page) && Reachable(page, p) && Reachable(page, q)
    ensures Offset(page, p) <= |Text(page)| && Offset(page, q) <= |Text(page)|
    ensures Copied(page, p, q) == Excerpt(Text(page), Offset(page, p), Offset(page, q))
  {
    hide Text, WellWrapped, Selected, EndOf;
    if Before(q, p) {
      CursorsIncrease(page, q, p);
      SelectionIsSlice(page, q, p);
    } else {
      CursorsIncrease(page, p, q);
      SelectionIsSlice(page, p, q);
    }
  }

  /** What is copied is a slice of the lines. It depends neither on the width at which they have been
      wrapped nor on the direction of the selection: only on which two characters are its ends. */
  lemma CopiesIgnoreWrapping(lines: seq<Line>, width: nat, p: Position, q: Position)
    requires Reachable(Wrapped(lines, width), p) && Reachable(Wrapped(lines, width), q)
    ensures
      var page := Wrapped(lines, width);
      && Offset(page, p) <= |Document(lines)| && Offset(page, q) <= |Document(lines)|
      && Copied(page, p, q) == Copied(page, q, p)
      && Copied(page, p, q) == Excerpt(Document(lines), Offset(page, p), Offset(page, q))
  {
    hide Text, Wrapped, Document, WellWrapped, Selected, EndOf;
    var page := Wrapped(lines, width);
    WrappedKeepsDocument(lines, width);
    WrappedFits(lines, width);
    CopyIsExcerpt(page, p, q);
    CopyIsExcerpt(page, q, p);
  }

  // ----- Searches -----

  /** The needle starts at a position; it may go on over soft rows, never over a newline. */
  predicate IsMatch(page: Page, needle: Line, p: Position) {
    OnGlyph(page, p) && Offset(page, p) + |needle| <= |Text(page)|
    && Text(page)[Offset(page, p)..Offset(page, p) + |needle|] == needle
  }

  /** The matches that start before a place of the text. */
  ghost function MatchesBefore(page: Page, needle: Line, bound: nat): iset<Position> {
    iset p | IsMatch(page, needle, p) && Offset(page, p) < bound
  }

  ghost function Matches(page: Page, needle: Line): iset<Position> {
    iset p | IsMatch(page, needle, p)
  }

  ghost predicate Least(found: Option<Position>, among: iset<Position>) {
    match found
    case None => among == iset{}
    case Some(p) => p in among && forall q <- among :: !Before(q, p)
  }

  ghost predicate Greatest(found: Option<Position>, among: iset<Position>) {
    match found
    case None => among == iset{}
    case Some(p) => p in among && forall q <- among :: !Before(p, q)
  }

  ghost function After(cursor: Position, among: iset<Position>): iset<Position> {
    iset p | p in among && Before(cursor, p)
  }

  ghost function Until(cursor: Position, among: iset<Position>): iset<Position> {
    iset p | p in among && Before(p, cursor)
  }

  /** What one scan over the rows remembers. */
  datatype Hits = Hits(first: Option<Position>, last: Option<Position>,
                       next: Option<Position>, previous: Option<Position>)

  ghost predicate HitsOf(hits: Hits, among: iset<Position>, cursor: Position) {
    && Least(hits.first, among) && Greatest(hits.last, among)
    && Least(hits.next, After(cursor, among)) && Greatest(hits.previous, Until(cursor, among))
  }

  function Noted(hits: Hits, p: Position, cursor: Position): Hits {
    Hits(if hits.first.None? then Some(p) else hits.first,
         Some(p),
         if Before(cursor, p) && hits.next.None? then Some(p) else hits.next,
         if Before(p, cursor) then Some(p) else hits.previous)
  }

  lemma NotedAddsLast(hits: Hits, among: iset<Position>, p: Position, cursor: Position)
    requires HitsOf(hits, among, cursor) && forall q <- among :: Before(q, p)
    ensures HitsOf(Noted(hits, p, cursor), among + iset{p}, cursor)
  {
  }

  lemma NextMatch(page: Page, needle: Line, p: Position)
    requires IsMatch(page, needle, p)
    ensures MatchesBefore(page, needle, Offset(page, p) + 1)
         == MatchesBefore(page, needle, Offset(page, p)) + iset{p}
    ensures forall q <- MatchesBefore(page, needle, Offset(page, p)) :: Before(q, p)
  {
    hide Text;
    forall q | IsMatch(page, needle, q)
      ensures Before(q, p) ==> Offset(page, q) < Offset(page, p)
      ensures Before(p, q) ==> Offset(page, p) < Offset(page, q)
    {
      if Before(q, p) {
        OffsetsIncrease(page, q, p);
      }
      if Before(p, q) {
        OffsetsIncrease(page, p, q);
      }
    }
  }

  /** Positions of successive characters of the text. */
  ghost predicate Located(page: Page, base: nat, positions: seq<Position>) {
    forall i :: 0 <= i < |positions| ==>
      OnGlyph(page, positions[i]) && Offset(page, positions[i]) == base + i
  }

  lemma NoMatchBetween(page: Page, needle: Line, from: nat, to: nat)
    requires from <= to
    requires forall p :: IsMatch(page, needle, p) ==> !(from <= Offset(page, p) < to)
    ensures MatchesBefore(page, needle, from) == MatchesBefore(page, needle, to)
  {
  }

  /** No match starts so near to the end of its line that the needle would not fit. */
  lemma NoMatchAtLineEnd(page: Page, needle: Line, end: nat, p: Position)
    requires IsMatch(page, needle, p)
    requires end == |Text(page)| || (end < |Text(page)| && Text(page)[end].Newline?)
    ensures !(Offset(page, p) <= end < Offset(page, p) + |needle|)
  {
    hide Text;
    if Offset(page, p) <= end < Offset(page, p) + |needle| {
      MatchedSymbol(page, needle, p, end - Offset(page, p));
    }
  }

  lemma MatchedSymbol(page: Page, needle: Line, p: Position, i: nat)
    requires IsMatch(page, needle, p) && i < |needle|
    ensures Offset(page, p) + i < |Text(page)| && Text(page)[Offset(page, p) + i] == needle[i]
  {
    hide Text;
    assert Text(page)[Offset(page, p)..Offset(page, p) + |needle|][i] == Text(page)[Offset(page, p) + i];
  }

  /** The matches in one logical line, found in its text. */
  method ScanLine(page: Page, needle: Line, cursor: Position, before: Hits, text: Line,
                  positions: seq<Position>, ghost base: nat)
    returns (hits: Hits)
    requires needle != [] && |positions| == |text| && Located(page, base, positions)
    requires base + |text| <= |Text(page)| && Text(page)[base..base + |text|] == text
    requires base + |text| < |Text(page)| ==> Text(page)[base + |text|].Newline?
    requires HitsOf(before, MatchesBefore(page, needle, base), cursor)
    ensures HitsOf(hits, MatchesBefore(page, needle, base + |text| + 1), cursor)
  {
    hide Text, HitsOf;
    hits := before;
    var column := 0;
    while column + |needle| <= |text|
      invariant 0 <= column <= |text|
      invariant HitsOf(hits, MatchesBefore(page, needle, base + column), cursor)
    {
      var position := positions[column];
      WindowIsMatch(page, needle, text, base, column, position);
      if text[column..column + |needle|] == needle {
        NextMatch(page, needle, position);
        NotedAddsLast(hits, MatchesBefore(page, needle, base + column), position, cursor);
        hits := Noted(hits, position, cursor);
      } else {
        OnlyThere(page, needle, position);
      }
      column := column + 1;
    }
    forall p | IsMatch(page, needle, p)
      ensures !(base + column <= Offset(page, p) < base + |text| + 1)
    {
      NoMatchAtLineEnd(page, needle, base + |text|, p);
    }
    NoMatchBetween(page, needle, base + column, base + |text| + 1);
  }

  lemma WindowIsMatch(page: Page, needle: Line, text: Line, base: nat, column: nat, p: Position)
    requires base + |text| <= |Text(page)| && Text(page)[base..base + |text|] == text
    requires column + |needle| <= |text| && OnGlyph(page, p) && Offset(page, p) == base + column
    ensures text[column..column + |needle|] == needle <==> IsMatch(page, needle, p)
  {
    hide Text;
    assert Text(page)[base + column..base + column + |needle|]
        == Text(page)[base..base + |text|][column..column + |needle|];
  }

  lemma OnlyThere(page: Page, needle: Line, p: Position)
    requires OnGlyph(page, p) && !IsMatch(page, needle, p)
    ensures MatchesBefore(page, needle, Offset(page, p)) == MatchesBefore(page, needle, Offset(page, p) + 1)
  {
    hide Text;
    forall q | IsMatch(page, needle, q)
      ensures Offset(page, q) != Offset(page, p)
    {
      if Before(q, p) {
        OffsetsIncrease(page, q, p);
      } else if Before(p, q) {
        OffsetsIncrease(page, p, q);
      }
    }
    NoMatchBetween(page, needle, Offset(page, p), Offset(page, p) + 1);
  }

  /** The rows whose text has been gathered but not yet searched: they hold one line so far. */
  ghost predicate Gathered(page: Page, row: nat, base: nat, text: Line, positions: seq<Position>) {
    && row <= |page| && |positions| == |text|
    && base + |text| == |Text(page[..row])|
    && Text(page[..row])[base..] == text
    && Located(page, base, positions)
  }

  function RowPositions(row: nat, length: nat): seq<Position> {
    seq(length, (column: nat) => Position(row, column))
  }

  lemma GatherRow(page: Page, row: nat, base: nat, text: Line, positions: seq<Position>)
    requires row < |page| && Gathered(page, row, base, text, positions)
    ensures
      var text', positions' := text + page[row].glyphs, positions + RowPositions(row, |page[row].glyphs|);
      && base + |text'| <= |Text(page)| && Text(page)[base..base + |text'|] == text'
      && |positions'| == |text'| && Located(page, base, positions')
      && (page[row].soft ==> Gathered(page, row + 1, base, text', positions'))
      && (page[row].soft || (base + |text'| < |Text(page)| && Text(page)[base + |text'|].Newline?
        && |Text(page[..row + 1])| == base + |text'| + 1))
  {
    hide Text;
    RowInText(page, row);
    assert (Text(page[..row]) + page[row].glyphs)[base..] == text + page[row].glyphs;
  }

  lemma AllRowsGathered(page: Page)
    ensures page[..|page|] == page
  {
  }

  /** One pass over all rows, searching each logical line when its last row has been gathered. */
  method ScanPage(page: Page, needle: Line, cursor: Position) returns (hits: Hits)
    requires needle != []
    ensures HitsOf(hits, Matches(page, needle), cursor)
  {
    hide Text, HitsOf, Gathered, Located;
    hits := Hits(None, None, None, None);
    NothingFound(page, needle, cursor);
    var text: Line, positions: seq<Position> := [], [];
    ghost var base: nat := 0;
    NoText();
    NothingGathered(page, 0);
    for row := 0 to |page|
      invariant row < |page| || |page| == 0 ==> Gathered(page, row, base, text, positions)
      invariant row < |page| || |page| == 0 ==> HitsOf(hits, MatchesBefore(page, needle, base), cursor)
      invariant row == |page| > 0 ==> HitsOf(hits, Matches(page, needle), cursor)
    {
      GatherRow(page, row, base, text, positions);
      text := text + page[row].glyphs;
      positions := positions + RowPositions(row, |page[row].glyphs|);
      if page[row].soft && row + 1 < |page| {
        continue;
      }
      AllRowsGathered(page);
      LastGathered(page, row, base, text, positions);
      hits := ScanLine(page, needle, cursor, hits, text, positions, base);
      if row + 1 < |page| {
        base := base + |text| + 1;
        NothingGathered(page, row + 1);
      } else {
        AllBefore(page, needle, base + |text| + 1);
      }
      text, positions := [], [];
    }
    if |page| == 0 {
      AllBefore(page, needle, base);
    }
  }

  lemma NothingGathered(page: Page, row: nat)
    requires row <= |page|
    ensures Gathered(page, row, |Text(page[..row])|, [], [])
  {
    hide Text;
  }

  lemma NothingFound(page: Page, needle: Line, cursor: Position)
    ensures HitsOf(Hits(None, None, None, None), MatchesBefore(page, needle, 0), cursor)
  {
    hide Text;
  }

  lemma LastGathered(page: Page, row: nat, base: nat, text: Line, positions: seq<Position>)
    requires page != [] && row == |page| - 1 && page[row].soft ==> Gathered(page, |page|, base, text, positions)
    ensures page != [] && row == |page| - 1 && page[row].soft ==> base + |text| == |Text(page)|
  {
    hide Text;
    AllRowsGathered(page);
  }

  lemma AllBefore(page: Page, needle: Line, bound: nat)
    requires bound >= |Text(page)|
    ensures MatchesBefore(page, needle, bound) == Matches(page, needle)
  {
    hide Text;
    forall p | OnGlyph(page, p)
      ensures Offset(page, p) < |Text(page)|
    {
      GlyphInText(page, p);
    }
  }

  /** The match that a search from the cursor goes to: the least one after the cursor, or the least
      of all when none is after it; and the mirror image backwards. */
  ghost predicate TargetAmong(matches: iset<Position>, cursor: Position, backwards: bool, target: Position) {
    if backwards then
      Greatest(Some(target), if Until(cursor, matches) != iset{} then Until(cursor, matches) else matches)
    else
      Least(Some(target), if After(cursor, matches) != iset{} then After(cursor, matches) else matches)
  }

  ghost predicate IsTarget(page: Page, needle: Line, cursor: Position, backwards: bool, target: Position) {
    TargetAmong(Matches(page, needle), cursor, backwards, target)
  }

  lemma TargetsUndoEachOther(matches: iset<Position>, cursor: Position, backwards: bool,
                             there: Position, back: Position)
    requires cursor in matches
    requires TargetAmong(matches, cursor, backwards, there) && TargetAmong(matches, there, !backwards, back)
    ensures back == cursor
  {
    if backwards {
      if Until(cursor, matches) != iset{} {
        assert cursor in After(there, matches);
      } else {
        assert After(there, matches) == iset{} && back !in Until(cursor, matches);
      }
    } else {
      if After(cursor, matches) != iset{} {
        assert cursor in Until(there, matches);
      } else {
        assert Until(there, matches) == iset{} && back !in After(cursor, matches);
      }
    }
  }

  /** From a match, a search forward and a search backward undo each other. */
  lemma SearchesUndoEachOther(page: Page, needle: Line, cursor: Position, backwards: bool,
                              there: Position, back: Position)
    ensures IsMatch(page, needle, cursor) && IsTarget(page, needle, cursor, backwards, there)
            && IsTarget(page, needle, there, !backwards, back)
            ==> back == cursor
  {
    hide IsMatch, TargetAmong;
    if IsMatch(page, needle, cursor) && IsTarget(page, needle, cursor, backwards, there)
       && IsTarget(page, needle, there, !backwards, back) {
      TargetsUndoEachOther(Matches(page, needle), cursor, backwards, there, back);
    }
  }

  lemma SameOrder(page: Page, page': Page, a: Position, b: Position, a': Position, b': Position)
    requires Reachable(page, a) && Reachable(page, b) && Reachable(page', a') && Reachable(page', b')
    ensures WellWrapped(page) && WellWrapped(page')
            && Offset(page, a) == Offset(page', a') && Offset(page, b) == Offset(page', b')
            ==> (Before(a, b) <==> Before(a', b'))
  {
    hide Text, WellWrapped, Offset, Reachable;
    if WellWrapped(page) && WellWrapped(page') {
      CursorsIncrease(page, a, b);
      CursorsIncrease(page', a', b');
    }
  }

  lemma Counterpart(page: Page, page': Page, needle: Line, p: Position) returns (p': Position)
    requires needle != [] && Text(page) == Text(page') && IsMatch(page, needle, p)
    ensures IsMatch(page', needle, p') && Offset(page', p') == Offset(page, p)
  {
    hide Text;
    MatchedSymbol(page, needle, p, 0);
    p' := PositionOf(page', Offset(page, p));
  }

  /** A match on one side of the cursor is found on the same side in another wrapping. */
  lemma CounterpartBeside(page: Page, page': Page, needle: Line, cursor: Position, cursor': Position, p: Position)
    returns (p': Position)
    requires needle != [] && Text(page) == Text(page') && WellWrapped(page) && WellWrapped(page')
    requires Reachable(page, cursor) && Reachable(page', cursor') && Offset(page, cursor) == Offset(page', cursor')
    requires IsMatch(page, needle, p)
    ensures IsMatch(page', needle, p') && Offset(page', p') == Offset(page, p)
    ensures Before(cursor, p) <==> Before(cursor', p')
    ensures Before(p, cursor) <==> Before(p', cursor')
  {
    hide Text, WellWrapped, Offset;
    p' := Counterpart(page, page', needle, p);
    SameOrder(page, page', cursor, p, cursor', p');
    SameOrder(page, page', p, cursor, p', cursor');
  }

  lemma NoneBesideEither(page: Page, page': Page, needle: Line, cursor: Position, cursor': Position)
    requires needle != [] && Text(page) == Text(page') && WellWrapped(page) && WellWrapped(page')
    requires Reachable(page, cursor) && Reachable(page', cursor') && Offset(page, cursor) == Offset(page', cursor')
    ensures After(cursor, Matches(page, needle)) == iset{} ==> After(cursor', Matches(page', needle)) == iset{}
    ensures Until(cursor, Matches(page, needle)) == iset{} ==> Until(cursor', Matches(page', needle)) == iset{}
  {
    hide Text, WellWrapped, Offset, Reachable, IsMatch;
    forall p' | IsMatch(page', needle, p')
      ensures Before(cursor', p') ==> After(cursor, Matches(page, needle)) != iset{}
      ensures Before(p', cursor') ==> Until(cursor, Matches(page, needle)) != iset{}
    {
      var p := CounterpartBeside(page', page, needle, cursor', cursor, p');
      assert p in Matches(page, needle);
      assert Before(cursor, p) ==> p in After(cursor, Matches(page, needle));
      assert Before(p, cursor) ==> p in Until(cursor, Matches(page, needle));
    }
  }

  /** Two cursors that are at the same place of the same text, wrapped in two ways. */
  ghost predicate SamePlace(page: Page, page': Page, cursor: Position, cursor': Position) {
    && Text(page) == Text(page') && WellWrapped(page) && WellWrapped(page')
    && Reachable(page, cursor) && Reachable(page', cursor') && Offset(page, cursor) == Offset(page', cursor')
  }

  lemma TargetIsNoFarther(page: Page, page': Page, needle: Line, backwards: bool, cursor: Position,
                          cursor': Position, target: Position, target': Position)
    requires needle != [] && IsMatch(page, needle, target) && IsMatch(page', needle, target')
    ensures SamePlace(page, page', cursor, cursor')
            && IsTarget(page, needle, cursor, backwards, target) && IsTarget(page', needle, cursor', backwards, target')
            ==> if backwards then Offset(page', target') >= Offset(page, target)
                else Offset(page', target') <= Offset(page, target)
  {
    hide Text, WellWrapped, Offset, Reachable, IsMatch;
    if SamePlace(page, page', cursor, cursor')
       && IsTarget(page, needle, cursor, backwards, target) && IsTarget(page', needle, cursor', backwards, target') {
      assert target in Matches(page, needle) && target' in Matches(page', needle);
      NoneBesideEither(page, page', needle, cursor, cursor');
      var p' := CounterpartBeside(page, page', needle, cursor, cursor', target);
      assert p' in Matches(page', needle);
      if backwards {
        assert !Before(target', p');
      } else {
        assert !Before(p', target');
      }
      MatchesIncrease(page', needle, p', target');
    }
  }

  lemma MatchesIncrease(page: Page, needle: Line, p: Position, q: Position)
    requires IsMatch(page, needle, p) && IsMatch(page, needle, q)
    ensures Before(p, q) ==> Offset(page, p) < Offset(page, q)
    ensures Before(q, p) ==> Offset(page, q) < Offset(page, p)
    ensures Offset(page, p) == Offset(page, q) ==> p == q
  {
    hide Text;
    if Before(p, q) {
      OffsetsIncrease(page, p, q);
    } else if Before(q, p) {
      OffsetsIncrease(page, q, p);
    }
  }

  lemma TargetIsMatch(page: Page, needle: Line, cursor: Position, backwards: bool, target: Position)
    ensures IsTarget(page, needle, cursor, backwards, target) ==> IsMatch(page, needle, target)
  {
    hide IsMatch;
    if IsTarget(page, needle, cursor, backwards, target) {
      assert target in Matches(page, needle);
    }
  }

  /** A search finds the same occurrence in the lines at whatever width they have been wrapped: from
      cursors at the same place of the text it goes to the same place. */
  lemma SearchesIgnoreWrapping(lines: seq<Line>, width: nat, other: nat, needle: Line, backwards: bool,
                               cursor: Position, cursor': Position, target: Position, target': Position)
    requires needle != []
    ensures
      var page, page' := Wrapped(lines, width), Wrapped(lines, other);
      Reachable(page, cursor) && Reachable(page', cursor') && Offset(page, cursor) == Offset(page', cursor')
      && IsTarget(page, needle, cursor, backwards, target) && IsTarget(page', needle, cursor', backwards, target')
      ==> OnGlyph(page, target) && OnGlyph(page', target') && Offset(page, target) == Offset(page', target')
  {
    hide Text, Wrapped, WellWrapped, Offset, IsTarget;
    var page, page' := Wrapped(lines, width), Wrapped(lines, other);
    if Reachable(page, cursor) && Reachable(page', cursor') && Offset(page, cursor) == Offset(page', cursor')
       && IsTarget(page, needle, cursor, backwards, target) && IsTarget(page', needle, cursor', backwards, target') {
      WrappedKeepsDocument(lines, width);
      WrappedKeepsDocument(lines, other);
      WrappedFits(lines, width);
      WrappedFits(lines, other);
      TargetIsMatch(page, needle, cursor, backwards, target);
      TargetIsMatch(page', needle, cursor', backwards, target');
      TargetIsNoFarther(page, page', needle, backwards, cursor, cursor', target, target');
      TargetIsNoFarther(page', page, needle, backwards, cursor', cursor, target', target);
    }
  }

  // ----- The viewport -----

  /** The first cell of a character of a row, counted from the left. */
  function CellOf(line: Line, i: nat): nat
    requires i <= |line|
  {
    Cells(line[..i])
  }

  /** The character is drawn on a cell of the row. */
  predicate Covers(line: Line, i: nat, cell: nat)
    requires i < |line|
  {
    CellOf(line, i) <= cell < CellOf(line, i + 1)
  }

  /** The last character that takes cells, if there is one. */
  ghost predicate IsLast(line: Line, column: nat) {
    && (column == 0 || (column < |line| && line[column].width > 0))
    && forall i :: column < i < |line| ==> line[i].width == 0
  }

  function Distance(a: nat, b: nat): nat {
    if a <= b then b - a else a - b
  }

  /** The character drawn on a cell; beyond the row, its last character that takes cells. */
  method CharacterAt(line: Line, target: nat) returns (column: nat)
    ensures line == [] ==> column == 0
    ensures line != [] ==> column < |line| && (target < Cells(line) ==> Covers(line, column, target))
    ensures target >= Cells(line) ==> IsLast(line, column)
  {
    var cell: nat, last: nat := 0, 0;
    for index := 0 to |line|
      invariant cell == CellOf(line, index) <= target && (last < index || index == last == 0)
      invariant index > 0 ==> IsLast(line[..index], last)
    {
      assert line[..index + 1][..index] == line[..index];
      if line[index].width == 0 {
        continue;
      }
      last := index;
      cell := cell + line[index].width;
      if target < cell {
        CellsIncrease(line, index + 1, |line|);
        assert line[..|line|] == line;
        return index;
      }
    }
    assert line[..|line|] == line;
    return last;
  }

  lemma CoverIsUnique(line: Line, i: nat, j: nat, cell: nat)
    requires i < |line| && j < |line| && Covers(line, i, cell) && Covers(line, j, cell)
    ensures i == j
  {
    hide Cells;
    if i < j {
      CellsIncrease(line, i + 1, j);
    } else if j < i {
      CellsIncrease(line, j + 1, i);
    }
  }

  lemma CoveredCell(line: Line, i: nat, cell: nat)
    requires i < |line| && Covers(line, i, cell)
    ensures cell < Cells(line)
  {
    hide Cells;
    CellsIncrease(line, i + 1, |line|);
    assert line[..|line|] == line;
  }

  lemma {:induction false} CellsIncrease(line: Line, i: nat, j: nat)
    requires i <= j <= |line|
    ensures Cells(line[..i]) <= Cells(line[..j])
    decreases j - i
  {
    if i < j {
      CellsIncrease(line, i, j - 1);
      assert line[..j][..j - 1] == line[..j - 1];
    }
  }

  // ----- Operations -----

  /** Freeze logical lines into physical rows. */
  method WrapLines(lines: seq<Line>, width: nat) returns (rows: Page)
    ensures rows == Wrapped(lines, width)
  {
    hide Placed;
    rows := [];
    for n := 0 to |lines|
      invariant rows == Wrapped(lines[..n], width)
    {
      var row: Line, cells: nat := [], 0;
      var line := lines[n];
      ghost var before := rows;
      for i := 0 to |line|
        invariant
          var wrap := Wrapping(line[..i], width);
          rows == before + wrap.rows && row == wrap.row && cells == wrap.cells
      {
        ghost var wrap := Wrapping(line[..i], width);
        WrappingNext(line, i, width);
        if line[i].width > 0 && cells > 0 && cells + line[i].width > width {
          rows := rows + [Row(row, true)];
          row, cells := [], 0;
        }
        row := row + [line[i]];
        cells := cells + line[i].width;
      }
      rows := rows + [Row(row, false)];
      assert line[..|line|] == line;
      assert lines[..n + 1][..n] == lines[..n];
      Regroup(before, Wrapping(line, width).rows, [Row(row, false)]);
    }
    assert lines[..|lines|] == lines;
  }

  lemma WrappingNext(line: Line, i: nat, width: nat)
    requires i < |line|
    ensures
      var wrap, next := Wrapping(line[..i], width), Wrapping(line[..i + 1], width);
      if Breaks(wrap, line[i], width) then
        next == Wrap(wrap.rows + [Row(wrap.row, true)], [line[i]], line[i].width)
      else
        next == Wrap(wrap.rows, wrap.row + [line[i]], wrap.cells + line[i].width)
  {
    assert line[..i + 1][..i] == line[..i];
  }

  /** The count of rows that is kept so that the text need not be wrapped again to know it. */
  method CountRows(lines: seq<Line>, width: nat) returns (count: nat)
    ensures count == |Wrapped(lines, width)|
  {
    hide Placed;
    count := 0;
    for n := 0 to |lines|
      invariant count == |Wrapped(lines[..n], width)|
    {
      var rows: nat, cells: nat := 1, 0;
      var line := lines[n];
      for i := 0 to |line|
        invariant rows == |Wrapping(line[..i], width).rows| + 1 && cells == Wrapping(line[..i], width).cells
      {
        WrappingNext(line, i, width);
        if line[i].width > 0 && cells > 0 && cells + line[i].width > width {
          rows := rows + 1;
          cells := 0;
        }
        cells := cells + line[i].width;
      }
      assert line[..|line|] == line;
      assert lines[..n + 1][..n] == lines[..n];
      count := count + rows;
    }
    assert lines[..|lines|] == lines;
  }

  /** The text above the primary screen of a terminal that an old checkpoint has brought along, with the
      number of rows that it takes at the width of the terminal. The count is kept instead of the rows. */
  class LegacyHistory {
    var lines: seq<Line>
    var width: nat
    var rows: nat

    ghost predicate Valid()
      reads this
    {
      rows == |Wrapped(lines, Max(width, 1))|
    }

    constructor (width: nat)
      ensures Valid() && lines == [] && this.width == width
    {
      this.width := width;
      lines, rows := [], 0;
    }

    method Count()
      modifies this`rows
      ensures Valid()
    {
      rows := CountRows(lines, Max(width, 1));
    }

    method SetHistory(history: seq<Line>)
      modifies this`lines, this`rows
      ensures Valid() && lines == history
    {
      lines := history;
      Count();
    }

    method ClearHistory()
      modifies this`lines, this`rows
      ensures Valid() && lines == []
    {
      lines, rows := [], 0;
    }

    /** The terminal gets another width. When rows leave its own scrollback, the older text does too. */
    method Resize(columns: nat, evicts: bool)
      modifies this
      ensures Valid() && width == columns && lines == if evicts then [] else old(lines)
    {
      width := columns;
      if evicts {
        ClearHistory();
      }
      Count();
    }

    /** A projection of another width may take the terminal's place, with all history in it. */
    method AdoptProjection(columns: nat, agrees: bool)
      requires Valid()
      modifies this
      ensures Valid() && (agrees ==> lines == [] && width == columns)
      ensures !agrees ==> lines == old(lines) && width == old(width) && rows == old(rows)
    {
      if agrees {
        width := columns;
        ClearHistory();
      }
    }

    /** Output that evicts rows, resets the terminal or clears its saved lines ends the older text. */
    method Feed(clears: bool)
      requires Valid()
      modifies this`lines, this`rows
      ensures Valid() && lines == if clears then [] else old(lines)
    {
      if clears {
        ClearHistory();
      }
    }

    /** How many rows are above the screen, of which `own` are the terminal's: none, and not even those,
        behind the alternate screen. */
    method HistoryRows(primary: bool, own: nat) returns (count: nat)
      requires Valid()
      ensures count == if primary then |Wrapped(lines, Max(width, 1))| + own else 0
    {
      count := if primary then rows + own else 0;
    }

    /** Freezes the text above the primary screen at the width of the pane on the canvas, and the
        terminal's own rows as they are. At the terminal's width there are as many above these as were counted. */
    method Freeze(primary: bool, screen: Page, columns: nat) returns (mode: CopyMode)
      requires Valid()
      ensures fresh(mode) && mode.lines == Wrapped(if primary then lines else [], Max(columns, 1)) + screen
      ensures WellWrapped(screen) ==> WellWrapped(mode.lines)
      ensures Max(columns, 1) == Max(width, 1) ==> |mode.lines| == (if primary then rows else 0) + |screen|
    {
      mode := new CopyMode.FromRows(if primary then lines else [], screen, columns);
    }
  }

  /** At another width, such as before the terminal has followed the pane's new size, the count need
      not be that of the frozen rows. */
  lemma CountDependsOnWidth(glyph: Glyph)
    requires glyph.width == 1
    ensures |Wrapped([[glyph, glyph]], 2)| == 1 && |Wrapped([[glyph, glyph]], 1)| == 2
  {
    var line: Line := [glyph, glyph];
    WrappingNext(line, 0, 1);
    WrappingNext(line, 1, 1);
    WrappingNext(line, 0, 2);
    WrappingNext(line, 1, 2);
    assert line[..0] == [] && line[..2] == line;
    var none: seq<Line> := [line][..0];
    assert none == [] && Wrapped(none, 1) == [] && Wrapped(none, 2) == [];
  }

  datatype Selection = Nothing | Extending(anchor: Position) | Complete(anchor: Position, end: Position)

  class CopyMode {
    var lines: Page
    var cursor: Position
    var top: nat
    var left: nat
    var selection: Selection
    var noMatch: bool

    constructor NewWrapped(text: seq<Line>, width: nat)
      ensures lines == Wrapped(text, Max(width, 1)) && WellWrapped(lines)
      ensures cursor == Position(Sub(|lines|, 1), 0) && (lines != [] ==> Reachable(lines, cursor))
      ensures top == left == 0 && selection == Nothing && !noMatch
    {
      var rows := WrapLines(text, Max(width, 1));
      WrappedFits(text, Max(width, 1));
      lines := rows;
      cursor := Position(Sub(|rows|, 1), 0);
      top, left, selection, noMatch := 0, 0, Nothing, false;
    }

    /** Logical lines are wrapped, and rows of a terminal follow as they are. */
    constructor FromRows(prefix: seq<Line>, screen: Page, width: nat)
      ensures lines == Wrapped(prefix, Max(width, 1)) + screen && (WellWrapped(screen) ==> WellWrapped(lines))
      ensures cursor == Position(Sub(|lines|, 1), 0)
      ensures top == left == 0 && selection == Nothing && !noMatch
    {
      var rows := WrapLines(prefix, Max(width, 1));
      WrappedFits(prefix, Max(width, 1));
      if WellWrapped(screen) {
        JoinedAreWellWrapped(rows, screen);
      }
      lines := rows + screen;
      cursor := Position(Sub(|rows + screen|, 1), 0);
      top, left, selection, noMatch := 0, 0, Nothing, false;
    }

    /** Keep the cursor on the text, and the viewport on the cursor: both move no farther than needed. */
    method Fit(width: nat, height: nat)
      modifies this`cursor, this`top, this`left
      ensures lines == [] ==> cursor == Position(0, 0)
      ensures lines != [] ==> Reachable(lines, cursor)
      ensures forall p | Reachable(lines, p) ::
        && Distance(old(cursor).row, cursor.row) <= Distance(old(cursor).row, p.row)
        && (p.row == cursor.row ==>
              Distance(old(cursor).column, cursor.column) <= Distance(old(cursor).column, p.column))
      ensures top <= cursor.row < top + Max(height, 1)
      ensures forall t: nat | t <= cursor.row < t + Max(height, 1) ::
        Distance(old(top), top) <= Distance(old(top), t)
      ensures
        var column := if lines == [] then 0 else CellOf(lines[cursor.row].glyphs, cursor.column);
        var cells := if OnGlyph(lines, cursor) then Max(lines[cursor.row].glyphs[cursor.column].width, 1) else 1;
        && column + cells <= left + Max(width, 1)
        && (left <= column <==> cells <= Max(width, 1))
        && (cells > Max(width, 1) ==> column + cells == left + Max(width, 1))
        && (cells <= Max(width, 1) ==>
              forall l: nat | l <= column && column + cells <= l + Max(width, 1) ::
                Distance(old(left), left) <= Distance(old(left), l))
    {
      cursor := Position(Min(cursor.row, Sub(|lines|, 1)), cursor.column);
      var line := if cursor.row < |lines| then lines[cursor.row].glyphs else [];
      cursor := cursor.(column := Min(cursor.column, Sub(|line|, 1)));
      top := Min(top, cursor.row);
      if cursor.row >= top + Max(height, 1) {
        top := cursor.row + 1 - Max(height, 1);
      }
      var column := CellOf(line, cursor.column);
      var cells := if cursor.column < |line| then Max(line[cursor.column].width, 1) else 1;
      left := Min(left, column);
      if column + cells > left + Max(width, 1) {
        left := column + cells - Max(width, 1);
      }
    }

    /** The character under a cell of the viewport. */
    method PositionAt(column: nat, row: nat) returns (position: Position)
      ensures lines != [] ==> Reachable(lines, position) && position.row == Min(top + row, |lines| - 1)
      ensures lines == [] ==> position == Position(0, 0)
      ensures lines != [] && Cells(lines[position.row].glyphs) <= left + column ==>
        IsLast(lines[position.row].glyphs, position.column)
      ensures forall p |
        OnGlyph(lines, p) && p.row == top + row && Covers(lines[p.row].glyphs, p.column, left + column) ::
        position == p
    {
      if lines == [] {
        return Position(0, 0);
      }
      var r := Min(top + row, |lines| - 1);
      var c := CharacterAt(lines[r].glyphs, left + column);
      position := Position(r, c);
      forall p | OnGlyph(lines, p) && p.row == top + row && Covers(lines[p.row].glyphs, p.column, left + column)
        ensures position == p
      {
        CoveredCell(lines[r].glyphs, p.column, left + column);
        CoverIsUnique(lines[r].glyphs, p.column, c, left + column);
      }
    }

    /** The text between the ends of the selection, whichever comes first. */
    method SelectedText() returns (text: Option<seq<Symbol>>)
      ensures selection.Nothing? ==> text == None
      ensures !selection.Nothing? ==>
        var anchor, end := selection.anchor, if selection.Extending? then cursor else selection.end;
        text == if Later(anchor, end).row < |lines| then Some(Copied(lines, anchor, end)) else None
    {
      hide Text, SkipMarks, Selected, SoFar;
      if selection.Nothing? {
        return None;
      }
      var anchor, last := selection.anchor, if selection.Extending? then cursor else selection.end;
      var start, end := Earlier(anchor, last), Later(anchor, last);
      var selected: seq<Symbol> := [];
      NothingSoFar(lines, start);
      var row := start.row;
      while row <= end.row
        invariant start.row <= row <= end.row + 1
        invariant row > start.row ==> row <= |lines|
        invariant row <= end.row ==> selected == SoFar(lines, start, row)
        invariant row > end.row ==> selected == Selected(lines, start, end)
      {
        if row >= |lines| {
          return None;
        }
        var line := lines[row].glyphs;
        var from := if row == start.row then Min(start.column, |line|) else 0;
        var to := |line|;
        if row == end.row {
          to := Min(end.column + 1, |line|);
          while to < |line| && line[to].width == 0
            invariant to <= |line|
            invariant SkipMarks(line, to) == SkipMarks(line, Min(end.column + 1, |line|))
          {
            MarkSkipped(line, to);
            to := to + 1;
          }
          MarksSkipped(line, to);
        }
        if row == end.row {
          SelectedLastRow(lines, start, end);
        } else {
          SelectedRow(lines, start, row);
        }
        selected := selected + line[from..to];
        if row != end.row && !lines[row].soft {
          selected := selected + [Newline];
        }
        row := row + 1;
      }
      return Some(selected);
    }

    /** Move to the next match, going round the ends of the text. */
    method Search(needle: Line, backwards: bool)
      modifies this`cursor, this`noMatch
      ensures needle == [] ==> cursor == old(cursor) && noMatch == old(noMatch)
      ensures needle != [] && Matches(lines, needle) == iset{} ==> cursor == old(cursor) && noMatch
      ensures needle != [] && Matches(lines, needle) != iset{} ==>
        IsTarget(lines, needle, old(cursor), backwards, cursor) && noMatch == old(noMatch)
    {
      hide IsMatch;
      if needle == [] {
        return;
      }
      var hits := ScanPage(lines, needle, cursor);
      var target :=
        if backwards then (if hits.previous.Some? then hits.previous else hits.last)
        else (if hits.next.Some? then hits.next else hits.first);
      if target.Some? {
        cursor := target.value;
      } else {
        noMatch := true;
      }
    }
  }

  /** What has been selected of the rows before one. */
  ghost function SoFar(page: Page, start: Position, row: nat): seq<Symbol>
    requires start.row <= row && (row > start.row ==> row <= |page|)
  {
    if row == start.row then []
    else
      var from := |Text(page[..start.row])| + Min(start.column, |page[start.row].glyphs|);
      if from <= |Text(page[..row])| then Text(page[..row])[from..] else []
  }

  lemma NothingSoFar(page: Page, start: Position)
    ensures SoFar(page, start, start.row) == []
  {
  }

  lemma MarkSkipped(line: Line, to: nat)
    requires to < |line| && line[to].width == 0
    ensures SkipMarks(line, to + 1) == SkipMarks(line, to)
  {
  }

  lemma MarksSkipped(line: Line, to: nat)
    requires to <= |line| && (to == |line| || line[to].width > 0)
    ensures SkipMarks(line, to) == to
  {
  }

  lemma SliceGrows(text: seq<Symbol>, piece: seq<Symbol>, from: nat, to: nat)
    requires from <= |text| && to <= |piece|
    ensures (text + piece)[from..|text| + to] == text[from..] + piece[..to]
  {
  }

  lemma SliceStarts(text: seq<Symbol>, piece: seq<Symbol>, from: nat, to: nat)
    requires from <= to <= |piece|
    ensures (text + piece)[|text| + from..|text| + to] == [] + piece[from..to]
  {
  }

  lemma SliceOfPrefix(prefix: seq<Symbol>, text: seq<Symbol>, from: nat, to: nat)
    requires prefix <= text && from <= to <= |prefix|
    ensures prefix[from..to] == text[from..to]
  {
  }

  /** What a row adds to what has been selected before it. */
  lemma SelectedPart(page: Page, start: Position, row: nat, to: nat)
    requires start.row <= row < |page| && to <= |RowText(page[row])|
    requires row == start.row ==> Min(start.column, |page[row].glyphs|) <= to
    ensures
      var from := |Text(page[..start.row])| + Min(start.column, |page[start.row].glyphs|);
      var skipped := if row == start.row then Min(start.column, |page[row].glyphs|) else 0;
      && from <= |Text(page[..row])| + to <= |Text(page[..row + 1])|
      && Text(page[..row + 1])[from..|Text(page[..row])| + to]
        == SoFar(page, start, row) + RowText(page[row])[skipped..to]
  {
    hide Text, RowText;
    RowInText(page, row);
    if row == start.row {
      SliceStarts(Text(page[..row]), RowText(page[row]), Min(start.column, |page[row].glyphs|), to);
    } else {
      RowInText(page, start.row);
      RowIsLongEnough(page[start.row]);
      TextGrows(page, start.row + 1, row);
      var from := |Text(page[..start.row])| + Min(start.column, |page[start.row].glyphs|);
      SliceGrows(Text(page[..row]), RowText(page[row]), from, to);
    }
  }

  lemma RowIsLongEnough(row: Row)
    ensures |row.glyphs| <= |RowText(row)|
    ensures RowText(row) == row.glyphs + if row.soft then [] else [Newline]
  {
  }

  lemma SelectedRow(page: Page, start: Position, row: nat)
    requires start.row <= row < |page|
    ensures
      var line := page[row].glyphs;
      var from := if row == start.row then Min(start.column, |line|) else 0;
      var grown := SoFar(page, start, row) + line[from..|line|];
      SoFar(page, start, row + 1) == if page[row].soft then grown else grown + [Newline]
  {
    hide Text, RowText;
    var line := page[row].glyphs;
    var from := if row == start.row then Min(start.column, |line|) else 0;
    RowIsLongEnough(page[row]);
    SelectedPart(page, start, row, |RowText(page[row])|);
    RowInText(page, row);
    RestOfRow(page[row], from, SoFar(page, start, row));
  }

  lemma RestOfRow(row: Row, from: nat, before: seq<Symbol>)
    requires from <= |row.glyphs|
    ensures
      var part := before + row.glyphs[from..|row.glyphs|];
      from <= |RowText(row)|
      && before + RowText(row)[from..|RowText(row)|] == if row.soft then part else part + [Newline]
  {
    var rest := row.glyphs[from..|row.glyphs|];
    if row.soft {
      assert RowText(row)[from..|RowText(row)|] == rest;
    } else {
      assert RowText(row)[from..|RowText(row)|] == rest + [Newline];
      Regroup(before, rest, [Newline]);
    }
  }

  lemma SelectedLastRow(page: Page, start: Position, end: Position)
    requires !Before(end, start) && end.row < |page|
    ensures
      var line := page[end.row].glyphs;
      var from := if end.row == start.row then Min(start.column, |line|) else 0;
      var to := SkipMarks(line, Min(end.column + 1, |line|));
      from <= to && Selected(page, start, end) == SoFar(page, start, end.row) + line[from..to]
  {
    hide Text, SkipMarks, RowText, SoFar;
    var line := page[end.row].glyphs;
    var to := SkipMarks(line, Min(end.column + 1, |line|));
    RowIsLongEnough(page[end.row]);
    SelectedPart(page, start, end.row, to);
    SelectedBounds(page, start, end);
    var from := |Text(page[..start.row])| + Min(start.column, |page[start.row].glyphs|);
    RowsBefore(page, end.row + 1, from, |Text(page[..end.row])| + to);
    var skipped := if end.row == start.row then Min(start.column, |line|) else 0;
    PartOfRow(page[end.row], skipped, to);
  }

  /** Later rows do not matter for a part of the text that ends before them. */
  lemma RowsBefore(page: Page, rows: nat, from: nat, to: nat)
    requires rows <= |page| && from <= to <= |Text(page[..rows])|
    ensures to <= |Text(page)| && Text(page)[from..to] == Text(page[..rows])[from..to]
  {
    hide Text;
    TextGrows(page, rows, |page|);
    AllRowsGathered(page);
    SliceOfPrefix(Text(page[..rows]), Text(page), from, to);
  }

  lemma PartOfRow(row: Row, from: nat, to: nat)
    requires from <= to <= |row.glyphs|
    ensures to <= |RowText(row)| && RowText(row)[from..to] == row.glyphs[from..to]
  {
    RowIsLongEnough(row);
    SliceOfPrefix(row.glyphs, RowText(row), from, to);
  }
}
