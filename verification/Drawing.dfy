/**
 Where the contents of panes are drawn. A pane may be scrolled partly out of sight; what is drawn of
 it never starts or ends in the middle of a wide glyph.
 */
module Drawing {
  import opened Basics
  import opened Options
  import opened Render

  /** A pane on its canvas. */
  datatype Rect = Rect(left: nat, top: nat, columns: nat, rows: nat)

  /** The cells from `left` to before `right` and from `top` to before `bottom`. */
  datatype Area = Area(left: nat, top: nat, right: nat, bottom: nat)

  /** The part of a pane that is in sight when the canvas is scrolled by `offset`. */
  function Visible(rect: Rect, offset: (nat, nat), columns: nat, height: nat): (area: Area)
    ensures area.right <= columns && area.bottom <= height
  {
    Area(Sub(rect.left, offset.0), Sub(rect.top, offset.1),
         Min(Sub(rect.left + rect.columns, offset.0), columns), Min(Sub(rect.top + rect.rows, offset.1), height))
  }

  predicate Apart(a: Area, b: Area) {
    a.right <= b.left || b.right <= a.left || a.bottom <= b.top || b.bottom <= a.top
  }

  ghost predicate AllPaired(cells: seq<Pixel>) {
    forall i :: 0 <= i < |cells| ==> Paired(cells, i)
  }

  // ----- Rows -----

  predicate Grid(cells: seq<Pixel>, columns: nat, rows: nat) {
    |cells| == rows * columns
  }

  function Row(cells: seq<Pixel>, columns: nat, rows: nat, y: nat): (row: seq<Pixel>)
    requires Grid(cells, columns, rows) && y < rows
    ensures |row| == columns
    ensures y * columns + columns <= |cells| && row == cells[y * columns..y * columns + columns]
  {
    RowFits(y, rows, columns);
    cells[y * columns..y * columns + columns]
  }

  /** Only row `y` has changed, and it has become `row`. */
  ghost predicate OnlyRow(before: seq<Pixel>, after: seq<Pixel>, columns: nat, rows: nat, y: nat, row: seq<Pixel>)
    requires Grid(before, columns, rows) && Grid(after, columns, rows) && y < rows
  {
    && Row(after, columns, rows, y) == row
    && forall other :: 0 <= other < rows && other != y ==>
      Row(after, columns, rows, other) == Row(before, columns, rows, other)
  }

  lemma NothingElse(cells: seq<Pixel>, columns: nat, rows: nat, y: nat)
    requires Grid(cells, columns, rows) && y < rows
    ensures OnlyRow(cells, cells, columns, rows, y, Row(cells, columns, rows, y))
  {
  }

  lemma OnlyRowAgain(a: seq<Pixel>, b: seq<Pixel>, c: seq<Pixel>, columns: nat, rows: nat, y: nat,
                     first: seq<Pixel>, second: seq<Pixel>)
    requires Grid(a, columns, rows) && Grid(b, columns, rows) && Grid(c, columns, rows) && y < rows
    requires OnlyRow(a, b, columns, rows, y, first) && OnlyRow(b, c, columns, rows, y, second)
    ensures OnlyRow(a, c, columns, rows, y, second) && Row(c, columns, rows, y) == second
  {
  }

  lemma RowsApart(y: nat, other: nat, columns: nat)
    requires y < other
    ensures y * columns + columns <= other * columns
  {
    RowFits(y, other, columns);
  }

  lemma SettingOne(cells: seq<Pixel>, columns: nat, rows: nat, x: nat, y: nat, pixel: Pixel)
    requires Grid(cells, columns, rows) && x < columns && y < rows
    ensures y * columns + x < |cells|
    ensures OnlyRow(cells, cells[y * columns + x := pixel], columns, rows, y, Row(cells, columns, rows, y)[x := pixel])
  {
    RowFits(y, rows, columns);
    var after := cells[y * columns + x := pixel];
    forall other | 0 <= other < rows && other != y
      ensures Row(after, columns, rows, other) == Row(cells, columns, rows, other)
    {
      if other < y {
        RowsApart(other, y, columns);
      } else {
        RowsApart(y, other, columns);
      }
    }
  }

  // ----- Whole glyphs -----

  predicate WholeAt(row: seq<Pixel>, left: nat, right: nat, x: nat)
    requires left <= x < right <= |row|
  {
    && row[x].width <= 2
    && (row[x].width == 2 ==> x + 1 < right && row[x + 1].width == 0)
    && (row[x].width == 0 ==> left < x && row[x - 1].width == 2)
  }

  /** Within these columns no glyph lacks a half, and none reaches out of them. */
  ghost predicate WholeIn(row: seq<Pixel>, left: nat, right: nat) {
    right <= |row| && forall x :: left <= x < right ==> WholeAt(row, left, right, x)
  }

  ghost predicate NarrowIn(row: seq<Pixel>, left: nat, right: nat) {
    right <= |row| && forall x :: left <= x < right ==> row[x].width == 1
  }

  /** Outside of these columns the row is as it was. */
  ghost predicate Elsewhere(before: seq<Pixel>, after: seq<Pixel>, left: nat, right: nat) {
    |after| == |before| && forall x :: 0 <= x < |before| && !(left <= x < right) ==> after[x] == before[x]
  }

  ghost predicate Redrawn(before: seq<Pixel>, after: seq<Pixel>, left: nat, right: nat) {
    Elsewhere(before, after, left, right) && WholeIn(after, left, right)
  }

  lemma NarrowIsWhole(row: seq<Pixel>, left: nat, right: nat)
    requires NarrowIn(row, left, right)
    ensures WholeIn(row, left, right)
  {
  }

  // ----- A row of a live pane -----

  /** The cell of a pane's line that is shown in column `x`, unless that would show half a glyph. */
  predicate IsShown(line: seq<Pixel>, left: nat, width: nat, offset: nat, columns: nat, x: nat) {
    && left <= x + offset < left + width && x + offset - left < |line|
    && var column := x + offset - left;
       && !(line[column].width == 0 && x == 0)
       && !(line[column].width == 2 && (x + 1 >= columns || column + 1 >= width))
  }

  function DrawnRow(row: seq<Pixel>, line: seq<Pixel>, left: nat, width: nat, offset: nat): (drawn: seq<Pixel>)
    ensures |drawn| == |row|
  {
    seq(|row|, x requires 0 <= x < |row| =>
      if IsShown(line, left, width, offset, |row|, x) then line[x + offset - left] else row[x])
  }

  /** What is drawn of a line whose glyphs are whole has whole glyphs, wherever it is cut off. */
  lemma DrawnIsWhole(row: seq<Pixel>, line: seq<Pixel>, left: nat, width: nat, offset: nat)
    requires AllPaired(line)
    requires NarrowIn(row, Sub(left, offset), Min(Sub(left + width, offset), |row|))
    ensures Redrawn(row, DrawnRow(row, line, left, width, offset),
                    Sub(left, offset), Min(Sub(left + width, offset), |row|))
  {
    var drawn := DrawnRow(row, line, left, width, offset);
    var from, to := Sub(left, offset), Min(Sub(left + width, offset), |row|);
    forall x | from <= x < to
      ensures WholeAt(drawn, from, to, x)
    {
      var column := x + offset - left;
      if IsShown(line, left, width, offset, |row|, x) {
        assert Paired(line, column);
        if line[column].width == 2 {
          assert IsShown(line, left, width, offset, |row|, x + 1);
        }
        if line[column].width == 0 {
          assert IsShown(line, left, width, offset, |row|, x - 1);
        }
      }
    }
  }

  // ----- Areas -----

  /** What a pane shows: the lines of its terminal, with a label over the first one when it has ended,
      or a frozen text whose first rows and columns are scrolled out of the pane. */
  datatype Content =
    | Live(lines: seq<seq<Pixel>>, notice: Option<seq<Pixel>>)
    | Frozen(text: seq<seq<CopyGlyph>>, top: nat, left: nat)

  /** The emulator's lines hold no half glyphs, the label fills its line with narrow characters, and
      no character takes more than two cells. */
  ghost predicate Drawable(rect: Rect, content: Content) {
    0 < rect.columns && 0 < rect.rows
    && match content
       case Live(lines, notice) =>
         && (forall i :: 0 <= i < |lines| ==> AllPaired(lines[i]))
         && (notice.Some? ==> |notice.value| == rect.columns && NarrowIn(notice.value, 0, rect.columns))
       case Frozen(text, _, _) => forall i :: 0 <= i < |text| ==> Slim(text[i])
  }

  ghost predicate Slim(line: seq<CopyGlyph>) {
    forall i :: 0 <= i < |line| ==> line[i].width <= 2
  }

  /** Only this area has changed, and its glyphs are whole. */
  ghost predicate RedrawnArea(before: seq<Pixel>, after: seq<Pixel>, columns: nat, rows: nat, area: Area)
    requires Grid(before, columns, rows) && Grid(after, columns, rows)
  {
    forall y :: 0 <= y < rows ==> RedrawnAt(before, after, columns, rows, area, y)
  }

  ghost predicate RedrawnAt(before: seq<Pixel>, after: seq<Pixel>, columns: nat, rows: nat, area: Area, y: nat)
    requires Grid(before, columns, rows) && Grid(after, columns, rows) && y < rows
  {
    if area.top <= y < area.bottom
    then Redrawn(Row(before, columns, rows, y), Row(after, columns, rows, y), area.left, area.right)
    else Row(after, columns, rows, y) == Row(before, columns, rows, y)
  }

  ghost predicate WholeArea(cells: seq<Pixel>, columns: nat, rows: nat, area: Area)
    requires Grid(cells, columns, rows)
  {
    forall y :: 0 <= y < rows && area.top <= y < area.bottom ==>
      WholeIn(Row(cells, columns, rows, y), area.left, area.right)
  }

  ghost predicate NarrowArea(cells: seq<Pixel>, columns: nat, rows: nat, area: Area)
    requires Grid(cells, columns, rows)
  {
    forall y :: 0 <= y < rows && area.top <= y < area.bottom ==>
      NarrowIn(Row(cells, columns, rows, y), area.left, area.right)
  }

  /** Drawing in one area keeps what is apart from it. */
  lemma ApartIsKept(before: seq<Pixel>, after: seq<Pixel>, columns: nat, rows: nat, area: Area, other: Area)
    requires Grid(before, columns, rows) && Grid(after, columns, rows)
    requires RedrawnArea(before, after, columns, rows, area) && Apart(area, other)
    ensures WholeArea(before, columns, rows, other) ==> WholeArea(after, columns, rows, other)
    ensures NarrowArea(before, columns, rows, other) ==> NarrowArea(after, columns, rows, other)
  {
    forall y | 0 <= y < rows && other.top <= y < other.bottom
      ensures WholeIn(Row(before, columns, rows, y), other.left, other.right) ==>
                WholeIn(Row(after, columns, rows, y), other.left, other.right)
      ensures NarrowIn(Row(before, columns, rows, y), other.left, other.right) ==>
                NarrowIn(Row(after, columns, rows, y), other.left, other.right)
    {
      assert RedrawnAt(before, after, columns, rows, area, y);
      KeptBeside(Row(before, columns, rows, y), Row(after, columns, rows, y), area, other, y);
    }
  }

  lemma KeptBeside(before: seq<Pixel>, after: seq<Pixel>, area: Area, other: Area, y: nat)
    requires Apart(area, other) && other.top <= y < other.bottom
    requires if area.top <= y < area.bottom then Redrawn(before, after, area.left, area.right) else after == before
    ensures WholeIn(before, other.left, other.right) ==> WholeIn(after, other.left, other.right)
    ensures NarrowIn(before, other.left, other.right) ==> NarrowIn(after, other.left, other.right)
  {
    if WholeIn(before, other.left, other.right) && area.top <= y < area.bottom {
      forall x | other.left <= x < other.right
        ensures WholeAt(after, other.left, other.right, x)
      {
        assert WholeAt(before, other.left, other.right, x);
      }
    }
  }

  /** Every cell is narrow or in one of the areas. */
  ghost predicate NarrowBeside(cells: seq<Pixel>, columns: nat, rows: nat, areas: seq<Area>)
    requires Grid(cells, columns, rows)
  {
    forall x, y :: 0 <= x < columns && 0 <= y < rows && !Covered(areas, x, y) ==>
      Row(cells, columns, rows, y)[x].width == 1
  }

  predicate Inside(area: Area, x: nat, y: nat) {
    area.left <= x < area.right && area.top <= y < area.bottom
  }

  predicate Covered(areas: seq<Area>, x: nat, y: nat) {
    exists i :: 0 <= i < |areas| && Inside(areas[i], x, y)
  }

  lemma BesideIsKept(before: seq<Pixel>, after: seq<Pixel>, columns: nat, rows: nat, areas: seq<Area>, i: nat)
    requires Grid(before, columns, rows) && Grid(after, columns, rows) && i < |areas|
    requires RedrawnArea(before, after, columns, rows, areas[i]) && NarrowBeside(before, columns, rows, areas)
    ensures NarrowBeside(after, columns, rows, areas)
  {
    forall x, y | 0 <= x < columns && 0 <= y < rows && !Covered(areas, x, y)
      ensures Row(after, columns, rows, y)[x].width == 1
    {
      assert RedrawnAt(before, after, columns, rows, areas[i], y);
      assert !Inside(areas[i], x, y);
    }
  }

  /** When all areas have whole glyphs and all else is narrow, there is no half glyph anywhere. */
  lemma WholeAreasPair(cells: seq<Pixel>, columns: nat, rows: nat, areas: seq<Area>)
    requires Grid(cells, columns, rows) && NarrowBeside(cells, columns, rows, areas)
    requires forall i :: 0 <= i < |areas| ==> WholeArea(cells, columns, rows, areas[i])
    ensures AllPaired(cells)
  {
    forall at | 0 <= at < |cells|
      ensures Paired(cells, at)
    {
      var x, y := PlaceOf(at, columns, rows);
      var row := Row(cells, columns, rows, y);
      assert row[x] == cells[at];
      assert x + 1 < columns ==> row[x + 1] == cells[at + 1];
      assert 0 < x ==> row[x - 1] == cells[at - 1];
      if Covered(areas, x, y) {
        var i :| 0 <= i < |areas| && Inside(areas[i], x, y);
        assert WholeAt(row, areas[i].left, areas[i].right, x);
      }
    }
  }

  /** The column and the row of a cell. */
  lemma PlaceOf(at: nat, columns: nat, rows: nat) returns (x: nat, y: nat)
    requires at < rows * columns
    ensures x < columns && y < rows && at == y * columns + x
  {
    y := 0;
    while (y + 1) * columns <= at
      invariant y < rows && y * columns <= at
      decreases rows - y
    {
      y := y + 1;
      if y >= rows {
        RowFits(rows - 1, y, columns);
      }
    }
    x := at - y * columns;
  }

  // ----- A row of a frozen pane -----

  /** A character of a frozen text, in the pen in which it is shown. */
  datatype CopyGlyph = CopyGlyph(ch: char, width: nat, pen: Pen)

  function Put(row: seq<Pixel>, x: nat, glyph: CopyGlyph): (put: seq<Pixel>)
    requires 1 <= glyph.width <= 2 && x + glyph.width <= |row|
    ensures |put| == |row|
  {
    var lead := row[x := Pixel(glyph.ch, glyph.width, glyph.pen)];
    if glyph.width == 2 then lead[x + 1 := Pixel(' ', 0, glyph.pen)] else lead
  }

  lemma PutIsWhole(row: seq<Pixel>, left: nat, right: nat, x: nat, glyph: CopyGlyph)
    requires 1 <= glyph.width <= 2 && left <= x && x + glyph.width <= right && WholeIn(row, left, right)
    requires row[x].width == 1 && (glyph.width == 2 ==> row[x + 1].width == 1)
    ensures Redrawn(row, Put(row, x, glyph), left, right)
  {
    forall at | left <= at < right
      ensures WholeAt(Put(row, x, glyph), left, right, at)
    {
      assert WholeAt(row, left, right, at);
    }
  }

  lemma RedrawnTwice(a: seq<Pixel>, b: seq<Pixel>, c: seq<Pixel>, left: nat, right: nat)
    requires Redrawn(a, b, left, right) && Redrawn(b, c, left, right)
    ensures Redrawn(a, c, left, right)
  {
  }

  lemma AreaRedrawnTwice(a: seq<Pixel>, b: seq<Pixel>, c: seq<Pixel>, columns: nat, rows: nat, area: Area)
    requires Grid(a, columns, rows) && Grid(b, columns, rows) && Grid(c, columns, rows)
    requires RedrawnArea(a, b, columns, rows, area) && RedrawnArea(b, c, columns, rows, area)
    ensures RedrawnArea(a, c, columns, rows, area)
  {
    forall y | 0 <= y < rows
      ensures RedrawnAt(a, c, columns, rows, area, y)
    {
      assert RedrawnAt(a, b, columns, rows, area, y) && RedrawnAt(b, c, columns, rows, area, y);
    }
  }

  lemma NothingRedrawn(cells: seq<Pixel>, columns: nat, rows: nat, area: Area)
    requires Grid(cells, columns, rows) && area.right <= columns && WholeArea(cells, columns, rows, area)
    ensures RedrawnArea(cells, cells, columns, rows, area)
  {
  }

  lemma NarrowAreaIsWhole(cells: seq<Pixel>, columns: nat, rows: nat, area: Area)
    requires Grid(cells, columns, rows) && NarrowArea(cells, columns, rows, area)
    ensures WholeArea(cells, columns, rows, area)
  {
  }

  /** Changing one row of an area, and leaving whole glyphs there, redraws the area. */
  lemma OneRowRedrawn(before: seq<Pixel>, after: seq<Pixel>, columns: nat, rows: nat, area: Area, y: nat)
    requires Grid(before, columns, rows) && Grid(after, columns, rows) && y < rows && area.top <= y < area.bottom
    requires area.right <= columns && WholeArea(before, columns, rows, area)
    requires OnlyRow(before, after, columns, rows, y, Row(after, columns, rows, y))
    requires Redrawn(Row(before, columns, rows, y), Row(after, columns, rows, y), area.left, area.right)
    ensures RedrawnArea(before, after, columns, rows, area)
  {
    forall other | 0 <= other < rows
      ensures RedrawnAt(before, after, columns, rows, area, other)
    {
      if other != y && area.top <= other < area.bottom {
        assert WholeIn(Row(before, columns, rows, other), area.left, area.right);
      }
    }
  }

  // ----- The label of an exited pane -----

  function Labelled(row: seq<Pixel>, notice: seq<Pixel>, left: nat, offset: nat): (labelled: seq<Pixel>)
    ensures |labelled| == |row|
  {
    seq(|row|, x requires 0 <= x < |row| =>
      if left <= x + offset < left + |notice| then notice[x + offset - left] else row[x])
  }

  lemma LabelIsWhole(row: seq<Pixel>, notice: seq<Pixel>, left: nat, offset: nat)
    requires NarrowIn(notice, 0, |notice|)
    ensures Redrawn(row, Labelled(row, notice, left, offset),
                    Sub(left, offset), Min(Sub(left + |notice|, offset), |row|))
  {
    NarrowIsWhole(Labelled(row, notice, left, offset), Sub(left, offset), Min(Sub(left + |notice|, offset), |row|));
  }

  // ----- Badges -----

  /** No glyph of the area reaches over its left or right border. */
  ghost predicate Bordered(cells: seq<Pixel>, columns: nat, rows: nat, area: Area)
    requires Grid(cells, columns, rows)
  {
    forall y :: 0 <= y < rows && area.top <= y < area.bottom && area.left < area.right <= columns ==>
      Row(cells, columns, rows, y)[area.left].width != 0 && Row(cells, columns, rows, y)[area.right - 1].width != 2
  }

  lemma WholeIsBordered(cells: seq<Pixel>, columns: nat, rows: nat, area: Area)
    requires Grid(cells, columns, rows) && WholeArea(cells, columns, rows, area)
    ensures Bordered(cells, columns, rows, area)
  {
    forall y | 0 <= y < rows && area.top <= y < area.bottom && area.left < area.right <= columns
      ensures Row(cells, columns, rows, y)[area.left].width != 0
      ensures Row(cells, columns, rows, y)[area.right - 1].width != 2
    {
      var row := Row(cells, columns, rows, y);
      assert WholeAt(row, area.left, area.right, area.left);
      assert WholeAt(row, area.left, area.right, area.right - 1);
    }
  }

  /** A badge changes cells to narrow ones or not at all. */
  ghost predicate Narrowed(before: seq<Pixel>, after: seq<Pixel>) {
    |after| == |before| && forall j :: 0 <= j < |before| ==> after[j] == before[j] || after[j].width == 1
  }

  lemma NarrowedKeepsBorders(before: seq<Pixel>, after: seq<Pixel>, columns: nat, rows: nat, area: Area)
    requires Grid(before, columns, rows) && Narrowed(before, after) && Bordered(before, columns, rows, area)
    ensures Bordered(after, columns, rows, area)
  {
    forall y | 0 <= y < rows && area.top <= y < area.bottom && area.left < area.right <= columns
      ensures Row(after, columns, rows, y)[area.left].width != 0
      ensures Row(after, columns, rows, y)[area.right - 1].width != 2
    {
      var start := y * columns;
      assert Row(after, columns, rows, y)[area.left] == after[start + area.left];
      assert Row(before, columns, rows, y)[area.left] == before[start + area.left];
      assert Row(after, columns, rows, y)[area.right - 1] == after[start + (area.right - 1)];
      assert Row(before, columns, rows, y)[area.right - 1] == before[start + (area.right - 1)];
    }
  }

  // ----- All panes -----

  /** The first `drawn` areas have whole glyphs, and all other cells are narrow. */
  ghost predicate DrawnSoFar(cells: seq<Pixel>, columns: nat, rows: nat, areas: seq<Area>, drawn: nat)
    requires Grid(cells, columns, rows)
  {
    && (forall i :: 0 <= i < |areas| && i < drawn ==> WholeArea(cells, columns, rows, areas[i]))
    && (forall i :: drawn <= i < |areas| ==> NarrowArea(cells, columns, rows, areas[i]))
    && NarrowBeside(cells, columns, rows, areas)
  }

  ghost predicate AllApart(areas: seq<Area>) {
    forall i, j :: 0 <= i < |areas| && 0 <= j < |areas| && i != j ==> Apart(areas[i], areas[j])
  }

  lemma OneMoreDrawn(before: seq<Pixel>, after: seq<Pixel>, columns: nat, rows: nat, areas: seq<Area>, drawn: nat)
    requires Grid(before, columns, rows) && Grid(after, columns, rows) && drawn < |areas| && AllApart(areas)
    requires DrawnSoFar(before, columns, rows, areas, drawn)
    requires RedrawnArea(before, after, columns, rows, areas[drawn])
    ensures DrawnSoFar(after, columns, rows, areas, drawn + 1)
  {
    hide WholeArea, NarrowArea, NarrowBeside, RedrawnArea, Apart;
    BesideIsKept(before, after, columns, rows, areas, drawn);
    RedrawnIsWhole(before, after, columns, rows, areas[drawn]);
    forall i | 0 <= i < |areas| && i != drawn
      ensures WholeArea(before, columns, rows, areas[i]) ==> WholeArea(after, columns, rows, areas[i])
      ensures NarrowArea(before, columns, rows, areas[i]) ==> NarrowArea(after, columns, rows, areas[i])
    {
      ApartIsKept(before, after, columns, rows, areas[drawn], areas[i]);
    }
  }

  lemma RedrawnIsWhole(before: seq<Pixel>, after: seq<Pixel>, columns: nat, rows: nat, area: Area)
    requires Grid(before, columns, rows) && Grid(after, columns, rows)
    requires RedrawnArea(before, after, columns, rows, area)
    ensures WholeArea(after, columns, rows, area)
  {
    forall y | 0 <= y < rows && area.top <= y < area.bottom
      ensures WholeIn(Row(after, columns, rows, y), area.left, area.right)
    {
      assert RedrawnAt(before, after, columns, rows, area, y);
    }
  }

  lemma BlankIsNarrow(cells: seq<Pixel>, columns: nat, rows: nat, areas: seq<Area>)
    requires Grid(cells, columns, rows) && forall i :: 0 <= i < |cells| ==> cells[i].width == 1
    requires forall i :: 0 <= i < |areas| ==> areas[i].right <= columns
    ensures DrawnSoFar(cells, columns, rows, areas, 0)
  {
  }

  /** Changing a cell in none of the areas to a narrow one keeps them all. */
  lemma BesideAreas(before: seq<Pixel>, after: seq<Pixel>, columns: nat, rows: nat, areas: seq<Area>,
                    x: nat, y: nat, pixel: Pixel)
    requires Grid(before, columns, rows) && Grid(after, columns, rows) && x < columns && y < rows
    requires pixel.width == 1 && !Covered(areas, x, y) && DrawnSoFar(before, columns, rows, areas, |areas|)
    requires OnlyRow(before, after, columns, rows, y, Row(before, columns, rows, y)[x := pixel])
    ensures DrawnSoFar(after, columns, rows, areas, |areas|)
  {
    forall i, other | 0 <= i < |areas| && 0 <= other < rows && areas[i].top <= other < areas[i].bottom
      ensures WholeIn(Row(after, columns, rows, other), areas[i].left, areas[i].right)
    {
      assert WholeArea(before, columns, rows, areas[i]) && !Inside(areas[i], x, y);
      var row, next := Row(before, columns, rows, other), Row(after, columns, rows, other);
      forall at | areas[i].left <= at < areas[i].right
        ensures WholeAt(next, areas[i].left, areas[i].right, at)
      {
        assert WholeAt(row, areas[i].left, areas[i].right, at);
      }
    }
  }

  // ----- Whole frames -----

  function Full(columns: nat, rows: nat): Area {
    Area(0, 0, columns, rows)
  }

  /** No glyph of a drawn frame reaches over the end of its row. */
  lemma DrawnIsBordered(cells: seq<Pixel>, columns: nat, rows: nat, areas: seq<Area>)
    requires Grid(cells, columns, rows) && DrawnSoFar(cells, columns, rows, areas, |areas|)
    ensures Bordered(cells, columns, rows, Full(columns, rows))
  {
    forall y | 0 <= y < rows && 0 < columns
      ensures Row(cells, columns, rows, y)[0].width != 0
      ensures Row(cells, columns, rows, y)[columns - 1].width != 2
    {
      EdgeIsWhole(cells, columns, rows, areas, 0, y);
      EdgeIsWhole(cells, columns, rows, areas, columns - 1, y);
    }
  }

  lemma EdgeIsWhole(cells: seq<Pixel>, columns: nat, rows: nat, areas: seq<Area>, x: nat, y: nat)
    requires Grid(cells, columns, rows) && DrawnSoFar(cells, columns, rows, areas, |areas|)
    requires x < columns && y < rows
    ensures x == 0 ==> Row(cells, columns, rows, y)[x].width != 0
    ensures x == columns - 1 ==> Row(cells, columns, rows, y)[x].width != 2
  {
    if Covered(areas, x, y) {
      var i :| 0 <= i < |areas| && Inside(areas[i], x, y);
      assert WholeArea(cells, columns, rows, areas[i]);
      assert WholeAt(Row(cells, columns, rows, y), areas[i].left, areas[i].right, x);
    }
  }

  lemma PairedIsWhole(cells: seq<Pixel>, columns: nat, rows: nat)
    requires Grid(cells, columns, rows) && AllPaired(cells) && Bordered(cells, columns, rows, Full(columns, rows))
    ensures WholeArea(cells, columns, rows, Full(columns, rows))
  {
    forall x, y | 0 <= x < columns && 0 <= y < rows
      ensures WholeAt(Row(cells, columns, rows, y), 0, columns, x)
    {
      var row, start := Row(cells, columns, rows, y), y * columns;
      assert row[x] == cells[start + x] && Paired(cells, start + x);
      assert row[0].width != 0 && row[columns - 1].width != 2;
      assert x + 1 < columns ==> row[x + 1] == cells[start + x + 1];
      assert 0 < x ==> row[x - 1] == cells[start + x - 1];
    }
  }

  lemma WholeFrameIsPaired(cells: seq<Pixel>, columns: nat, rows: nat)
    requires Grid(cells, columns, rows) && WholeArea(cells, columns, rows, Full(columns, rows))
    ensures AllPaired(cells)
  {
    var areas := [Full(columns, rows)];
    forall x, y | 0 <= x < columns && 0 <= y < rows
      ensures Covered(areas, x, y)
    {
      assert Inside(areas[0], x, y);
    }
    WholeAreasPair(cells, columns, rows, areas);
  }

  lemma WholeRowEnds(cells: seq<Pixel>, columns: nat, rows: nat, x: nat, y: nat)
    requires Grid(cells, columns, rows) && WholeArea(cells, columns, rows, Full(columns, rows))
    requires x < columns && y < rows
    ensures y * columns + x < |cells| && (cells[y * columns + x].width == 2 ==> x + 1 < columns)
  {
    var row := Row(cells, columns, rows, y);
    assert WholeIn(row, 0, columns) && WholeAt(row, 0, columns, x);
    assert row[x] == cells[y * columns + x];
  }

  /** A frame of whole rows is what the renderer expects. */
  lemma WholeFrameIsWellFormed(frame: Frame)
    requires frame.columns <= MAX_U16 && Sized(frame)
    requires WholeArea(frame.cells, frame.columns, frame.rows, Full(frame.columns, frame.rows))
    requires frame.cursor.Some? ==> frame.cursor.value.0 < frame.columns && frame.cursor.value.1 < frame.rows
    ensures WellFormed(frame)
  {
    hide WholeArea, Row, Paired;
    WholeFrameIsPaired(frame.cells, frame.columns, frame.rows);
    forall x, y | 0 <= x < frame.columns && 0 <= y < frame.rows && frame.cells[Index(frame, x, y)].width == 2
      ensures x + 1 < frame.columns
    {
      WholeRowEnds(frame.cells, frame.columns, frame.rows, x, y);
    }
  }
}
