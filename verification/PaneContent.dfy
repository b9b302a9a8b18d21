/**
 What a pane shows, cell by cell: the cell of its terminal that belongs there, its label, or the
 character of its frozen text.
 */
module PaneContent {
  import opened Basics
  import opened Options
  import opened Render
  import opened Drawing

  function At(cells: seq<Pixel>, columns: nat, rows: nat, x: nat, y: nat): Pixel
    requires Grid(cells, columns, rows) && x < columns && y < rows
  {
    Row(cells, columns, rows, y)[x]
  }

  // ----- Live panes -----

  /** The other half of this wide glyph is not in sight. */
  predicate HalfHidden(pixel: Pixel, area: Area, x: nat) {
    (pixel.width == 2 && x + 1 >= area.right) || (pixel.width == 0 && x <= area.left)
  }

  /** A cell of the terminal, or what was there if the terminal has none or only half a glyph. */
  function LiveCell(line: seq<Pixel>, column: nat, area: Area, x: nat, before: Pixel): Pixel {
    if column < |line| && !HalfHidden(line[column], area, x) then line[column] else before
  }

  // ----- Frozen panes -----

  /** The cells that the first `k` characters of a line take. */
  function CellsBefore(line: seq<CopyGlyph>, k: nat): nat
    requires k <= |line|
  {
    if k == 0 then 0 else CellsBefore(line, k - 1) + line[k - 1].width
  }

  /** The column of the screen in which a character of a frozen line belongs, which may be out of sight,
      when the first `hidden` columns of the line are scrolled out of the pane. */
  function ScreenColumn(line: seq<CopyGlyph>, k: nat, rect: Rect, hidden: nat, offset: nat): int
    requires k <= |line|
  {
    rect.left + CellsBefore(line, k) - hidden - offset
  }

  /** All of the character is in sight. */
  predicate InSight(line: seq<CopyGlyph>, k: nat, rect: Rect, hidden: nat, offset: nat, area: Area)
    requires k < |line|
  {
    && line[k].width > 0 && area.left <= ScreenColumn(line, k, rect, hidden, offset)
    && ScreenColumn(line, k, rect, hidden, offset) + line[k].width <= area.right
  }

  /** This character is drawn on column `x`. */
  predicate DrawnOn(line: seq<CopyGlyph>, k: nat, rect: Rect, hidden: nat, offset: nat, area: Area, x: nat)
    requires k < |line|
  {
    && InSight(line, k, rect, hidden, offset, area)
    && ScreenColumn(line, k, rect, hidden, offset) <= x < ScreenColumn(line, k, rect, hidden, offset) + line[k].width
  }

  function GlyphCell(glyph: CopyGlyph, first: bool): Pixel {
    if first then Pixel(glyph.ch, glyph.width, glyph.pen) else Pixel(' ', 0, glyph.pen)
  }

  /** With the first `n` characters of the line drawn, the cell shows the one that is drawn on it, or what
      was there if none is. */
  ghost predicate FrozenCell(line: seq<CopyGlyph>, n: nat, rect: Rect, hidden: nat, offset: nat, area: Area,
                             x: nat, before: Pixel, cell: Pixel)
    requires n <= |line|
  {
    && (forall k :: 0 <= k < n && DrawnOn(line, k, rect, hidden, offset, area, x) ==>
          cell == GlyphCell(line[k], x == ScreenColumn(line, k, rect, hidden, offset)))
    && ((forall k :: 0 <= k < n ==> !DrawnOn(line, k, rect, hidden, offset, area, x)) ==> cell == before)
  }

  lemma {:induction false} CellsGrow(line: seq<CopyGlyph>, i: nat, j: nat)
    requires i < j <= |line|
    ensures CellsBefore(line, i) + line[i].width <= CellsBefore(line, j)
    decreases j
  {
    if i + 1 < j {
      CellsGrow(line, i, j - 1);
    }
  }

  /** The condition under which the source draws a character. */
  lemma InSightIff(line: seq<CopyGlyph>, k: nat, rect: Rect, hidden: nat, offset: (nat, nat), columns: nat, height: nat)
    requires k < |line| && line[k].width > 0
    ensures
      var column, width := CellsBefore(line, k), line[k].width;
      InSight(line, k, rect, hidden, offset.0, Visible(rect, offset, columns, height)) <==>
      && column >= hidden && column + width <= hidden + rect.columns
      && rect.left + column - hidden >= offset.0 && rect.left + column - hidden - offset.0 + width <= columns
  {
  }

  /** One more character has been drawn, if it is in sight. */
  lemma OneMoreGlyph(line: seq<CopyGlyph>, k: nat, rect: Rect, hidden: nat, offset: nat, area: Area,
                     x: nat, before: Pixel, cell: Pixel, next: Pixel)
    requires k < |line| && FrozenCell(line, k, rect, hidden, offset, area, x, before, cell)
    requires next == if DrawnOn(line, k, rect, hidden, offset, area, x)
                     then GlyphCell(line[k], x == ScreenColumn(line, k, rect, hidden, offset)) else cell
    ensures FrozenCell(line, k + 1, rect, hidden, offset, area, x, before, next)
  {
    hide CellsBefore;
    if DrawnOn(line, k, rect, hidden, offset, area, x) {
      forall i | 0 <= i < k
        ensures !DrawnOn(line, i, rect, hidden, offset, area, x)
      {
        CellsGrow(line, i, k);
      }
    } else if forall i :: 0 <= i < k + 1 ==> !DrawnOn(line, i, rect, hidden, offset, area, x) {
      assert forall i :: 0 <= i < k ==> !DrawnOn(line, i, rect, hidden, offset, area, x);
    }
  }

  /** Characters that begin behind the pane are not drawn. */
  lemma RestIsHidden(line: seq<CopyGlyph>, n: nat, rect: Rect, hidden: nat, offset: nat, area: Area,
                     x: nat, before: Pixel, cell: Pixel)
    requires n <= |line| && FrozenCell(line, n, rect, hidden, offset, area, x, before, cell)
    requires n < |line| ==> area.right <= ScreenColumn(line, n, rect, hidden, offset)
    ensures FrozenCell(line, |line|, rect, hidden, offset, area, x, before, cell)
  {
    hide CellsBefore;
    forall k | n <= k < |line|
      ensures !DrawnOn(line, k, rect, hidden, offset, area, x)
    {
      if n < k {
        CellsGrow(line, n, k);
      }
    }
  }

  // ----- What a pane shows -----

  function LineOf<T>(lines: seq<seq<T>>, row: nat): seq<T> {
    if row < |lines| then lines[row] else []
  }

  /** What column `x` of row `y` of the screen shows of a pane that it is in sight there. */
  ghost predicate ShowsContent(rect: Rect, content: Content, offset: (nat, nat), area: Area, x: nat, y: nat,
                               before: Pixel, cell: Pixel)
  {
    var column, row := Sub(x + offset.0, rect.left), Sub(y + offset.1, rect.top);
    match content
    case Live(lines, notice) =>
      if notice.Some? && row == 0 then column < |notice.value| && cell == notice.value[column]
      else cell == LiveCell(LineOf(lines, row), column, area, x, before)
    case Frozen(text, top, hidden) =>
      var line := LineOf(text, top + row);
      FrozenCell(line, |line|, rect, hidden, offset.0, area, x, before, cell)
  }

  /** The pane shows its content wherever it is in sight. */
  ghost predicate ShowsArea(before: seq<Pixel>, after: seq<Pixel>, columns: nat, rows: nat,
                            rect: Rect, content: Content, offset: (nat, nat), area: Area)
    requires Grid(before, columns, rows) && Grid(after, columns, rows)
  {
    forall x, y :: 0 <= x < columns && 0 <= y < rows && Inside(area, x, y) ==>
      ShowsContent(rect, content, offset, area, x, y, At(before, columns, rows, x, y), At(after, columns, rows, x, y))
  }

  /** A drawn row shows the line of the terminal that belongs there. */
  lemma DrawnRowShows(row: seq<Pixel>, line: seq<Pixel>, rect: Rect, offset: (nat, nat), height: nat, x: nat)
    requires AllPaired(line) && x < |row|
    requires
      var area := Visible(rect, offset, |row|, height);
      area.left <= x < area.right
    ensures
      var area := Visible(rect, offset, |row|, height);
      DrawnRow(row, line, rect.left, rect.columns, offset.0)[x]
      == LiveCell(line, Sub(x + offset.0, rect.left), area, x, row[x])
  {
    var column := x + offset.0 - rect.left;
    if column < |line| {
      assert Paired(line, column);
    }
  }

  /** The label covers the first row of its pane, and the other rows show what they did. */
  lemma LabelShows(before: seq<Pixel>, drawn: seq<Pixel>, after: seq<Pixel>, columns: nat, rows: nat, rect: Rect,
                   lines: seq<seq<Pixel>>, notice: seq<Pixel>, offset: (nat, nat), area: Area)
    requires Grid(before, columns, rows) && Grid(drawn, columns, rows) && Grid(after, columns, rows)
    requires |notice| == rect.columns && area == Visible(rect, offset, columns, Sub(rows, 1))
    requires ShowsArea(before, drawn, columns, rows, rect, Live(lines, None), offset, area)
    requires forall y :: 0 <= y < rows ==>
               Row(after, columns, rows, y) ==
               if area.top <= y < area.bottom && y + offset.1 == rect.top
               then Labelled(Row(drawn, columns, rows, y), notice, rect.left, offset.0)
               else Row(drawn, columns, rows, y)
    ensures ShowsArea(before, after, columns, rows, rect, Live(lines, Some(notice)), offset, area)
  {
    hide Row, LiveCell, Labelled;
    forall x, y | 0 <= x < columns && 0 <= y < rows && Inside(area, x, y)
      ensures ShowsContent(rect, Live(lines, Some(notice)), offset, area, x, y,
                           At(before, columns, rows, x, y), At(after, columns, rows, x, y))
    {
      assert ShowsContent(rect, Live(lines, None), offset, area, x, y,
                          At(before, columns, rows, x, y), At(drawn, columns, rows, x, y));
      LabelledAt(Row(drawn, columns, rows, y), notice, rect.left, offset.0, x);
    }
  }

  lemma LabelledAt(row: seq<Pixel>, notice: seq<Pixel>, left: nat, offset: nat, x: nat)
    requires x < |row| && left <= x + offset < left + |notice|
    ensures Labelled(row, notice, left, offset)[x] == notice[x + offset - left]
  {
  }

  // ----- Several panes -----

  /** Outside of an area nothing has changed. */
  lemma UnchangedBeside(before: seq<Pixel>, after: seq<Pixel>, columns: nat, rows: nat, area: Area, x: nat, y: nat)
    requires Grid(before, columns, rows) && Grid(after, columns, rows) && x < columns && y < rows
    requires RedrawnArea(before, after, columns, rows, area) && !Inside(area, x, y)
    ensures At(after, columns, rows, x, y) == At(before, columns, rows, x, y)
  {
    assert RedrawnAt(before, after, columns, rows, area, y);
  }

  lemma ApartIsNotInside(a: Area, b: Area, x: nat, y: nat)
    requires Apart(a, b) && Inside(a, x, y)
    ensures !Inside(b, x, y)
  {
  }

  /** Of the panes drawn on an empty frame, the first `drawn` show their content, and all other cells are
      as they were. */
  ghost predicate PanesShown(start: seq<Pixel>, cells: seq<Pixel>, columns: nat, rows: nat,
                             panes: seq<(Rect, Content)>, areas: seq<Area>, offset: (nat, nat), drawn: nat)
    requires Grid(start, columns, rows) && Grid(cells, columns, rows) && |areas| == |panes|
  {
    && (forall i :: 0 <= i < |panes| && i < drawn ==>
          ShowsArea(start, cells, columns, rows, panes[i].0, panes[i].1, offset, areas[i]))
    && (forall x, y :: 0 <= x < columns && 0 <= y < rows && !Covered(areas[..Min(drawn, |areas|)], x, y) ==>
          At(cells, columns, rows, x, y) == At(start, columns, rows, x, y))
  }

  lemma OneMoreShown(start: seq<Pixel>, before: seq<Pixel>, after: seq<Pixel>, columns: nat, rows: nat,
                     panes: seq<(Rect, Content)>, areas: seq<Area>, offset: (nat, nat), drawn: nat)
    requires Grid(start, columns, rows) && Grid(before, columns, rows) && Grid(after, columns, rows)
    requires |areas| == |panes| && drawn < |panes| && AllApart(areas)
    requires PanesShown(start, before, columns, rows, panes, areas, offset, drawn)
    requires RedrawnArea(before, after, columns, rows, areas[drawn])
    requires ShowsArea(before, after, columns, rows, panes[drawn].0, panes[drawn].1, offset, areas[drawn])
    ensures PanesShown(start, after, columns, rows, panes, areas, offset, drawn + 1)
  {
    hide ShowsContent, RedrawnArea, Row, Inside, Apart;
    forall i | 0 <= i < drawn
      ensures ShowsArea(start, after, columns, rows, panes[i].0, panes[i].1, offset, areas[i])
    {
      StillShown(start, before, after, columns, rows, panes[i].0, panes[i].1, offset, areas[i], areas[drawn]);
    }
    forall x, y | 0 <= x < columns && 0 <= y < rows && Inside(areas[drawn], x, y)
      ensures At(before, columns, rows, x, y) == At(start, columns, rows, x, y)
    {
      forall i | 0 <= i < drawn
        ensures !Inside(areas[..drawn][i], x, y)
      {
        ApartIsNotInside(areas[drawn], areas[i], x, y);
      }
    }
    assert ShowsArea(start, after, columns, rows, panes[drawn].0, panes[drawn].1, offset, areas[drawn]);
    forall x, y | 0 <= x < columns && 0 <= y < rows && !Covered(areas[..drawn + 1], x, y)
      ensures At(after, columns, rows, x, y) == At(start, columns, rows, x, y)
    {
      assert areas[..drawn + 1][drawn] == areas[drawn];
      assert forall i :: 0 <= i < drawn ==> areas[..drawn + 1][i] == areas[..drawn][i];
      UnchangedBeside(before, after, columns, rows, areas[drawn], x, y);
    }
  }

  lemma StillShown(start: seq<Pixel>, before: seq<Pixel>, after: seq<Pixel>, columns: nat, rows: nat,
                   rect: Rect, content: Content, offset: (nat, nat), area: Area, other: Area)
    requires Grid(start, columns, rows) && Grid(before, columns, rows) && Grid(after, columns, rows)
    requires ShowsArea(start, before, columns, rows, rect, content, offset, area) && Apart(area, other)
    requires RedrawnArea(before, after, columns, rows, other)
    ensures ShowsArea(start, after, columns, rows, rect, content, offset, area)
  {
    hide ShowsContent, RedrawnArea, Row;
    forall x, y | 0 <= x < columns && 0 <= y < rows && Inside(area, x, y)
      ensures At(after, columns, rows, x, y) == At(before, columns, rows, x, y)
    {
      ApartIsNotInside(area, other, x, y);
      UnchangedBeside(before, after, columns, rows, other, x, y);
    }
  }

  // ----- Dividers -----

  /** A divider's cell: upright behind a pane, else level. */
  function DividerCell(areas: seq<Area>, x: nat, y: nat, pen: Pen): Pixel {
    Pixel(if x > 0 && Covered(areas, x - 1, y) then '\U{2502}' else '\U{2500}', 1, pen)
  }

  /** Up to row `line` and, in that row, up to column `end`, each cell of the canvas that no pane covers
      has its divider; all other cells are as they were. */
  ghost predicate Divided(before: seq<Pixel>, after: seq<Pixel>, columns: nat, rows: nat, areas: seq<Area>,
                          width: nat, pens: (nat, nat) -> Pen, line: nat, end: nat)
    requires Grid(before, columns, rows) && Grid(after, columns, rows)
  {
    forall x, y :: 0 <= x < columns && 0 <= y < rows ==>
      At(after, columns, rows, x, y) ==
      if !Covered(areas, x, y) && x < width && (y < line || (y == line && x < end))
      then DividerCell(areas, x, y, pens(x, y)) else At(before, columns, rows, x, y)
  }

  lemma OneMoreDivided(start: seq<Pixel>, before: seq<Pixel>, after: seq<Pixel>, columns: nat, rows: nat,
                       areas: seq<Area>, width: nat, pens: (nat, nat) -> Pen, x: nat, y: nat)
    requires Grid(start, columns, rows) && Grid(before, columns, rows) && Grid(after, columns, rows)
    requires x < width <= columns && y < rows
    requires Divided(start, before, columns, rows, areas, width, pens, y, x)
    requires if Covered(areas, x, y) then after == before
             else OnlyRow(before, after, columns, rows, y,
                          Row(before, columns, rows, y)[x := DividerCell(areas, x, y, pens(x, y))])
    ensures Divided(start, after, columns, rows, areas, width, pens, y, x + 1)
  {
    hide Row, Covered, DividerCell;
    forall at, line | 0 <= at < columns && 0 <= line < rows
      ensures At(after, columns, rows, at, line) ==
              if !Covered(areas, at, line) && at < width && (line < y || (line == y && at < x + 1))
              then DividerCell(areas, at, line, pens(at, line)) else At(start, columns, rows, at, line)
    {
      assert At(before, columns, rows, at, line) ==
             if !Covered(areas, at, line) && at < width && (line < y || (line == y && at < x))
             then DividerCell(areas, at, line, pens(at, line)) else At(start, columns, rows, at, line);
    }
  }

  lemma RowDivided(start: seq<Pixel>, cells: seq<Pixel>, columns: nat, rows: nat, areas: seq<Area>,
                   width: nat, pens: (nat, nat) -> Pen, y: nat)
    requires Grid(start, columns, rows) && Grid(cells, columns, rows) && width <= columns
    requires Divided(start, cells, columns, rows, areas, width, pens, y, width)
    ensures Divided(start, cells, columns, rows, areas, width, pens, y + 1, 0)
  {
    hide Row, Covered, DividerCell;
  }

  lemma NothingDivided(cells: seq<Pixel>, columns: nat, rows: nat, areas: seq<Area>,
                       width: nat, pens: (nat, nat) -> Pen)
    requires Grid(cells, columns, rows)
    ensures Divided(cells, cells, columns, rows, areas, width, pens, 0, 0)
  {}

  /** Nothing of a pane has been drawn, and nothing of it is to be seen. */
  lemma NothingShown(cells: seq<Pixel>, columns: nat, rows: nat, panes: seq<(Rect, Content)>, areas: seq<Area>,
                     offset: (nat, nat))
    requires Grid(cells, columns, rows) && |areas| == |panes|
    ensures PanesShown(cells, cells, columns, rows, panes, areas, offset, 0)
  {}
}
