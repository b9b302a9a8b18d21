/**
 Painting pane-number badges over a finished frame. A badge may start or end in the middle of
 a wide glyph; the other half of such a glyph must not survive on its own.
 */
module Badges {
  import opened Basics
  import opened Options
  import opened Render
  import opened Drawing
  import opened PaneContent

  function Blank(pen: Pen): Pixel {
    Pixel(' ', 1, pen)
  }

  /** The cell at `j` after a badge has been painted over the `width` cells from `at` on, in a pane
      whose cells in this row are `left..right`. */
  function Badged(cells: seq<Pixel>, at: nat, badge: string, pen: Pen, left: nat, right: nat, j: nat): Pixel
    requires 0 < |badge| && at + |badge| <= |cells| && j < |cells|
  {
    var end := at + |badge|;
    if at <= j < end then Pixel(badge[j - at], 1, pen)
    else if j + 1 == at && left < at && cells[at].width == 0 then Blank(cells[j].pen)
    else if j == end && end < right && cells[end - 1].width == 2 then Blank(cells[j].pen)
    else cells[j]
  }

  /** A wide glyph reaches over the pane's border exactly where the badge touches that border. */
  predicate CutAtBorder(cells: seq<Pixel>, at: nat, width: nat, left: nat, right: nat)
    requires 0 < width && at + width <= |cells|
  {
    || (at == left && cells[at].width == 0)
    || (at + width == right && cells[at + width - 1].width == 2)
  }

  /** `before` has become `after` by painting one badge into the row that starts at `row`; wide
      glyphs stay whole unless one reaches over a border that the badge touches. */
  ghost predicate Repainted(before: seq<Pixel>, after: seq<Pixel>, row: nat, x: nat, badge: string, pen: Pen,
                          left: nat, right: nat) {
    && |after| == |before|
    && 0 < |badge| && left <= x && x + |badge| <= right && row + right <= |before|
    && (forall j :: 0 <= j < |after| ==> after[j] == Badged(before, row + x, badge, pen, row + left, row + right, j))
    && (AllPaired(after) <==> !CutAtBorder(before, row + x, |badge|, row + left, row + right))
  }

  /** A badge keeps wide glyphs whole or removes both their halves, with exactly one exception:
      it touches the border of its pane where a wide glyph reaches over that border. */
  lemma BadgeKeepsPairsIff(cells: seq<Pixel>, at: nat, badge: string, pen: Pen, left: nat, right: nat,
                           painted: seq<Pixel>)
    requires 0 < |badge| && left <= at && at + |badge| <= right <= |cells| && AllPaired(cells)
    requires |painted| == |cells|
    requires forall j :: 0 <= j < |cells| ==> painted[j] == Badged(cells, at, badge, pen, left, right, j)
    ensures AllPaired(painted) <==> !CutAtBorder(cells, at, |badge|, left, right)
  {
    var end := at + |badge|;
    assert Paired(cells, at) && Paired(cells, end - 1);
    if CutAtBorder(cells, at, |badge|, left, right) {
      if at == left && cells[at].width == 0 {
        assert Paired(cells, at - 1) && !Paired(painted, at - 1);
      } else {
        assert Paired(cells, end) && !Paired(painted, end);
      }
    } else {
      forall j | 0 <= j < |cells|
        ensures Paired(painted, j)
      {
        assert Paired(cells, j);
        assert j + 1 < |cells| ==> Paired(cells, j + 1);
        assert 0 < j ==> Paired(cells, j - 1);
      }
    }
  }

  /** The other half of the glyph at `index` becomes a blank, unless it is outside of the pane. */
  function HalfCleared(cells: seq<Pixel>, left: nat, right: nat, index: nat): seq<Pixel>
    requires left <= index < right <= |cells|
  {
    if cells[index].width == 0 && left < index then cells[index - 1 := Blank(cells[index - 1].pen)]
    else if cells[index].width == 2 && index + 1 < right then cells[index + 1 := Blank(cells[index + 1].pen)]
    else cells
  }

  /** The glyphs under the badge have been cleared up to `next`: outside of the badge, only the half
      before it may have changed, and at the end the half behind it. */
  ghost predicate Cleared(before: seq<Pixel>, now: seq<Pixel>, at: nat, width: nat, left: nat, right: nat, next: nat) {
    && |now| == |before| && left <= at <= next <= at + width <= right <= |before| && 0 < width
    && (forall j :: next <= j < at + width ==>
          now[j] == before[j] || (at < next && j == next && now[j].width == 1 && before[j].width == 0))
    && (forall j :: 0 <= j < at ==>
          now[j] == if at < next && j + 1 == at && left < at && before[at].width == 0
                    then Blank(before[j].pen) else before[j])
    && (forall j :: at + width <= j < |now| ==>
          now[j] == if next == j == at + width && j < right && before[at + width - 1].width == 2
                    then Blank(before[j].pen) else before[j])
  }

  lemma NothingCleared(cells: seq<Pixel>, at: nat, width: nat, left: nat, right: nat)
    requires left <= at && 0 < width && at + width <= right <= |cells|
    ensures Cleared(cells, cells, at, width, left, right, at)
  {
  }

  lemma CellCleared(before: seq<Pixel>, now: seq<Pixel>, at: nat, width: nat, left: nat, right: nat, next: nat)
    requires AllPaired(before) && Cleared(before, now, at, width, left, right, next) && next < at + width
    ensures Cleared(before, HalfCleared(now, left, right, next), at, width, left, right, next + 1)
  {
    assert Paired(before, next);
  }

  lemma AllCleared(before: seq<Pixel>, now: seq<Pixel>, at: nat, width: nat, left: nat, right: nat)
    requires Cleared(before, now, at, width, left, right, at + width)
    ensures forall j :: 0 <= j < |now| && !(at <= j < at + width) ==>
              now[j] == Badged(before, at, seq(width, _ => ' '), before[0].pen, left, right, j)
  {
  }

  /** When every row of a pane in sight has been drawn, the pane shows the lines of its terminal. */
  lemma LinesDrawn(before: seq<Pixel>, after: seq<Pixel>, columns: nat, rows: nat,
                   rect: Rect, lines: seq<seq<Pixel>>, offset: (nat, nat))
    requires Grid(before, columns, rows) && Grid(after, columns, rows)
    requires forall i :: 0 <= i < |lines| ==> AllPaired(lines[i])
    requires NarrowArea(before, columns, rows, Visible(rect, offset, columns, Sub(rows, 1)))
    requires
      var area := Visible(rect, offset, columns, Sub(rows, 1));
      forall y :: 0 <= y < rows ==>
        Row(after, columns, rows, y) ==
        if area.top <= y < area.bottom
        then DrawnRow(Row(before, columns, rows, y), LineOf(lines, y + offset.1 - rect.top),
                      rect.left, rect.columns, offset.0)
        else Row(before, columns, rows, y)
    ensures
      var area := Visible(rect, offset, columns, Sub(rows, 1));
      && RedrawnArea(before, after, columns, rows, area)
      && ShowsArea(before, after, columns, rows, rect, Live(lines, None), offset, area)
  {
    hide Row, DrawnRow, NarrowIn, WholeIn, LiveCell;
    var area := Visible(rect, offset, columns, Sub(rows, 1));
    forall y | 0 <= y < rows && area.top <= y < area.bottom
      ensures RedrawnAt(before, after, columns, rows, area, y)
    {
      var line := LineOf(lines, y + offset.1 - rect.top);
      assert AllPaired(line);
      DrawnIsWhole(Row(before, columns, rows, y), line, rect.left, rect.columns, offset.0);
    }
    forall x, y | 0 <= x < columns && 0 <= y < rows && Inside(area, x, y)
      ensures ShowsContent(rect, Live(lines, None), offset, area, x, y,
                           At(before, columns, rows, x, y), At(after, columns, rows, x, y))
    {
      var line := LineOf(lines, y + offset.1 - rect.top);
      assert AllPaired(line);
      DrawnRowShows(Row(before, columns, rows, y), line, rect, offset, Sub(rows, 1), x);
    }
  }

  /** The badge holds the whole number and lies inside the pane, as near to its middle as can be. */
  ghost predicate PlacedAt(x: nat, badge: string, number: string, left: nat, right: nat) {
    && (badge == number || badge == " " + number + " ")
    && (badge == number <==> |number| + 2 > right - left)
    && left <= x && x + |badge| <= right
    && (x - left) <= (right - x - |badge|) <= (x - left) + 1
  }

  /** The row in the middle of the area, or above it. */
  predicate Middle(area: Area, y: nat) {
    area.top <= y < area.bottom && y - area.top <= area.bottom - 1 - y <= y - area.top + 1
  }

  /** This row shows the badge, and nothing else has changed but in its row of the area. */
  ghost predicate BadgeAt(before: seq<Pixel>, after: seq<Pixel>, columns: nat, rows: nat, area: Area,
                          badge: string, pen: Pen, x: nat, y: nat)
    requires Grid(before, columns, rows) && Grid(after, columns, rows)
  {
    && y < rows && x + |badge| <= columns
    && (forall k :: 0 <= k < |badge| ==> At(after, columns, rows, x + k, y) == Pixel(badge[k], 1, pen))
    && (forall at, line :: 0 <= at < columns && 0 <= line < rows && !(line == y && area.left <= at < area.right) ==>
          At(after, columns, rows, at, line) == At(before, columns, rows, at, line))
  }

  /** A badge with the whole number has been painted in the middle of the area. */
  ghost predicate NumberIn(before: seq<Pixel>, after: seq<Pixel>, columns: nat, rows: nat, area: Area,
                           number: string, pen: Pen)
    requires Grid(before, columns, rows) && Grid(after, columns, rows)
  {
    exists x: nat, y: nat, badge ::
      && PlacedAt(x, badge, number, area.left, area.right) && Middle(area, y)
      && BadgeAt(before, after, columns, rows, area, badge, pen, x, y)
  }

  lemma RepaintedIsNumber(before: seq<Pixel>, after: seq<Pixel>, columns: nat, rows: nat, y: nat, x: nat,
                          badge: string, number: string, pen: Pen, area: Area)
    requires Grid(before, columns, rows) && Grid(after, columns, rows) && y < rows && area.right <= columns
    requires Middle(area, y) && PlacedAt(x, badge, number, area.left, area.right)
    requires Repainted(before, after, y * columns, x, badge, pen, area.left, area.right)
    ensures NumberIn(before, after, columns, rows, area, number, pen)
  {
    hide PlacedAt, AllPaired, CutAtBorder, Row;
    forall at, line | 0 <= at < columns && 0 <= line < rows
      ensures line == y && x <= at < x + |badge| ==>
                At(after, columns, rows, at, line) == Pixel(badge[at - x], 1, pen)
      ensures !(line == y && area.left <= at < area.right) ==>
                At(after, columns, rows, at, line) == At(before, columns, rows, at, line)
    {
      assert At(after, columns, rows, at, line) == after[line * columns + at];
      assert At(before, columns, rows, at, line) == before[line * columns + at];
      RowFits(line, rows, columns);
      RowFits(y, rows, columns);
      if line < y {
        RowsApart(line, y, columns);
      } else if y < line {
        RowsApart(y, line, columns);
      }
    }
    assert BadgeAt(before, after, columns, rows, area, badge, pen, x, y);
  }

  /** The number is to be read in the middle of the area. */
  ghost predicate NumberShown(cells: seq<Pixel>, columns: nat, rows: nat, area: Area, number: string, pen: Pen)
    requires Grid(cells, columns, rows)
  {
    exists x: nat, y: nat, badge ::
      && PlacedAt(x, badge, number, area.left, area.right) && Middle(area, y) && y < rows && x + |badge| <= columns
      && forall k :: 0 <= k < |badge| ==> At(cells, columns, rows, x + k, y) == Pixel(badge[k], 1, pen)
  }

  predicate Fits(area: Area, number: Option<string>) {
    area.top < area.bottom && area.left < area.right && number.Some? && |number.value| <= area.right - area.left
  }

  /** The numbers of the first `n` panes are shown where they fit, and nothing else has changed but in the
      middle rows of these panes. */
  ghost predicate Numbered(before: seq<Pixel>, after: seq<Pixel>, columns: nat, rows: nat, areas: seq<Area>,
                           numbers: seq<Option<string>>, pens: seq<Pen>, n: nat)
    requires Grid(before, columns, rows) && Grid(after, columns, rows) && |numbers| == |pens| == |areas|
  {
    && (forall i :: 0 <= i < n && i < |areas| && Fits(areas[i], numbers[i]) ==>
          NumberShown(after, columns, rows, areas[i], numbers[i].value, pens[i]))
    && (forall at, line :: 0 <= at < columns && 0 <= line < rows && !Marked(areas, numbers, n, at, line) ==>
          At(after, columns, rows, at, line) == At(before, columns, rows, at, line))
  }

  predicate Marked(areas: seq<Area>, numbers: seq<Option<string>>, n: nat, x: nat, y: nat)
    requires |numbers| == |areas|
  {
    exists i :: 0 <= i < n && i < |areas| && Fits(areas[i], numbers[i]) && Middle(areas[i], y) && Inside(areas[i], x, y)
  }

  lemma NothingNumbered(cells: seq<Pixel>, columns: nat, rows: nat, areas: seq<Area>,
                        numbers: seq<Option<string>>, pens: seq<Pen>)
    requires Grid(cells, columns, rows) && |numbers| == |pens| == |areas|
    ensures Numbered(cells, cells, columns, rows, areas, numbers, pens, 0)
  {}

  lemma NoNumber(start: seq<Pixel>, cells: seq<Pixel>, columns: nat, rows: nat, areas: seq<Area>,
                 numbers: seq<Option<string>>, pens: seq<Pen>, n: nat)
    requires Grid(start, columns, rows) && Grid(cells, columns, rows) && |numbers| == |pens| == |areas|
    requires n < |areas| && !Fits(areas[n], numbers[n])
    requires Numbered(start, cells, columns, rows, areas, numbers, pens, n)
    ensures Numbered(start, cells, columns, rows, areas, numbers, pens, n + 1)
  {
    hide NumberShown, Fits, Middle, Inside, Row;
    forall at, line | 0 <= at < columns && 0 <= line < rows && !Marked(areas, numbers, n + 1, at, line)
      ensures !Marked(areas, numbers, n, at, line)
    {}
  }

  lemma OneMoreNumber(start: seq<Pixel>, before: seq<Pixel>, after: seq<Pixel>, columns: nat, rows: nat,
                      areas: seq<Area>, numbers: seq<Option<string>>, pens: seq<Pen>, n: nat)
    requires Grid(start, columns, rows) && Grid(before, columns, rows) && Grid(after, columns, rows)
    requires |numbers| == |pens| == |areas| && n < |areas| && numbers[n].Some? && AllApart(areas)
    requires areas[n].top < areas[n].bottom && areas[n].left < areas[n].right
    requires Numbered(start, before, columns, rows, areas, numbers, pens, n)
    requires if |numbers[n].value| <= areas[n].right - areas[n].left
             then NumberIn(before, after, columns, rows, areas[n], numbers[n].value, pens[n]) else after == before
    ensures Numbered(start, after, columns, rows, areas, numbers, pens, n + 1)
  {
    hide PlacedAt, Row, Apart, Middle;
    if !Fits(areas[n], numbers[n]) {
      NoNumber(start, before, columns, rows, areas, numbers, pens, n);
    } else {
      var x: nat, y: nat, badge :|
        && PlacedAt(x, badge, numbers[n].value, areas[n].left, areas[n].right) && Middle(areas[n], y)
        && BadgeAt(before, after, columns, rows, areas[n], badge, pens[n], x, y);
      MiddleIsInside(areas[n], y);
      assert NumberShown(after, columns, rows, areas[n], numbers[n].value, pens[n]);
      forall i | 0 <= i < n && Fits(areas[i], numbers[i])
        ensures NumberShown(after, columns, rows, areas[i], numbers[i].value, pens[i])
      {
        NumberStays(before, after, columns, rows, areas[i], areas[n], numbers[i].value, pens[i], badge, pens[n], x, y);
      }
      forall at, line | 0 <= at < columns && 0 <= line < rows && !Marked(areas, numbers, n + 1, at, line)
        ensures At(after, columns, rows, at, line) == At(start, columns, rows, at, line)
      {
        assert !Marked(areas, numbers, n, at, line);
        assert !(line == y && areas[n].left <= at < areas[n].right);
      }
    }
  }

  lemma MiddleIsInside(area: Area, y: nat)
    requires Middle(area, y)
    ensures area.top <= y < area.bottom
  {}

  lemma NumberStays(before: seq<Pixel>, after: seq<Pixel>, columns: nat, rows: nat, area: Area, other: Area,
                    number: string, pen: Pen, badge: string, otherPen: Pen, x: nat, y: nat)
    requires Grid(before, columns, rows) && Grid(after, columns, rows) && Apart(area, other)
    requires NumberShown(before, columns, rows, area, number, pen) && other.top <= y < other.bottom
    requires BadgeAt(before, after, columns, rows, other, badge, otherPen, x, y)
    ensures NumberShown(after, columns, rows, area, number, pen)
  {
    hide Row;
    var at: nat, line: nat, own :|
      && PlacedAt(at, own, number, area.left, area.right) && Middle(area, line) && line < rows && at + |own| <= columns
      && forall k :: 0 <= k < |own| ==> At(before, columns, rows, at + k, line) == Pixel(own[k], 1, pen);
    forall k | 0 <= k < |own|
      ensures At(after, columns, rows, at + k, line) == Pixel(own[k], 1, pen)
    {
    }
  }

  /** A frozen row so far: with the first `n` characters of its line, within the area. */
  ghost predicate FrozenRow(line: seq<CopyGlyph>, n: nat, rect: Rect, hidden: nat, offset: nat, area: Area,
                            before: seq<Pixel>, row: seq<Pixel>)
    requires n <= |line|
  {
    && |row| == |before| && area.right <= |before|
    && forall x :: area.left <= x < area.right ==>
      FrozenCell(line, n, rect, hidden, offset, area, x, before[x], row[x])
  }

  lemma RowRedrawn(row: seq<Pixel>, left: nat, right: nat)
    requires WholeIn(row, left, right)
    ensures Redrawn(row, row, left, right)
  {}

  lemma RedrawnRowIsWhole(before: seq<Pixel>, row: seq<Pixel>, left: nat, right: nat)
    requires Redrawn(before, row, left, right)
    ensures WholeIn(row, left, right) && |row| == |before|
  {}

  lemma ScreenColumnOf(line: seq<CopyGlyph>, k: nat, rect: Rect, hidden: nat, offset: nat)
    requires k <= |line|
    ensures ScreenColumn(line, k, rect, hidden, offset) == rect.left + CellsBefore(line, k) - hidden - offset
  {}

  lemma NothingFrozen(line: seq<CopyGlyph>, rect: Rect, hidden: nat, offset: nat, area: Area, row: seq<Pixel>)
    requires area.right <= |row|
    ensures FrozenRow(line, 0, rect, hidden, offset, area, row, row) && CellsBefore(line, 0) == 0
  {}

  lemma CellsAfter(line: seq<CopyGlyph>, k: nat)
    requires k < |line|
    ensures CellsBefore(line, k + 1) == CellsBefore(line, k) + line[k].width
  {}

  lemma GlyphSkipped(line: seq<CopyGlyph>, k: nat, rect: Rect, hidden: nat, offset: nat, area: Area,
                     before: seq<Pixel>, row: seq<Pixel>)
    requires k < |line| && !InSight(line, k, rect, hidden, offset, area)
    requires FrozenRow(line, k, rect, hidden, offset, area, before, row)
    ensures FrozenRow(line, k + 1, rect, hidden, offset, area, before, row)
  {
    hide FrozenCell, InSight;
    forall x | area.left <= x < area.right
      ensures FrozenCell(line, k + 1, rect, hidden, offset, area, x, before[x], row[x])
    {
      OneMoreGlyph(line, k, rect, hidden, offset, area, x, before[x], row[x], row[x]);
    }
  }

  lemma GlyphFrozen(line: seq<CopyGlyph>, k: nat, rect: Rect, hidden: nat, offset: nat, area: Area,
                    before: seq<Pixel>, row: seq<Pixel>, at: nat)
    requires k < |line| && line[k].width <= 2 && InSight(line, k, rect, hidden, offset, area)
    requires at == ScreenColumn(line, k, rect, hidden, offset) && at + line[k].width <= |row|
    requires FrozenRow(line, k, rect, hidden, offset, area, before, row)
    ensures FrozenRow(line, k + 1, rect, hidden, offset, area, before, Put(row, at, line[k]))
  {
    hide FrozenCell, CellsBefore;
    var put := Put(row, at, line[k]);
    forall x | area.left <= x < area.right
      ensures FrozenCell(line, k + 1, rect, hidden, offset, area, x, before[x], put[x])
    {
      OneMoreGlyph(line, k, rect, hidden, offset, area, x, before[x], row[x], put[x]);
    }
  }

  lemma RowFrozen(line: seq<CopyGlyph>, n: nat, rect: Rect, hidden: nat, offset: (nat, nat), columns: nat, height: nat,
                  before: seq<Pixel>, row: seq<Pixel>)
    requires n <= |line| && hidden + rect.columns <= CellsBefore(line, n)
    requires FrozenRow(line, n, rect, hidden, offset.0, Visible(rect, offset, columns, height), before, row)
    ensures FrozenRow(line, |line|, rect, hidden, offset.0, Visible(rect, offset, columns, height), before, row)
  {
    hide FrozenCell, CellsBefore;
    var area := Visible(rect, offset, columns, height);
    forall x | area.left <= x < area.right
      ensures FrozenCell(line, |line|, rect, hidden, offset.0, area, x, before[x], row[x])
    {
      RestIsHidden(line, n, rect, hidden, offset.0, area, x, before[x], row[x]);
    }
  }

  /** A row of a frozen pane has been drawn with its line of the text. */
  ghost predicate CopiedAt(before: seq<Pixel>, after: seq<Pixel>, columns: nat, rows: nat, rect: Rect,
                           text: seq<seq<CopyGlyph>>, top: nat, hidden: nat, offset: (nat, nat), area: Area, y: nat)
    requires Grid(before, columns, rows) && Grid(after, columns, rows) && y < rows
  {
    && Redrawn(Row(before, columns, rows, y), Row(after, columns, rows, y), area.left, area.right)
    && var line := LineOf(text, Sub(y + offset.1 + top, rect.top));
       FrozenRow(line, |line|, rect, hidden, offset.0, area,
                 Row(before, columns, rows, y), Row(after, columns, rows, y))
  }

  lemma TextCopied(before: seq<Pixel>, after: seq<Pixel>, columns: nat, rows: nat, rect: Rect,
                   text: seq<seq<CopyGlyph>>, top: nat, hidden: nat, offset: (nat, nat))
    requires Grid(before, columns, rows) && Grid(after, columns, rows)
    requires
      var area := Visible(rect, offset, columns, Sub(rows, 1));
      forall y :: 0 <= y < rows ==>
        if area.top <= y < area.bottom
        then CopiedAt(before, after, columns, rows, rect, text, top, hidden, offset, area, y)
        else Row(after, columns, rows, y) == Row(before, columns, rows, y)
    ensures
      var area := Visible(rect, offset, columns, Sub(rows, 1));
      && RedrawnArea(before, after, columns, rows, area)
      && ShowsArea(before, after, columns, rows, rect, Frozen(text, top, hidden), offset, area)
  {
    hide Row, Redrawn, FrozenCell;
    var area := Visible(rect, offset, columns, Sub(rows, 1));
    forall y | 0 <= y < rows && area.top <= y < area.bottom
      ensures RedrawnAt(before, after, columns, rows, area, y)
    {
      assert CopiedAt(before, after, columns, rows, rect, text, top, hidden, offset, area, y);
    }
    forall x, y | 0 <= x < columns && 0 <= y < rows && Inside(area, x, y)
      ensures ShowsContent(rect, Frozen(text, top, hidden), offset, area, x, y,
                           At(before, columns, rows, x, y), At(after, columns, rows, x, y))
    {
      assert CopiedAt(before, after, columns, rows, rect, text, top, hidden, offset, area, y);
    }
  }

  /** The cells of a frame under construction, written in place. */
  class Canvas {
    const columns: nat
    const rows: nat
    var cells: seq<Pixel>

    ghost predicate Valid()
      reads this
    {
      Grid(cells, columns, rows)
    }

    constructor (columns: nat, rows: nat, pen: Pen)
      ensures Valid() && this.columns == columns && this.rows == rows
      ensures forall i :: 0 <= i < |cells| ==> cells[i] == Blank(pen)
    {
      this.columns := columns;
      this.rows := rows;
      cells := seq(rows * columns, _ => Blank(pen));
    }

    method Set(x: nat, y: nat, pixel: Pixel)
      requires Valid()
      modifies this
      ensures Valid()
      ensures x < columns && y < rows ==>
                y * columns + x < |old(cells)| && cells == old(cells)[y * columns + x := pixel]
      ensures !(x < columns && y < rows) ==> cells == old(cells)
    {
      if x < columns && y < rows {
        RowFits(y, rows, columns);
        cells := cells[y * columns + x := pixel];
      }
    }

    /** `Set` as it is seen by rows. */
    method SetInRow(x: nat, y: nat, pixel: Pixel)
      requires Valid() && x < columns && y < rows
      modifies this
      ensures Valid() && OnlyRow(old(cells), cells, columns, rows, y, old(Line(y))[x := pixel])
    {
      hide Row, OnlyRow;
      SettingOne(cells, columns, rows, x, y, pixel);
      Set(x, y, pixel);
    }

    ghost function Line(y: nat): (row: seq<Pixel>)
      requires Valid() && y < rows
      reads this
      ensures |row| == columns
    {
      Row(cells, columns, rows, y)
    }

    /** What is above the status line. */
    function Height(): nat {
      Sub(rows, 1)
    }

    /** Draws a line of a live pane whose columns are `left..left + width` of the canvas. */
    method DrawRow(line: seq<Pixel>, y: nat, left: nat, width: nat, offset: nat)
      requires Valid() && y < rows
      modifies this
      ensures Valid()
      ensures OnlyRow(old(cells), cells, columns, rows, y, DrawnRow(old(Line(y)), line, left, width, offset))
    {
      hide Row;
      ghost var before := cells;
      ghost var row := Line(y);
      for column := 0 to width
        invariant Valid() && OnlyRow(before, cells, columns, rows, y, Line(y))
        invariant forall x :: 0 <= x < columns ==>
                    Line(y)[x] == if x + offset < left + column && IsShown(line, left, width, offset, columns, x)
                                  then line[x + offset - left] else row[x]
      {
        if left + column < offset || left + column - offset >= columns {
          continue;
        }
        var x := left + column - offset;
        if column >= |line| {
          continue;
        }
        var pixel := line[column];
        if (pixel.width == 0 && x == 0) || (pixel.width == 2 && (x + 1 >= columns || column + 1 >= width)) {
          continue;
        }
        SetInRow(x, y, pixel);
      }
      assert Line(y) == DrawnRow(row, line, left, width, offset);
    }

    /** Draws the lines of a live pane, as far as the pane is in sight. */
    method DrawLines(rect: Rect, lines: seq<seq<Pixel>>, offset: (nat, nat))
      requires Valid() && NarrowArea(cells, columns, rows, Visible(rect, offset, columns, Height()))
      requires forall i :: 0 <= i < |lines| ==> AllPaired(lines[i])
      modifies this
      ensures Valid() && RedrawnArea(old(cells), cells, columns, rows, Visible(rect, offset, columns, Height()))
      ensures ShowsArea(old(cells), cells, columns, rows, rect, Live(lines, None), offset,
                        Visible(rect, offset, columns, Height()))
    {
      hide Row, DrawnRow, NarrowIn, WholeIn;
      ghost var before, area := cells, Visible(rect, offset, columns, Height());
      for row := 0 to rect.rows
        invariant Valid()
        invariant forall y :: 0 <= y < rows ==>
                    Line(y) ==
                    if area.top <= y < area.bottom && y + offset.1 < rect.top + row
                    then DrawnRow(Row(before, columns, rows, y), LineOf(lines, y + offset.1 - rect.top),
                                  rect.left, rect.columns, offset.0)
                    else Row(before, columns, rows, y)
      {
        if rect.top + row < offset.1 || rect.top + row - offset.1 >= Height() {
          continue;
        }
        var y := rect.top + row - offset.1;
        var line := if row < |lines| then lines[row] else [];
        DrawRow(line, y, rect.left, rect.columns, offset.0);
      }
      LinesDrawn(before, cells, columns, rows, rect, lines, offset);
    }

    /** Draws the label of an exited pane over its first line. */
    method DrawLabel(rect: Rect, notice: seq<Pixel>, offset: (nat, nat))
      requires Valid() && 0 < rect.rows && 0 < rect.columns == |notice| && NarrowIn(notice, 0, |notice|)
      requires WholeArea(cells, columns, rows, Visible(rect, offset, columns, Height()))
      modifies this
      ensures Valid() && RedrawnArea(old(cells), cells, columns, rows, Visible(rect, offset, columns, Height()))
      ensures
        var area := Visible(rect, offset, columns, Height());
        forall y :: 0 <= y < rows ==>
          Line(y) ==
          if area.top <= y < area.bottom && y + offset.1 == rect.top
          then Labelled(Row(old(cells), columns, rows, y), notice, rect.left, offset.0)
          else Row(old(cells), columns, rows, y)
    {
      hide Row, RedrawnArea, WholeArea, Redrawn, NarrowIn, Labelled;
      ghost var before, area := cells, Visible(rect, offset, columns, Height());
      NothingRedrawn(cells, columns, rows, area);
      if rect.top < offset.1 || rect.top - offset.1 >= Height() {
        return;
      }
      var y := rect.top - offset.1;
      LabelIsWhole(Line(y), notice, rect.left, offset.0);
      LabelRow(notice, y, rect.left, offset.0);
      OneRowRedrawn(before, cells, columns, rows, area, y);
    }

    method LabelRow(notice: seq<Pixel>, y: nat, left: nat, offset: nat)
      requires Valid() && y < rows
      modifies this
      ensures Valid()
      ensures OnlyRow(old(cells), cells, columns, rows, y, Labelled(old(Line(y)), notice, left, offset))
    {
      hide Row, OnlyRow;
      ghost var before := cells;
      ghost var row := Line(y);
      NothingElse(cells, columns, rows, y);
      for column := 0 to |notice|
        invariant Valid() && OnlyRow(before, cells, columns, rows, y, Line(y))
        invariant forall x :: 0 <= x < columns ==>
                    Line(y)[x] == if left <= x + offset < left + column then notice[x + offset - left] else row[x]
      {
        if left + column >= offset && left + column - offset < columns {
          ghost var last, next := cells, Line(y)[left + column - offset := notice[column]];
          SetInRow(left + column - offset, y, notice[column]);
          OnlyRowAgain(before, last, cells, columns, rows, y, Row(last, columns, rows, y), next);
        }
      }
      assert Line(y) == Labelled(row, notice, left, offset);
    }

    /** Draws a line of a frozen pane whose first `hidden` columns are scrolled out of the pane. */
    method CopyRow(line: seq<CopyGlyph>, y: nat, rect: Rect, hidden: nat, offset: (nat, nat))
      requires Valid() && y < Height() && forall i :: 0 <= i < |line| ==> line[i].width <= 2
      requires
        var area := Visible(rect, offset, columns, Height());
        NarrowIn(Line(y), area.left, area.right)
      modifies this
      ensures Valid() && OnlyRow(old(cells), cells, columns, rows, y, Line(y))
      ensures
        var area := Visible(rect, offset, columns, Height());
        && Redrawn(old(Line(y)), Line(y), area.left, area.right)
        && FrozenRow(line, |line|, rect, hidden, offset.0, area, old(Line(y)), Line(y))
    {
      hide Row, WholeIn, Put, OnlyRow, FrozenRow, Redrawn, CellsBefore, ScreenColumn;
      ghost var before, area := cells, Visible(rect, offset, columns, Height());
      ghost var row := Line(y);
      NarrowIsWhole(row, area.left, area.right);
      NothingElse(cells, columns, rows, y);
      NothingFrozen(line, rect, hidden, offset.0, area, row);
      RowRedrawn(row, area.left, area.right);
      var column: nat := 0;
      for index := 0 to |line|
        invariant Valid() && OnlyRow(before, cells, columns, rows, y, Line(y))
        invariant Redrawn(row, Line(y), area.left, area.right) && column == CellsBefore(line, index)
        invariant FrozenRow(line, index, rect, hidden, offset.0, area, row, Line(y))
        invariant forall x :: area.left <= x < area.right && rect.left + column <= x + offset.0 + hidden ==>
                    Line(y)[x].width == 1
      {
        var glyph := line[index];
        CellsAfter(line, index);
        if glyph.width == 0 {
          GlyphSkipped(line, index, rect, hidden, offset.0, area, row, Line(y));
          continue;
        }
        InSightIff(line, index, rect, hidden, offset, columns, Height());
        if column >= hidden && column + glyph.width <= hidden + rect.columns
           && rect.left + column - hidden >= offset.0
           && rect.left + column - hidden - offset.0 + glyph.width <= columns {
          var x := rect.left + column - hidden - offset.0;
          ghost var last, now, next := cells, Line(y), Put(Line(y), x, glyph);
          RedrawnRowIsWhole(row, now, area.left, area.right);
          ScreenColumnOf(line, index, rect, hidden, offset.0);
          PutIsWhole(now, area.left, area.right, x, glyph);
          RedrawnTwice(row, now, next, area.left, area.right);
          GlyphFrozen(line, index, rect, hidden, offset.0, area, row, now, x);
          PutGlyph(x, y, glyph);
          OnlyRowAgain(before, last, cells, columns, rows, y, now, next);
        } else {
          GlyphSkipped(line, index, rect, hidden, offset.0, area, row, Line(y));
        }
        column := column + glyph.width;
        if column >= hidden + rect.columns {
          RowFrozen(line, index + 1, rect, hidden, offset, columns, Height(), row, Line(y));
          break;
        }
      }
    }

    method PutGlyph(x: nat, y: nat, glyph: CopyGlyph)
      requires Valid() && y < rows && 1 <= glyph.width <= 2 && x + glyph.width <= columns
      modifies this
      ensures Valid() && OnlyRow(old(cells), cells, columns, rows, y, Put(old(Line(y)), x, glyph))
      ensures forall at :: 0 <= at < columns && at >= x + glyph.width ==> Line(y)[at] == old(Line(y))[at]
    {
      hide Row;
      SetInRow(x, y, Pixel(glyph.ch, glyph.width, glyph.pen));
      if glyph.width == 2 {
        SetInRow(x + 1, y, Pixel(' ', 0, glyph.pen));
      }
    }

    /** Draws a frozen text, as far as the pane is in sight. */
    method CopyRegion(text: seq<seq<CopyGlyph>>, top: nat, hidden: nat, rect: Rect, offset: (nat, nat))
      requires Valid() && NarrowArea(cells, columns, rows, Visible(rect, offset, columns, Height()))
      requires forall i :: 0 <= i < |text| ==> Slim(text[i])
      modifies this
      ensures Valid() && RedrawnArea(old(cells), cells, columns, rows, Visible(rect, offset, columns, Height()))
      ensures ShowsArea(old(cells), cells, columns, rows, rect, Frozen(text, top, hidden), offset,
                        Visible(rect, offset, columns, Height()))
    {
      hide Row, NarrowIn, WholeIn, FrozenRow;
      ghost var before, area := cells, Visible(rect, offset, columns, Height());
      var row := top;
      NarrowAreaIsWhole(cells, columns, rows, area);
      while row < |text| && row < top + rect.rows
        invariant Valid() && top <= row
        invariant forall y :: 0 <= y < rows ==>
                    if area.top <= y < area.bottom && y + offset.1 + top < rect.top + row
                    then CopiedAt(before, cells, columns, rows, rect, text, top, hidden, offset, area, y)
                    else Line(y) == Row(before, columns, rows, y)
      {
        if rect.top + row - top >= offset.1 && rect.top + row - top - offset.1 < Height() {
          assert Slim(text[row]);
          CopyRow(text[row], rect.top + row - top - offset.1, rect, hidden, offset);
        }
        row := row + 1;
      }
      forall y | 0 <= y < rows && area.top <= y < area.bottom
        ensures CopiedAt(before, cells, columns, rows, rect, text, top, hidden, offset, area, y)
      {
        if y + offset.1 + top >= rect.top + row {
          assert LineOf(text, y + offset.1 + top - rect.top) == [];
          NothingFrozen([], rect, hidden, offset.0, area, Line(y));
          assert WholeIn(Row(before, columns, rows, y), area.left, area.right);
        }
      }
      TextCopied(before, cells, columns, rows, rect, text, top, hidden, offset);
    }

    method DrawPane(rect: Rect, content: Content, offset: (nat, nat))
      requires Valid() && Drawable(rect, content)
      requires NarrowArea(cells, columns, rows, Visible(rect, offset, columns, Height()))
      modifies this
      ensures Valid() && RedrawnArea(old(cells), cells, columns, rows, Visible(rect, offset, columns, Height()))
      ensures ShowsArea(old(cells), cells, columns, rows, rect, content, offset,
                        Visible(rect, offset, columns, Height()))
    {
      hide Row, RedrawnArea, NarrowArea, WholeArea, NarrowIn, AllPaired, Slim, Visible, ShowsArea, Labelled;
      ghost var before, area := cells, Visible(rect, offset, columns, Height());
      match content
      case Live(lines, notice) =>
        DrawLines(rect, lines, offset);
        if notice.Some? {
          ghost var drawn := cells;
          RedrawnIsWhole(before, drawn, columns, rows, area);
          DrawLabel(rect, notice.value, offset);
          AreaRedrawnTwice(before, drawn, cells, columns, rows, area);
          LabelShows(before, drawn, cells, columns, rows, rect, lines, notice.value, offset, area);
        }
      case Frozen(text, top, left) =>
        CopyRegion(text, top, left, rect, offset);
    }

    /** The parts of the panes that are in sight. */
    ghost function Areas(panes: seq<(Rect, Content)>, offset: (nat, nat)): (areas: seq<Area>)
      ensures |areas| == |panes|
    {
      seq(|panes|, i requires 0 <= i < |panes| => Visible(panes[i].0, offset, columns, Height()))
    }

    /** Draws all panes on an empty frame; panes do not overlap. */
    method DrawPanes(panes: seq<(Rect, Content)>, offset: (nat, nat))
      requires Valid() && forall i :: 0 <= i < |cells| ==> cells[i].width == 1
      requires forall i :: 0 <= i < |panes| ==> Drawable(panes[i].0, panes[i].1)
      requires AllApart(Areas(panes, offset))
      modifies this
      ensures Valid() && DrawnSoFar(cells, columns, rows, Areas(panes, offset), |panes|)
      ensures PanesShown(old(cells), cells, columns, rows, panes, Areas(panes, offset), offset, |panes|)
    {
      hide Row, RedrawnArea, Drawable, Apart, WholeArea, Visible, NarrowArea, NarrowBeside, ShowsArea, PanesShown;
      ghost var start := cells;
      ghost var areas := Areas(panes, offset);
      AreasInside(panes, offset);
      BlankIsNarrow(cells, columns, rows, areas);
      NothingShown(cells, columns, rows, panes, areas, offset);
      for i := 0 to |panes|
        invariant Valid() && DrawnSoFar(cells, columns, rows, areas, i)
        invariant PanesShown(start, cells, columns, rows, panes, areas, offset, i)
      {
        ghost var before := cells;
        assert areas[i] == Visible(panes[i].0, offset, columns, Height());
        assert NarrowArea(cells, columns, rows, areas[i]);
        DrawPane(panes[i].0, panes[i].1, offset);
        OneMoreDrawn(before, cells, columns, rows, areas, i);
        OneMoreShown(start, before, cells, columns, rows, panes, areas, offset, i);
      }
    }

    lemma AreasInside(panes: seq<(Rect, Content)>, offset: (nat, nat))
      ensures forall i :: 0 <= i < |panes| ==> Areas(panes, offset)[i].right <= columns
    {
    }

    /** Draws dividers on the cells of the canvas in sight that no pane covers. `pens` tells edges of
        the focused pane from others. */
    method DrawDividers(panes: seq<(Rect, Content)>, offset: (nat, nat), canvas: (nat, nat), pens: (nat, nat) -> Pen)
      requires Valid() && DrawnSoFar(cells, columns, rows, Areas(panes, offset), |panes|)
      modifies this
      ensures Valid() && DrawnSoFar(cells, columns, rows, Areas(panes, offset), |panes|)
      ensures Divided(old(cells), cells, columns, rows, Areas(panes, offset),
                      Min(columns, Sub(canvas.0, offset.0)), pens, Min(Height(), Sub(canvas.1, offset.1)), 0)
    {
      hide Row, DrawnSoFar, OnlyRow, Visible, Divided;
      ghost var start, width := cells, Min(columns, Sub(canvas.0, offset.0));
      var areas := seq(|panes|, i requires 0 <= i < |panes| => Visible(panes[i].0, offset, columns, Height()));
      assert areas == Areas(panes, offset);
      NothingDivided(cells, columns, rows, areas, width, pens);
      for y := 0 to Min(Height(), Sub(canvas.1, offset.1))
        invariant Valid() && DrawnSoFar(cells, columns, rows, areas, |areas|)
        invariant Divided(start, cells, columns, rows, areas, width, pens, y, 0)
      {
        for x := 0 to Min(columns, Sub(canvas.0, offset.0))
          invariant Valid() && DrawnSoFar(cells, columns, rows, areas, |areas|)
          invariant Divided(start, cells, columns, rows, areas, width, pens, y, x)
        {
          ghost var before := cells;
          if !Covered(areas, x, y) {
            var ch := if x > 0 && Covered(areas, x - 1, y) then '\U{2502}' else '\U{2500}';
            SetInRow(x, y, Pixel(ch, 1, pens(x, y)));
            BesideAreas(before, cells, columns, rows, areas, x, y, Pixel(ch, 1, pens(x, y)));
          }
          OneMoreDivided(start, before, cells, columns, rows, areas, width, pens, x, y);
        }
        RowDivided(start, cells, columns, rows, areas, width, pens, y);
      }
    }

    /** Paints the numbers of panes that are in sight. On a frame on which panes have been drawn, no
        badge ever leaves half a glyph. */
    method PaneNumbers(panes: seq<(Rect, Content)>, numbers: seq<Option<string>>, pens: seq<Pen>, offset: (nat, nat))
      requires Valid() && DrawnSoFar(cells, columns, rows, Areas(panes, offset), |panes|)
      requires |numbers| == |pens| == |panes|
      requires forall i :: 0 <= i < |numbers| && numbers[i].Some? ==> 0 < |numbers[i].value|
      modifies this
      ensures Valid() && AllPaired(cells) && WholeArea(cells, columns, rows, Full(columns, rows))
      ensures AllApart(Areas(panes, offset)) ==>
                Numbered(old(cells), cells, columns, rows, Areas(panes, offset), numbers, pens, |panes|)
    {
      hide Row, DrawnSoFar, WholeArea, Bordered, AllPaired, CutAtBorder, Badged, Visible, Numbered, PlacedAt, Repainted;
      ghost var start, areas := cells, Areas(panes, offset);
      NothingNumbered(cells, columns, rows, areas, numbers, pens);
      DrawnIsPaired(cells, columns, rows, areas);
      DrawnIsBordered(cells, columns, rows, areas);
      for i := 0 to |panes|
        invariant Valid() && AllPaired(cells)
        invariant Bordered(cells, columns, rows, Full(columns, rows))
        invariant forall j :: 0 <= j < |areas| ==> Bordered(cells, columns, rows, areas[j])
        invariant AllApart(areas) ==> Numbered(start, cells, columns, rows, areas, numbers, pens, i)
      {
        ghost var before := cells;
        var area := Visible(panes[i].0, offset, columns, Height());
        assert area == areas[i];
        if numbers[i].None? || area.left >= area.right || area.top >= area.bottom {
          if AllApart(areas) {
            NoNumber(start, cells, columns, rows, areas, numbers, pens, i);
          }
          continue;
        }
        HeightBelow();
        PaneNumber(numbers[i].value, area, pens[i], areas);
        if AllApart(areas) {
          OneMoreNumber(start, before, cells, columns, rows, areas, numbers, pens, i);
        }
      }
      PairedIsWhole(cells, columns, rows);
    }

    /** Writes a whole row: the status line, the prompt or a line of an overlay, as an emulator of that
        width shows it. */
    method Text(y: nat, line: seq<Pixel>)
      requires Valid() && y < rows && |line| == columns && AllPaired(line)
      requires WholeArea(cells, columns, rows, Full(columns, rows))
      modifies this
      ensures Valid() && OnlyRow(old(cells), cells, columns, rows, y, line)
      ensures WholeArea(cells, columns, rows, Full(columns, rows))
    {
      hide Row, OnlyRow, WholeArea, AllPaired, WholeIn;
      ghost var before := cells;
      NothingElse(cells, columns, rows, y);
      for column := 0 to |line|
        invariant Valid() && OnlyRow(before, cells, columns, rows, y, Line(y))
        invariant forall x :: 0 <= x < column ==> Line(y)[x] == line[x]
      {
        ghost var last, next := cells, Line(y)[column := line[column]];
        SetInRow(column, y, line[column]);
        OnlyRowAgain(before, last, cells, columns, rows, y, Row(last, columns, rows, y), next);
      }
      assert Line(y) == line;
      PairedLineIsWhole(line);
      OneRowRedrawn(before, cells, columns, rows, Full(columns, rows), y);
      RedrawnIsWhole(before, cells, columns, rows, Full(columns, rows));
    }

    /** Paints one number, if it fits into the part of its pane that is in sight. */
    method PaneNumber(number: string, area: Area, pen: Pen, ghost areas: seq<Area>)
      requires Valid() && AllPaired(cells) && 0 < |number|
      requires area.left < area.right <= columns && area.top < area.bottom <= rows && area in areas
      requires Bordered(cells, columns, rows, Full(columns, rows))
      requires forall j :: 0 <= j < |areas| ==> Bordered(cells, columns, rows, areas[j])
      modifies this
      ensures Valid() && AllPaired(cells)
      ensures Bordered(cells, columns, rows, Full(columns, rows))
      ensures forall j :: 0 <= j < |areas| ==> Bordered(cells, columns, rows, areas[j])
      ensures if |number| <= area.right - area.left then NumberIn(old(cells), cells, columns, rows, area, number, pen)
              else cells == old(cells)
    {
      hide Row, Bordered, AllPaired, CutAtBorder, Badged, PlacedAt;
      ghost var before := cells;
      PaintNumber(number, area.left, area.top, area.right, area.bottom, pen);
      if |number| <= area.right - area.left {
        ghost var y := area.top + (area.bottom - area.top - 1) / 2;
        ghost var x: nat, badge: string :| PlacedAt(x, badge, number, area.left, area.right)
          && Repainted(before, cells, y * columns, x, badge, pen, area.left, area.right);
        RepaintedIsNarrowed(before, cells, columns, rows, y, x, badge, pen, area);
        RepaintedIsNumber(before, cells, columns, rows, y, x, badge, number, pen, area);
        NarrowedKeepsBorders(before, cells, columns, rows, Full(columns, rows));
        forall j | 0 <= j < |areas|
          ensures Bordered(cells, columns, rows, areas[j])
        {
          NarrowedKeepsBorders(before, cells, columns, rows, areas[j]);
        }
      }
    }

    lemma HeightBelow()
      ensures Height() <= rows
    {
    }

    /** Blanks the halves that glyphs under the badge have outside of it, but never outside the pane. */
    method ClearBadgeGlyphs(x: nat, y: nat, width: nat, left: nat, right: nat)
      requires Valid() && AllPaired(cells)
      requires y < rows && left <= x && 0 < width && x + width <= right <= columns
      modifies this
      ensures Valid()
      ensures y * columns + columns <= |cells|
      ensures forall j :: 0 <= j < |cells| && !(y * columns + x <= j < y * columns + x + width) ==>
                cells[j] == Badged(old(cells), y * columns + x, seq(width, _ => ' '), old(cells[0].pen),
                                   y * columns + left, y * columns + right, j)
    {
      hide Row, OnlyRow, Cleared;
      var row := y * columns;
      RowFits(y, rows, columns);
      ghost var before := cells;
      NothingCleared(before, row + x, width, row + left, row + right);
      for column := x to x + width
        invariant Valid() && |cells| == |before|
        invariant Cleared(before, cells, row + x, width, row + left, row + right, row + column)
      {
        CellCleared(before, cells, row + x, width, row + left, row + right, row + column);
        ClearOtherHalf(column, y, left, right);
      }
      AllCleared(before, cells, row + x, width, row + left, row + right);
    }

    method ClearOtherHalf(column: nat, y: nat, left: nat, right: nat)
      requires Valid() && y < rows && left <= column < right <= columns
      modifies this
      ensures Valid()
      ensures y * columns + columns <= |old(cells)|
      ensures cells == HalfCleared(old(cells), y * columns + left, y * columns + right, y * columns + column)
    {
      hide Row, OnlyRow;
      RowFits(y, rows, columns);
      var index := y * columns + column;
      if cells[index].width == 0 && left < column {
        Set(column - 1, y, Blank(cells[index - 1].pen));
      } else if cells[index].width == 2 && column + 1 < right {
        Set(column + 1, y, Blank(cells[index + 1].pen));
      }
    }

    /** Centres the number in the visible part of its pane, with a space on both sides when they
        fit, and leaves the frame alone when the whole number does not fit. */
    method PaintNumber(number: string, left: nat, top: nat, right: nat, bottom: nat, pen: Pen)
      requires Valid() && AllPaired(cells) && 0 < |number|
      requires left < right <= columns && top < bottom <= rows
      modifies this
      ensures Valid()
      ensures |number| > right - left ==> cells == old(cells)
      ensures |number| <= right - left ==>
                exists x: nat, badge: string ::
                  && PlacedAt(x, badge, number, left, right)
                  && Repainted(old(cells), cells, (top + (bottom - top - 1) / 2) * columns, x, badge, pen, left, right)
    {
      var available := right - left;
      if |number| > available {
        return;
      }
      var badge := if |number| + 2 <= available then " " + number + " " else number;
      var x := left + (right - left - |badge|) / 2;
      var y := top + (bottom - top - 1) / 2;
      assert PlacedAt(x, badge, number, left, right);
      Paint(badge, x, y, left, right, pen);
    }

    method Paint(badge: string, x: nat, y: nat, left: nat, right: nat, pen: Pen)
      requires Valid() && AllPaired(cells) && 0 < |badge|
      requires y < rows && left <= x && x + |badge| <= right <= columns
      modifies this
      ensures Valid()
      ensures Repainted(old(cells), cells, y * columns, x, badge, pen, left, right)
    {
      hide Row, OnlyRow, AllPaired, CutAtBorder, Badged;
      ghost var before := cells;
      RowFits(y, rows, columns);
      ClearBadgeGlyphs(x, y, |badge|, left, right);
      ghost var cleared := cells;
      WriteBadge(badge, x, y, pen);
      ghost var row := y * columns;
      forall j | 0 <= j < |cells|
        ensures cells[j] == Badged(before, row + x, badge, pen, row + left, row + right, j)
      {
        BadgedLike(before, row + x, badge, pen, row + left, row + right, j);
      }
      BadgeKeepsPairsIff(before, row + x, badge, pen, row + left, row + right, cells);
    }

    method WriteBadge(badge: string, x: nat, y: nat, pen: Pen)
      requires Valid() && y < rows && x + |badge| <= columns
      modifies this
      ensures Valid()
      ensures forall j :: 0 <= j < |cells| ==>
                cells[j] == if y * columns + x <= j < y * columns + x + |badge|
                            then Pixel(badge[j - (y * columns + x)], 1, pen) else old(cells)[j]
    {
      ghost var at, before := y * columns + x, cells;
      for column := 0 to |badge|
        invariant Valid()
        invariant forall j :: 0 <= j < |cells| ==>
                    cells[j] == if at <= j < at + column then Pixel(badge[j - at], 1, pen) else before[j]
      {
        Set(x + column, y, Pixel(badge[column], 1, pen));
      }
    }
  }

  /** Outside of a badge it does not matter what the badge says. */
  lemma BadgedLike(cells: seq<Pixel>, at: nat, badge: string, pen: Pen, left: nat, right: nat, j: nat)
    requires 0 < |badge| && at + |badge| <= |cells| && j < |cells|
    ensures
      Badged(cells, at, badge, pen, left, right, j)
      == if at <= j < at + |badge| then Pixel(badge[j - at], 1, pen)
         else Badged(cells, at, seq(|badge|, _ => ' '), cells[0].pen, left, right, j)
  {
  }

  lemma PairedLineIsWhole(line: seq<Pixel>)
    requires AllPaired(line)
    ensures WholeIn(line, 0, |line|)
  {
    forall x | 0 <= x < |line|
      ensures WholeAt(line, 0, |line|, x)
    {
      assert Paired(line, x);
    }
  }

  lemma DrawnIsPaired(cells: seq<Pixel>, columns: nat, rows: nat, areas: seq<Area>)
    requires Grid(cells, columns, rows) && DrawnSoFar(cells, columns, rows, areas, |areas|)
    ensures AllPaired(cells) && forall i :: 0 <= i < |areas| ==> Bordered(cells, columns, rows, areas[i])
  {
    hide Row, WholeArea, Bordered, NarrowBeside, AllPaired;
    WholeAreasPair(cells, columns, rows, areas);
    forall i | 0 <= i < |areas|
      ensures Bordered(cells, columns, rows, areas[i])
    {
      WholeIsBordered(cells, columns, rows, areas[i]);
    }
  }

  /** In a pane whose borders no glyph reaches over, a badge is never cut at a border. */
  lemma BorderedIsNeverCut(cells: seq<Pixel>, columns: nat, rows: nat, y: nat, x: nat, width: nat, area: Area)
    requires Grid(cells, columns, rows) && Bordered(cells, columns, rows, area)
    requires area.top <= y < area.bottom && y < rows && area.right <= columns
    requires 0 < width && area.left <= x && x + width <= area.right
    ensures y * columns + x + width <= |cells|
    ensures !CutAtBorder(cells, y * columns + x, width, y * columns + area.left, y * columns + area.right)
  {
    var row, start := Row(cells, columns, rows, y), y * columns;
    assert row[area.left] == cells[start + area.left];
    assert row[area.right - 1] == cells[start + (area.right - 1)];
  }

  lemma RepaintedIsNarrowed(before: seq<Pixel>, after: seq<Pixel>, columns: nat, rows: nat, y: nat, x: nat,
                            badge: string, pen: Pen, area: Area)
    requires Grid(before, columns, rows) && Bordered(before, columns, rows, area)
    requires area.top <= y < area.bottom && y < rows && area.right <= columns
    requires Repainted(before, after, y * columns, x, badge, pen, area.left, area.right)
    ensures Narrowed(before, after) && AllPaired(after)
  {
    hide Row, Bordered, AllPaired, CutAtBorder;
    BorderedIsNeverCut(before, columns, rows, y, x, |badge|, area);
  }
}
