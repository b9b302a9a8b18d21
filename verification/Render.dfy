/**
 The diff renderer of the client. A frame is a grid of cells in row order; the renderer
 keeps the last frame it drew and emits commands for the cells that changed. The commands
 are given a meaning on a host screen on which a wide glyph occupies two cells, and where
 overwriting one half of a wide glyph leaves the other half showing something unknown.
 */
module Render {
  import opened Options

  /** Colours and attributes of a glyph; only equality of pens matters to the renderer. */
  type Pen(==, !new)

  /** One cell: width 1 or 2 leads a glyph, width 0 is the second half of the glyph before it. */
  datatype Pixel = Pixel(ch: char, width: nat, pen: Pen)

  datatype Frame = Frame(columns: nat, rows: nat, cells: seq<Pixel>, cursor: Option<(nat, nat)>)

  /** What the renderer queues on its output. `ResetPen` stands for the pair of commands that
      clear all attributes and both colours; `Style` enables what a pen has enabled. */
  datatype Command =
    | Hide
    | Show
    | MoveTo(x: nat, y: nat)
    | ResetPen
    | Style(pen: Pen)
    | Print(ch: char, width: nat)

  const MAX_U16 := 0xFFFF

  predicate Sized(frame: Frame) {
    |frame.cells| == frame.rows * frame.columns
  }

  /** The place of column `x` of row `y` in row order. */
  function Index(frame: Frame, x: nat, y: nat): (i: nat)
    requires Sized(frame) && x < frame.columns && y < frame.rows
    ensures i == y * frame.columns + x && i < |frame.cells|
  {
    RowFits(y, frame.rows, frame.columns);
    y * frame.columns + x
  }

  lemma RowFits(y: nat, rows: nat, columns: nat)
    requires y < rows
    ensures y * columns + columns == (y + 1) * columns <= rows * columns
  {}

  /** A width-2 cell is followed in its row by a width-0 cell, and there are no other width-0 cells. */
  ghost predicate WellFormed(frame: Frame) {
    && frame.columns <= MAX_U16
    && Sized(frame)
    && (forall i :: 0 <= i < |frame.cells| ==> Paired(frame.cells, i))
    && (forall x, y :: 0 <= x < frame.columns && 0 <= y < frame.rows
                        && frame.cells[Index(frame, x, y)].width == 2
          ==> x + 1 < frame.columns)
    && (frame.cursor.Some? ==> frame.cursor.value.0 < frame.columns && frame.cursor.value.1 < frame.rows)
  }

  predicate Paired(cells: seq<Pixel>, i: nat)
    requires i < |cells|
  {
    && cells[i].width <= 2
    && (cells[i].width == 2 ==> i + 1 < |cells| && cells[i + 1].width == 0)
    && (cells[i].width == 0 ==> 0 < i && cells[i - 1].width == 2)
  }

  // ----- The host screen -----

  datatype HostCell = Unknown | Lead(ch: char, width: nat, pen: Pen) | Tail

  /** `Mixed` is a pen enabled on top of another one without a reset between them. */
  datatype HostPen = Plain | Exactly(pen: Pen) | Mixed

  /** The cursor is absent while the host waits to wrap behind the last column. */
  datatype Host = Host(columns: nat, rows: nat, cells: seq<HostCell>, cursor: Option<(nat, nat)>,
                       visible: bool, pen: HostPen)

  /** The screen never shows half of a wide glyph. */
  ghost predicate Coherent(host: Host) {
    && |host.cells| == host.rows * host.columns
    && (forall i :: 0 <= i < |host.cells| ==> Joined(host.cells, i))
  }

  predicate Joined(cells: seq<HostCell>, i: nat)
    requires i < |cells|
  {
    && (cells[i] == Tail ==> 0 < i && Wide(cells[i - 1]))
    && (Wide(cells[i]) ==> i + 1 < |cells| && cells[i + 1] == Tail)
  }

  predicate Wide(cell: HostCell) {
    cell.Lead? && cell.width == 2
  }

  function Garbled(host: Host): Host {
    host.(cells := seq(|host.cells|, _ => Unknown), cursor := None)
  }

  /** Writing a glyph over `cells[i..i + width]`: halves of glyphs it cuts become unknown. */
  function Place(cells: seq<HostCell>, i: nat, glyph: HostCell): (placed: seq<HostCell>)
    requires glyph.Lead? && 1 <= glyph.width <= 2 && i + glyph.width <= |cells|
    ensures |placed| == |cells|
  {
    var end := i + glyph.width;
    var left := if 0 < i && cells[i] == Tail then cells[i - 1 := Unknown] else cells;
    var right := if end < |cells| && left[end] == Tail then left[end := Unknown] else left;
    var lead := right[i := glyph];
    if glyph.width == 2 then lead[i + 1 := Tail] else lead
  }

  function Apply(host: Host, command: Command): Host {
    match command
    case Hide => host.(visible := false)
    case Show => host.(visible := true)
    case MoveTo(x, y) => host.(cursor := if x < host.columns && y < host.rows then Some((x, y)) else None)
    case ResetPen => host.(pen := Plain)
    case Style(pen) => host.(pen := if host.pen == Plain then Exactly(pen) else Mixed)
    case Print(ch, width) =>
      if host.cursor.None? || !host.pen.Exactly? || !(1 <= width <= 2) then Garbled(host) else
      var (x, y) := host.cursor.value;
      if x + width > host.columns || y * host.columns + x + width > |host.cells| then Garbled(host) else
      host.(cells := Place(host.cells, y * host.columns + x, Lead(ch, width, host.pen.pen)),
            cursor := if x + width < host.columns then Some((x + width, y)) else None)
  }

  function Execute(host: Host, commands: seq<Command>): Host
    decreases |commands|
  {
    if commands == [] then host else Execute(Apply(host, commands[0]), commands[1..])
  }

  lemma ExecuteConcat(host: Host, first: seq<Command>, second: seq<Command>)
    ensures Execute(host, first + second) == Execute(Execute(host, first), second)
    decreases |first|
  {
    if first == [] {
      assert first + second == second;
    } else {
      assert (first + second)[1..] == first[1..] + second;
      ExecuteConcat(Apply(host, first[0]), first[1..], second);
    }
  }

  function Painted(pixel: Pixel): HostCell {
    if pixel.width == 0 then Tail else Lead(pixel.ch, pixel.width, pixel.pen)
  }

  /** The host shows exactly this frame: every glyph with its pen, and the cursor. */
  ghost predicate Shows(host: Host, frame: Frame) {
    && Fits(host, frame)
    && |host.cells| == |frame.cells|
    && (forall i :: 0 <= i < |frame.cells| ==> host.cells[i] == Painted(frame.cells[i]))
    && host.visible == frame.cursor.Some?
    && (frame.cursor.Some? ==> host.cursor == frame.cursor)
  }

  predicate Fits(host: Host, frame: Frame) {
    host.columns == frame.columns && host.rows == frame.rows
  }

  // ----- The renderer -----

  /** The previous frame is usable only when the grid has not changed its size. */
  function Comparable(previous: Option<Frame>, frame: Frame): Option<Frame> {
    if previous.Some? && previous.value.columns == frame.columns && previous.value.rows == frame.rows
    then previous else None
  }

  predicate Unchanged(previous: Option<Frame>, frame: Frame, i: nat)
    requires i < |frame.cells|
  {
    previous.Some? && i < |previous.value.cells| && previous.value.cells[i] == frame.cells[i]
  }

  /** The commands for one repainted cell, given where the host cursor and pen are known to be. */
  function Glyph(pixel: Pixel, at: (nat, nat), position: Option<(nat, nat)>, pen: Option<Pen>): seq<Command> {
    (if position == Some(at) then [] else [MoveTo(at.0, at.1)])
    + (if pen == Some(pixel.pen) then [] else [ResetPen, Style(pixel.pen)])
    + [Print(pixel.ch, pixel.width)]
  }

  function Beyond(pixel: Pixel, at: (nat, nat)): (nat, nat) {
    (if at.0 + pixel.width <= MAX_U16 then at.0 + pixel.width else MAX_U16, at.1)
  }

  /** The commands for the cells from column `x` of row `y` on, in row order. */
  function Cells(previous: Option<Frame>, frame: Frame, x: nat, y: nat,
                 position: Option<(nat, nat)>, pen: Option<Pen>): seq<Command>
    requires Sized(frame) && x <= frame.columns && y <= frame.rows
    decreases frame.rows - y, frame.columns - x
  {
    if y == frame.rows then []
    else if x == frame.columns then Cells(previous, frame, 0, y + 1, position, pen)
    else
      var i := Index(frame, x, y);
      var pixel := frame.cells[i];
      if pixel.width == 0 || Unchanged(previous, frame, i) then Cells(previous, frame, x + 1, y, position, pen)
      else
        Glyph(pixel, (x, y), position, pen)
        + Cells(previous, frame, x + 1, y, Some(Beyond(pixel, (x, y))), Some(pixel.pen))
  }

  function Closing(frame: Frame): seq<Command> {
    [ResetPen] + if frame.cursor.Some? then [MoveTo(frame.cursor.value.0, frame.cursor.value.1), Show] else []
  }

  /** Everything one repaint emits. */
  function Written(previous: Option<Frame>, frame: Frame): seq<Command>
    requires Sized(frame)
  {
    [Hide] + Cells(Comparable(previous, frame), frame, 0, 0, None, None) + Closing(frame)
  }

  function Drawn(previous: Option<Frame>, frame: Frame): seq<Command>
    requires Sized(frame)
  {
    if previous == Some(frame) then [] else Written(previous, frame)
  }

  class Renderer {
    var previous: Option<Frame>

    constructor ()
      ensures previous == None
    {
      previous := None;
    }

    method Invalidate()
      modifies this
      ensures previous == None
    {
      previous := None;
    }

    method Draw(frame: Frame) returns (output: seq<Command>)
      requires Sized(frame)
      modifies this
      ensures previous == Some(frame)
      ensures output == Drawn(old(previous), frame)
    {
      if previous == Some(frame) {
        return [];
      }
      output := Write(frame);
      previous := Some(frame);
    }

    method Write(frame: Frame) returns (output: seq<Command>)
      requires Sized(frame)
      ensures output == Written(previous, frame)
    {
      output := [Hide];
      var usable := Comparable(previous, frame);
      var position: Option<(nat, nat)> := None;
      var pen: Option<Pen> := None;
      ghost var all := [Hide] + Cells(usable, frame, 0, 0, None, None);
      for y := 0 to frame.rows
        invariant all == output + Cells(usable, frame, 0, y, position, pen)
      {
        for x := 0 to frame.columns
          invariant all == output + Cells(usable, frame, x, y, position, pen)
        {
          var index := Index(frame, x, y);
          var pixel := frame.cells[index];
          if pixel.width == 0 || Unchanged(usable, frame, index) {
            continue;
          }
          ghost var before, glyph := output, Glyph(pixel, (x, y), position, pen);
          if position != Some((x, y)) {
            output := output + [MoveTo(x, y)];
          }
          if pen != Some(pixel.pen) {
            output := output + [ResetPen, Style(pixel.pen)];
            pen := Some(pixel.pen);
          }
          output := output + [Print(pixel.ch, pixel.width)];
          position := Some(Beyond(pixel, (x, y)));
          assert output == before + glyph;
          ghost var rest := Cells(usable, frame, x + 1, y, position, pen);
          assert before + (glyph + rest) == (before + glyph) + rest;
        }
      }
      output := output + [ResetPen];
      if frame.cursor.Some? {
        output := output + [MoveTo(frame.cursor.value.0, frame.cursor.value.1), Show];
      }
    }
  }

  // ----- The effect of the emitted commands -----

  /** The repaint has reached cell `i`: everything before it is on the screen, and every later
      cell that will be skipped already is. */
  ghost predicate Reached(previous: Option<Frame>, frame: Frame, host: Host, i: nat) {
    && Fits(host, frame) && Coherent(host)
    && |host.cells| == |frame.cells|
    && (forall j :: 0 <= j < i && j < |frame.cells| ==> host.cells[j] == Painted(frame.cells[j]))
    && (forall j :: i <= j < |frame.cells| && frame.cells[j].width != 0 && Unchanged(previous, frame, j) ==>
          host.cells[j] == Painted(frame.cells[j]))
  }

  /** What the renderer believes about the host's cursor and pen is true. */
  ghost predicate Tracked(host: Host, position: Option<(nat, nat)>, pen: Option<Pen>) {
    && (position.Some? && position.value.0 < host.columns ==> host.cursor == position)
    && (pen.Some? ==> host.pen == Exactly(pen.value))
  }

  /** A glyph changes its own cells, and spoils a cell beside them only when that holds the other half
      of a glyph it cuts. */
  lemma PlaceEffect(cells: seq<HostCell>, i: nat, glyph: HostCell, j: nat)
    requires glyph.Lead? && 1 <= glyph.width <= 2 && i + glyph.width <= |cells| && j < |cells|
    ensures Place(cells, i, glyph)[j] ==
            if j == i then glyph
            else if i < j < i + glyph.width then Tail
            else if j == i + glyph.width && cells[j] == Tail then Unknown
            else if j == i - 1 && cells[i] == Tail then Unknown
            else cells[j]
  {}

  lemma NotOnSecondHalf(previous: Option<Frame>, frame: Frame, host: Host, i: nat)
    requires WellFormed(frame) && Reached(previous, frame, host, i)
    requires i < |frame.cells| && frame.cells[i].width != 0
    ensures host.cells[i] != Tail
    ensures i + frame.cells[i].width <= |frame.cells|
    ensures i + frame.cells[i].width < |frame.cells| ==> frame.cells[i + frame.cells[i].width].width != 0
  {
    assert Joined(host.cells, i) && Paired(frame.cells, i);
    if 0 < i {
      assert Paired(frame.cells, i - 1);
      assert host.cells[i - 1] == Painted(frame.cells[i - 1]);
    }
    var end := i + frame.cells[i].width;
    if end < |frame.cells| {
      assert Paired(frame.cells, end);
    }
  }

  lemma PlaceJoined(cells: seq<HostCell>, i: nat, glyph: HostCell, j: nat)
    requires glyph.Lead? && 1 <= glyph.width <= 2 && i + glyph.width <= |cells| && j < |cells|
    requires forall k :: 0 <= k < |cells| ==> Joined(cells, k)
    ensures Joined(Place(cells, i, glyph), j)
  {
    assert Joined(cells, j);
    PlaceEffect(cells, i, glyph, j);
    if 0 < j {
      PlaceEffect(cells, i, glyph, j - 1);
    }
    if j + 1 < |cells| {
      PlaceEffect(cells, i, glyph, j + 1);
    }
    if i + 1 < |cells| {
      assert Joined(cells, i + 1) && Joined(cells, i);
    }
    if i + 2 < |cells| {
      assert Joined(cells, i + 2);
    }
  }

  /** Repainting cell `i` alone moves the frontier behind it: the only cell it can spoil is
      repainted later. */
  lemma PlaceAdvances(previous: Option<Frame>, frame: Frame, host: Host, i: nat, after: Host)
    requires WellFormed(frame) && Reached(previous, frame, host, i)
    requires i < |frame.cells| && 1 <= frame.cells[i].width <= 2 && i + frame.cells[i].width <= |host.cells|
    requires after == host.(cells := Place(host.cells, i, Painted(frame.cells[i])),
                            cursor := after.cursor, pen := after.pen)
    ensures Reached(previous, frame, after, i + 1)
  {
    var glyph := Painted(frame.cells[i]);
    NotOnSecondHalf(previous, frame, host, i);
    forall j | 0 <= j < |host.cells|
      ensures Joined(after.cells, j)
    {
      PlaceJoined(host.cells, i, glyph, j);
    }
    forall j | 0 <= j <= i
      ensures after.cells[j] == Painted(frame.cells[j])
    {
      PlaceEffect(host.cells, i, glyph, j);
    }
    forall j | i + 1 <= j < |frame.cells| && frame.cells[j].width != 0 && Unchanged(previous, frame, j)
      ensures after.cells[j] == Painted(frame.cells[j])
    {
      assert Paired(frame.cells, i);
      PlaceEffect(host.cells, i, glyph, j);
    }
  }

  /** A cell that is skipped is on the screen already. */
  lemma SkipAdvances(previous: Option<Frame>, frame: Frame, host: Host, i: nat)
    requires WellFormed(frame) && Reached(previous, frame, host, i) && i < |frame.cells|
    requires frame.cells[i].width == 0 || Unchanged(previous, frame, i)
    ensures Reached(previous, frame, host, i + 1)
  {
    if frame.cells[i].width == 0 {
      assert Paired(frame.cells, i);
      assert host.cells[i - 1] == Painted(frame.cells[i - 1]);
      assert Joined(host.cells, i - 1);
    }
  }

  lemma ExecuteOne(host: Host, command: Command)
    ensures Execute(host, [command]) == Apply(host, command)
  {
    assert Execute(Apply(host, command), []) == Apply(host, command);
  }

  lemma PrintEffect(frame: Frame, host: Host, x: nat, y: nat)
    requires WellFormed(frame) && Fits(host, frame) && |host.cells| == |frame.cells|
    requires x < frame.columns && y < frame.rows && host.cursor == Some((x, y))
    requires
      var pixel := frame.cells[Index(frame, x, y)];
      pixel.width != 0 && host.pen == Exactly(pixel.pen)
    ensures
      var pixel := frame.cells[Index(frame, x, y)];
      var after := Apply(host, Print(pixel.ch, pixel.width));
      && 1 <= pixel.width <= 2 && Index(frame, x, y) + pixel.width <= |host.cells|
      && after == host.(cells := Place(host.cells, Index(frame, x, y), Painted(pixel)), cursor := after.cursor)
      && Tracked(after, Some(Beyond(pixel, (x, y))), Some(pixel.pen))
  {
    assert Paired(frame.cells, Index(frame, x, y));
    RowFits(y, frame.rows, frame.columns);
  }

  lemma GlyphEffect(frame: Frame, host: Host, x: nat, y: nat, position: Option<(nat, nat)>, pen: Option<Pen>)
    requires WellFormed(frame) && Fits(host, frame) && |host.cells| == |frame.cells|
    requires x < frame.columns && y < frame.rows && Tracked(host, position, pen)
    requires frame.cells[Index(frame, x, y)].width != 0
    ensures
      var i := Index(frame, x, y);
      var pixel := frame.cells[i];
      var after := Execute(host, Glyph(pixel, (x, y), position, pen));
      && 1 <= pixel.width <= 2 && i + pixel.width <= |host.cells|
      && after == host.(cells := Place(host.cells, i, Painted(pixel)), cursor := after.cursor, pen := after.pen)
      && Tracked(after, Some(Beyond(pixel, (x, y))), Some(pixel.pen))
  {
    hide Place, Coherent, Painted;
    var pixel := frame.cells[Index(frame, x, y)];
    var move := if position == Some((x, y)) then [] else [MoveTo(x, y)];
    var style := if pen == Some(pixel.pen) then [] else [ResetPen, Style(pixel.pen)];
    var emit := [Print(pixel.ch, pixel.width)];
    ExecuteConcat(host, move + style, emit);
    ExecuteConcat(host, move, style);
    var moved := Execute(host, move);
    assert moved == host.(cursor := Some((x, y))) by {
      ExecuteOne(host, MoveTo(x, y));
    }
    var styled := Execute(moved, style);
    assert styled == moved.(pen := Exactly(pixel.pen)) by {
      ExecuteOne(moved, ResetPen);
      ExecuteOne(Apply(moved, ResetPen), Style(pixel.pen));
      ExecuteConcat(moved, [ResetPen], [Style(pixel.pen)]);
      assert [ResetPen] + [Style(pixel.pen)] == [ResetPen, Style(pixel.pen)];
    }
    ExecuteOne(styled, Print(pixel.ch, pixel.width));
    PrintEffect(frame, styled, x, y);
  }

  lemma ReachedSized(previous: Option<Frame>, frame: Frame, host: Host, i: nat)
    requires Reached(previous, frame, host, i)
    ensures Fits(host, frame) && |host.cells| == |frame.cells|
  {}

  lemma EndReached(previous: Option<Frame>, frame: Frame, host: Host, x: nat)
    requires Sized(frame) && Reached(previous, frame, host, frame.rows * frame.columns + x)
    ensures Reached(previous, frame, host, |frame.cells|)
  {}

  lemma NextRowReached(previous: Option<Frame>, frame: Frame, host: Host, y: nat)
    requires y < frame.rows && Reached(previous, frame, host, y * frame.columns + frame.columns)
    ensures Reached(previous, frame, host, (y + 1) * frame.columns + 0)
  {
    hide Reached;
    RowFits(y, frame.rows, frame.columns);
  }

  lemma ExecuteNone(host: Host)
    ensures Execute(host, []) == host
  {}

  /** What the repaint emits from here on: the next cell, if it has to be repainted, and the others. */
  lemma CellsUnfold(previous: Option<Frame>, frame: Frame, x: nat, y: nat,
                    position: Option<(nat, nat)>, pen: Option<Pen>)
    requires WellFormed(frame) && x <= frame.columns && y <= frame.rows
    ensures Sized(frame)
    ensures y == frame.rows ==> Cells(previous, frame, x, y, position, pen) == []
    ensures y < frame.rows && x == frame.columns ==>
              Cells(previous, frame, x, y, position, pen) == Cells(previous, frame, 0, y + 1, position, pen)
    ensures y < frame.rows && x < frame.columns ==>
              var pixel := frame.cells[Index(frame, x, y)];
              Cells(previous, frame, x, y, position, pen) ==
              if pixel.width == 0 || Unchanged(previous, frame, Index(frame, x, y))
              then Cells(previous, frame, x + 1, y, position, pen)
              else Glyph(pixel, (x, y), position, pen)
                   + Cells(previous, frame, x + 1, y, Some(Beyond(pixel, (x, y))), Some(pixel.pen))
  {
    hide Glyph, Beyond, Unchanged;
  }

  lemma {:induction false} CellsPaint(previous: Option<Frame>, frame: Frame, host: Host, x: nat, y: nat,
                                      position: Option<(nat, nat)>, pen: Option<Pen>)
    requires WellFormed(frame) && x <= frame.columns && y <= frame.rows
    requires Reached(previous, frame, host, y * frame.columns + x) && Tracked(host, position, pen)
    ensures
      var after := Execute(host, Cells(previous, frame, x, y, position, pen));
      Reached(previous, frame, after, |frame.cells|) && after.visible == host.visible
    decreases frame.rows - y, frame.columns - x
  {
    hide Apply, Place, Glyph, Unchanged, Beyond, Painted, Reached, Tracked, Cells, Execute, WellFormed, Index;
    CellsUnfold(previous, frame, x, y, position, pen);
    if y == frame.rows {
      EndReached(previous, frame, host, x);
      ExecuteNone(host);
    } else if x == frame.columns {
      NextRowReached(previous, frame, host, y);
      CellsPaint(previous, frame, host, 0, y + 1, position, pen);
    } else {
      var i := Index(frame, x, y);
      CellPaints(previous, frame, host, x, y, position, pen);
      if frame.cells[i].width == 0 || Unchanged(previous, frame, i) {
        CellsPaint(previous, frame, host, x + 1, y, position, pen);
      } else {
        var pixel := frame.cells[i];
        var glyph := Glyph(pixel, (x, y), position, pen);
        var behind := Some(Beyond(pixel, (x, y)));
        CellsPaint(previous, frame, Execute(host, glyph), x + 1, y, behind, Some(pixel.pen));
        ExecuteConcat(host, glyph, Cells(previous, frame, x + 1, y, behind, Some(pixel.pen)));
      }
    }
  }

  /** One cell of the scan, repainted or skipped. */
  lemma CellPaints(previous: Option<Frame>, frame: Frame, host: Host, x: nat, y: nat,
                   position: Option<(nat, nat)>, pen: Option<Pen>)
    requires WellFormed(frame) && x < frame.columns && y < frame.rows
    requires Reached(previous, frame, host, y * frame.columns + x) && Tracked(host, position, pen)
    ensures
      var pixel := frame.cells[Index(frame, x, y)];
      var after := Execute(host, Glyph(pixel, (x, y), position, pen));
      if pixel.width == 0 || Unchanged(previous, frame, Index(frame, x, y))
      then Reached(previous, frame, host, y * frame.columns + (x + 1))
      else
        && Reached(previous, frame, after, y * frame.columns + (x + 1)) && after.visible == host.visible
        && Tracked(after, Some(Beyond(pixel, (x, y))), Some(pixel.pen))
  {
    hide Apply, Place, Glyph, Unchanged, Beyond, Painted, Reached, Tracked, Execute;
    var i := Index(frame, x, y);
    ReachedSized(previous, frame, host, i);
    if frame.cells[i].width == 0 || Unchanged(previous, frame, i) {
      SkipAdvances(previous, frame, host, i);
    } else {
      GlyphEffect(frame, host, x, y, position, pen);
      PlaceAdvances(previous, frame, host, i, Execute(host, Glyph(frame.cells[i], (x, y), position, pen)));
    }
  }

  // ----- What a repaint cannot repair -----

  /** A glyph that is skipped although the screen does not show it. */
  ghost predicate Overlooked(previous: Option<Frame>, frame: Frame, host: Host, i: nat) {
    && |host.cells| == |frame.cells| && i < |frame.cells|
    && frame.cells[i].width != 0 && Unchanged(previous, frame, i) && host.cells[i] != Painted(frame.cells[i])
  }

  lemma OverlookedSized(previous: Option<Frame>, frame: Frame, host: Host, i: nat)
    requires Overlooked(previous, frame, host, i)
    ensures |host.cells| == |frame.cells|
  {}

  lemma {:induction false} CellsOverlook(previous: Option<Frame>, frame: Frame, host: Host, x: nat, y: nat,
                                         position: Option<(nat, nat)>, pen: Option<Pen>, i: nat)
    requires WellFormed(frame) && x <= frame.columns && y <= frame.rows
    requires Fits(host, frame) && Tracked(host, position, pen) && Overlooked(previous, frame, host, i)
    ensures Overlooked(previous, frame, Execute(host, Cells(previous, frame, x, y, position, pen)), i)
    decreases frame.rows - y, frame.columns - x
  {
    hide Apply, Place, Glyph, Unchanged, Beyond, Painted, Overlooked, Tracked, Cells, Execute, WellFormed;
    OverlookedSized(previous, frame, host, i);
    CellsUnfold(previous, frame, x, y, position, pen);
    if y == frame.rows {
      ExecuteNone(host);
    } else if x == frame.columns {
      CellsOverlook(previous, frame, host, 0, y + 1, position, pen, i);
    } else {
      var at := Index(frame, x, y);
      var pixel := frame.cells[at];
      if pixel.width == 0 || Unchanged(previous, frame, at) {
        CellsOverlook(previous, frame, host, x + 1, y, position, pen, i);
      } else {
        var glyph := Glyph(pixel, (x, y), position, pen);
        var after := Execute(host, glyph);
        var rest := Cells(previous, frame, x + 1, y, Some(Beyond(pixel, (x, y))), Some(pixel.pen));
        GlyphEffect(frame, host, x, y, position, pen);
        PlaceOverlooks(previous, frame, host, at, after, i);
        CellsOverlook(previous, frame, after, x + 1, y, Some(Beyond(pixel, (x, y))), Some(pixel.pen), i);
        ExecuteConcat(host, glyph, rest);
      }
    }
  }

  lemma PlaceOverlooks(previous: Option<Frame>, frame: Frame, host: Host, at: nat, after: Host, i: nat)
    requires WellFormed(frame) && Overlooked(previous, frame, host, i)
    requires at < |frame.cells| && 1 <= frame.cells[at].width <= 2 && at + frame.cells[at].width <= |host.cells|
    requires !Unchanged(previous, frame, at)
    requires after == host.(cells := Place(host.cells, at, Painted(frame.cells[at])),
                            cursor := after.cursor, pen := after.pen)
    ensures Overlooked(previous, frame, after, i)
  {
    assert Paired(frame.cells, at);
    PlaceEffect(host.cells, at, Painted(frame.cells[at]), i);
  }

  lemma ClosingKeepsCells(host: Host, frame: Frame)
    ensures Execute(host, Closing(frame)).cells == host.cells
  {
    ExecuteOne(host, ResetPen);
    if frame.cursor.Some? {
      var (x, y) := frame.cursor.value;
      ExecuteConcat(host, [ResetPen], [MoveTo(x, y), Show]);
      assert [MoveTo(x, y), Show] == [MoveTo(x, y)] + [Show];
      ExecuteConcat(Apply(host, ResetPen), [MoveTo(x, y)], [Show]);
      ExecuteOne(Apply(host, ResetPen), MoveTo(x, y));
      ExecuteOne(Apply(Apply(host, ResetPen), MoveTo(x, y)), Show);
    }
  }

  // ----- One repaint -----

  /** All glyphs that a repaint will skip are on the screen. */
  ghost predicate SkipsShown(previous: Option<Frame>, frame: Frame, host: Host) {
    forall i :: 0 <= i < |frame.cells| ==> !Overlooked(Comparable(previous, frame), frame, host, i)
  }

  /** Nothing that this draw leaves alone needs repair. */
  ghost predicate NothingOverlooked(previous: Option<Frame>, frame: Frame, host: Host) {
    if previous == Some(frame) then Shows(host, frame) else SkipsShown(previous, frame, host)
  }

  /** Whatever is on the host, one repaint leaves it showing exactly the new frame, if and only if
      every glyph that it skips was there already. */
  lemma WrittenShowsIff(previous: Option<Frame>, frame: Frame, host: Host)
    requires WellFormed(frame) && Fits(host, frame) && Coherent(host) && |host.cells| == |frame.cells|
    ensures Shows(Execute(host, Written(previous, frame)), frame) <==> SkipsShown(previous, frame, host)
  {
    hide Execute, Shows, Coherent, Overlooked;
    var usable := Comparable(previous, frame);
    var hidden := host.(visible := false);
    WrittenInParts(previous, frame, host);
    if SkipsShown(previous, frame, host) {
      SkipsReached(usable, frame, host);
      CellsPaint(usable, frame, hidden, 0, 0, None, None);
      ClosingEffect(Execute(hidden, Cells(usable, frame, 0, 0, None, None)), frame);
    } else {
      var i: nat :| i < |frame.cells| && Overlooked(usable, frame, host, i);
      OverlookedStays(usable, frame, host, i);
    }
  }

  lemma WrittenInParts(previous: Option<Frame>, frame: Frame, host: Host)
    requires WellFormed(frame)
    ensures
      var painted := Execute(host.(visible := false), Cells(Comparable(previous, frame), frame, 0, 0, None, None));
      Execute(host, Written(previous, frame)) == Execute(painted, Closing(frame))
  {
    hide Comparable, Cells, Closing;
    var cells := Cells(Comparable(previous, frame), frame, 0, 0, None, None);
    ExecuteConcat(host, [Hide] + cells, Closing(frame));
    ExecuteConcat(host, [Hide], cells);
    ExecuteOne(host, Hide);
  }

  lemma SkipsReached(usable: Option<Frame>, frame: Frame, host: Host)
    requires Fits(host, frame) && Coherent(host) && |host.cells| == |frame.cells|
    requires forall i :: 0 <= i < |frame.cells| ==> !Overlooked(usable, frame, host, i)
    ensures Reached(usable, frame, host.(visible := false), 0)
  {
    hide Unchanged, Joined, Painted;
    forall i | 0 <= i < |frame.cells| && frame.cells[i].width != 0 && Unchanged(usable, frame, i)
      ensures host.cells[i] == Painted(frame.cells[i])
    {
      assert !Overlooked(usable, frame, host, i);
    }
  }

  lemma OverlookedStays(usable: Option<Frame>, frame: Frame, host: Host, i: nat)
    requires WellFormed(frame) && Fits(host, frame) && Overlooked(usable, frame, host, i)
    ensures
      var painted := Execute(host.(visible := false), Cells(usable, frame, 0, 0, None, None));
      !Shows(Execute(painted, Closing(frame)), frame)
  {
    hide Cells, Execute, Unchanged, Coherent, Closing;
    var hidden := host.(visible := false);
    CellsOverlook(usable, frame, hidden, 0, 0, None, None, i);
    ClosingKeepsCells(Execute(hidden, Cells(usable, frame, 0, 0, None, None)), frame);
  }

  lemma ClosingEffect(host: Host, frame: Frame)
    requires WellFormed(frame) && Reached(None, frame, host, |frame.cells|) && !host.visible
    ensures Shows(Execute(host, Closing(frame)), frame)
  {
    var plain := Apply(host, ResetPen);
    if frame.cursor.Some? {
      var (x, y) := frame.cursor.value;
      ExecuteConcat(host, [ResetPen], [MoveTo(x, y), Show]);
      ExecuteOne(host, ResetPen);
      assert [MoveTo(x, y), Show] == [MoveTo(x, y)] + [Show];
      ExecuteConcat(plain, [MoveTo(x, y)], [Show]);
      ExecuteOne(plain, MoveTo(x, y));
      ExecuteOne(Apply(plain, MoveTo(x, y)), Show);
    } else {
      assert Closing(frame) == [ResetPen];
      ExecuteOne(host, ResetPen);
    }
  }

  // ----- What a repaint leaves out -----

  function Prints(commands: seq<Command>): seq<Command>
    decreases |commands|
  {
    if commands == [] then []
    else (if commands[0].Print? then [commands[0]] else []) + Prints(commands[1..])
  }

  /** The glyphs from cell `i` on that differ from those of the previous frame, in row order. */
  function Changed(previous: Option<Frame>, frame: Frame, i: nat): seq<Command>
    requires i <= |frame.cells|
    decreases |frame.cells| - i
  {
    if i == |frame.cells| then []
    else
      var pixel := frame.cells[i];
      (if pixel.width > 0 && !Unchanged(previous, frame, i) then [Print(pixel.ch, pixel.width)] else [])
      + Changed(previous, frame, i + 1)
  }

  /** No cursor move to where the commands before have left the cursor, and no reset of a pen to the one
      that they have set. */
  ghost predicate Needed(commands: seq<Command>, position: Option<(nat, nat)>, pen: Option<Pen>)
    decreases |commands|
  {
    commands == [] || (
      var rest := commands[1..];
      match commands[0]
      case MoveTo(x, y) => position != Some((x, y)) && Needed(rest, Some((x, y)), pen)
      case ResetPen => rest != [] && rest[0].Style? && pen != Some(rest[0].pen) && Needed(rest, position, None)
      case Style(next) => Needed(rest, position, Some(next))
      case Print(_, width) =>
        position.Some?
        && Needed(rest, Some((if position.value.0 + width < MAX_U16 then position.value.0 + width else MAX_U16,
                              position.value.1)), pen)
      case _ => Needed(rest, position, pen))
  }

  lemma {:induction false} PrintsOfJoined(first: seq<Command>, second: seq<Command>)
    ensures Prints(first + second) == Prints(first) + Prints(second)
    decreases |first|
  {
    if first == [] {
      assert first + second == second;
    } else {
      assert (first + second)[1..] == first[1..] + second;
      PrintsOfJoined(first[1..], second);
      var head := if first[0].Print? then [first[0]] else [];
      assert head + (Prints(first[1..]) + Prints(second)) == (head + Prints(first[1..])) + Prints(second);
    }
  }

  lemma GlyphIsNeeded(pixel: Pixel, at: (nat, nat), position: Option<(nat, nat)>, pen: Option<Pen>,
                      rest: seq<Command>)
    requires Needed(rest, Some(Beyond(pixel, at)), Some(pixel.pen))
    ensures Needed(Glyph(pixel, at, position, pen) + rest, position, pen)
  {
    var ink := [Print(pixel.ch, pixel.width)];
    assert (ink + rest)[1..] == rest;
    assert Needed(ink + rest, Some(at), Some(pixel.pen));
    var dressed := (if pen == Some(pixel.pen) then [] else [ResetPen, Style(pixel.pen)]) + ink;
    assert Needed(dressed + rest, Some(at), pen) by {
      if pen == Some(pixel.pen) {
        assert dressed + rest == ink + rest;
      } else {
        assert (dressed + rest)[1..][1..] == ink + rest;
      }
    }
    var glyph := Glyph(pixel, at, position, pen);
    if position == Some(at) {
      assert glyph + rest == dressed + rest;
    } else {
      assert (glyph + rest)[1..] == dressed + rest;
    }
  }

  lemma FirstIsNotPrinted(first: Command, rest: seq<Command>)
    requires !first.Print?
    ensures Prints([first] + rest) == Prints(rest)
  {
    assert ([first] + rest)[1..] == rest;
  }

  lemma GlyphPrints(pixel: Pixel, at: (nat, nat), position: Option<(nat, nat)>, pen: Option<Pen>)
    ensures Prints(Glyph(pixel, at, position, pen)) == [Print(pixel.ch, pixel.width)]
  {
    hide Prints;
    var ink := [Print(pixel.ch, pixel.width)];
    var dressed := (if pen == Some(pixel.pen) then [] else [ResetPen, Style(pixel.pen)]) + ink;
    OnePrint(pixel.ch, pixel.width);
    FirstIsNotPrinted(Style(pixel.pen), ink);
    FirstIsNotPrinted(ResetPen, [Style(pixel.pen)] + ink);
    assert dressed == if pen == Some(pixel.pen) then ink else [ResetPen] + ([Style(pixel.pen)] + ink);
    FirstIsNotPrinted(MoveTo(at.0, at.1), dressed);
    assert Glyph(pixel, at, position, pen) == if position == Some(at) then dressed else [MoveTo(at.0, at.1)] + dressed;
  }

  lemma OnePrint(ch: char, width: nat)
    ensures Prints([Print(ch, width)]) == [Print(ch, width)] && Prints([]) == []
  {}

  lemma ClosingPrints(frame: Frame)
    ensures Prints(Closing(frame)) == []
  {
    FirstIsNotPrinted(ResetPen, []);
    if frame.cursor.Some? {
      var move := MoveTo(frame.cursor.value.0, frame.cursor.value.1);
      FirstIsNotPrinted(ResetPen, [move, Show]);
      FirstIsNotPrinted(move, [Show]);
      FirstIsNotPrinted(Show, []);
    }
  }

  lemma {:induction false} CellsAreNeeded(previous: Option<Frame>, frame: Frame, x: nat, y: nat,
                                          position: Option<(nat, nat)>, pen: Option<Pen>, i: nat)
    requires Sized(frame) && x <= frame.columns && y < frame.rows
    requires i == y * frame.columns + x <= |frame.cells|
    ensures Needed(Cells(previous, frame, x, y, position, pen), position, pen)
    ensures Prints(Cells(previous, frame, x, y, position, pen)) == Changed(previous, frame, i)
    decreases frame.rows - y, frame.columns - x
  {
    hide Needed, Prints, Unchanged, Glyph, Cells, Changed;
    if x == frame.columns {
      RowFits(y, frame.rows, frame.columns);
      RowEnds(previous, frame, y, position, pen);
      if y + 1 < frame.rows {
        RowFits(y + 1, frame.rows, frame.columns);
        CellsAreNeeded(previous, frame, 0, y + 1, position, pen, i);
      } else {
        NothingIsNeeded(previous, frame, position, pen);
      }
    } else {
      assert i == Index(frame, x, y);
      CellOfRow(previous, frame, x, y, position, pen);
      var pixel := frame.cells[i];
      if pixel.width == 0 || Unchanged(previous, frame, i) {
        CellsAreNeeded(previous, frame, x + 1, y, position, pen, i + 1);
      } else {
        var rest := Cells(previous, frame, x + 1, y, Some(Beyond(pixel, (x, y))), Some(pixel.pen));
        CellsAreNeeded(previous, frame, x + 1, y, Some(Beyond(pixel, (x, y))), Some(pixel.pen), i + 1);
        GlyphIsNeeded(pixel, (x, y), position, pen, rest);
        GlyphPrints(pixel, (x, y), position, pen);
        PrintsOfJoined(Glyph(pixel, (x, y), position, pen), rest);
      }
    }
  }

  lemma RowEnds(previous: Option<Frame>, frame: Frame, y: nat, position: Option<(nat, nat)>, pen: Option<Pen>)
    requires Sized(frame) && y < frame.rows
    ensures Cells(previous, frame, frame.columns, y, position, pen) == Cells(previous, frame, 0, y + 1, position, pen)
  {}

  lemma CellOfRow(previous: Option<Frame>, frame: Frame, x: nat, y: nat, position: Option<(nat, nat)>,
                  pen: Option<Pen>)
    requires Sized(frame) && x < frame.columns && y < frame.rows
    ensures
      var i := Index(frame, x, y);
      var pixel := frame.cells[i];
      if pixel.width == 0 || Unchanged(previous, frame, i) then
        Cells(previous, frame, x, y, position, pen) == Cells(previous, frame, x + 1, y, position, pen)
        && Changed(previous, frame, i) == Changed(previous, frame, i + 1)
      else
        Cells(previous, frame, x, y, position, pen)
          == Glyph(pixel, (x, y), position, pen)
             + Cells(previous, frame, x + 1, y, Some(Beyond(pixel, (x, y))), Some(pixel.pen))
        && Changed(previous, frame, i) == [Print(pixel.ch, pixel.width)] + Changed(previous, frame, i + 1)
  {
    hide Unchanged, Glyph, Beyond;
  }

  lemma NothingIsNeeded(previous: Option<Frame>, frame: Frame, position: Option<(nat, nat)>, pen: Option<Pen>)
    requires Sized(frame)
    ensures Cells(previous, frame, 0, frame.rows, position, pen) == [] && Changed(previous, frame, |frame.cells|) == []
    ensures Needed([], position, pen) && Prints([]) == []
  {}

  /** A repaint prints exactly the glyphs that have changed since the frame before, if that has the same
      size, once each and in order. It moves the cursor and resets the pen between them only where needed,
      with no other way to know the cursor and the pen than by its own commands. */
  lemma OnlyChangesAreWritten(previous: Option<Frame>, frame: Frame)
    requires Sized(frame)
    ensures Prints(Written(previous, frame)) == Changed(Comparable(previous, frame), frame, 0)
    ensures exists cells :: Written(previous, frame) == [Hide] + cells + Closing(frame) && Needed(cells, None, None)
  {
    hide Needed, Cells, Changed;
    var cells := Cells(Comparable(previous, frame), frame, 0, 0, None, None);
    if frame.rows == 0 {
      NothingIsNeeded(Comparable(previous, frame), frame, None, None);
    } else {
      RowFits(0, frame.rows, frame.columns);
      CellsAreNeeded(Comparable(previous, frame), frame, 0, 0, None, None, 0);
    }
    PrintsOfJoined([Hide] + cells, Closing(frame));
    PrintsOfJoined([Hide], cells);
    ClosingPrints(frame);
    assert Written(previous, frame) == [Hide] + cells + Closing(frame);
  }

  // ----- The host by itself -----

  /** No command leaves half of a wide glyph on the screen. */
  lemma ApplyKeepsCoherent(host: Host, command: Command)
    requires Coherent(host)
    ensures Coherent(Apply(host, command))
    ensures Apply(host, command).columns == host.columns && Apply(host, command).rows == host.rows
  {
    hide Place;
    if command.Print? && Apply(host, command).cells != host.cells && Apply(host, command) != Garbled(host) {
      var (x, y) := host.cursor.value;
      forall j | 0 <= j < |host.cells|
        ensures Joined(Apply(host, command).cells, j)
      {
        PlaceJoined(host.cells, y * host.columns + x, Lead(command.ch, command.width, host.pen.pen), j);
      }
    }
  }

  lemma {:induction false} ExecuteKeepsCoherent(host: Host, commands: seq<Command>)
    requires Coherent(host)
    ensures Coherent(Execute(host, commands))
    ensures Execute(host, commands).columns == host.columns && Execute(host, commands).rows == host.rows
    decreases |commands|
  {
    hide Apply, Coherent;
    if commands != [] {
      ApplyKeepsCoherent(host, commands[0]);
      ExecuteKeepsCoherent(Apply(host, commands[0]), commands[1..]);
    }
  }

  // ----- Whole runs -----

  /** A renderer together with the screen it draws on. */
  datatype Terminal = Terminal(previous: Option<Frame>, host: Host)

  /** `Disturb` is anything else that changes the screen: another program, or a new size. */
  datatype Event = Draw(frame: Frame) | Invalidate | Disturb(screen: Host)

  /** A frame may be drawn for a size that the screen no longer has. */
  ghost predicate Possible(event: Event) {
    match event
    case Draw(frame) => WellFormed(frame)
    case Invalidate => true
    case Disturb(screen) => Coherent(screen)
  }

  function Next(terminal: Terminal, event: Event): Terminal
    requires event.Draw? ==> Sized(event.frame)
  {
    match event
    case Draw(frame) => Terminal(Some(frame), Execute(terminal.host, Drawn(terminal.previous, frame)))
    case Invalidate => terminal.(previous := None)
    case Disturb(screen) => terminal.(host := screen)
  }

  /** `events` can happen one after the other from `terminal` and lead to `end`. */
  ghost predicate Run(terminal: Terminal, events: seq<Event>, end: Terminal)
    decreases |events|
  {
    if events == [] then end == terminal
    else Possible(events[0]) && Run(Next(terminal, events[0]), events[1..], end)
  }

  /** What holds of every renderer and every screen. */
  ghost predicate Sound(terminal: Terminal) {
    Coherent(terminal.host) && (terminal.previous.Some? ==> WellFormed(terminal.previous.value))
  }

  lemma StepKeepsSound(terminal: Terminal, event: Event)
    requires Sound(terminal) && Possible(event)
    ensures Sound(Next(terminal, event))
  {
    hide Coherent;
    if event.Draw? {
      ExecuteKeepsCoherent(terminal.host, Drawn(terminal.previous, event.frame));
    }
  }

  lemma {:induction false} RunsStaySound(terminal: Terminal, events: seq<Event>, end: Terminal)
    requires Sound(terminal) && Run(terminal, events, end)
    ensures Sound(end)
    decreases |events|
  {
    hide Sound, Next;
    if events != [] {
      StepKeepsSound(terminal, events[0]);
      RunsStaySound(Next(terminal, events[0]), events[1..], end);
    }
  }

  /** Over any run in which the screen is disturbed at any time and in any way, a frame drawn then is
      shown exactly, if and only if nothing that this draw leaves alone needed repair. */
  lemma DrawShowsIff(terminal: Terminal, events: seq<Event>, end: Terminal, frame: Frame)
    requires Sound(terminal) && Run(terminal, events, end) && WellFormed(frame) && Fits(end.host, frame)
    ensures Shows(Next(end, Draw(frame)).host, frame) <==> NothingOverlooked(end.previous, frame, end.host)
  {
    hide Run, Cells, Closing;
    RunsStaySound(terminal, events, end);
    if end.previous != Some(frame) {
      WrittenShowsIff(end.previous, frame, end.host);
    }
  }

  // ----- Runs in which the renderer is told -----

  /** The screen changes behind the renderer's back only when the renderer will not compare with what
      it drew before: after an invalidation, or to another size than that of the last frame. */
  ghost predicate Announced(terminal: Terminal, event: Event) {
    event.Disturb? && terminal.previous.Some? ==> !Fits(event.screen, terminal.previous.value)
  }

  ghost predicate AllAnnounced(terminal: Terminal, events: seq<Event>)
    decreases |events|
  {
    events != [] && Possible(events[0]) ==>
      Announced(terminal, events[0]) && AllAnnounced(Next(terminal, events[0]), events[1..])
  }

  /** When the renderer will compare with its previous frame, the host still shows that frame. */
  ghost predicate Synced(terminal: Terminal) {
    && Sound(terminal)
    && (terminal.previous.Some? && Fits(terminal.host, terminal.previous.value) ==>
          Shows(terminal.host, terminal.previous.value))
  }

  lemma SyncedOverlooksNothing(terminal: Terminal, frame: Frame)
    requires Synced(terminal) && WellFormed(frame) && Fits(terminal.host, frame)
    ensures NothingOverlooked(terminal.previous, frame, terminal.host)
  {
  }

  lemma StepKeepsSynced(terminal: Terminal, event: Event)
    requires Synced(terminal) && Possible(event) && Announced(terminal, event)
    ensures Synced(Next(terminal, event))
    ensures event.Draw? && Fits(terminal.host, event.frame) ==> Shows(Next(terminal, event).host, event.frame)
  {
    hide NothingOverlooked, Shows;
    StepKeepsSound(terminal, event);
    if event.Draw? {
      ExecuteKeepsCoherent(terminal.host, Drawn(terminal.previous, event.frame));
      if Fits(terminal.host, event.frame) {
        SyncedOverlooksNothing(terminal, event.frame);
        DrawShowsIff(terminal, [], terminal, event.frame);
      }
    }
  }

  /** Over any run of draws, invalidations and announced disturbances, a draw at the end that fits the
      screen leaves it showing exactly the frame drawn last. */
  lemma {:induction false} LastFrameIsShown(terminal: Terminal, events: seq<Event>, end: Terminal)
    requires Synced(terminal) && Run(terminal, events, end) && AllAnnounced(terminal, events)
    ensures Synced(end)
    ensures
      events != [] && events[|events| - 1].Draw? ==>
        var frame := events[|events| - 1].frame;
        Fits(end.host, frame) ==> Shows(end.host, frame)
    decreases |events|
  {
    hide Synced, Shows, Announced;
    if events != [] {
      StepKeepsSynced(terminal, events[0]);
      if events[0].Draw? {
        DrawKeepsSize(terminal, events[0]);
      }
      LastFrameIsShown(Next(terminal, events[0]), events[1..], end);
    }
  }

  lemma DrawKeepsSize(terminal: Terminal, event: Event)
    requires Synced(terminal) && Possible(event) && event.Draw?
    ensures Fits(Next(terminal, event).host, event.frame) <==> Fits(terminal.host, event.frame)
  {
    ExecuteKeepsCoherent(terminal.host, Drawn(terminal.previous, event.frame));
  }

  // ----- A disturbance that stays -----

  /** A screen of one cell that shows `ch`, or that has been cleared. */
  function Tiny(ch: char, pen: Pen): Frame {
    Frame(1, 1, [Pixel(ch, 1, pen)], None)
  }

  function Emptied(columns: nat): Host {
    Host(columns, 1, seq(columns, _ => Unknown), None, false, Plain)
  }

  /** The screen is resized and back again between two draws, which clears it. The renderer is told of
      neither, compares with the frame it drew before, and draws nothing. */
  lemma ResizedBackIsNotRepaired(ch: char, pen: Pen, start: Host)
    requires Coherent(start) && Fits(start, Tiny(ch, pen))
    ensures
      var frame := Tiny(ch, pen);
      var drawn := Next(Terminal(None, start), Draw(frame));
      var events := [Draw(frame), Disturb(Emptied(2)), Disturb(Emptied(1)), Draw(frame)];
      var end := Terminal(Some(frame), Emptied(1));
      && Run(Terminal(None, start), events, end) && !Shows(end.host, frame)
  {
    var frame := Tiny(ch, pen);
    var drawn := Next(Terminal(None, start), Draw(frame));
    var end := Terminal(Some(frame), Emptied(1));
    assert WellFormed(frame) by {
      assert Paired(frame.cells, 0);
    }
    assert Next(end, Draw(frame)) == end;
    assert Run(end, [Draw(frame)], end) by {
      assert [Draw(frame)][1..] == [];
    }
    var twice := Terminal(Some(frame), Emptied(2));
    assert [Disturb(Emptied(1)), Draw(frame)][1..] == [Draw(frame)];
    assert Run(twice, [Disturb(Emptied(1)), Draw(frame)], end);
    var events := [Draw(frame), Disturb(Emptied(2)), Disturb(Emptied(1)), Draw(frame)];
    assert events[1..][1..] == [Disturb(Emptied(1)), Draw(frame)];
    assert Run(drawn, events[1..], end);
  }
}
