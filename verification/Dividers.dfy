/**
 Finding the divider under the pointer. The daemon publishes a split tree and the rectangle of
 each pane; the one-cell gaps between the rectangles are the dividers.
 */
module Dividers {
  import opened Basics
  import opened Options
  import opened Layouts

  datatype PaneGeometry = PaneGeometry(id: Id, left: u16, top: u16, columns: u16, rows: u16)

  type Point = (u16, u16)

  /** The cells from `left` to before `right` and from `top` to before `bottom`. */
  datatype Bounds = Bounds(left: u16, top: u16, right: u16, bottom: u16)

  datatype Divider = Divider(splitPath: seq<u16>, boundary: u16, axis: Axis, position: u16)

  predicate Contains(bounds: Bounds, point: Point) {
    bounds.left <= point.0 < bounds.right && bounds.top <= point.1 < bounds.bottom
  }

  function PaneBounds(pane: PaneGeometry): Option<Bounds> {
    if pane.left + pane.columns > 0xFFFF || pane.top + pane.rows > 0xFFFF then None
    else Some(Bounds(pane.left, pane.top, pane.left + pane.columns, pane.top + pane.rows))
  }

  function FindPane(panes: seq<PaneGeometry>, id: Id): Option<PaneGeometry> {
    if panes == [] then None else if panes[0].id == id then Some(panes[0]) else FindPane(panes[1..], id)
  }

  predicate InSomePane(panes: seq<PaneGeometry>, point: Point) {
    exists pane :: pane in panes && InPane(pane, point)
  }

  predicate InPane(pane: PaneGeometry, point: Point) {
    PaneBounds(pane).Some? && Contains(PaneBounds(pane).value, point)
  }

  function Union(a: Bounds, b: Bounds): Bounds {
    Bounds(Min(a.left, b.left), Min(a.top, b.top), Max(a.right, b.right), Max(a.bottom, b.bottom))
  }

  /** The smallest rectangle around all panes of a layout; absent when a pane is unknown or reaches
      beyond the largest coordinate, or a split is empty. */
  function LayoutBounds(layout: Layout, panes: seq<PaneGeometry>): Option<Bounds>
    decreases layout, 1
  {
    match layout
    case Terminal(id) =>
      (match FindPane(panes, id)
       case None => None
       case Some(pane) => PaneBounds(pane))
    case Split(_, children, _) =>
      var all := ChildBounds(children, panes);
      if all.None? || all.value == [] then None else Some(UnionAll(all.value))
  }

  function ChildBounds(children: seq<Layout>, panes: seq<PaneGeometry>): (all: Option<seq<Bounds>>)
    ensures all.Some? ==> |all.value| == |children|
    decreases children, 0
  {
    if children == [] then Some([])
    else
      var first, rest := LayoutBounds(children[0], panes), ChildBounds(children[1..], panes);
      if first.None? || rest.None? then None else Some([first.value] + rest.value)
  }

  function UnionAll(all: seq<Bounds>): Bounds
    requires all != []
  {
    if |all| == 1 then all[0] else Union(all[0], UnionAll(all[1..]))
  }

  function Near(axis: Axis, bounds: Bounds): u16 {
    if axis.Horizontal? then bounds.left else bounds.top
  }

  function Far(axis: Axis, bounds: Bounds): u16 {
    if axis.Horizontal? then bounds.right else bounds.bottom
  }

  function Along(axis: Axis, point: Point): u16 {
    if axis.Horizontal? then point.0 else point.1
  }

  // ----- The search -----

  /** Whether the one-cell gap between two neighbours lies under the pointer. */
  predicate GapAt(axis: Axis, before: Bounds, after: Bounds, point: Point) {
    Far(axis, before) + 1 == Near(axis, after) && Along(axis, point) == Far(axis, before)
  }

  /** The first gap under the pointer among the children from number `boundary` on. */
  function FindGap(axis: Axis, all: seq<Bounds>, point: Point, boundary: nat): Option<nat> {
    if |all| < 2 then None
    else if GapAt(axis, all[0], all[1], point) then Some(boundary)
    else FindGap(axis, all[1..], point, boundary + 1)
  }

  function Find(layout: Layout, panes: seq<PaneGeometry>, point: Point, path: seq<u16>): Option<Divider>
    decreases layout, 1
  {
    match layout
    case Terminal(_) => None
    case Split(axis, children, _) =>
      var bounds := LayoutBounds(layout, panes);
      if bounds.None? || !Contains(bounds.value, point) then None
      else
        match FindGap(axis, ChildBounds(children, panes).value, point, 0)
        case Some(boundary) =>
          if boundary > 0xFFFF then None else Some(Divider(path, boundary, axis, Along(axis, point)))
        case None => FindBelow(children, panes, point, path, 0)
  }

  function FindBelow(children: seq<Layout>, panes: seq<PaneGeometry>, point: Point, path: seq<u16>, index: nat)
    : Option<Divider>
    decreases children, 0
  {
    if children == [] || index > 0xFFFF then None
    else
      var found := Find(children[0], panes, point, path + [index]);
      if found.Some? then found else FindBelow(children[1..], panes, point, path, index + 1)
  }

  function Hit(zoomed: Option<Id>, layout: Layout, panes: seq<PaneGeometry>, point: Point): Option<Divider> {
    if zoomed.Some? || InSomePane(panes, point) then None else Find(layout, panes, point, [])
  }

  // ----- What a found divider is -----

  /** `path` leads from `layout` to a split that has the divider's gap under the pointer, through
      splits that hold the pointer but have no such gap. */
  ghost predicate Leads(layout: Layout, panes: seq<PaneGeometry>, point: Point, path: seq<u16>, divider: Divider)
    decreases |path|
  {
    && layout.Split?
    && LayoutBounds(layout, panes).Some? && Contains(LayoutBounds(layout, panes).value, point)
    && var all := ChildBounds(layout.children, panes).value;
       if path == [] then
         && divider.axis == layout.axis && divider.boundary + 1 < |all|
         && GapAt(divider.axis, all[divider.boundary], all[divider.boundary + 1], point)
         && divider.position == Far(divider.axis, all[divider.boundary])
       else
         && (forall b :: 0 <= b < |all| - 1 ==> !GapAt(layout.axis, all[b], all[b + 1], point))
         && path[0] < |layout.children|
         && Leads(layout.children[path[0]], panes, point, path[1..], divider)
  }

  lemma FindGapIsFirst(axis: Axis, all: seq<Bounds>, point: Point, boundary: nat)
    ensures
      match FindGap(axis, all, point, boundary)
      case Some(b) =>
        boundary <= b < boundary + |all| - 1 && GapAt(axis, all[b - boundary], all[b - boundary + 1], point)
      case None => forall b :: 0 <= b < |all| - 1 ==> !GapAt(axis, all[b], all[b + 1], point)
  {
    if |all| >= 2 && !GapAt(axis, all[0], all[1], point) {
      FindGapIsFirst(axis, all[1..], point, boundary + 1);
      if FindGap(axis, all[1..], point, boundary + 1).None? {
        forall b | 0 <= b < |all| - 1
          ensures !GapAt(axis, all[b], all[b + 1], point)
        {
          if 0 < b {
            assert all[1..][b - 1] == all[b] && all[1..][b] == all[b + 1];
          }
        }
      }
    }
  }

  /** Whatever the published tree and rectangles are: a divider that is found is the outermost one
      on its way, and its path and boundary address it. */
  lemma {:induction false} FoundDividerIsThere(layout: Layout, panes: seq<PaneGeometry>, point: Point, path: seq<u16>)
    returns (rest: seq<u16>)
    ensures
      var found := Find(layout, panes, point, path);
      found.Some? ==> found.value.splitPath == path + rest && Leads(layout, panes, point, rest, found.value)
    decreases layout, 1
  {
    rest := [];
    if layout.Split? && LayoutBounds(layout, panes).Some? {
      var all := ChildBounds(layout.children, panes).value;
      FindGapIsFirst(layout.axis, all, point, 0);
      if FindGap(layout.axis, all, point, 0).None? {
        rest := FoundBelowIsThere(layout.children, panes, point, path, 0);
      } else {
        assert path + [] == path;
      }
    }
  }

  lemma {:induction false} FoundBelowIsThere(children: seq<Layout>, panes: seq<PaneGeometry>, point: Point,
                                             path: seq<u16>, index: nat)
    returns (rest: seq<u16>)
    ensures
      var found := FindBelow(children, panes, point, path, index);
      found.Some? ==>
        && rest != [] && index <= rest[0] < index + |children|
        && found.value.splitPath == path + rest
        && Leads(children[rest[0] - index], panes, point, rest[1..], found.value)
    decreases children, 0
  {
    rest := [];
    if children != [] && index <= 0xFFFF {
      var below := FoundDividerIsThere(children[0], panes, point, path + [index]);
      if Find(children[0], panes, point, path + [index]).Some? {
        rest := [index] + below;
        assert path + [index] + below == path + rest && rest[1..] == below;
      } else {
        rest := FoundBelowIsThere(children[1..], panes, point, path, index + 1);
      }
    }
  }

  // ----- Tiled layouts -----

  function CutBefore(axis: Axis, area: Bounds, cut: u16): Bounds {
    if axis.Horizontal? then area.(right := cut) else area.(bottom := cut)
  }

  function CutAfter(axis: Axis, area: Bounds, cut: u16): Bounds
    requires cut < 0xFFFF
  {
    if axis.Horizontal? then area.(left := cut + 1) else area.(top := cut + 1)
  }

  /** The panes fill the area exactly, but for a one-cell gap between the children of each split. */
  ghost predicate Tiled(layout: Layout, panes: seq<PaneGeometry>, area: Bounds)
    decreases layout, 1
  {
    match layout
    case Terminal(id) => FindPane(panes, id).Some? && PaneBounds(FindPane(panes, id).value) == Some(area)
    case Split(axis, children, _) => children != [] && TiledRow(axis, children, panes, area)
  }

  ghost predicate TiledRow(axis: Axis, children: seq<Layout>, panes: seq<PaneGeometry>, area: Bounds)
    decreases children, 0
  {
    if children == [] then false
    else if |children| == 1 then Tiled(children[0], panes, area)
    else exists cut: u16 :: TiledFrom(axis, children, panes, area, cut)
  }

  /** The first child ends at the gap `cut` and the others fill the area behind it. */
  ghost predicate TiledFrom(axis: Axis, children: seq<Layout>, panes: seq<PaneGeometry>, area: Bounds, cut: u16)
    requires 2 <= |children|
    decreases children, 0, 0
  {
    && Near(axis, area) <= cut < Far(axis, area)
    && Tiled(children[0], panes, CutBefore(axis, area, cut))
    && TiledRow(axis, children[1..], panes, CutAfter(axis, area, cut))
  }

  ghost predicate Proper(area: Bounds) {
    area.left <= area.right && area.top <= area.bottom
  }

  lemma {:induction false} TiledBounds(layout: Layout, panes: seq<PaneGeometry>, area: Bounds)
    requires Tiled(layout, panes, area) && Proper(area)
    ensures LayoutBounds(layout, panes) == Some(area)
    decreases layout, 1
  {
    if layout.Split? {
      TiledRowBounds(layout.axis, layout.children, panes, area);
    }
  }

  lemma {:induction false} TiledRowBounds(axis: Axis, children: seq<Layout>, panes: seq<PaneGeometry>, area: Bounds)
    requires children != [] && TiledRow(axis, children, panes, area) && Proper(area)
    ensures ChildBounds(children, panes).Some? && UnionAll(ChildBounds(children, panes).value) == area
    decreases children, 0
  {
    if |children| == 1 {
      TiledBounds(children[0], panes, area);
      assert children[1..] == [] && ChildBounds([], panes) == Some([]);
      assert ChildBounds(children, panes).value == [area];
    } else {
      var cut: u16 :| TiledFrom(axis, children, panes, area, cut);
      TiledBounds(children[0], panes, CutBefore(axis, area, cut));
      TiledRowBounds(axis, children[1..], panes, CutAfter(axis, area, cut));
      var rest := ChildBounds(children[1..], panes).value;
      assert ChildBounds(children, panes).value == [CutBefore(axis, area, cut)] + rest;
      assert ([CutBefore(axis, area, cut)] + rest)[1..] == rest;
    }
  }

  /** Every rectangle of a row starts where the area of the row starts. */
  lemma RowStarts(axis: Axis, children: seq<Layout>, panes: seq<PaneGeometry>, area: Bounds)
    requires children != [] && TiledRow(axis, children, panes, area) && Proper(area)
    ensures ChildBounds(children, panes).Some? && Near(axis, ChildBounds(children, panes).value[0]) == Near(axis, area)
  {
    TiledRowBounds(axis, children, panes, area);
    if |children| == 1 {
      TiledBounds(children[0], panes, area);
    } else {
      var cut: u16 :| TiledFrom(axis, children, panes, area, cut);
      TiledBounds(children[0], panes, CutBefore(axis, area, cut));
    }
  }

  /** A point of a tiled area that lies in no pane is found to lie on a divider. */
  lemma {:induction false} GapIsFound(layout: Layout, panes: seq<PaneGeometry>, area: Bounds, point: Point,
                                      path: seq<u16>)
    requires Tiled(layout, panes, area) && Proper(area) && Contains(area, point) && !InSomePane(panes, point)
    ensures Find(layout, panes, point, path).Some?
    decreases layout, 1
  {
    match layout
    case Terminal(id) =>
      FindPaneMember(panes, id);
      assert InPane(FindPane(panes, id).value, point);
    case Split(axis, children, _) =>
      TiledBounds(layout, panes, area);
      GapInRow(axis, children, panes, area, point, path, 0, 0);
  }

  lemma FindPaneMember(panes: seq<PaneGeometry>, id: Id)
    ensures FindPane(panes, id).Some? ==> FindPane(panes, id).value in panes
  {}

  lemma {:induction false} GapInRow(axis: Axis, children: seq<Layout>, panes: seq<PaneGeometry>, area: Bounds,
                                    point: Point, path: seq<u16>, boundary: nat, index: nat)
    requires children != [] && TiledRow(axis, children, panes, area) && Proper(area)
    requires Contains(area, point) && !InSomePane(panes, point)
    requires boundary <= Near(axis, area) && index <= Near(axis, area)
    ensures ChildBounds(children, panes).Some?
    ensures
      match FindGap(axis, ChildBounds(children, panes).value, point, boundary)
      case Some(b) => b <= 0xFFFF
      case None => FindBelow(children, panes, point, path, index).Some?
    decreases children, 0
  {
    hide LayoutBounds, Find;
    TiledRowBounds(axis, children, panes, area);
    if |children| == 1 {
      GapIsFound(children[0], panes, area, point, path + [index]);
    } else {
      var cut: u16 :| TiledFrom(axis, children, panes, area, cut);
      var first, behind := CutBefore(axis, area, cut), CutAfter(axis, area, cut);
      TiledBounds(children[0], panes, first);
      TiledRowBounds(axis, children[1..], panes, behind);
      RowStarts(axis, children[1..], panes, behind);
      var rest := ChildBounds(children[1..], panes).value;
      assert ChildBounds(children, panes).value == [first] + rest && ([first] + rest)[1..] == rest;
      if Along(axis, point) < cut {
        GapIsFound(children[0], panes, first, point, path + [index]);
        FindGapIsBounded(axis, rest, panes, children[1..], behind, point, boundary + 1);
      } else if Along(axis, point) > cut {
        OutsideFindsNothing(children[0], panes, first, point, path + [index]);
        GapInRow(axis, children[1..], panes, behind, point, path, boundary + 1, index + 1);
      }
    }
  }

  lemma OutsideFindsNothing(layout: Layout, panes: seq<PaneGeometry>, area: Bounds, point: Point, path: seq<u16>)
    requires LayoutBounds(layout, panes) == Some(area) && !Contains(area, point)
    ensures Find(layout, panes, point, path).None?
  {}

  /** A point before a tiled row is on none of its gaps. */
  lemma {:induction false} FindGapIsBounded(axis: Axis, all: seq<Bounds>, panes: seq<PaneGeometry>,
                                            children: seq<Layout>,
                                            area: Bounds, point: Point, boundary: nat)
    requires children != [] && TiledRow(axis, children, panes, area) && Proper(area)
    requires ChildBounds(children, panes) == Some(all) && Along(axis, point) < Near(axis, area)
    ensures FindGap(axis, all, point, boundary).None?
    decreases children
  {
    if |children| > 1 {
      var cut: u16 :| TiledFrom(axis, children, panes, area, cut);
      TiledBounds(children[0], panes, CutBefore(axis, area, cut));
      var rest := ChildBounds(children[1..], panes).value;
      assert all == [CutBefore(axis, area, cut)] + rest && all[1..] == rest;
      FindGapIsBounded(axis, rest, panes, children[1..], CutAfter(axis, area, cut), point, boundary + 1);
    }
  }

  /** In a view whose panes tile its area with one-cell gaps, and in which no pane is zoomed, a
      point is on a divider exactly when it is inside the area and in no pane. */
  lemma HitIffInGap(zoomed: Option<Id>, layout: Layout, panes: seq<PaneGeometry>, area: Bounds, point: Point)
    requires Tiled(layout, panes, area) && Proper(area)
    ensures Hit(zoomed, layout, panes, point).Some? <==>
            zoomed.None? && Contains(area, point) && !InSomePane(panes, point)
  {
    TiledBounds(layout, panes, area);
    if Contains(area, point) && !InSomePane(panes, point) {
      GapIsFound(layout, panes, area, point, []);
    }
  }

  /** What a hit returns addresses the outermost split with a gap under the pointer. */
  lemma HitAddressesOutermostGap(zoomed: Option<Id>, layout: Layout, panes: seq<PaneGeometry>, point: Point)
    ensures
      var hit := Hit(zoomed, layout, panes, point);
      hit.Some? ==> Leads(layout, panes, point, hit.value.splitPath, hit.value)
                    && hit.value.position == Along(hit.value.axis, point) && !InSomePane(panes, point)
  {
    var rest := FoundDividerIsThere(layout, panes, point, []);
    assert [] + rest == rest;
    if Hit(zoomed, layout, panes, point).Some? {
      LeadsToPosition(layout, panes, point, rest, Hit(zoomed, layout, panes, point).value);
    }
  }

  lemma LeadsToPosition(layout: Layout, panes: seq<PaneGeometry>, point: Point, path: seq<u16>, divider: Divider)
    requires Leads(layout, panes, point, path, divider)
    ensures divider.position == Along(divider.axis, point)
    decreases |path|
  {
    if path != [] {
      LeadsToPosition(layout.children[path[0]], panes, point, path[1..], divider);
    }
  }
}
