/**
 Drags on a view that is not displayed as it was published. While the screen of a pane is kept that
 an adopted view no longer has, the old geometry stays on display under the new revision; a drag
 that starts on it asks the daemon to change a tree that it no longer has.
 */
module RetainedDrags {
  import opened Basics
  import opened Options
  import opened Layouts
  import opened Dividers
  import opened Views
  import opened Adoption
  import opened Drags

  /** The request of a drag on this view for one position. */
  function RequestAt(view: View, divider: Divider, position: u16): Request {
    Request(view.view, view.revision, divider.splitPath, divider.boundary, position)
  }

  /** A pointer can ask for this position, given how far the canvas is scrolled. */
  predicate Reachable(divider: Divider, offset: Point, position: u16) {
    position != divider.position && Along(divider.axis, offset) <= position
  }

  /** What a request does to the daemon's own view: it is applied, which may leave a divider where it
      is, or it changes the geometry. */
  datatype Harm = AnyEffect | ChangedGeometry

  predicate Affects(library: Library, daemon: View, request: Request, harm: Harm) {
    && DaemonResized(library, daemon, request).Some?
    && (harm.ChangedGeometry? ==> !SameGeometry(DaemonResized(library, daemon, request).value, daemon))
  }

  /** A drag on this view can ask for something that has such an effect on the daemon's view. */
  ghost predicate Movable(library: Library, daemon: View, view: View, divider: Divider, offset: Point, harm: Harm) {
    exists position: u16 :: Moves(library, daemon, view, divider, offset, position, harm)
  }

  predicate Moves(library: Library, daemon: View, view: View, divider: Divider, offset: Point, position: u16,
                  harm: Harm) {
    Reachable(divider, offset, position) && Affects(library, daemon, RequestAt(view, divider, position), harm)
  }

  /** Some run without another drag leads to a request that the daemon applies to another geometry, with
      such an effect. */
  ghost predicate CanMisapply(library: Library, s: System, harm: Harm) {
    exists events, end, id :: MisappliesIn(library, s, events, end, id, harm)
  }

  ghost predicate MisappliesIn(library: Library, s: System, events: seq<Drags.Event>, end: System, id: nat,
                               harm: Harm) {
    && OnlyThisDrag(events) && Drags.Run(library, s, events, end) && Misapplied(library, end, id)
    && Affects(library, end.daemon, end.inFlight[id].request, harm)
  }

  // ----- What a drag on a kept view can ask for -----

  /** The only requests for an unpublished geometry are those of one drag for the view on which it
      started, and the daemon still has the geometry that it had then under that revision. */
  ghost predicate Held(s: System, daemon: View, view: View, divider: Divider, offset: Point) {
    && view.revision in s.published && SameGeometry(s.published[view.revision], daemon)
    && (forall id :: id in s.inFlight && s.inFlight[id].Asking? ==>
          WasPublished(s, s.inFlight[id].basis) || Aimed(s.inFlight[id].request, view, divider, offset))
    && (s.drag.Some? ==>
          WasPublished(s, s.drag.value.confirmed) || Unconfirmed(s.drag.value, view, divider, offset))
  }

  ghost predicate Aimed(request: Request, view: View, divider: Divider, offset: Point) {
    Reachable(divider, offset, request.position) && request == RequestAt(view, divider, request.position)
  }

  predicate Unconfirmed(drag: Drag, view: View, divider: Divider, offset: Point) {
    && drag.confirmed == view && drag.divider == divider && drag.offset == offset
    && (drag.desired == divider.position || Along(divider.axis, offset) <= drag.desired)
    && (drag.pending.None? ==> drag.lastSent == divider.position)
  }

  lemma StepKeepsHeld(library: Library, s: System, event: Drags.Event,
                      daemon: View, view: View, divider: Divider, offset: Point)
    requires Drags.Valid(library, s) && Possible(s, event) && !event.StartDrag?
    requires Held(s, daemon, view, divider, offset)
    ensures Held(Drags.Next(library, s, event), daemon, view, divider, offset)
  {
    hide Predicted, DaemonResized, SameGeometry, Reachable, DragFits, Recorded, Addressed;
    StepPublishes(library, s, event);
    PublishedStays(s, Drags.Next(library, s, event));
    StillTheSame(s, Drags.Next(library, s, event), daemon, view);
    if event.ReplyArrives? {
      ReplyKeepsHeld(library, s, event.id, daemon, view, divider, offset);
    } else if s.drag.Some? && Unconfirmed(s.drag.value, view, divider, offset) && Sends(s.drag.value) {
      SentIsAimed(library, s, view, divider, offset);
    }
  }

  lemma ReplyKeepsHeld(library: Library, s: System, id: nat, daemon: View, view: View, divider: Divider, offset: Point)
    requires Drags.Valid(library, s) && id in s.inFlight && s.inFlight[id].Answering?
    requires Held(s, daemon, view, divider, offset)
    ensures Held(Received(s, id), daemon, view, divider, offset)
  {
    hide Predicted, DaemonResized, SameGeometry, Reachable, Recorded, Addressed;
    if s.drag.Some? {
      RepliedDrag(library, s, id);
    }
  }

  /** A confirmed reply leaves the drag on a published view. */
  lemma RepliedDrag(library: Library, s: System, id: nat)
    requires Drags.Valid(library, s) && id in s.inFlight && s.inFlight[id].Answering? && s.drag.Some?
    ensures Acknowledged(s.drag.value, id, s.inFlight[id].outcome).1.Confirmed? ==>
              WasPublished(s, Acknowledged(s.drag.value, id, s.inFlight[id].outcome).0.confirmed)
  {
    hide Predicted, SameGeometry, Recorded, Addressed;
  }

  lemma StillTheSame(s: System, next: System, daemon: View, view: View)
    requires forall r :: r in s.published ==> r in next.published && SameGeometry(next.published[r], s.published[r])
    requires view.revision in s.published && SameGeometry(s.published[view.revision], daemon)
    ensures view.revision in next.published && SameGeometry(next.published[view.revision], daemon)
  {
  }

  lemma SentIsAimed(library: Library, s: System, view: View, divider: Divider, offset: Point)
    requires s.drag.Some? && Unconfirmed(s.drag.value, view, divider, offset) && Sends(s.drag.value)
    ensures Aimed(RequestOf(s.drag.value), view, divider, offset)
  {
  }

  lemma {:induction false} RunsKeepHeld(library: Library, s: System, events: seq<Drags.Event>, end: System,
                                        daemon: View, view: View, divider: Divider, offset: Point)
    requires Drags.Valid(library, s) && Drags.Run(library, s, events, end) && OnlyThisDrag(events)
    requires Held(s, daemon, view, divider, offset)
    ensures Drags.Valid(library, end) && Held(end, daemon, view, divider, offset)
    decreases |events|
  {
    hide Drags.Valid, Drags.Next, Held, Possible;
    if events != [] {
      StepKeepsValid(library, s, events[0]);
      StepKeepsHeld(library, s, events[0], daemon, view, divider, offset);
      RunsKeepHeld(library, Drags.Next(library, s, events[0]), events[1..], end, daemon, view, divider, offset);
    }
  }

  lemma {:induction false} NoOtherStarts(library: Library, s: System, events: seq<Drags.Event>)
    requires OnlyThisDrag(events)
    ensures PublishedStarts(library, s, events)
    decreases |events|
  {
    hide Drags.Next, Possible;
    if events != [] && Possible(s, events[0]) {
      NoOtherStarts(library, Drags.Next(library, s, events[0]), events[1..]);
    }
  }

  /** The daemon answers alike on views of the same geometry. */
  lemma SameAnswer(library: Library, a: View, b: View, request: Request, harm: Harm)
    requires SameGeometry(a, b)
    ensures Affects(library, a, request, harm) <==> Affects(library, b, request, harm)
  {
  }

  lemma MisappliedIsMovable(library: Library, end: System, id: nat, daemon: View, view: View,
                            divider: Divider, offset: Point, harm: Harm)
    requires Drags.Valid(library, end) && Held(end, daemon, view, divider, offset)
    requires Misapplied(library, end, id) && Affects(library, end.daemon, end.inFlight[id].request, harm)
    ensures Movable(library, daemon, view, divider, offset, harm)
  {
    hide Reachable;
    DaemonAppliesToConfirmedGeometryIff(library, end, id);
    var request := end.inFlight[id].request;
    SameAnswer(library, end.daemon, daemon, request, harm);
    assert Moves(library, daemon, view, divider, offset, request.position, harm);
  }

  function Begun(library: Library, s: System, view: View, divider: Divider, offset: Point): System
    requires Possible(s, StartDrag(view, divider, offset))
  {
    Drags.Next(library, s, StartDrag(view, divider, offset))
  }

  lemma OnlyMovableIsMisapplied(library: Library, s: System, view: View, divider: Divider, offset: Point, harm: Harm)
    requires Drags.Valid(library, s) && Clean(s) && Possible(s, StartDrag(view, divider, offset))
    requires view.revision == s.daemon.revision && CanMisapply(library, Begun(library, s, view, divider, offset), harm)
    ensures !SameGeometry(view, s.daemon) && Movable(library, s.daemon, view, divider, offset, harm)
  {
    hide Drags.Valid, Drags.Run, Misapplied, Drags.Next, DaemonResized, Moves, Affects;
    var start := StartDrag(view, divider, offset);
    var begun := Begun(library, s, view, divider, offset);
    StepKeepsValid(library, s, start);
    var events, end, id :| MisappliesIn(library, begun, events, end, id, harm);
    BegunIsHeld(library, s, view, divider, offset);
    RunsKeepHeld(library, begun, events, end, s.daemon, view, divider, offset);
    MisappliedIsMovable(library, end, id, s.daemon, view, divider, offset, harm);
    if SameGeometry(view, s.daemon) {
      StartIsPublished(library, s, view);
      StepKeepsClean(library, s, start);
      NoOtherStarts(library, begun, events);
      RunsStayClean(library, begun, events, end);
      CleanIsSafe(library, end);
    }
  }

  lemma StartIsPublished(library: Library, s: System, view: View)
    requires Drags.Valid(library, s) && SameGeometry(view, s.daemon)
    ensures WasPublished(s, view)
  {
  }

  lemma BegunIsHeld(library: Library, s: System, view: View, divider: Divider, offset: Point)
    requires Drags.Valid(library, s) && Clean(s) && Possible(s, StartDrag(view, divider, offset))
    requires view.revision == s.daemon.revision
    ensures Held(Begun(library, s, view, divider, offset), s.daemon, view, divider, offset)
  {
  }

  /** The pointer moves once, and the drag asks for that position. */
  function Moving(divider: Divider, offset: Point, position: u16): seq<Drags.Event>
    requires Reachable(divider, offset, position)
  {
    var along := position - Along(divider.axis, offset);
    [MoveDrag(if divider.axis.Horizontal? then (along, 0) else (0, along), false), Flush]
  }

  lemma MovingAsks(library: Library, s: System, view: View, divider: Divider, offset: Point, position: u16)
    requires Possible(s, StartDrag(view, divider, offset)) && Reachable(divider, offset, position)
    ensures
      var begun := Begun(library, s, view, divider, offset);
      var moved := begun.(drag := Some(NewDrag(view, divider, offset).(desired := position)));
      && Drags.Run(library, begun, Moving(divider, offset, position), Drags.Next(library, moved, Flush))
      && s.nextId in Drags.Next(library, moved, Flush).inFlight
      && Drags.Next(library, moved, Flush).inFlight[s.nextId] == Asking(RequestAt(view, divider, position), view)
      && Drags.Next(library, moved, Flush).daemon == s.daemon
  {
    hide Predicted;
    var begun := Begun(library, s, view, divider, offset);
    var events := Moving(divider, offset, position);
    var moved := begun.(drag := Some(NewDrag(view, divider, offset).(desired := position)));
    assert Drags.Next(library, begun, events[0]) == moved;
    assert events[1..] == [Flush] && [Flush][1..] == [];
    assert Drags.Run(library, Drags.Next(library, moved, Flush), [], Drags.Next(library, moved, Flush));
  }

  lemma MovableIsMisapplied(library: Library, s: System, view: View, divider: Divider, offset: Point, harm: Harm)
    requires Possible(s, StartDrag(view, divider, offset))
    requires !SameGeometry(view, s.daemon) && Movable(library, s.daemon, view, divider, offset, harm)
    ensures CanMisapply(library, Begun(library, s, view, divider, offset), harm)
  {
    hide Drags.Next, Drags.Run, DaemonResized, Reachable;
    var position: u16 :| Moves(library, s.daemon, view, divider, offset, position, harm);
    MovingAsks(library, s, view, divider, offset, position);
    var begun := Begun(library, s, view, divider, offset);
    var moved := begun.(drag := Some(NewDrag(view, divider, offset).(desired := position)));
    var end := Drags.Next(library, moved, Flush);
    assert MisappliesIn(library, begun, Moving(divider, offset, position), end, s.nextId, harm);
  }

  // ----- The exact condition -----

  /** A drag that starts after the client has adopted the daemon's newest view can have a request
      applied to another geometry than its own, in some run, if and only if the client keeps a pane
      that this view no longer has, and the drag can ask for something that the daemon would do. The
      first is the guard by which the client decides to keep the old geometry on display. The same
      holds of requests that really change the daemon's geometry. */
  lemma DragGoesWrongIff(library: Library, s: System, app: App, newest: View, divider: Divider, offset: Point,
                         harm: Harm)
    requires Drags.Valid(library, s) && Clean(s) && SameGeometry(s.daemon, newest) && newest.zoomed.None?
    requires Inside(app) && Current(app, newest) && Consistent(newest) && Consistent(app.view.value)
    ensures Adopted(app, newest).view.Some?
    ensures
      var shown := Adopted(app, newest).view.value;
      && Possible(s, StartDrag(shown, divider, offset))
      && (CanMisapply(library, Begun(library, s, shown, divider, offset), harm)
        <==> KeptMissing(app, newest) && Movable(library, s.daemon, shown, divider, offset, harm))
  {
    hide Adopted, Consistent, Inside, KeptMissing, CanMisapply, Movable, Clean, Departed;
    AdoptionShowsViewIff(app, newest);
    var shown := Adopted(app, newest).view.value;
    assert Displayable(s, shown);
    if CanMisapply(library, Begun(library, s, shown, divider, offset), harm) {
      OnlyMovableIsMisapplied(library, s, shown, divider, offset, harm);
    }
    if KeptMissing(app, newest) && Movable(library, s.daemon, shown, divider, offset, harm) {
      MovableIsMisapplied(library, s, shown, divider, offset, harm);
    }
  }

  // ----- A drag that goes wrong -----

  /** Resizing moves dividers, but neither adds nor removes terminals. */
  ghost predicate KeepsLeaves(library: Library) {
    forall layout, path, boundary, position, canvas ::
      library.resize(layout, path, boundary, position, canvas).Changed? ==>
        Leaves(library.resize(layout, path, boundary, position, canvas).layout) == Leaves(layout)
  }

  /** Moving the divider between `kept` and `added` to column 50 gives the daemon this layout. */
  ghost predicate Reshapes(library: Library, newest: View, layout: Layout) {
    && library.resize(newest.layout, [], 0, 50, newest.canvas) == Changed(layout) && layout != newest.layout
    && library.geometry(layout, newest.canvas).Some?
  }

  /** The daemon shows `exited` beside `kept`; then `exited` ends, and the daemon shows `kept` beside
      `added`. The client still shows `exited` beside `kept`, now under revision 2. Dragging the divider
      between these two makes the daemon move the one between `kept` and `added`, whatever the layout
      library makes of that, and its reply makes the drag fail. */
  lemma KeptScreenMisdirectsDrag(library: Library, layout: Layout, session: Id, id: Id, exited: Id, kept: Id, added: Id)
    requires exited != kept && kept != added && exited != added
    requires KeepsLeaves(library) && Reshapes(library, Pair(session, id, 2, kept, added), layout)
    ensures
      var before, newest := Pair(session, id, 1, exited, kept), Pair(session, id, 2, kept, added);
      var app := App(Some(before), map[exited := Pane(true, ""), kept := Pane(false, "")], map[], {}, None, Some(kept));
      var divider, offset := Divider([], 0, Horizontal, 40), (0, 0);
      var shown := before.(revision := 2);
      && Adopted(app, newest).view == Some(shown)
      && Possible(Start(newest), StartDrag(shown, divider, offset))
      && var begun := Begun(library, Start(newest), shown, divider, offset);
         var moved := begun.(drag := Some(NewDrag(shown, divider, offset).(desired := 50)));
         var asked := Drags.Next(library, moved, Flush);
         && Drags.Run(library, begun, [MoveDrag((50, 0), false), Flush], asked)
         && Misapplied(library, asked, 0)
         && var handled := Drags.Next(library, asked, DaemonHandles(0));
            && handled.daemon.layout == layout != newest.layout && Leaves(layout) == [kept, added]
            && Mistaken(handled, 0)
  {
    hide Drags.Run, Leaves, Predicted, DaemonResized, KeepsLeaves, Reshapes;
    var before, newest := Pair(session, id, 1, exited, kept), Pair(session, id, 2, kept, added);
    var divider, offset := Divider([], 0, Horizontal, 40), (0, 0);
    var shown := before.(revision := 2);
    KeptScreenIsShown(session, id, exited, kept, added);
    MovingAsks(library, Start(newest), shown, divider, offset, 50);
    assert Moving(divider, offset, 50) == [MoveDrag((50, 0), false), Flush];
    DaemonReshapes(library, newest, layout, RequestAt(shown, divider, 50));
    ReshapedIsUnexpected(library, session, id, exited, kept, added, layout);
  }

  lemma KeptScreenIsShown(session: Id, id: Id, exited: Id, kept: Id, added: Id)
    requires exited != kept && kept != added && exited != added
    ensures
      var before, newest := Pair(session, id, 1, exited, kept), Pair(session, id, 2, kept, added);
      var app := App(Some(before), map[exited := Pane(true, ""), kept := Pane(false, "")], map[], {}, None, Some(kept));
      Adopted(app, newest).view == Some(before.(revision := 2)) && before.layout != newest.layout
  {
    var before, newest := Pair(session, id, 1, exited, kept), Pair(session, id, 2, kept, added);
    var app := App(Some(before), map[exited := Pane(true, ""), kept := Pane(false, "")], map[], {}, None, Some(kept));
    assert Departed(app, newest) == {};
    assert exited in app.panes && exited !in newest.terminals && Missing(app, newest);
    assert before.layout.children[0] != newest.layout.children[0];
  }

  lemma DaemonReshapes(library: Library, daemon: View, layout: Layout, request: Request)
    requires Reshapes(library, daemon, layout) && daemon.revision < MAX_REVISION
    requires request == Request(daemon.view, daemon.revision, [], 0, 50)
    ensures DaemonResized(library, daemon, request).Some?
    ensures DaemonResized(library, daemon, request).value.layout == layout != daemon.layout
  {
  }

  /** What the client predicts from the kept layout is not what the daemon makes of its own. */
  lemma ReshapedIsUnexpected(library: Library, session: Id, id: Id, exited: Id, kept: Id, added: Id, layout: Layout)
    requires exited != kept && kept != added && exited != added
    requires KeepsLeaves(library) && Reshapes(library, Pair(session, id, 2, kept, added), layout)
    ensures Leaves(layout) == [kept, added]
    ensures
      var shown := Pair(session, id, 2, exited, kept);
      var predicted := Predicted(library, shown, Request(id, 2, [], 0, 50));
      predicted.Some? ==> predicted.value.layout != layout
  {
    PairLeaves(session, id, 2, exited, kept);
    PairLeaves(session, id, 2, kept, added);
    var newest := Pair(session, id, 2, kept, added);
    assert library.resize(newest.layout, [], 0, 50, newest.canvas).Changed?;
    assert [exited, kept][0] != [kept, added][0];
  }

  lemma PairLeaves(session: Id, id: Id, revision: nat, left: Id, right: Id)
    ensures Leaves(Pair(session, id, revision, left, right).layout) == [left, right]
  {
    var children := Pair(session, id, revision, left, right).layout.children;
    assert children[1..] == [Layout.Terminal(right)] && children[1..][1..] == [];
    assert Leaves(children[0]) == [left] && Leaves(children[1..][0]) == [right];
    assert AllLeaves(children[1..]) == [right] + AllLeaves(children[1..][1..]) == [right];
    assert AllLeaves(children) == [left] + AllLeaves(children[1..]);
  }
}
