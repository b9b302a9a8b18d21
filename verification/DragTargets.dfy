/**
 Where a drag leads to: it follows the pointer until the button is released, asks for each new target in
 turn, and ends when the daemon has acknowledged the one at which the button was released.
 */
module DragTargets {
  import opened Basics
  import opened Options
  import opened Layouts
  import opened Dividers
  import opened Views
  import opened Drags

  /** Where the pointer has asked the divider to be, and whether the button has been released. */
  datatype Aim = Aim(position: u16, released: bool)

  /** The place of the pointer on the canvas, along the axis of the divider. */
  function Pointed(axis: Axis, point: Point, offset: Point): u16 {
    var at := match axis case Horizontal => point.0 + offset.0 case Vertical => point.1 + offset.1;
    if at <= 0xFFFF then at else 0xFFFF
  }

  /** Read off the movements of the pointer alone; nothing counts after the release. */
  function AimAfter(axis: Axis, offset: Point, aim: Aim, events: seq<Event>): Aim
    decreases |events|
  {
    if events == [] || aim.released then aim
    else
      match events[0]
      case MoveDrag(point, released) =>
        AimAfter(axis, offset, Aim(Pointed(axis, point, offset), released), events[1..])
      case _ => AimAfter(axis, offset, aim, events[1..])
  }

  function AimOf(drag: Drag): Aim {
    Aim(drag.desired, drag.released)
  }

  lemma StepAims(library: Library, s: System, event: Event)
    requires Possible(s, event) && !event.StartDrag? && s.drag.Some?
    ensures
      var drag, next := s.drag.value, Next(library, s, event).drag;
      next.Some? ==>
        && next.value.divider == drag.divider && next.value.offset == drag.offset
        && AimOf(next.value) == AimAfter(drag.divider.axis, drag.offset, AimOf(drag), [event])
  {
    hide Predicted, SameGeometry;
    assert [event][1..] == [];
  }

  lemma StepStartsNone(library: Library, s: System, event: Event)
    requires Possible(s, event) && !event.StartDrag? && s.drag.None?
    ensures Next(library, s, event).drag.None?
  {}

  lemma AimOne(axis: Axis, offset: Point, aim: Aim, events: seq<Event>)
    requires events != []
    ensures AimAfter(axis, offset, aim, events)
         == AimAfter(axis, offset, AimAfter(axis, offset, aim, [events[0]]), events[1..])
  {
    assert [events[0]][1..] == [];
  }

  /** A drag that goes on aims at the last place of the pointer, or at that of the release. */
  lemma {:induction false} DragFollowsPointer(library: Library, s: System, events: seq<Event>, end: System)
    requires Run(library, s, events, end) && OnlyThisDrag(events)
    ensures s.drag.None? ==> end.drag.None?
    ensures
      s.drag.Some? && end.drag.Some? ==>
        && end.drag.value.divider == s.drag.value.divider && end.drag.value.offset == s.drag.value.offset
        && AimOf(end.drag.value)
           == AimAfter(s.drag.value.divider.axis, s.drag.value.offset, AimOf(s.drag.value), events)
    decreases |events|
  {
    hide Next, Possible, AimAfter;
    if events == [] {
      AimNothing(s);
    } else {
      var next := Next(library, s, events[0]);
      if s.drag.Some? {
        StepAims(library, s, events[0]);
        AimOne(s.drag.value.divider.axis, s.drag.value.offset, AimOf(s.drag.value), events);
      } else {
        StepStartsNone(library, s, events[0]);
      }
      DragFollowsPointer(library, next, events[1..], end);
    }
  }

  lemma AimNothing(s: System)
    ensures s.drag.Some? ==>
              AimAfter(s.drag.value.divider.axis, s.drag.value.offset, AimOf(s.drag.value), []) == AimOf(s.drag.value)
  {}

  /** A drag that ends by itself ends where the button was released: the daemon has acknowledged that
      position last, or it is where the divider was and nothing had to be asked for. */
  lemma DragEndsAtRelease(library: Library, s: System, view: View, divider: Divider, offset: Point,
                          events: seq<Event>, end: System)
    requires Valid(library, s) && Possible(s, StartDrag(view, divider, offset))
    requires Run(library, Next(library, s, StartDrag(view, divider, offset)), events, end) && OnlyThisDrag(events)
    requires end.drag.Some? && Finished(Sent(library, end.drag.value, end.nextId))
    ensures
      var aim := AimAfter(divider.axis, offset, Aim(divider.position, false), events);
      aim.released && LastTarget(end.drag.value) == aim.position
  {
    hide Valid, Run, AimAfter, Sent, LastTarget;
    var start := StartDrag(view, divider, offset);
    var begun := Next(library, s, start);
    StepKeepsValid(library, s, start);
    RunsStayValid(library, begun, events, end);
    FinishedDragsReachedTheirTarget(library, end);
    DragFollowsPointer(library, begun, events, end);
  }

  // ----- Single steps of the protocol -----

  /** When nothing is under way and the target has changed, a flush asks for it, in the view that has
      been confirmed; otherwise it asks for nothing. */
  lemma FlushAsks(library: Library, s: System)
    requires s.drag.Some?
    ensures
      var drag, next := s.drag.value, Next(library, s, Flush);
      if drag.pending.None? && drag.desired != drag.lastSent
      then
        && next.inFlight == s.inFlight[s.nextId := Asking(
             Request(drag.confirmed.view, drag.confirmed.revision, drag.divider.splitPath, drag.divider.boundary,
                     drag.desired), drag.confirmed)]
        && next.drag.Some? && next.drag.value.pending.Some? && next.drag.value.pending.value.id == s.nextId
        && next.drag.value.lastSent == drag.desired
      else next.inFlight == s.inFlight && (next.drag.Some? ==> next.drag == s.drag)
  {
    hide Predicted;
  }

  /** It ends the drag when the button has been released and nothing is left to do. */
  lemma FlushEndsDragIff(library: Library, s: System)
    requires s.drag.Some?
    ensures Next(library, s, Flush).drag.None? <==>
            s.drag.value.released && s.drag.value.pending.None? && s.drag.value.desired == s.drag.value.lastSent
  {
    hide Predicted;
  }

  /** A reply to another request than the one that is awaited changes nothing; a rejection of that one ends
      the drag; and when it has been applied, and the drag was on a published view, its view is confirmed
      and its position counted. */
  lemma ReplyAdvancesDrag(library: Library, s: System, id: nat)
    requires Valid(library, s) && s.drag.Some? && id in s.inFlight && s.inFlight[id].Answering?
    ensures
      var drag, next, outcome := s.drag.value, Next(library, s, ReplyArrives(id)).drag, s.inFlight[id].outcome;
      if !(drag.pending.Some? && drag.pending.value.id == id) then next == s.drag
      else if outcome.Rejected? then next.None?
      else
        WasPublished(s, drag.confirmed) ==>
          && next.Some? && next.value.pending.None? && next.value.confirmed == outcome.view
          && next.value.previous == Some(drag.confirmed)
          && next.value.acknowledged == drag.acknowledged + [drag.lastSent]
          && next.value.desired == drag.desired && next.value.released == drag.released
  {
    hide SameGeometry, Predicted, Recorded, Addressed;
    if s.inFlight[id].outcome.Applied? && WasPublished(s, s.drag.value.confirmed) {
      AppliedRepliesMatch(library, s, id);
    }
  }

  /** Views that this drag has brought about itself, or is about to. */
  ghost predicate Own(drag: Drag, view: View) {
    || SameGeometry(view, drag.confirmed)
    || (drag.previous.Some? && SameGeometry(view, drag.previous.value))
    || (drag.pending.Some? && drag.pending.value.predicted.Some?
        && SameGeometry(view, drag.pending.value.predicted.value))
  }

  /** A broadcast ends the drag if and only if it shows something that the drag has not brought about. */
  lemma BroadcastEndsDragIff(library: Library, s: System, seen: View)
    requires s.drag.Some? && Possible(s, Broadcast(seen))
    ensures Next(library, s, Broadcast(seen)).drag == if Own(s.drag.value, seen) then s.drag else None
  {
  }
}
