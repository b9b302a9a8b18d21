/**
 Dragging a divider. The client sends one resize request at a time and predicts its effect; the
 daemon applies a request only to the revision it was made for. Other clients may change the view
 at any moment, and broadcasts and replies may be late.
 */
module Drags {
  import opened Basics
  import opened Options
  import opened Layouts
  import opened Dividers
  import opened Views

  const MAX_REVISION: nat := 0xFFFF_FFFF_FFFF_FFFF

  datatype Request = Request(view: Id, expected: nat, path: seq<u16>, boundary: u16, position: u16)

  datatype Outcome = Applied(view: View) | Rejected

  datatype Resized = NoSuchDivider | Unchanged | Changed(layout: Layout)

  /** The layout library. A layout may have no geometry on a canvas. */
  datatype Library = Library(
    resize: (Layout, seq<u16>, u16, u16, Canvas) -> Resized,
    geometry: (Layout, Canvas) -> Option<seq<PaneGeometry>>)

  // ----- The client's side -----

  datatype Pending = Pending(id: nat, predicted: Option<View>)

  /** `asked` is the request behind `pending`; `acknowledged` lists the positions of the requests
      that have been applied. */
  datatype Drag = Drag(divider: Divider, confirmed: View, previous: Option<View>, offset: Point,
                       desired: u16, lastSent: u16, released: bool, pending: Option<Pending>,
                       asked: Option<Request>, acknowledged: seq<u16>)

  function NewDrag(view: View, divider: Divider, offset: Point): Drag {
    Drag(divider, view, None, offset, divider.position, divider.position, false, None, None, [])
  }

  function SaturatingAdd(a: u16, b: u16): u16 {
    if a + b > 0xFFFF then 0xFFFF else a + b
  }

  function Moved(drag: Drag, point: Point, released: bool): Drag {
    if drag.released then drag
    else
      drag.(desired := SaturatingAdd(Along(drag.divider.axis, point), Along(drag.divider.axis, drag.offset)),
            released := released)
  }

  function RequestOf(drag: Drag): Request {
    Request(drag.confirmed.view, drag.confirmed.revision, drag.divider.splitPath, drag.divider.boundary, drag.desired)
  }

  predicate Sends(drag: Drag) {
    drag.pending.None? && drag.desired != drag.lastSent
  }

  function Sent(library: Library, drag: Drag, id: nat): Drag {
    if !Sends(drag) then drag
    else
      drag.(pending := Some(Pending(id, Predicted(library, drag.confirmed, RequestOf(drag)))),
            asked := Some(RequestOf(drag)), lastSent := drag.desired)
  }

  function Predicted(library: Library, confirmed: View, request: Request): Option<View> {
    match library.resize(confirmed.layout, request.path, request.boundary, request.position, confirmed.canvas)
    case NoSuchDivider => None
    case Unchanged => Some(confirmed)
    case Changed(layout) =>
      if confirmed.revision == MAX_REVISION then None
      else
        match library.geometry(layout, confirmed.canvas)
        case None => None
        case Some(panes) =>
          Some(confirmed.(layout := layout, revision := confirmed.revision + 1, panes := panes, zoomed := None))
  }

  /** A broadcast that shows nothing but this drag's own changes. */
  predicate Accepts(drag: Drag, view: View) {
    || SameGeometry(drag.confirmed, view)
    || (drag.previous.Some? && SameGeometry(drag.previous.value, view))
    || (drag.pending.Some? && drag.pending.value.predicted.Some?
        && SameGeometry(drag.pending.value.predicted.value, view))
  }

  datatype Acknowledgement = Ignored | Confirmed | Failed

  function Acknowledged(drag: Drag, id: nat, outcome: Outcome): (Drag, Acknowledgement) {
    if drag.pending.None? || drag.pending.value.id != id then (drag, Ignored)
    else
      var predicted := drag.pending.value.predicted;
      var settled := drag.(pending := None, asked := None);
      if outcome.Rejected? || predicted.None? || !SameGeometry(predicted.value, outcome.view) then (settled, Failed)
      else
        (settled.(previous := Some(drag.confirmed), confirmed := outcome.view,
                  acknowledged := drag.acknowledged + if drag.asked.Some? then [drag.asked.value.position] else []),
         Confirmed)
  }

  predicate Finished(drag: Drag) {
    drag.released && drag.pending.None? && drag.desired == drag.lastSent
  }

  class Gesture {
    const library: Library
    const divider: Divider
    const offset: Point
    var confirmed: View
    var previous: Option<View>
    var desired: u16
    var lastSent: u16
    var released: bool
    var pending: Option<Pending>
    ghost var asked: Option<Request>
    ghost var acknowledged: seq<u16>

    ghost function Now(): Drag
      reads this
    {
      Drag(divider, confirmed, previous, offset, desired, lastSent, released, pending, asked, acknowledged)
    }

    constructor (library: Library, view: View, divider: Divider, offset: Point)
      ensures Now() == NewDrag(view, divider, offset) && this.library == library
    {
      this.library, this.divider, this.offset := library, divider, offset;
      confirmed, previous := view, None;
      desired, lastSent := divider.position, divider.position;
      released, pending, asked, acknowledged := false, None, None, [];
    }

    method MoveTo(point: Point, release: bool)
      modifies this
      ensures Now() == Moved(old(Now()), point, release)
    {
      if released {
        return;
      }
      match divider.axis {
        case Horizontal => desired := SaturatingAdd(point.0, offset.0);
        case Vertical => desired := SaturatingAdd(point.1, offset.1);
      }
      released := release;
    }

    method NextRequest(id: nat) returns (request: Option<Request>)
      modifies this
      ensures Now() == Sent(library, old(Now()), id)
      ensures request == if Sends(old(Now())) then Some(RequestOf(old(Now()))) else None
    {
      if pending.Some? || desired == lastSent {
        return None;
      }
      var built := Request(confirmed.view, confirmed.revision, divider.splitPath, divider.boundary, desired);
      pending := Some(Pending(id, Predicted(library, confirmed, built)));
      asked := Some(built);
      lastSent := desired;
      request := Some(built);
    }

    method AcceptsView(view: View) returns (accepted: bool)
      ensures accepted == Accepts(Now(), view)
    {
      accepted := SameGeometry(confirmed, view) || (previous.Some? && SameGeometry(previous.value, view))
                  || (pending.Some? && pending.value.predicted.Some?
                      && SameGeometry(pending.value.predicted.value, view));
    }

    method Acknowledge(id: nat, outcome: Outcome) returns (result: Acknowledgement)
      modifies this
      ensures (Now(), result) == Acknowledged(old(Now()), id, outcome)
    {
      if pending.None? || pending.value.id != id {
        return Ignored;
      }
      var taken := pending.value;
      ghost var position := if asked.Some? then [asked.value.position] else [];
      pending := None;
      asked := None;
      match outcome
      case Applied(view) =>
        if taken.predicted.None? || !SameGeometry(taken.predicted.value, view) {
          return Failed;
        }
        previous := Some(confirmed);
        confirmed := view;
        acknowledged := acknowledged + position;
        result := Confirmed;
      case Rejected =>
        result := Failed;
    }
  }

  // ----- The daemon's side -----

  /** The daemon's answer to a request: the changed view, if the request is for its revision. */
  function DaemonResized(library: Library, view: View, request: Request): Option<View> {
    if view.view != request.view || view.revision != request.expected then None
    else
      match library.resize(view.layout, request.path, request.boundary, request.position, view.canvas)
      case NoSuchDivider => None
      case Unchanged => Some(view)
      case Changed(layout) =>
        if view.revision == MAX_REVISION then None
        else
          match library.geometry(layout, view.canvas)
          case None => None
          case Some(panes) => Some(view.(layout := layout, revision := view.revision + 1, panes := panes))
  }

  /** A request on its way, with the view that its drag had confirmed when it was sent; or an answer
      on its way back. */
  datatype Message = Asking(request: Request, basis: View) | Answering(outcome: Outcome)

  /** `published` holds the daemon's view at each of its revisions; `since` is the first request
      number that belongs to the current drag. */
  datatype System = System(drag: Option<Drag>, since: nat, nextId: nat, daemon: View,
                           published: map<nat, View>, inFlight: map<nat, Message>)

  datatype Event =
    | StartDrag(view: View, divider: Divider, offset: Point)
    | MoveDrag(point: Point, released: bool)
    | Flush
    | DaemonHandles(id: nat)
    | OtherWriter(changed: View)
    | Retitled(title: string)
    | ReplyArrives(id: nat)
    | Broadcast(seen: View)
    | Lost(id: nat)
    | GiveUp

  /** A drag starts on whatever view is displayed, without a zoomed pane. Another writer raises the
      revision, so that a revision stands for one geometry. Broadcasts were published. */
  ghost predicate Possible(s: System, event: Event) {
    match event
    case StartDrag(view, _, _) => Displayable(s, view) && view.zoomed.None?
    case OtherWriter(changed) =>
      changed.view == s.daemon.view && changed.session == s.daemon.session && changed.revision == s.daemon.revision + 1
    case DaemonHandles(id) => id in s.inFlight && s.inFlight[id].Asking?
    case ReplyArrives(id) => id in s.inFlight && s.inFlight[id].Answering?
    case Broadcast(seen) => WasPublished(s, seen)
    case _ => true
  }

  ghost predicate WasPublished(s: System, view: View) {
    view.revision in s.published && SameGeometry(s.published[view.revision], view)
  }

  /** A view that a client may display: one that was published, or an older one that it has kept under
      the revision and zoom of a published one. */
  ghost predicate Displayable(s: System, view: View) {
    SameView(view, s.daemon) && view.revision in s.published && view.zoomed == s.published[view.revision].zoomed
  }

  function Handled(library: Library, s: System, id: nat): System
    requires id in s.inFlight && s.inFlight[id].Asking?
  {
    match DaemonResized(library, s.daemon, s.inFlight[id].request)
    case None => s.(inFlight := s.inFlight[id := Answering(Rejected)])
    case Some(view) =>
      s.(daemon := view, published := s.published[view.revision := view],
         inFlight := s.inFlight[id := Answering(Applied(view))])
  }

  function Received(s: System, id: nat): System
    requires id in s.inFlight && s.inFlight[id].Answering?
  {
    var delivered := s.(inFlight := s.inFlight - {id});
    if s.drag.None? then delivered
    else
      var (drag, result) := Acknowledged(s.drag.value, id, s.inFlight[id].outcome);
      delivered.(drag := if result.Failed? then None else Some(drag))
  }

  function Next(library: Library, s: System, event: Event): System
    requires Possible(s, event)
  {
    match event
    case StartDrag(view, divider, offset) => s.(drag := Some(NewDrag(view, divider, offset)), since := s.nextId)
    case MoveDrag(point, released) =>
      if s.drag.None? then s else s.(drag := Some(Moved(s.drag.value, point, released)))
    case Flush =>
      if s.drag.None? then s
      else
        var sent := Sent(library, s.drag.value, s.nextId);
        var counted := s.(drag := if Finished(sent) then None else Some(sent), nextId := s.nextId + 1);
        if Sends(s.drag.value)
        then counted.(inFlight := s.inFlight[s.nextId := Asking(RequestOf(s.drag.value), s.drag.value.confirmed)])
        else counted
    case DaemonHandles(id) => Handled(library, s, id)
    case OtherWriter(changed) => s.(daemon := changed, published := s.published[changed.revision := changed])
    case Retitled(title) =>
      s.(daemon := s.daemon.(title := title))
    case ReplyArrives(id) => Received(s, id)
    case Broadcast(seen) => if s.drag.Some? && !Accepts(s.drag.value, seen) then s.(drag := None) else s
    case Lost(id) => s.(drag := None, inFlight := s.inFlight - {id})
    case GiveUp => s.(drag := None)
  }

  // ----- What every state satisfies -----

  /** A revision stands for one geometry, and the daemon is at the newest one. */
  ghost predicate Recorded(s: System) {
    && WasPublished(s, s.daemon)
    && (forall r :: r in s.published ==>
          r == s.published[r].revision <= s.daemon.revision
          && s.published[r].view == s.daemon.view && s.published[r].session == s.daemon.session)
  }

  ghost predicate Addressed(s: System, id: nat)
    requires id in s.inFlight
  {
    && id < s.nextId
    && (s.inFlight[id].Asking? ==>
          var message := s.inFlight[id];
          Displayable(s, message.basis) && message.basis.zoomed.None?
          && message.request.view == message.basis.view && message.request.expected == message.basis.revision)
  }

  /** What the drag is waiting for is on its way, in one direction or the other. */
  ghost predicate Awaited(library: Library, s: System, drag: Drag)
    requires drag.pending.Some?
  {
    var id, predicted := drag.pending.value.id, drag.pending.value.predicted;
    && s.since <= id && id in s.inFlight
    && drag.asked.Some? && drag.asked.value.position == drag.lastSent
    && predicted == Predicted(library, drag.confirmed, drag.asked.value)
    && match s.inFlight[id]
       case Asking(request, basis) => request == drag.asked.value && basis == drag.confirmed
       case Answering(Rejected) => true
       case Answering(Applied(view)) =>
         && WasPublished(s, view) && view.zoomed.None?
         && (WasPublished(s, drag.confirmed) ==> predicted.Some? && SameGeometry(predicted.value, view))
  }

  ghost predicate DragFits(library: Library, s: System, drag: Drag) {
    && Displayable(s, drag.confirmed) && drag.confirmed.zoomed.None?
    && s.since <= s.nextId
    && (forall id :: id in s.inFlight && s.since <= id ==> drag.pending.Some? && drag.pending.value.id == id)
    && if drag.pending.Some? then Awaited(library, s, drag)
       else drag.asked.None? && drag.lastSent == LastTarget(drag)
  }

  /** The position of the last request that has been applied, or where the divider was. */
  function LastTarget(drag: Drag): u16 {
    if drag.acknowledged == [] then drag.divider.position else drag.acknowledged[|drag.acknowledged| - 1]
  }

  ghost predicate Valid(library: Library, s: System) {
    && Recorded(s)
    && (forall id :: id in s.inFlight ==> Addressed(s, id))
    && (s.drag.Some? ==> DragFits(library, s, s.drag.value))
  }

  /** The daemon applies a request to the geometry for which it was made exactly when that had been
      published; then it does what the client has predicted. */
  lemma DaemonAppliesToConfirmedGeometryIff(library: Library, s: System, id: nat)
    requires Valid(library, s) && id in s.inFlight && s.inFlight[id].Asking?
    requires DaemonResized(library, s.daemon, s.inFlight[id].request).Some?
    ensures SameGeometry(s.daemon, s.inFlight[id].basis) <==> WasPublished(s, s.inFlight[id].basis)
    ensures DaemonResized(library, s.daemon, s.inFlight[id].request).value.zoomed.None?
    ensures WasPublished(s, s.inFlight[id].basis) ==>
              var predicted := Predicted(library, s.inFlight[id].basis, s.inFlight[id].request);
              predicted.Some?
              && SameGeometry(predicted.value, DaemonResized(library, s.daemon, s.inFlight[id].request).value)
  {
    assert Addressed(s, id);
  }

  /** What was published stays so, and what was not published under a revision never will be. */
  lemma PublishedStays(s: System, next: System)
    requires next.daemon.view == s.daemon.view && next.daemon.session == s.daemon.session
    requires forall r :: r in s.published ==> r in next.published && SameGeometry(next.published[r], s.published[r])
    ensures forall view :: WasPublished(s, view) ==> WasPublished(next, view)
    ensures forall view :: Displayable(s, view) ==>
              Displayable(next, view) && (WasPublished(s, view) <==> WasPublished(next, view))
  {}

  lemma HandledKeepsValid(library: Library, s: System, id: nat)
    requires Valid(library, s) && id in s.inFlight && s.inFlight[id].Asking?
    ensures Valid(library, Handled(library, s, id))
  {
    hide Predicted, DaemonResized, Displayable, LastTarget;
    var next := Handled(library, s, id);
    var applied := DaemonResized(library, s.daemon, s.inFlight[id].request);
    assert Addressed(s, id);
    if applied.Some? {
      DaemonAppliesToConfirmedGeometryIff(library, s, id);
      ResizedAdvances(library, s.daemon, s.inFlight[id].request);
    }
    PublishedStays(s, next);
    assert forall i :: i in next.inFlight ==> Addressed(s, i);
  }

  lemma ResizedAdvances(library: Library, view: View, request: Request)
    ensures
      var applied := DaemonResized(library, view, request);
      applied.Some? ==>
        && SameView(applied.value, view) && applied.value.zoomed == view.zoomed
        && (applied.value == view || applied.value.revision == view.revision + 1)
  {}

  lemma ReceivedKeepsValid(library: Library, s: System, id: nat)
    requires Valid(library, s) && id in s.inFlight && s.inFlight[id].Answering?
    ensures Valid(library, Received(s, id))
  {
    hide Predicted;
    PublishedStays(s, Received(s, id));
    assert forall i :: i in Received(s, id).inFlight ==> Addressed(s, i);
  }

  lemma FlushKeepsValid(library: Library, s: System)
    requires Valid(library, s)
    ensures Valid(library, Next(library, s, Flush))
  {
    hide Predicted, Displayable, LastTarget, Finished;
    var next := Next(library, s, Flush);
    assert next.published == s.published && next.daemon == s.daemon;
    PublishedStays(s, next);
    hide SameGeometry, Recorded;
    assert forall i :: i in s.inFlight ==> Addressed(s, i);
  }

  lemma DaemonChangeKeepsValid(library: Library, s: System, event: Event)
    requires Valid(library, s) && Possible(s, event) && (event.OtherWriter? || event.Retitled?)
    ensures Valid(library, Next(library, s, event))
  {
    hide Predicted;
    var next := Next(library, s, event);
    PublishedStays(s, next);
    assert forall i :: i in s.inFlight ==> Addressed(s, i);
  }

  lemma ClientStepKeepsValid(library: Library, s: System, event: Event)
    requires Valid(library, s) && Possible(s, event)
    requires event.StartDrag? || event.MoveDrag? || event.Broadcast? || event.Lost? || event.GiveUp?
    ensures Valid(library, Next(library, s, event))
  {
    hide Predicted, SameGeometry, Recorded;
    assert forall i :: i in s.inFlight ==> Addressed(s, i);
    RecordedAlone(s, Next(library, s, event));
  }

  lemma RecordedAlone(s: System, next: System)
    requires Recorded(s) && next.published == s.published && next.daemon == s.daemon
    ensures Recorded(next)
    ensures forall view :: WasPublished(s, view) <==> WasPublished(next, view)
    ensures forall view :: Displayable(s, view) <==> Displayable(next, view)
  {}

  lemma StepKeepsValid(library: Library, s: System, event: Event)
    requires Valid(library, s) && Possible(s, event)
    ensures Valid(library, Next(library, s, event))
  {
    match event
    case DaemonHandles(id) => HandledKeepsValid(library, s, id);
    case ReplyArrives(id) => ReceivedKeepsValid(library, s, id);
    case Flush => FlushKeepsValid(library, s);
    case OtherWriter(_) => DaemonChangeKeepsValid(library, s, event);
    case Retitled(_) => DaemonChangeKeepsValid(library, s, event);
    case _ => ClientStepKeepsValid(library, s, event);
  }

  ghost predicate Run(library: Library, s: System, events: seq<Event>, end: System)
    decreases |events|
  {
    if events == [] then end == s
    else Possible(s, events[0]) && Run(library, Next(library, s, events[0]), events[1..], end)
  }

  /** Over any run with any number of drags and other writers, no two requests of one drag are on
      their way. */
  lemma {:induction false} RunsStayValid(library: Library, s: System, events: seq<Event>, end: System)
    requires Valid(library, s) && Run(library, s, events, end)
    ensures Valid(library, end)
    ensures OneInFlight(end)
    decreases |events|
  {
    if events != [] {
      StepKeepsValid(library, s, events[0]);
      RunsStayValid(library, Next(library, s, events[0]), events[1..], end);
    }
  }

  ghost predicate OneInFlight(s: System) {
    s.drag.Some? ==>
      forall id, other :: id in s.inFlight && other in s.inFlight && s.since <= id && s.since <= other ==> id == other
  }

  lemma AppliedRepliesMatch(library: Library, s: System, id: nat)
    requires Valid(library, s) && id in s.inFlight && s.inFlight[id].Answering? && s.inFlight[id].outcome.Applied?
    requires s.drag.Some? && WasPublished(s, s.drag.value.confirmed)
    ensures Acknowledged(s.drag.value, id, s.inFlight[id].outcome).1 != Failed
    ensures s.since <= id ==>
              && Acknowledged(s.drag.value, id, s.inFlight[id].outcome).1 == Confirmed
              && Accepts(s.drag.value, s.inFlight[id].outcome.view)
  {
    var drag := s.drag.value;
    assert drag.pending.Some? ==> Awaited(library, s, drag);
  }

  /** A drag that ends by itself has had its release target confirmed: it is the position of the last
      applied request, or the divider's own position when nothing was ever asked for. */
  lemma FinishedDragsReachedTheirTarget(library: Library, s: System)
    requires Valid(library, s) && s.drag.Some? && Finished(Sent(library, s.drag.value, s.nextId))
    ensures s.drag.value.released && s.drag.value.desired == LastTarget(s.drag.value)
    ensures Next(library, s, Flush).drag.None?
  {}

  // ----- Drags on published views -----

  /** Nothing is under way for a geometry that was never published. */
  ghost predicate Clean(s: System) {
    && (forall id :: id in s.inFlight && s.inFlight[id].Asking? ==> WasPublished(s, s.inFlight[id].basis))
    && (s.drag.Some? ==> WasPublished(s, s.drag.value.confirmed))
  }

  /** Every drag of these events starts on a view that the daemon has published as it is. */
  ghost predicate PublishedStarts(library: Library, s: System, events: seq<Event>)
    decreases |events|
  {
    events != [] && Possible(s, events[0]) ==>
      && (events[0].StartDrag? ==> WasPublished(s, events[0].view))
      && PublishedStarts(library, Next(library, s, events[0]), events[1..])
  }

  /** The published views after a step, which keeps all that was published before. */
  lemma StepPublishes(library: Library, s: System, event: Event)
    requires Valid(library, s) && Possible(s, event)
    ensures
      var next := Next(library, s, event);
      && next.daemon.view == s.daemon.view && next.daemon.session == s.daemon.session
      && forall r :: r in s.published ==> r in next.published && SameGeometry(next.published[r], s.published[r])
  {
    hide Predicted, Acknowledged, Sent;
    if event.DaemonHandles? {
      ResizedAdvances(library, s.daemon, s.inFlight[event.id].request);
    }
  }

  lemma StepKeepsClean(library: Library, s: System, event: Event)
    requires Valid(library, s) && Possible(s, event) && Clean(s)
    requires event.StartDrag? ==> WasPublished(s, event.view)
    ensures Clean(Next(library, s, event))
  {
    hide Predicted, DaemonResized, SameGeometry;
    StepPublishes(library, s, event);
    PublishedStays(s, Next(library, s, event));
  }

  lemma {:induction false} RunsStayClean(library: Library, s: System, events: seq<Event>, end: System)
    requires Valid(library, s) && Run(library, s, events, end) && Clean(s) && PublishedStarts(library, s, events)
    ensures Clean(end)
    decreases |events|
  {
    hide Valid, Next, Clean, Possible;
    if events != [] {
      StepKeepsValid(library, s, events[0]);
      StepKeepsClean(library, s, events[0]);
      RunsStayClean(library, Next(library, s, events[0]), events[1..], end);
    }
  }

  predicate OnlyThisDrag(events: seq<Event>) {
    forall i :: 0 <= i < |events| ==> !events[i].StartDrag?
  }

  /** Before the first drag. */
  function Start(daemon: View): System {
    System(None, 0, 0, daemon, map[daemon.revision := daemon], map[])
  }

  lemma StartIsValid(library: Library, daemon: View)
    ensures Valid(library, Start(daemon)) && Clean(Start(daemon))
  {}

  /** The daemon would apply this request to another geometry than the one it was made for. */
  ghost predicate Misapplied(library: Library, s: System, id: nat) {
    id in s.inFlight && s.inFlight[id].Asking?
    && DaemonResized(library, s.daemon, s.inFlight[id].request).Some?
    && !SameGeometry(s.daemon, s.inFlight[id].basis)
  }

  /** This reply would make the drag fail although its request has been applied. */
  ghost predicate Mistaken(s: System, id: nat) {
    id in s.inFlight && s.inFlight[id].Answering? && s.inFlight[id].outcome.Applied? && s.drag.Some?
    && Acknowledged(s.drag.value, id, s.inFlight[id].outcome).1.Failed?
  }

  lemma CleanIsSafe(library: Library, s: System)
    requires Valid(library, s) && Clean(s)
    ensures forall id :: !Misapplied(library, s, id) && !Mistaken(s, id)
  {
    hide Valid, DaemonResized, Acknowledged, Predicted, SameGeometry;
    forall id
      ensures !Misapplied(library, s, id) && !Mistaken(s, id)
    {
      if Misapplied(library, s, id) {
        DaemonAppliesToConfirmedGeometryIff(library, s, id);
      }
      if Mistaken(s, id) {
        AppliedRepliesMatch(library, s, id);
      }
    }
  }

  /** Whatever clients, the daemon and the network do from the start: a drag has at most one request
      on its way, and a drag that ends by itself has had its release target acknowledged last. As long
      as drags start on views that are displayed as they were published, no request is applied to
      another geometry than the confirmed one, and no applied reply fails; in any case, a request that
      is misapplied was made for a view that never was published as it was displayed. */
  lemma DragsAreSafe(library: Library, daemon: View, events: seq<Event>, end: System)
    requires Run(library, Start(daemon), events, end)
    ensures OneInFlight(end)
    ensures end.drag.Some? && Finished(Sent(library, end.drag.value, end.nextId)) ==>
              end.drag.value.released && end.drag.value.desired == LastTarget(end.drag.value)
    ensures PublishedStarts(library, Start(daemon), events) ==>
              forall id :: !Misapplied(library, end, id) && !Mistaken(end, id)
    ensures forall id :: Misapplied(library, end, id) ==> !WasPublished(end, end.inFlight[id].basis)
    ensures forall id :: Mistaken(end, id) ==> !WasPublished(end, end.drag.value.confirmed)
  {
    hide Run, Start, Valid, DaemonResized, Acknowledged, Predicted, Sent, SameGeometry, WasPublished, OneInFlight;
    StartIsValid(library, daemon);
    RunsStayValid(library, Start(daemon), events, end);
    if PublishedStarts(library, Start(daemon), events) {
      RunsStayClean(library, Start(daemon), events, end);
      CleanIsSafe(library, end);
    }
    forall id | Misapplied(library, end, id)
      ensures !WasPublished(end, end.inFlight[id].basis)
    {
      DaemonAppliesToConfirmedGeometryIff(library, end, id);
    }
    forall id | Mistaken(end, id)
      ensures !WasPublished(end, end.drag.value.confirmed)
    {
      if WasPublished(end, end.drag.value.confirmed) {
        AppliedRepliesMatch(library, end, id);
      }
    }
    if end.drag.Some? && Finished(Sent(library, end.drag.value, end.nextId)) {
      FinishedDragsReachedTheirTarget(library, end);
    }
  }
}
