/**
 How a client follows the views of its session. Snapshots of views arrive through many attachments,
 late, twice, out of order, and also from views that panes have moved to. The client keeps one
 displayed view, and a pane leaves it only on proof that it has moved.
 */
module Adoption {
  import opened Options
  import opened Layouts
  import opened Dividers
  import opened Views

  datatype Pane = Pane(ended: bool, screen: string)

  datatype Action = Swap(focus: Id) | Break(terminal: Id, detached: bool)

  /** A requested move that awaits its reply, with the newest views seen meanwhile. */
  datatype PendingMove = PendingMove(owner: Id, sourceSession: Id, sourceView: Id, action: Action,
                                     source: Option<View>, promoted: Option<View>)

  datatype Reply = Swapped(view: View) | Promoted(view: View, source: View) | Rejected

  datatype App = App(view: Option<View>, panes: map<Id, Pane>, copies: map<Id, string>, migrated: set<Id>,
                     move: Option<PendingMove>, focused: Option<Id>)

  // ----- Observing views -----

  function Observed(move: PendingMove, view: View): PendingMove {
    if view.session == move.sourceSession && view.view == move.sourceView then
      if move.source.None? || move.source.value.revision <= view.revision then move.(source := Some(view)) else move
    else if move.action.Break? && move.action.terminal in view.terminals
            && (move.promoted.None? || !SameView(move.promoted.value, view)
                || move.promoted.value.revision <= view.revision)
    then move.(promoted := Some(view))
    else move
  }

  function ObservedBy(move: Option<PendingMove>, view: View): Option<PendingMove> {
    if move.None? then None else Some(Observed(move.value, view))
  }

  function NewestView(reply: View, observed: Option<View>): View {
    if observed.Some? && SameView(observed.value, reply) && observed.value.revision > reply.revision
    then observed.value else reply
  }

  /** A snapshot of another session's view that holds one of the panes displayed here. */
  predicate ShowsMigration(app: App, id: Id, view: View) {
    && app.view.Some?
    && view.session != app.view.value.session && view.view != app.view.value.view
    && id in view.terminals && id in app.view.value.terminals
    && id in app.panes && !app.panes[id].ended
  }

  function MigrationsIn(app: App, updates: seq<(Id, View)>): set<Id> {
    set i | 0 <= i < |updates| && ShowsMigration(app, updates[i].0, updates[i].1) :: updates[i].0
  }

  function Promoting(app: App, id: Id): bool {
    app.move.Some? && app.move.value.action.Break? && app.move.value.action.terminal == id
  }

  // ----- Adopting a view -----

  /** The view may replace the displayed one. */
  predicate Current(app: App, view: View) {
    app.view.Some? && SameView(app.view.value, view) && view.revision >= app.view.value.revision
  }

  /** The panes that an incoming view finally takes away. */
  function Departed(app: App, incoming: View): set<Id> {
    if !Current(app, incoming) then {}
    else set id | id in app.migrated && id !in incoming.terminals && !Promoting(app, id)
  }

  function Stripped(view: View, removed: set<Id>): View {
    view.(layout := match Retain(view.layout, removed) case Some(layout) => layout case None => view.layout,
          terminals := Without(view.terminals, removed),
          panes := PanesWithout(view.panes, removed),
          zoomed := if view.zoomed.Some? && view.zoomed.value in removed then None else view.zoomed)
  }

  function MigrationsReconciled(app: App, incoming: View): App {
    var removed := Departed(app, incoming);
    if removed == {} then app
    else app.(view := Some(Stripped(app.view.value, removed)),
              panes := app.panes - removed, copies := app.copies - removed, migrated := app.migrated - removed)
  }

  /** Closes the panes that the displayed view does not have, and keeps the focus inside it. */
  function Reconciled(app: App): App {
    if app.view.None? then app
    else
      var view := app.view.value;
      var gone := set id | id in app.panes && id !in view.terminals;
      var inside :=
        if app.focused.Some? && app.focused.value in view.terminals then app.focused
        else if view.terminals == [] then None else Some(view.terminals[0]);
      app.(panes := app.panes - gone, copies := app.copies - gone,
           focused := if view.zoomed.Some? then view.zoomed else inside)
  }

  /** A pane is not in the incoming view, although nothing shows that it has moved. */
  predicate Missing(app: App, view: View) {
    exists id :: id in app.panes && id !in view.terminals
  }

  function Adopted(app: App, view: View): App {
    var observed := app.(move := ObservedBy(app.move, view));
    if !Current(observed, view) then observed
    else
      var reconciled := MigrationsReconciled(observed, view);
      var shown := if Missing(reconciled, view)
                   then reconciled.view.value.(revision := view.revision, zoomed := view.zoomed)
                   else view;
      Reconciled(reconciled.(view := Some(shown)))
  }

  // ----- Replies to moves -----

  function PromotionAdopted(app: App, view: View, detached: bool, terminal: Id): App {
    if detached then Adopted(app.(migrated := app.migrated + {terminal}), view)
    else Reconciled(app.(migrated := {}, view := Some(view)))
  }

  function Answered(app: App, move: PendingMove, reply: Reply): App {
    match (move.action, reply)
    case (Swap(focus), Swapped(view)) =>
      var adopted := Adopted(app, view);
      if focus in adopted.panes && adopted.view.Some? && Displays(adopted.view.value, focus)
      then adopted.(focused := Some(focus)) else adopted
    case (Break(terminal, detached), Promoted(view, source)) =>
      PromotionAdopted(app, if detached then NewestView(source, move.source) else NewestView(view, move.promoted),
                       detached, terminal)
    case _ => app
  }

  /** `lost` says that the owner's attachment is gone or that the reply is overdue. */
  function MovePolled(app: App, reply: Option<Reply>, lost: bool): App {
    if app.move.None? then app
    else
      var move := app.move.value;
      var released := app.(move := None);
      if app.view.None? || app.view.value.session != move.sourceSession || app.view.value.view != move.sourceView
      then released
      else if reply.Some? then Answered(released, move, reply.value)
      else if lost then released
      else app
  }

  // ----- One round of updates -----

  /** Splits updates into the one to adopt and those that may show migrations. An update that is
      superseded by a later one is neither. */
  function Classified(view: Option<View>, updates: seq<(Id, View)>): (Option<View>, seq<(Id, View)>) {
    if updates == [] then (None, [])
    else
      var (best, rest) := Classified(view, updates[..|updates| - 1]);
      var last := updates[|updates| - 1];
      if Eligible(view, last.1) && (best.None? || last.1.revision >= best.value.revision)
      then (Some(last.1), rest) else (best, rest + [last])
  }

  predicate Eligible(view: Option<View>, update: View) {
    view.Some? && SameView(view.value, update) && update.revision >= view.value.revision
  }

  function AllObserved(move: Option<PendingMove>, updates: seq<(Id, View)>): Option<PendingMove> {
    if updates == [] then move
    else ObservedBy(AllObserved(move, updates[..|updates| - 1]), updates[|updates| - 1].1)
  }

  function Settled(app: App, updates: seq<(Id, View)>, reply: Option<Reply>, lost: bool): App {
    MovePolled(app.(move := AllObserved(app.move, updates)), reply, lost)
  }

  function Drained(app: App, updates: seq<(Id, View)>, reply: Option<Reply>, lost: bool): App {
    var settled := Settled(app, updates, reply, lost);
    var (best, rest) := Classified(settled.view, updates);
    var noted := settled.(migrated := settled.migrated + MigrationsIn(settled, rest));
    if best.Some? then Adopted(noted, best.value) else noted
  }

  // ----- What every state satisfies -----

  /** The panes belong to the displayed view, and copies to panes. */
  ghost predicate Inside(app: App) {
    && (forall id :: id in app.panes ==> app.view.Some? && id in app.view.value.terminals)
    && (forall id :: id in app.copies ==> id in app.panes)
  }

  lemma WithoutMembers(ids: seq<Id>, removed: set<Id>)
    ensures forall id :: id in Without(ids, removed) <==> id in ids && id !in removed
  {
    if ids != [] {
      WithoutMembers(ids[1..], removed);
      assert forall id :: id in ids <==> id == ids[0] || id in ids[1..];
    }
  }

  lemma ReconciledKeepsInside(app: App)
    requires Inside(app)
    ensures Reconciled(app).panes == app.panes && Reconciled(app).copies == app.copies && Inside(Reconciled(app))
    ensures Reconciled(app).view == app.view && Reconciled(app).migrated == app.migrated
    ensures Reconciled(app).move == app.move
  {
    if app.view.Some? {
      var gone := set id | id in app.panes && id !in app.view.value.terminals;
      assert gone == {};
      assert app.panes - gone == app.panes && app.copies - gone == app.copies;
    }
  }

  lemma MigrationsKeepInside(app: App, incoming: View)
    requires Inside(app)
    ensures
      var next := MigrationsReconciled(app, incoming);
      && Inside(next)
      && next.panes == app.panes - Departed(app, incoming) && next.copies == app.copies - Departed(app, incoming)
      && next.migrated == app.migrated - Departed(app, incoming)
      && next.move == app.move
      && (app.view.Some? <==> next.view.Some?)
      && (app.view.Some? ==>
            SameView(app.view.value, next.view.value) && next.view.value.revision == app.view.value.revision)
  {
    var removed := Departed(app, incoming);
    if removed == {} {
      assert app.panes - removed == app.panes && app.copies - removed == app.copies;
    } else {
      WithoutMembers(app.view.value.terminals, removed);
    }
  }

  /** Adopting a view takes away exactly the panes that are known to have moved, that the view
      omits, and that no move of this client is about to promote; the view never goes back. */
  lemma AdoptionDropsOnlyProven(app: App, view: View)
    requires Inside(app)
    ensures
      var next := Adopted(app, view);
      && Inside(next)
      && next.panes == app.panes - Departed(app, view) && next.copies == app.copies - Departed(app, view)
      && next.migrated == app.migrated - Departed(app, view)
      && next.move == ObservedBy(app.move, view)
      && (app.view.Some? <==> next.view.Some?)
      && (app.view.Some? ==>
            && SameView(app.view.value, next.view.value)
            && next.view.value.revision == if Current(app, view) then view.revision else app.view.value.revision)
  {
    var observed := app.(move := ObservedBy(app.move, view));
    assert Departed(observed, view) == Departed(app, view);
    if !Current(observed, view) {
      assert app.panes - {} == app.panes && app.copies - {} == app.copies;
    } else {
      var reconciled := MigrationsReconciled(observed, view);
      MigrationsKeepInside(observed, view);
      var shown := if Missing(reconciled, view)
                   then reconciled.view.value.(revision := view.revision, zoomed := view.zoomed)
                   else view;
      ReconciledKeepsInside(reconciled.(view := Some(shown)));
    }
  }

  // ----- Choosing among updates -----

  /** An update for the displayed view behind which there is none as new. */
  ghost predicate LastOfNewest(view: Option<View>, updates: seq<(Id, View)>, i: int) {
    && 0 <= i < |updates| && Eligible(view, updates[i].1)
    && forall j :: i < j < |updates| && Eligible(view, updates[j].1) ==>
      updates[j].1.revision < updates[i].1.revision
  }

  /** The chosen update is the last of those for the displayed view that no other one surpasses, and every
      update of another view is left over to be looked at as a migration. */
  lemma {:induction false} ClassifiedChoosesNewest(view: Option<View>, updates: seq<(Id, View)>)
    ensures
      var (best, rest) := Classified(view, updates);
      && (best.Some? <==> exists i :: 0 <= i < |updates| && Eligible(view, updates[i].1))
      && (best.Some? ==> Eligible(view, best.value) && exists i :: 0 <= i < |updates| && updates[i].1 == best.value)
      && (best.Some? ==> exists i :: LastOfNewest(view, updates, i) && updates[i].1 == best.value)
      && (best.Some? ==> forall i :: 0 <= i < |updates| && Eligible(view, updates[i].1) ==>
            updates[i].1.revision <= best.value.revision)
      && (forall u :: u in updates && !Eligible(view, u.1) ==> u in rest)
      && (forall u :: u in rest ==> u in updates)
  {
    hide Eligible;
    if updates != [] {
      var n := |updates| - 1;
      var init, last := updates[..n], updates[n];
      ClassifiedChoosesNewest(view, init);
      var ((before, left), (best, rest)) := (Classified(view, init), Classified(view, updates));
      assert rest == left || rest == left + [last];
      forall i | 0 <= i < |updates| && Eligible(view, updates[i].1)
        ensures best.Some? && updates[i].1.revision <= best.value.revision
      {
        assert i < n ==> updates[i] == init[i];
      }
      if best != before || (Eligible(view, last.1) && last.1.revision >= before.value.revision) {
        assert best.Some? ==> updates[n].1 == best.value && LastOfNewest(view, updates, n);
      } else if best.Some? {
        var i :| LastOfNewest(view, init, i) && init[i].1 == best.value;
        assert updates[i].1 == best.value && LastOfNewest(view, updates, i);
      }
      LastOfUpdates(updates);
    }
  }

  lemma LastOfUpdates(updates: seq<(Id, View)>)
    requires updates != []
    ensures forall u :: u in updates <==> u in updates[..|updates| - 1] || u == updates[|updates| - 1]
  {
    assert updates == updates[..|updates| - 1] + [updates[|updates| - 1]];
  }

  /** Sorting out the update to adopt hides no proof of a migration. */
  lemma NoProofIsHidden(app: App, updates: seq<(Id, View)>)
    ensures MigrationsIn(app, Classified(app.view, updates).1) == MigrationsIn(app, updates)
  {
    ClassifiedChoosesNewest(app.view, updates);
    var rest := Classified(app.view, updates).1;
    forall id | id in MigrationsIn(app, updates)
      ensures id in MigrationsIn(app, rest)
    {
      var i :| 0 <= i < |updates| && ShowsMigration(app, updates[i].0, updates[i].1) && updates[i].0 == id;
      assert updates[i] in updates && updates[i] in rest;
      var j :| 0 <= j < |rest| && rest[j] == updates[i];
      assert ShowsMigration(app, rest[j].0, rest[j].1);
    }
    forall id | id in MigrationsIn(app, rest)
      ensures id in MigrationsIn(app, updates)
    {
      var i :| 0 <= i < |rest| && ShowsMigration(app, rest[i].0, rest[i].1) && rest[i].0 == id;
      assert rest[i] in updates;
      var j :| 0 <= j < |updates| && updates[j] == rest[i];
      assert ShowsMigration(app, updates[j].0, updates[j].1);
    }
  }

  // ----- Whole runs -----

  datatype Event =
    | Drain(updates: seq<(Id, View)>, reply: Option<Reply>, lost: bool)
    | Snapshot(view: View)
    | PaneOpened(id: Id, pane: Pane)
    | PaneOutput(id: Id, screen: string)
    | PaneEnded(id: Id)
    | PaneDismissed(id: Id, focus: Option<Id>)
    | CopyChanged(id: Id, text: Option<string>)
    | FocusChanged(id: Id)
    | MoveStarted(owner: Id, action: Action)

  function Next(app: App, event: Event): App {
    match event
    case Drain(updates, reply, lost) => Drained(app, updates, reply, lost)
    case Snapshot(view) => Adopted(app, view)
    case PaneOpened(id, pane) =>
      if app.view.Some? && id in app.view.value.terminals && (id in app.panes ==> !app.panes[id].ended)
      then app.(panes := app.panes[id := pane],
                move := if app.move.Some? && app.move.value.owner == id then None else app.move)
      else app
    case PaneOutput(id, screen) =>
      if id in app.panes && !app.panes[id].ended then app.(panes := app.panes[id := Pane(false, screen)]) else app
    case PaneEnded(id) =>
      if id in app.panes then app.(panes := app.panes[id := app.panes[id].(ended := true)]) else app
    case PaneDismissed(id, focus) =>
      if id in app.panes && app.panes[id].ended
      then app.(panes := app.panes - {id}, copies := app.copies - {id}, focused := focus) else app
    case CopyChanged(id, text) =>
      if text.None? then app.(copies := app.copies - {id})
      else if id in app.panes then app.(copies := app.copies[id := text.value]) else app
    case FocusChanged(id) =>
      if app.view.Some? && Displays(app.view.value, id) then app.(focused := Some(id)) else app
    case MoveStarted(owner, action) =>
      if app.move.None? && app.view.Some?
      then app.(move := Some(PendingMove(owner, app.view.value.session, app.view.value.view, action, None, None)))
      else app
  }

  /** The reply that this round acts on, if any: the move is pending and its view is displayed. */
  function ActedOn(app: App, event: Event): Option<(Action, Reply)> {
    if event.Drain? && app.move.Some? && event.reply.Some? && app.view.Some?
       && app.view.value.session == app.move.value.sourceSession && app.view.value.view == app.move.value.sourceView
    then Some((app.move.value.action, event.reply.value)) else None
  }

  /** The client follows a broken-off pane to its new session. */
  predicate FollowsPromotion(app: App, event: Event) {
    match ActedOn(app, event)
    case Some((Break(_, detached), Promoted(_, _))) => !detached
    case _ => false
  }

  /** The panes of which this event proves that they have moved. */
  function Proven(app: App, event: Event): set<Id> {
    if !event.Drain? then {}
    else
      MigrationsIn(Settled(app, event.updates, event.reply, event.lost), event.updates)
      + match ActedOn(app, event)
        case Some((Break(terminal, true), Promoted(_, _))) => {terminal}
        case _ => {}
  }

  /** The exited pane that the user dismisses with this event. */
  function Dismissed(app: App, event: Event): set<Id> {
    if event.PaneDismissed? && event.id in app.panes && app.panes[event.id].ended then {event.id} else {}
  }

  /** The panes that this event may take away. */
  function Freed(app: App, event: Event): set<Id> {
    Proven(app, event) + Dismissed(app, event)
  }

  lemma {:induction false} ObservingKeepsMove(move: Option<PendingMove>, updates: seq<(Id, View)>)
    ensures
      var after := AllObserved(move, updates);
      && (after.Some? <==> move.Some?)
      && (move.Some? ==>
            && after.value.action == move.value.action && after.value.owner == move.value.owner
            && after.value.sourceSession == move.value.sourceSession && after.value.sourceView == move.value.sourceView)
  {
    if updates != [] {
      ObservingKeepsMove(move, updates[..|updates| - 1]);
    }
  }

  /** What a step may do to the state, unless it follows a promotion. */
  ghost predicate Follows(app: App, next: App, proven: set<Id>) {
    && Inside(next)
    && (app.view.Some? <==> next.view.Some?)
    && (app.view.Some? ==>
          SameView(app.view.value, next.view.value) && app.view.value.revision <= next.view.value.revision)
    && next.migrated <= app.migrated + proven
    && (forall id :: id in app.panes && id !in next.panes ==> id in app.migrated + proven)
    && (forall id :: id in app.panes && app.panes[id].ended && id !in app.migrated + proven ==>
          id in next.panes && next.panes[id] == app.panes[id])
  }

  lemma AdoptionFollows(app: App, view: View)
    requires Inside(app)
    ensures Follows(app, Adopted(app, view), {})
  {
    AdoptionDropsOnlyProven(app, view);
  }

  lemma FollowsTransitively(app: App, middle: App, next: App, first: set<Id>, second: set<Id>)
    requires Follows(app, middle, first) && Follows(middle, next, second)
    ensures Follows(app, next, first + second)
  {}

  lemma PollingFollows(app: App, event: Event, observed: App)
    requires Inside(app) && event.Drain? && !FollowsPromotion(app, event)
    requires observed == app.(move := AllObserved(app.move, event.updates))
    ensures
      var proven := match ActedOn(app, event)
                    case Some((Break(terminal, true), Promoted(_, _))) => {terminal}
                    case _ => {};
      Follows(app, MovePolled(observed, event.reply, event.lost), proven)
  {
    hide Adopted, AllObserved, Reconciled, Observed;
    ObservingKeepsMove(app.move, event.updates);
    if ActedOn(app, event).Some? {
      var move := observed.move.value;
      var released := observed.(move := None);
      match (move.action, event.reply.value)
      case (Swap(focus), Swapped(view)) =>
        AdoptionDropsOnlyProven(released, view);
      case (Break(terminal, detached), Promoted(view, source)) =>
        AdoptionDropsOnlyProven(released.(migrated := released.migrated + {terminal}), NewestView(source, move.source));
      case _ =>
    }
  }

  lemma DrainFollows(app: App, event: Event)
    requires Inside(app) && event.Drain? && !FollowsPromotion(app, event)
    ensures Follows(app, Next(app, event), Proven(app, event))
  {
    hide Adopted, MovePolled, AllObserved, Classified, MigrationsIn, Follows;
    var observed := app.(move := AllObserved(app.move, event.updates));
    var settled := MovePolled(observed, event.reply, event.lost);
    var (best, rest) := Classified(settled.view, event.updates);
    var migrations := MigrationsIn(settled, rest);
    var noted := settled.(migrated := settled.migrated + migrations);
    var acknowledged := match ActedOn(app, event)
                        case Some((Break(terminal, true), Promoted(_, _))) => {terminal}
                        case _ => {};
    PollingFollows(app, event, observed);
    NoProofIsHidden(settled, event.updates);
    FollowsStaysInside(app, settled, acknowledged);
    NotedFollows(settled, migrations);
    FollowsTransitively(app, settled, noted, acknowledged, migrations);
    if best.Some? {
      FollowsStaysInside(settled, noted, migrations);
      AdoptionFollows(noted, best.value);
      FollowsTransitively(app, noted, Next(app, event), acknowledged + migrations, {});
    }
    assert acknowledged + migrations + {} == acknowledged + migrations == Proven(app, event);
  }

  lemma FollowsStaysInside(app: App, next: App, proven: set<Id>)
    requires Follows(app, next, proven)
    ensures Inside(next)
  {}

  lemma OrdinaryStepFollows(app: App, event: Event)
    requires Inside(app) && !FollowsPromotion(app, event)
    ensures Follows(app, Next(app, event), Freed(app, event))
  {
    hide Follows, Proven, Drained, Adopted;
    if event.Drain? {
      DrainFollows(app, event);
      assert Freed(app, event) == Proven(app, event);
    } else if event.Snapshot? {
      AdoptionFollows(app, event.view);
      NothingFreed(app, event);
    } else {
      LocalStepFollows(app, event);
    }
  }

  lemma NothingFreed(app: App, event: Event)
    requires event.Snapshot?
    ensures Freed(app, event) == {}
  {}

  /** Steps that no view brings about. */
  lemma LocalStepFollows(app: App, event: Event)
    requires Inside(app) && !event.Drain? && !event.Snapshot?
    ensures Follows(app, Next(app, event), Freed(app, event))
  {
    assert Proven(app, event) == {};
  }

  /** The view that is shown when this event follows a promotion. */
  function Followed(app: App, event: Event): View
    requires FollowsPromotion(app, event)
  {
    ObservingKeepsMove(app.move, event.updates);
    NewestView(event.reply.value.view, AllObserved(app.move, event.updates).value.promoted)
  }

  /** What following a promotion does: the promoted view is shown, no older than the reply says; the
      panes that belong to it stay as they are, with their copies, unless an update of the same round
      proves that they have moved on; all others leave. */
  ghost predicate Promotes(app: App, event: Event, next: App)
    requires FollowsPromotion(app, event)
  {
    var shown, reply := Followed(app, event), event.reply.value.view;
    var moved := MigrationsIn(Settled(app, event.updates, event.reply, event.lost), event.updates);
    && SameView(shown, reply) && reply.revision <= shown.revision
    && Inside(next) && next.view.Some?
    && SameView(next.view.value, shown) && shown.revision <= next.view.value.revision
    && next.migrated <= moved
    && (forall id :: id in next.panes ==> id in app.panes && id in shown.terminals && next.panes[id] == app.panes[id])
    && (forall id :: id in app.panes && id in shown.terminals && id !in next.panes ==> id in moved)
    && (forall id :: id in next.copies <==> id in app.copies && id in next.panes)
    && (forall id :: id in next.copies ==> next.copies[id] == app.copies[id])
  }

  lemma PromotionSettles(app: App, event: Event)
    requires Inside(app) && FollowsPromotion(app, event)
    ensures
      var settled := Settled(app, event.updates, event.reply, event.lost);
      && Inside(settled) && settled.view == Some(Followed(app, event)) && settled.migrated == {}
      && (forall id :: id in settled.panes <==> id in app.panes && id in Followed(app, event).terminals)
      && (forall id :: id in settled.panes ==> settled.panes[id] == app.panes[id])
      && (forall id :: id in settled.copies <==> id in app.copies && id in settled.panes)
      && (forall id :: id in settled.copies ==> settled.copies[id] == app.copies[id])
  {
    hide AllObserved, Observed;
    ObservingKeepsMove(app.move, event.updates);
  }

  lemma PromotionStepPromotes(app: App, event: Event)
    requires Inside(app) && FollowsPromotion(app, event)
    ensures Promotes(app, event, Next(app, event))
  {
    hide Adopted, Settled, AllObserved, Classified, MigrationsIn;
    PromotionSettles(app, event);
    var settled := Settled(app, event.updates, event.reply, event.lost);
    var (best, rest) := Classified(settled.view, event.updates);
    NoProofIsHidden(settled, event.updates);
    NotedAndAdopted(settled, MigrationsIn(settled, rest), best);
  }

  /** What noting some panes as moved, and adopting a view then, does. */
  lemma NotedAndAdopted(settled: App, moved: set<Id>, best: Option<View>)
    requires Inside(settled) && settled.view.Some? && settled.migrated == {}
    ensures
      var noted := settled.(migrated := settled.migrated + moved);
      var next := if best.Some? then Adopted(noted, best.value) else noted;
      && Inside(next) && next.view.Some? && SameView(next.view.value, settled.view.value)
      && settled.view.value.revision <= next.view.value.revision
      && next.migrated <= moved
      && (forall id :: id in next.panes ==> id in settled.panes && next.panes[id] == settled.panes[id])
      && (forall id :: id in settled.panes && id !in next.panes ==> id in moved)
      && (forall id :: id in next.copies <==> id in settled.copies && id in next.panes)
      && (forall id :: id in next.copies ==> next.copies[id] == settled.copies[id])
  {
    hide Adopted, Retain;
    if best.Some? {
      AdoptionDropsOnlyProven(settled.(migrated := settled.migrated + moved), best.value);
    }
  }

  /** Every step of every run: either it follows a promotion, or the displayed view keeps its identity
      and does not go back, and panes leave only on proof of a move or when they are dismissed. */
  lemma StepFollows(app: App, event: Event)
    requires Inside(app)
    ensures Inside(Next(app, event))
    ensures if FollowsPromotion(app, event) then Promotes(app, event, Next(app, event))
            else Follows(app, Next(app, event), Freed(app, event))
  {
    hide Next, Promotes, Freed;
    if FollowsPromotion(app, event) {
      PromotionStepPromotes(app, event);
      PromotesStaysInside(app, event, Next(app, event));
    } else {
      OrdinaryStepFollows(app, event);
    }
  }

  lemma PromotesStaysInside(app: App, event: Event, next: App)
    requires FollowsPromotion(app, event) && Promotes(app, event, next)
    ensures Inside(next)
  {
  }

  lemma NotedFollows(app: App, migrations: set<Id>)
    requires Inside(app)
    ensures Follows(app, app.(migrated := app.migrated + migrations), migrations)
  {}

  function After(app: App, events: seq<Event>): App
    decreases |events|
  {
    if events == [] then app else After(Next(app, events[0]), events[1..])
  }

  /** The client follows no promotion while these events happen. */
  predicate StaysWithView(app: App, events: seq<Event>)
    decreases |events|
  {
    events == [] || (!FollowsPromotion(app, events[0]) && StaysWithView(Next(app, events[0]), events[1..]))
  }

  function AllFreed(app: App, events: seq<Event>): set<Id>
    decreases |events|
  {
    if events == [] then {} else Freed(app, events[0]) + AllFreed(Next(app, events[0]), events[1..])
  }

  lemma {:induction false} RunsStayInside(app: App, events: seq<Event>)
    requires Inside(app)
    ensures Inside(After(app, events))
    decreases |events|
  {
    hide Next;
    if events != [] {
      StepFollows(app, events[0]);
      RunsStayInside(Next(app, events[0]), events[1..]);
    }
  }

  lemma {:induction false} RunFollows(app: App, events: seq<Event>)
    requires Inside(app) && StaysWithView(app, events)
    ensures Follows(app, After(app, events), AllFreed(app, events))
    decreases |events|
  {
    hide Next, Freed, FollowsPromotion;
    if events != [] {
      var next := Next(app, events[0]);
      StepFollows(app, events[0]);
      RunFollows(next, events[1..]);
      FollowsTransitively(app, next, After(app, events), Freed(app, events[0]), AllFreed(next, events[1..]));
    }
  }

  /** However snapshots and replies are delayed, repeated, reordered or mixed with those of other
      views, and however often the client has followed panes to new sessions before: as long as it
      follows none, the displayed view keeps its identity and never goes back to an older revision; a
      pane leaves only when something has proved that it moved or when it is dismissed; and a pane
      that has exited keeps its last screen until then. */
  lemma RunsFollow(app: App, before: seq<Event>, events: seq<Event>)
    requires Inside(app) && StaysWithView(After(app, before), events)
    ensures
      var start := After(app, before);
      Follows(start, After(start, events), AllFreed(start, events))
  {
    hide Next, Follows, AllFreed;
    RunsStayInside(app, before);
    RunFollows(After(app, before), events);
  }

  /** An exited pane is never proved to have moved by a snapshot. */
  lemma ExitedPanesAreNotProvenBySnapshots(app: App, event: Event, id: Id)
    requires Inside(app) && id in app.panes && app.panes[id].ended && id !in app.migrated && id in Proven(app, event)
    requires !FollowsPromotion(app, event)
    ensures ActedOn(app, event).Some? && ActedOn(app, event).value.0 == Break(id, true)
  {
    var observed := app.(move := AllObserved(app.move, event.updates));
    PollingFollows(app, event, observed);
  }

  // ----- Following a promotion -----

  /** The newest snapshot of the source view seen while the reply was pending. */
  lemma {:induction false} ObservingKeepsNewest(move: Option<PendingMove>, updates: seq<(Id, View)>, i: nat)
    requires move.Some? && i < |updates|
    requires updates[i].1.session == move.value.sourceSession && updates[i].1.view == move.value.sourceView
    ensures AllObserved(move, updates).Some?
    ensures
      var source := AllObserved(move, updates).value.source;
      && source.Some? && source.value.revision >= updates[i].1.revision
      && (move.value.source.Some? ==> source.value.revision >= move.value.source.value.revision)
  {
    var init := updates[..|updates| - 1];
    ObservingKeepsMove(move, init);
    if i < |init| {
      ObservingKeepsNewest(move, init, i);
    } else {
      ObservingNeverLowers(move, init);
    }
  }

  lemma {:induction false} ObservingNeverLowers(move: Option<PendingMove>, updates: seq<(Id, View)>)
    requires move.Some?
    ensures AllObserved(move, updates).Some?
    ensures move.value.source.Some? ==>
              var source := AllObserved(move, updates).value.source;
              source.Some? && source.value.revision >= move.value.source.value.revision
  {
    if updates != [] {
      ObservingNeverLowers(move, updates[..|updates| - 1]);
      ObservingKeepsMove(move, updates[..|updates| - 1]);
    }
  }

  // ----- The shape of the displayed view -----

  /** The displayed split tree always holds the displayed terminals, although stripping a view of
      all its terminals at once leaves its tree as it was: such a view is replaced right away. */
  lemma AdoptionKeepsConsistency(app: App, view: View)
    requires Inside(app) && Consistent(view) && (app.view.Some? ==> Consistent(app.view.value))
    ensures Adopted(app, view).view.Some? ==> Consistent(Adopted(app, view).view.value)
  {
    var observed := app.(move := ObservedBy(app.move, view));
    if Current(observed, view) {
      var removed := Departed(observed, view);
      var reconciled := MigrationsReconciled(observed, view);
      MigrationsKeepInside(observed, view);
      var current := app.view.value;
      RetainKeepsLeaves(current.layout, removed);
      WithoutMembers(Leaves(current.layout), removed);
      WithoutMembers(current.terminals, removed);
      if Missing(reconciled, view) && removed != {} {
        var id :| id in reconciled.panes && id !in view.terminals;
        assert id in Without(current.terminals, removed) && id in Without(Leaves(current.layout), removed);
        assert Retain(current.layout, removed).Some?;
      }
    }
  }

  /** A pane that the client keeps is not in the view it adopts. */
  predicate KeptMissing(app: App, view: View) {
    exists id :: id in app.panes && id !in view.terminals && id !in Departed(app, view)
  }

  /** The old geometry is still displayed, without the terminals that have left. */
  ghost predicate Keeps(before: View, shown: View, removed: set<Id>) {
    && shown.terminals == Without(before.terminals, removed)
    && Leaves(shown.layout) == Without(Leaves(before.layout), removed)
    && shown.panes == PanesWithout(before.panes, removed)
    && shown.canvas == before.canvas && shown.title == before.title
    && (removed == {} ==> shown.layout == before.layout)
  }

  lemma {:induction false} WithoutNone(ids: seq<Id>)
    ensures Without(ids, {}) == ids
  {
    if ids != [] {
      WithoutNone(ids[1..]);
    }
  }

  lemma {:induction false} PanesWithoutNone(panes: seq<PaneGeometry>)
    ensures PanesWithout(panes, {}) == panes
  {
    if panes != [] {
      PanesWithoutNone(panes[1..]);
    }
  }

  lemma StrippedKeeps(view: View, removed: set<Id>)
    requires removed != {} && Without(Leaves(view.layout), removed) != []
    ensures Keeps(view, Stripped(view, removed), removed)
  {
    RetainKeepsLeaves(view.layout, removed);
  }

  /** A current view is displayed as it is, exactly unless a kept pane is missing from it; then the
      old geometry stays on display under the new revision and zoom. */
  lemma AdoptionShowsViewIff(app: App, view: View)
    requires Inside(app) && Current(app, view) && Consistent(view) && Consistent(app.view.value)
    ensures Adopted(app, view).view.Some?
    ensures
      var shown := Adopted(app, view).view.value;
      && (SameGeometry(shown, view) <==> !KeptMissing(app, view))
      && (!KeptMissing(app, view) ==> shown == view)
      && SameView(shown, view) && shown.revision == view.revision && shown.zoomed == view.zoomed
      && (KeptMissing(app, view) ==> Keeps(app.view.value, shown, Departed(app, view)))
  {
    var observed := app.(move := ObservedBy(app.move, view));
    assert Departed(observed, view) == Departed(app, view);
    var reconciled := MigrationsReconciled(observed, view);
    MigrationsKeepInside(observed, view);
    assert Missing(reconciled, view) <==> KeptMissing(app, view);
    AdoptionDropsOnlyProven(app, view);
    if KeptMissing(app, view) {
      var shown := Adopted(app, view).view.value;
      AdoptionKeepsConsistency(app, view);
      var id :| id in reconciled.panes && id !in view.terminals;
      assert id in shown.terminals && id in Leaves(shown.layout) && id !in Leaves(view.layout);
      var before, removed := app.view.value, Departed(app, view);
      WithoutMembers(Leaves(before.layout), removed);
      if removed == {} {
        WithoutNone(before.terminals);
        WithoutNone(Leaves(before.layout));
        PanesWithoutNone(before.panes);
      } else {
        StrippedKeeps(before, removed);
      }
    }
  }

  /** After adopting a current view the focus is on a displayed pane, unless that view zooms a pane
      which a retained view does not have. */
  lemma FocusIsDisplayedIff(app: App, view: View)
    requires Inside(app) && Current(app, view)
    requires view.zoomed.Some? ==> view.zoomed.value in view.terminals
    ensures
      var next := Adopted(app, view);
      (next.focused.Some? ==> next.focused.value in next.view.value.terminals) <==>
      !(view.zoomed.Some? && KeptMissing(app, view)
        && !(view.zoomed.value in app.view.value.terminals && view.zoomed.value !in Departed(app, view)))
  {
    var observed := app.(move := ObservedBy(app.move, view));
    assert Departed(observed, view) == Departed(app, view);
    MigrationsKeepInside(observed, view);
    WithoutMembers(app.view.value.terminals, Departed(app, view));
    var reconciled := MigrationsReconciled(observed, view);
    assert Missing(reconciled, view) <==> KeptMissing(app, view);
  }

  /** A view with a single pane that fills its canvas. */
  function Single(session: Id, id: Id, revision: nat, terminal: Id, zoomed: Option<Id>): View {
    View(session, id, revision, Canvas(80, 24), [terminal], Terminal(terminal),
         [PaneGeometry(terminal, 0, 0, 80, 24)], zoomed, "")
  }

  /** Two panes side by side on a canvas of 81 columns. */
  function Pair(session: Id, id: Id, revision: nat, left: Id, right: Id): View {
    View(session, id, revision, Canvas(81, 24), [left, right],
         Layout.Split(Horizontal, [Layout.Terminal(left), Layout.Terminal(right)], []),
         [PaneGeometry(left, 0, 0, 40, 24), PaneGeometry(right, 41, 0, 40, 24)], None, "")
  }

  /** The focus does leave the displayed view when a pane split off and zoomed elsewhere is
      announced while the last screen of an exited pane is still shown. */
  lemma FocusCanLeaveTheView(exited: Id, added: Id, session: Id, id: Id)
    requires exited != added
    ensures
      var shown := Single(session, id, 1, exited, None);
      var app := App(Some(shown), map[exited := Pane(true, "")], map[], {}, None, Some(exited));
      var incoming := Single(session, id, 2, added, Some(added));
      var next := Adopted(app, incoming);
      next.focused == Some(added) && added !in next.view.value.terminals
  {
    var shown := Single(session, id, 1, exited, None);
    var app := App(Some(shown), map[exited := Pane(true, "")], map[], {}, None, Some(exited));
    var incoming := Single(session, id, 2, added, Some(added));
    assert Departed(app, incoming) == {};
    assert exited in app.panes && exited !in incoming.terminals;
    assert Missing(app, incoming);
  }

  // ----- The client -----

  class Client {
    var view: Option<View>
    var panes: map<Id, Pane>
    var copies: map<Id, string>
    var migrated: set<Id>
    var move: Option<PendingMove>
    var focused: Option<Id>

    ghost function Now(): App
      reads this
    {
      App(view, panes, copies, migrated, move, focused)
    }

    constructor (view: View)
      ensures Now() == App(Some(view), map[], map[], {}, None, None) && Inside(Now())
    {
      this.view := Some(view);
      panes, copies, migrated, move, focused := map[], map[], {}, None, None;
    }

    method ObserveView(seen: View)
      modifies this`move
      ensures Now() == old(Now()).(move := ObservedBy(old(move), seen))
    {
      if move.Some? {
        var pending := move.value;
        if seen.session == pending.sourceSession && seen.view == pending.sourceView {
          if pending.source.None? || pending.source.value.revision <= seen.revision {
            move := Some(pending.(source := Some(seen)));
          }
        } else if pending.action.Break? && pending.action.terminal in seen.terminals
            && (pending.promoted.None? || !SameView(pending.promoted.value, seen)
                || pending.promoted.value.revision <= seen.revision) {
          move := Some(pending.(promoted := Some(seen)));
        }
      }
    }

    method ObserveMigrations(updates: seq<(Id, View)>)
      modifies this`migrated
      ensures Now() == old(Now()).(migrated := old(migrated) + MigrationsIn(old(Now()), updates))
    {
      ghost var start := Now();
      if view.None? {
        assert MigrationsIn(start, updates) == {};
        return;
      }
      assert MigrationsIn(start, updates[..0]) == {};
      for i := 0 to |updates|
        invariant Now() == start.(migrated := start.migrated + MigrationsIn(start, updates[..i]))
      {
        var (id, seen) := updates[i];
        OneMoreUpdate(start, updates, i);
        if seen.session != view.value.session && seen.view != view.value.view && id in seen.terminals
           && id in view.value.terminals && id in panes && !panes[id].ended {
          migrated := migrated + {id};
        }
      }
      assert updates[..|updates|] == updates;
    }

    method ReconcileMigrations(incoming: View)
      modifies this
      ensures Now() == MigrationsReconciled(old(Now()), incoming)
    {
      if view.None? || !SameView(incoming, view.value) || incoming.revision < view.value.revision {
        return;
      }
      ghost var start := Now();
      var removed := set id | id in migrated && id !in incoming.terminals
                              && !(move.Some? && move.value.action.Break? && move.value.action.terminal == id);
      assert removed == Departed(start, incoming);
      if removed == {} {
        return;
      }
      var current := view.value;
      var layout := RetainLayout(current.layout, removed);
      if layout.Some? {
        current := current.(layout := layout.value);
      }
      current := current.(terminals := Without(current.terminals, removed),
                          panes := PanesWithout(current.panes, removed));
      if current.zoomed.Some? && current.zoomed.value in removed {
        current := current.(zoomed := None);
      }
      view := Some(current);
      copies := copies - removed;
      panes := panes - removed;
      migrated := migrated - removed;
    }

    method Reconcile()
      modifies this
      ensures Now() == Reconciled(old(Now()))
    {
      if view.None? {
        return;
      }
      var gone := set id | id in panes && id !in view.value.terminals;
      copies := copies - gone;
      panes := panes - gone;
      if focused.None? || focused.value !in view.value.terminals {
        focused := if view.value.terminals == [] then None else Some(view.value.terminals[0]);
      }
      if view.value.zoomed.Some? {
        focused := view.value.zoomed;
      }
    }

    method AdoptView(incoming: View)
      modifies this
      ensures Now() == Adopted(old(Now()), incoming)
      ensures old(Inside(Now())) ==> Inside(Now()) && panes == old(panes) - Departed(old(Now()), incoming)
    {
      if Inside(Now()) {
        AdoptionDropsOnlyProven(Now(), incoming);
      }
      ObserveView(incoming);
      if view.None? || !SameView(view.value, incoming) || incoming.revision < view.value.revision {
        return;
      }
      ReconcileMigrations(incoming);
      if exists id :: id in panes && id !in incoming.terminals {
        view := Some(view.value.(revision := incoming.revision, zoomed := incoming.zoomed));
      } else {
        view := Some(incoming);
      }
      Reconcile();
    }

    method AdoptPromotion(incoming: View, detached: bool, terminal: Id)
      modifies this
      ensures Now() == PromotionAdopted(old(Now()), incoming, detached, terminal)
    {
      if detached {
        migrated := migrated + {terminal};
        AdoptView(incoming);
      } else {
        migrated := {};
        view := Some(incoming);
        Reconcile();
      }
    }

    method PollPaneMove(reply: Option<Reply>, lost: bool)
      modifies this
      ensures Now() == MovePolled(old(Now()), reply, lost)
    {
      if move.None? {
        return;
      }
      var pending := move.value;
      if view.None? || view.value.session != pending.sourceSession || view.value.view != pending.sourceView {
        move := None;
      } else if reply.Some? {
        move := None;
        match (pending.action, reply.value)
        case (Swap(focus), Swapped(swapped)) =>
          AdoptView(swapped);
          if focus in panes && view.Some? && Displays(view.value, focus) {
            focused := Some(focus);
          }
        case (Break(terminal, detached), Promoted(promoted, source)) =>
          AdoptPromotion(if detached then NewestView(source, pending.source)
                         else NewestView(promoted, pending.promoted),
                         detached, terminal);
        case _ =>
      } else if lost {
        move := None;
      }
    }

    /** Picks the update to adopt; later updates of the same revision win. */
    method Classify(updates: seq<(Id, View)>) returns (best: Option<View>, rest: seq<(Id, View)>)
      ensures (best, rest) == Classified(view, updates)
    {
      best, rest := None, [];
      for i := 0 to |updates|
        invariant (best, rest) == Classified(view, updates[..i])
      {
        var update := updates[i].1;
        assert updates[..i + 1][..i] == updates[..i];
        if view.Some? && SameView(view.value, update) && update.revision >= view.value.revision
           && (best.None? || update.revision >= best.value.revision) {
          best := Some(update);
        } else {
          rest := rest + [updates[i]];
        }
      }
      assert updates[..|updates|] == updates;
    }

    method Drain(updates: seq<(Id, View)>, reply: Option<Reply>, lost: bool)
      modifies this
      ensures Now() == Drained(old(Now()), updates, reply, lost)
    {
      ghost var start := Now();
      for i := 0 to |updates|
        invariant Now() == start.(move := AllObserved(start.move, updates[..i]))
      {
        assert updates[..i + 1][..i] == updates[..i];
        ObserveView(updates[i].1);
      }
      assert updates[..|updates|] == updates;
      PollPaneMove(reply, lost);
      var best, rest := Classify(updates);
      ObserveMigrations(rest);
      if best.Some? {
        AdoptView(best.value);
      }
    }
  }

  lemma OneMoreUpdate(app: App, updates: seq<(Id, View)>, i: nat)
    requires i < |updates|
    ensures MigrationsIn(app, updates[..i + 1]) ==
            MigrationsIn(app, updates[..i])
            + if ShowsMigration(app, updates[i].0, updates[i].1) then {updates[i].0} else {}
  {
    var before, after := updates[..i], updates[..i + 1];
    assert after == before + [updates[i]];
    forall id | id in MigrationsIn(app, after)
      ensures id in MigrationsIn(app, before) || (ShowsMigration(app, updates[i].0, updates[i].1) && id == updates[i].0)
    {
      var k :| 0 <= k < |after| && ShowsMigration(app, after[k].0, after[k].1) && after[k].0 == id;
      if k < i {
        assert before[k] == after[k];
      }
    }
    forall id | id in MigrationsIn(app, before)
      ensures id in MigrationsIn(app, after)
    {
      var k :| 0 <= k < |before| && ShowsMigration(app, before[k].0, before[k].1) && before[k].0 == id;
      assert after[k] == before[k];
    }
    if ShowsMigration(app, updates[i].0, updates[i].1) {
      assert after[i] == updates[i];
    }
  }
}
