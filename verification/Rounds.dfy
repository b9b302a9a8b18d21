/**
 What a round of updates leads to: which view is displayed after it, which pane has the focus, whether
 a requested move is still pending, and which panes are known to have moved.
 */
module Rounds {
  import opened Options
  import opened Layouts
  import opened Dividers
  import opened Views
  import opened Adoption

  // ----- The displayed view -----

  /** A view that the round offers for display: one of its updates, the view of an acknowledged swap, or
      the source view of an acknowledged detached break, as the reply or a remembered snapshot has it. */
  ghost predicate Offered(app: App, event: Event, view: View) {
    event.Drain?
    && ((exists i :: 0 <= i < |event.updates| && event.updates[i].1 == view)
        || match ActedOn(app, event)
           case Some((Swap(_), Swapped(swapped))) => view == swapped
           case Some((Break(_, true), Promoted(_, source))) =>
             view == source || (SameView(source, view) && app.move.value.source == Some(view))
           case _ => false)
  }

  /** It can replace the displayed view. */
  ghost predicate Replaces(app: App, event: Event, view: View) {
    Offered(app, event, view) && app.view.Some? && SameView(view, app.view.value)
    && app.view.value.revision <= view.revision
  }

  /** This view is displayed, or at least its revision and zoom when it lacks a pane that is kept. */
  ghost predicate Shown(next: App, view: View) {
    && next.view.Some? && SameView(next.view.value, view)
    && next.view.value.revision == view.revision && next.view.value.zoomed == view.zoomed
    && ((forall id :: id in next.panes ==> id in view.terminals) ==> next.view.value == view)
  }

  lemma AdoptionShows(app: App, view: View)
    requires Inside(app) && Current(app, view)
    ensures Shown(Adopted(app, view), view)
  {
    var observed := app.(move := ObservedBy(app.move, view));
    var reconciled := MigrationsReconciled(observed, view);
    MigrationsKeepInside(observed, view);
    AdoptionDropsOnlyProven(app, view);
    assert Departed(observed, view) == Departed(app, view);
    assert Adopted(app, view).panes == reconciled.panes;
  }

  predicate OfSource(move: PendingMove, updates: seq<(Id, View)>, i: int) {
    0 <= i < |updates| && updates[i].1.session == move.sourceSession && updates[i].1.view == move.sourceView
  }

  /** What a move remembers of its source view is a snapshot it has seen. */
  lemma {:induction false} ObservedSource(move: PendingMove, updates: seq<(Id, View)>)
    ensures AllObserved(Some(move), updates).Some?
    ensures
      var source := AllObserved(Some(move), updates).value.source;
      || source == move.source
      || exists i :: 0 <= i < |updates| && source == Some(updates[i].1) && OfSource(move, updates, i)
  {
    ObservingKeepsMove(Some(move), updates);
    if updates != [] {
      var n := |updates| - 1;
      ObservingKeepsMove(Some(move), updates[..n]);
      ObservedSource(move, updates[..n]);
      var before := AllObserved(Some(move), updates[..n]).value.source;
      if before != move.source {
        var i :| 0 <= i < n && before == Some(updates[..n][i].1) && OfSource(move, updates[..n], i);
        assert updates[i] == updates[..n][i] && OfSource(move, updates, i);
      }
      var source := AllObserved(Some(move), updates).value.source;
      assert source == before || (source == Some(updates[n].1) && OfSource(move, updates, n));
    }
  }

  /** The view that the acted-on reply puts up for display. */
  function Replied(app: App, event: Event): Option<View> {
    match ActedOn(app, event)
    case Some((Swap(_), Swapped(view))) => Some(view)
    case Some((Break(_, true), Promoted(_, source))) =>
      ObservingKeepsMove(app.move, event.updates);
      Some(NewestView(source, AllObserved(app.move, event.updates).value.source))
    case _ => None
  }

  lemma NoReplySettles(app: App, event: Event)
    requires event.Drain? && app.view.Some? && ActedOn(app, event).None?
    ensures
      var settled := Settled(app, event.updates, event.reply, event.lost);
      settled == app.(move := settled.move)
  {
    hide Adopted, AllObserved, Observed, Answered;
    ObservingKeepsMove(app.move, event.updates);
  }

  lemma ReplyIsActedOn(app: App, event: Event)
    requires event.Drain? && app.view.Some? && ActedOn(app, event).Some?
    ensures AllObserved(app.move, event.updates).Some?
    ensures
      Settled(app, event.updates, event.reply, event.lost)
      == Answered(app.(move := None), AllObserved(app.move, event.updates).value, event.reply.value)
  {
    hide Adopted, AllObserved, Observed, Answered;
    ObservingKeepsMove(app.move, event.updates);
  }

  /** Up to the point where the updates are looked at. */
  lemma ReplySettles(app: App, event: Event)
    requires Inside(app) && event.Drain? && app.view.Some? && !FollowsPromotion(app, event)
    ensures
      var settled := Settled(app, event.updates, event.reply, event.lost);
      && Inside(settled) && settled.panes.Keys <= app.panes.Keys
      && (forall id :: id in settled.panes ==> settled.panes[id] == app.panes[id])
      && if Replied(app, event).Some? && Current(app, Replied(app, event).value)
         then Shown(settled, Replied(app, event).value)
         else settled.view == app.view
  {
    hide Adopted, AllObserved, Observed, Shown, Settled, MovePolled;
    ObservingKeepsMove(app.move, event.updates);
    if ActedOn(app, event).None? {
      NoReplySettles(app, event);
    } else {
      ReplyIsActedOn(app, event);
      var move := AllObserved(app.move, event.updates).value;
      var released := app.(move := None);
      match (move.action, event.reply.value)
      case (Swap(focus), Swapped(view)) =>
        AdoptionSettles(released, view);
      case (Break(terminal, detached), Promoted(view, source)) =>
        AdoptionSettles(released.(migrated := released.migrated + {terminal}), NewestView(source, move.source));
      case _ =>
    }
  }

  lemma AdoptionSettles(app: App, view: View)
    requires Inside(app)
    ensures
      var next := Adopted(app, view);
      && Inside(next) && next.panes == app.panes - Departed(app, view)
      && (if Current(app, view) then Shown(next, view) else next.view == app.view)
      && forall focused :: Shown(next, view) ==> Shown(next.(focused := focused), view)
  {
    hide Shown;
    AdoptionDropsOnlyProven(app, view);
    if Current(app, view) {
      AdoptionShows(app, view);
    }
    FocusIsNotShown(Adopted(app, view), view);
  }

  lemma FocusIsNotShown(next: App, view: View)
    ensures forall focused :: Shown(next, view) ==> Shown(next.(focused := focused), view)
  {
  }

  lemma RepliedIsOffered(app: App, event: Event)
    requires event.Drain? && app.view.Some? && Replied(app, event).Some?
    ensures SameView(Replied(app, event).value, app.view.value) ==> Offered(app, event, Replied(app, event).value)
  {
    hide AllObserved;
    ObservingKeepsMove(app.move, event.updates);
    ObservedSource(app.move.value, event.updates);
  }

  /** What the round offers besides its updates is no newer than what the reply puts up. */
  lemma RepliedIsNewest(app: App, event: Event, view: View)
    requires app.view.Some? && Offered(app, event, view) && SameView(view, app.view.value)
    ensures
      || (exists i :: 0 <= i < |event.updates| && event.updates[i].1 == view)
      || (Replied(app, event).Some? && SameView(Replied(app, event).value, view)
          && view.revision <= Replied(app, event).value.revision)
  {
    hide AllObserved;
    ObservingKeepsMove(app.move, event.updates);
    if app.move.Some? {
      ObservingNeverLowers(app.move, event.updates);
      ObservedSource(app.move.value, event.updates);
    }
  }

  /** A round that follows no promotion displays the newest view that it offers for the displayed one,
      unless all are older; and it displays that view as it is when it has every pane that is kept. */
  lemma RoundDisplays(app: App, event: Event)
    requires Inside(app) && event.Drain? && app.view.Some? && !FollowsPromotion(app, event)
    ensures Next(app, event).view.Some?
    ensures
      var shown := Next(app, event).view.value;
      && SameView(shown, app.view.value) && app.view.value.revision <= shown.revision
      && (forall view :: Offered(app, event, view) && SameView(view, app.view.value) ==>
            view.revision <= shown.revision)
      && if exists view :: Replaces(app, event, view)
         then exists view :: Replaces(app, event, view) && Shown(Next(app, event), view)
         else Next(app, event).view == app.view
  {
    hide Adopted, Settled, AllObserved, MigrationsIn, Shown, Replied, Offered;
    var settled := Settled(app, event.updates, event.reply, event.lost);
    var (best, rest) := Classified(settled.view, event.updates);
    var noted := settled.(migrated := settled.migrated + MigrationsIn(settled, rest));
    ReplySettles(app, event);
    ClassifiedChoosesNewest(settled.view, event.updates);
    SettledIsNotOlder(app, event, settled);
    if best.Some? {
      AdoptionSettles(noted, best.value);
      ShownAt(Next(app, event), best.value);
      var i :| 0 <= i < |event.updates| && event.updates[i].1 == best.value;
      UpdateIsOffered(app, event, i);
      assert Replaces(app, event, best.value);
    }
    forall view | Offered(app, event, view) && SameView(view, app.view.value)
      ensures view.revision <= Next(app, event).view.value.revision
    {
      RepliedIsNewest(app, event, view);
      if i :| 0 <= i < |event.updates| && event.updates[i].1 == view {
        assert Eligible(settled.view, view) ==> best.Some? && view.revision <= best.value.revision;
      }
    }
    if best.None? && Replied(app, event).Some? && Current(app, Replied(app, event).value) {
      RepliedIsOffered(app, event);
      NotingShows(settled, noted, Replied(app, event).value);
      assert Replaces(app, event, Replied(app, event).value);
    }
    if best.None? && !(Replied(app, event).Some? && Current(app, Replied(app, event).value)) {
      forall view
        ensures !Replaces(app, event, view)
      {
        if Replaces(app, event, view) {
          RepliedIsNewest(app, event, view);
        }
      }
    }
  }

  lemma ShownAt(next: App, view: View)
    requires Shown(next, view)
    ensures next.view.Some? && SameView(next.view.value, view) && next.view.value.revision == view.revision
  {}

  lemma NotingShows(settled: App, noted: App, view: View)
    requires Shown(settled, view) && noted == settled.(migrated := noted.migrated)
    ensures Shown(noted, view)
  {}

  lemma UpdateIsOffered(app: App, event: Event, i: nat)
    requires event.Drain? && i < |event.updates|
    ensures Offered(app, event, event.updates[i].1)
  {}

  lemma SettledIsNotOlder(app: App, event: Event, settled: App)
    requires app.view.Some?
    requires if Replied(app, event).Some? && Current(app, Replied(app, event).value)
             then Shown(settled, Replied(app, event).value) else settled.view == app.view
    ensures settled.view.Some? && SameView(settled.view.value, app.view.value)
    ensures app.view.value.revision <= settled.view.value.revision
    ensures Replied(app, event).Some? && SameView(Replied(app, event).value, app.view.value) ==>
              Replied(app, event).value.revision <= settled.view.value.revision
  {
    hide Replied;
  }

  // ----- The focus -----

  /** The focus is on the zoomed pane of a view if it has one; else it stays where it was if that pane is
      displayed, and otherwise is on the first pane. */
  ghost predicate FocusFollows(before: Option<Id>, shown: View, after: Option<Id>) {
    && (shown.zoomed.Some? ==> after == shown.zoomed)
    && (shown.zoomed.None? && before.Some? && before.value in shown.terminals ==> after == before)
    && (shown.zoomed.None? && !(before.Some? && before.value in shown.terminals) ==>
          after == if shown.terminals == [] then None else Some(shown.terminals[0]))
  }

  lemma AdoptionFocuses(app: App, view: View)
    requires Inside(app)
    ensures
      var next := Adopted(app, view);
      if Current(app, view) then FocusFollows(app.focused, next.view.value, next.focused)
      else next.focused == app.focused
  {
    hide Departed, Retain;
    AdoptionDropsOnlyProven(app, view);
  }

  /** No update of the round is as new as what is displayed in the end, so that none has been adopted
      after the reply. */
  ghost predicate NoneLater(event: Event, shown: View)
    requires event.Drain?
  {
    forall i :: 0 <= i < |event.updates| && SameView(event.updates[i].1, shown) ==>
      event.updates[i].1.revision < shown.revision
  }

  /** An acknowledged swap puts the focus on its pane whenever that is displayed in the end and no later
      view has been adopted in the same round; and if one has, the focus stays there unless the view
      zooms another pane, when the swapped view has all panes. */
  lemma SwapFocuses(app: App, event: Event, focus: Id, view: View)
    requires Inside(app) && event.Drain? && app.view.Some? && ActedOn(app, event) == Some((Swap(focus), Swapped(view)))
    ensures Next(app, event).view.Some?
    ensures
      var next := Next(app, event);
      && (NoneLater(event, next.view.value) && focus in next.panes && Displays(next.view.value, focus) ==>
            next.focused == Some(focus))
      && (Current(app, view) && (forall id :: id in app.panes ==> id in view.terminals) && Displays(view, focus)
          && focus in next.panes && next.view.value.zoomed.None? ==>
            next.focused == Some(focus))
  {
    hide Adopted, AllObserved, MigrationsIn, Observed, Displays;
    var settled := Settled(app, event.updates, event.reply, event.lost);
    var (best, rest) := Classified(settled.view, event.updates);
    var noted := settled.(migrated := settled.migrated + MigrationsIn(settled, rest));
    var next := Next(app, event);
    SwapSettles(app, event, focus, view);
    ReplySettles(app, event);
    SettledIsNotOlder(app, event, settled);
    ClassifiedChoosesNewest(settled.view, event.updates);
    if best.Some? {
      AdoptionSettles(noted, best.value);
      AdoptionFocuses(noted, best.value);
      ShownAt(next, best.value);
      AdoptionDropsOnlyProven(noted, best.value);
      var i :| 0 <= i < |event.updates| && event.updates[i].1 == best.value;
      assert SameView(event.updates[i].1, next.view.value) && !NoneLater(event, next.view.value);
    }
  }

  /** The swap as such. */
  lemma SwapSettles(app: App, event: Event, focus: Id, view: View)
    requires Inside(app) && event.Drain? && app.view.Some? && ActedOn(app, event) == Some((Swap(focus), Swapped(view)))
    ensures
      var settled := Settled(app, event.updates, event.reply, event.lost);
      && settled.view.Some?
      && (focus in settled.panes && Displays(settled.view.value, focus) ==> settled.focused == Some(focus))
      && (Current(app, view) && (forall id :: id in app.panes ==> id in view.terminals) ==>
            settled.view == Some(view))
  {
    hide AllObserved, Observed, Displays, Adopted;
    ObservingKeepsMove(app.move, event.updates);
    var released := app.(move := None);
    AdoptionSettles(released, view);
    if Current(app, view) && (forall id :: id in app.panes ==> id in view.terminals) {
      WholeIsShown(Adopted(released, view), view);
    }
  }

  lemma WholeIsShown(next: App, view: View)
    requires Shown(next, view) && forall id :: id in next.panes ==> id in view.terminals
    ensures next.view == Some(view)
  {}

  /** A round that follows a promotion, and adopts no later view, displays just the promoted view, with the
      focus in it. */
  lemma PromotionFocuses(app: App, event: Event)
    requires Inside(app) && FollowsPromotion(app, event)
    requires NoneLater(event, Followed(app, event))
    ensures
      var next := Next(app, event);
      next.view == Some(Followed(app, event)) && FocusFollows(app.focused, next.view.value, next.focused)
  {
    hide AllObserved, Observed, MigrationsIn;
    PromotionSettles(app, event);
    ObservingKeepsMove(app.move, event.updates);
    ClassifiedChoosesNewest(Some(Followed(app, event)), event.updates);
  }

  /** A pane that is focused and displayed keeps the focus in a round that acts on no reply, unless the
      displayed view zooms another one. */
  lemma RoundKeepsFocus(app: App, event: Event)
    requires Inside(app) && event.Drain? && app.view.Some? && ActedOn(app, event).None?
    requires app.focused.Some? && Next(app, event).view.Some?
    requires app.focused.value in Next(app, event).view.value.terminals && Next(app, event).view.value.zoomed.None?
    ensures Next(app, event).focused == app.focused
  {
    hide Adopted, AllObserved, MigrationsIn, Observed;
    ObservingKeepsMove(app.move, event.updates);
    var settled := Settled(app, event.updates, event.reply, event.lost);
    assert settled == app.(move := settled.move);
    var (best, rest) := Classified(settled.view, event.updates);
    if best.Some? {
      AdoptionFocuses(settled.(migrated := settled.migrated + MigrationsIn(settled, rest)), best.value);
    }
  }

  // ----- The requested move -----

  /** A move is pending after a round if and only if it was, the view in which it was asked for is still
      displayed, and neither a reply has come nor the time for it is over. */
  lemma MoveStaysPendingIff(app: App, event: Event)
    requires event.Drain?
    ensures
      Next(app, event).move.Some? <==>
      && app.move.Some? && app.view.Some?
      && app.view.value.session == app.move.value.sourceSession && app.view.value.view == app.move.value.sourceView
      && event.reply.None? && !event.lost
  {
    hide Adopted, AllObserved, MigrationsIn, Observed;
    ObservingKeepsMove(app.move, event.updates);
    var settled := Settled(app, event.updates, event.reply, event.lost);
    PollingReleases(app, event);
    var (best, rest) := Classified(settled.view, event.updates);
    if best.Some? {
      AdoptionObserves(settled.(migrated := settled.migrated + MigrationsIn(settled, rest)), best.value);
    }
  }

  lemma AdoptionObserves(app: App, view: View)
    ensures Adopted(app, view).move == ObservedBy(app.move, view)
  {
    var observed := app.(move := ObservedBy(app.move, view));
    if Current(observed, view) {
      assert MigrationsReconciled(observed, view).move == observed.move;
    }
  }

  lemma PollingReleases(app: App, event: Event)
    requires event.Drain?
    ensures
      Settled(app, event.updates, event.reply, event.lost).move.Some? <==>
      && app.move.Some? && app.view.Some?
      && app.view.value.session == app.move.value.sourceSession && app.view.value.view == app.move.value.sourceView
      && event.reply.None? && !event.lost
  {
    hide Adopted, AllObserved, Observed;
    ObservingKeepsMove(app.move, event.updates);
    if ActedOn(app, event).Some? {
      var move := AllObserved(app.move, event.updates).value;
      var released := app.(move := None);
      match (move.action, event.reply.value)
      case (Swap(focus), Swapped(view)) =>
        AdoptionObserves(released, view);
      case (Break(terminal, detached), Promoted(view, source)) =>
        AdoptionObserves(released.(migrated := released.migrated + {terminal}), NewestView(source, move.source));
      case _ =>
    }
  }

  // ----- Panes that have moved -----

  /** This update shows a pane of the displayed view in a view of another session. */
  predicate SeenElsewhere(app: App, update: (Id, View)) {
    && app.view.Some? && update.1.session != app.view.value.session && update.1.view != app.view.value.view
    && update.0 in update.1.terminals
    && update.0 in app.panes && !app.panes[update.0].ended
  }

  /** A pane that an update shows elsewhere is noted, if it is still there, and so is the pane of an
      acknowledged detached break. */
  lemma RoundNotes(app: App, event: Event, id: Id)
    requires Inside(app) && event.Drain? && !FollowsPromotion(app, event) && id in Next(app, event).panes
    requires
      || (exists i :: 0 <= i < |event.updates| && event.updates[i].0 == id && SeenElsewhere(app, event.updates[i]))
      || (match ActedOn(app, event)
          case Some((Break(terminal, true), Promoted(_, _))) => terminal == id
          case _ => false)
    ensures id in Next(app, event).migrated
  {
    hide Adopted, AllObserved, MigrationsIn, Observed, Shown, Classified;
    var settled := Settled(app, event.updates, event.reply, event.lost);
    var (best, rest) := Classified(settled.view, event.updates);
    var noted := settled.(migrated := settled.migrated + MigrationsIn(settled, rest));
    ReplySettles(app, event);
    SettledIsNotOlder(app, event, settled);
    NoProofIsHidden(settled, event.updates);
    if best.Some? {
      AdoptionDropsOnlyProven(noted, best.value);
    }
    if i :| 0 <= i < |event.updates| && event.updates[i].0 == id && SeenElsewhere(app, event.updates[i]) {
      ElsewhereIsMigration(settled, event.updates, i);
    } else {
      BreakIsNoted(app, event, id);
    }
  }

  lemma ElsewhereIsMigration(app: App, updates: seq<(Id, View)>, i: nat)
    requires Inside(app) && i < |updates| && SeenElsewhere(app, updates[i])
    ensures updates[i].0 in MigrationsIn(app, updates)
  {
    assert ShowsMigration(app, updates[i].0, updates[i].1);
  }

  lemma BreakIsNoted(app: App, event: Event, id: Id)
    requires Inside(app) && event.Drain?
    requires
      match ActedOn(app, event)
      case Some((Break(terminal, true), Promoted(_, _))) => terminal == id
      case _ => false
    ensures
      var settled := Settled(app, event.updates, event.reply, event.lost);
      id in settled.panes ==> id in settled.migrated
  {
    hide Adopted, AllObserved, Observed;
    ObservingKeepsMove(app.move, event.updates);
    var move := AllObserved(app.move, event.updates).value;
    AdoptionDropsOnlyProven(app.(move := None, migrated := app.migrated + {id}),
                            NewestView(event.reply.value.source, move.source));
  }

  /** So a pane that has been seen elsewhere leaves as soon as a current view omits it. */
  lemma MovedPaneLeaves(app: App, event: Event, i: nat, view: View)
    requires Inside(app) && event.Drain? && !FollowsPromotion(app, event)
    requires i < |event.updates| && SeenElsewhere(app, event.updates[i])
    requires Current(Next(app, event), view) && event.updates[i].0 !in view.terminals
    requires !Promoting(Next(app, event), event.updates[i].0)
    ensures event.updates[i].0 !in Next(Next(app, event), Snapshot(view)).panes
  {
    hide Drained, Adopted;
    var next, id := Next(app, event), event.updates[i].0;
    StepFollows(app, event);
    AdoptionDropsOnlyProven(next, view);
    assert Next(next, Snapshot(view)) == Adopted(next, view);
    if id in next.panes {
      RoundNotes(app, event, id);
    }
  }
}
