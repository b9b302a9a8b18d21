/**
 Following a broken-off pane to its new session. While the reply to a break is awaited, the client
 remembers one snapshot of another view that holds the pane; a snapshot of yet another such view
 replaces it, and with it what was known about the promoted view.
 */
module Promotions {
  import opened Options
  import opened Layouts
  import opened Dividers
  import opened Views
  import opened Adoption

  /** A snapshot that the pending move takes for one of the promoted view. */
  predicate Candidate(move: PendingMove, view: View) {
    && !(view.session == move.sourceSession && view.view == move.sourceView)
    && move.action.Break? && move.action.terminal in view.terminals
  }

  predicate CandidateAt(move: PendingMove, updates: seq<(Id, View)>, i: int) {
    0 <= i < |updates| && Candidate(move, updates[i].1)
  }

  /** A snapshot of the view `view`, with the pane or without it. */
  predicate SeenAt(updates: seq<(Id, View)>, i: int, view: View) {
    0 <= i < |updates| && SameView(updates[i].1, view)
  }

  /** No snapshot of this view among the updates is newer than `revision`. */
  ghost predicate NoneNewer(updates: seq<(Id, View)>, view: View, revision: nat) {
    forall i :: SeenAt(updates, i, view) ==> updates[i].1.revision <= revision
  }

  /** After a newest snapshot of this view, which has the pane, no other view has been seen with it. */
  ghost predicate NewestLast(move: PendingMove, updates: seq<(Id, View)>, view: View) {
    exists i :: CandidateAt(move, updates, i) && NewestLastAt(move, updates, view, i)
  }

  ghost predicate NewestLastAt(move: PendingMove, updates: seq<(Id, View)>, view: View, i: int)
    requires CandidateAt(move, updates, i)
  {
    && SameView(updates[i].1, view) && NoneNewer(updates, view, updates[i].1.revision)
    && forall j :: i < j && CandidateAt(move, updates, j) ==> SameView(updates[j].1, view)
  }

  /** Among these updates is one of this view that is no older than anything in `seen`. */
  ghost predicate BringsNewest(updates: seq<(Id, View)>, seen: seq<(Id, View)>, view: View) {
    exists i :: SeenAt(updates, i, view) && NoneNewer(seen, view, updates[i].1.revision)
  }

  /** The remembered snapshot is the newest one of the last stretch of snapshots of a single view,
      which starts at `from`. */
  ghost predicate Stretch(move: PendingMove, updates: seq<(Id, View)>, from: int, at: int) {
    && 0 <= from <= at && CandidateAt(move, updates, at)
    && (forall j :: from <= j && CandidateAt(move, updates, j) ==>
          SameView(updates[j].1, updates[at].1) && updates[j].1.revision <= updates[at].1.revision)
    && (from == 0
        || (CandidateAt(move, updates, from - 1) && !SameView(updates[from - 1].1, updates[at].1)))
  }

  /** One more snapshot, seen by a move that remembers `promoted`. */
  lemma ObservedPromoted(move: PendingMove, original: PendingMove, view: View)
    requires move.action == original.action && move.sourceSession == original.sourceSession
    requires move.sourceView == original.sourceView
    ensures
      Observed(move, view).promoted ==
      if Candidate(original, view)
         && (move.promoted.None? || !SameView(move.promoted.value, view)
             || move.promoted.value.revision <= view.revision)
      then Some(view) else move.promoted
  {
  }

  lemma {:induction false} RememberedIsLastStretch(move: PendingMove, updates: seq<(Id, View)>)
    requires move.promoted.None?
    ensures AllObserved(Some(move), updates).Some?
    ensures
      match AllObserved(Some(move), updates).value.promoted
      case None => forall i :: !CandidateAt(move, updates, i)
      case Some(view) => exists from, at :: Stretch(move, updates, from, at) && updates[at].1 == view
  {
    hide Observed, Candidate;
    ObservingKeepsMove(Some(move), updates);
    if updates != [] {
      var n := |updates| - 1;
      var init, last := updates[..n], updates[n].1;
      ObservingKeepsMove(Some(move), init);
      RememberedIsLastStretch(move, init);
      var before := AllObserved(Some(move), init).value;
      ObservedPromoted(before, move, last);
      assert forall i :: 0 <= i < n ==> (CandidateAt(move, init, i) <==> CandidateAt(move, updates, i));
      if before.promoted.Some? {
        var from, at :| Stretch(move, init, from, at) && init[at].1 == before.promoted.value;
        if !Candidate(move, last) {
          StretchGrows(move, updates, from, at, at);
        } else if !SameView(before.promoted.value, last) {
          var previous := LastCandidate(move, init, at);
          assert CandidateAt(move, init, previous) && SameView(init[previous].1, before.promoted.value);
          assert Stretch(move, updates, previous + 1, n);
        } else {
          StretchGrows(move, updates, from, at, if before.promoted.value.revision <= last.revision then n else at);
        }
      } else if Candidate(move, last) {
        assert Stretch(move, updates, 0, n);
      }
    }
  }

  lemma StretchGrows(move: PendingMove, updates: seq<(Id, View)>, from: int, at: int, next: int)
    requires updates != []
    requires
      var n := |updates| - 1;
      && Stretch(move, updates[..n], from, at)
      && (Candidate(move, updates[n].1) ==>
        SameView(updates[n].1, updates[at].1)
        && next == if updates[at].1.revision <= updates[n].1.revision then n else at)
      && (!Candidate(move, updates[n].1) ==> next == at)
    ensures Stretch(move, updates, from, next)
  {
    hide Candidate;
    var n := |updates| - 1;
    forall j | from <= j && CandidateAt(move, updates, j)
      ensures SameView(updates[j].1, updates[next].1) && updates[j].1.revision <= updates[next].1.revision
    {
      assert j < n ==> CandidateAt(move, updates[..n], j);
    }
    assert CandidateAt(move, updates[..n], at);
    if from > 0 {
      assert CandidateAt(move, updates[..n], from - 1);
    }
  }

  /** The last snapshot that the move takes for one of the promoted view. */
  lemma {:induction false} LastCandidate(move: PendingMove, updates: seq<(Id, View)>, some: int) returns (last: int)
    requires CandidateAt(move, updates, some)
    ensures some <= last && CandidateAt(move, updates, last)
    ensures forall j :: last < j ==> !CandidateAt(move, updates, j)
  {
    last := |updates| - 1;
    while !CandidateAt(move, updates, last)
      invariant some <= last < |updates|
      invariant forall j :: last < j ==> !CandidateAt(move, updates, j)
      decreases last
    {
      last := last - 1;
    }
  }

  /** The view chosen from the reply and the snapshots is no older than any snapshot of it that has
      been seen before, if and only if the reply is not older itself, or no other view has been seen
      with the pane after a newest of those snapshots. */
  lemma {:induction false} PromotionIsNotADowngradeIff(move: PendingMove, updates: seq<(Id, View)>, reply: View)
    requires move.promoted.None?
    ensures AllObserved(Some(move), updates).Some?
    ensures
      var chosen := NewestView(reply, AllObserved(Some(move), updates).value.promoted);
      NoneNewer(updates, reply, chosen.revision)
      <==> NoneNewer(updates, reply, reply.revision) || NewestLast(move, updates, reply)
  {
    hide AllObserved, Candidate;
    RememberedIsLastStretch(move, updates);
    var promoted := AllObserved(Some(move), updates).value.promoted;
    var chosen := NewestView(reply, promoted);
    if promoted.Some? {
      var from, at :| Stretch(move, updates, from, at) && updates[at].1 == promoted.value;
      if NewestLast(move, updates, reply) {
        NewestLastIsChosen(move, updates, reply, from, at);
      }
      if NoneNewer(updates, reply, chosen.revision) && chosen != reply {
        assert NewestLastAt(move, updates, reply, at);
      }
    }
  }

  lemma NewestLastIsChosen(move: PendingMove, updates: seq<(Id, View)>, view: View, from: int, at: int)
    requires Stretch(move, updates, from, at) && NewestLast(move, updates, view)
    ensures SameView(updates[at].1, view) && NoneNewer(updates, view, updates[at].1.revision)
  {
    hide Candidate;
    var i :| CandidateAt(move, updates, i) && NewestLastAt(move, updates, view, i);
    assert from == 0 || CandidateAt(move, updates, from - 1);
  }

  // ----- Over whole runs -----

  /** The snapshots that the pending move sees with this event. */
  function Watched(app: App, event: Event): seq<(Id, View)> {
    match event
    case Snapshot(view) => [(view.view, view)]
    case Drain(updates, reply, lost) =>
      var best := Classified(Settled(app, updates, reply, lost).view, updates).0;
      updates + if best.Some? then [(best.value.view, best.value)] else []
    case _ => []
  }

  function AllWatched(app: App, events: seq<Event>): seq<(Id, View)>
    decreases |events|
  {
    if events == [] then [] else Watched(app, events[0]) + AllWatched(Next(app, events[0]), events[1..])
  }

  /** The move stays pending while these events happen. */
  predicate StaysPending(app: App, events: seq<Event>)
    decreases |events|
  {
    app.move.Some? && (events == [] || StaysPending(Next(app, events[0]), events[1..]))
  }

  lemma {:induction false} ObservingContinues(move: Option<PendingMove>, a: seq<(Id, View)>, b: seq<(Id, View)>)
    ensures AllObserved(move, a + b) == AllObserved(AllObserved(move, a), b)
  {
    if b == [] {
      assert a + b == a;
    } else {
      ObservingContinues(move, a, b[..|b| - 1]);
      assert (a + b)[..|a + b| - 1] == a + b[..|b| - 1];
    }
  }

  lemma ObservingOne(move: Option<PendingMove>, update: (Id, View))
    ensures AllObserved(move, [update]) == ObservedBy(move, update.1)
  {
    assert [update][..0] == [];
  }

  lemma AdoptingObserves(app: App, view: View)
    ensures Adopted(app, view).move == ObservedBy(app.move, view)
  {
    var observed := app.(move := ObservedBy(app.move, view));
    if Current(observed, view) {
      assert MigrationsReconciled(observed, view).move == observed.move;
    }
  }

  lemma PollingKeepsPending(app: App, reply: Option<Reply>, lost: bool)
    requires MovePolled(app, reply, lost).move.Some?
    ensures MovePolled(app, reply, lost) == app
  {
    hide Adopted;
    if app.move.Some? && reply.Some? {
      var released := app.(move := None);
      match (app.move.value.action, reply.value)
      case (Swap(focus), Swapped(view)) =>
        AdoptingObserves(released, view);
      case (Break(terminal, detached), Promoted(view, source)) =>
        AdoptingObserves(released.(migrated := released.migrated + {terminal}),
                         NewestView(source, app.move.value.source));
      case _ =>
    }
  }

  lemma StepWatches(app: App, event: Event)
    requires app.move.Some? && Next(app, event).move.Some?
    ensures Next(app, event).move == AllObserved(app.move, Watched(app, event))
  {
    hide Adopted, Classified, MovePolled, Observed;
    match event
    case Snapshot(view) =>
      AdoptingObserves(app, view);
      ObservingOne(app.move, (view.view, view));
    case Drain(updates, reply, lost) =>
      var settled := Settled(app, updates, reply, lost);
      var (best, rest) := Classified(settled.view, updates);
      var noted := settled.(migrated := settled.migrated + MigrationsIn(settled, rest));
      if best.Some? {
        AdoptingObserves(noted, best.value);
        ObservingOne(settled.move, (best.value.view, best.value));
        ObservingContinues(app.move, updates, [(best.value.view, best.value)]);
      } else {
        assert updates + [] == updates;
      }
      PollingKeepsPending(app.(move := AllObserved(app.move, updates)), reply, lost);
    case _ =>
  }

  lemma {:induction false} RunWatches(app: App, events: seq<Event>)
    requires StaysPending(app, events)
    ensures After(app, events).move == AllObserved(app.move, AllWatched(app, events))
    decreases |events|
  {
    hide Next, Watched;
    if events != [] {
      StepWatches(app, events[0]);
      RunWatches(Next(app, events[0]), events[1..]);
      ObservingContinues(app.move, Watched(app, events[0]), AllWatched(Next(app, events[0]), events[1..]));
    }
  }

  /** Everything that a move has seen when it is answered, counted from when it was started. */
  function SeenByThen(app: App, events: seq<Event>, answer: Event): seq<(Id, View)>
    requires answer.Drain?
  {
    AllWatched(app, events) + answer.updates
  }

  /** The round that follows a promotion displays it, or a newer snapshot among its own updates. */
  lemma RoundShows(app: App, answer: Event)
    requires Inside(app) && FollowsPromotion(app, answer)
    ensures Next(app, answer).view.Some?
    ensures
      var followed, shown, updates := Followed(app, answer), Next(app, answer).view.value, answer.updates;
      && SameView(shown, answer.reply.value.view) && followed.revision <= shown.revision
      && (forall i :: SeenAt(updates, i, shown) ==> updates[i].1.revision <= shown.revision)
      && (shown.revision == followed.revision
          || exists i :: SeenAt(updates, i, shown) && updates[i].1.revision == shown.revision)
  {
    hide Adopted, Settled, AllObserved, MigrationsIn;
    PromotionSettles(app, answer);
    ObservingKeepsMove(app.move, answer.updates);
    var settled := Settled(app, answer.updates, answer.reply, answer.lost);
    var (best, rest) := Classified(settled.view, answer.updates);
    ClassifiedChoosesNewest(settled.view, answer.updates);
    if best.Some? {
      AdoptionDropsOnlyProven(settled.(migrated := settled.migrated + MigrationsIn(settled, rest)), best.value);
    }
  }

  /** After any run in which a break stays pending, the round that follows its promotion displays a
      view no older than any snapshot of it that the client has seen since it asked, if and only if
      the reply is not older than those, or no other view has been seen with the pane after a newest
      of them, or the round itself brings a snapshot of that view that is as new. */
  lemma FollowingIsNotADowngradeIff(app: App, events: seq<Event>, answer: Event)
    requires Inside(app) && app.move.Some? && app.move.value.promoted.None? && StaysPending(app, events)
    requires FollowsPromotion(After(app, events), answer)
    ensures Next(After(app, events), answer).view.Some?
    ensures
      var move, seen, reply := app.move.value, SeenByThen(app, events, answer), answer.reply.value.view;
      var shown := Next(After(app, events), answer).view.value;
      && SameView(shown, reply)
      && (NoneNewer(seen, reply, shown.revision)
        <==> NoneNewer(seen, reply, reply.revision) || NewestLast(move, seen, reply)
             || BringsNewest(answer.updates, seen, reply))
  {
    hide AllObserved, After, AllWatched, StaysPending, NewestLast, Next;
    var seen := SeenByThen(app, events, answer);
    RunWatches(app, events);
    ObservingContinues(app.move, AllWatched(app, events), answer.updates);
    PromotionIsNotADowngradeIff(app.move.value, seen, answer.reply.value.view);
    RunsStayInside(app, events);
    RoundShows(After(app, events), answer);
  }

  /** It can be older: the pane is seen in B at revision 5, in the next round in C, and then in B at
      revision 3 together with a reply that shows B at revision 2; the client displays revision 3. */
  lemma PromotionCanDowngrade(source: Id, b: Id, c: Id, pane: Id, other: Id)
    requires source != b && source != c && b != c && pane != other
    ensures
      var shown := Pair(source, source, 1, other, pane);
      var live := Pane(false, "");
      var start := App(Some(shown), map[other := live, pane := live], map[], {}, None, Some(pane));
      var rounds := [MoveStarted(other, Break(pane, false)),
                     Drain([(pane, Single(b, b, 5, pane, None))], None, false),
                     Drain([(pane, Single(c, c, 1, pane, None))], None, false)];
      var answer := Drain([(pane, Single(b, b, 3, pane, None))],
                          Some(Promoted(Single(b, b, 2, pane, None), Single(source, source, 2, other, None))), false);
      && Inside(start) && FollowsPromotion(After(start, rounds), answer)
      && Next(After(start, rounds), answer).view == Some(Single(b, b, 3, pane, None))
  {
    hide Next, FollowsPromotion, Followed, Observed;
    var shown := Pair(source, source, 1, other, pane);
    var live := Pane(false, "");
    var start := App(Some(shown), map[other := live, pane := live], map[], {}, None, Some(pane));
    var first, second, third := Single(b, b, 5, pane, None), Single(c, c, 1, pane, None), Single(b, b, 3, pane, None);
    var asking := MoveStarted(other, Break(pane, false));
    var one, two := Drain([(pane, first)], None, false), Drain([(pane, second)], None, false);
    var answer := Drain([(pane, third)],
                        Some(Promoted(Single(b, b, 2, pane, None), Single(source, source, 2, other, None))), false);
    var asked := Next(start, asking);
    MoveBegins(start, other, Break(pane, false));
    OtherViewSeen(asked, pane, first);
    var once := Next(asked, one);
    OtherViewSeen(once, pane, second);
    var twice := Next(once, two);
    AfterThree(start, asking, one, two);
    LastSeenIsRemembered(asked.move.value, first, second, third);
    ObservingOne(twice.move, (pane, third));
    AnswerFollows(twice, answer);
    NewestOfRoundIsShown(twice, pane, third, answer);
  }

  /** The view in which the move was asked for is still displayed. */
  predicate DisplaysSource(app: App) {
    && app.view.Some? && app.move.Some?
    && app.view.value.session == app.move.value.sourceSession && app.view.value.view == app.move.value.sourceView
  }

  lemma MoveBegins(app: App, owner: Id, action: Action)
    requires app.move.None? && app.view.Some?
    ensures
      var view := app.view.value;
      Next(app, MoveStarted(owner, action))
      == app.(move := Some(PendingMove(owner, view.session, view.view, action, None, None)))
  {
  }

  lemma AfterThree(app: App, first: Event, second: Event, third: Event)
    ensures After(app, [first, second, third]) == Next(Next(Next(app, first), second), third)
  {
    hide Next;
    var end := Next(Next(Next(app, first), second), third);
    assert [first, second, third][1..] == [second, third] && [second, third][1..] == [third] && [third][1..] == [];
    assert After(Next(Next(app, first), second), [third]) == After(end, []);
  }

  /** Only the last of three snapshots is remembered when none is of the same view as the one before. */
  lemma LastSeenIsRemembered(move: PendingMove, first: View, second: View, third: View)
    requires Candidate(move, first) && Candidate(move, second) && Candidate(move, third) && move.promoted.None?
    requires !SameView(first, second) && !SameView(second, third)
    ensures Observed(Observed(Observed(move, first), second), third) == move.(promoted := Some(third))
    ensures Observed(Observed(move, first), second) == move.(promoted := Some(second))
  {
    ObservedPromoted(move, move, first);
    ObservedPromoted(Observed(move, first), move, second);
    ObservedPromoted(Observed(Observed(move, first), second), move, third);
  }

  lemma AnswerFollows(app: App, answer: Event)
    requires DisplaysSource(app) && answer.Drain?
    requires app.move.value.action.Break? && !app.move.value.action.detached
    requires answer.reply.Some? && answer.reply.value.Promoted?
    ensures FollowsPromotion(app, answer) && AllObserved(app.move, answer.updates).Some?
    ensures Followed(app, answer)
         == NewestView(answer.reply.value.view, AllObserved(app.move, answer.updates).value.promoted)
  {
    ObservingKeepsMove(app.move, answer.updates);
  }

  /** A round that follows a promotion and brings one snapshot of it that is not older. */
  lemma NewestOfRoundIsShown(app: App, pane: Id, view: View, answer: Event)
    requires Inside(app) && FollowsPromotion(app, answer) && answer.updates == [(pane, view)]
    requires SameView(view, Followed(app, answer)) && Followed(app, answer).revision <= view.revision
    requires Followed(app, answer).terminals == view.terminals
    ensures Next(app, answer).view == Some(view)
  {
    hide AllObserved, Settled, MigrationsIn, Observed;
    PromotionSettles(app, answer);
    var settled := Settled(app, answer.updates, answer.reply, answer.lost);
    assert answer.updates[..0] == [];
    assert Classified(settled.view, answer.updates) == (Some(view), []);
    var noted := settled.(migrated := settled.migrated + MigrationsIn(settled, []));
    MigrationsKeepInside(noted.(move := ObservedBy(noted.move, view)), view);
  }

  /** A round that brings one snapshot of another view, which the client does not display. */
  lemma OtherViewSeen(app: App, pane: Id, view: View)
    requires DisplaysSource(app) && !SameView(app.view.value, view)
    ensures
      var next := Next(app, Drain([(pane, view)], None, false));
      && DisplaysSource(next)
      && next.view == app.view && next.panes == app.panes && next.copies == app.copies
      && next.move == Some(Observed(app.move.value, view))
  {
    hide Observed, AllObserved, MigrationsIn;
    var updates := [(pane, view)];
    ObservingOne(app.move, (pane, view));
    ObservingKeepsMove(app.move, updates);
    var observed := app.(move := AllObserved(app.move, updates));
    assert Settled(app, updates, None, false) == observed;
    assert updates[..0] == [] && Classified(app.view, updates).0 == None;
    assert Next(app, Drain(updates, None, false)) == Drained(app, updates, None, false);
  }
}
