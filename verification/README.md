# ctmux, modelled and proved

A Dafny 4.11 model of the stateful core of ctmux, a tmux-like terminal system: what its terminal
client keeps and shows, how it stays in step with a daemon through late and repeated messages, and
the diagnostic log and protocol negotiation of `ctl-core`. `dafny verify dfyconfig.toml` checks
everything.

Code of the repository that updates state in place is a class here (`Renderer`, `Canvas`, `Store`,
`Reader`, `Pane`, `Client`, `Gesture`, `Model`, `Decoder`, `CopyMode`, `Prompt`); its loops are
loops, and each method's contract ties the new state to a specification function. What the
repository promises is then proved about those functions, over all inputs and all runs.

| file | models | main results |
|---|---|---|
| `Render.dfy` | the diff renderer, `apps/tui/src/render.rs` | `LastFrameIsShown`, `DrawShowsIff`, `OnlyChangesAreWritten` |
| `Drawing.dfy`, `PaneContent.dfy`, `Badges.dfy` | drawing panes and number badges, `apps/tui/src/render.rs` | `Canvas.DrawPanes`, `Canvas.PaneNumbers`, `WholeFrameIsWellFormed` |
| `LogStore.dfy`, `LogSurvival.dfy` | the diagnostic log, `ctl-core/src/observability/storage.rs` | `NewestRecordsSurvive`, `EnoughSurvives` |
| `LogReader.dfy`, `LogRecovery.dfy` | its reader, and store and reader together | `Reader.ReadFiltered`, `RunIsReadBack` |
| `PaneHistory.dfy` | scrollback catch-up, `apps/tui/src/pane.rs` | `HistoryArrives`, `AdoptedHistoryIsExact`, `RunsFeedEverything`, `RunsStayExact` |
| `Layouts.dfy`, `Views.dfy`, `Adoption.dfy` | views and migrations, `apps/tui/src/app.rs`, `migration.rs` | `RetainComposes`, `AxisIsKept`, `AdoptionDropsOnlyProven`, `RunsFollow` |
| `Rounds.dfy` | what a round of updates and replies leads to, `apps/tui/src/app.rs`, `moves.rs` | `RoundDisplays`, `SwapFocuses`, `MoveStaysPendingIff` |
| `Promotions.dfy` | following a moved pane, `apps/tui/src/moves.rs` | `FollowingIsNotADowngradeIff` |
| `Dividers.dfy`, `Drags.dfy` | hit test and drag protocol, `apps/tui/src/divider.rs` | `HitIffInGap`, `HitAddressesOutermostGap`, `DragsAreSafe` |
| `DragTargets.dfy`, `RetainedDrags.dfy` | where drags lead to, and drags on a view that adoption has kept | `DragEndsAtRelease`, `DragGoesWrongIff` |
| `OutputFeed.dfy`, `Utf8.dfy` | the decoder of terminal output, `apps/tui/src/model.rs` | `FragmentsAreInvisible`, `WellFormedIff`, `FragmentedTextIsShown` |
| `KeyDecoder.dfy`, `KeyFrames.dfy` | the decoder of host input, `apps/tui/src/host_input.rs` | `ChunksAsOne`, `StreamIsCut`, `ChunkedPasteIsOneFrameOrNone` |
| `CopyMode.dfy` | wrapping, selection and search, `apps/tui/src/copy.rs` | `WrappedIsUnique`, `CopiesIgnoreWrapping`, `SearchesUndoEachOther`, `SearchesIgnoreWrapping` |
| `Negotiation.dfy`, `VersionText.dfy` | published protocol contracts, `ctl-core/src/component.rs`, `protocol.rs` | `AgreementIsGreatest`, `MatchIsMapEquality`, `ParseInvertsDisplay` |
| `Characters.dfy`, `Tokenizer.dfy`, `CommandGrammar.dfy`, `PromptLine.dfy` | the command prompt, `apps/tui/src/prompt.rs` | `AcceptedIff`, `QuotingRoundTrip`, `Display`, `WalkingBackRestoresDraft`, `HistoryIsNewest` |

## What stands outside

Everything that is not modelled enters as a parameter or as an event that may happen at any time.

- A host terminal is a grid on which overwriting one half of a wide glyph leaves the other half
  unknown, printing from an unknown place or with an unknown pen garbles everything, and the
  cursor is unknown behind the last column (`Render.Apply`).
- A file system performs steps one at a time; a writer may be killed between any two of them and
  between any two bytes (`LogStore.Step`).
- The emulator is an arbitrary state machine (`OutputFeed.Machine`), or the record of its base and
  all it has been fed (`PaneHistory.Emulator`); the key parser, the record parser, the layout
  library and the table of character widths are arbitrary functions.
- The daemon of `Drags` applies a request as the reference function of the divider tests does
  (`apps/tui/src/divider.rs`, lines 318-334) when the request is for its revision, raises its
  revision with every change of geometry, and shares its view with other writers.

## Where the code does less than one might expect

- A screen that is resized and back to its old size between two draws may have lost its content, but
  the renderer only sees a frame of the same size, and compares it with the one it drew before.
  `Render.ResizedBackIsNotRepaired` is such a run and `Render.DrawShowsIff` the exact condition for a
  draw to show its frame: every glyph that it skips is on the screen already.
- A divider can be dragged on a view that the daemon no longer has. While the last screen of an
  exited pane is kept, an adopted view changes only the revision and zoom on display; a drag on the
  old geometry then carries the new revision, and the daemon applies it to its own tree.
  `RetainedDrags.KeptScreenMisdirectsDrag` is such a case, for every layout library that can move the
  divider, and `RetainedDrags.DragGoesWrongIff` the exact condition: a pane was kept that the view
  adopted last no longer has, which is the guard in `adopt_view`, and the drag can ask for something
  that the daemon would do to its own tree, which no client can know. Without a kept pane drags are
  safe (`Drags.DragsAreSafe`).
- Following a broken-off pane can display an older snapshot of its new session than one already seen: a
  snapshot of yet another view that holds the pane makes the client forget.
  `Promotions.PromotionCanDowngrade` is such a run, and `Promotions.FollowingIsNotADowngradeIff` the
  exact condition on what was seen, with what the answering round itself brings.
- The count of rows above a pane's screen is that of the rows which copy mode freezes when the pane has
  the width of its terminal (`CopyMode.LegacyHistory.Freeze`); until the terminal has followed a new
  size, it need not be (`CopyMode.CountDependsOnWidth`).
- A log line that was cut and then ended by a later append is read whenever it parses. Reading gives
  exactly the whole records if and only if none does (`LogRecovery.RunIsReadBack`); a record that
  lacks only its newline is whole.
- The focus can leave the displayed view: when a view that zooms a pane is adopted while the screen
  of an exited pane is kept, the zoomed pane is focused although the kept view does not have it.
  `Adoption.FocusCanLeaveTheView` is such a view, `Adoption.FocusIsDisplayedIff` the exact condition.
- Stripping a view of all its terminals leaves its split tree as it was; `Adoption.AdoptionKeepsConsistency`
  shows that such a view is never displayed.
- The client's prediction of a divider request clears the zoom and the reference daemon does not; the
  two agree because a drag starts only on an unzoomed view, which `Drags.Valid` carries along.
- A character wider than the viewport has its first cell scrolled out of it: `CopyMode.CopyMode.Fit`
  states exactly when the first cell is visible.
- Combining marks at the very start of a prompt have no character to be drawn on and are not shown
  (`PromptLine.GroupsCutText`).

## Model

| member | source | states |
|---|---|---|
| `Render.DrawShowsIff` | apps/tui/src/render.rs:609-659 | main result: over any run of draws for any size, invalidations and disturbances of the screen at any time and in any way, a frame drawn then is shown exactly if and only if every glyph that this draw skips was on the screen (the whole frame, when it is the one drawn before and nothing is written) |
| `Render.LastFrameIsShown` | apps/tui/src/render.rs:604-659 | main result: over any run in which each disturbance comes after an invalidation or with another size than that of the last frame, the screen after a draw that fits it shows exactly that frame: every glyph, pen and the cursor, although overwriting half of a wide glyph garbles its other half |
| `Render.ResizedBackIsNotRepaired` | apps/tui/src/app.rs:993-997 | a run that resizes the screen and back between two draws of one frame, which then is not shown |
| `Render.WrittenShowsIff` | apps/tui/src/render.rs:624-659 | one repaint, full or by difference, shows the frame if and only if every glyph that it skips was on the screen, from any screen without half glyphs |
| `Render.CellsOverlook` | apps/tui/src/render.rs:632-652 | the scan never repairs a glyph that it skips |
| `Render.ExecuteKeepsCoherent` | apps/tui/src/render.rs:624-659 | whatever is written, also for another size, leaves no half glyph on the screen |
| `Render.CellsPaint` | apps/tui/src/render.rs:632-652 | the scan in row order reaches the end with every cell painted, given only true beliefs about the host's cursor and pen |
| `Render.PlaceAdvances` | apps/tui/src/render.rs:636-652 | printing a changed glyph keeps all cells before it right and spoils no later cell that will be skipped as unchanged |
| `Render.SkipAdvances` | apps/tui/src/render.rs:636-641 | skipping a width-0 cell or an unchanged cell is sound: the screen already shows it |
| `Render.NotOnSecondHalf` | apps/tui/src/render.rs:636-652 | the scan never prints on the second half of a glyph it has to keep |
| `Render.GlyphEffect` | apps/tui/src/render.rs:642-652 | eliding a cursor move or a pen change has the same effect as emitting it |
| `Render.PlaceEffect` | apps/tui/src/render.rs:650-651 | what overwriting does to the host cells: the glyph's own cells, and the halves it cuts |
| `Render.StepKeepsSynced` | apps/tui/src/render.rs:609-622 | every event that is announced keeps the remembered frame and the screen in agreement, unless the frame has been forgotten or has another size |
| `Render.OnlyChangesAreWritten` | apps/tui/src/render.rs:624-659 | main result: a repaint prints exactly the glyphs that differ from those of a frame of the same size drawn before, once each and in order, and moves the cursor and resets the pen between them only where its own commands have not done so |
| `Render.Renderer.Invalidate` | apps/tui/src/render.rs:609-611 | forgets the previous frame |
| `Render.Renderer.Draw` | apps/tui/src/render.rs:613-622 | draws nothing for an equal frame, else the repaint; remembers the frame |
| `Render.Renderer.Write` | apps/tui/src/render.rs:624-659 | the two nested loops emit exactly the specified command sequence |
| `Badges.BadgeKeepsPairsIff` | apps/tui/src/render.rs:112-182 | on any row of cells, after painting a badge all wide glyphs are whole or gone if and only if the badge does not touch its bounds where a glyph reaches over them |
| `Badges.Canvas.Set` | apps/tui/src/render.rs:72-76 | changes one cell inside the grid, nothing outside of it |
| `Badges.Canvas.ClearBadgeGlyphs` | apps/tui/src/render.rs:161-182 | outside the badge exactly the other halves of cut glyphs become blanks with their own pen, and only inside the pane |
| `Badges.Canvas.PaintNumber` | apps/tui/src/render.rs:139-158 | a number that does not fit changes nothing; else the whole number is painted, padded when that fits, centred in the pane |
| `Badges.Canvas.Paint` | apps/tui/src/render.rs:148-158 | the whole new grid after one badge, with the exact condition for whole glyphs |
| `Badges.Canvas.PaneNumbers` | apps/tui/src/render.rs:112-159 | main result: on every frame on which panes have been drawn, the number of every pane in which it fits is to be read in its middle, nothing else changes but in these rows, and the badges never leave half a glyph |
| `Badges.BorderedIsNeverCut` | apps/tui/src/render.rs:112-182 | the exception of the equivalence never applies in a pane whose bounds no glyph reaches over |
| `Badges.DrawnIsPaired` | apps/tui/src/render.rs:207-291 | and no glyph reaches over the bounds of a drawn pane, nor is there half a glyph anywhere |
| `Badges.Canvas.DrawPanes` | apps/tui/src/render.rs:207-291 | main result: after drawing any panes that do not overlap, scrolled anyhow, every cell in sight of a pane shows what belongs there: the cell of its terminal, its label, or the character of its frozen text; half glyphs are nowhere, and all other cells are as they were |
| `Badges.Canvas.DrawPane` | apps/tui/src/render.rs:221-282 | one pane, live or frozen, with its label: its visible part shows its content cell by cell, and nothing else changes |
| `Badges.Canvas.DrawLines` | apps/tui/src/render.rs:225-254 | each cell in sight shows the cell of the terminal's line and column that belongs there, or what was there where the terminal has none or the other half of the glyph is out of sight |
| `Badges.Canvas.DrawRow` | apps/tui/src/render.rs:233-253 | the loop over one line draws exactly the cells in sight that are not half of a cut glyph |
| `Badges.Canvas.DrawLabel` | apps/tui/src/render.rs:267-282 | the label covers the first row of its pane, if that is in sight, and no other |
| `Badges.Canvas.CopyRegion` | apps/tui/src/render.rs:370-439 | each cell in sight shows the frozen character that takes it, if all of that is in sight, of the row and column scrolled there |
| `Badges.Canvas.CopyRow` | apps/tui/src/render.rs:379-438 | one frozen line: exactly the characters that are wholly in sight, each on its cells |
| `Badges.Canvas.DrawDividers` | apps/tui/src/render.rs:315-359 | every cell of the canvas in sight that no pane covers gets its divider, upright behind a pane and level elsewhere; no other cell changes |
| `Badges.Canvas.Text` | apps/tui/src/render.rs:78-98 | a line of text replaces its row, and all rows stay whole |
| `Drawing.DrawnIsWhole` | apps/tui/src/render.rs:233-253 | skipping half glyphs at the edges of the viewport and of the pane is enough: what is drawn of a whole line is whole, wherever it is cut off |
| `Drawing.OneMoreDrawn` | apps/tui/src/render.rs:221-290 | drawing one more pane keeps all others whole |
| `PaneContent.OneMoreShown` | apps/tui/src/render.rs:221-290 | drawing one more pane keeps what the others show |
| `PaneContent.DrawnRowShows` | apps/tui/src/render.rs:233-253 | the cells of a drawn row, told by their column in the pane |
| `PaneContent.OneMoreGlyph` | apps/tui/src/render.rs:379-438 | frozen characters do not overlap |
| `Drawing.WholeAreasPair` | apps/tui/src/render.rs:207-291 | whole panes and narrow cells make a frame without half glyphs |
| `Drawing.WholeFrameIsWellFormed` | apps/tui/src/render.rs:34-39 | a frame of whole rows is what the renderer takes for well-formed (joins drawing to `Render.LastFrameIsShown`) |
| `LogStore.NewestRecordsSurvive` | ctl-core/src/observability/storage.rs:50-100 | main result: over any run of appends, each killed at any step or byte or complete, all segments stay within the limit and the lines on disk stand one for one for what was written less the oldest pieces, exactly as many as were in the segments that full rotations have removed |
| `LogStore.AttemptEffect` | ctl-core/src/observability/storage.rs:50-100 | one append killed anywhere destroys nothing, or exactly the lines of segment 3 when it rotates with segments 2 and 3 present and gets to its second step, and adds just what it wrote as a line of its own |
| `LogStore.CompleteAppendIsLast` | ctl-core/src/observability/storage.rs:50-100 | an append that is not killed leaves its record whole at the end of the log |
| `LogStore.AppendFailsIff` | ctl-core/src/observability/storage.rs:61-70 | an append is refused exactly for a record of more than 2048 bytes, or a segment over its limit |
| `LogStore.CompleteAppendRotatesIff` | ctl-core/src/observability/storage.rs:50-100 | all segments after a complete append: it adds to segment 0, behind a newline if that is missing, if and only if the record and one more byte fit; otherwise segments move up over segment 3 and the record is alone in segment 0 |
| `LogStore.RotationMoves` | ctl-core/src/observability/storage.rs:71-87 | every segment moves up by one place over the one there, but for a segment 3 with no segment 2, which stays |
| `LogStore.RotationKilled` | ctl-core/src/observability/storage.rs:71-87 | rotation killed at any step: no segment is damaged, order is kept, only the oldest is dropped |
| `LogStore.RepairKilled` | ctl-core/src/observability/storage.rs:88-97 | the repair ends a torn line and changes no other one |
| `LogStore.PreparingKilled` | ctl-core/src/observability/storage.rs:71-97 | before the record is written there is room for it, in a file that ends with a whole line |
| `LogStore.FillingKilled` | ctl-core/src/observability/storage.rs:71-99 | preparing and writing, killed at any byte |
| `LogStore.SplitIsExact` | ctl-core/src/observability/storage.rs:233-234 | cutting a file into lines loses nothing and cuts behind every newline only |
| `LogStore.Store.Append` | ctl-core/src/observability/storage.rs:50-100 | carries out exactly the planned file steps, or fails with the right error before touching a record |
| `LogStore.Store.Rotate` | ctl-core/src/observability/storage.rs:71-87 | the loop over the segments performs the rotation steps and opens an empty segment 0 |
| `LogStore.Store.Terminate` | ctl-core/src/observability/storage.rs:88-97 | adds the missing newline if there is one missing |
| `LogStore.Store.WriteAll` | ctl-core/src/observability/storage.rs:98 | writes the record byte by byte |
| `LogSurvival.EnoughSurvives` | ctl-core/src/observability/storage.rs:50-100 | main result: from an empty log, after any run, either nothing has been lost or the newest lines, of at least twice a segment's limit less a record, survive |
| `LogSurvival.DroppingIsRemoving` | ctl-core/src/observability/storage.rs:74-84 | an append destroys lines if and only if removing segment 3 is among the steps it has done |
| `LogSurvival.AttemptPacks` | ctl-core/src/observability/storage.rs:71-99 | segments 1 to 3 are always nearly full, and an append that destroys lines leaves two nearly full segments |
| `LogSurvival.RunPacks` | ctl-core/src/observability/storage.rs:50-100 | the same over runs |
| `LogSurvival.RotationPacks` | ctl-core/src/observability/storage.rs:74-84 | the same for a rotation killed at any step |
| `LogSurvival.LinesHoldSegments` | ctl-core/src/observability/storage.rs:233-234 | the lines hold all bytes of all segments |
| `LogReader.Reader.ReadFiltered` | ctl-core/src/observability/storage.rs:129-203 | main result: returns the first `limit` of one stable sort of all matching records in visit order, reversed; reports whether every line was readable; never holds more than twice the limit; rejects a bad limit or an oversized segment |
| `LogReader.NewestGrows` | ctl-core/src/observability/storage.rs:231-262 | sorting and cutting off early never changes which records are kept later |
| `LogReader.NewestOfNewest` | ctl-core/src/observability/storage.rs:305-313 | sorting and cutting off again changes nothing |
| `LogReader.StableSortIsUnique` | ctl-core/src/observability/storage.rs:305-311 | there is only one stable sort, so the specification fixes the result of any stable sorting routine |
| `LogReader.SortIsStable` | ctl-core/src/observability/storage.rs:305-311 | the sorting function is a stable sort by time and run |
| `LogReader.KeptAreNewest` | ctl-core/src/observability/storage.rs:305-313 | as many records are kept as the limit allows, in order of time and run, and none that is omitted is newer than one that is kept |
| `LogReader.VisitedBackwards` | ctl-core/src/observability/storage.rs:221-236 | segment by segment from their ends, the reader meets every line of a run once, newest first |
| `LogReader.Reader.KeepNewest` | ctl-core/src/observability/storage.rs:305-313 | sorts and truncates the collection |
| `LogReader.Reader.Visit` | ctl-core/src/observability/storage.rs:236-262 | one line: selected, left out by the filter, or reported as unreadable |
| `LogReader.Reader.ReadLines` | ctl-core/src/observability/storage.rs:233-263 | the lines of a segment from its end |
| `LogReader.Reader.ReadRun` | ctl-core/src/observability/storage.rs:205-266 | one run, after which at most `limit` records are held |
| `LogRecovery.RunIsReadBack` | ctl-core/src/observability/storage.rs:205-266 | main result, for store and reader together: after any appends of a process, each killed anywhere, its segments are readable and exactly the whole surviving records that match are selected, newest first, if and only if no torn line can be read as a record |
| `LogRecovery.RunsAreReadBack` | ctl-core/src/observability/storage.rs:129-203 | the same for any number of processes, in the order in which `ReadFiltered` visits them |
| `LogRecovery.WholeRecordsAreRead` | ctl-core/src/observability/storage.rs:236-262 | for any parser: every whole record is selected, in order, and whatever else is selected comes from a torn line |
| `LogRecovery.TornLinesHideNothing` | ctl-core/src/observability/storage.rs:236-262 | exactly the whole records are read if and only if no torn line is taken for a matching record |
| `LogRecovery.MisreadIsRepaired` | ctl-core/src/observability/storage.rs:88-97 | only a record cut by more than its newline, whose line a later append has ended, can be misread |
| `LogRecovery.MissingNewlineIsNotTorn` | ctl-core/src/observability/storage.rs:88-97 | a record that lacks only its newline is whole again once a later append has ended its line |
| `LogRecovery.CompleteAttemptIsWhole` | ctl-core/src/observability/storage.rs:98-99 | an append that is not killed contributes its whole record |
| `LogRecovery.LineOfPiece` | ctl-core/src/observability/storage.rs:88-97 | what the line of a complete or cut record can be |
| `LogRecovery.LinesOfLife` | ctl-core/src/observability/storage.rs:50-100 | after any run, each line on disk belongs to one surviving record, in order |
| `PaneHistory.RunsStayExact` | apps/tui/src/pane.rs:452-544 | main result: in every state of every run the terminal has been fed everything since its checkpoint once and in order, the queue is a gapless chain, its size equals its bytes and is bounded, and a running job fits it |
| `PaneHistory.RunsAdoptOnlyExactHistory` | apps/tui/src/pane.rs:452-670 | main result, from a fresh pane on: after any run, a projection that the next job end adopts belongs to the current snapshot and has been fed exactly the output since its boundary, and the queue has the size it says |
| `PaneHistory.AdoptedHistoryIsExact` | apps/tui/src/pane.rs:633-670 | main result: the end of a job adopts its projection if and only if the job did not panic, the library restored and fed everything, the replay has reached the pane's sequence and the screens agree; then it is the snapshot of the current checkpoint fed exactly the output from the boundary on |
| `PaneHistory.JobEndDecides` | apps/tui/src/pane.rs:633-670 | what every job end leads to: a failed job, or one that disagrees, shows a gap and requests one checkpoint; one that is behind is continued from where it ended; one that has caught up and agrees is adopted, with a gap exactly when rows were missing or dropped |
| `PaneHistory.JobSucceedsIff` | apps/tui/src/pane.rs:546-576 | when a job succeeds, how far it reaches, and when its result has a gap |
| `PaneHistory.ReplaySucceedsIff` | apps/tui/src/pane.rs:128-147 | a replay succeeds if and only if the library feeds every chunk, and has a gap if and only if one drops rows |
| `PaneHistory.HistoryArrives` | apps/tui/src/pane.rs:452-711 | main result: from any state, a checkpoint with a history, the rows of this history, and any output within 4 MiB before and after them end, when the jobs end well, in a terminal with these rows fed just that output, without another checkpoint being asked for |
| `PaneHistory.HistoryIsAdopted` | apps/tui/src/pane.rs:704-711 | jobs that end well bring the projection to the terminal when no output arrives any more |
| `PaneHistory.RunsFeedEverything` | apps/tui/src/pane.rs:452-544 | main result: after any run, and whatever has been adopted in it, the terminal has been fed what the events since the last checkpoint say, and is based on that checkpoint |
| `PaneHistory.HistoryStartsJob` | apps/tui/src/pane.rs:506-576 | rows of the current checkpoint start a job that ends where the terminal stands; others change nothing |
| `PaneHistory.OutputIsQueued` | apps/tui/src/pane.rs:475-497 | output is queued up to the limit, and behind it the history is given up with a gap and a request |
| `PaneHistory.GeometryCancels` | apps/tui/src/pane.rs:498-505 | a new size gives the history up silently |
| `PaneHistory.JobsRunOut` | apps/tui/src/pane.rs:704-711 | every job end without new output, by a panic or not, brings the catching up closer to its end |
| `PaneHistory.JobEndKeepsValid` | apps/tui/src/pane.rs:633-670 | after a job that has not caught up, the next one ends exactly where the live terminal stands |
| `PaneHistory.StepKeepsValid` | apps/tui/src/pane.rs:452-544 | every event keeps the invariant |
| `PaneHistory.ResultOfJob` | apps/tui/src/pane.rs:546-576 | a finished job has replayed the output up to the end of some queued chunk; it never reports a gap |
| `PaneHistory.ReplayOfChain` | apps/tui/src/pane.rs:128-147 | replaying a chain of chunks ends at its end with its data fed in order |
| `PaneHistory.RestOfChain` | apps/tui/src/pane.rs:649-658 | filtering the queue by sequence keeps exactly what has not been replayed |
| `PaneHistory.ReplayHistory` | apps/tui/src/pane.rs:128-147 | the loop over chunks, stopping at a gap or a failed feed |
| `PaneHistory.Pane.CancelHistory` | apps/tui/src/pane.rs:672-679 | drops snapshot, queue, size and job |
| `PaneHistory.Pane.ReceiveOutput` | apps/tui/src/pane.rs:475-497 | feeds the terminal, and queues the chunk or gives up at the byte limit |
| `PaneHistory.Pane.ReceiveCheckpoint` | apps/tui/src/pane.rs:454-474 | starts over from the checkpoint's screen |
| `PaneHistory.Pane.ApplyEvent` | apps/tui/src/pane.rs:452-544 | the state after any event |
| `PaneHistory.Pane.PublishHistoryResult` | apps/tui/src/pane.rs:633-670 | adopts, replays the rest, ignores or gives up |
| `PaneHistory.Pane.FinishEndedHistory` | apps/tui/src/pane.rs:704-711 | the loop ends after at most two jobs, each with its own ending, and leaves none, with the pane's stream untouched; the state is that after these jobs, and when they end well the terminal has its history |
| `Layouts.RetainLayout` | apps/tui/src/migration.rs:104-135 | the rebuilding recursion with its loop over children computes the retained tree |
| `Layouts.RetainKeepsLeaves` | apps/tui/src/migration.rs:104-135 | exactly the terminals that were not removed remain, in order |
| `Layouts.RetainIsWellFormed` | apps/tui/src/migration.rs:104-135 | no split with a single child appears; weights belong to all children or to none |
| `Layouts.SlotKeepsWeight` | apps/tui/src/migration.rs:112-130 | a surviving child keeps its place among its siblings and its weight |
| `Layouts.RetainNothingRemoved` | apps/tui/src/migration.rs:104-135 | removing nothing is the identity on well-formed trees |
| `Layouts.RetainComposes` | apps/tui/src/migration.rs:104-135 | removing A and then B is removing their union, on all trees |
| `Layouts.AxisIsKept` | apps/tui/src/migration.rs:104-135 | main result: any two terminals that stay lie apart along the same axis as before, whatever else has left |
| `Adoption.RunsFollow` | apps/tui/src/app.rs:754-889 | main result: after any run, and then as long as the client follows no promotion, over any late, repeated, reordered and foreign snapshots with move replies the displayed view keeps its identity, its revision never falls, panes leave only on proof of a move or when dismissed, and exited panes keep their last screen |
| `Adoption.AdoptionDropsOnlyProven` | apps/tui/src/app.rs:847-889 | exactly the panes known to have moved, omitted by the current incoming view and not being broken off by this client leave; the revision is the newer one |
| `Adoption.StepFollows` | apps/tui/src/app.rs:754-889 | every step of every run: it follows a promotion as specified, or it respects identity, revision and panes |
| `Adoption.PromotionStepPromotes` | apps/tui/src/moves.rs:232-258 | following a promotion shows the promoted view no older than the reply, keeps exactly the panes that belong to it, with their copies, unless the same round proves that they have moved on, and clears the marks |
| `Adoption.RunsStayInside` | apps/tui/src/app.rs:482-506 | in every state of every run, promotions included, panes belong to the displayed view and copies to panes |
| `Adoption.AdoptionShowsViewIff` | apps/tui/src/app.rs:870-887 | a current view is displayed as it is if and only if no kept pane is missing from it; otherwise the old terminals, panes and tree stay, less those that have left, under the new revision and zoom |
| `Adoption.ClassifiedChoosesNewest` | apps/tui/src/app.rs:807-821 | the update to adopt is the last of the newest ones of the displayed view, found whenever there is one; updates of other views are left over |
| `Adoption.NoProofIsHidden` | apps/tui/src/app.rs:807-822 | choosing an update to adopt hides no proof of a migration |
| `Adoption.ObservingKeepsNewest` | apps/tui/src/moves.rs:27-49 | the pending move remembers a newest snapshot of its source view, whatever the order of arrival |
| `Promotions.FollowingIsNotADowngradeIff` | apps/tui/src/app.rs:754-826 | main result: after any run of events during which the move stays pending, the round that follows its promotion displays a view no older than any snapshot of it seen since the break was asked for, if and only if the reply is not older, or no other view was seen with the pane after a newest such snapshot, or the round itself brings a snapshot of the view that is as new |
| `Promotions.RoundShows` | apps/tui/src/app.rs:804-826 | that round displays the view installed by the reply, or the newest later snapshot of it among its updates |
| `Promotions.PromotionIsNotADowngradeIff` | apps/tui/src/moves.rs:27-49 | the view chosen from the reply and the remembered snapshot is no older than any snapshot of it seen before, if and only if the reply is not, or no other view was seen with the pane after a newest such snapshot |
| `Promotions.PromotionCanDowngrade` | apps/tui/src/moves.rs:36-48 | a run of three rounds that sees revision 5 of a view and ends with its revision 3 on display |
| `Promotions.RememberedIsLastStretch` | apps/tui/src/moves.rs:36-48 | the promoted snapshot is the newest one of the last stretch of snapshots of one view |
| `Promotions.RunWatches` | apps/tui/src/moves.rs:27-49 | in a run, a pending move has observed exactly the updates of each round and each view that was adopted |
| `Rounds.RoundDisplays` | apps/tui/src/app.rs:754-826 | main result: a round that follows no promotion displays the newest of all views that it offers for the displayed one (updates, the view of an acknowledged swap, the source of an acknowledged detached break), and keeps the displayed one if all are older; that view is displayed as it is when it has every pane that is kept |
| `Rounds.SwapFocuses` | apps/tui/src/moves.rs:126-131 | main result: an acknowledged swap puts the focus on its pane whenever that is displayed and no later view has been adopted in the round, or has been without zooming |
| `Rounds.AdoptionFocuses` | apps/tui/src/app.rs:847-889 | where the focus is after an adoption: on the zoomed pane, else where it was if that is displayed, else on the first pane |
| `Rounds.PromotionFocuses` | apps/tui/src/moves.rs:232-258 | a round that follows a promotion, and adopts no later view, displays just the promoted view, with the focus in it |
| `Rounds.RoundKeepsFocus` | apps/tui/src/app.rs:754-826 | a displayed pane keeps the focus in a round without a reply and a zoom |
| `Rounds.MoveStaysPendingIff` | apps/tui/src/moves.rs:106-160 | a move is pending after a round if and only if it was, its source view is displayed, and neither a reply nor the end of its time has come |
| `Rounds.RoundNotes` | apps/tui/src/app.rs:822-826 | a pane that an update shows in another session, or whose detached break is acknowledged, is noted as moved |
| `Rounds.MovedPaneLeaves` | apps/tui/src/migration.rs:20-100 | so it leaves as soon as a current view omits it |
| `Adoption.ExitedPanesAreNotProvenBySnapshots` | apps/tui/src/migration.rs:7-29 | a snapshot never proves the move of an exited pane; only its own confirmed detached break does |
| `Adoption.AdoptionKeepsConsistency` | apps/tui/src/migration.rs:31-102 | the displayed split tree always has exactly the displayed terminals |
| `Adoption.FocusIsDisplayedIff` | apps/tui/src/app.rs:482-567 | exact condition under which the focus is on a displayed pane after an adoption |
| `Adoption.FocusCanLeaveTheView` | apps/tui/src/app.rs:867-886 | a concrete view after which it is not |
| `Adoption.Client.ObserveView` | apps/tui/src/moves.rs:27-49 | records a snapshot in the pending move |
| `Adoption.Client.ObserveMigrations` | apps/tui/src/migration.rs:7-29 | the loop over updates collects exactly the panes shown elsewhere |
| `Adoption.Client.ReconcileMigrations` | apps/tui/src/migration.rs:31-102 | strips departed panes from view, panes, copies and marks |
| `Adoption.Client.Reconcile` | apps/tui/src/app.rs:482-567 | closes panes that are not displayed and moves the focus |
| `Adoption.Client.AdoptView` | apps/tui/src/app.rs:847-889 | the whole new state, and the panes that leave |
| `Adoption.Client.AdoptPromotion` | apps/tui/src/moves.rs:232-282 | detached: mark and adopt; followed: install the promoted view |
| `Adoption.Client.PollPaneMove` | apps/tui/src/moves.rs:106-160 | the reply is acted on, or the move released |
| `Adoption.Client.Classify` | apps/tui/src/app.rs:807-821 | the loop that splits updates |
| `Adoption.Client.Drain` | apps/tui/src/app.rs:754-845 | one round: observe, settle the move, classify, note migrations, adopt |
| `Dividers.HitIffInGap` | apps/tui/src/divider.rs:17-112 | main result: on a tiled, unzoomed layout a point is on a divider if and only if it is inside the area and in no pane |
| `Dividers.HitAddressesOutermostGap` | apps/tui/src/divider.rs:17-69 | path and boundary lead to a split whose gap passes through the point, and no ancestor on the way has such a gap |
| `Dividers.FoundDividerIsThere` | apps/tui/src/divider.rs:29-69 | the same for every published tree and any rectangles, tiled or not |
| `Dividers.GapIsFound` | apps/tui/src/divider.rs:29-69 | a point of a tiled area in no pane is found |
| `Drags.DragsAreSafe` | apps/tui/src/divider.rs:133-260 | main result, from the start of a client and a daemon, over any run with other writers and with drags on any view that may be displayed: at most one request of a drag is on its way, and a drag that ends by itself had its release target acknowledged last; as long as drags start on views displayed as published, no request is applied to another geometry than the confirmed one and no applied reply fails; any that is or does was made for a view never published as displayed |
| `Drags.RunsStayValid` | apps/tui/src/divider.rs:133-260 | the invariant over any run, with lost and late replies and several drags: no two requests of one drag are on their way |
| `Drags.DaemonAppliesToConfirmedGeometryIff` | apps/tui/src/divider.rs:169-208 | the daemon applies a request to the geometry it was made for if and only if that was published; then its effect is the predicted one |
| `Drags.RunsStayClean` | apps/tui/src/divider.rs:133-260 | drags on published views stay on published geometry |
| `RetainedDrags.DragGoesWrongIff` | apps/tui/src/app.rs:1365-1407 | main result: a drag begun after adopting the daemon's newest view can have a request applied to another geometry, in some run, if and only if the client keeps a pane that this view no longer has and the drag can ask for something that the daemon would apply; and the same for requests that change the daemon's geometry; the first is the branch of `adopt_view` that keeps the old geometry |
| `RetainedDrags.KeptScreenMisdirectsDrag` | apps/tui/src/app.rs:870-884 | a concrete case: one pane exits beside another, a third joins, and dragging the divider on display gives the daemon another layout of its own two panes, whichever one its layout library computes; the applied reply then fails the drag |
| `RetainedDrags.RunsKeepHeld` | apps/tui/src/divider.rs:169-208 | over any run, the only requests for an unpublished geometry are those of the one drag that started on it |
| `Drags.AppliedRepliesMatch` | apps/tui/src/divider.rs:225-248 | every applied reply of a drag whose confirmed view was published equals its prediction: it is confirmed and its broadcast accepted |
| `Drags.FinishedDragsReachedTheirTarget` | apps/tui/src/divider.rs:257-259 | a drag that ends without a failed acknowledgement has its release target as its last acknowledged request |
| `DragTargets.DragEndsAtRelease` | apps/tui/src/divider.rs:158-260 | main result: over any run, a drag that ends by itself ends where the button was released: that position, read off the pointer's events alone, is the last acknowledged one |
| `DragTargets.DragFollowsPointer` | apps/tui/src/divider.rs:158-167 | over any run a drag aims at the last place of the pointer, saturated, and at nothing later than the release |
| `DragTargets.FlushAsks` | apps/tui/src/divider.rs:169-189 | a flush asks for the changed target in the confirmed view when nothing is under way, and else for nothing |
| `DragTargets.FlushEndsDragIff` | apps/tui/src/divider.rs:257-259 | when a flush ends the drag |
| `DragTargets.ReplyAdvancesDrag` | apps/tui/src/divider.rs:225-248 | what a reply does to a drag: a late one nothing, a rejection ends it, an applied one is confirmed with its position |
| `DragTargets.BroadcastEndsDragIff` | apps/tui/src/divider.rs:212-223 | a broadcast ends the drag if and only if it shows a geometry that the drag has not brought about |
| `Drags.StepKeepsValid` | apps/tui/src/divider.rs:133-260 | every event of client, daemon, other writers and network keeps the invariant |
| `Drags.Gesture.MoveTo` | apps/tui/src/divider.rs:158-167 | saturating target along the axis; nothing after the release |
| `Drags.Gesture.NextRequest` | apps/tui/src/divider.rs:169-189 | a request only when none is pending and the target has changed |
| `Drags.Gesture.AcceptsView` | apps/tui/src/divider.rs:212-223 | confirmed, previous or predicted geometry |
| `Drags.Gesture.Acknowledge` | apps/tui/src/divider.rs:225-248 | ignored, confirmed or failed, with the new state |
| `OutputFeed.FragmentsAreInvisible` | apps/tui/src/model.rs:179-221 | main result: any fragmentation of the output gives the same emulator state, pending bytes and replies as one feed |
| `OutputFeed.HeadIsMaximalSubpart` | apps/tui/src/model.rs:184-217 | ill-formed input is consumed by maximal subparts (section 3.9 of the Unicode Standard, Table 3-7) |
| `Utf8.WellFormedIff` | apps/tui/src/model.rs:184-217 | main result: the bytes taken for a character are exactly the encodings of Unicode scalar values (section 3.9 of the Unicode Standard) |
| `Utf8.TextIsShown` | apps/tui/src/model.rs:179-221 | an encoded text is taken apart into its characters, with nothing left |
| `Utf8.FragmentedTextIsShown` | apps/tui/src/model.rs:179-221 | so the emulator is fed exactly the characters of a text, in whatever fragments it arrives |
| `OutputFeed.DecodingContinues` | apps/tui/src/model.rs:179-221 | decoding in two parts is decoding at once |
| `OutputFeed.ValidUpToDecodes` | apps/tui/src/model.rs:184-200 | the prefix reported as valid is exactly the characters before the first error |
| `OutputFeed.Model.Feed` | apps/tui/src/model.rs:179-221 | the draining loop: new state, replies, and at most three pending bytes |
| `OutputFeed.Model.FeedText` | apps/tui/src/model.rs:186-199 | feeds whole characters in order, collecting replies |
| `OutputFeed.Model.Restore` | apps/tui/src/model.rs:53-60 | state and pending bytes after a checkpoint |
| `OutputFeed.RestoredPrefixContinues` | apps/tui/src/model.rs:53-60 | a checkpoint that cuts a character loses nothing |
| `KeyDecoder.ChunksAsOne` | apps/tui/src/host_input.rs:136-259 | main result: timed chunks whose gaps are under the escape delay give the same frames as one feed, and states that differ at most in the escape's time |
| `KeyDecoder.PasteIsOneFrameOrNone` | apps/tui/src/host_input.rs:141-223 | a bracketed paste is one frame when its payload is at most 1 MiB and none otherwise; then the decoder is idle |
| `KeyDecoder.ChunkedPasteIsOneFrameOrNone` | apps/tui/src/host_input.rs:136-250 | the same for any chunks with any gaps, when the reader does not pause for an escape's delay behind the first or second byte of the start marker |
| `KeyDecoder.FramesStayBounded` | apps/tui/src/host_input.rs:136-203 | after every byte a non-paste frame has fewer than 256 bytes and a paste is cut off |
| `KeyFrames.StreamIsCut` | apps/tui/src/host_input.rs:136-230 | main result: the frames of a stream are those of the keys, control sequences, mouse reports, pastes and double escapes into which it is cut, in order; then the decoder is idle |
| `KeyFrames.ChunkedStreamIsCut` | apps/tui/src/host_input.rs:136-259 | the same for chunks without a pause of an escape's delay |
| `KeyFrames.KeyIsFramed` | apps/tui/src/host_input.rs:193-203 | bytes about whose beginnings the event parser is undecided are one frame when it takes them for complete, and none when they are broken or too long |
| `KeyFrames.SequenceIsFramed` | apps/tui/src/host_input.rs:166-190 | a control sequence with its parameters and its final byte is one frame of at most 256 bytes; a longer one is none, up to its final byte |
| `KeyFrames.ReportIsFramed` | apps/tui/src/host_input.rs:176-180 | six bytes of a mouse report are one frame, whatever the last three are |
| `KeyFrames.EscapesSplit` | apps/tui/src/host_input.rs:145-147 | two escapes that no bracket follows are a frame of their own, and what follows is read as if it had come alone |
| `KeyFrames.EscapesExpire` | apps/tui/src/host_input.rs:232-250 | an escape, two escapes, and an escape with a bracket or a capital O are handed over after the delay, the last two as Alt with the second byte, and not before |
| `KeyDecoder.MarkersDoNotOverlap` | apps/tui/src/host_input.rs:141-165 | the payload length never underflows |
| `KeyDecoder.WaitEndsAtExpiry` | apps/tui/src/host_input.rs:252-259 | the poll timeout ends exactly when an escape expires, and is bounded |
| `KeyDecoder.Decoder.Feed` | apps/tui/src/host_input.rs:136-203 | expires and accepts byte by byte: new state and emitted frames |
| `KeyDecoder.Decoder.DiscardByte` | apps/tui/src/host_input.rs:205-223 | how a discarded sequence or paste ends |
| `KeyDecoder.Decoder.AcceptPaste` | apps/tui/src/host_input.rs:141-165 | a growing paste is completed, cut off or continued |
| `KeyDecoder.Decoder.AcceptSequence` | apps/tui/src/host_input.rs:166-190 | a growing control sequence is completed, cut off or continued |
| `KeyDecoder.Decoder.AcceptByte` | apps/tui/src/host_input.rs:136-203 | one byte outside a discard |
| `KeyDecoder.Decoder.Finish` | apps/tui/src/host_input.rs:225-230 | hands over the frame and clears it |
| `KeyDecoder.Decoder.Expire` | apps/tui/src/host_input.rs:232-250 | a lone escape is handed over after its delay |
| `CopyMode.CopiesIgnoreWrapping` | apps/tui/src/copy.rs:86-109 | main result, with the next row: what is copied is the slice of the newline-ended lines between its two end characters, with the marks on the last one, at every width and in either direction |
| `CopyMode.SelectionIsSlice` | apps/tui/src/copy.rs:332-358 | the same for any frozen rows, wrapped here or by a terminal |
| `CopyMode.WrappedKeepsDocument` | apps/tui/src/copy.rs:86-109 | wrapping at any width keeps the text |
| `CopyMode.WrappedFits` | apps/tui/src/copy.rs:86-109 | every row fits the width unless one character is wider, a soft row is never empty, and no row starts with a mark of the row before |
| `CopyMode.WrappedIsUnique` | apps/tui/src/copy.rs:86-109 | main result: the wrapped rows are the only ones that hold the text, fit, unless one character is wider, and are broken only where the next character does not fit |
| `CopyMode.WrappedBreaksLate` | apps/tui/src/copy.rs:90-101 | a row is continued in the next one only if the first character there does not fit behind it |
| `CopyMode.TightIsUnique` | apps/tui/src/copy.rs:86-109 | two ways of wrapping a text as full as the width allows are the same |
| `CopyMode.CursorsIncrease` | apps/tui/src/copy.rs:4-8 | positions are ordered as the text is |
| `CopyMode.PositionOf` | apps/tui/src/copy.rs:459-478 | every character of the text is at one position |
| `CopyMode.SearchesUndoEachOther` | apps/tui/src/copy.rs:459-501 | from a match, a forward and a backward search undo each other |
| `CopyMode.SearchesIgnoreWrapping` | apps/tui/src/copy.rs:459-501 | a search finds the same occurrence of the text at every width |
| `CopyMode.CopyMode.Search` | apps/tui/src/copy.rs:459-501 | moves to the least match after the cursor (greatest before it), else around the end, else reports no match and stays |
| `CopyMode.ScanPage` | apps/tui/src/copy.rs:469-492 | the one pass over the rows finds first, last, next and previous among exactly the occurrences in lines rejoined over soft rows |
| `CopyMode.ScanLine` | apps/tui/src/copy.rs:476-488 | the loop over the windows of one logical line |
| `CopyMode.CopyMode.SelectedText` | apps/tui/src/copy.rs:318-358 | the loops over rows and marks compute the slice; none without a selection or beyond the rows |
| `CopyMode.WrapLines` | apps/tui/src/copy.rs:86-109 | the wrapping loops compute the wrapped rows |
| `CopyMode.CountRows` | apps/tui/src/model.rs:112-133 | the counting loop agrees with what wrapping the same lines gives |
| `CopyMode.LegacyHistory.SetHistory` | apps/tui/src/model.rs:70-73 | a new text is counted |
| `CopyMode.LegacyHistory.ClearHistory` | apps/tui/src/model.rs:75-78 | a cleared text counts no rows |
| `CopyMode.LegacyHistory.Resize` | apps/tui/src/model.rs:165-177 | the count is renewed for the new width, and the text cleared when rows are evicted |
| `CopyMode.LegacyHistory.AdoptProjection` | apps/tui/src/model.rs:80-94 | an adopted projection clears the text, a refused one changes nothing |
| `CopyMode.LegacyHistory.HistoryRows` | apps/tui/src/model.rs:102-108 | the rows above the primary screen: the text as wrapped at the width of the terminal and the terminal's own rows; none behind the alternate screen |
| `CopyMode.LegacyHistory.Freeze` | apps/tui/src/app.rs:1051-1059 | copy mode freezes the text above a primary screen at the width of the pane on the canvas, then the rows of the terminal; when both widths are equal, as many rows are above these as were counted |
| `CopyMode.CountDependsOnWidth` | apps/tui/src/app.rs:1034-1055 | at another width it may take another number |
| `CopyMode.CopyMode.FromRows` | apps/tui/src/copy.rs:112-133 | the wrapped text followed by the rows of a terminal as they are, with the cursor on the last row |
| `CopyMode.CopyMode.NewWrapped` | apps/tui/src/copy.rs:86-109 | the frozen mode: width 0 counts as 1, the cursor is on the last row |
| `CopyMode.CopyMode.Fit` | apps/tui/src/copy.rs:174-191 | the cursor goes to the nearest place on the text; the viewport moves no farther than needed to have its row and its character in sight; its first cell is visible if and only if the character fits the width |
| `CopyMode.CopyMode.PositionAt` | apps/tui/src/copy.rs:219-242 | the character drawn under a viewport cell, for either half of a wide one; behind the end of a row its last character that takes cells |
| `CopyMode.CharacterAt` | apps/tui/src/copy.rs:226-241 | the search for it along a row |
| `CopyMode.CoverIsUnique` | apps/tui/src/copy.rs:226-241 | no two characters are drawn on one cell |
| `Negotiation.AgreementIsGreatest` | ctl-core/src/protocol.rs:154-193 | main result: the agreed version is the greatest common one and of the greatest common build; none if and only if nothing is common |
| `Negotiation.NegotiationIsSymmetric` | ctl-core/src/protocol.rs:140-166 | either peer may do it |
| `Negotiation.NegotiationIgnoresOrder` | ctl-core/src/protocol.rs:154-166 | the order of advertised versions does not matter |
| `Negotiation.NegotiationNeverFalls` | ctl-core/src/protocol.rs:154-166 | more versions never lead to a lower agreement |
| `Negotiation.MatchIsMapEquality` | ctl-core/src/component.rs:80-108 | main result: the one-sided loops decide equality of the maps from names to contracts with version sets, on valid advertisements |
| `Negotiation.MatchIsAnEquivalence` | ctl-core/src/component.rs:90-108 | matching is reflexive on valid advertisements, symmetric and transitive |
| `Negotiation.MatchingPeersNegotiateAlike` | ctl-core/src/component.rs:55-61 | matching advertisements agree alike with everyone under every name |
| `Negotiation.SameContractIff` | ctl-core/src/component.rs:97-106 | the one-sided comparison of versions is equality of the sets |
| `Negotiation.Pigeonhole` | ctl-core/src/component.rs:92-108 | distinct elements that all occur in an equally long distinct sequence leave no room for others |
| `VersionText.ParseInvertsDisplay` | ctl-core/src/protocol.rs:38-81 | main result: a text is read as a version if and only if the version is valid and is written as that text |
| `VersionText.DisplayIsParsed` | ctl-core/src/protocol.rs:38-81 | every valid version is read back, within 17 bytes |
| `VersionText.ParsedIsDisplay` | ctl-core/src/protocol.rs:58-81 | only the canonical writing is accepted |
| `VersionText.ValueIsPositional` | ctl-core/src/protocol.rs:58-81 | the first digit of a number has the greatest weight |
| `Tokenizer.QuotingRoundTrip` | apps/tui/src/prompt.rs:620-683 | main result: any list of words, each written with single quotes, double quotes or backslashes, is read back if and only if the line has at most 4096 bytes and no word a control character |
| `CommandGrammar.AcceptedIff` | apps/tui/src/prompt.rs:620-683 | main result: a line is accepted as certain words if and only if it is short, free of control characters and made of plain and escaped characters, quoted parts and white space that spell these words |
| `CommandGrammar.RefusedBecause` | apps/tui/src/prompt.rs:633-682 | and which error it gets otherwise: by its length, its control characters, and by what stands behind its longest legal part |
| `Tokenizer.WordsComeFromLine` | apps/tui/src/prompt.rs:620-683 | words hold only characters of the line, so never control characters |
| `Tokenizer.RequotingKeepsCommand` | apps/tui/src/prompt.rs:620-683 | the words of any accepted command can be written in quotes and read again |
| `Tokenizer.LineIsRead` | apps/tui/src/prompt.rs:633-682 | reading a quoted line behind any words already read |
| `Tokenizer.QuotedIsRead` | apps/tui/src/prompt.rs:633-682 | a quoted word is read as that word, wherever it starts |
| `Tokenizer.Tokenize` | apps/tui/src/prompt.rs:620-683 | the loop over the characters computes the words or the first error |
| `PromptLine.Display` | apps/tui/src/prompt.rs:276-307 | main result: the row is never exceeded, groups are never split, all groups between the scroll start and the cursor are shown and the cursor is right after them, as many groups as fit are shown, and scrolling goes no farther than needed |
| `PromptLine.GroupsCutText` | apps/tui/src/prompt.rs:325-343 | groups are the text after its leading marks, each one character with its marks, taking its cells |
| `PromptLine.GroupsBeforeCursor` | apps/tui/src/prompt.rs:283-286 | the cursor is always between groups: those before it take the cells of the text before it |
| `PromptLine.DisplayGroups` | apps/tui/src/prompt.rs:325-343 | the loop that cuts the text into groups |
| `PromptLine.Scrolled` | apps/tui/src/prompt.rs:287-295 | the scrolling loop stops where the cursor fits, so that the final clamp changes nothing |
| `PromptLine.Filled` | apps/tui/src/prompt.rs:296-304 | the filling loop takes as many groups as fit |
| `PromptLine.WalkingBackRestoresDraft` | apps/tui/src/prompt.rs:210-239 | walking up any distance and down again restores the unfinished line and its cursor |
| `PromptLine.ArrowsShowEntry` | apps/tui/src/prompt.rs:210-239 | main result: after any arrow keys the entry of one's place in the history is shown with the cursor at its end, and behind the last entry the line that was being written |
| `PromptLine.RememberedKept` | apps/tui/src/prompt.rs:191-202 | the history stays bounded, without blank commands and without the same one twice in a row, and ends with the command just submitted |
| `PromptLine.HistoryIsNewest` | apps/tui/src/prompt.rs:191-202 | main result: after any commands the history is the newest hundred of those that are neither blank nor repetitions in a row |
| `PromptLine.Prompt.OpenText` | apps/tui/src/prompt.rs:61-69 | starts with the cursor at the end |
| `PromptLine.Prompt.Open` | apps/tui/src/prompt.rs:55-58 | starts an empty command |
| `PromptLine.Prompt.Insert` | apps/tui/src/prompt.rs:162-176 | inserts the longest part that keeps the line within 4096 bytes; the byte cursor stays between characters |
| `PromptLine.Prompt.Remove` | apps/tui/src/prompt.rs:178-184 | removes whole characters between two offsets |
| `PromptLine.Prompt.Backspace` | apps/tui/src/prompt.rs:91-94 | removes the character before the cursor |
| `PromptLine.Prompt.Delete` | apps/tui/src/prompt.rs:95 | removes the character at the cursor |
| `PromptLine.Prompt.MoveLeft` | apps/tui/src/prompt.rs:87 | one character back, however many bytes it has |
| `PromptLine.Prompt.MoveRight` | apps/tui/src/prompt.rs:88 | one character on |
| `PromptLine.Prompt.PreviousHistory` | apps/tui/src/prompt.rs:210-224 | one entry up; the unfinished line is put aside first |
| `PromptLine.Prompt.NextHistory` | apps/tui/src/prompt.rs:226-239 | one entry down, or back to the unfinished line |
| `PromptLine.Prompt.Submit` | apps/tui/src/prompt.rs:191-202 | returns the line and remembers it |
| `PromptLine.FittingPrefix` | apps/tui/src/prompt.rs:162-170 | the counting loop of the insertion |

## Left out

- Terminal emulation, styles and colours, key and mouse parsing, and the serializers: arbitrary functions of the model.
- Sockets, tasks, timers and file locks: only their effects are events, such as a job that ends, an attachment that is lost or a writer that is killed.
- I/O errors in the middle of a draw or an append: a draw is complete.
- Render.DrawShowsIff: assumes that the host agrees with the frame about the width of a character, and that a disturbed screen holds no half of a glyph.
- Badges.Canvas.DrawPanes: assumes that the lines of the emulator hold no half glyphs, that labels of exited panes are narrow, and that panes do not overlap, as the daemon publishes them; the colours of dividers are a parameter.
- Badges.Canvas.PaneNumbers: painted on drawn panes without an overlay, with the scrolling with which they were drawn, since every key and every mouse press dismisses the numbers before it can open an overlay or start a drag.
- The cursor of a frame while it is drawn, and the inversion of selected characters.
- File permissions, symlink checks, the audit database, legacy file names and the warning texts of the log store; the list of runs is a parameter.
- LogStore.NewestRecordsSurvive: for segment limits of at least one record (2048 bytes), which the only limit in use, 5 MiB, is; a power failure that loses unsynced bytes is not modelled.
- LogRecovery.RunIsReadBack: for any record parser; which cut records the log's own text format would accept is not part of the model.
- Acknowledgements, leases and the resize and move correlation queues of a pane, and its reconnection.
- The gap that the emulator itself reports when it drops rows, in addition to that of a history.
- `split`, session switching and archives, which install a view unconditionally.
- Drags.DragsAreSafe: a broadcast that the drag does not accept may drop it at any time here, also an outdated one that the source ignores.
- Mouse capture, notices and their failures during adoption; the order in which panes are drained.
- Adoption.Client.ReconcileMigrations: does not model the controllers that are closed with a pane nor the repaint it causes.
- Divider geometry allocation of the daemon; `Dividers.Tiled` is what the published rectangles satisfy.
- Which output makes the emulator evict rows or clear its saved lines is a parameter of `CopyMode.LegacyHistory.Feed`, and so are the emulator's own rows in copy mode and their count.
- OutputFeed.Model.Restore: the emulator is replaced by a given blank one; the flag for extended keys is part of the state machine.
- KeyDecoder.ChunksAsOne: for states whose frames are within the limits, which `KeyDecoder.FramesStayBounded` shows of every state reached from the idle one.
- Scrolling, mouse dragging and key bindings of copy mode, styled rows and the notice texts.
- CopyMode.CopiesIgnoreWrapping: a character is given with its width; that equal characters have equal widths is the table's business.
- Copy mode's parallel vectors of rows and wrap flags are one sequence of rows with flags here; both constructors give them equal lengths.
- Width counters of copy mode saturate in the source at the machine's word and do not here.
- Tokenizer.Tokenize: the texts of its messages are one error constructor each.
- PromptLine.Display: the saturating subtractions of the source are plain ones here, since the proof shows that they never saturate.
- Completion, paste filtering, word deletion and the parsing of commands of the prompt.
- Legacy protocol metadata, build information and the serialized form of offers.
