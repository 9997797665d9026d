# A verified model of the signal engine's bookkeeping

The engine ranks stocks, sizes a book from the ranking, records each run in a ledger, and later
works out how every recorded signal ended. This project models the parts of it that decide how
much of each name is held, what a past run said, how a trade closed, and whether two runs can
ever collide, and proves what those parts promise.

| module | models |
|---|---|
| `WaterFill`, `Selection`, `Book` | `build_book`'s choice of names with a hysteresis band, dividing the capital under liquidity caps, whole shares (`book.py`) |
| `Circuit`, `Resolver`, `ResolverLaws`, `Rebasing` | the bar-by-bar resolution of one signal, and what cannot change its answer (`indicators/circuit.py`, `outcomes.py`) |
| `Resolution` | scoring every pending call exactly once (`outcomes.py`) |
| `JobProtocol`, `JobManagers` | the single-flight job protocol over every interleaving, and its manager (`jobs.py`) |
| `Ledgers`, `OpenPositions` | lineage repair, ambiguity, the previous run, and the book carried from run to run (`ledger.py`, `positions.py`, `pipeline.py`) |
| `Merging` | merging re-entries into positions (`performance.py`) |
| `Identities`, `Overlay` | the combined version hash and the configuration tree (`config/`) |
| `Calendar`, `Cadence` | the entry clock (`cadence.py`) |
| `Breadth`, `Drawdowns` | the participation ratio and the drawdown flag (`v3_monitor.py`) |
| `BandedBook` | the simulated hysteresis book over a history of rebalances, and its agreement with `build_book` (`turnover_2026_09.py`) |

Loops and objects of the source are methods and classes here, each proved equal to a function of
its input or old state; the lemmas are about those functions. Floating-point numbers are `real`,
dates and time stamps are ordinals, and files and tables are sequences and maps.

`dafny verify dfyconfig.toml` checks the whole project.

## Findings

Where a property holds only under a condition, the condition is stated with it, both ways unless
said otherwise.

* The allocator funds every tradable name whatever the liquidity caps are if and only if the
  capital is above one rupee and at least one rupee a name (`WaterFill.FundingGuarantee`). Even
  below that, no more than one rupee of the placeable capital stays unplaced
  (`WaterFill.PlacesTheCapital`).
* A terminal job row is not always final. The worker's first write is unconditional, and a cancel
  or a reap that has already read the row still writes over whatever it finds. A terminal state
  survives every continuation exactly when none of these is in flight
  (`JobProtocol.TerminalIsFinalExactlyWhen`), and from an empty table a run exists in which a
  cancel overwrites a COMPLETED job (`JobManagers.CompletedCanBeCancelled`).
* Lineage repair leaves the live history readable, and every lookup of it unambiguous, exactly when
  every live row it cannot date agrees with the rest of its date
  (`Ledgers.ConflictFreeExactlyWhen`, `Ledgers.RepairMakesLookupTotal`). Two live rows of one date
  without a recording day are enough to break that (`Ledgers.StraysCanDisagree`).
* Re-basing the stored prices changes no decision, except that a basis factor outside
  [0.001, 1000] is refused, in either direction (`Rebasing.RebasingChangesNoDecision`).
* A held name silent for ninety sessions or more is told to hold: its last print is no longer
  among the sessions read, and a missing history measures as no silence. The comment in
  `src/prosignal/pipeline.py:736-739` says the opposite; the model follows the code
  (`OpenPositions.ReviewMeasuresSilence`, `OpenPositions.NoHistoryIsHeld`).
* `Ledger.open_book` loses no position between runs (`OpenPositions.HeldExactlyWhen`). The run
  itself reads only the issued names (`src/prosignal/pipeline.py:236`), which is the same book
  exactly when no hold directive adds a name (`Ledgers.IssuedIsTheBookExactlyWhen`).
* Merging re-entries conserves the leg count exactly when no row that re-enters a name still held
  had been merged before (`Merging.LegsConservedExactlyWhen`). Every caller in the repository passes
  rows that never were, and those keep every leg (`Merging.FreshRowsKeepTheirLegs`); a row that
  carries `merged_legs` loses them (`Merging.LegsCanBeLost`).
* A local overlay keeps the configuration hash exactly when, prose aside, every setting it lays is
  read as what is already in force there, whatever the fields normalise and default
  (`Overlay.KeepsHashExactlyWhen`). An overlay of the log level alone keeps it exactly when it names,
  in either case, the level set, or the default if none is (`Overlay.LevelKeepsHashExactlyWhen`).
* Overlays do not associate. Which is merged first matters exactly when a plain value in the middle
  one hides a mapping whose settings would have survived (`Overlay.GroupingIsIrrelevantExactlyWhen`).
  The loader lays a single overlay, so it never has to choose.
* In the simulated book a held name leaves exactly when it is unscored or past the exit rank, at
  every rebalance of every run, if and only if the exit rank is at least the number of slots and below the
  rank given to unscored names (`BandedBook.LeavesExactlyWhen`). The experiment's own grid stays
  inside that range (`research/v3/experiments/turnover_2026_09.py:202`).
* The combined version does not tell its components apart: listing them in any other order leaves
  it unchanged (`Identities.ComponentsAreInterchangeable`).
* `review_drawdown` raises on a curve that is not empty and never above zero: every drop is NaN and
  `np.nanargmin` refuses it (`Drawdowns.MeasuredExactlyWhen`).
* A fall measured from the running peak is the deepest one exactly when it does not end below zero,
  or the curve has stood at no other positive height (`Drawdowns.PeakFallIsDeepestExactlyWhen`).

## Model

| member | source | states |
|---|---|---|
| WaterFill.ShareRises | src/prosignal/book.py:244-256 | after a capping round the names still open are left strictly more than the previous share each, so the share only rises |
| WaterFill.CappingRound | src/prosignal/book.py:244-252 | one capping round in terms of the whole division: what it closes, what it leaves, and that the division of the rest completes it |
| WaterFill.FillConserves | src/prosignal/book.py:237-262 | amounts plus cash equal the capital, no cap is exceeded, and more than a rupee is left only when every name is at its cap |
| WaterFill.PlacesTheCapital | src/prosignal/book.py:243-262 | the total placed is min(capital, sum of caps) when every name is funded, and short of it by at most one rupee always |
| WaterFill.FillHasLevel | src/prosignal/book.py:243-256 | one water level: every funded name holds min(its cap, the level) |
| WaterFill.FundedLevel | src/prosignal/book.py:243-256 | whoever is funded at all, one level fills every funded name, to its cap or to the level, which is no less than an equal part of the capital |
| WaterFill.MaxMinFair | src/prosignal/book.py:243-256 | any feasible division that gives one name more gives less to a name that had no more than it |
| WaterFill.EveryNameFunded | src/prosignal/book.py:243 | with more than a rupee and a rupee a name, the guard `remaining > 1.0` never leaves an open name unfunded |
| WaterFill.SomeNameStarved | src/prosignal/book.py:243 | below that capital there are caps under which some name is left unfunded |
| WaterFill.FundingGuarantee | src/prosignal/book.py:243-256 | all names are funded under all caps if and only if the capital exceeds one rupee and covers a rupee a name |
| Selection.IncumbentKept | src/prosignal/book.py:181-204 | a held name keeps its slot exactly when it is inside the exit band and fewer than the target count of held names rank above it |
| Selection.NewcomerChosen | src/prosignal/book.py:181-204 | a new name enters exactly when it is inside the entry band and the new names above it leave it room |
| Selection.ChoosesTargetCount | src/prosignal/book.py:181-204 | the selector always chooses min(target count, universe size) names |
| Selection.WiderBandAdmitsFewer | src/prosignal/book.py:181-204 | a wider exit band only turns fresh entries away |
| Selection.ChoiceIsStable | src/prosignal/book.py:181-204 | on the same ranking, holding what was chosen, the choice is a fixed point with no fresh entry |
| Selection.BandMattersExactlyWhen | src/prosignal/book.py:186-204 | the choice differs from the top of the ranking exactly when some held name has drifted past the target inside the exit band and some name above the target is not held |
| Book.Divide | src/prosignal/book.py:239-256 | the loop hands out the water-filling division, and each name's binding says whether its cap or the equal share decided |
| Book.CapRound | src/prosignal/book.py:246-252 | a capping round of the loop leaves the owed division unchanged |
| Book.PlaceShares | src/prosignal/book.py:264-274 | positions are the names that buy a share, in rank order, each the largest whole number of shares its amount buys |
| Book.WholeShares | src/prosignal/book.py:267-269 | truncating to whole shares loses less than the price of one share, and buys none exactly when one costs more than the amount |
| Book.RankOrderTotals | src/prosignal/book.py:264-276 | listing the funded names by rank keeps their total |
| Book.Allocate | src/prosignal/book.py:209-279 | the whole of `_allocate`: screening, caps, division, rounding, notes, entries and exits, and its two ways of raising |
| Book.SizeBook | src/prosignal/book.py:123-151 | equal weight over a list already selected, or the empty book with its note |
| Book.BuildBook | src/prosignal/book.py:154-206 | the hysteresis selection, as `Book.SelectionMeans` states it, followed by the allocation, or the empty book with its note |
| Book.SelectionMeans | src/prosignal/book.py:115-204 | what `build_book` selects, name by name, with the percentiles and bounds of the spec written out: an incumbent inside the exit band below fewer than the target count of others, a newcomer among the first so many that the incumbents leave a slot |
| Book.SelectionShape | src/prosignal/book.py:115-204 | it selects the target count of names, or all there are, each once, none from elsewhere, best first |
| Book.PositionsMean | src/prosignal/book.py:215-274 | every position from the market and the spec alone: what can be sized, the room its traded value leaves, whole shares of the smaller of room and level, value, weight, rank and whether it was held; with capital for every name, a name is bought exactly when that buys a share |
| Book.BookMeans | src/prosignal/book.py:264-279 | ranks rise, the invested fraction times the capital is what was bought, entries are the names bought and not held, exits the names held and not bought |
| Book.InvestedMeans | src/prosignal/book.py:276 | what was bought is the sum of the position values |
| Book.NotesMean | src/prosignal/book.py:217-232 | every chosen name that cannot be sized is noted with its cause, in order and first; if none can, the book is empty and says so |
| Book.LeftoversMean | src/prosignal/book.py:237-274 | the notes that follow: the capital not handed out, if more than a rupee, and each funded name whose amount is less than its price; and for each position whether its room or the equal share decided |
| Book.ErrorsMean | src/prosignal/book.py:237-276 | it raises exactly when a name that can be sized is missing from the liquidity table, or there is such a name and no capital |
| Book.NeverLevered | src/prosignal/book.py:209-279 | the invested value never exceeds the capital |
| Book.FullyInvested | src/prosignal/book.py:237-276 | with room under the caps the idle cash is less than one share of each name |
| Book.RebalanceTradesNothing | src/prosignal/book.py:154-279 | if an equal share of the capital and the cap of each selected name buy a share, every selected name is bought, and building again while holding that book enters and exits nothing |
| Circuit.UntradeableMeans | src/prosignal/indicators/circuit.py:52-99 | a bar is untradeable exactly when its volume is known and nothing traded or only one price was available |
| Circuit.LockedMeans | src/prosignal/indicators/circuit.py:33-82 | a band lock is one price, traded, within six tenths of a percent of two, five, ten or twenty percent from the close before and at least one and a half percent from it, up or down |
| Resolver.Walk | src/prosignal/outcomes.py:540-632 | the bar-by-bar loop computes the declarative ending, whose every field `ResolverLaws.EndingMeans` states from the bars |
| Resolver.ResolveOne | src/prosignal/outcomes.py:504-678 | the whole resolution, with the open, refused and closed paths |
| ResolverLaws.ClosedExactlyWhen | src/prosignal/outcomes.py:552-632 | a trade closes exactly when some tradable bar triggers or the whole window has elapsed |
| ResolverLaws.ExitBar | src/prosignal/outcomes.py:552-627 | the exit bar is the first that fires, stop ranks before target before engine exit, and a time exit means none fired |
| ResolverLaws.StopFill | src/prosignal/outcomes.py:566-590 | a stop never fills above the stop and is a gap exactly when it filled below; a target fills at the target |
| ResolverLaws.CircuitMarkers | src/prosignal/outcomes.py:556-632 | the circuit markers appear exactly when a locked bar breached the stop before the exit |
| ResolverLaws.ExcursionsAreBounds | src/prosignal/outcomes.py:552-560 | the recorded excursions bound every bar of the hold and are attained |
| ResolverLaws.EndingMeans | src/prosignal/outcomes.py:540-632 | the walk from its bars, levels and books alone: it closes exactly when some bar ends it or the window has elapsed, and every field recorded - fill, return, excursions, levels touched, circuit markers - follows |
| ResolverLaws.EngineExitIsTaken | src/prosignal/outcomes.py:595-605 | an exit the engine decided at the last tradable close, or at the entry, is taken no later than the next tradable bar |
| ResolverLaws.ResolveMeans | src/prosignal/outcomes.py:504-538 | the whole resolution from the signal and the stored bars: the entry bar, the basis and its bounds, the levels carried over, and the bars walked |
| ResolverLaws.EndingIsLocal | src/prosignal/outcomes.py:552-632 | the ending of a trade depends on no bar past its exit and no book from its exit day on |
| ResolverLaws.EarlierBarsDoNotMatter | src/prosignal/outcomes.py:513-538 | bars before the signal session play no part, however far back the history is read |
| ResolverLaws.NoLookAhead | src/prosignal/outcomes.py:504-678 | two histories that agree from the signal to the exit, with books that agree before the exit, resolve alike |
| ResolverLaws.RefusalIsFinal | src/prosignal/outcomes.py:525-530 | a refusal for want of a price basis cannot be lifted by later sessions |
| ResolverLaws.AppendingChangesNothing | src/prosignal/outcomes.py:504-678 | appending sessions, with books that agree before the exit, never changes an answer already given |
| Rebasing.EndingKept | src/prosignal/outcomes.py:534-632 | scaling every price scales the four recorded prices and moves no decision, return or excursion |
| Rebasing.RebasingChangesNoDecision | src/prosignal/outcomes.py:456-501 | re-basing any history changes nothing but prices, and refuses exactly the bases outside the bounds, whichever side the old basis was on |
| Resolution.BookOfTheStandingRun | src/prosignal/outcomes.py:281-303 | the book of a date is what its latest-stamped completed run signalled, the last of equals |
| Resolution.BookByDateOf | src/prosignal/outcomes.py:281-303 | the scan computes the books that `Resolution.BooksMean` states from the runs |
| Resolution.BooksMean | src/prosignal/outcomes.py:281-303 | a date has a book exactly when some run of it completed, even one that signalled nothing, and the book is what the standing run of the date signalled |
| Resolution.LaterRunsKeepBooks | src/prosignal/outcomes.py:281-303 | runs of later sessions leave every earlier book alone |
| Resolution.PendingOf | src/prosignal/outcomes.py:317-356 | the scan of `_pending`, with its two filters and its own set of calls seen |
| Resolution.PendingIsOnePerCall | src/prosignal/outcomes.py:317-356 | pending calls are distinct, none is on file, and no eligible call is lost |
| Resolution.CandidatesMean | src/prosignal/outcomes.py:331-335 | records are read run by run and in order, each with whether its run signalled it |
| Resolution.PendingMeans | src/prosignal/outcomes.py:330-356 | the pending calls, in ledger order, are each the first record of its call that was signalled, has a stop and has no row under the current rule for its run or its session; none is lost |
| Resolution.ReadIsEnough | src/prosignal/outcomes.py:403-409 | the price frames read from the earliest pending call on resolve every pending call as the whole history would |
| Resolution.OutcomeFile.ResolvePending | src/prosignal/outcomes.py:359-438 | rows are only appended, one per call that ended; pending = resolved + still open + refused on the path that resolves |
| Resolution.NewRowsFacts | src/prosignal/outcomes.py:402-436 | every appended row is a pending call that closed, one row each |
| Resolution.ReadMeans | src/prosignal/outcomes.py:402-408 | the price frames come back empty exactly when the store holds no bar of a pending name as late as some pending call |
| Resolution.FileMeans | src/prosignal/outcomes.py:374-438 | the file after a visit: what it held, and one row for each pending call the resolver closes, in order, with the run, ticker, session, rule and outcome; refusals counted likewise |
| Resolution.VisitKeepsOneRowPerCall | src/prosignal/outcomes.py:374-438 | one visit keeps at most one row per call and removes none |
| Resolution.AtMostOneRowPerCall | src/prosignal/outcomes.py:359-438 | over any sequence of visits the file holds at most one row per call under the current exit rule |
| Resolution.ResolvedStaysResolved | src/prosignal/outcomes.py:374-384 | a call on file is never pending again |
| Resolution.AnswerIndependentOfVisit | src/prosignal/outcomes.py:359-438 | an answer is the same whenever it is asked and whatever else is pending, on any history that from the signal session on the first grows into and any ledger it grows into by runs of the exit session and later; a refusal stands whatever is recorded |
| JobProtocol.StepInv | src/prosignal/jobs.py:225-421 | every step of start, worker, cancel, reap and clock keeps the protocol's invariant |
| JobProtocol.RowAfter | src/prosignal/jobs.py:225-421 | which event writes which state over which, and that nothing else does; kind and creation never change; progress is the worker's, and nine when a job completes |
| JobProtocol.NewRow | src/prosignal/jobs.py:301-309 | a row that was not there is the one `start` inserts, queued, of the kind asked for, created now |
| JobProtocol.WorkerAfter | src/prosignal/jobs.py:310-371 | a worker is spawned by the start that inserted its row and only moves forward, by its own events |
| JobProtocol.ReapReadsOverdue | src/prosignal/jobs.py:231-237 | a reap is about to fail exactly the rows queued or running when it read that were created more than the timeout before; none younger |
| JobProtocol.ReplyAfter | src/prosignal/jobs.py:283-315 | what each reply of `start` says, about which row as it stands, and when it refuses |
| JobProtocol.OthersAreNeverStuck | src/prosignal/jobs.py:317-421 | a live worker, a cancel and the clock always have their next step |
| JobProtocol.AlwaysSingleFlight | src/prosignal/jobs.py:263-371 | over every interleaving at most one worker is alive and at most one row is queued or running |
| JobProtocol.SettledForever | src/prosignal/jobs.py:324-371 | a terminal row with nothing in flight against it keeps its state in every continuation |
| JobProtocol.UnsettledCanChange | src/prosignal/jobs.py:324-329 | otherwise some continuation overwrites it |
| JobProtocol.TerminalIsFinalExactlyWhen | src/prosignal/jobs.py:225-421 | a terminal state is final in every continuation if and only if it is settled |
| JobProtocol.CancelAfterBeginIsFinal | src/prosignal/jobs.py:395-421 | a cancel written after the worker's first write stays, unless a reap has already read the row |
| JobProtocol.RepliesAreHonest | src/prosignal/jobs.py:263-315 | start answers with a job of the kind asked for, or refuses naming another kind or an orphan |
| JobProtocol.OrphanHasARow | src/prosignal/jobs.py:282-300 | a live worker always has a row to report, so start never falls through to a second worker |
| JobProtocol.NextStartCreates | src/prosignal/jobs.py:263-315 | once the last worker ended and live rows timed out, the next start creates a job whatever interleaves |
| JobProtocol.StartIsNeverStuck | src/prosignal/jobs.py:263-315 | a start under way always has a step of its own enabled |
| JobProtocol.StartAdvances | src/prosignal/jobs.py:263-315 | each of its steps brings it closer to its reply and no other step moves it |
| JobProtocol.ClearStartReturns | src/prosignal/jobs.py:263-315 | a start that nothing can refuse returns the job it created within six steps |
| JobProtocol.TimedOutSlotIsClear | src/prosignal/jobs.py:225-252 | such a start is available as soon as the lock is free |
| JobManagers.CompletedCanBeCancelled | src/prosignal/jobs.py:395-421 | from an empty table a run exists that completes a job while a cancel has still to write, and the cancel overwrites it |
| JobManagers.JobManager.ReapStale | src/prosignal/jobs.py:225-252 | a row queued or running that was created before now less the timeout is failed; every other row is left as it was |
| JobManagers.JobManager.ActiveJob | src/prosignal/jobs.py:254-261 | the newest queued or running row, or none exactly when there is none |
| JobManagers.JobManager.Start | src/prosignal/jobs.py:263-315 | start run without interruption is a behaviour of the protocol: a row queued or running and still in time is returned, or refuses a start of another kind; failing that a worker still alive refuses it; failing that the new job is inserted and returned |
| JobManagers.JobManager.BeginWork | src/prosignal/jobs.py:324-329 | the worker's first write is the protocol's, unconditional |
| JobManagers.JobManager.FinishWork | src/prosignal/jobs.py:337-368 | the worker's last write changes only a row still running |
| JobManagers.JobManager.Cancel | src/prosignal/jobs.py:395-421 | cancel is a read followed by a write, refused exactly when the row is absent or terminal |
| Ledgers.RepairKeepsTheRecord | src/prosignal/ledger.py:364-465 | repair deletes, adds and reorders nothing, and changes only the mode and its note |
| Ledgers.RepairKeepsQuarantine | src/prosignal/ledger.py:364-465 | the dates whose same-day runs disagree are the same after a repair |
| Ledgers.RepairIsIdempotent | src/prosignal/ledger.py:364-465 | repairing twice is repairing once |
| Ledgers.ConflictFreeExactlyWhen | src/prosignal/ledger.py:364-493 | after repair no live date conflicts, if and only if the undatable live rows agree with their dates |
| Ledgers.DatableLedgerIsReadable | src/prosignal/ledger.py:247-493 | a ledger whose dated rows are all datable is left without a live conflict |
| Ledgers.TallyAddsUp | src/prosignal/ledger.py:405-465 | the repair report counts every row once, and nothing is rewritten exactly when all rows are correct or undatable |
| Ledgers.RepairMeans | src/prosignal/ledger.py:242-465 | what the repair makes of every row, from the days alone: replay when recorded more than one day after its session, quarantine when within one and two such rows of the date disagree, live otherwise; untouched when recorded before it or not datable |
| Ledgers.TallyMeans | src/prosignal/ledger.py:421-450 | the tally counts, for each of these, the rows that prove it, those filed so already, and those that prove none |
| Ledgers.Ledger.PreviousRun | src/prosignal/ledger.py:158-240 | the newest row of the latest eligible date, of equal stamps the last recorded; an ambiguity; or nothing; the inconsistent branch is never taken |
| Ledgers.PreviousRunMeans | src/prosignal/ledger.py:167-240 | the answer from the rows alone: the latest date before the one given with a run of the lineage; on it either every run names the same book and the newest, last recorded of its stamp, is returned, or two differ and the runs are counted |
| Ledgers.Ledger.ConflictingDates | src/prosignal/ledger.py:467-493 | exactly the conflicting dates, in order |
| Ledgers.ConflictMeans | src/prosignal/ledger.py:467-493 | a date conflicts when two of its runs in the lineage differ in the names held, in any order, or in the names shown, in order |
| Ledgers.Ledger.RepairLineage | src/prosignal/ledger.py:364-465 | every row is repaired as `Ledgers.RepairMeans` says, or no file changes on a dry run, and the report counts them as `Ledgers.TallyMeans` says |
| Ledgers.AmbiguousExactlyWhen | src/prosignal/ledger.py:194-240 | the lookup is ambiguous exactly when the latest eligible date is among the conflicting dates |
| Ledgers.RepairMakesLookupTotal | src/prosignal/ledger.py:158-465 | after a repair no live lookup is ambiguous for any session, if and only if the strays agree |
| Ledgers.StraysCanDisagree | src/prosignal/ledger.py:247-267 | a ledger on which they do not: two undatable live rows of one date that issued different names |
| Ledgers.OrderDoesNotMatter | src/prosignal/ledger.py:121-240 | with distinct stamps the lookup does not depend on the order of the rows |
| Ledgers.Ledger.OpenBook | src/prosignal/ledger.py:495-525 | the open book is what the previous run issued and its hold directives carried, or the ambiguity that stops it |
| Ledgers.CarriedMembers | src/prosignal/ledger.py:510-525 | a name is carried exactly when it was issued or held by a directive, each once, issued names first |
| Ledgers.CarriedStepByStep | src/prosignal/ledger.py:510-525 | directives are read one by one: a hold of a name not yet listed adds it at the end |
| Ledgers.IssuedIsTheBookExactlyWhen | src/prosignal/pipeline.py:236 | reading only the issued names gives the open book exactly when no hold directive adds to it |
| OpenPositions.ReviewOpenPositions | src/prosignal/pipeline.py:701-766 | one directive for every held name neither bought nor watched, in book order |
| OpenPositions.ReviewMeasuresSilence | src/prosignal/positions.py:84-169 | the verdict as a function of the sessions of silence and the universe, including where the silence can no longer be seen |
| OpenPositions.ReviewMeans | src/prosignal/positions.py:75-168 | the review counts the sessions after the last print with a close and a volume, thirty for an exit and five for a suspension, and does not see a print older than ninety sessions |
| OpenPositions.OrphansInBookOrder | src/prosignal/pipeline.py:720-721 | names neither bought nor watched are reviewed once each, in the order of the book |
| OpenPositions.ExitedExactlyWhen | src/prosignal/pipeline.py:65-68 | a silent name is exited exactly from thirty sessions of silence up to the ninety that are read |
| OpenPositions.NoHistoryIsHeld | src/prosignal/positions.py:99-112 | a name with no price history, or none of it traded among the sessions read, is reviewed as if it had traded today and never exited |
| OpenPositions.NextBookMembers | src/prosignal/ledger.py:510-525 | the next book holds what was bought and what was held and left open |
| OpenPositions.HeldExactlyWhen | src/prosignal/pipeline.py:701-766 | over any history a name is held exactly when some run bought it and every later one bought it again or left it open |
| OpenPositions.LedgerCarriesTheBook | src/prosignal/ledger.py:495-525 | over sessions with any number of runs, the book read back is the one the newest run of each session carried, or an ambiguity exactly when the last session's runs disagree |
| Merging.Dedupe | src/prosignal/performance.py:276-290 | the scan keeps the first row of every call |
| Merging.DedupeKeepsOnePerCall | src/prosignal/performance.py:276-290 | one row per call is kept, and no call is lost |
| Merging.DedupedMeans | src/prosignal/performance.py:283-290 | what is kept is the first row of every call, in the order of the rows |
| Merging.MergeReentries | src/prosignal/performance.py:293-334 | the scan that extends the last position in place computes the merged positions |
| Merging.MergedIsSeparated | src/prosignal/performance.py:305-334 | merged positions of one ticker are disjoint and in order |
| Merging.MergedCoversTheSameDays | src/prosignal/performance.py:305-334 | merged positions cover exactly the days their legs covered |
| Merging.MergedConserves | src/prosignal/performance.py:330-333 | sessions are conserved, and legs up to what absorbed rows had stood for |
| Merging.MergedMeans | src/prosignal/performance.py:310-334 | the merged positions field by field: which rows open one, and for the rows it spans the exit of the first to close last, the return over the span less what the first row cost, the sessions of all and a leg for each |
| Merging.AbsorbedAreReentries | src/prosignal/performance.py:305-313 | a row joins the position before it exactly when an earlier row of its ticker was still held at its entry |
| Merging.LegsConservedExactlyWhen | src/prosignal/performance.py:333 | legs are conserved exactly when no row that re-enters a name still held had been merged before |
| Merging.FreshRowsKeepTheirLegs | src/prosignal/performance.py:333 | rows that were never merged keep every leg |
| Merging.LegsCanBeLost | src/prosignal/performance.py:333 | a re-entry that stands for two legs is counted as one |
| Merging.PositionsAreExplained | src/prosignal/performance.py:314-329 | a position opens as its first leg did and keeps that leg's costs, closes as one of its legs did, and is returned over the span |
| Merging.PositionsAreHoldings | src/prosignal/performance.py:276-334 | all of these together for the merged outcomes, and merging twice is merging once |
| Merging.Overlaps | src/prosignal/performance.py:337-351 | the number of rows that share a day with an earlier one in entry order |
| Merging.OverlapsMean | src/prosignal/performance.py:344-351 | the rows in entry order, and how many of them share a day with an earlier one |
| Merging.PositionsOfOneNameDoNotOverlap | src/prosignal/performance.py:293-351 | `overlaps` of the merged positions of any one ticker is zero |
| Identities.XorHex | src/prosignal/config/identity.py:85-95 | the accumulating loop, and the inputs on which it raises |
| Identities.PrintOfParse | src/prosignal/config/identity.py:91-95 | printing a parsed hex number at its own width gives its text back |
| Identities.ParseOfPrint | src/prosignal/config/identity.py:95 | parsing a zero-padded hex number gives the number back |
| Identities.CombinedByPosition | src/prosignal/config/identity.py:85-95 | the identity is the exclusive or of the leading digits, position by position |
| Identities.SameIdentityExactlyWhen | src/prosignal/config/identity.py:85-95 | two component lists share an identity exactly when they agree on every printed position |
| Identities.OneChangeIsSeenExactlyWhen | src/prosignal/config/identity.py:346-348 | changing one component changes the identity exactly when one of its leading sixteen digits or the printed length changes |
| Identities.ComponentsAreInterchangeable | src/prosignal/config/identity.py:85-95 | listing the digests in any other order leaves the identity unchanged |
| Identities.CombineIgnoresOrder | src/prosignal/config/identity.py:346-348 | any two of the three components may be exchanged |
| Identities.CombineMeans | src/prosignal/config/identity.py:85-95 | the version digit by digit: sixteen at most, each the exclusive or of the three components' digits there |
| Overlay.ApplyOverlay | src/prosignal/config/loader.py:316-324 | writing the overlay's entries one by one, in any order, gives the merged mapping |
| Overlay.MergedAt | src/prosignal/config/loader.py:316-324 | the merged tree at the end of any path of keys: what the overlay says, or a mapping if it says one; else what the base says, unless the overlay put a plain value in the way |
| Overlay.StripIsIdempotent | src/prosignal/config/loader.py:53-60 | stripping prose twice is stripping it once |
| Overlay.StrippedAt | src/prosignal/config/loader.py:41-60 | nothing stands behind one of the five keys of prose, however deep and in whatever list, and everything else stands where it stood |
| Overlay.StripDistributes | src/prosignal/config/loader.py:53-324 | stripping the merged tree is merging the stripped trees |
| Overlay.ApplyTwice | src/prosignal/config/loader.py:316-324 | laying an overlay twice is laying it once |
| Overlay.SilentExactlyWhen | src/prosignal/config/loader.py:53-324 | the stripped merged tree is the stripped base exactly when, prose aside, the overlay says nothing new |
| Overlay.SilentOverlayKeepsTheHash | src/prosignal/config/loader.py:63-67 | under a schema whose settings do not depend on prose, such an overlay keeps what is hashed |
| Overlay.WrittenUnchangedExactlyWhen | src/prosignal/config/loader.py:358-365 | laying an overlay leaves the settings of a section, as its fields read them and with their defaults, unchanged exactly when each setting laid reads as the one in force |
| Overlay.KeepsHashExactlyWhen | src/prosignal/config/loader.py:63-67 | under validation field by field an overlay keeps the hash exactly when it lays nothing new in that sense |
| Overlay.LevelKeepsHashExactlyWhen | src/prosignal/config/schema.py:300-312 | an overlay of `runtime.logging.level` alone keeps the hash exactly when it names, in either case, the level set or else the default |
| Overlay.GroupingIsIrrelevantExactlyWhen | src/prosignal/config/loader.py:316-324 | the exact condition under which two overlays may be merged in either grouping |
| Overlay.GroupingCanMatter | src/prosignal/config/loader.py:316-324 | the smallest trees on which the grouping matters |
| Calendar.CountIsDistance | src/prosignal/pipeline.py:614-615 | counting the sessions after one and up to another measures their distance in the calendar |
| Calendar.CountIsNumber | src/prosignal/pipeline.py:614-615 | the count is the number of sessions after one day and up to another |
| Cadence.OneEntryPerCycle | src/prosignal/cadence.py:92-140 | once the schedule has begun, every cycle of consecutive sessions holds exactly one entry date |
| Cadence.ClockMeans | src/prosignal/cadence.py:92-140 | the whole record from the calendar alone, on and off the schedule |
| Cadence.NextIsTheEarliest | src/prosignal/cadence.py:126-133 | while entries are closed the next entry date is the earliest later one, or unknown exactly when the calendar holds none |
| Cadence.CountdownIsWhatIsLeft | src/prosignal/pipeline.py:610-615 | the sessions shown until the next entry are what is left of the cycle |
| Cadence.NoCountdownOnAnEntryDate | src/prosignal/pipeline.py:610-615 | on an entry date no countdown is shown |
| Cadence.AppendingKeepsTheClock | src/prosignal/cadence.py:92-140 | appended sessions never change the answer for a session of the calendar, and only ever fill in an unknown next date |
| Cadence.FailsOpenExactlyWhen | src/prosignal/cadence.py:97-117 | the schedule cannot be placed exactly when the run date is no session or precedes the anchor, and entries are then open |
| Breadth.CauchySchwarz | src/prosignal/v3_monitor.py:106-122 | the square of the sum is at most the count times the sum of squares, with equality exactly when all are equal |
| Breadth.SquaresBelow | src/prosignal/v3_monitor.py:106-122 | over non-negative eigenvalues the sum of squares is at most the square of the sum, with equality exactly when at most one is positive |
| Breadth.ParticipationBounds | src/prosignal/v3_monitor.py:106-122 | the ratio exists exactly when some eigenvalue is positive and lies between one and the column count, with both extremes characterised |
| Breadth.ParticipationMeans | src/prosignal/v3_monitor.py:106-122 | the ratio times the sum of the squares of the positive eigenvalues is the square of their sum |
| Breadth.EffectiveNeverExceedsPresent | src/prosignal/v3_monitor.py:125-135 | a date is measured exactly when two columns cover enough names, and its effective count never exceeds those columns |
| Breadth.MeasuredMeans | src/prosignal/v3_monitor.py:164-169 | the measured dates, in order, are those on which at least two columns cover enough names |
| Breadth.MeasureDates | src/prosignal/v3_monitor.py:164-169 | the loop collects the effective and present counts of the same measured dates |
| Breadth.EffectiveBreadth | src/prosignal/v3_monitor.py:138-178 | the means and the median over the measured dates, between one and the columns declared, effective never above present, and an overstatement that is never below one |
| Breadth.AveragedMeans | src/prosignal/v3_monitor.py:163-178 | what is averaged is, for each measured date, its own ratio and the number of columns that cover enough names |
| Breadth.MedianMeans | src/prosignal/v3_monitor.py:175 | in rising order the median is the middle value or the mean of the middle two |
| Breadth.StableWindow | src/prosignal/v3_monitor.py:351-369 | the start of the unbroken good stretch that reaches the last date, absent exactly when the last date is bad |
| Drawdowns.MeasuredExactlyWhen | src/prosignal/v3_monitor.py:713-720 | nothing to measure exactly when the curve is empty, an exception exactly when it is not and never positive, a measurement otherwise |
| Drawdowns.DeepestFall | src/prosignal/v3_monitor.py:717-721 | the single pass finds the point furthest below its running peak and names both, and no fall is deeper except to a point below zero of a curve that has stood at different positive heights |
| Drawdowns.WorstFallMeans | src/prosignal/v3_monitor.py:717-721 | the trough is the first point at the least part of the highest up to it, and the peak the first highest point before it |
| Drawdowns.TodayMeans | src/prosignal/v3_monitor.py:719-724 | the drawdown is how far the last point stands under the highest, flagged when at or under the threshold |
| Drawdowns.PeakFallIsDeepestExactlyWhen | src/prosignal/v3_monitor.py:717-718 | the fall to a point from its running peak is the deepest from any earlier positive point exactly when the point is not below zero or every earlier positive point is as high as the peak |
| Drawdowns.FlaggedExactlyWhen | src/prosignal/v3_monitor.py:719-724 | the flag is raised exactly when the last point is at or under the allowed part of some earlier point |
| BandedBook.Rebalance | research/v3/experiments/turnover_2026_09.py:122-128 | one rebalance: keep inside the exit rank, fill from the top, cut to the slots |
| BandedBook.Simulate | research/v3/experiments/turnover_2026_09.py:104-139 | the run over all dates gives the book, the excesses with their dates and the turnovers of its counted rebalances |
| BandedBook.CountedExactly | research/v3/experiments/turnover_2026_09.py:114-119 | exactly the dates on the cadence with enough scored names are rebalanced, in order |
| BandedBook.FillsTheSlots | research/v3/experiments/turnover_2026_09.py:122-128 | a rebalance fills every slot or holds at least as many names as were scored, and the final cut removes nothing |
| BandedBook.HoldsOnlyScored | research/v3/experiments/turnover_2026_09.py:121-128 | with unscored names out of the band, the book holds only scored names, and all of them if there are fewer than slots |
| BandedBook.DroppedLeaves | research/v3/experiments/turnover_2026_09.py:104-128 | with an exit rank no tighter than the book, a held name leaves exactly when it is unscored or ranked past the exit rank |
| BandedBook.BoughtBackExactlyWhen | research/v3/experiments/turnover_2026_09.py:122-128 | a dropped name is bought straight back exactly when the names above it that are not kept leave it a slot |
| BandedBook.LeavesExactlyWhen | research/v3/experiments/turnover_2026_09.py:104-128 | the leave rule holds at every rebalance of every run, if and only if the exit rank is at least the slots and below the rank of unscored names, and then from any book at all |
| BandedBook.TightBandReadmits | research/v3/experiments/turnover_2026_09.py:122-128 | rebalanced twice on any one order, the first name past an exit rank tighter than the book is held, dropped and bought straight back |
| BandedBook.LooseBandKeepsUnscored | research/v3/experiments/turnover_2026_09.py:122 | an exit rank past that of unscored names keeps any held name nobody scored |
| BandedBook.AgreesWithBuildBook | research/v3/experiments/turnover_2026_09.py:104-128 | the simulated book holds exactly the names that `build_book` in `book.py` would choose |
| BandedBook.BookIsFull | research/v3/experiments/turnover_2026_09.py:112-138 | over any run the book never outgrows its slots, is full whenever enough names were scored, and otherwise holds every scored name |
| BandedBook.HoldingEverythingHasNoExcess | research/v3/experiments/turnover_2026_09.py:131-134 | a book that can hold every scored name records an excess of zero; as dates with fewer than fifty are skipped, this is a book of at least fifty slots |
| BandedBook.ExcessMeans | research/v3/experiments/turnover_2026_09.py:131-134 | the excess is the mean label of the scored names of the book less the mean label of the date |
| BandedBook.ExcessForEveryRebalance | research/v3/experiments/turnover_2026_09.py:131-135 | every counted rebalance records one excess, under its own date, of the book that rebalance left |
| BandedBook.TurnoverCountsEntrants | research/v3/experiments/turnover_2026_09.py:129-130 | every rebalance but the first records a turnover; times the slots it counts the names that entered, and those that left exactly when the book kept its size |
| BandedBook.TurnoverCountsLeavers | research/v3/experiments/turnover_2026_09.py:129-130 | with as many scored names as slots at every rebalance, each turnover counts the names that left |
| BandedBook.SimulatedExcesses | research/v3/experiments/turnover_2026_09.py:104-139 | a simulated run records one excess for each counted date, of the book left there, and ends with the book its counted dates leave |
| BandedBook.SimulatedTurnoverCounts | research/v3/experiments/turnover_2026_09.py:104-139 | the same of the turnovers a simulated run returns, with nothing asked of its dates |

## Left out

- Floating point: rounding and NaN. A missing open, volume or close is an absent value; other prices are always present.
- Book.Allocate: lists with a repeated name, which no caller passes; also the alphabetical order of exits, which are a set here.
- Book.SizeBook: lists with a repeated name, as `Book.Allocate`.
- Book.BuildBook: rankings with a repeated name, as `Book.Allocate`.
- Book: the stale-age branch of the liquidity reading.
- Outcomes: net return and the cost model, since the quantity is an integer and the fees are a branch table; epoch and configuration stamps on rows; rows whose dates do not parse.
- Outcomes: the history of a visit is what the store holds up to the day it is asked about; the store that cuts it there is not part of this model.
- Jobs: the labels, errors, results and finishing times of a row; SQLite, failures of the database inside the worker, several processes on one table, and colliding job identifiers (a new identifier is required to be fresh).
- Ledger: JSON text, backups and file replacement; the yearly files are a list and an unparsable line is kept as it is.
- Breadth: the eigenvalue routine and the Spearman matrix, of which only the count and the trace are used; the square root is a parameter; the panel behind the per-date flags is not modelled.
- Drawdowns: curves with NaN points.
- Identities: SHA-256, which is an arbitrary hex text here; digests are lower-case hex digits.
- Overlay: reading YAML, and validation that refuses a tree or compares one field with another; each field is read by itself, by a reader and a default that are parameters, of which the log level's are written out.
- OpenPositions: prices without a close or volume column, and the free text of each directive; the `delisted` switch is a parameter the run never sets.
- The selection that production runs use (stages 6 and 8); `Selection` is the one in `build_book`.
- The cost model, measurement periods, equity and account curves, the weekday counter: branch tables and running sums that would only add easy members.
- The pipeline's stages, the data store, features, validation, presentation, HTTP and command-line code.
