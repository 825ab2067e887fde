# Birddog's durable monitoring core

Birddog watches coding-agent sessions for an orchestrator. It observes each
target on a timer, writes what it saw to a durable event log, keeps one row of
current belief per target, opens and closes incidents by policy, tells the
orchestrator about them with bounded retries, and lets its watch list be changed
while it runs. This project models that core, and the rules it must keep over
whole runs, in Dafny.

How it is laid out:

- **The store.** `EventLog`, `TargetState`, `Arrivals`, `Reasons`, `Incidents`,
  `Delivery`, `Follows` and `Retention` describe each table, what one call does to
  it, and what any order of calls leaves; `Serving` puts the feed, its consumer and
  retention passes side by side, and `Turns` puts them in the order the daemon's
  loop keeps. `Store` is
  the object that does it in place; each of its methods is proved equal to the
  description. `EventLog` keeps a specification-only history of everything ever
  recorded, which is what cursors and pruning are judged against.
- **The policy.** `Config` and `Attention`: what a policy is, how a deadline is
  built and resolved, and which conditions an observation opens and closes.
- **The monitor.** `World` is one instance as a state machine: the stored
  tables, what a process keeps in memory, and every call made to the notifier;
  its steps are wakes, first readings of the follow links, follows, one target's
  share of a pass, acknowledgements, policy changes and restarts. `Monitor` and
  `Wake` are the objects that run passes; `Monitor.Monitor.Tick` is proved to
  take exactly a tick of that machine, so that what is proved of runs is proved
  of the code's shape. `Watching` turns a life of ticks with things happening
  between them into such a run.
- **Whole-run results.** `Skipping` (a pass that is skipped cannot be told from
  one that is written), `Conditions` (what a pass leaves open), `Storm` (an exit
  is recorded a bounded number of times), `Announcements` and `Retries` (no more
  calls than the bound, and no fewer than are due), `Lifetimes` (what becomes of an
  incident), `Sightings` (what was sighted is what is said, and decides), `Floors`
  (silence is measured only while watching), `Feed` (the state table says what
  the feed adds up to), `Continuity` (follow links across restarts), `Unasked`
  and `Stranding` (overdue incidents nobody asks about); `Lives` says of whole
  lives what is proved of runs.
- **The watch list.** `WatchList` and `Deadlines` describe re-reading a file and
  every other change; `Daemon` is the object that makes them, serves the feed
  and enforces retention.
- **Smaller cores.** `Tail`, `Detect` and `Looking` (reading the end of a
  transcript and finding a pending question in it), `Hooks` and `Installed`
  (editing a settings file that belongs to somebody else), `Opencode` (the session
  tracker of the plugin) and `Rpc` (calls interleaved with one reader).

Times are integer milliseconds passed in as arguments, tables are maps and
sequences, and an incident's id is its position, from 0. An observer is any
function from a target to what it saw or why it could not see, and the notifier
any choice of outcomes. Each store call is one atomic step, `RetainFrom`
excepted, whose three queries are taken apart.

Where the code does less than one might expect, the exact extent is proved:

- **A skipped exit must name the session on record.** Skipping can be told from
  writing exactly when a skipped pass names another session or none
  (`Skipping.SkippingCannotBeToldExactly`); a row that had a name keeps it, where
  writing would have blanked it (`Skipping.AnExitThatLosesItsNameShows`). The
  observers of Claude sessions and of plain processes always name an exit
  (`internal/observe/claude.go:359`, `internal/observe/process.go:53`). The Codex
  one names it after the configured session id, so not for a target attached by
  a pid alone (`internal/observe/codex.go:113`), and the fake worker's says what
  its file says (`internal/observe/fake.go:100`).
- **Replay after a restart needs a clock that did not go back** between two
  follows that lead on from each other. The table stays free of cycles whatever
  the clock did, but replaying it oldest first then drops the newer link
  (`Follows.ReplayRebuildsExactly`, `Follows.ABackwardClockBreaksReplay`).
- **Order of arrival can show across runs.** In the run, status, observed time
  and session, for a target met without a row, exactly when the highest run that
  says anything bears no status and a lower run says something
  (`Arrivals.EveryOrderAgreesExactly`, `Arrivals.OrderMattersAcrossRuns`). In the
  reason too: a status that moves the row to a newer run wipes any reason heard
  before it, even a later one of that run or a run after it. So over a row every
  order agrees exactly when the newest status is of no newer run than the row's, or
  no reason of its run or a later is later than it; and without a row exactly when
  one run alone says anything, or the highest that does bears a status and none of
  its reasons is later than its newest (`Reasons.EveryOrderSaysTheSameExactly`,
  `Reasons.AReasonIsLost`).
- **Pruning past the newest event** would leave a cursor with a hidden gap; the
  retention query never asks for it (`EventLog.PruneKeepsWholeExactly`,
  `EventLog.PruningPastTheEndLosesAnEvent`, `Retention.ThePointIsInRange`).
- **The store's calls alone do not make a prune safe**; the daemon's order of
  things does. A point stays safe until it is applied exactly when no exit incident
  is opened, after the last of the three readings it comes from, for a run whose
  exit lies below it (`Retention.RetentionIsSafeUnderInterleaving`,
  `Retention.AnOpeningMakesThePointUnsafe`). Incidents are opened only by passes,
  and one loop makes the passes and enforces retention, each to its end; only
  acknowledgements and resolutions can fall between. So no retention pass ever
  drops what is held (`Turns.TheLoopPrunesSafely`).
- **A second sync of the same file reports a change** exactly when a quiet
  override carried over that file has lapsed meanwhile
  (`WatchList.TheSameFileAgain`, `WatchList.AnOverrideLapses`).
- **An overdue incident can be left open on a target that does not ask**, by an
  addition or by a process beginning with such a target, and by nothing else;
  and a sync that finds nothing to change does not close it
  (`Stranding.ALifeStaysCleanExactly`, `Stranding.SyncClosesExactly`,
  `Stranding.AddingAgainStrands`).
- **A look at the end of a transcript can miss an ask.** One that finds a settling
  message shows the open ask of the whole file unless that ask was answered before
  the window. One that finds none, only a sidechain's say, is reported as having
  looked and seen nothing, whatever the file holds
  (`Looking.ALookShowsTheSameAskExactly`, `Detect.AnAnswerBeforeItsQuestion`,
  `Looking.AQuietWindowHidesAnAsk`).
- **An install can leave a stale handler.** A document that holds the command under
  every event already is taken to be up to date, whatever other handler of
  birddog's is beside it, where the comment at `internal/hooks/install.go:232-233`
  rules that out (`Installed.AnInstallLeavesNothingStaleExactly`,
  `Installed.AStaleHandlerStays`).
- **Uninstall after install gives the file back** not always, as the comments of
  `internal/hooks/install.go` have it, but exactly under the conditions of
  `Hooks.UninstallRestoresExactly`: an empty list, an empty hooks object or an
  entry that is no list, for one, does not come back, and under a binary not
  called birddog nothing that was written does
  (`Hooks.ARenamedBinaryIsNotUndone`).
- **A running tool call can be lost.** A start without a call id goes under a
  key made of the tool's name and how many calls are outstanding, which may be in
  use; the number outstanding is what began less what ended exactly when no start
  reused a key (`Opencode.CallsAreConserved`, `Opencode.AReusedKeyLosesACall`).

## Model

| member | source | states |
|---|---|---|
| `Config.BuildDeadline` | internal/config/config.go:503-522 | a policy read from a file has exactly the deadline written, absolute or in seconds, and is refused exactly when both kinds are given, a relative one is out of bounds, or its alert list would never report it |
| `Attention.DecideIsExact` | internal/policy/policy.go:267-376 | a condition the policy asks about is opened if it holds and closed if it does not, once, and one it does not ask about is neither |
| `Attention.EachOpensFromOneMoment` | internal/policy/policy.go:267-398 | by the fields of the observation and the policy alone: an asked exit, loss of contact, input request or overdue deadline is open exactly when it is there; idle exactly from a grace after the status, the floor or the override's end, quiet and no progress exactly from just past their threshold after the last activity, the floor or that end, none of these while an override runs; and quiet ends where idle begins |
| `Attention.Evaluate` | internal/policy/policy.go:267-363 | the step-by-step evaluation opens and closes the asked conditions from the moments the observation and the policy fix |
| `Attention.AtMostOneExplanation` | internal/policy/policy.go:267-363 | apart from overdue no two conditions are opened by one observation, and an exit is never overdue |
| `Attention.ExitDecision` | internal/policy/policy.go:280-288 | what a verified exit opens and closes depends on the alert list alone |
| `TargetState.NeverGoesBack` | internal/store/state.go:109-164 | whatever arrives, the stored run and observed time never go back |
| `TargetState.ReplacedRunsAreIgnored` | internal/store/state.go:116-209 | events of a replaced run change nothing at all |
| `TargetState.ARunIsSummarised` | internal/store/state.go:62-209 | within a run the row holds the newest status-bearing event and the reason of the newest event bearing either |
| `TargetState.ArrivalOrderDoesNotMatter` | internal/store/state.go:109-209 | any order of arrival of one run's events leaves the same status, times and reason |
| `Arrivals.TwoRunsAgreeExactly` | internal/store/state.go:116-209 | two events of different runs, met without a row, leave the same row in either order exactly when the later run's bears a status or one of them says nothing |
| `Arrivals.OverARowEveryOrderAgrees` | internal/store/state.go:116-209 | a target that has a row ends with the same one whatever the order of events of any runs, but for the reason and its time |
| `Arrivals.EveryOrderAgreesExactly` | internal/store/state.go:109-209 | met without a row, every order of events of any runs leaves the same run, status, observed time and session exactly when the highest run that says anything bears a status or no lower run says anything |
| `Arrivals.OrderMattersAcrossRuns` | internal/store/state.go:166-209 | a concrete pair of events whose two orders leave different statuses |
| `Reasons.TwoOverARowAgreeExactly` | internal/store/state.go:116-209 | two events over any row leave the same row in either order exactly when neither is a status that moves the row to a newer run and the other a later reason of that run or one after it |
| `Reasons.AReasonIsLost` | internal/store/state.go:130-157 | a status of run 2 and a later reason of run 2 or 3, over a row of run 1: the order decides whether the reason is there |
| `Reasons.OverARowReasonsAgreeExactly` | internal/store/state.go:116-209 | over a row, every order of events of any runs leaves one and the same row, and already the same reason, exactly when the newest status is of no newer run than the row's or no reason of its run or a later is later than it |
| `Reasons.EveryOrderSaysTheSameExactly` | internal/store/state.go:109-209 | and met without a row, every order leaves the same run, status, times, session and reason exactly when one run alone says anything, or the highest that does bears a status and none of its reasons is later than its newest |
| `Incidents.OpeningKeepsTheIndex` | internal/store/incidents.go:49-54 | opening or touching never gives a key two open incidents |
| `Incidents.FindOpenFinds` | internal/store/incidents.go:72-76 | under the index the lookup has one possible answer |
| `Incidents.OpenIncidents` | internal/store/incidents.go:157-179 | returns exactly a target's unresolved incidents, ordered by when they opened and then by id |
| `EventLog.PruneKeepsWholeExactly` | internal/store/events.go:284-315 | what is stored stays the history above the floor exactly when a prune does not reach past the newest event |
| `EventLog.PruningPastTheEndLosesAnEvent` | internal/store/events.go:284-315 | past that point the next event is one the newest cursor never delivers |
| `EventLog.ReadingIsASlice` | internal/store/events.go:218-253 | a cursor is refused exactly when something after it is gone; otherwise the page is the contiguous slice of history up to the cursor handed back, as long as the limit and the history allow |
| `EventLog.FollowingMissesNothing` | internal/store/events.go:213-315 | whatever is appended and pruned between reads, a consumer that hands its cursor back holds the history from where it began to where it is, no gap and no repeat, and the floor only rises |
| `EventLog.AReportedCursorIsAccepted` | internal/store/events.go:255-280 | the cursor status reports is always accepted, and what it delivers next is what is recorded next |
| `EventLog.StaleStaysStale` | internal/store/events.go:218-225 | a cursor once refused is refused for good |
| `Retention.RetainFromIsExact` | internal/store/retention.go:48-108 | a prune point is safe exactly when it is no higher than the one returned, which is never past the newest event |
| `Retention.WhatMayGo` | internal/store/retention.go:48-108 | an event may go exactly when it is older than the window and, if it is an exit not every incident about which was acknowledged, older than the hold besides |
| `Retention.ThePointIsInRange` | internal/store/retention.go:102-107 | the point returned is safe, above zero and no more than one past the newest event |
| `Retention.OneMoreKeepsSafeExactly` | internal/store/retention.go:75-93 | one more thing happening keeps a safe prune point safe exactly when it is not an exit incident opened for an exit below the point that is past the window and within its hold |
| `Retention.RetentionIsSafeUnderInterleaving` | internal/store/retention.go:48-108 | with recent events, acknowledgements, openings and every other change of incidents landing between the queries and for however long after, the point deletes nothing recorded since the pass began and nothing held, and keeps the log whole, exactly as long as no such opening follows the last query |
| `Retention.WithoutOpeningsThePointStaysSafe` | internal/store/retention.go:48-108 | where nothing is opened after the last query the point stays safe however long the prune takes |
| `Retention.AnOpeningMakesThePointUnsafe` | internal/store/retention.go:75-93 | a collected exit, the point at which it may go, and an opening about it after which it may not |
| `Turns.TheLoopPrunesSafely` | internal/daemon/daemon.go:240-361 | in any life of the loop, with whole passes opening what they will, requests at any time, the queries and the prune of each retention pass apart, and processes ending anywhere, a prune that is due drops nothing inside its window and no exit still held, and leaves the log whole and everything else alone |
| `Serving.ServiceMissesNothing` | internal/daemon/daemon.go:339-361 | however events, readings of the feed and the separate queries and prunes of retention passes are interleaved, a consumer that hands its cursor back misses and repeats nothing and is refused only when something is gone |
| `Follows.RecordKeepsOrder` | internal/store/follows.go:46-99 | a link that leads on from another is always the younger row, and no earlier while the clock does not go back |
| `Follows.MemoryMirrorsTheTable` | internal/monitor/monitor.go:293-301 | remembering in memory does what recording does to the table |
| `Follows.RecordingAFollow` | internal/store/follows.go:46-99 | the link recorded is the one made, what the session it leads to led to is forgotten, and no other link is touched |
| `Follows.ReadFollows` | internal/store/follows.go:101-122 | lists the whole table, each row once, oldest first and then by rowid |
| `Follows.ReplayRebuildsExactly` | internal/monitor/monitor.go:276-291 | replaying a listing rebuilds the table's links exactly when no link was made later than one it leads to |
| `Follows.RestartAgreesWithMemory` | internal/monitor/monitor.go:276-301 | over any follows whose times never decrease, replay after a restart gives the map memory held |
| `Follows.ABackwardClockBreaksReplay` | internal/monitor/monitor.go:276-301 | with the clock set back between two follows of one chain it does not |
| `Follows.LinksNeverCycle` | internal/store/follows.go:80-92 | no walk along remembered links ever returns to an id it left, whatever the clock did |
| `Follows.ReplayedIsReachable` | internal/monitor/monitor.go:276-291 | what a restart builds is such a map too, even where it is less than what is stored |
| `Follows.ChasingOnlyMoves` | internal/monitor/monitor.go:313-340 | resolving changes nothing of a target but its attachment |
| `Follows.ResolveFollows` | internal/monitor/monitor.go:313-340 | terminates on any map, ends where the chase ends, and reports a change exactly when the session differs |
| `Follows.ResolvingIsAWalk` | internal/monitor/monitor.go:313-340 | where a target is resolved to is the end of a walk along links that are not another process's, taking over the process of each link that names one, visiting no session twice, that cannot go on |
| `Follows.AWalkEndsWhereResolvingDoes` | internal/monitor/monitor.go:313-340 | every such walk from the target ends there |
| `Follows.ResolvingIsIdempotent` | internal/monitor/monitor.go:303-340 | on every map memory can hold a chase stops only where nothing leads on or at another process's link, and resolving again moves nothing |
| `Follows.ResolvingMovesExactly` | internal/monitor/monitor.go:313-340 | on any map resolving moves a target exactly when its link leads elsewhere and is not another process's, and never back to where it began |
| `Follows.ResolvingTwiceSettlesExactly` | internal/monitor/monitor.go:313-340 | on any map resolving again moves nothing exactly when the chase did not stop for being led back to a session it had left, which on a map memory can hold it never does |
| `Follows.ACycleNeverSettles` | internal/monitor/monitor.go:313-340 | a concrete cyclic map, which nothing produces, on which resolving again moves again |
| `Store.Store.Record` | internal/store/state.go:62-107 | appends the event and applies it to its target's row in one step, and says truly whether the row was written |
| `Store.Store.ApplyStateInPlace` | internal/store/state.go:116-164 | the row is written or left as the supersession rule says |
| `Store.Store.ApplyReasonInPlace` | internal/store/state.go:175-209 | a reason-only event touches only the reason, or makes a row with no status |
| `Store.Store.ReadAfter` | internal/store/events.go:218-253 | the page built row by row is the reading described |
| `Store.Store.NewestCursor` | internal/store/events.go:267-280 | the newest sequence, or the floor once retention has emptied the log |
| `Store.Store.PruneBefore` | internal/store/events.go:284-315 | drops what is below, raises the floor and never lowers it, and touches no other table |
| `Store.Store.OpenOrTouchIncident` | internal/store/incidents.go:61-116 | opens once per key and afterwards only refreshes when it was last seen, and says which |
| `Store.Store.StampIncident` | internal/store/incidents.go:118-155 | sets one time on one incident, or reports that there is none |
| `Store.Store.RecordDelivery` | internal/store/delivery.go:42-60 | attempts accumulate |
| `Store.Store.ShouldAttemptDelivery` | internal/store/delivery.go:97-116 | a first attempt, or a definite failure within the bound, is worth making and nothing else is; `Retries` says what that comes to |
| `Store.Store.RecordFollow` | internal/store/follows.go:46-99 | the announcement and the link, upserted with the outgoing link dropped, in one step |
| `Store.Store.RetainFrom` | internal/store/retention.go:48-108 | one query after another gives the combined point |
| `Skipping.SettledExactly` | internal/monitor/monitor.go:484-543 | a pass is settled exactly when applying its decision would leave every incident, delivery and call as they are but for when incidents were last seen |
| `Skipping.SkippingCannotBeToldExactly` | internal/monitor/monitor.go:441-482 | over any run with passes in order, a monitor that skips settled repeats and one that never skips keep at every moment the same incidents but for last-seen times, deliveries, calls, memory, and run, status and session of every target, the first one's feed omitting only restated exits, exactly when every skipped pass named the session on record |
| `Skipping.SkippingCannotBeTold` | internal/monitor/monitor.go:441-482 | so they always do where every exit sighted names its session |
| `Skipping.AnUnnamedExitPartsThem` | internal/monitor/monitor.go:558-566 | a skipped repeat agrees with a written one exactly when the sighting names the session on record |
| `Skipping.AnExitThatLosesItsNameShows` | internal/monitor/monitor.go:447-466 | two passes over one exit, the second without a name: skipping keeps the name on record and writing blanks it |
| `Conditions.APassLeavesWhatHolds` | internal/monitor/monitor.go:424-482 | after every pass, written or skipped, nothing of an earlier run is open, each asked condition is open at its run exactly if it holds, of these at most one apart from overdue and never both exit and overdue, and the index holds; an overdue left open that is not asked about (`Stranding`) is outside this |
| `Conditions.AWrittenPassSeesWhatItOpens` | internal/store/incidents.go:94-103 | a written pass leaves every condition it opens on an incident last seen at its own moment |
| `Conditions.TheIndexAlwaysHolds` | internal/store/incidents.go:49-54 | no run ever gives a key two open incidents |
| `Conditions.APassIsAboutItsTarget` | internal/monitor/monitor.go:424-482 | a pass over one target changes nothing about any other |
| `Feed.StateIsAFunctionOfTheFeed` | internal/store/state.go:51-107 | over any run, restarts and follows included, every target's row is what the events recorded about it add up to |
| `Feed.StateBeganWithTheFeed` | internal/store/state.go:51-107 | so it is of every store that began empty |
| `Storm.AnExitIsRecordedABoundedNumberOfTimes` | internal/monitor/monitor.go:447-482 | however many passes sight one verified exit under one policy, whatever happens to other targets and however often the process restarts, at most max(1, maxAttempts) events about it are appended |
| `Announcements.EveryCallIsAccountedFor` | internal/monitor/monitor.go:710-766 | over any run the notifier is called at most max(1, maxAttempts) times per incident, every call but the last failed, the stored count is the number of calls, and an incident is marked notified exactly when its last call was delivered |
| `Announcements.AnEmptyInstanceIsAccounted` | internal/store/delivery.go:30-60 | that account holds where every instance begins |
| `Retries.APassCallsWhatIsDue` | internal/monitor/monitor.go:710-766 | a pass that opens an incident's condition makes one call about it if every call so far failed and there were fewer than the bound, with the notifier's answer to that condition, and no other call |
| `Retries.EveryDueCallIsMade` | internal/store/delivery.go:97-116 | over any run, restarts included, the calls about an incident are the answers offered by the passes that opened its condition, in order, up to one that is no failure or the bound, and no fewer |
| `Retries.FailingCallsAreRepeated` | internal/store/delivery.go:97-116 | while every call fails there are as many as such passes, up to max(1, maxAttempts) |
| `Lifetimes.WhatAPassDoesToIncidents` | internal/monitor/monitor.go:753-798 | field by field: a written pass leaves alone incidents of other targets and ended ones, ends those of older runs and those asked about that are over, sees the others again, stamps those announced, and opens the rest at its own moment |
| `Lifetimes.WhatAStepDoesToAnIncident` | internal/store/incidents.go:118-155 | an acknowledgement sets that time alone, a policy that stops asking ends open overdue incidents alone, and no other step but a pass touches any |
| `Lifetimes.AnIncidentKeepsItsPast` | internal/store/incidents.go:61-155 | over any run no incident changes whose it is, about what, of which run or since when; what was acknowledged or announced stays so; and one that ended never changes again but to be acknowledged |
| `Floors.MemoryRemembers` | internal/monitor/monitor.go:431-446 | since a restart the floor is at or past every wake and loss of all targets, and a target missed by a pass stays lost until a pass that sees it raises its own floor |
| `Floors.FloorsAreExact` | internal/monitor/monitor.go:431-446 | since a process began its floor is the last wake or loss of all targets, a target is lost exactly while the last pass over it missed it, and its own floor is when it was last regained, and nothing later |
| `Floors.SilenceIsPastTheFloor` | internal/policy/policy.go:267-347 | quiet or no_progress is opened only for a silence longer than its threshold, measured after the floor and after any override |
| `Floors.SilenceIsWitnessed` | internal/monitor/monitor.go:187-238 | whenever quiet or no_progress is decided, no step of this process within the threshold was a wake or a loss of all targets, and every pass over the target saw it |
| `Monitor.Monitor.Deliver` | internal/monitor/monitor.go:715-751 | one attempt, recorded with its outcome, and the incident marked only when it was delivered; nothing when none is due |
| `Monitor.Monitor.OpenAndAnnounce` | internal/monitor/monitor.go:753-767 | opens or touches one condition and announces it unless it has got through |
| `Monitor.Monitor.CloseOut` | internal/monitor/monitor.go:768-797 | resolves exactly the open incidents of superseded runs and those of this run whose condition is to be closed |
| `Monitor.Monitor.ApplyDecision` | internal/monitor/monitor.go:753-797 | opening in order and then closing takes the step described |
| `Monitor.Monitor.IsSettled` | internal/monitor/monitor.go:496-543 | the reading that builds a map of open incidents answers exactly whether nothing would change |
| `Monitor.Monitor.ObserveTarget` | internal/monitor/monitor.go:424-482 | one target's share of a pass is exactly the machine's step, which `Sightings` describes by what was sighted |
| `Sightings.APassReportsWhatWasSighted` | internal/monitor/monitor.go:645-708 | a pass adds one entry to the feed with the sighting's identity, reason, visibility and correlation, its status exactly when known, and the run on record or the next if another session is identified; or it repeats an exit on record and stores nothing |
| `Sightings.APassLeavesWhatWasSighted` | internal/store/state.go:109-209 | a pass newer than the row leaves it with the sighting's status, reason and visibility, or only the reason if that is all there is, and every other target's row as it was |
| `Sightings.ALatePassChangesNothingNewer` | internal/store/state.go:116-209 | a pass no newer than what the row observed of that run changes no row |
| `Sightings.APassDecidesByWhatIsKnown` | internal/monitor/monitor.go:424-446 | conditions open as the sighting has it, measured from the last wake, loss or regaining of the target, and knowing of an exit recorded in this run |
| `Sightings.ATickReportsWhatWasSeen` | internal/monitor/monitor.go:187-238 | after a whole tick the feed has of every target what its observer answered where it was asked, marked as a loss of all exactly when there are several and none was seen, but for exits sighted again; and durations start afresh exactly then or after a wake |
| `Sightings.ATickOpensWhatHolds` | internal/monitor/monitor.go:187-238 | and of each target's policy exactly those conditions are open that its own answer and the moment say |
| `Monitor.Monitor.ObserveAll` | internal/monitor/monitor.go:232-238 | every target gets its share in order, made of its own sighting and of what the notifier would answer about it |
| `Monitor.Monitor.LoadFollows` | internal/monitor/monitor.go:277-291 | reads the whole table once in the life of a process |
| `Monitor.Monitor.SightResolved` | internal/monitor/monitor.go:354-364 | the target stays where it is configured if something live is found there, and otherwise is where the links lead; the look is the answer from that place |
| `Monitor.Monitor.Follow` | internal/monitor/monitor.go:372-415 | the announcement and link are stored, remembered and the target moved, as one step of the machine |
| `Monitor.EveryTargetIsAsked` | internal/monitor/monitor.go:201-214 | every target is asked where it is configured and, if nothing live is found there, where the links lead as they stand when its turn comes; that answer is its look; and if it says the session moved, the target moves there and the move is announced and linked |
| `Monitor.TheConfiguredSessionWins` | internal/monitor/monitor.go:354-364 | for any links and observer, a target found live where it is configured is looked for there, and any other where the chase ends |
| `Monitor.OneTargetIsAsked` | internal/monitor/monitor.go:354-408 | sighting one more target asks it so, and its move, if it says it moved, is announced by one event of the right run that asserts nothing, and remembered |
| `Monitor.Monitor.SightAll` | internal/monitor/monitor.go:201-214 | every target is sighted that way, the follows made are exactly those, and a pass counts as having learned nothing exactly when nothing was observed |
| `Monitor.Monitor.Tick` | internal/monitor/monitor.go:187-238 | one pass is exactly: a wake floor if the clocks say so, the first reading of the whole table, the follows the observers reported, a floor if more than one target was watched and none was seen, and then every target once in order with what its observer answered and its notifier would; targets change only in their attachment |
| `Wake.Detector.Check` | internal/platform/wake/wake.go:55-79 | a jump is reported exactly when the two clocks moved apart by more than the threshold since the last reading, every reading becomes the baseline, and a clock set back skips no time |
| `Watching.ALifeIsInOrder` | internal/monitor/monitor.go:187-238 | ticks on an advancing clock, with acknowledgements, policy changes and restarts between, make a run in order |
| `Watching.ALifeOfSkippingExactly` | internal/monitor/monitor.go:447-482 | over a whole life of ticks skipping cannot be told exactly when every skipped pass named the session on record |
| `Watching.ALifeOfSkippingCannotBeTold` | internal/monitor/monitor.go:447-482 | and so never where every exit is named |
| `Watching.AWholePassLeavesWhatHolds` | internal/monitor/monitor.go:232-238 | after a whole pass every target's open incidents are what held of it when it was looked at, whatever came after it in the pass |
| `Continuity.ResolvingAlwaysSettles` | internal/monitor/monitor.go:276-340 | over any run, restarts included and whatever the clock did, resolving settles |
| `Continuity.EveryRestartRemembers` | internal/monitor/monitor.go:276-301 | over any run with follows in time order, what memory holds after a first reading is the table's links, however often the process restarted |
| `Lives.SilenceInALifeIsWitnessed` | internal/monitor/monitor.go:187-238 | in any life of ticks on an advancing clock, quiet and no_progress are only decided about time every step of which watched |
| `Lives.ATickReadsTheTable` | internal/monitor/monitor.go:196-199 | a tick reads the table it is given and nothing else |
| `Lives.ALifeIsInTime` | internal/monitor/monitor.go:187-238 | in any life whose first ticks read what is stored, follows come after the reading and in time order |
| `Lives.ALifeRemembersItsLinks` | internal/monitor/monitor.go:276-301 | so memory holds the table's links from the first tick of each process on |
| `Lives.ALifeSettlesItsTargets` | internal/monitor/monitor.go:303-340 | and resolving any target settles |
| `Unasked.DropOneMore` | internal/daemon/watch.go:254-270 | closing for one target after another closes exactly the overdue incidents of targets that no longer ask |
| `Unasked.PassesStrandNone` | internal/daemon/watch.go:245-270 | while the watch list stands no run leaves an overdue incident open on a target that does not ask about it |
| `Unasked.AddingStrandsNoneExactly` | internal/daemon/watch.go:77-118 | an added target strands none exactly when it asks about overdue or none of its id was left open |
| `Unasked.TakingOnStrandsNoneExactly` | internal/daemon/daemon.go:162-182 | a process that begins strands none exactly when no target it is given fails to ask while one of its id was left open |
| `Stranding.SyncClosesExactly` | internal/daemon/sync.go:206-236 | after a sync none is stranded exactly when the sync changed something or none was before |
| `Stranding.OneDeedExactly` | internal/daemon/watch.go:245-270 | of passes, acknowledgements, syncs, additions, removals, updates, follows and restarts, only an addition and a beginning can strand one, and exactly when the target does not ask and one of its id is open |
| `Stranding.AddingAgainStrands` | internal/daemon/watch.go:77-154 | a target with an open overdue incident, removed and added again without asking, leaves it open |
| `Stranding.ALifeStaysCleanExactly` | internal/daemon/watch.go:245-270 | over any life of these none is ever stranded exactly when none of those two happens |
| `WatchList.SplitIsAPartition` | internal/daemon/sync.go:158-200 | every id of the old and new list is in exactly one of added, removed, updated and unchanged, once |
| `WatchList.SyncedNames` | internal/daemon/sync.go:158-200 | after a sync the targets watched are the file's, each as it was judged |
| `WatchList.AFileIsTakenAtItsWord` | internal/daemon/sync.go:158-287 | a target watched gets the file's policy but for an override still running and the deadline in force while the file's own is unchanged, and is kept as it is exactly when that or where its session was followed to is what it is; a new one is taken on now |
| `WatchList.WhatASyncLeaves` | internal/daemon/sync.go:158-241 | when some target comes, goes or changes or the window does, the list is the file's in its order with one new revision and the take-on times of those that stay; otherwise only whether to follow the file is heeded |
| `WatchList.JudgedAgain` | internal/daemon/sync.go:173-191 | a target read a second time is unchanged unless an override the file does not mention has lapsed |
| `WatchList.TheSameFileAgain` | internal/daemon/sync.go:139-241 | a second sync of one file with nothing between reports a change exactly when such an override lapsed, and otherwise keeps the list and its revision |
| `WatchList.AnOverrideLapses` | internal/daemon/sync.go:173-191 | a file and an override to 10 it does not mention: read at 5 nothing changes, read again at 20 something does |
| `Deadlines.KeepingIsSound` | internal/daemon/sync.go:273-287 | a deadline carried over a sync can still alert |
| `Deadlines.UpdatingIsSound` | internal/daemon/watch.go:191-243 | an accepted update leaves no deadline that cannot alert |
| `Deadlines.UpdatedAsSupplied` | internal/daemon/watch.go:191-243 | an update is turned down exactly when a length of time is empty or negative or a deadline could not alert; and otherwise supplies exactly the fields it has |
| `Deadlines.WhatUpdatingLeaves` | internal/daemon/watch.go:156-189 | an accepted update changes the policy of the one target in its place and counts one revision; one turned down changes nothing |
| `Deadlines.WhatAddingLeaves` | internal/daemon/watch.go:77-118 | an addition puts the target last with its deadline standing from now, or is refused and changes nothing |
| `Deadlines.WhatRemovingLeaves` | internal/daemon/watch.go:120-154 | a removal takes out the one target and when it was taken on, and leaves the rest in order |
| `Deadlines.EveryDeadlineCanAlert` | internal/daemon/watch.go:191-243 | over any syncs, additions, removals, updates and follows, no watched target holds a deadline its alert list leaves out |
| `Deadlines.WhatStands` | internal/config/config.go:526-535 | a standing deadline is the absolute time written, or the take-on time plus the relative one, or none |
| `Deadlines.TakingOnStands` | internal/daemon/watch.go:110-112 | adding a target, or a file that names it anew, makes its deadline stand from then |
| `Deadlines.DeadlineIsFromTheLastFile` | internal/daemon/sync.go:263-287 | with no update of a target its deadline is a function of its take-on time and the last file alone |
| `Deadlines.WhenAndHowOftenDoNotMatter` | internal/daemon/sync.go:263-287 | two histories with one take-on time and one last-read policy agree on the deadline |
| `Daemon.EventsResult` | internal/daemon/daemon.go:657-677 | the page is handed out whole with the sequence of its last event as the cursor |
| `Daemon.Daemon.constructor` | internal/daemon/daemon.go:162-182 | every target is taken on at the start, relative deadlines running from then, and an overdue incident is stranded exactly when one was left open under a target given that does not ask |
| `Daemon.Daemon.Events` | internal/daemon/daemon.go:591-655 | an answer is the refusal, the next page, or the caller's own cursor when caught up, with the page size clamped |
| `Daemon.Daemon.StatusCursor` | internal/daemon/daemon.go:439-444 | the cursor reported is the newest |
| `Daemon.Daemon.RetentionPass` | internal/daemon/daemon.go:331-361 | without a window nothing is dropped; with one, exactly the stretch at the front that is all past the window, and if an uncollected exit past the hold too; the log stays whole and the floor does not fall |
| `Daemon.Daemon.Acknowledge` | internal/daemon/daemon.go:679-701 | records that an alert was seen and nothing else, or reports that there is no such incident |
| `Daemon.Daemon.Pass` | internal/daemon/daemon.go:283-307 | a changed file is applied first, closing what it must and touching nothing else stored, then exactly one tick over what is then watched; a paused instance does neither |
| `Daemon.Daemon.ResolveUnaskedOverdue` | internal/daemon/watch.go:254-270 | closes exactly the open overdue incidents of a target that does not ask |
| `Daemon.Daemon.WatchAdd` | internal/daemon/watch.go:77-118 | refused for an id already watched or a deadline that cannot alert, else taken on now |
| `Daemon.Daemon.WatchRemove` | internal/daemon/watch.go:120-154 | drops the target and when it was taken on, and leaves every table alone |
| `Daemon.Daemon.WatchUpdate` | internal/daemon/watch.go:156-189 | a change is turned down exactly for an empty length of time, a negative grace or a deadline nobody would hear of, and then alters nothing; otherwise every field supplied is as supplied, every other field and target as it was, and what is no longer asked about is closed |
| `Daemon.Daemon.JudgeAll` | internal/daemon/sync.go:153-192 | goes through the file deleting from a copy of the list, and ends with the split, the next list and what is gone |
| `Daemon.Daemon.Sync` | internal/daemon/sync.go:139-241 | applies the file as described with one revision, or on a dry run reports the same split and changes nothing; when the list changed no stranded overdue incident is left |
| `Tail.Tail` | internal/observe/transcript/tail.go:71-156 | for every file, window and parser, and whatever size was measured before reading, yields exactly the records of those lines that begin inside the window, and says truly whether the window reached the start |
| `Tail.TheRecordsAreTheLines` | internal/observe/transcript/tail.go:109-155 | the records of a file written as lines are those of its lines that are not blank and parse, in order |
| `Tail.AWiderWindowOnlyAdds` | internal/observe/transcript/tail.go:58-70 | what a window yields is the end of what a wider one yields, and of the whole |
| `Detect.AnsweredCalls` | internal/observe/transcript/detect.go:41-51 | collects exactly the calls a message outside any sidechain answers |
| `Detect.Detect` | internal/observe/transcript/detect.go:40-80 | the walk reports the first unanswered ask of the newest settling message, else what that message suggests, else nothing |
| `Detect.ExactExactly` | internal/observe/transcript/detect.go:24-66 | an exact question is reported precisely when the newest settling message asks something unanswered |
| `Detect.AskedExactly` | internal/observe/transcript/detect.go:24-66 | by the parts alone: exactly when a call that asks has no message after it and no result anywhere, sidechains and empty messages aside |
| `Detect.TheFirstAskedIsReported` | internal/observe/transcript/detect.go:24-66 | and it is the first such call of that message |
| `Detect.InferredExactly` | internal/observe/transcript/detect.go:67-80 | a question is guessed at exactly when the session is idle and the newest settling message is the assistant's, has no open ask and ends on a question |
| `Detect.WindowShowsTheSameAsk` | internal/observe/transcript/detect.go:40-80 | once a window holds a settling message, the open ask it shows is the whole's exactly unless it was answered before the window |
| `Detect.AWindowIsEnough` | internal/observe/transcript/detect.go:40-80 | where answers follow their questions such a window reports what the whole would |
| `Detect.AnAnswerBeforeItsQuestion` | internal/observe/transcript/detect.go:40-80 | a result before the call it names, and a window between them |
| `Looking.LookAtTheEnd` | internal/observe/transcript/watch.go:84-117 | birddog could not look exactly when the window held no message and did not reach the start; otherwise what it says is what detection reports of the window's records |
| `Looking.ALookShowsTheSameAskExactly` | internal/observe/transcript/watch.go:84-117 | for any file, window and parser, the open ask a look shows is the whole file's exactly when the window holds a settling message whose ask was not answered before it, or holds none and the file shows none |
| `Looking.ALookIsEnough` | internal/observe/transcript/watch.go:84-117 | where answers follow their questions, a look that finds a settling message or reaches the start reports what reading all of the file would |
| `Looking.AQuietWindowHidesAnAsk` | internal/observe/transcript/watch.go:93-107 | a file that ends on a sidechain's message, looked at through a window of only that |
| `Hooks.CleaningIsExact` | internal/hooks/install.go:155-185 | cleaning keeps every other handler in order, leaves none of birddog's, does nothing twice, and changes nothing exactly when there was nothing to clean |
| `Hooks.AHandlerIsRecognisedExactly` | internal/hooks/install.go:187-211 | a handler that installing writes is taken for birddog's exactly when the binary is called birddog |
| `Installed.AHandlerIsOursExactly` | internal/hooks/install.go:187-211 | a handler is birddog's exactly when it runs a program of that name, at any path, with the one argument |
| `Installed.AnInstallAppends` | internal/hooks/install.go:62-79 | an install that writes puts one group of its own after everybody else's for each event it asks for and leaves every other event as it was |
| `Hooks.OthersAreNeverTouched` | internal/hooks/install.go:8-12 | over any installs, under whatever names, and uninstalls every event keeps the groups that are not birddog's, each with its matcher and in order, and nothing outside the hooks changes; groups are added to them exactly when an install under another name wrote something |
| `Hooks.InstallTwice` | internal/hooks/install.go:53-60 | installing again changes nothing and says so |
| `Hooks.UninstallTwice` | internal/hooks/install.go:81-111 | after an uninstall there is nothing left to remove |
| `Hooks.UninstallRestoresExactly` | internal/hooks/install.go:45-111 | uninstalling gives back the document installing was given exactly when, installed as birddog, no list held a handler of birddog's, the hooks were absent or not empty, and the installed events' entries were absent or non-empty lists with no hollow group; or, under another name, there was nothing to write and nothing to remove |
| `Hooks.ARenamedBinaryIsNotUndone` | internal/hooks/install.go:187-211 | an empty document and a binary of another name: what was installed stays |
| `Installed.AnInstallLeavesNothingStaleExactly` | internal/hooks/install.go:45-79 | after an install every event asked for holds exactly one handler of birddog's, the one named, exactly when the binary is called birddog and the document did not hold the command everywhere already beside another of birddog's |
| `Installed.AStaleHandlerStays` | internal/hooks/install.go:232-255 | a document with the right handler and an older path's under every event: nothing is written |
| `Hooks.DropOurs` | internal/hooks/install.go:157-185 | the loops over groups and handlers do that cleaning |
| `Hooks.Settings.InstallInPlace` | internal/hooks/install.go:45-79 | the document becomes what installing makes of it, or is refused untouched |
| `Hooks.Settings.UninstallInPlace` | internal/hooks/install.go:82-111 | likewise for removing |
| `Opencode.Oldest` | plugins/opencode/birddog-lib/state.ts:300-307 | the call begun first, of those begun together the first recorded |
| `Opencode.SessionTracker.Apply` | plugins/opencode/birddog-lib/state.ts:79-124 | folds one event into the session it names, counting and remembering what it cannot attribute |
| `Opencode.EverySessionIsShown` | plugins/opencode/birddog-lib/state.ts:267-292 | after any events every session is waiting exactly while a permission is pending, else running its oldest call while there is one, else neither and with no tool |
| `Opencode.OnlyTheNamedSession` | plugins/opencode/birddog-lib/state.ts:252-265 | an event never changes a session it does not name |
| `Opencode.TrackedExactly` | plugins/opencode/birddog-lib/state.ts:163-198 | a session is tracked exactly when it was described and not deleted since |
| `Opencode.PendingExactly` | plugins/opencode/birddog-lib/state.ts:200-231 | what is pending is what was asked last, as it was asked and since then, and has had no matching reply since |
| `Opencode.FreeExactly` | plugins/opencode/birddog-lib/state.ts:233-292 | a session neither waiting nor running is free exactly when it was said to be and since then nothing was asked, no call was out and nothing said otherwise |
| `Opencode.OutstandingKeysExactly` | plugins/opencode/birddog-lib/state.ts:128-161 | for any events the calls outstanding are exactly the keys begun and since neither finished nor swept away by idling, named or not |
| `Opencode.OutstandingToolsExactly` | plugins/opencode/birddog-lib/state.ts:128-161 | what is outstanding under a key is the tool of the event that last began it, since that was handled |
| `Opencode.WhatElseIsShown` | plugins/opencode/birddog-lib/state.ts:163-292 | a session is described as it was last and was last active when it was last heard from |
| `Opencode.OutstandingExactly` | plugins/opencode/birddog-lib/state.ts:128-161 | where a session's tool events name their calls, that is exactly what was begun and not ended since, told from the events alone |
| `Opencode.AStartAddsExactly` | plugins/opencode/birddog-lib/state.ts:134-138 | a start adds a call exactly when the key it goes under is not in use |
| `Opencode.CallsAreConserved` | plugins/opencode/birddog-lib/state.ts:128-161 | for any events every call begun since the session was last idle is outstanding, ended or lost to a start that reused its key, so the number outstanding is begun less ended exactly when no key was reused |
| `Opencode.AReusedKeyLosesACall` | plugins/opencode/birddog-lib/state.ts:134-161 | three starts and two completions without call ids that leave no call outstanding |
| `Opencode.SessionTracker.TakeUnknown` | plugins/opencode/birddog-lib/state.ts:65-74 | hands over the sessions named and not tracked, once |
| `Rpc.RepliesGoWhereTheyBelong` | internal/discover/codex/rpc.go:61-128 | in every interleaving a channel holds at most one message, the reader never waits to send, and a call returns only a reply bearing its own id |
| `Rpc.TheFirstReplyStands` | internal/discover/codex/rpc.go:74-81 | the first reply read while a call is registered is never replaced |
| `Rpc.AReplyIsHeldForItsCall` | internal/discover/codex/rpc.go:70-81 | a reply with a registered call is held for it, and one without is dropped |

## Left out

- SQLite, its SQL, migrations, file permissions and write-ahead log: tables are maps and sequences with the same update rules.
- Atomicity of `After` and `LatestCursor`, which read the floor and the rows in two statements: each is one step here.
- Rowids of the follow table, which SQLite may reuse: only their order is read, so a counter that never repeats stands for them.
- The nested map of follow links: it is flattened to one map keyed by target and session id.
- Store errors, and a crash between a delivery and its record: store calls succeed, and the delivery bound is stated for runs where they do.
- The process last seen for each target, what an observer remembers, and `Forget`: nothing modelled reads them.
- An event's evidence payload, labels, instance id and configuration revision, and an observation's request kind and detail: carried and never decided on. An error from an observer is kept only as its reason.
- A notifier that answers differently to two alerts about one condition of one target in one pass: each condition gets one answer a pass, and any answer the next.
- Time as milliseconds: sub-millisecond parts, time zones, RFC 3339 parsing and overflow of durations are not modelled.
- Moments before 1970: a row that holds only a reason stores time zero, so results about runs and about orders of arrival take events and passes to be later than that.
- Events dated before a retention window that land while its prune point is being computed: what lands then is taken to be recent.
- Discovery of sessions through processes, sockets and terminals, and the connectors that deliver alerts.
- The control socket, JSON encoding, the command line, rendering, diagnostics, and the owner grace counter.
- Idempotency keys, machine and store identity checks, waiting for new events, and the several clock readings one request makes: a request reads the clock once, and a wait repeats the read it waited for.
- Targets added in memory by earlier clients, which can carry a deadline in no file's format; and the validation of ids, providers, attachments and paths.
- The observed files of a target and the kind of its attachment: no modelled rule reads them.
- A file's name and notification block, which a sync reports and does not apply, and the notes in its replies.
- What JSON a transcript line holds, how an ask's arguments are rendered and where a sentence ends: the parser, the renderer and the splitter are parameters, and spaces are ASCII.
- `Hooks` status reporting, and aliasing between parts of a parsed document, which a parser never makes.
- The choice a returning call makes when its reply and the end of the stream are both there: either step may be taken in `Rpc`.
