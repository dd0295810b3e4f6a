# MGI-Mind: verified models of the store's own protocols

MGI-Mind keeps an agent's memory in a local vector store. The vector search, the embedding model and the
database are foreign code; what keeps the memory honest is a set of small protocols around them, and
those are modelled here in Dafny and proved:

- **The audit log** (`AuditText`, `Audit`, `AuditRuns`, `AuditCrashes`). One text file, appended to by any number of
  processes, each line carrying the hash of the line before it. The file is modelled as text; splitting
  it into lines is `str::lines`. `AuditRuns` is a step system: processes take the cross-process lock,
  read the tip, write the line and then its newline, release, crash, or verify without the lock and
  re-anchor; in `AuditCrashes` they may also die inside the write. The results hold for every interleaving.
- **Consolidation** (`Consolidate`). Exact dedup by group, near-duplicate removal with a `removed` set that
  grows while it is being consulted, the two cold sets, and what is deleted or archived.
- **The duel rule and its batch repair** (`Logarithm`, `InstallMode`, `Duel`, `RedoDuels`). The verdicts are
  comparisons of weighted logarithms; they are proved equal to comparisons of integer powers. The repair
  leaves one live fact per conflict axis.
- **The doubt window** (`Confidence`, `DoubtWindow`, `RetestLoop`). The drift counter, the hysteresis of
  promotion and recovery, the flag registry with its drain and its interruption, the adaptive cadence, the
  busy flag and the server loop that raises it.
- **Ingest routing** (`Ingest`). Where each candidate goes, and the guard against demoting a live memory.
- **The access journal** (`AccessJournal`, `AccessRuns`). Max-merging across processes without a file lock, and
  renaming ids in hash-map order.
- **The write quota** (`WriteQuota`). A pruned deque against the full history.
- **Batch pooling** (`BatchPooling`). Rectangular padded buffers against one text at a time.

`Prelude` and `Sorting` hold the collection helpers. `dafny verify dfyconfig.toml` checks everything.

The mutable parts keep the source's form: classes with the fields the source updates, loops where it loops,
arrays where it writes into buffers. Each such method is proved against a specification function or
predicate, and the lemmas are about that. Wherever the source iterates a hash map or a scroll result the
model uses an order nobody may rely on (`Prelude.ListSet`), so every result holds for all orders.

## What the proofs found

Places where the code does something other than its documentation or its promise suggests. In each case the
model follows the code, and the exact condition is proved.

- A log whose last line is blank while an earlier one is not gets a chain break from the next append, because
  the tip search skips blank lines and verification does not; in such a log re-anchoring creates a break of
  its own (`Audit.AppendBreaksIffTailGap`, `Audit.ReanchorSettlesIffNoGap`).
- A torn write costs more than its own line: the next event is glued to it. That event is loadable, with nothing
  else lost, exactly if the torn line held no loadable event and the glued line parses as the new one
  (`Audit.TornAppendSurvivesIff`). A write that dies just before its newline leaves a loadable event, and the
  next append destroys it (`Audit.MissingNewlineDestroysEvent`). The chain itself survives: if no glued line parses,
  crashes at any point add no break (`AuditCrashes.NoCrashBreaksTheChain`).
- The report text promises that re-asserting a near-duplicate restores it. It does so exactly when the gate
  now rejects it, or it is no longer a near-duplicate and long enough to store. As the similarity search finds
  quarantined points too, an accepted near-duplicate is its own neighbour and stays quarantined for ever
  (`Ingest.ReassertionRestoresExactly`, `Ingest.FirstVerdictDecides`).
- The guard against demoting a live memory is blind when its read of the store fails: over a run a live memory
  is quarantined exactly if such a candidate is reached (`Ingest.LiveMemoryIsLostIffBlindHit`,
  `Ingest.BlindCheckDemotes`).
- The cadence function leaves its documented bounds exactly on a quiet pass from below 150 s or a busy one from
  above 172801 s (`RetestLoop.CadenceBoundsExactly`). The load multiplier comes after the cap: under load the sleep
  is within bounds exactly from 75 to 21600 s on a quiet pass, up to 86401 s on a busy one, up to 43200 s
  otherwise; a quiet pass at the cap sleeps for two days (`RetestLoop.SleepBoundsExactly`,
  `RetestLoop.LoadExceedsTheCap`).
- A tick that breaks off loses exactly the drained flags it did not reach
  (`RetestLoop.LostFlagsAreTheUnreachedDrained`).
- The documented maximum of the confidence score leaves out the confirmations slot and holds only for
  unconfirmed facts (`Confidence.DocumentedMaximumIffUnconfirmed`).
- Max-merging loses accesses when a process records one without knowing of all earlier ones. The best count on
  disk or in any process falls short of the true one by exactly the number of such records, and so does the file
  after every process has flushed (`AccessRuns.LossIsTheStaleRecords`, `AccessRuns.TruthIsKnownIffAllInformed`,
  `AccessRuns.FlushedFileExactly`, `AccessRuns.TwoStartersLoseOne`).
- A rename depends on the hash-map order exactly when a present source moves onto another source that moves on
  (`AccessJournal.OrderIrrelevantIffChainFree`), and a flush in flight during a rename brings the old id back exactly if
  it had already copied it (`AccessRuns.InFlightFlushRevivesOldId`).
- The quota reads the clock before it takes the lock. With timestamps in order it is exact. Out of order it errs
  both ways: it refuses writes the history allows and lets through writes it does not, so that a 60 s window can
  hold more than the quota (`WriteQuota.OutOfOrderRefusesTooMuch`, `WriteQuota.OutOfOrderAdmitsTooMuch`). In every order
  it is off by no more than the lag (`WriteQuota.LimiterIsSandwiched`, `WriteQuota.EveryWindowIsBounded`), by exactly the
  entries named in `WriteQuota.PrunedLengthExactly`; for one late attempt the condition is closed
  (`WriteQuota.LateAttemptAgreesIff`).
- Pruning differs from the plain "age at least the cut-off" rule for a cut-off of zero days and a point created in
  the future (`Consolidate.PruneIsTheBinaryRule`).

One suspicion that the proofs dispel: the busy flag is one boolean and would be wrong if two tool calls
overlapped (`RetestLoop.BusyFlagTruthfulIffNoOverlap`, `RetestLoop.OverlapClearsTheFlag`), but the server reads, answers and
only then reads on, so its guards never overlap and the flag is truthful (`RetestLoop.SequentialServerIsTruthful`).

## Model

| member | source | states |
|---|---|---|
| AuditText.LinesConcat | src/audit.rs:359-360 | splitting a terminated text followed by more text gives the lines of both |
| AuditText.LineEnds | src/audit.rs:359-360 | "\n" and "\r\n" both end a line and are taken off it |
| AuditText.SpacesAre | src/audit.rs:229 | which characters make a line blank |
| AuditText.LinesAppend | src/audit.rs:276-281 | appending one serialised line adds exactly that line, with its newline or before it is written |
| AuditText.LinesAppendTorn | src/audit.rs:16-21 | after a torn write the appended line is glued to the torn one and no line is added |
| Audit.Keep | src/audit.rs:391-401 | filtering keeps exactly the wanted members, in file order |
| Audit.ScanLines | src/audit.rs:361-389 | one scan finds every break in file order, the number of chained lines and the union of all acknowledgements |
| Audit.VerifyLines | src/audit.rs:357-411 | the report: breaks exact and strictly increasing, split into acknowledged and unacknowledged, first open break |
| Audit.AuditLog.AppendEvent | src/audit.rs:262-283 | the file grows by the event linked to the last non-blank line, and its newline |
| Audit.AuditLog.VerifyPath | src/audit.rs:357-411 | the report describes the whole file |
| Audit.AuditLog.ReanchorPath | src/audit.rs:424-439 | refused exactly when nothing is open; otherwise appends one event that acknowledges exactly the open breaks |
| Audit.AuditLog.LoadAll | src/audit.rs:503-530 | returns the events of all non-blank parseable lines, oldest first |
| Audit.TipIsLastNonBlank | src/audit.rs:224-231 | the tip is the hash of the last non-blank line, absent exactly when all lines are blank |
| Audit.AppendBreaksIffTailGap | src/audit.rs:224-283 | an append adds a break exactly when the log ends in a blank line after a non-blank one; all other breaks stay |
| Audit.LoadAfterAppend | src/audit.rs:262-283 | append then load gives the earlier events and the new one, linked |
| Audit.FreshLogVerifies | src/audit.rs:262-283 | a log that only was appended to has no break, all lines but the first chained, and every event linked to the line before it |
| Audit.OnlyEventsLoad | src/audit.rs:503-530 | a blank or unparseable line anywhere changes nothing in what loads |
| Audit.TornTailSwallowsNextEvent | src/audit.rs:16-21 | after a torn write the next event shares the torn line: no line is added, the torn event is gone, and what loads instead is what the glued line parses as |
| Audit.TornAppendSurvivesIff | src/audit.rs:16-21 | the append adds its event to the loadable ones exactly if the torn line was not loadable and the glued line parses as the new event |
| Audit.MissingNewlineDestroysEvent | src/audit.rs:276-282 | dying between line and newline leaves a loadable event that the next append destroys, itself lost unless the glued line parses |
| Audit.ReanchorSettlesIffNoGap | src/audit.rs:413-439 | without interference, re-anchoring leaves nothing open exactly when the log has no blank gap at its end |
| Audit.SameTipSameLog | src/audit.rs:350-389 | two intact logs with the same last line are identical, also when their lengths are not known to agree |
| Audit.EditForcesLaterBreak | src/audit.rs:350-389 | any other log of the same length and tip as an intact one has a break right after its last edited line |
| Audit.SingleEditBreaks | src/audit.rs:350-389 | one edited line of an intact log is reported on the next line, and besides at most on itself |
| AuditRuns.NextKeepsInv | src/audit.rs:262-283 | every step of any process keeps lock ownership, line structure, chain and acknowledgement invariants |
| AuditRuns.NoInterleavingBreaksTheChain | src/audit.rs:241-283 | in every interleaving of any number of processes the set of breaks never changes and written lines stay |
| AuditRuns.MutualExclusion | src/audit.rs:262-274 | two processes are never both inside the locked section |
| AuditRuns.UninterruptedStepsAppend | src/audit.rs:262-283 | one process taking its five steps alone, from lock to unlock, has exactly the effect of the single append |
| AuditRuns.CallRunsThrough | src/audit.rs:262-283 | with the lock free the five steps can be taken and leave the file as the whole call does |
| AuditRuns.IdleCanReanchor | src/audit.rs:424-439 | an idle process can re-anchor whenever something is open, naming exactly that |
| AuditRuns.ReanchorSettlesEveryBreak | src/audit.rs:424-439 | whatever other processes append between verification and write, after the event lands nothing is open, ever after |
| AuditRuns.NoBreakIsAcknowledgedInAdvance | src/audit.rs:413-439 | a number acknowledged during a run is an old break and lies below the event's own line |
| AuditCrashes.NextKeepsInv | src/audit.rs:262-283 | every step, dying at any character of a write included, keeps whole lines, a harmless torn tail and the breaks |
| AuditCrashes.NoCrashBreaksTheChain | src/audit.rs:16-21 | in every interleaving with crashes at any point the set of breaks never changes and every old line stays, provided no glued line parses |
| Consolidate.ChooseDrop | src/consolidate.rs:82-99 | the shorter one is dropped, of equally long ones the later, and the second where neither decides |
| Consolidate.PruneIsTheBinaryRule | src/consolidate.rs:118-156 | for a never-accessed point the scored rule is age against the cut-off, except at a cut-off of zero |
| Consolidate.ColdExactly | src/consolidate.rs:118-156 | a datable point is cold exactly if its last access, else its creation, lies the cut-off of days back, times one plus the logarithm of its use |
| Consolidate.ColderExactly | src/consolidate.rs:271-272 | the order "coldest first" is by idle days over use |
| Consolidate.ColdnessIsMonotone | src/consolidate.rs:101-146 | longer untouched means colder, more use never does |
| Consolidate.GroupByHash | src/consolidate.rs:178-188 | the groups partition the hashed points by library and hash |
| Consolidate.Canonical | src/consolidate.rs:193-200 | the kept member has the earliest stamp, a missing one counting as earliest |
| Consolidate.ExactDedup | src/consolidate.rs:177-207 | each group keeps exactly one member, its earliest; every removal is counted and has a surviving stand-in at that time |
| Consolidate.MergeNeighbors | src/consolidate.rs:215-235 | one point against its neighbours: afterwards it is gone or no listed above-threshold neighbour is left |
| Consolidate.NearDedup | src/consolidate.rs:209-235 | the same for every point at the end of the pass, although later removals keep changing the set |
| Consolidate.Decay | src/consolidate.rs:249-280 | cold is exactly the surviving points over the cut-off, coldest first; the prunable ones are exactly its never-accessed part |
| Consolidate.Dedup | src/consolidate.rs:159-235 | both stages: removals by hash then by nearness, counted separately, and no two survivors share library and hash |
| Consolidate.MemoryStore.Run | src/consolidate.rs:158-290 | the whole pass: defaults, report counters, the cold points by that rule and coldest first, and which points are deleted or archived under each flag combination |
| Consolidate.RemovedAreCountedOnce | src/consolidate.rs:202-230 | the two duplicate counters add up to the size of the removed set |
| Consolidate.RemovedReachesSurvivor | src/consolidate.rs:177-235 | every removed id leads through finitely many equal-hash or above-threshold pairs to a surviving id |
| Consolidate.ChainKeepsLibraryAndLength | src/consolidate.rs:82-99 | along such a chain the library stays and the content never gets shorter |
| Consolidate.NoLibraryIsEmptied | src/consolidate.rs:1-22 | dedup leaves, in the library of every scanned point, a survivor at least as long |
| Consolidate.SecondPassFindsNoExactDuplicate | src/consolidate.rs:177-207 | a second dedup over the survivors, whatever the neighbours and threshold by then, counts no exact duplicate |
| Logarithm.LogOfPower | src/duel.rs:121-129 | a logarithm turns a power into a multiple |
| Duel.VerdictInWholeNumbers | src/duel.rs:121-129 | in every install mode, live or inherited, flip and contested are comparisons of integer powers |
| Duel.VerdictByMode | src/install_mode.rs:55-73 | the thresholds of every install mode with their constants, for live and for inherited claims |
| Duel.TypedVerdictByMode | src/duel.rs:210-232 | with a typed score, in every mode: the verdict compares weighted score and confirmations with the standing of the held fact, and the signal count says nothing |
| Duel.VerdictIsMonotone | src/duel.rs:210-285 | more evidence or less standing never loses a flip nor a contest, typed scores and inheritance included |
| Duel.EveryFactCanBeFlipped | src/duel.rs:108-129 | more than 25 times the product of dependants and confirmations in signals flips any fact in any mode |
| Duel.ResolveAgainstExisting | src/duel.rs:289-346 | a Multi predicate or an empty axis is contested with no loser; else the opponent is the first most entrenched fact, and the claim flips, or is contested, exactly if it would against every fact |
| RedoDuels.WinnerIsUnique | src/cli.rs:2227-2239 | the keeper ordering leaves no tie open |
| RedoDuels.SortByDuelWinner | src/cli.rs:2233-2239 | whatever order the facts come in, index 0 is the newest with the lowest id |
| RedoDuels.FactStore.ListAllFacts | src/knowledge.rs:1409-1447 | lists exactly the valid facts with a visible status, in no promised order |
| RedoDuels.FactStore.FindFacts | src/knowledge.rs:1625-1675 | the same restricted to one axis |
| RedoDuels.FactStore.RetireLoser | src/duel.rs:402-450 | sets the terminal status by cardinality and the end of validity, nothing else |
| RedoDuels.FactStore.RetireAllButWinner | src/cli.rs:2359-2379 | the locked step: exactly the losers of the axis are retired |
| RedoDuels.FactStore.ClusterByAxis | src/cli.rs:2265-2272 | the clusters are the live facts by subject and predicate |
| RedoDuels.WorkList | src/cli.rs:2280-2303 | the work list is exactly the conflict axes with two or more live facts, largest first, then by subject and predicate |
| RedoDuels.TextLeqIsLexicographic | src/cli.rs:2295-2300 | the order of subjects and predicates on the work list is that of a dictionary |
| RedoDuels.LimitedWorkIsUnique | src/cli.rs:2295-2306 | under a limit the set of repaired axes is determined, whatever order the hash map yields |
| RedoDuels.FactStore.Redo | src/cli.rs:2241-2382 | the whole pass: the worst axes are repaired under a limit, its counters, the repaired store; unregistered and Multi predicates and hidden facts are never touched; a full pass leaves one live fact per Single or TemporalSingle axis; a dry run changes nothing |
| RedoDuels.LosersOfOneMore | src/cli.rs:2332-2334 | an axis has exactly one loser fewer than live facts |
| RedoDuels.RepairedAxisKeepsItsWinner | src/cli.rs:2359-2379 | on a repaired axis exactly the old winner is live, unchanged |
| RedoDuels.KeptFactIsNewest | src/cli.rs:2227-2239 | the fact kept on an axis has the latest creation time, an unknown one being the oldest, and on ties the lowest id |
| RedoDuels.FullRepairIsCanonical | src/cli.rs:2274-2318 | after a full pass every Single or TemporalSingle axis has at most one live fact and a second pass finds nothing |
| RedoDuels.RepairTouchesOnlyLosers | src/duel.rs:438-450 | facts of Multi or unregistered predicates and hidden facts are untouched, no fact disappears, triples never change, and a loser goes stale or superseded by cardinality |
| Confidence.ScoreIsBoundedAndMonotone | src/confidence.rs:73-103 | the score lies between minus the external weight minus the penalty and 1, and is monotone in every signal |
| Confidence.NormAtPowersOfTwo | src/confidence.rs:106-112 | the sample points of the compression curve: k/(k+1) at 2^k - 1 |
| Confidence.DocumentedMaximumIffUnconfirmed | src/confidence.rs:76-80 | the documented maximum holds for all facts with a given number of confirmations exactly if that number is zero |
| Confidence.ScoreAtAnchors | src/confidence.rs:85-118 | each signal alone yields its weight times k/(k+1) at 2^k - 1, a typed score is cut off at 5 either way and replaces the count, inheritance costs 0.5, weights sum to 1 |
| Confidence.OneSignalByMode | src/install_mode.rs:55-73 | the score of one signal of each kind in each install mode |
| Confidence.DecideTransition | src/confidence.rs:165-186 | promoted exactly if outside the window, fallen by more than the shift and below the threshold; recovered exactly if inside and risen by more than the shift |
| DoubtWindow.StoredFact.ApplyDoubtCheck | src/doubt.rs:418-429 | one retrieval moves the stored counter by the counter rule and reports the window |
| DoubtWindow.StoredFact.RetestFact | src/doubt.rs:447-598 | one re-test applies the transition to the counter and always stores the new score |
| DoubtWindow.CounterIsTrailingRun | src/doubt.rs:348-359 | over any mix of retrievals and re-tests the counter is the drifted run since the last reset, plus 5 after a promotion, saturating |
| DoubtWindow.FifthDriftEntersWindow | src/doubt.rs:348-359 | n drifted retrievals in a row count n up to the integer width and are in the window from the fifth on |
| DoubtWindow.LastResetIsLast | src/doubt.rs:540-584 | the reset the counter is measured from is a reset or promotion, and none comes after it |
| DoubtWindow.PromotionsAlternate | src/doubt.rs:538-586 | between two promotions lies a retrieval in context or a recovery |
| DoubtWindow.TransitionsCostVariation | src/confidence.rs:165-186 | k promotions and recoveries need a total score movement above 0.2 k |
| DoubtWindow.PromotionAndRecovery | src/confidence.rs:165-186 | a promotion and a recovery, counted as two, for a movement of 0.6 |
| DoubtWindow.SmallStepsNeverRecover | src/confidence.rs:165-186 | steps of at most 0.2 never change the window by re-test, so a doubted fact stays doubted until retrieved in context |
| RetestLoop.CadenceBoundsExactly | src/doubt.rs:269-294 | the exact starts and branches for which the documented bounds hold |
| RetestLoop.CadenceFollowsTheGraph | src/doubt.rs:280-294 | a moderate pass holds the cadence, a quiet one doubles it up to a day, and a busy one takes the doubling back |
| RetestLoop.ShortCadenceEscapesTheFloor | src/doubt.rs:796-803 | a one-second start stays below the floor on a quiet pass |
| RetestLoop.SleepBoundsExactly | src/doubt.rs:818-824 | the exact starts, edits and load for which the sleep lies between 5 minutes and a day |
| RetestLoop.LoadExceedsTheCap | src/doubt.rs:821-824 | a quiet pass under load at the cap sleeps for two days |
| RetestLoop.LoopCadenceStaysBounded | src/doubt.rs:805-824 | over any sequence of passes the sleep stays between 5 minutes and two days, and in the documented bounds exactly by that condition |
| RetestLoop.Registry.DrainFlags | src/doubt.rs:995-1011 | takes the smallest flagged ids in order, as many as allowed, and leaves the rest |
| RetestLoop.Registry.SelectCandidates | src/doubt.rs:1033-1081 | drained flags first, then the top-up list without repeats, never more than the cap |
| RetestLoop.TopUp | src/doubt.rs:1059-1071 | the listed facts not flagged already, in the order of the list, up to the cap; no id twice |
| RetestLoop.Registry.RetestAll | src/doubt.rs:833-859 | successes are cleared, failures flagged again, and it stops at the first busy reading |
| RetestLoop.Registry.Tick | src/doubt.rs:806-866 | a whole tick: skipped when busy on waking; else edits taken, cadence moved, flags as the re-tests say, at most 50 processed |
| RetestLoop.LostFlagsAreTheUnreachedDrained | src/doubt.rs:833-866 | the flags a tick loses are exactly the drained, unreached candidates; none unless it breaks off among them |
| RetestLoop.BusyCell.NewGuard | src/doubt.rs:724-731 | whatever is in flight, the flag is truthful after a guard is created |
| RetestLoop.BusyCell.DropGuard | src/doubt.rs:739-743 | after a drop the flag is truthful exactly if that guard was the only one |
| RetestLoop.BusyCell.Serve | src/mcp.rs:88-112 | the server loop raises the flag once for every call with an id, leaves it down, and it was truthful at every point |
| RetestLoop.OverlapIsNoticed | src/doubt.rs:724-743 | when two guards overlap, the flag is wrong at some later point |
| RetestLoop.BusyFlagTruthfulIffNoOverlap | src/doubt.rs:692-743 | the flag says "a call is in flight" truthfully throughout exactly when no two guards overlap |
| RetestLoop.OverlapClearsTheFlag | src/doubt.rs:739-743 | two overlapping guards leave the flag down while one is alive |
| RetestLoop.SequentialServerIsTruthful | src/mcp.rs:88-172 | a server that answers one line before it reads the next never overlaps guards, panics included |
| RetestLoop.EveryCallRaisesOnce | src/mcp.rs:319-323 | the flag goes up and down once for every tool call that carries an id and for nothing else |
| Ingest.TrimIgnoresPadding | src/ingest.rs:417-424 | white-space padding never changes the point a content is stored under |
| Ingest.TrimExactly | src/ingest.rs:338-339 | trimming takes the white space off both ends and nothing else |
| Ingest.Ingestor.IngestMemory | src/ingest.rs:258-469 | routes one memory candidate: secret, promote, re-assert, quarantine, near-dup, store |
| Ingest.Ingestor.IngestOne | src/ingest.rs:256-519 | routes one candidate of any kind, confinement and blank procedures included |
| Ingest.Ingestor.RunIngest | src/ingest.rs:232-523 | the loop: the store and report after all candidates; the counters add up; under confinement no fact or procedure is stored and each is reported as skipped |
| Ingest.DemotesExactlyWhenBlind | src/ingest.rs:345-378 | a candidate demotes a live memory exactly when its liveness check cannot read and the rest of the path reaches quarantine |
| Ingest.LiveMemoryIsLostIffBlindHit | src/ingest.rs:256-436 | over a run a live memory is ever quarantined exactly if a candidate that hits it blindly is reached |
| Ingest.LiveMemoriesStayLive | src/ingest.rs:345-436 | over a whole run with readable liveness checks no live memory is quarantined and no point disappears |
| Ingest.BlindCheckDemotes | src/storage.rs:1245-1256 | one failed read and a gated re-assertion turn a live memory into a quarantined one |
| Ingest.CountersAddUp | src/ingest.rs:65-90 | every candidate raises at most one counter, none is lowered, and the total is the candidates less blank procedures and memories too short to store |
| Ingest.GlobalWritesAreConfined | src/ingest.rs:471-519 | the counters of facts, procedures and secrets, from the candidates alone, with and without confinement |
| Ingest.MemoriesAreReported | src/ingest.rs:258-469 | the counters of memories: duplicates and new ones by their verdicts, rejected ones by the state of the point they met |
| Ingest.AbortsExactlyOnFailedWrite | src/ingest.rs:381-386 | a candidate ends the run exactly if it needs a write and the write fails, and the store is then as before |
| Ingest.ReportBalancesStore | src/ingest.rs:256-519 | over every run live memories grow by at most promotions and stores, the quarantine by at most quarantined and near-duplicates less promotions |
| Ingest.ReassertionPromotes | src/ingest.rs:334-381 | gate-rejected content: quarantined, then live, then a no-op |
| Ingest.ReassertionRestoresExactly | src/ingest.rs:94-103 | when submitting quarantined content again makes it live |
| Ingest.FirstVerdictDecides | src/ingest.rs:391-436 | content the gate accepts is decided for ever by its first similarity verdict, because its own point is its nearest neighbour |
| AccessJournal.MergeIsLeastUpperBound | src/access.rs:109-114 | merging two stats gives the larger count and the later time, the least stat above both; commutative, associative |
| AccessJournal.JoinIsLeastUpperBound | src/access.rs:89-117 | flushing is a join of journals: order and repetition do not matter |
| AccessJournal.FlushOrderIsIrrelevant | src/access.rs:89-117 | two serial flushes leave the same file in either order |
| AccessJournal.AccessLog.Record | src/access.rs:62-87 | each listed id gains one access per listing and the new time; a flush is due from 64 pending on |
| AccessJournal.AccessLog.Flush | src/access.rs:94-117 | at every id the file keeps the larger count and the later time of file and memory; memory stays |
| AccessJournal.AccessLog.Snapshot | src/access.rs:160-172 | the snapshot has the larger count and the later time of file and memory at every id |
| AccessJournal.RecordedTimeReachesDisk | src/access.rs:62-117 | a recorded access time is on disk after the next flush unless a later one is |
| AccessJournal.Merge | src/access.rs:107-114 | the merge loop computes the join in any iteration order |
| AccessJournal.AccessLog.RekeyIds | src/access.rs:125-156 | file and memory are both renamed: every destination has the largest count and the latest time of all that moves to it; the result counts the sources that were on disk |
| AccessJournal.MergeIn | src/access.rs:130-143 | the rename loop follows some order of the mapping and counts the turns that found their source |
| AccessJournal.RenamesCountsPresentSources | src/access.rs:130-143 | with no destination a source, the count is the number of sources present |
| AccessJournal.RekeyedIsRenaming | src/access.rs:119-143 | each id ends up with the largest count and latest time over everything that moves to it |
| AccessJournal.OrderIrrelevantIffChainFree | src/access.rs:130-143 | all iteration orders give one result exactly when no present source moves onto a source that moves on |
| AccessJournal.OldIdsStayGone | src/access.rs:119-156 | old ids are gone, and a later flush brings back exactly those the flushing process still remembers |
| AccessRuns.NeverOvercounts | src/access.rs:89-117 | however loads and writes interleave, no count exceeds the number of recorded accesses |
| AccessRuns.LostCountsReturn | src/access.rs:89-117 | a contribution lost to a race is on disk after the loser's next uninterrupted flush |
| AccessRuns.FlushRunsThrough | src/access.rs:94-117 | the steps of a flush can be taken in any state and leave the join in the file and all else as before |
| AccessRuns.LossIsTheStaleRecords | src/access.rs:28-34 | in every interleaving the best count falls short of the true one by exactly the records of processes that were behind |
| AccessRuns.TruthIsKnownIffAllInformed | src/access.rs:28-34 | the true total is on disk or in a process exactly if every recording process knew it |
| AccessRuns.FlushedFileExactly | src/access.rs:89-117 | after every process has flushed in turn the file is short by exactly the stale records |
| AccessRuns.TwoStartersLoseOne | src/access.rs:89-117 | a run of two processes in which one of two accesses is lost |
| AccessRuns.InFlightFlushRevivesOldId | src/access.rs:119-156 | which flushes in flight bring a renamed id back to disk |
| WriteQuota.Limiter.CheckWriteQuota | src/http_api.rs:517-552 | one check prunes and counts the caller's deque only, and accepts exactly when it is not full; a zero quota or a poisoned lock is off |
| WriteQuota.DequeNeverExceedsQuota | src/http_api.rs:530-550 | on any clock the deque holds at most the quota |
| WriteQuota.LimiterIsSandwiched | src/http_api.rs:522-552 | in every order of timestamps: accepted if fewer than quota writes lie in 60 s plus the lag, only if fewer lie in 60 s less the lag |
| WriteQuota.PrunedDequeAgreesWithHistory | src/http_api.rs:513-552 | in timestamp order a write is accepted exactly if fewer than quota accepted writes of the full history lie in the last 60 s |
| WriteQuota.LimiterRefinesNaive | src/http_api.rs:513-552 | over a run in order the writes let through are those of the limiter that forgets nothing |
| WriteQuota.EveryWindowIsBounded | src/http_api.rs:513-516 | in every order every window of 60 s less the lag holds at most quota accepted writes; in order, every 60 s window |
| WriteQuota.PrunedLengthExactly | src/http_api.rs:530-536 | in every order the deque counts the fresh writes, less the fresh ones it forgot, plus the expired ones stuck behind its front |
| WriteQuota.LateAttemptAgreesIff | src/http_api.rs:522-529 | one late attempt is judged by the right count exactly if nothing expired at the newest attempt is fresh again; else it lets through that many more |
| WriteQuota.OutOfOrderRefusesTooMuch | src/http_api.rs:522-529 | out of order, the pruned deque refuses a write that the history allows |
| WriteQuota.OutOfOrderAdmitsTooMuch | src/http_api.rs:522-529 | out of order, it accepts a write the history refuses, and three fall into one window under a quota of two |
| BatchPooling.RowOfRows | src/embedder.rs:274-276 | slicing the flat buffer at a row gives that sequence cut and padded |
| BatchPooling.MaxLen | src/embedder.rs:207-212 | the width is no larger than some text needs and cuts every sequence exactly where the single path does |
| BatchPooling.PackBatch | src/embedder.rs:205-229 | the three buffers are the padded rows, every index in bounds |
| BatchPooling.MeanPool | src/embedder.rs:285-302 | the in-place accumulation is the masked mean: equal tokens pool to themselves, and zero weight is not divided by |
| BatchPooling.EqualTokensPoolToThemselves | src/embedder.rs:285-302 | a text whose counted tokens all have one hidden vector pools to that vector |
| BatchPooling.OneMoreTokenMovesMean | src/embedder.rs:285-302 | a further counted token moves the mean m of n tokens to (n m + h) / (n + 1) |
| BatchPooling.TokenOrderIsIrrelevant | src/embedder.rs:285-302 | exchanging two tokens with their masks changes nothing |
| BatchPooling.NothingCountedPoolsToZero | src/embedder.rs:285-302 | without a counted token the vector is zero and not divided |
| BatchPooling.PaddedRowPoolsLikeSingle | src/embedder.rs:189-192 | mean-pooling a padded row equals mean-pooling the truncated text alone |
| BatchPooling.ClsPoolAgreesIffNonEmpty | src/embedder.rs:304-307 | first-token pooling agrees exactly for texts with at least one token |
| BatchPooling.PoolBatch | src/embedder.rs:269-281 | each row of the batch gets the vector its text would get alone |

## Left out

- The vector database, the model session, tokenizer, reranker and network: the store is a map; neighbours,
  similarity verdicts, gate verdicts, secret scans, hidden states and re-test success are arbitrary inputs.
- Hash and serialiser: BLAKE3 is an arbitrary injective function, the JSON writer any function that yields one
  non-blank line its parser reads back; event fields that no chain operation reads are one opaque body.
- Floating point: scores, weights and pooled values are exact reals, log2 and log10 any functions with the stated
  laws; the six-decimal text form of cached scores and NaN are not modelled.
- Text order of ids and timestamps: ids are their rank among strings, timestamps the rank of their text and, where
  parsed, a whole second; id strings, time zones and sub-seconds are not modelled.
- Acknowledgements under crashes inside a write: a torn re-anchoring event can be glued away like any other, so
  `AuditCrashes` is about breaks, and the acknowledgement results are those of `AuditRuns`.
- AuditCrashes.NoCrashBreaksTheChain: assumes that neither a beginning of a line nor a glued line parses; what happens
  to one glued line that does parse is stated in `Audit`.
- Memories longer than one fragment: a memory is one point named by its trimmed content.
- Memory store identity by library: a run of ingest works in one library, so ids are contents only.
- Concurrent flagging during a re-test tick and concurrent writers during redo-duels: the tick and the repair are
  proved for the sequential case.
- Renaming as a step of the runs in `AccessRuns`: it is a transition beside them, and what a flush in flight makes
  of it is stated for the flush that follows.
- A process that exits with counts it never flushed: the processes of `AccessRuns` stay.
- WriteQuota.LateAttemptAgreesIff: the closed condition is for one late attempt after attempts in order; for any order the
  identity and the sandwich are given instead.
- Centroids, context drift, l2 normalisation, the extractor, install-mode detection, token parsing and library
  scoping, audit pulses, the viewer and the rest of the command line: they would only add easy members.
