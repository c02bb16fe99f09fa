# Verified model of the sync daemon's control logic

The daemon copies query results between databases. What it does with drivers, files and processes is foreign to it;
the control logic around them is modelled here and proved:

- **Connection pools** (`ItemLayout`, `IdleClock`, `PoolProtocol`, `PoolLimit`, `SimplePool`, `TimeoutPool`, `SimplePoolObject`).
  `Use` as a step relation over any number of callers, interleaved at every shared access: receivers take items from a
  bounded channel without a lock, pushes test for room and send under a lock, the first call makes the channel. The
  invariant places every item ever generated in exactly one place. The two pools are also modelled as objects for one
  caller at a time, and every such call is shown to be a run of the step relation. Idle stamps are seconds of the
  minute, so the wrap-around is part of the arithmetic.
- **Rotating log writer** (`RotateLog`, `RotatePlaces`, `RotateWriter`). The directory is a map from paths to bytes, and
  every file operation may fail. Over every run nothing is lost but the oldest kept backups that rotations drop, so what
  stays on disk is a suffix of what was written.
- **Response scanner, parser and printer** (`ShScan`, `ShUtils`), **command tokenizer** (`QuoteTokens`). The splitters
  are characterised as the only leftmost cut of the line, two-level parsing is a single scan, parsing undoes printing.
- **Master loop** (`MasterRounds`, `ProcManager`). Rounds of probe, start and kill over the managed processes: no
  child is lost or doubled in any run, and exactly when two calm rounds settle.
- **Plan parameter buffers**. The versioned buffer (`PlanColumns`, `PlanBuffer`) refines an abstract store of trimmed,
  stamped columns. The older buffer (`RowFill`, `RowBuffer`, `RowReuse`) grows and shrinks while it is filled and is
  never cleared between runs; `KeyNumbers`, `ColumnPlacing`, `ScriptBind` and `ScriptPlan` bind it back into query parameters, and
  `ResultBinding` follows a result to the sync query over every run. `Values` holds rows with a tail of nils.
- **Script plan reconciler** (`PlanReset`). A live map brought in line with a fetched list by hash.

Where the code changes state step by step the model is a class or a method with loops, and its contract names a
function of the inputs or of the old state; the theorems are about those functions. What the environment decides is a
parameter: the time seen by the k-th look at the clock, which operation fails, which children die, in which order Go
visits a map. A run-time panic is an outcome (`Crash`, `Panic`, `Crashed`, `crashed`), never a precondition.

The code is followed where its tests or its intention say otherwise:

- `Get` on a stamp that is not newer returns nil without an error, before the row is checked
  (cmd/oncecall_sync/plan/new/plan_buffer.go:177; the test at cmd/oncecall_sync/plan/new/plan_buffer_test.go:154 expects
  an error).
- The versioned table has one slot more than asked for (cmd/oncecall_sync/plan/new/plan_buffer.go:50; the test at
  cmd/oncecall_sync/plan/new/plan_buffer_test.go:258 expects the last index to fail).
- The names returned by `ParseResponse` number the rows, not the columns (connpool/internal/utils/sh_conn.go:185-188).
- A backup limit below 1 still keeps one backup, because the current file always moves to place 1
  (utils/log_file.go:98-105).
- The kill list is computed before the starts (cmd/oncecall_sync/entry/master.go:69-70), so a wanted process that was
  found dead is restarted and killed again in the same round.
- Plans that are no longer listed leave the map without being closed (cmd/oncecall_sync/entry/syncd.go:50-55).
- A plan state makes its parameter buffer once (cmd/oncecall_sync/plan/plan_state.go:28-40) and every run writes into
  what earlier runs left (cmd/oncecall_sync/plan/script_plan.go:402-428), so a shorter result sends old rows again.
- The idle bound of the older buffer is in nanoseconds (cmd/oncecall_sync/plan/plan_buffer.go:75), the stamps are in
  microseconds (cmd/oncecall_sync/plan/script_plan.go:412), so a limit of 60 seconds takes effect after 60 000.

Properties that fail as stated are given with the exact condition under which they hold: eviction soundness
(`IdleClock.SoundIff`), two-level parsing for all separators (`ShUtils.TwoLevelsAreOnePassIff`), the tokenizer
round trip (`QuoteTokens.UnwrapIsExactIffNonEmpty`), no child lost or doubled in a round (`MasterRounds.RoundIsSafeIff`),
unwanted children ended although a start failed (`MasterRounds.UnwantedGoneIff`),
convergence (`MasterRounds.TwoRoundsSettleIff`), independence of the map order (`ScriptBind.SyncParamIsDeterminedIff`,
`ScriptBind.ReadParamIsDeterminedIff`), binding over several plans (`ScriptBind.SyncReadsLongestArrays`),
sending the new rows and nothing else (`ResultBinding.UsedSlotReachesSync`), storing a result at all (`RowFill.EmptySlotTakesResultIff`), rebuilding a script without an option section
(`PlanReset.ResetIff`).

## Model

| member | source | states |
|---|---|---|
| PoolProtocol.PoolIsSafe | extension/pool/timeout_pool.go:57-172 | in every interleaving of any number of calls each generated item is queued once, held by one call, or closed once; `useCnt` is the number of calls in the use window; the idle queue never exceeds the configured limit, or 10 where none is set; the channel is made at most once; nothing is dropped |
| PoolLimit.LimitIsReached | extension/pool/timeout_pool.go:71-76 | the bound is tight: for every configuration some run of overlapping calls leaves exactly as many idle items as the limit, or 10 without one |
| PoolProtocol.SendNeverBlocks | extension/pool/timeout_pool.go:137-148 | a send that passed the test for room under the push lock always finds room, although receivers do not take the lock |
| PoolProtocol.NoDeadlock | extension/pool/timeout_pool.go:69-82 | a call in flight can always move, or waits for a lock whose holder can move |
| PoolProtocol.OneCallAtATime | extension/pool/timeout_pool.go:69-82 | two calls are never both between lock and unlock of the init lock, nor both between those of the push lock |
| PoolProtocol.ClosedItemsStayClosed | extension/pool/timeout_pool.go:84-150 | an item once closed is never queued, handed out or closed again, whatever happens later in the run |
| PoolProtocol.CloseClosesEverything | extension/pool/timeout_pool.go:153-172 | after `Close` every item ever generated has been closed exactly once |
| PoolProtocol.StepKeepsInv | extension/pool/timeout_pool.go:57-172 | every atomic step of every call, and of `Close`, keeps the whole invariant |
| PoolProtocol.RoomKept | extension/pool/timeout_pool.go:137-141 | room seen by the lock holder stays until it sends, whoever else moves |
| PoolProtocol.LocksKept | extension/pool/timeout_pool.go:69-82 | the init lock and the push lock each have at most one holder, at the places between lock and unlock |
| PoolProtocol.LayoutKept | extension/pool/timeout_pool.go:86-148 | taking, generating, putting back and closing each move one item to exactly one new place |
| ItemLayout.ClosedIsFinal | extension/pool/timeout_pool.go:91 | an item on the record of closed items is neither queued nor held |
| IdleClock.SoundIff | extension/pool/timeout_pool.go:90 | on an arbitrary clock an evicted item has really been idle longer than the timeout, for all times, if and only if the timeout is a whole number of seconds, not positive, or at least 58 s |
| IdleClock.SoundOnWholeSeconds | extension/pool/timeout_pool.go:90 | on a whole-second clock an evicted item has been idle longer than any timeout, across the minute boundary |
| IdleClock.SeenSecondsPassed | extension/pool/timeout_pool.go:139 | the difference of two stamps never exceeds the whole seconds that passed, whatever minutes were crossed |
| IdleClock.EvictsIff | extension/pool/timeout_pool.go:90 | some item can be evicted at some time if and only if the timeout is positive and below 58 s |
| IdleClock.EvictedIff | extension/pool/timeout_pool.go:90 | exactly when an item stamped at any time is evicted at a later time, in seconds: not stamped in second 0, no minute turned, enough whole seconds |
| IdleClock.ConnectionsAreNeverEvicted | connpool/factory.go:73 | with the 61 s every connection pool is built with, nothing is ever evicted |
| TimeoutPool.EvictedIsTheExpiredPrefix | extension/pool/timeout_pool.go:86-108 | the loop evicts exactly the maximal prefix of items found expired, each at the time it was looked at |
| TimeoutPool.ServeIsARun | extension/pool/timeout_pool.go:57-151 | one call alone is a run of the step relation from entry to return, and leaves a state the invariant allows |
| TimeoutPool.ServeMeans | extension/pool/timeout_pool.go:84-151 | what that call does to queue, closed items, counters and result, in terms of the expired prefix; a lone caller always finds room |
| TimeoutPool.Pool.constructor | extension/pool/timeout_pool.go:20-38 | a new pool is the empty protocol state |
| TimeoutPool.Pool.EnsureInit | extension/pool/timeout_pool.go:69-82 | the channel is made once with the limit as capacity, 10 if none is set, and kept afterwards |
| TimeoutPool.Pool.TryReceive | extension/pool/timeout_pool.go:86-95 | takes the first item that is not expired after closing those before it, or empties the queue |
| TimeoutPool.Pool.Get | extension/pool/timeout_pool.go:84-108 | an item from the channel, a new one when it is empty, or a counted error |
| TimeoutPool.Pool.RunWith | extension/pool/timeout_pool.go:110-149 | the item goes back with a fresh stamp, or is closed after an error or without room |
| TimeoutPool.Pool.Use | extension/pool/timeout_pool.go:57-151 | evicts exactly the maximal expired prefix, serves the next item or a new one, puts it at the end of the queue or closes it; closed and cancelled pools refuse; the call is a run of the protocol and keeps its invariant |
| TimeoutPool.Pool.Close | extension/pool/timeout_pool.go:153-172 | closes every idle item once, in order, and touches no counter; a second call reports an error and changes nothing |
| SimplePool.SimpleStepIsTimeoutSteps | extension/pool/simple_pool.go:50-130 | each step of the simple pool is one or two steps of a timeout pool without timeout |
| SimplePool.SimplePoolIsSafe | extension/pool/simple_pool.go:50-151 | the simple pool keeps the same invariant in every interleaving, and the same bound on the idle queue |
| PoolLimit.SimpleLimitIsReached | extension/pool/simple_pool.go:62-75 | that bound is tight as well |
| SimplePool.NoTimeoutIsTheSimplePool | extension/pool/timeout_pool.go:90-95 | with no timeout, and stamps forgotten, each step of the timeout pool is the same step of the simple pool; passing the expiry test is no step |
| SimplePoolObject.Pool.constructor | extension/pool/simple_pool.go:14-31 | a new pool is the empty protocol state |
| SimplePoolObject.Pool.Use | extension/pool/simple_pool.go:50-130 | meets the specification of the timeout pool's `Use` with the timeout off; the call is a run of the protocol and keeps its invariant |
| SimplePoolObject.Pool.Close | extension/pool/simple_pool.go:132-151 | closes every idle item once, in order, and touches no counter; a second call reports an error and changes nothing |
| RotateLog.RunRetainsExactly | utils/log_file.go:51-120 | conservation over every run of writes, with any file operation failing at any point, closings and re-openings: the initial files and all bytes that reached the disk are exactly the oldest kept backups that rotations dropped, in order, followed by backup_n ++ ... ++ backup_1 ++ current |
| RotateLog.RunRetainsSuffix | utils/log_file.go:51-120 | hence over every such run what is on disk is a suffix of the initial files followed by all bytes that reached the disk |
| RotateLog.UnrotatedRunKeepsAll | utils/log_file.go:51-65 | a run without a rotation, whatever else fails, retains everything |
| RotateLog.RotateLosesOldest | utils/log_file.go:77-120 | one rotation, wherever it fails, loses the content of the oldest kept backup or nothing, and exactly when |
| RotateLog.OpenKeepsEverything | utils/log_file.go:27-48 | opening changes nothing at any place and only creates a missing current file; the size is its length |
| RotatePlaces.RotateLeaves | utils/log_file.go:77-120 | exactly when a rotation succeeds, and what it leaves at every single place, wherever it fails; after a failure the handle stays closed |
| RotatePlaces.TakenIs | utils/log_file.go:51-65 | how many bytes of a record reach the disk: none if a needed rotation fails or the handle is closed, otherwise what the write takes, from the beginning of the record |
| RotateLog.WriteRetainsSuffix | utils/log_file.go:51-65 | one write keeps a suffix of what was there followed by the bytes it put on disk, which are the beginning of the record |
| RotateLog.RotateRetainsSuffix | utils/log_file.go:77-120 | a rotation, wherever it fails, keeps a suffix and never reorders |
| RotateLog.ShiftKeepsOrder | utils/log_file.go:87-96 | the descending rename loop, stopped anywhere, loses no byte once the place above it is free |
| RotateLog.RotateIsExactShift | utils/log_file.go:77-120 | without failures every file moves up by exactly one place and only the oldest content is dropped |
| RotateLog.WriteLandsWhole | utils/log_file.go:51-65 | without failures a record lands whole at the end of one file, which stays within the limit unless the record alone exceeds it |
| RotateLog.SurvivesExactly | utils/log_file.go:51-120 | what is in the current file heads backup r after r rotations, for exactly as many rotations as backups are kept; after one more only later records remain; closings and re-openings in between make no difference |
| RotateLog.RunKeepsSize | utils/log_file.go:62 | over every run, while the handle is open, the cached size is the real length of the current file |
| RotateLog.ClosedHandleWritesNothing | utils/log_file.go:77-82 | after a failed rotation or a close nothing reaches the disk until the log is opened again |
| RotateWriter.Writer.constructor | utils/log_file.go:21-49 | opening keeps the content at every path, creates only a missing current file, and takes its length as size |
| RotateWriter.Writer.Write | utils/log_file.go:51-65 | the directory after the call is `RotateLog.Write`, the count returned is what reached the disk, success exactly if all of it did |
| RotateWriter.Writer.Rotate | utils/log_file.go:77-120 | the rename loop computes `RotateLog.Rotate`, including every early return |
| RotateWriter.Writer.Close | utils/log_file.go:67-75 | closes the handle; a second call fails |
| ShScan.SplitIsTheLeftmostCut | connpool/internal/utils/sh_conn.go:45-70 | the quote-keeping fields are the only list that joins to the line and is cut at the leftmost separators outside quotes |
| ShScan.JoinUndoesSplit | connpool/internal/utils/sh_conn.go:45-70 | joining the quote-keeping fields with the separator gives back the line |
| ShScan.KeepAndDropAgree | connpool/internal/utils/sh_conn.go:19-70 | dropping the quotes from the quote-keeping fields gives the plain fields, one for one |
| ShScan.OnlyTheLastFieldIsOpen | connpool/internal/utils/sh_conn.go:45-70 | every quote-keeping field except possibly the last closes its quotes |
| ShScan.SplitCutsLeftmost | connpool/internal/utils/sh_conn.go:50-65 | every separator is recognised at the first possible place |
| ShScan.ScanThrough | connpool/internal/utils/sh_conn.go:24-38 | over a stretch with no recognisable separator the scan only collects bytes and counts quotes |
| ShUtils.SplitLine | connpool/internal/utils/sh_conn.go:19-43 | the index loop returns the fields without their quotes |
| ShUtils.SplitLineKeepQuote | connpool/internal/utils/sh_conn.go:45-70 | the index loop returns the fields with their quotes |
| ShUtils.CountFields | connpool/internal/utils/sh_conn.go:72-88 | the count is the number of fields of both splitters |
| ShUtils.ParseResponse | connpool/internal/utils/sh_conn.go:156-192 | every row holds the fields of its line, found with quotes kept between lines and dropped between cells, then nil up to the width of the longest row, without an index out of range; without a splitter one cell a line; names are the decimal row numbers |
| ShUtils.FillRow | connpool/internal/utils/sh_conn.go:172-177 | every field fits the row that was counted for it; the rest stays nil |
| ShUtils.WidestLine | connpool/internal/utils/sh_conn.go:162-170 | the row length is the largest number of fields of a line |
| ShUtils.RowNames | connpool/internal/utils/sh_conn.go:185-188 | each name is the decimal text of its row number from 1, with that value and no leading zero |
| ShUtils.ItoaIsDecimal | connpool/internal/utils/sh_conn.go:187-208 | the printed text of a number has that decimal value, no leading zero and a minus sign only for a negative one |
| ShUtils.WidthIsTheLongestRow | connpool/internal/utils/sh_conn.go:162-170 | no row is longer than the width, and some row has it |
| ShUtils.TwoLevelsAreOnePass | connpool/internal/utils/sh_conn.go:156-177 | for such separators cutting lines and then cells gives the same table as one scanner that carries the quote state over the whole input, from either quote state |
| ShUtils.DisjointSeparators | connpool/internal/utils/sh_conn.go:156-158 | separators that share no byte meet the condition of the one-pass theorem if the splitter holds no quote |
| ShUtils.TwoLevelsAreOnePassIff | connpool/internal/utils/sh_conn.go:156-177 | for all non-empty separators, quotes in them included, both ways agree on every input if and only if a condition on the two holds: one begins with a quote, or the splitter begins with the newline, or it closes its quotes and hides no newline |
| ShUtils.OpenQuoteDisagrees | connpool/internal/utils/sh_conn.go:156-177 | for every splitter that leaves a quote open, and is recognised at all, an input on which the two ways differ |
| ShUtils.HiddenNewlineDisagrees | connpool/internal/utils/sh_conn.go:156-177 | every input beginning with a splitter that hides a newline outside its quotes is parsed differently |
| ShUtils.MakeParam | connpool/internal/utils/sh_conn.go:194-224 | prints every cell followed by the divider and every row by the newline, then the end string |
| ShUtils.WriteRow | connpool/internal/utils/sh_conn.go:198-218 | each kind of value is appended in its own form |
| ShUtils.UnhexUndoesHex | connpool/internal/utils/sh_conn.go:201-202 | pairs of lower-case hex digits decode to the printed bytes |
| ShUtils.RowComesBack | connpool/internal/utils/sh_conn.go:156-224 | one printed row is scanned back as one cell for each parameter, which says what the parameter was, and one empty cell |
| ShUtils.ParseUndoesPrint | connpool/internal/utils/sh_conn.go:156-224 | for clean cells and disjoint separators of any length every parameter comes back in its cell: a string as itself, bytes as hex digits that decode to them, a number as its decimal text, a truth value as its word; each row gains one empty cell and is nil-padded, the end string makes one last row |
| QuoteTokens.SplitRespectQuotesStr | connpool/internal/utils/common.go:5-41 | the loop with two quote flags returns the tokens of the three-state scanner |
| QuoteTokens.SplitRespectQuotesAny | connpool/internal/utils/common.go:42-78 | the same tokens, boxed one by one |
| QuoteTokens.TokensAreTheCutContents | connpool/internal/utils/common.go:5-41 | reference definition: the tokens are the non-empty contents of the pieces of the only cut at exactly the spaces outside quotes |
| QuoteTokens.TokensAreNonEmpty | connpool/internal/utils/common.go:24-31 | no token is empty, on any input |
| QuoteTokens.TokensKeepTheContent | connpool/internal/utils/common.go:5-41 | the tokens hold every character except the active quotes and the spaces outside quotes, in order |
| QuoteTokens.UnwrapWrapped | connpool/internal/utils/common.go:5-41 | texts wrapped in a quote they do not hold and joined with spaces come back, except that an empty text leaves no token |
| QuoteTokens.UnwrapIsExactIffNonEmpty | connpool/internal/utils/common.go:5-41 | all texts come back if and only if none is empty |
| QuoteTokens.WordsComeBack | connpool/internal/utils/common.go:5-41 | words that are plain, in quotes of either kind or mixed of such parts, separated by any number of spaces: the tokens are exactly what the words say |
| MasterRounds.RoundsKeepInv | cmd/oncecall_sync/entry/master.go:50-84 | over every run of rounds with changing duplicate-free lists, deaths at any moment and failing starts and kills, every live child is the one registered for its ident |
| MasterRounds.NoChildIsLost | cmd/oncecall_sync/entry/master/proc_exec.go:49-79 | hence a live child is registered under exactly one ident and no ident has two live children |
| MasterRounds.StartKeepsInvIff | cmd/oncecall_sync/entry/master/proc_exec.go:71-76 | a start keeps this exactly when the registered child of the ident, if any, is dead |
| MasterRounds.RoundKeepsInv | cmd/oncecall_sync/entry/master.go:69-80 | one round keeps it, whatever fails or dies in between |
| MasterRounds.RoundIsSafeIff | cmd/oncecall_sync/entry/master.go:69-80 | from any safe state, a round keeps every child registered and single, for every order, every death and every failure, if and only if the list is duplicate-free |
| MasterRounds.DuplicatesLoseAChild | cmd/oncecall_sync/entry/master.go:27-38 | every list that names an ident twice loses a child in a round where the children die at the first look and the kills fail, from any state |
| MasterRounds.UnwantedGoneIff | cmd/oncecall_sync/entry/master.go:69-80 | in a round without deaths and failing kills, however the starts fail, an unwanted live child is gone if and only if every entry listed before it was found alive or started again |
| MasterRounds.FailedStartsSpareNobody | cmd/oncecall_sync/entry/master.go:72-80 | hence if every registered child is alive a failed start does not keep the round from ending every unwanted child, and live wanted children are untouched |
| MasterRounds.StartsInListOrder | cmd/oncecall_sync/entry/master.go:27-38 | in a round without deaths, whatever fails, the idents found dead are started in the order of the list up to the first failing start; an ident that is not started again keeps its entry as it was |
| MasterRounds.CalmRound | cmd/oncecall_sync/entry/master.go:69-80 | one round without failures removes every unwanted entry, leaves live wanted children alone, starts missing ones, and drops wanted entries found dead |
| MasterRounds.TwoRoundsSettleIff | cmd/oncecall_sync/entry/master.go:69-80 | two rounds make the managed set the list, all alive, if and only if every unwanted entry had a live child; a third round changes nothing |
| MasterRounds.SettledIsStable | cmd/oncecall_sync/entry/master.go:69-80 | a settled state is a fixed point |
| MasterRounds.DeadUnwantedStays | cmd/oncecall_sync/entry/master/proc_exec.go:122-128 | an unwanted entry whose child is dead stays through any round, because the kill reports it missing |
| MasterRounds.DifferenceElems | utils/generic/util_func.go:5-17 | the difference holds exactly the incoming elements that are not existing, without new duplicates |
| MasterRounds.DifferenceIsChosen | utils/generic/util_func.go:5-17 | reference definition: the incoming elements that are not existing, in order |
| MasterRounds.ProbeFindsTheDead | cmd/oncecall_sync/entry/master.go:12-25 | with truthful probes everything listed as down has no live child, even if children die while probing |
| ProcManager.Manager.constructor | cmd/oncecall_sync/entry/master/proc_exec.go:33-41 | no entry and no child at first |
| ProcManager.Manager.List | cmd/oncecall_sync/entry/master/proc_exec.go:43-47 | the managed idents, each once, in any order |
| ProcManager.Manager.Start | cmd/oncecall_sync/entry/master/proc_exec.go:49-79 | a started child replaces the entry of its ident; a failed start changes no entry and no child |
| ProcManager.Manager.Alive | cmd/oncecall_sync/entry/master/proc_exec.go:81-102 | true exactly if the registered child lives |
| ProcManager.Manager.Kill | cmd/oncecall_sync/entry/master/proc_exec.go:104-152 | the entry goes only together with its live child; every error leaves it |
| ProcManager.MasterCurrentProcList | cmd/oncecall_sync/entry/master.go:12-25 | the list is partitioned in order by the probes |
| ProcManager.MasterDownStart | cmd/oncecall_sync/entry/master.go:27-38 | starts in order up to the first failure |
| ProcManager.MasterDownAliveProc | cmd/oncecall_sync/entry/master.go:40-48 | kills in order up to the first failure |
| ProcManager.Difference | utils/generic/util_func.go:5-17 | exactly the incoming elements that are not existing, in order |
| ProcManager.MasterRound | cmd/oncecall_sync/entry/master.go:63-80 | one turn of the loop is `MasterRounds.Round`, failures of one stage not stopping the next, and keeps the invariant for duplicate-free lists |
| PlanColumns.IdleIffOlderThanBound | cmd/oncecall_sync/plan/new/plan_buffer.go:269-270 | the 64-bit test evicts exactly the columns older than the bound, unless the difference overflows, when it evicts none |
| PlanColumns.SetCellReads | cmd/oncecall_sync/plan/new/plan_buffer.go:62-96 | a cell write changes its cell and no other cell of a surviving column, growth included |
| PlanColumns.SetColsReads | cmd/oncecall_sync/plan/new/plan_buffer.go:98-123 | after a column write every cell reads as given, nil past the end, under the new stamp |
| PlanColumns.PutTableReads | cmd/oncecall_sync/plan/new/plan_buffer.go:139-154 | column k of the table is stored under its name, the last of equal names counts, missing cells of short rows read nil |
| PlanColumns.SetTableReads | cmd/oncecall_sync/plan/new/plan_buffer.go:125-157 | after a table write cell (k, row) of each column reads as given, nil where a row is short, under the new stamp; of equal names the last one counts |
| PlanColumns.PutTableFrame | cmd/oncecall_sync/plan/new/plan_buffer.go:125-157 | columns the table does not name stay |
| PlanColumns.WriteFrame | cmd/oncecall_sync/plan/new/plan_buffer.go:262-275 | an accepted write leaves a column it does not name as it was, or evicts it if it is idle, and makes no other |
| PlanColumns.UntouchedColumnStaysIff | cmd/oncecall_sync/plan/new/plan_buffer.go:262-275 | over every run a column nobody writes stays, unchanged, if and only if no accepted write found it idle |
| PlanColumns.SizesShrinkWithSeq | cmd/oncecall_sync/plan/new/plan_buffer.go:243-311 | the sizes are determined without any map order and never grow with the asked stamp |
| PlanBuffer.Buffer.constructor | cmd/oncecall_sync/plan/new/plan_buffer.go:36-60 | one empty slot more than asked, two if the count is negative |
| PlanBuffer.Buffer.DeleteIdle | cmd/oncecall_sync/plan/new/plan_buffer.go:262-275 | removes exactly the idle columns of every slot |
| PlanBuffer.Buffer.Set | cmd/oncecall_sync/plan/new/plan_buffer.go:62-96 | refines the abstract cell write after eviction, keeps the cached size exact, grows by the capacity only past the end |
| PlanBuffer.Buffer.SetColsData | cmd/oncecall_sync/plan/new/plan_buffer.go:98-123 | refines the abstract column write, with a size computed before padding |
| PlanBuffer.Buffer.SetTable | cmd/oncecall_sync/plan/new/plan_buffer.go:125-157 | refines the abstract table write, column by column |
| PlanBuffer.Buffer.ColumnRow | cmd/oncecall_sync/plan/new/plan_buffer.go:140-146 | a column of a ragged table, padded |
| PlanBuffer.Buffer.Get | cmd/oncecall_sync/plan/new/plan_buffer.go:159-186 | each error exactly when it occurs; the abstract cell when the stamp is newer |
| PlanBuffer.Buffer.GetColsData | cmd/oncecall_sync/plan/new/plan_buffer.go:188-213 | exactly the abstract column when its stamp is newer than asked |
| PlanBuffer.Buffer.MaxColSizeOf | cmd/oncecall_sync/plan/new/plan_buffer.go:277-296 | the largest number of columns of a slot sharing one newer stamp, whatever the map order |
| PlanBuffer.Buffer.MaxRowSizeOf | cmd/oncecall_sync/plan/new/plan_buffer.go:298-311 | the longest newer column of a slot |
| PlanBuffer.Buffer.MaxColSize | cmd/oncecall_sync/plan/new/plan_buffer.go:215-227 | the same behind the index check |
| PlanBuffer.Buffer.MaxRowSize | cmd/oncecall_sync/plan/new/plan_buffer.go:229-241 | the same behind the index check |
| PlanBuffer.Buffer.MaxSize | cmd/oncecall_sync/plan/new/plan_buffer.go:243-260 | both maxima over all slots; every column that can be read fits |
| PlanBuffer.CalculateRowSize | cmd/oncecall_sync/plan/new/plan_buffer.go:320-327 | the backward loop finds the end of the row |
| PlanBuffer.PaddedRow | cmd/oncecall_sync/plan/new/plan_buffer.go:113-120 | padding with nils changes neither the size nor the abstract column |
| PlanBuffer.GrownRow | cmd/oncecall_sync/plan/new/plan_buffer.go:83-90 | copying into a longer row and writing is the abstract cell write |
| Values.RowSizeIff | cmd/oncecall_sync/plan/new/plan_buffer.go:320-327 | the size is the only place after which all is nil and before which something is not |
| Values.TrimReads | cmd/oncecall_sync/plan/new/plan_buffer.go:209-212 | rows trim to the same row if and only if they read the same everywhere |
| RowFill.SetPanicsIff | cmd/oncecall_sync/plan/plan_buffer.go:62-88 | exactly when a write panics, for every capacity |
| RowFill.StaleIff | cmd/oncecall_sync/plan/plan_buffer.go:70-75 | when an entry counts as stale, in terms of the configured seconds, 60 by default, and the two stamps, overflow included |
| RowFill.SetLength | cmd/oncecall_sync/plan/plan_buffer.go:62-82 | the length a write gives an array: grown by the capacity, cut to the row plus the capacity, or unchanged |
| RowFill.SetOutcome | cmd/oncecall_sync/plan/plan_buffer.go:55-91 | exactly when a write is an error, panics, or stores; it stores its value and touches one array only |
| RowFill.SetKeepsEarlierRows | cmd/oncecall_sync/plan/plan_buffer.go:62-88 | with a positive capacity the next row fits and earlier rows survive growing and shrinking |
| RowFill.FillSurvivesResizing | cmd/oncecall_sync/plan/script_plan.go:391-397 | storing a rectangular result under distinct names never panics, from any buffer state, and afterwards every cell is there and other columns are untouched |
| RowFill.FillIsSlotwise | cmd/oncecall_sync/plan/script_plan.go:391-397 | a fill changes only the slot of its plan |
| RowFill.AllocThenGet | cmd/oncecall_sync/plan/script_plan.go:382-400 | reading at that stamp gives back rows[r][c] for every cell |
| RowFill.AllocOutcome | cmd/oncecall_sync/plan/script_plan.go:382-400 | how storing a result of any shape ends: only the first row is compared with the names, a missing slot is an error, a later longer row a crash |
| RowFill.EmptySlotTakesResultIff | cmd/oncecall_sync/plan/plan_buffer.go:62-67 | a whole result can be stored in an empty slot if and only if the capacity is positive; an unset capacity is 0 |
| RowReuse.FillReuses | cmd/oncecall_sync/plan/script_plan.go:391-397 | storing a result into a slot in any state: each named array becomes the new values, then what was never cut off of the old array, then spare entries, with the length its stamps dictate |
| RowReuse.ResultKeepsOneShape | cmd/oncecall_sync/plan/plan_buffer.go:62-83 | columns of equal length and stamps stay so, although every row may resize every array |
| RowReuse.KeptIsLeft | cmd/oncecall_sync/plan/plan_buffer.go:75-82 | how much of an old array a whole result leaves is decided by the staleness test of its first write: all of it, or no more than the capacity |
| RowReuse.LengthAfterResult | cmd/oncecall_sync/plan/plan_buffer.go:62-83 | how long the arrays are after a result on a clock later than the idle bound: one spare entry less than the capacity, unless an array that is not stale was long enough |
| RowReuse.ReadsAfterResult | cmd/oncecall_sync/plan/plan_buffer.go:38-53 | reading a column after a result gives its rows, then the leftovers |
| RowReuse.ShorterResultShowsOldRows | cmd/oncecall_sync/plan/plan_buffer.go:62-83 | a shorter result on a slot that is not stale shows every old row past it again |
| RowReuse.SizesOfOneShape | cmd/oncecall_sync/plan/plan_buffer.go:117-136 | the sizes of such a slot are the number of columns and the common length |
| RowBuffer.Buffer.constructor | cmd/oncecall_sync/plan/plan_buffer.go:19-36 | one empty map a plan |
| RowBuffer.Buffer.Get | cmd/oncecall_sync/plan/plan_buffer.go:38-53 | every branch, a negative index and row included, is the outcome of the specification |
| RowBuffer.Buffer.Set | cmd/oncecall_sync/plan/plan_buffer.go:55-91 | outcome and new contents are those of the specification; an error leaves the buffer alone |
| RowBuffer.Buffer.Written | cmd/oncecall_sync/plan/plan_buffer.go:62-88 | growing, rebuilding and writing one array |
| RowBuffer.Buffer.MaxRowSize | cmd/oncecall_sync/plan/plan_buffer.go:102-115 | the longest array of a slot, whatever the map order |
| RowBuffer.Buffer.MaxSize | cmd/oncecall_sync/plan/plan_buffer.go:117-136 | the widest slot and the longest array of all |
| RowBuffer.SizesAreDetermined | cmd/oncecall_sync/plan/plan_buffer.go:117-136 | no other pair of numbers meets that description |
| ScriptPlan.AllocCurrentDataToState | cmd/oncecall_sync/plan/script_plan.go:382-400 | the nested loops store the result as specified, stopping at the first cell that fails |
| ScriptPlan.AllocRows | cmd/oncecall_sync/plan/script_plan.go:391-397 | row by row in place, an error leaving the buffer as it was |
| ScriptPlan.AllocRow | cmd/oncecall_sync/plan/script_plan.go:392-396 | cell by cell in place; a row longer than the names crashes |
| ScriptPlan.MakeSyncPlanParam | cmd/oncecall_sync/plan/script_plan.go:207-255 | for every visiting order, the rows built in place from the sizes of the whole buffer are those of the specification, or its first failure |
| ScriptPlan.BindColumn | cmd/oncecall_sync/plan/script_plan.go:220-253 | one binding writes exactly its column, or fails as specified |
| ScriptPlan.FillStatic | cmd/oncecall_sync/plan/script_plan.go:234-237 | a constant fills every row of its column |
| ScriptPlan.FillDynamic | cmd/oncecall_sync/plan/script_plan.go:238-248 | rows before the start offset are left alone, the others read; the first unreadable row fails the column |
| ScriptPlan.MakeReadPlanParam | cmd/oncecall_sync/plan/script_plan.go:126-165 | for every two visiting orders, the row built in place is that of the specification |
| ScriptPlan.LargestPosition | cmd/oncecall_sync/plan/script_plan.go:127-136 | the width is the largest position, or some key is no number |
| KeyNumbers.AtoiIff | cmd/oncecall_sync/plan/script_plan.go:127-131 | exactly the texts that name a number: its decimal digits behind any zeros and an optional sign, within 64 bits; every other key is refused |
| KeyNumbers.DecimalKeyIsRead | cmd/oncecall_sync/plan/script_plan.go:140-146 | the decimal text of every 64-bit number is read as that number, and a positive one names the position before it |
| ScriptBind.WidthIsDetermined | cmd/oncecall_sync/plan/script_plan.go:127-136 | the width does not depend on the visiting order |
| ScriptPlan.ReadCell | cmd/oncecall_sync/plan/script_plan.go:140-161 | position and value of one binding, or why it has none |
| ColumnPlacing.PlacedIff | cmd/oncecall_sync/plan/script_plan.go:220-255 | placing succeeds if and only if no binding fails, and if no two contradict each other every cell holds what is written there, nil where nothing is |
| ColumnPlacing.OrderIsIrrelevantIff | cmd/oncecall_sync/plan/script_plan.go:220-255 | all visiting orders give the same rows or the same failure if and only if no two keys write different values to one cell or, where some bindings fail, all of those fail alike |
| ColumnPlacing.FirstVisitDecides | cmd/oncecall_sync/plan/script_plan.go:220-253 | for every failing binding some order reports its failure |
| ColumnPlacing.LastWriteWins | cmd/oncecall_sync/plan/script_plan.go:235-247 | for every binding and every cell it writes some order shows its value |
| ScriptBind.SyncParamIsDeterminedIff | cmd/oncecall_sync/plan/script_plan.go:207-255 | for every buffer and all bindings the sync parameters, a failure or crash included, do not depend on the map order if and only if no two keys write different values to one cell or, where some bindings fail, all of those fail alike |
| ScriptBind.SyncParamIsDetermined | cmd/oncecall_sync/plan/script_plan.go:207-255 | with distinct positions the map order matters if and only if two bindings fail differently |
| ScriptBind.TwoConstantsDependOnOrder | cmd/oncecall_sync/plan/script_plan.go:234-237 | wherever all bindings succeed, two different constants for one position depend on the map order |
| ScriptBind.EqualPositionsDependOnOrder | cmd/oncecall_sync/plan/script_plan.go:220-237 | an instance on a one-cell buffer with its own sizes: constants under "1" and "01" |
| ScriptBind.CrashDependsOnOrder | cmd/oncecall_sync/plan/script_plan.go:220-243 | an instance on a one-cell buffer with its own sizes: a negative plan index and a key that is no number, so one order crashes and the other reports an error |
| ScriptBind.SyncParamIff | cmd/oncecall_sync/plan/script_plan.go:220-253 | for every buffer the sync parameters are built if and only if each key names a position and is a constant or reads an array that has all rows, is not read, or belongs to a plan past the last |
| ScriptBind.SyncFailure | cmd/oncecall_sync/plan/script_plan.go:221-253 | which failure a binding of the sync query reports, and exactly when it crashes |
| ScriptBind.SyncParamHolds | cmd/oncecall_sync/plan/script_plan.go:220-255 | for every buffer, with distinct positions: each row holds the constant, nothing before the offset, or the entry of that plan and column unless it is newer, and nil at positions nobody names |
| ScriptBind.SyncReadsLongestArrays | cmd/oncecall_sync/plan/script_plan.go:210-248 | with the sizes of the whole buffer, for any number of plans: the binding succeeds if and only if every array that is read is a longest one |
| ScriptBind.DynamicColumnIff | cmd/oncecall_sync/plan/script_plan.go:238-248 | a dynamic column succeeds if and only if every row from its offset on can be read, and holds those values |
| ScriptBind.ReadParamIff | cmd/oncecall_sync/plan/script_plan.go:126-165 | a read parameter row is built if and only if every key is a positive number and every binding is a constant, names an entry that exists or a plan past the last, or is neither |
| ScriptBind.ReadParamHolds | cmd/oncecall_sync/plan/script_plan.go:126-165 | with distinct positions every value is then at its place: a constant as its text, also where there is a dynamic part; a dynamic binding as the entry of its plan, column and row, nil if that is newer; a binding that is neither as nil |
| ScriptBind.BoundIffReadable | cmd/oncecall_sync/plan/script_plan.go:130-161 | a read binding is placed if and only if its key is positive and its value can be read; it crashes if and only if the key is the smallest 64-bit number, whose position wraps, its plan index is negative, or its row is |
| ScriptBind.ReadParamIsDeterminedIff | cmd/oncecall_sync/plan/script_plan.go:126-165 | the read parameters do not depend on the map order if and only if some key is no number, or the keys of one position read one value, or, where some bindings fail, all of those fail alike |
| ResultBinding.UsedSlotReachesSync | cmd/oncecall_sync/plan/script_plan.go:207-255 | a run on a used slot: the binding succeeds whatever the map order, all columns have one length, and the rows sent are the new ones from the offset on, then the leftovers; exactly the new rows are sent if and only if every visible entry that the staleness test leaves past them is nil |
| ResultBinding.EveryRunReachesSync | cmd/oncecall_sync/plan/script_plan.go:402-428 | the same after any number of earlier runs, since the buffer is made once and never cleared |
| ResultBinding.ResultReachesSync | cmd/oncecall_sync/plan/script_plan.go:207-255 | the first run: a dynamic column repeats the rows from its offset on and is nil before it and in spare rows, of which a real clock leaves one less than the capacity; a constant fills every row |
| ResultBinding.ResultReachesRead | cmd/oncecall_sync/plan/script_plan.go:147-160 | row r, column c of a rectangular result is what a dynamic binding of a later read query puts into its parameter row, whatever the slot held before |
| ResultBinding.OldRowsAreSentAgain | cmd/oncecall_sync/plan/script_plan.go:238-248 | an instance with stamps of a real clock: two rows read, ten seconds later one; the parameters of the second run are the new row and the old second row |
| ScriptBind.EmptyBufferBindsNothing | cmd/oncecall_sync/plan/script_plan.go:230-232 | before anything was read a binding succeeds if and only if it names no position |
| PlanReset.ResetIff | cmd/oncecall_sync/entry/syncd.go:49-78 | a reset gets through if and only if every listed name has its fetched hash already or a script with an option section; then the names and hashes are the fetched ones, unchanged hashes keep the same plan and state, the others are new and built from the fetched script |
| PlanReset.ChangedHashIsReplaced | cmd/oncecall_sync/entry/syncd.go:57-76 | a plan whose fetched hash changed is closed and replaced by one that was never there before, built from the fetched script |
| PlanReset.SecondResetIsIdle | cmd/oncecall_sync/entry/syncd.go:57-62 | a second reset with the same list does nothing |
| PlanReset.ClosedExactlyOnce | cmd/oncecall_sync/entry/syncd.go:64 | each replaced plan is closed exactly once and no other plan is closed |
| PlanReset.ResetsKeepInv | cmd/oncecall_sync/entry/syncd.go:49-78 | over every run of resets, a crash included, no plan is closed twice and no closed plan is in the map |
| PlanReset.DroppedIsNeverClosed | cmd/oncecall_sync/entry/syncd.go:50-55 | a plan whose script is gone from the list is never closed, whatever is fetched later |
| PlanReset.CrashSite | cmd/oncecall_sync/entry/syncd.go:64-70 | a crash happens at a script without options, with everything before it in the list done and its own old plan closed and gone |
| PlanReset.PrivateState.constructor | cmd/oncecall_sync/entry/syncd/private_state.go:20-24 | no plan at first |
| PlanReset.PrivateState.DropUnlisted | cmd/oncecall_sync/entry/syncd.go:50-55 | removes exactly the names that are not listed, in any visiting order |
| PlanReset.PrivateState.ResetKey | cmd/oncecall_sync/entry/syncd.go:58-76 | one name is kept, replaced or built, or the call crashes after closing |
| PlanReset.PrivateState.ResetScriptPlan | cmd/oncecall_sync/entry/syncd.go:49-78 | the two loops compute `PlanReset.ResetPlans` and keep the invariant |

## Left out

- PoolProtocol.PoolIsSafe: `Close` begins only when no call is in flight, so a push to a closed channel, a late caller with a zero item and an item held across the close are not modelled; cancellation is a close with no call in flight.
- PoolProtocol.CloseClosesEverything: is about a close that begins when no call is in flight.
- SimplePool.SimplePoolIsSafe: is about a close that begins when no call is in flight.
- PoolProtocol.NoDeadlock: the user function and the generator always return; their panics and their time are not modelled.
- TimeoutPool.Pool.Use: is for one caller at a time, since an object's method cannot be interleaved; interleavings are those of the protocol.
- SimplePoolObject.Pool.Use: is for one caller at a time, like that of the timeout pool.
- RotateLog.RunRetainsSuffix: rests on the same assumptions as the conservation law.
- RotateLog.SurvivesExactly: is about runs without failing operations; with failures the conservation law holds.
- RotateLog.RunRetainsExactly: a file is found exactly if it exists, and the bytes a write reports are the bytes on disk; other processes do not touch the directory.
- ShUtils.SplitLine: does not model an empty separator, where the index of the source never advances.
- ShUtils.MakeParam: does not model the formatting of floats, whose text is given.
- ShUtils.WriteRow: does not model the formatting of floats, whose text is given.
- MasterRounds.RoundsKeepInv: probes are truthful, pids are never reused and a kill that reports success has ended the child; how the operating system is asked, zombies and parent pids are not modelled.
- MasterRounds.TwoRoundsSettleIff: is about rounds in which nothing fails and no child dies on its own.
- PlanBuffer.Buffer.Set: one caller at a time, as under its lock; the reading methods return copies in the source and values here.
- RowBuffer.Buffer.Set: what the buffer holds after a run-time panic is not described, since nothing recovers from it and the process ends.
- ScriptPlan.AllocCurrentDataToState: the same after a panic.
- ScriptPlan.AllocRows: the same after a panic.
- ScriptPlan.AllocRow: the same after a panic.
- ResultBinding.EveryRunReachesSync: one read plan, as for a single run.
- ResultBinding.ResultReachesSync: one read plan, as for a single run.
- ResultBinding.UsedSlotReachesSync: one read plan whose query returns the same distinct columns in every run; when a binding over several plans succeeds is `ScriptBind.SyncReadsLongestArrays`, what it then sends is not followed through earlier runs.
- ScriptPlan.MakeSyncPlanParam: the branches that take parameters from a script engine or from the previous result are not modelled.
- ScriptPlan.MakeReadPlanParam: the branches that take parameters from a script engine or from the previous result are not modelled.
- PlanReset.PrivateState.ResetScriptPlan: the goroutine that reads the map at the same time is not modelled; what a plan does when it is closed is not part of this model.
- Lengths and counters are unbounded integers; key positions, the differences of stamps and the idle bound are computed in 64 bits.
- Database drivers, foreign calls, the script engine, fetching of lists, generated message classes and the metric map.
- `ParseResponseFromReader`: depends on the buffering of the reader it scans.
- `runRead`: its chaining of results never assigns the previous data, and the unfinished plan_impl.go beside the versioned buffer.
- Sleeping, merged contexts, error chains, configuration, logging setup and the parsing of memory sizes.
