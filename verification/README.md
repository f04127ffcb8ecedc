# A verified model of the easy42 network orchestrator

easy42 runs a mesh of routers. A controller, written in Go, keeps the configuration, compiles it
into BIRD and nftables settings, stores telemetry, publishes DNS records and talks to one agent per
node. The agent, written in Rust, runs cron tasks, writes the hosts file, the crontab and the
files of managed apps. This project models the parts of both programs that carry real invariants
and proves them for all inputs, all runs and all interleavings.

`dafny verify dfyconfig.toml` checks the whole project.

## What is modelled

Code that only computes values is modelled by functions and lemmas; loops and objects that the
programs update in place are methods and classes, each proved against a specification function
whose own properties are then proved as lemmas.

- **Cron** (`Calendar`, `CronSchedule`, `CronParse`, `CronMeaning`). The agent's closed-form calendar is a
  counting calendar for every day number. The search for the next firing is minimal and complete,
  and finds something within 366 days exactly for the expressions one would hope for. An expression
  written by the grammar fires, on both programs, at exactly the times it asks for. The
  controller's validator and compiler and the agent's parser agree, up to exact conditions on the
  width of integers.
- **Agent sessions** (`AgentConnection`, `AgentHub`, `AgentOutcomes`). Callers, one reader and a close run as
  atomic steps under the session's mutexes; the hub's tables change under its lock. An inductive invariant
  covers every interleaving, and every outcome of a call goes back to the event that caused it.
- **Traffic statistics** (`Traffic`, `Rollup`, `TrafficWindow`, `TrafficStore`). Counters that reset
  are accumulated incrementally, compacted into five-minute rows at arbitrary cutoffs, pruned, read back
  and downsampled. A window shows exactly the snapshots it has to, and what it totals is what was
  gained between the first and the last of them.
- **BIRD templates** (`BirdTemplates`, `LinkPolicies`, `TemplateNames`). Links are grouped into policy variants;
  every reference has a definition that means exactly what the link asks for, and it is known exactly when
  two definitions share a name.
- **Prefix lists** (`CleanPrefixes`, `PrefixTexts`, `NftPrefixes`). Repair undoes a bad comma split; reduction
  keeps the address set (RFC 4632, section 3.1, prefixes as blocks) and yields disjoint intervals.
- **DNS** (`DnsSync`, `DnsNames`). One sync reaches a fixed point, with every name pointing to its node, exactly
  when no expected record is also one that a sync removes.
- **Managed files and blocks** (`AppFiles`, `ManagedPaths`, `TextBlock`, `HostsBlock`, `HostsLines`, `Crontab`,
  `CrontabLines`). Syncs and splices do their work and leave everybody else's data alone.
- **Configuration patches and duplicates** (`ApplyConfig`, `ConfigReports`, `ListDelta`, `DuplicateId`). A patch
  keeps the mesh sound and its report honest and discreet; a duplicate's name is fresh and found in bounded time.

`Wrappers`, `Text` and `Sorting` hold what several of these share.

## Where the code and expectations differ

Where a natural statement is false of the code, the model keeps the code, states exactly when it
holds, and gives a concrete input for which it does not.

- Day of month and weekday must both match; the `crontab` utility of POSIX.1-2017 (its extended
  description) asks for either. The model follows the code.
- The controller's scan ends before 366 days, the agent's with them. A firing exactly 366 days
  ahead is found by the agent only (`ScansAgree`, `NewYearOfLeapYear`).
- Before the epoch, the agent's alignment to whole minutes can jump over a firing minute
  (`NextAfter`, `MidnightIsSkipped`).
- The validator accepts steps so large that the compiler indexes out of range
  (`CompilesWhatValidates`, `ValidatedButPanics`), and the agent's 32-bit loop can wrap around
  (`PartsAgree`, `WrapsAround`).
- Where the validator refuses a range or start out of bounds, the agent cuts it to the bounds, and an empty
  part between commas is refused by the one and skipped by the other (`AgentCuts`, `BlankPart`).
- An answer that arrives while an earlier one to the same request is still untaken blocks the reader
  while it holds the pending lock (`FaultsExactly`, `RunFaultsExactly`, `SecondAnswerBlocks`).
- A rollup that empties the derived rows restarts the count (`EmptiedRowsRestart`,
  `RestartExample`).
- Custom policies share template names exactly when their identifiers sanitize alike or one continues
  the other as a variant's name does (`ClashesExactly`, `NamesAreUniqueUnless`,
  `AlikeIdentifiersClash`, `ContinuedNamesClash`); no other families can (`OnlyCustomNamesClash`).
- Nodes `foo` and `foo6` with IPv6 names of their own make DNS syncs run in circles
  (`SixConflicts`).
- The manifest's temporary file overwrites a user's file of that name (`TemporaryFileIsLost`).
- A crontab whose block was never closed loses what follows its start marker (`DroppedExactly`,
  `UnclosedBlockIsDropped`).
- A host record whose address carries marker text behind a slash is valid, and updates with it never
  rest (`SecondUpdateRests`, `MarkedAddressUnclean`).
- Swapping the ends of a link patch can matter on a link from a node to itself
  (`SwappedPatchMergesAlike`, `LoopPatchDiffers`), and a patch of only the pre-shared key is not reported
  (`KeyChangeIsSilent`).
- A patch that deletes and adds the same list items may change the list again when it is applied again
  (`MergedListAgain`, `DeltaAlternates`).
- After the largest 64-bit number, a duplicate is numbered zero (`WrapsToZero`).

## Model

| member | source | states |
|---|---|---|
| Calendar.CivilStep | agent/src/cron.rs:12-24 | For every day number, before or after the epoch, the closed form gives a date of the calendar, and the next day number gives that date's successor under the 4/100/400 leap rule. |
| Calendar.CivilEpoch | agent/src/cron.rs:12-24 | Day 0 is 1 January 1970. |
| Calendar.StepsDetermine | agent/src/cron.rs:12-24 | A calendar that starts at the epoch and steps correctly in both directions is the naive one: this is what makes the step property a full specification. |
| Calendar.CivilIsNaive | agent/src/cron.rs:12-24 | The closed form equals a calendar that counts single days from the epoch, for every integer day number. |
| Calendar.CivilRoundTrip | agent/src/cron.rs:12-24 | Every calendar date is reached: converting it to its day number and back gives the date. |
| Calendar.DayNumberRoundTrip | agent/src/cron.rs:12-24 | Converting a day number to a date and back gives the day number, so no two days share a date. |
| Calendar.YearLater | agent/src/cron.rs:12-24 | A date other than 29 February comes round again after 365 or 366 days. |
| Calendar.YearOfDay | agent/src/cron.rs:12-24 | A day lies between the first of January of the year its date names and the next first of January. |
| CronSchedule.NextAfter | agent/src/cron.rs:113-146 | The agent's scan returns the least firing second of (after, after + 366 days], or none when there is none, exactly when its minute alignment does not jump over a firing minute; that only happens for some five-field expressions before the epoch. |
| CronSchedule.OnlyWholeMinutes | agent/src/cron.rs:26-36 | A five-field expression never fires off a whole minute. |
| CronSchedule.MinuteSilent | agent/src/cron.rs:113-146 | If a five-field expression is silent at a whole minute it is silent until the next one, so the minute scan passes over no second. |
| CronSchedule.AlwaysFinds | agent/src/cron.rs:113-146 | With a full weekday set, the 366-day scan succeeds from every second after the epoch if and only if the expression allows some time of day and some date that every year has. |
| CronSchedule.ScanNeverFails | agent/src/cron.rs:113-146 | For those expressions the answer of the scan is never none. |
| CronSchedule.FiringIsAllowed | agent/src/cron.rs:92-109 | A second that fires is an allowed time of day on an allowed month and day (day of month and weekday must both match). |
| CronSchedule.Next | internal/engine/cron_schedule.go:166-184 | The controller's scan returns the least firing second strictly inside its 366-day limit, or the expression is silent up to that limit. |
| CronSchedule.SameFirings | internal/engine/cron_schedule.go:150-163 | Schedules with the same sets fire at the same seconds on the agent, by its own calendar, and on the controller, by the naive calendar. |
| CronSchedule.ScansAgree | internal/engine/cron_schedule.go:166-184 | On the same sets and start, the controller answers what the agent answers, except that a firing exactly 366 days ahead is lost to the controller's exclusive limit. |
| CronSchedule.MidnightIsSkipped | agent/src/cron.rs:113-146 | A concrete start before the epoch from which the agent's alignment jumps over a firing midnight. |
| CronSchedule.NewYearOfLeapYear | agent/src/cron.rs:113-146 | A concrete schedule and start, New Year from midnight of 1 January 2024, whose next firing is exactly 366 days ahead: by ScansAgree the agent finds it and the controller does not. |
| CronParse.PartAccepted | internal/engine/cron_schedule.go:67-147 | A comma part is rejected by the compiler exactly when the validator rejects it, and a valid part panics exactly when start plus step leaves 64 bits. |
| CronParse.PartsAgree | agent/src/cron.rs:149-203 | On a part that compiles, the agent accepts exactly when the step fits 32 bits, and then marks the same values exactly when its 32-bit counter cannot wrap. |
| CronParse.FieldOutcome | internal/engine/cron_schedule.go:67-147 | For whole fields: exactly when the compiler accepts, exactly when the agent then accepts, and that both hold the same values when no 32-bit counter wraps. |
| CronParse.ControllerStepsOutcome | internal/engine/cron_schedule.go:117-119 | The stepping loop panics exactly when start plus step leaves 64 bits, and otherwise marks exactly the values start, start + step, ... up to the end. |
| CronParse.StepsAgree | agent/src/cron.rs:182-186 | The agent's stepping loop marks the same values as the controller's exactly when start plus step stays in 32 bits. |
| CronParse.CompileSteps | internal/engine/cron_schedule.go:117-119 | The controller's in-place stepping loop over the bool array adds exactly the specified marks and leaves all other entries alone. |
| CronParse.CompilePart | internal/engine/cron_schedule.go:67-147 | One part of the in-place compiler: its outcome, and exactly the marks it adds to the array. |
| CronParse.CompileField | internal/engine/cron_schedule.go:67-147 | One field of the in-place compiler, stopping at the first part that fails. |
| CronParse.MarkSteps | agent/src/cron.rs:182-186 | The agent's stepping loop in 32-bit arithmetic terminates and adds exactly the marks of the 32-bit specification, wrap-around included. |
| CronParse.ParsePart | agent/src/cron.rs:149-203 | One part of the agent's in-place parser, which skips empty parts and clamps ranges to the field. |
| CronParse.ParseField | agent/src/cron.rs:149-203 | One field of the agent's in-place parser: outcome and exactly the marks added. |
| CronParse.ParseCronSchedule | internal/engine/cron_schedule.go:22-65 | The controller's compiler over an expression: it stops at the first failing field, and its result holds exactly the tables of the field specifications. |
| CronParse.ParseCronExpression | agent/src/cron.rs:50-90 | The agent's parser over an expression; its weekday table of eight is folded so that 7 means Sunday. |
| CronParse.CompilesWhatValidates | internal/config/cron_tasks.go:72-165 | An expression compiles if and only if the validator accepts it and no part's step overflows 64 bits. |
| CronParse.AgentParsesWhatCompiles | agent/src/cron.rs:50-90 | On an expression that compiles, the agent's parser succeeds if and only if every step fits 32 bits, although the controller trims the expression first and the agent does not. |
| CronParse.SameScans | agent/src/cron.rs:149-222 | When start plus step stays in 32 bits for every part, the two parsers produce the same sets for every field. |
| CronParse.SameSchedules | agent/src/cron.rs:50-109 | For one expression that compiles and whose counters do not wrap, both programs accept it, hold the same second, minute, hour, day, month and weekday sets, and fire at the same seconds from the epoch on. |
| CronParse.ValidatedButPanics | internal/engine/cron_schedule.go:117-119 | A concrete day-of-month field that passes validation and makes the compiler index out of range. |
| CronParse.WrapsAround | agent/src/cron.rs:182-186 | A concrete minute field that both sides accept and on which they hold different minutes. |
| CronParse.ConversionsAgree | agent/src/cron.rs:149-203 | A number the controller reads, unless written with a minus sign, is read the same by the agent exactly when it fits 32 bits. |
| CronMeaning.ItemIsRead | internal/config/cron_tasks.go:110-165 | An item written by the grammar (value, range, steps through the field, from a value, or through a range) is valid exactly when it keeps the field's bounds and has a step of 1 to 2^63 - 1; the compiler then marks exactly the values between its ends at whole steps from the first. |
| CronMeaning.FieldIsRead | internal/engine/cron_schedule.go:67-147 | A field of such items, or a star or question mark, is valid exactly when all items fit, and marks exactly the values that some item stands for. |
| CronMeaning.ExpressionIsRead | internal/config/cron_tasks.go:72-165 | An expression of five or six such fields is valid exactly within 0-59, 0-59, 0-23, 1-31, 1-12 and 0-7; it compiles exactly when no first step leaves 64 bits. |
| CronMeaning.FiresWhenAsked | internal/engine/cron_schedule.go:22-163 | An expression in bounds fires, on both programs and from the epoch on, at exactly the times its fields ask for: minute, hour, day of month, month and weekday together, with Sunday as 0 and as 7, and second 0 without a seconds field. |
| CronMeaning.FieldsOfJoined | agent/src/cron.rs:50-57 | Words with single blanks between them are read as these words. |
| CronMeaning.NumbersValid | internal/config/cron_tasks.go:72-165 | An expression of five or six numbers is valid exactly within the bounds of the fields, and then it compiles. |
| CronMeaning.NumbersFire | agent/src/cron.rs:26-109 | Both programs accept a valid expression of numbers and fire it exactly at that second (0 without one), minute and hour, on that day of that month when it is that weekday, 7 meaning Sunday. |
| CronMeaning.StarsFire | agent/src/cron.rs:50-109 | Five stars are valid and fire at every whole minute, six at every second, on both programs. |
| CronMeaning.AgentValue | agent/src/cron.rs:195-203 | The agent marks a single value in bounds and refuses one out of bounds. |
| CronMeaning.AgentCuts | agent/src/cron.rs:158-194 | The agent does not refuse ranges and starts that leave the bounds: it cuts them to the bounds and marks what remains. |
| CronMeaning.ZeroStep | agent/src/cron.rs:162-168 | A step of zero is refused by validator and agent. |
| CronMeaning.BlankPart | agent/src/cron.rs:149-156 | An empty part between commas is refused by the validator and skipped by the agent. |
| AgentConnection.CoreStep | internal/agent/conn.go:80-153 | Every atomic step of callers, reader and closer, with unused request ids but any number of answers, keeps the core of the invariant: distinct ids, and every pending entry points at the open, live channel of its own caller. |
| AgentConnection.FaultsExactly | internal/agent/conn.go:229-235 | Under unused ids, a step goes wrong if and only if it delivers an answer to a pending request whose slot still holds an untaken one; then the reader blocks, and nothing ever panics. |
| AgentConnection.InvStep | internal/agent/conn.go:80-153 | With at most one answer per id besides, every step keeps the full invariant: no send to a closed or full channel, no double close. |
| AgentConnection.AnswerIsOwn | internal/agent/conn.go:113-153 | In every state of the invariant, a call that returned a response returned the one with its own request id. |
| AgentConnection.PendingDrains | internal/agent/conn.go:113-153 | Once every call has returned, the pending table is empty, whatever mixture of answers, cancellations and closes happened. |
| AgentConnection.WaiterCanLeave | internal/agent/conn.go:80-153 | A waiting caller whose answer is buffered, or whose session signalled its close, has an enabled step: it is not stuck. |
| AgentConnection.SecondAnswerBlocks | internal/agent/conn.go:229-235 | A concrete run in which a second answer to one id finds the slot full and blocks the reader under the pending lock. |
| AgentConnection.Connection.constructor | internal/agent/conn.go:38-47 | A fresh session is in the initial state, which satisfies the invariant. |
| AgentConnection.Connection.BeginCall | internal/agent/conn.go:113-124 | The registration of a response channel under the lock is exactly the protocol's begin step, and keeps the invariant. |
| AgentConnection.Connection.FinishWrite | internal/agent/conn.go:132-140 | The socket write is exactly the protocol's write step: success waits, failure goes to clean-up. |
| AgentConnection.Connection.Receive | internal/agent/conn.go:142-152 | Taking the buffered answer is exactly the protocol's step. |
| AgentConnection.Connection.FinishCall | internal/agent/conn.go:126-130 | The deferred clean-up removes the call's own entry only, and a returned response carries the call's own id. |
| AgentConnection.Connection.HandleResponse | internal/agent/conn.go:229-235 | Unless the slot is still taken, the reader's delivery never meets a closed or full channel and is exactly the protocol's step. |
| AgentConnection.Connection.SignalClosed | internal/agent/conn.go:80-83 | Closing the done channel happens once and immediately lets every waiting caller leave. |
| AgentConnection.Connection.ClosePending | internal/agent/conn.go:87-90 | The loop closes each pending channel exactly once, whatever the map order, and empties the table; other channels stay as they were. |
| AgentConnection.Connection.SweepPending | internal/agent/conn.go:86-91 | The locked part of the close is exactly the protocol's sweep step and keeps the invariant. |
| AgentHub.HubObject.Register | internal/agent/hub.go:311-322 | The new session becomes the node's current one, is immediately found, and exactly a different displaced session is handed back for closing. |
| AgentHub.HubObject.Unregister | internal/agent/hub.go:325-331 | Only the session that is current for the name is removed; every other entry of the table stays. |
| AgentHub.HubObject.UnregisterNode | internal/agent/hub.go:334-338 | The node's entry goes, all others and the other tables stay. |
| AgentHub.HubObject.RemoveNode | internal/agent/hub.go:341-350 | The node is forgotten in all tables, its session is handed back for closing, and a lookup at any time finds nothing. |
| AgentHub.HubObject.RecordHeartbeat | internal/agent/hub.go:385-389 | A sign of life makes a registered session findable at that time. |
| AgentHub.HubObject.GetConnection | internal/agent/hub.go:369-382 | A lookup finds the current session unless it was last seen more than 45 seconds ago. |
| AgentHub.RunFaultsExactly | internal/agent/hub.go:311-350 | Over every run of hub events interleaved with the steps of any number of sessions, with unique request ids: every session keeps the core of its invariant, and some session faults if and only if some answer arrives while the slot of its request is still taken. |
| AgentHub.AnsweredOnce | internal/agent/conn.go:229-235 | If moreover no id is answered twice, no answer ever finds its slot taken. |
| AgentHub.EverySessionIsSafe | internal/agent/conn.go:80-153 | From an empty hub with unique ids: every returned response carries its caller's id, and a session whose calls have all returned has an empty pending table; without second answers no session ever faults. |
| AgentHub.SuccessorStays | internal/agent/hub.go:311-331 | A registered session stays registered through any run in which it is not itself closed, replaced or removed; in particular a late close of the connection it replaced never unregisters it. |
| AgentOutcomes.ExitLeaves | internal/agent/conn.go:113-153 | Each arm of a call ends it in its own way: a failed write with an error, a cancelled context as cancelled, a closed session as closed, and the response channel with exactly the buffered answer, or as closed when there is none. |
| AgentOutcomes.DeliverFills | internal/agent/conn.go:229-235 | An answer to a pending request with a free slot is what the slot then holds, body included. |
| AgentOutcomes.SlotStays | internal/agent/conn.go:113-235 | Nothing but its own caller empties or replaces what a slot holds. |
| AgentOutcomes.ExitDecides | internal/agent/conn.go:113-153 | The first step that lets a call go decides its outcome for good, whatever happens later in the session. |
| AgentOutcomes.DeliveredIsReturned | internal/agent/conn.go:113-235 | What is delivered into the free slot of a call is what the call returns when it takes its answer, whatever happens in between and afterwards. |
| AgentOutcomes.SweepCloses | internal/agent/conn.go:80-111 | After the sweep of a close the table is empty and every caller that was pending finds its channel closed, with an answer that was already there still in it. |
| AgentOutcomes.SessionIsReplay | internal/agent/conn.go:80-235 | In a run of the hub, every session is the replay of its own steps. |
| AgentOutcomes.OutcomesWereCaused | internal/agent/conn.go:113-235 | Over every run from the empty hub: a returned answer was delivered to its session as it is, after the call had asked with the answer's id; a send error, a cancellation and a closed session likewise go back to their own events. |
| AgentOutcomes.FoundWhileSeen | internal/agent/hub.go:311-392 | Over every run, looking a node up gives the session last registered for it, unless that one closed itself or the node was unregistered or removed, exactly until 45 seconds after its last registration or sign of life. |
| AgentOutcomes.CallIsServed | internal/agent/conn.go:113-153 | From any state of a known session, a new call can run to its end and return the answer sent to it, whatever the hub does meanwhile, and is no longer pending then. |
| Traffic.RowShows | internal/config/state.go:1524-1570 | A derived row shows its snapshot's time, counters and rates, and a reset exactly when one of its counters fell. |
| Traffic.ExtendIsDerive | internal/config/state.go:1524-1570 | Continuing from any stored prefix of derived rows, even one whose oldest rows were rolled away, gives the rows of one pass over the whole history. |
| Traffic.UpdateCatchesUp | internal/config/state.go:1424-1570 | An update of a table that is behind, selecting only newer snapshots, yields the one-pass table. |
| Traffic.BatchesDoNotMatter | internal/config/state.go:1424-1570 | For snapshots in ascending time, updating in any split into batches, with repeats, gives the one-pass table. |
| Traffic.AccumulatedIsCounted | internal/config/state.go:1524-1560 | The accumulated counter is the first reading plus all gains since, modulo 2^64. |
| Traffic.WindowTotal | internal/config/state.go:1977-1991 | While less than 2^64 has been counted, the difference of two accumulated counters is the sum of the per-step gains between them, resets included. |
| Traffic.MonotoneUntilWrap | internal/config/state.go:1524-1560 | Accumulated counters never decrease across resets if and only if less than 2^64 has been counted in all. |
| Rollup.BucketIs | internal/config/state.go:2118-2130 | The bucket of a time is the multiple of 300 seconds at or up to five minutes before it. |
| Rollup.BucketSummary | internal/config/state.go:2110-2131 | After a rollup, the five-minute row of a bucket has the largest raw and accumulated counters, the average receive and send rates and any reset of the rows rolled into it together; a bucket without such rows keeps its row. |
| Rollup.GroupIs | internal/config/state.go:2110-2131 | The rows rolled into a bucket are those of its five minutes, as often as they are there. |
| Rollup.RollUpPrunes | internal/config/state.go:2135-2151 | A rollup keeps exactly the raw snapshots and derived rows from the raw cutoff on, and exactly the five-minute rows from the overall cutoff on, of those that were there or that it adds. |
| Rollup.RolledExactly | internal/config/state.go:2110-2151 | Over every run that never emptied the derived rows, there is a five-minute row exactly for the buckets into which some rollup put a snapshot and that neither it nor a later one pruned. |
| Rollup.GroupHoldsLatest | internal/config/state.go:2114-2137 | The maximum over a bucket's older rows is the accumulated counter of the latest of them, wherever in the bucket the cutoff falls. |
| Rollup.MergedHoldsLatest | internal/config/state.go:2114-2137 | After replacing or adding five-minute rows, every row holds the accumulated counter of the latest snapshot ever rolled into its bucket. |
| Rollup.RollUpKeepsInv | internal/config/state.go:2056-2159 | One rollup, at any cutoffs, keeps the relation between the three tables and the complete history, unless it empties the derived rows. |
| Rollup.RunKeepsInv | internal/config/state.go:2056-2159 | The relation holds over every run of records, updates and rollups; cutoffs need not be bucket-aligned nor even ascending. |
| Rollup.NothingIsLost | internal/config/state.go:2114-2151 | Over every such run, each snapshot is still raw, or its bucket has a five-minute row, unless a rollup's overall cutoff pruned that bucket. |
| Rollup.EmptiedRowsRestart | internal/config/state.go:2114-2151 | When a rollup does empty the derived rows, the next reading restarts the count, and each of its two counters agrees with the true count if and only if no reset was counted so far and none happens now. |
| Rollup.RestartExample | internal/config/state.go:2114-2151 | A concrete restart: 60 is stored where 160 was counted. |
| TrafficWindow.RolledKeysAre | internal/config/state.go:1917-1945 | A window takes the five-minute rows of its time that lie before the oldest derived row; without derived rows, or with one at time 0, all up to the end of 64-bit time. |
| TrafficWindow.WindowShows | internal/config/state.go:1905-1990 | Every point of a window shows a row of the tables with its counters, receive and send rates and reset, and all rows of the window are shown. |
| TrafficWindow.DownsampledStretches | internal/config/state.go:2000-2054 | The points shown sum up, one after the other, the points of each time window: the counters and traffic of its last point, the average rates and any reset. |
| TrafficWindow.RowPointsTrace | internal/config/state.go:1947-1971 | The derived rows inside a window are, in order, exactly the raw snapshots whose time lies in the window, each at its own time and with its accumulated counters. |
| TrafficWindow.RolledPointsTrace | internal/config/state.go:1914-1945 | The five-minute rows read for ascending buckets show, each at the start of its bucket, the latest rolled-up snapshot of that bucket, in ascending order. |
| TrafficWindow.RolledAreOlder | internal/config/state.go:1914-1945 | Every five-minute row lies strictly before the derived rows, so the cut at the oldest derived row leaves none out. |
| TrafficWindow.WindowTraces | internal/config/state.go:1914-1971 | The points of a window are, in ascending order, exactly what it has to show: every raw snapshot with a time in the window, and for every five-minute row in it the latest rolled-up snapshot of its bucket; each with its time and its accumulated counters, none skipped and none from elsewhere. |
| TrafficWindow.PairOfWindow | internal/config/state.go:1977-1991 | Between any two points of a window, the counters differ by exactly the gains between their snapshots. |
| TrafficWindow.WindowIsMonotone | internal/config/state.go:1914-1971 | Reading five-minute rows and then raw rows gives non-decreasing counters, despite mid-bucket cutoffs and replaced rows. |
| TrafficWindow.BeforeEnd | internal/config/state.go:2006-2026 | The real-valued window ends of the downsampling loop, with the last end pushed past the maximum, cut the span into the same windows as an exact integer division. |
| TrafficWindow.IndexGrows | internal/config/state.go:2006-2026 | Window numbers ascend with time and stay below the limit, so one forward pass meets every point. |
| TrafficWindow.TakeWindow | internal/config/state.go:2014-2026 | The inner loop takes exactly the points of its window and leaves none of them behind. |
| TrafficWindow.Summarize | internal/config/state.go:2028-2050 | One window's point: averages of its rates, and time, counters and traffic of its last point. |
| TrafficWindow.Downsample | internal/config/state.go:2006-2052 | The nested loops compute one summary per maximal run of points in the same window. |
| TrafficWindow.DownsampledFits | internal/config/state.go:2006-2052 | Downsampling yields between one and the limit of points, and its last point keeps the time and the traffic of the last one. |
| TrafficStore.ShownIs | internal/config/state.go:1993-2054 | A summary shows all points when they are few enough, the first ones when they all carry one time, and otherwise at most the limit of sums of time windows. |
| TrafficStore.UpdateStaysOrdered | internal/config/state.go:1424-1570 | An update keeps the rows of all tables in strictly ascending time. |
| TrafficStore.RollUpStaysOrdered | internal/config/state.go:2114-2151 | A rollup keeps the time order, and five-minute rows stay at or before the raw rows. |
| TrafficStore.WindowOrdered | internal/config/state.go:1914-1971 | The points read for a window are in time order across the two tables. |
| TrafficStore.HistoryIsOrdered | internal/config/state.go:1914-1971 | Tables that hold a history from the epoch on are in time order: five-minute rows before derived and raw rows. |
| TrafficStore.EmptyWindow | internal/config/state.go:1914-1976 | A window has no points exactly when there is nothing it has to show. |
| TrafficStore.WindowGains | internal/config/state.go:1977-1991 | The last point's traffic is what was gained between the first and the last snapshot the window has to show, and the first and the last point carry their times. |
| TrafficStore.RelativeIsGains | internal/config/state.go:1977-1991 | The traffic of a point is the sum of all gains since the first point of the window. |
| TrafficStore.ShownKeepsTotal | internal/config/state.go:1977-2052 | What is shown has at most the limit of points and, when it spans time, the same totals as all points. |
| TrafficStore.TotalIsGained | internal/config/state.go:1888-2054 | The totals reported for a window are exactly the gains between the first and the last snapshot it has to show, on raw and rolled-up rows alike, and the shown points keep them. |
| TrafficStore.ReadingARun | internal/config/state.go:1888-2159 | After any run of records, updates and rollups that never emptied the derived rows: reading a window gives non-decreasing counters, and totals that are the gains from the first to the last snapshot the window has to show, which the shown points keep; a recorded snapshot is missing from the tables only if its bucket was pruned. |
| TrafficStore.Accumulate | internal/config/state.go:1524-1570 | The update loop, carrying the last raw and accumulated counters, computes the specified table. |
| TrafficStore.Rebased | internal/config/state.go:1977-1986 | The in-place rebasing of the points computes the traffic relative to the first. |
| TrafficStore.Present | internal/config/state.go:1977-2052 | Totals come from all points, the points shown from the downsampled ones. |
| TrafficStore.Store.constructor | internal/config/state.go:1424-1446 | A new store is the state of the empty run. |
| TrafficStore.Store.Record | internal/config/state.go:1164-1172 | Recording a snapshot is the run's record step and changes only the raw table. |
| TrafficStore.Store.UpdateStats | internal/config/state.go:1424-1570 | The update method is the run's update step and changes only the derived table. |
| TrafficStore.Store.RollupAndClean | internal/config/state.go:2056-2159 | The rollup method is the run's rollup step, with the raw retention clamped to the overall one. |
| TrafficStore.Store.ReadTraffic | internal/config/state.go:1888-2054 | Reading first brings the derived table up to date, then returns the shown points and the totals of all points. |
| BirdTemplates.NormalizeRoutingPolicy | internal/config/policy.go:66-79 | Every input normalizes to one of the known routing policies. |
| BirdTemplates.BuildPolicyMap | internal/compiler/bird.go:99-107 | The map holds, for each identifier, the last policy of that identifier among built-in and custom ones. |
| BirdTemplates.FindPolicy | internal/config/policy.go:534-542 | The backward search finds the same policy as the map: custom policies take precedence. |
| BirdTemplates.BuiltinsResolve | internal/config/policy.go:431-530 | The three built-in identifiers always resolve, whatever custom policies there are. |
| BirdTemplates.FormatVariantTemplateName | internal/compiler/bird.go:55-71 | The name is the base, a routing suffix when the routing policy differs from the base's, and a cost suffix when the cost differs. |
| BirdTemplates.CostSuffixInjective | internal/compiler/bird.go:62-69 | Different costs, negative ones included, have different suffixes. |
| BirdTemplates.NamesAreDistinct | internal/compiler/bird.go:55-71 | Within a family, two (cost, routing policy) pairs get the same name if and only if they are equal; the two suffixes cannot be confused. |
| BirdTemplates.PolicyOf | internal/config/policy.go:546-554 | The effective policy of a link end, with its fallback, always exists in the policy map. |
| BirdTemplates.RawsResolved | internal/compiler/bird.go:433-526 | Every link of the first pass carries its own effective policy, cost and routing policy. |
| BirdTemplates.BuildNodeIndex | internal/compiler/bird.go:427-431 | The index finds a node as external exactly when the last node of that name is external. |
| BirdTemplates.Resolve | internal/compiler/bird.go:460-500 | One link of the first pass is resolved as its policies demand. |
| BirdTemplates.GroupLinks | internal/compiler/bird.go:460-526 | The first pass resolves all links, and its maps hold exactly the used policies and, per family, exactly the variants of its links. |
| BirdTemplates.PickBase | internal/compiler/bird.go:528-597 | A family's only variant becomes its base, otherwise the policy's own values. |
| BirdTemplates.BasesOf | internal/compiler/bird.go:528-597 | Every used policy gets the base of its own family. |
| BirdTemplates.LinkTemplates | internal/compiler/bird.go:599-621 | Every link refers to the definition of its own family with its own effective cost and routing policy. |
| BirdTemplates.ReferencesAreDefined | internal/compiler/bird.go:599-621 | Every link's reference is among the emitted definitions, in its own family and with exactly the link's effective cost and routing policy. |
| BirdTemplates.NamesIdentify | internal/compiler/bird.go:760-981 | Within a family, a name stands for one definition. |
| BirdTemplates.OnlyCustomNamesClash | internal/compiler/bird.go:760-981 | Definitions of different families share a name only if both families belong to custom policies. |
| BirdTemplates.ExtraVariants | internal/compiler/bird.go:760-838 | The sorted variants besides the base: each exactly once. |
| BirdTemplates.FamilyDefinitions | internal/compiler/bird.go:760-838 | The definitions of one family: its base when it has one, and each other variant once. |
| BirdTemplates.EmitFamily | internal/compiler/bird.go:760-981 | The loop over one family emits exactly that family's definitions. |
| BirdTemplates.CustomPolicies | internal/compiler/bird.go:842-860 | Exactly the custom policies with a definition of their own, each once. |
| BirdTemplates.BuiltinDefinitions | internal/compiler/bird.go:760-838 | Exactly the definitions of the built-in families, each once. |
| BirdTemplates.CustomDefinitions | internal/compiler/bird.go:862-981 | Adds exactly the definitions of the custom families. |
| BirdTemplates.AllDefinitions | internal/compiler/bird.go:760-981 | The emitted list holds exactly the specified definitions, each once. |
| BirdTemplates.BuildTemplates | internal/compiler/bird.go:427-981 | The whole compilation for a node: references and definitions, each exactly as specified from the node's links and policies. |
| BirdTemplates.ReferenceClosure | internal/compiler/bird.go:427-981 | For every link of every node: its template is emitted, belongs to the link's policy family, has exactly the link's effective cost and routing policy, and is the only definition of that family with that name. |
| TemplateNames.SuffixesOverlap | internal/compiler/bird.go:55-71 | One appended suffix ends with another non-empty one only if the longer is a routing policy and a cost and the shorter the same cost alone. |
| TemplateNames.ClashesExactly | internal/compiler/bird.go:760-981 | Two custom policies have emitted definitions of one name if and only if both are used and their sanitized identifiers are equal, or one identifier continues the other with what a variant of the other appends, or with its routing policy while both have the variant's cost. |
| TemplateNames.NamesAreUniqueUnless | internal/compiler/bird.go:760-981 | The emitted template names of a node are unique if and only if no two used custom policies are confusable in this way. |
| TemplateNames.AlikeIdentifiersClash | internal/compiler/bird.go:1096-1110 | The identifiers a-b and a_b, both used, clash at every node. |
| TemplateNames.ContinuedNamesClash | internal/compiler/bird.go:55-71 | Policies x, with costs 100 and 200, and x_cost_200 sanitize differently, yet the node emits two definitions named pol_peer_x_cost_200 of different cost. |
| LinkPolicies.RoutingIs | internal/config/policy.go:66-79 | Every spelling of a routing policy, in any case: seven mean stub, four receive_only, four advertise_only, and everything else full. |
| LinkPolicies.CostIs | internal/config/policy.go:572-580 | The cost of a link end is its own if set, then its policy's, then 100. |
| LinkPolicies.RoutingOfEnd | internal/config/policy.go:624-632 | The routing policy of a link end is its own if given, then its policy's, then full. |
| LinkPolicies.PolicyTable | internal/compiler/bird.go:99-107 | An identifier stands for the last custom policy of that identifier, and otherwise, for default, dn42 and none, for a policy of cost 100 with full routing. |
| LinkPolicies.PolicyIs | internal/compiler/bird.go:470-482 | A link end uses the policy it names; without a name, or for a name without policy, dn42 towards an external node and default towards any other. |
| LinkPolicies.ExternalIs | internal/compiler/bird.go:433-470 | The last node of a name decides whether it is external. |
| LinkPolicies.RawsAre | internal/compiler/bird.go:433-526 | The links of a node are resolved in their order, each from the node's own end, with the other end's name and what that says about being external. |
| LinkPolicies.BaseIs | internal/compiler/bird.go:528-597 | The base of a family is the cost and routing policy all its links share, and when they differ or there are none, what its own policy says, or 100 and full. |
| LinkPolicies.EmittedAre | internal/compiler/bird.go:599-981 | Besides the variants of its links, a family has its base defined: the default family always, that of external nodes at a link with one, that of none for a link with it, and a custom one for its own links. |
| LinkPolicies.NameIs | internal/compiler/bird.go:55-71 | A template is called after its family, then after its routing policy and cost where they differ from the base, negative costs with an n. |
| LinkPolicies.SanitizedIs | internal/compiler/bird.go:1096-1110 | A sanitized identifier is the text with every other character an underscore and without outer underscores, or item when nothing is left. |
| CleanPrefixes.RepairFragments | internal/config/prefixes.go:11-51 | The loop with its builder and brace flag computes the specified joining of fragments. |
| CleanPrefixes.SplitItem | internal/config/prefixes.go:53-89 | The character loop with its token flag appends exactly the specified tokens of one item. |
| CleanPrefixes.Clean | internal/config/prefixes.go:11-91 | The whole in-place clean-up computes the specified result for every list, well-formed or not. |
| CleanPrefixes.TokenizeCanonical | internal/config/prefixes.go:53-89 | A prefix with at most one balanced brace group passes through the tokenizer unchanged, commas in the group included. |
| CleanPrefixes.TokenizeJoin | internal/config/prefixes.go:53-89 | A comma-joined list of such prefixes is tokenized into the list. |
| CleanPrefixes.RepairCanonical | internal/config/prefixes.go:11-51 | The fragments a comma split made of such a prefix are put together again, and what follows is unaffected. |
| CleanPrefixes.RepairJoin | internal/config/prefixes.go:11-51 | Splitting the join of a list at every comma is undone by the repair. |
| CleanPrefixes.CleaningUndoesJoin | internal/config/prefixes.go:11-91 | For lists of such prefixes: cleaning the badly split join, the join as a single item, and the list itself all give the original list. |
| PrefixTexts.TypedIsRead | internal/config/prefixes.go:11-91 | However canonical prefixes are separated, by commas and line ends with any blanks around them, the list is read as these prefixes. |
| PrefixTexts.GroupBlanks | internal/config/prefixes.go:11-91 | Blanks inside the braces of a group do not count, and commas there separate nothing. |
| NftPrefixes.EntryTextIs | internal/compiler/nftables.go:30-52 | An entry loses its range signs and its group, and an address without a length gets that of a single address: 128 with a colon in it, 32 otherwise. |
| NftPrefixes.AddressIsWantedAlone | internal/compiler/nftables.go:30-60 | An address without a length, parsed with that length, asks for exactly the one address it names, and only in the set of its family. |
| NftPrefixes.BlockIs | internal/compiler/nftables.go:30-110 | A prefix holds the addresses that agree with it in its leading bits, of 32 in IPv4 and of 128 in IPv6. |
| NftPrefixes.BlocksOf256 | internal/compiler/nftables.go:30-110 | 24 bits in IPv4 and 120 in IPv6 leave blocks of 256 addresses. |
| NftPrefixes.ListedIs | internal/compiler/nftables.go:95-108 | The elements of a set stand one after the other, with a comma and a blank between them. |
| NftPrefixes.MarkTexts | internal/compiler/nftables.go:606-654 | A mark without a slash is set as it is written, a blank one does nothing, and anything but one slash between two numbers is an error. |
| NftPrefixes.MaskedKeepsBlock | internal/compiler/nftables.go:32-66 | Masking keeps exactly the addresses of a prefix. |
| NftPrefixes.Nested | internal/compiler/nftables.go:68-90 | A wider prefix around one address of a block holds the whole block: prefixes nest or are disjoint. |
| NftPrefixes.CheckCovered | internal/compiler/nftables.go:70-86 | The inner loop finds a prefix covered exactly when a wider one contains it, or an earlier equal one. |
| NftPrefixes.DropCovered | internal/compiler/nftables.go:68-90 | The outer loop keeps exactly the uncovered prefixes in order. |
| NftPrefixes.OverlapDrops | internal/compiler/nftables.go:68-90 | Of two overlapping prefixes at different places, one is dropped. |
| NftPrefixes.WidestIsUncovered | internal/compiler/nftables.go:68-90 | The first widest prefix around an address is never dropped. |
| NftPrefixes.KeptIsExact | internal/compiler/nftables.go:68-90 | The kept prefixes are pairwise disjoint, and an address is in one of them if and only if it is in one of the inputs. |
| NftPrefixes.DisjointInAnyOrder | internal/compiler/nftables.go:92-99 | Sorting keeps disjointness and the covered addresses. |
| NftPrefixes.EntriesAreWanted | internal/compiler/nftables.go:32-66 | The parsed list covers an address if and only if some input entry of the right family does. |
| NftPrefixes.CidrIs | internal/compiler/nftables.go:34-52 | An entry's text is the entry without what follows it, a run of signs and white space up to a brace or the end; it does not end in a sign before its length, and exactly a text without a slash gets the length of a single address. |
| NftPrefixes.ParseText | internal/compiler/nftables.go:34-52 | The text always has a length and is the entry up to its signs, spaces and brace. |
| NftPrefixes.ParseEntry | internal/compiler/nftables.go:34-66 | At most one masked prefix, and it covers an address if and only if the entry parses, has the wanted family and contains the address. |
| NftPrefixes.ParseEntries | internal/compiler/nftables.go:32-66 | The parsing loop over the cleaned list. |
| NftPrefixes.SortByText | internal/compiler/nftables.go:92-99 | A sort by rendered text: a permutation in that order. |
| NftPrefixes.FormatNftPrefixList | internal/compiler/nftables.go:27-109 | The emitted elements are pairwise disjoint, cover exactly the addresses the cleaned input list asks for, and are sorted by text; without any, the default list or nothing is emitted. |
| NftPrefixes.MaskedMarkKeepsOthers | internal/compiler/nftables.go:606-654 | Applying a mark with a mask sets the masked bits of the packet mark to the mark's and keeps all others; a zero mask is an error. |
| DnsSync.NormalizedDomain | internal/dns/cloudflare.go:100-108 | A normalized domain is lower case without leading or trailing dots, and stays so when normalized again. |
| DnsSync.BuildExpected | internal/dns/cloudflare.go:500-514 | The expected map holds the last record per upper-case type and lower-case name over all valid nodes. |
| DnsSync.IndexByKey | internal/dns/cloudflare.go:516-524 | The index lists, per key, exactly the zone's records under it, in list order. |
| DnsSync.Api.CreateRecord | internal/dns/cloudflare.go:211-228 | A created record gets an identifier never used before; nothing else changes. |
| DnsSync.Api.UpdateRecord | internal/dns/cloudflare.go:231-248 | An update replaces one existing record. |
| DnsSync.Api.DeleteRecord | internal/dns/cloudflare.go:251-255 | A deletion removes one record, and fails exactly when it is gone already. |
| DnsSync.Api.ListRecords | internal/dns/cloudflare.go:179-208 | The listing names every record of the zone exactly once, in any order. |
| DnsSync.Api.DeleteAll | internal/dns/cloudflare.go:562-602 | Deleting a list removes exactly its records and counts something exactly when something changed. |
| DnsSync.Api.SyncKey | internal/dns/cloudflare.go:526-560 | One expected record: created when missing, otherwise the first is kept or updated and the duplicates go; the call is idle exactly when one matching record was there. |
| DnsSync.AfterKeySyncs | internal/dns/cloudflare.go:526-560 | After a key is handled, it has exactly one record and that record matches; keys handled before stay so and unhandled records are untouched. |
| DnsSync.SyncExpected | internal/dns/cloudflare.go:526-560 | After all keys, in any order of the map, each expected key has one matching record, and the counters are idle exactly when nothing had to change. |
| DnsSync.RemoveStale | internal/dns/cloudflare.go:562-602 | Removes exactly the records under the other IPv6 naming setting of valid nodes. |
| DnsSync.CheckOrphan | internal/dns/cloudflare.go:604-660 | The forced sync's test finds exactly the names under the domain that belong to no node. |
| DnsSync.RemoveOrphans | internal/dns/cloudflare.go:604-660 | Removes exactly the records found orphaned at the start. |
| DnsSync.FinalSettles | internal/dns/cloudflare.go:473-660 | Without a conflict, the zone after all stages has exactly one matching record per expected key and nothing left to remove. |
| DnsSync.FinalFrame | internal/dns/cloudflare.go:473-660 | Records outside the expected keys and the removed ones are never touched. |
| DnsSync.OddKeyIsNew | internal/dns/cloudflare.go:526-560 | An expected record that is not found again under its own key is created anew by every sync. |
| DnsSync.ConflictStirs | internal/dns/cloudflare.go:473-660 | With a conflict, every sync creates or removes something. |
| DnsSync.Reconcile | internal/dns/cloudflare.go:500-660 | All stages of one sync against the zone as listed. |
| DnsSync.Sync | internal/dns/cloudflare.go:473-670 | One sync, forced or not: unrelated records stay. If no expected key is also to be removed, the zone ends settled, one matching record per expected key, and a sync of a settled zone does nothing (so a second sync is idle); otherwise no sync is ever idle. |
| DnsSync.PlainNamesDoNotConflict | internal/dns/cloudflare.go:258-331 | With plain node names and no node named like another plus 6, there is no conflict, so the fixed point is reached. |
| DnsSync.SixConflicts | internal/dns/cloudflare.go:562-602 | A concrete conflict: nodes foo and foo6 with IPv6 names of their own. |
| DnsNames.NodeNameIs | internal/dns/cloudflare.go:262-270 | A node's name is published in lower case and without outer white space; such a name is taken as it is. |
| DnsNames.NormalizeForms | internal/dns/cloudflare.go:100-109 | Scheme and path of an address are no part of the domain: with http, with https or without, and with a path or without, a plain domain normalizes to itself. |
| DnsNames.CleanIPIs | internal/dns/cloudflare.go:111-117 | An address is cut at its prefix length and trimmed. |
| DnsNames.KeyIs | internal/dns/cloudflare.go:516-524 | Records in the zone are found under their kind and name, whatever the case and the outer dots of the name. |
| DnsNames.RecordsOfNode | internal/dns/cloudflare.go:258-331 | A node's records are, key by key, those for the addresses it publishes: its IPv4 address under its name and the names below it, its IPv6 address under the same names or only under its name with a 6. |
| DnsNames.ExpectedIs | internal/dns/cloudflare.go:500-514 | A network expects a record under a key exactly when some node publishes an address there; it holds the address of the last such node and is not proxied. |
| DnsNames.ValidNamesAre | internal/dns/cloudflare.go:503-508 | The names that count as nodes are the non-empty names of the nodes. |
| DnsNames.CorrespondsIs | internal/dns/cloudflare.go:625-650 | A name corresponds to a node when it is the node's own or one below it, for a kind the node publishes there, or under its own naming the name with a 6; except that a name with a 6 that is itself a node's is not also taken as another's. |
| DnsNames.OrphanIs | internal/dns/cloudflare.go:604-660 | A forced sync removes exactly the A, AAAA and CNAME records below the domain that correspond to no node. |
| DnsNames.StaleIs | internal/dns/cloudflare.go:562-602 | Any other sync removes exactly the IPv6 records of nodes that the other naming setting would give them. |
| AppFiles.PruneKeeps | agent/src/apps.rs:1089-1102 | Pruning empty directories upwards removes no file and never the app directory. |
| AppFiles.PrunePopulates | agent/src/apps.rs:1089-1102 | If no other directory was empty before, none is left empty after. |
| AppFiles.RemoveManagedKeeps | agent/src/apps.rs:533-539 | Removing one managed file and pruning above it deletes exactly that file, and only directories it lies in. |
| AppFiles.WrittenFile | agent/src/apps.rs:560-577 | Writing a file creates only its parent directories and changes only that path. |
| AppFiles.WrittenGrows | agent/src/apps.rs:560-577 | One more desired file written keeps the earlier ones: the last of several entries for a path wins. |
| AppFiles.ReadBack | agent/src/apps.rs:1029-1071 | Reading the manifest that was just written gives the written set. |
| AppFiles.ReadManagedManifest | agent/src/apps.rs:1029-1044 | A missing or unreadable manifest lists nothing; otherwise exactly its safe paths. |
| AppFiles.CollectDesired | agent/src/apps.rs:517-523 | The safe desired paths. |
| AppFiles.SyncedWithFiles | agent/src/apps.rs:511-558 | Clearing orphans, writing and listing, in this order, is a complete sync, even where an orphan and a wanted file coincide. |
| AppFiles.SyncedWithout | agent/src/apps.rs:511-558 | A sync that wants nothing leaves no manifest, and the app directory is gone exactly when no file and no other directory is left; it is never left behind empty. |
| AppFiles.BaseRemoved | agent/src/apps.rs:1104-1148 | Removing the app directory empties the tree if no file and no other directory is left in it, and changes nothing otherwise. |
| AppFiles.Creatable | agent/src/apps.rs:560-571 | A directory can be created exactly when no file is at or above its path, and then exactly the directories above it are new. |
| AppFiles.FitsOneMore | agent/src/apps.rs:560-577 | After any wanted paths were written, one more fits exactly when it is no directory and lies below no file. |
| AppFiles.AppDirectory.WriteConfigFiles | agent/src/apps.rs:560-577 | Succeeds if and only if no wanted path is a directory or lies below a file or another wanted path; then every desired path holds its last content and all other paths are unchanged. |
| AppFiles.AppDirectory.WriteManagedManifest | agent/src/apps.rs:1046-1071 | Succeeds if and only if its own paths are no directories; then the manifest lists exactly the given paths, and without any there is no manifest. |
| AppFiles.AppDirectory.RemoveOrphans | agent/src/apps.rs:525-539 | Exactly the previously listed, no longer desired and not excluded files are removed. |
| AppFiles.AppDirectory.SyncConfigFiles | agent/src/apps.rs:511-558 | Succeeds whenever nothing is in the way of the wanted paths and of the manifest. Then only desired, orphaned and manifest paths changed, orphans are gone, desired files are in place, the manifest equals the safe desired paths minus the excluded ones, no directory of the app's own is gone, and with nothing wanted the app directory goes exactly when it is empty. |
| AppFiles.AppDirectory.RemoveManagedAppFiles | agent/src/apps.rs:1104-1148 | Final removal deletes exactly the managed and standard files and the manifest, and directories only above them; the app directory goes if and only if no file and no other directory is left. |
| AppFiles.ListedWasDesired | agent/src/apps.rs:511-577 | Over every run of successful syncs and foreign changes, the manifest lists only paths that were desired once. |
| AppFiles.NeverDesiredStays | agent/src/apps.rs:511-577 | Over every such run, no sync changes or removes a path that was never desired, and the manifest is as promised after each sync. |
| AppFiles.TemporaryFileIsLost | agent/src/apps.rs:1046-1071 | The exception: the manifest's temporary file name is not safe to use, a sync that lists files leaves nothing there. |
| ManagedPaths.SafeExactly | agent/src/apps.rs:1022-1027 | Refused as managed paths are exactly the empty path, absolute paths, paths with two dots in a row anywhere, and the manifest. |
| ManagedPaths.SafeStaysInside | agent/src/apps.rs:1022-1027 | No component of a managed path is two dots, a single dot, empty, or contains a slash. |
| ManagedPaths.PathsJoin | agent/src/apps.rs:1022-1050 | A path is its components between slashes; empty ones and single dots do not count. |
| ManagedPaths.SetsAre | agent/src/apps.rs:510-552 | What a manifest lists, what is wanted, what a sync will list and what it removes, in terms of the files, the manifest and the excluded paths themselves. |
| ManagedPaths.TargetsAre | agent/src/apps.rs:1106-1125 | Removing an app's managed files is aimed at exactly the safe paths its manifest lists or that are standard. |
| ManagedPaths.OthersAreUntouched | agent/src/apps.rs:510-552 | A sync leaves every path alone that is neither wanted, nor listed without being wanted or excluded, nor one of the manifest's two. |
| ManagedPaths.ListedAfterSync | agent/src/apps.rs:510-552 | After a sync the manifest lists exactly the wanted paths that are not excluded. |
| ManagedPaths.OrphanIsGone | agent/src/apps.rs:525-539 | After a sync a listed file that is neither wanted nor excluded is gone. |
| TextBlock.FindIsFirst | agent/src/hosts.rs:66-74 | The marker search finds the first occurrence, or there is none. |
| TextBlock.NormOccurs | agent/src/hosts.rs:107-115 | Normalizing Windows line ends creates no marker that was not there. |
| TextBlock.EndOfBlock | agent/src/hosts.rs:32-51 | A built block is clean (plain line ends, its first end marker on its last line) exactly when normalizing it and searching its end marker find nothing earlier. |
| HostsBlock.BuildHostsBlock | agent/src/hosts.rs:32-51 | Sorting and pushing valid records computes the agent's block. |
| HostsBlock.BuildControllerBlock | internal/config/hosts.go:28-48 | The controller's twin, over records its own sort has arranged by name. |
| HostsBlock.SameOrder | internal/config/hosts.go:28-48 | With distinct names, the controller's unstable sort arranges the records as the agent's stable one. |
| HostsBlock.SameBlock | internal/config/hosts.go:28-48 | Controller and agent compute the same block if and only if every record with name and address is valid for the agent. |
| HostsBlock.HostsFile.Update | agent/src/hosts.rs:92-188 | The file is rewritten exactly when splicing the block in changes its normalized content, and the returned hash is that of the block. |
| HostsBlock.SecondUpdateRests | agent/src/hosts.rs:107-157 | Updating again with the same records reports no change if and only if the block is clean. |
| HostsBlock.UpdateIsExtracted | agent/src/hosts.rs:66-74 | Extracting from an updated file returns exactly the new block, up to its last newline. |
| HostsBlock.SurroundingsKept | agent/src/hosts.rs:107-157 | The text before and after the old block is kept, up to white space next to the new one. |
| HostsBlock.SameHash | agent/src/hosts.rs:54-63 | The hash of the extracted block equals the hash of the built one. |
| HostsBlock.HarmlessIsClean | agent/src/hosts.rs:32-51 | Records without marker characters or carriage returns give a clean block. |
| HostsBlock.HarmlessRecordsSettle | agent/src/hosts.rs:32-157 | For harmless, valid records with distinct names and any file: the second update rests, extraction returns the block, and its hash is the controller's. |
| HostsBlock.MarkedAddressUnclean | agent/src/hosts.rs:32-51 | A concrete valid record, whose address goes on with marker text after a slash, makes an unclean block: updates with it never rest. |
| HostsLines.ValidIs | agent/src/validation.rs:13-45 | A record is valid exactly when its trimmed name has 1 to 64 ASCII letters, digits, underscores and hyphens and its address, up to a slash, parses. |
| HostsLines.AgentLines | agent/src/hosts.rs:32-51 | Line by line, the agent's block is the start marker, then for each valid record, sorted by name, its address, its name and its name in the internal domain, then the end marker. |
| HostsLines.ControllerLines | internal/config/hosts.go:28-48 | The controller's block is the same with every record that has an address and a name. |
| HostsLines.HashIs | agent/src/hosts.rs:54-63 | The hash is that of the block without outer white space and with plain line ends; blank text has none. |
| Crontab.FormatIsLine | agent/src/crontab.rs:12-34 | A formatted cron line is one trimmed, non-empty line. |
| Crontab.CollectLines | agent/src/crontab.rs:40-48 | The lines of all apps in order, enabled or commented out. |
| Crontab.BuildCronBlock | agent/src/crontab.rs:39-67 | The markers around the sorted lines, or nothing at all without lines. |
| Crontab.BuiltIsNormal | agent/src/crontab.rs:39-67 | A built block is between its markers and has plain line ends whatever the apps contain. |
| Crontab.UpdateCrontabContent | agent/src/crontab.rs:93-151 | The whole update: whether something changes, and the new crontab. |
| Crontab.Replace | agent/src/crontab.rs:129-150 | The new crontab: text before, block, text after, with one blank line between. |
| Crontab.AddingAgainRests | agent/src/crontab.rs:93-151 | Adding the same block again reports no change if and only if the block is clean. |
| Crontab.AddThenRemove | agent/src/crontab.rs:93-151 | On a crontab without carriage returns or start marker: adding a block and removing it gives the original, trimmed at its end plus one newline, if and only if the block is clean. |
| Crontab.MarkerFreeIsClean | agent/src/crontab.rs:39-67 | A block whose lines hold no end marker is clean. |
| Crontab.DroppedExactly | agent/src/crontab.rs:129-170 | What follows a start marker is lost by an update if and only if nothing but white space stands behind the block it starts, in particular whenever that block is never closed. |
| Crontab.UnclosedBlockIsDropped | agent/src/crontab.rs:153-170 | After a start marker without end marker, the rest of the crontab is dropped: why the laws above exclude it. |
| CrontabLines.CommandIs | agent/src/crontab.rs:12-34 | A command, with comment signs before it or not, becomes the command itself when its app is enabled, and the command behind one comment sign when it is disabled. |
| CrontabLines.NoCommandIs | agent/src/crontab.rs:12-34 | Blank lines are dropped; of a line of comment signs alone, a disabled app keeps one and an enabled app nothing. |
| CrontabLines.EnabledAgain | agent/src/crontab.rs:12-34 | Disabling a command and enabling it again gives the same command. |
| CrontabLines.AppLinesAre | agent/src/crontab.rs:39-49 | The collected lines are exactly what becomes of the lines of the apps' texts. |
| CrontabLines.BlockLinesAre | agent/src/crontab.rs:39-69 | Line by line, the block is the start marker, these lines in the order of a dictionary, and the end marker; without lines there is no block. |
| CrontabLines.LayoutIs | agent/src/crontab.rs:122-150 | The block stands between the text before and the text behind it, with one blank line to each of them that is not blank, and the last line is ended. |
| CrontabLines.RemovedIs | agent/src/crontab.rs:100-118 | Without a block, the text before and the text behind it are put together with a line end between them, and the last line is ended. |
| ApplyConfig.MergeFields | internal/engine/apply.go:515-600 | Field by field, the merge changes the target in place and appends to the report list. |
| ApplyConfig.MergedValue | internal/engine/apply.go:515-600 | After a merge each patched field has the patch's value, every other field its own. |
| ApplyConfig.MergeReports | internal/engine/apply.go:515-600 | For fields of distinct names, the report lists exactly the fields that changed, in order, with old and new value (secrets masked, silent fields omitted). |
| ApplyConfig.MergeAgain | internal/engine/apply.go:515-600 | Merging the scalar fields of a patch again changes and reports nothing. |
| ApplyConfig.NothingReported | internal/engine/apply.go:515-600 | The report is empty exactly when only silent fields changed. |
| ApplyConfig.ApplyStringSliceDelta | internal/engine/apply.go:471-513 | Deletions first, then additions that are not there yet. |
| ApplyConfig.DeltaContents | internal/engine/apply.go:471-513 | A delta keeps every element not deleted, in order, adds only listed elements, and leaves every listed addition present. |
| ApplyConfig.NodeFieldsDistinct | internal/engine/apply.go:515-675 | The 28 field names of a node are distinct, so the reports of a node are those of its changes. |
| ApplyConfig.NodeIsMerged | internal/engine/apply.go:515-675 | A merged node has the patch's value in every field the patch sets and its own in every other, and its lists are the patched ones; the report lists exactly the changes, is empty exactly when the node is unchanged, and the update time moves exactly otherwise. |
| ApplyConfig.MergeNode | internal/engine/apply.go:515-675 | The method has this outcome, whatever the node and the patch. |
| ApplyConfig.NodeIsCreated | internal/engine/apply.go:677-793 | A new node has the patch's name, lists and fields, table 254 and interface lo unless patched, and nothing else. |
| ApplyConfig.CreateNodeFromPatch | internal/engine/apply.go:677-793 | The method creates that node and reports it as the one change. |
| ApplyConfig.MergeLinkEnd | internal/engine/apply.go:862-948 | One end of a link, appending its reports under the end's prefix. |
| ApplyConfig.LinkIsMerged | internal/engine/apply.go:795-860 | A merged link has the patch's fields and tags, and each end those of the patch's end of its own node, in either order; the report lists exactly the changes except the key's, and is empty exactly when nothing but the key changed. |
| ApplyConfig.MergeLink | internal/engine/apply.go:795-860 | The method has this outcome, whatever the link and the patch. |
| ApplyConfig.LinkIsCreated | internal/engine/apply.go:950-996 | A new link has the patch's two ends, fields and tags, and nothing else. |
| ApplyConfig.CreateLinkFromPatch | internal/engine/apply.go:950-996 | The method creates that link and reports it as the one change. |
| ApplyConfig.SwappedPatchMergesAlike | internal/engine/apply.go:795-860 | Swapping a patch's two ends changes neither the merged link nor the report, if and only if the link is no self-loop or both ends would receive the same anyway. |
| ApplyConfig.SwappedMeansSame | internal/engine/apply.go:305-313 | A swapped patch selects the same link of the configuration. |
| ApplyConfig.LoopPatchDiffers | internal/engine/apply.go:795-860 | A concrete link from a node to itself on which a swapped patch gives another link. |
| ApplyConfig.KeyChangeIsSilent | internal/engine/apply.go:795-860 | A patch of only the pre-shared key changes the link and reports nothing, so it does not even touch the update time. |
| ApplyConfig.FindNode | internal/engine/apply.go:1258-1265 | The first node of that name up to case. |
| ApplyConfig.FindLink | internal/engine/apply.go:305-313 | The first link between the two named nodes in either order. |
| ApplyConfig.ApplyNodes | internal/engine/apply.go:251-301 | Over all node patches: nodes grow by exactly the added count and keep their names, the summary counts match the reports, and the affected list holds each reported name once. |
| ApplyConfig.ApplyLinks | internal/engine/apply.go:303-371 | Over all link patches: links grow by exactly the added count, a link to an unknown node fails the whole patch. |
| ApplyConfig.SettingsAreMerged | internal/engine/apply.go:998-1166 | Every group of settings has the patch's values where it sets them and its own elsewhere, and the reports are exactly the groups that changed with all their changes. |
| ApplyConfig.ApplySettings | internal/engine/apply.go:373-419 | The method has this outcome, with a total that is the sum of the reported changes. |
| ApplyConfig.ValidateMeshIntegrity | internal/engine/apply.go:1211-1244 | Succeeds if and only if names are unique up to case, non-empty IPv6 addresses are unique, and every link end is a node. |
| ApplyConfig.Config.SimulateApply | internal/engine/apply.go:240-427 | A plan is returned if and only if every link patch applies and the result is sound; then nodes and links have grown by exactly the added counts, the total is the sum of all reported changes, and the affected names are those of the reports. |
| ConfigReports.DifferencesTell | internal/engine/apply.go:515-860 | A report has an entry for exactly the fields that differ and are not silent, with the old and the new value, or stars for both when the field is a secret. |
| ConfigReports.NodePatchIsFor | internal/engine/apply.go:251-301 | A node patch is for the first node of its name up to case, and for a new node at the end when there is none. |
| ConfigReports.LinkPatchIsFor | internal/engine/apply.go:303-371 | A link patch is for the first link between its two nodes in either direction; without one it makes a new link at the end, and is refused exactly when one of the nodes is unknown. |
| ConfigReports.MeshIs | internal/engine/apply.go:1211-1244 | A mesh is sound exactly when no two nodes share a name up to case, no two that need an address of their own share it, and both ends of every link are nodes. |
| ConfigReports.GroupsAre | internal/engine/apply.go:373-419 | Settings are reported by group, each group with its changes under its own name, and only groups with changes are. |
| ConfigReports.SettingsAreDiscreet | internal/engine/apply.go:998-1166 | No report about settings contains a token: API, Prometheus, bot and webhook tokens are shown as stars. |
| ConfigReports.NodesAndLinksAreDiscreet | internal/engine/apply.go:515-860 | No report about nodes or links contains a token, or the pre-shared key of a link in any form. |
| ConfigReports.NamesAndTags | internal/engine/apply.go:1211-1244 | Node names are the same up to the case of ASCII letters, tags also up to outer white space. |
| ConfigReports.AddressIs | internal/engine/apply.go:1221-1231 | IPv6 addresses are compared in lower case, without outer white space and prefix length. |
| ConfigReports.HasAddressIs | internal/engine/apply.go:1221-1231 | An IPv6 address has to be unique among the nodes that have one and are not external. |
| ListDelta.DeletedIsUnhit | internal/engine/apply.go:475-492 | The deletions, one after the other, keep exactly the items none of them hits, in order. |
| ListDelta.DeltaTwice | internal/engine/apply.go:471-513 | Applying a list change again only moves the appended items that a deletion of the same change hits behind the other appended ones. |
| ListDelta.MergedListAgain | internal/engine/apply.go:471-513 | Applying a list patch again changes nothing if and only if it gives a new list, or the appended items its own deletions hit come last. |
| ListDelta.DeltaAlternates | internal/engine/apply.go:471-513 | A concrete change that alternates: deleting x and adding x and y gives x, y and then y, x. |
| ListDelta.NodeMergedAgain | internal/engine/apply.go:515-675 | Merging a node patch again changes and reports nothing if and only if it settles tags and routes in this sense. |
| ListDelta.LinkMergedAgain | internal/engine/apply.go:795-860 | Merging a link patch again changes and reports nothing if and only if it settles the tags. |
| DuplicateId.DigitStartIs | internal/engine/apps.go:214-225 | The split is before the longest run of digits at the end. |
| DuplicateId.ParseIdentifier | internal/engine/apps.go:217-231 | The base and the number after the trailing one, or the whole id and 1 when there is no 64-bit number. |
| DuplicateId.CandidatesDiffer | internal/engine/apps.go:231-242 | Up to 2^64 consecutive candidates are pairwise different, also up to case and across the wrap-around. |
| DuplicateId.KeysCount | internal/engine/apps.go:231-242 | n tried candidates account for n taken identifiers. |
| DuplicateId.ComputeDuplicateIdentifier | internal/engine/apps.go:217-242 | The loop ends within one more step than there are taken identifiers, with the first candidate that is not taken. |
| DuplicateId.CandidateIs | internal/engine/apps.go:217-242 | A number at the end of the identifier is counted on from the next one, as long as it has 64 bits and no line break comes before it; to any other identifier the numbers from 1 on are appended. |
| DuplicateId.KeepsBase | internal/engine/apps.go:217-242 | The duplicate's identifier is the base, followed by a number: the base is what precedes the trailing digits, or the whole id when there is no 64-bit number. |
| DuplicateId.WrapsToZero | internal/engine/apps.go:226-240 | The candidate after the largest 64-bit number is zero. |
| DuplicateId.StillDistinct | internal/engine/apps.go:247-324 | Appending an app with a free id and a free name keeps ids and names distinct. |
| DuplicateId.DuplicateApp | internal/engine/apps.go:247-324 | Fails exactly when the app is unknown; otherwise appends one disabled, unpublished app whose id and name are the first free candidates after the original's, keeps all others and keeps ids and names distinct. |

## Left out

- Calendar.CivilIsNaive: years and timestamps are unbounded integers; the cast of the year to 32 bits and 64-bit overflow of timestamps are not modelled.
- CronSchedule.Next: times are whole seconds in UTC; fractions of a second and time zones of the controller's clock are not modelled.
- CronParse.FieldOutcome: that no 32-bit counter wraps is sufficient for equal values of a whole field; PartsAgree has the exact condition for each part, and the parts of a field may make up for one another.
- AgentConnection.CoreStep: assumes request ids that were not used before; what happens without the assumption of one answer per id is stated exactly by FaultsExactly.
- AgentConnection and AgentHub: the socket, its send lock, message encoding, random request ids and the clock are parameters of the steps; fairness and liveness of the scheduler are not modelled.
- AgentHub: only the connection, last-seen and telemetry tables; a zero last-seen time counts as a time.
- Traffic, Rollup and TrafficStore: the tables of one interface as sequences and maps, in place of SQL; node metrics and cron run counts have tables of their own and are not modelled.
- Traffic.MonotoneUntilWrap: counters wrap at 2^64 as in the code's arithmetic; that the database stores signed 64-bit integers is not modelled.
- Rollup.RunKeepsInv: holds for runs in which no rollup empties the derived rows and less than 2^64 is counted; EmptiedRowsRestart states what happens otherwise.
- TrafficWindow.BeforeEnd: the bucket ends of the downsampling loop are real numbers, so rounding of floating-point ends and averages is not modelled.
- BirdTemplates: filters, prefix lists, communities and all other template data, the text templates themselves, and the protocol names of links, which the code does not make unique for three links with one base name.
- BirdTemplates.EndCost: costs are unbounded; negating the most negative 64-bit cost is not modelled.
- CleanPrefixes.CleaningUndoesJoin: cleaning is claimed on prefixes with at most one balanced brace group; on other lists it need not be idempotent, e.g. for the items `x},{y` and `z}`.
- NftPrefixes.FormatNftPrefixList: parsing and rendering of addresses are parameters; the claims hold whatever they are.
- NftPrefixes.MaskedMarkKeepsOthers: reading a 32-bit number is a parameter, and words are lists of bits; the hexadecimal text is not modelled.
- DnsSync.Sync: all API calls succeed and records are stored as sent; partial failures, paging, host-name targets and the rate of calls are not modelled. Address parsing is a parameter.
- DnsSync.PlainNamesDoNotConflict: gives a readable sufficient condition; the exact one is the condition in Sync.
- AppFiles.AppDirectory.SyncConfigFiles: its success is characterised from below only: a wanted path that is a directory may still be free because pruning orphans removes that directory; the two steps that write are characterised exactly.
- AppFiles: paths are compared component by component, so trailing slashes and dot components are not distinguished; permissions, symbolic links, and syncs that fail half way are not modelled; orphans are removed in any order, which includes the code's.
- HostsBlock: SHA-256 is an uninterpreted function and address validity is a parameter; the temporary file and its rename are one step.
- HostsBlock.HarmlessRecordsSettle: asks that addresses contain neither a number sign nor a carriage return; the exact condition for resting is in SecondUpdateRests.
- Crontab: the shell commands that read and install the crontab.
- ApplyConfig: scalar fields are generic values by name, route equality is a parameter; key generation, endpoint recomputation after a patch, and storing the result are not modelled.
- DuplicateId.ComputeDuplicateIdentifier: fewer than 2^64 identifiers are taken; otherwise the loop need not end.
- ListDelta.NodeMergedAgain: route equality is any equivalence; that the code's comparison of parsed prefixes is one is not modelled.
- DuplicateId.DuplicateApp: the other fields that are copied, and validation of the app, are not modelled.
- Text: upper and lower case are those of ASCII letters, not Unicode case folding.
- Cryptography, configuration storage and locking, SSH deployment, the command line, web interface, notifications, metrics export, looking-glass and download tasks, container-runtime detection: no part of this model, they are plumbing or easy lookups.
