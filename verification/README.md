# holonightd: a verified model of its stores, protocols and parsers

`holonightd` is a C++ workspace of two daemons. `holonight-healthd` collects observations, keeps them
in an SQLite table with age and capacity limits, and evaluates diagnostic rules. `holonight-agentd`
tracks coding-agent sessions over D-Bus and binds desktop notifications to the terminals they came from.
This project models the stateful parts of both, in the form the code has them (classes with methods that
update their fields, loops with invariants), proves each method against a specification function or
relation, and proves what the code is for about those specifications. `dafny verify dfyconfig.toml` checks
the whole project.

| file | models |
|---|---|
| `Common`, `Decimal` | machine integers, results, `std::to_string`, `std::stoll` |
| `Doubles`, `Utf8` | the finite doubles and rounding to them, well-formed UTF-8 |
| `Observation` | events, severities and the text columns of a row |
| `EventTable`, `Capacity`, `EventQuery`, `EventStore` | the table, capacity pruning, query compilation, the store |
| `Retention`, `Daemon` | one daemon iteration and whole runs of them |
| `RuleEngine` | rule evaluation and the built-in rules |
| `SystemdCollector` | failed units and the flapping window |
| `CommandRunner` | the read/wait/kill loop around a child process |
| `ProcessAncestry` | `/proc/<pid>/stat` and the walk up the process tree |
| `ActionBindings`, `SessionRegistry`, `AgentDaemon`, `AgentProtocol` | the agent daemon, its two tables and its runs |
| `MessageText`, `MountPath` | notification bodies, escaped mount paths |

## How the environment enters

- SQL leaves the order of rows with equal keys open. `EventTable.DeleteLowest` and `EventQuery.Execute` have
  contracts that admit every choice; nothing proved of their callers depends on how their bodies choose.
- The size read through `PRAGMA page_count` is an arbitrary function of the pass number (`Environment.bytesAt`).
  `sqlite3_changes` returns a C `int`; its answer is unspecified above the largest `int` (`wideChanges`).
- Clock readings, failures of single steps, Notify replies, wait and read results, and the contents of
  `/proc` are arguments. Table operations that read the clock twice take two readings, the second not earlier.
- `/proc/<pid>/stat` is one function per walk: it does not change while a walk runs.
- Keys of maps are one-field datatypes (`RowId`, `NotifyId`) around the integers of the source.

## What turned out not to hold

- The header of the store (include/holonightd/EventStore.h:40) promises a cut to 90% of the limits. `DELETE`
  need not shrink the file, and the loop deletes a hundred rows at a time until the size reading drops:
  `Capacity.ByteLimitLeaves` gives the rows left and `Capacity.ByteLimitEmptiesExactly` the exact condition for
  an emptied table, with both limits on as the daemon has them; `Retention.KeepsNothingExactly` carries it to a
  daemon iteration, which then loses rows of every severity.
- A double is stored with six decimals. It comes back unchanged exactly when some decimal of at most six places
  is read as it (`Observation.DoubleRoundTrip`), and may come back more than half a millionth away:
  `Observation.HalfMillionthExceeded` is such a double.
- A query's time bounds are truncated to microseconds, so events just outside them can be returned:
  `EventQuery.StartBoundIsExact` and `EventQuery.EndBoundIsExact` give the exact conditions.
- The systemd collector's design document asks for a report when a unit is restarted `threshold` times within
  the window. The code counts polls that find the unit failed (`SystemdCollector.ReportedExactly`). It reports
  units that were never restarted: a unit that stays failed, exactly when the window holds threshold - 1
  poll intervals (`SystemdCollector.FalseReportExactly`). And it misses restarts between polls, however many
  (`SystemdCollector.RestartsGoUnseen`).
- The built-in rule for failed units asks for category `systemd`, the collector writes `systemd.unit`, so
  failed units never contribute to a built-in finding: `SystemdCollector.FailedUnitsRaiseNoBuiltInFinding`.
- Notification bodies are cut by bytes, so the cut can fall inside a character, and the body is then not the
  UTF-8 that the D-Bus Specification demands of strings: `MessageText.TruncatedUtf8Exactly` and
  `MessageText.CharacterIsSplit`.
- One live binding per registration needs a notification server that never answers 0, as the Desktop
  Notifications Specification demands of Notify in its section "D-BUS Protocol":
  `AgentProtocol.PublishSafeExactly` and `AgentProtocol.ZeroReplyDuplicates`.

Two results state exact conditions that the callers always meet: `MessageText.BoundExactly` (maxima below 3
break the length bound; the one call passes 200, libs/agent/NotificationBridge.cpp:219) and
`MountPath.RoundTripExactly` (the kernel's escape set holds the backslash).

## Model

| member | source | states |
|---|---|---|
| Observation.SqlRankIsDecodedOrdinal | libs/storage/EventStore.cpp:344-350 | for every stored severity text, unknown ones included, the rank of the SQL CASE is the ordinal of the severity the row decodes to |
| Doubles.ToDoubleIsNearest | libs/storage/EventStore.cpp:138-144 | reading a decimal text yields the double nearest to it |
| Observation.DoubleRoundTrip | libs/storage/EventStore.cpp:138-144 | a stored double comes back as the double nearest to its six printed decimals, within a millionth; unchanged exactly when some decimal of at most six places is read as it, as is every double from 2^33 on |
| Observation.DecimalsSurvive | libs/storage/EventStore.cpp:138-144 | every double that a decimal of at most six places is read as, 0.1 say, survives storage |
| Observation.HalfMillionthExceeded | libs/storage/EventStore.cpp:138-144 | a double that comes back more than nine tenths of a millionth away, though it is printed to the nearest millionth |
| Observation.ValueRoundTrip | libs/storage/EventStore.cpp:127-149 | a value survives storage exactly when it is none, a bool, an int64, a NUL-free string or such a double; any double comes back as the one nearest to its six decimals |
| Observation.EventRoundTrip | libs/storage/EventStore.cpp:151-177 | a whole event survives storage (but for its key) exactly when its time is in whole microseconds, its strings are NUL-free, its value storable and its attributes not empty |
| Observation.ValueColumnsMean | libs/storage/EventStore.cpp:193-215 | what the value columns hold for each kind of value |
| Observation.ColumnsMean | libs/storage/EventStore.cpp:193-227 | each NUL-free field is stored in its own column, the severity by name, the time in whole microseconds |
| EventTable.SurvivorsAreTheTop | libs/storage/EventStore.cpp:445-457 | after any eviction in the statement's order, the survivors above each key number as many as the survivors and the table allow |
| EventTable.SurvivingKeysAreUnique | libs/storage/EventStore.cpp:445-457 | whatever the tie-breaking, two evictions keeping equally many rows keep equally many of every key |
| EventTable.HigherSeveritySurvives | libs/storage/EventStore.cpp:445-457 | while a row survives, every row of higher severity does, unaltered |
| EventTable.EvictionOrder | libs/storage/EventStore.cpp:445-457 | in the words of the columns: debug goes before info and unknown severities, those before warning, error and critical, and of one severity the older before the newer |
| EventTable.EvictedTransitive | libs/storage/EventStore.cpp:464-497 | several passes of deletion are one eviction: everything lost has a key no greater than everything kept |
| EventTable.DeleteLowest | libs/storage/EventStore.cpp:445-457 | the statement removes exactly k rows, lowest keys first, and alters none |
| Capacity.NinetiethIsExact | libs/storage/EventStore.cpp:440-441 | the target is nine tenths of the limit exactly when the product fits size_t, and never above the limit |
| Capacity.PruneMeetsTargets | libs/storage/EventStore.cpp:427-501 | after a limit was exceeded, a successful prune empties the table or ends in a pass that finds the rows, and the size it reads itself, within every enabled target; it returns the number of rows lost; without an exceeded limit nothing happens |
| Capacity.PruneInPlainTerms | libs/storage/EventStore.cpp:427-501 | within the limits nothing happens; above one of them the prune begins, and when it succeeds the table is empty or the rows, and the size its last pass reads, are at nine tenths |
| Capacity.NothingChangedExactly | libs/storage/EventStore.cpp:492-495 | the exit on an unchanged table is taken exactly when the first pass deletes more than 2^31 - 1 rows and sqlite3_changes answers 0 for them |
| Capacity.PruneBoundsRows | libs/storage/EventStore.cpp:427-501 | a successful prune leaves at most max_events rows, however large the table |
| Capacity.RowLimitLeavesTarget | libs/storage/EventStore.cpp:472-474 | with only the row limit, a deleting prune leaves exactly the target |
| Capacity.ByteLimitLeaves | libs/storage/EventStore.cpp:464-497 | whatever limits are on, the rows left are fixed by the first pass, after the one that brings the rows to their target, whose reading fits: a hundred fewer per earlier pass; that pass is the last |
| Capacity.ByteLimitEmptiesExactly | libs/storage/EventStore.cpp:464-497 | whatever limits are on, the prune empties the table exactly when every reading that takes stays above the byte target |
| Capacity.StuckSizeEmptiesTable | libs/storage/EventStore.cpp:464-497 | whatever the row limit, readings that never fit make the prune remove every row |
| EventQuery.CompiledRowIsMatch | libs/storage/EventStore.cpp:323-388 | for every filter each placeholder gets its own value: a row passes the compiled clauses exactly when it matches the filter, and LIMIT admits what the filter asks |
| EventQuery.CompiledMeansFilter | libs/storage/EventStore.cpp:323-395 | a list of rows is a result of the compiled statement exactly when it answers the filter: matching, newest first, cut last, nothing omitted newer than anything listed |
| EventQuery.EmitSql | libs/storage/EventStore.cpp:323-357 | the first pass emits the clauses of the tests that hold, the order and the limit, in that order |
| EventQuery.EmitBinds | libs/storage/EventStore.cpp:364-388 | the second pass binds the values of the same tests in the same order |
| EventQuery.Execute | libs/storage/EventStore.cpp:390-394 | the rows come newest first, cut to the limit, ties in any order |
| EventQuery.WindowKeepsEvents | libs/storage/EventStore.cpp:365-374 | no event inside the requested window is missed by truncation to microseconds |
| EventQuery.StartBoundIsExact | libs/storage/EventStore.cpp:365-369 | the start bound admits no earlier event exactly when the nanosecond before it falls into an earlier stored microsecond |
| EventQuery.EndBoundIsExact | libs/storage/EventStore.cpp:370-374 | the end bound admits no later event exactly when the nanosecond after it falls into a later stored microsecond |
| EventQuery.MatchesFits | libs/storage/EventStore.cpp:323-388 | a row matches exactly when its event fits the filter as the caller reads it |
| EventStore.InsertAllIsOneByOne | libs/storage/EventStore.cpp:261-307 | a batch keeps every old row, stores row i under the i-th new key and adds nothing else |
| EventStore.AnswerFits | libs/storage/EventStore.cpp:320-399 | an answer fits the filter, comes newest first within the limit, and leaves a fitting event out only by the limit, when it is no newer |
| EventStore.EventStore.Insert | libs/storage/EventStore.cpp:179-237 | adds one encoded row under the next key, or fails and changes nothing |
| EventStore.EventStore.InsertBatch | libs/storage/EventStore.cpp:239-318 | leaves the rows of inserting one by one when the transaction begins and no step fails, and the old table otherwise |
| EventStore.EventStore.PruneEvents | libs/storage/EventStore.cpp:401-421 | a row stays exactly when it is at or after the cutoff, unaltered, and the number that went is returned; a failed statement changes nothing |
| EventStore.EventStore.PruneEventsByCapacity | libs/storage/EventStore.cpp:427-501 | does nothing when the rows and the size are within the limits and begins to delete otherwise; evicts in key order, also when a later pass fails, and leaves the count, result, last pass and cause of `PruneOutcome` |
| EventStore.EventStore.Query | libs/storage/EventStore.cpp:320-399 | returns the decoded rows of a list that answers the filter, or the first of them when a step fails while rows are read: they fit the filter, newest first, no more than the limit, and a fitting event is left out only by the limit and is then no newer |
| Retention.IterationGuarantees | libs/health/Daemon.cpp:253-277 | after an iteration whose prunes succeed: nothing before the cutoff, at most max_events rows when that limit is on, no row altered, and a fresh row lost only if every survivor has at least its key |
| Retention.FreshRowsStay | libs/health/Daemon.cpp:253-277 | while no limit is exceeded an iteration keeps every row not older than the retention days, in hours |
| Retention.FreshEventsStay | libs/health/Daemon.cpp:253-277 | and so every such event of a batch that commits |
| Retention.StaleRowsGo | libs/health/Daemon.cpp:261-262 | no row a microsecond older than the retention days is left |
| Retention.KeepsNothingExactly | libs/health/Daemon.cpp:269-271 | an iteration that prunes keeps no row exactly when the size readings of the passes that takes stay above the byte target |
| Retention.StuckSizeLosesEverything | libs/health/Daemon.cpp:269-271 | when deleting does not shrink the file, an iteration over the byte limit keeps no row |
| Retention.RowsAreInserted | libs/health/Daemon.cpp:253-277 | every row left after a run is an event of one of its committed batches, under the key that batch gave it and unaltered |
| Retention.HysteresisCost | libs/storage/EventStore.cpp:433-441 | over any run from an empty store with only the row limit, P deleting prunes need (max + 1) + (P - 1) * (max + 1 - floor(9 * max / 10)) insertions |
| Retention.RowLimitKeepsTheTop | libs/storage/EventStore.cpp:433-501 | with only the row limit, above every key survive as many rows as nine tenths of the limit and the table allow |
| Retention.StoredEventIsReturned | libs/storage/EventStore.cpp:320-399 | a storable event, once stored, is returned unchanged by every matching query without limit |
| Daemon.Daemon.RunIteration | libs/health/Daemon.cpp:253-277 | the three store calls run in order, each whether or not the one before failed, and history only grows |
| Daemon.Daemon.Run | libs/health/Daemon.cpp:218-241 | every run is a chain of such iterations from the empty store, and every row left is an event of a batch one of them committed |
| RuleEngine.OperatorsPartition | libs/health/RuleEngine.cpp:86-141 | Equals and NotEquals are complementary; of each pair of complementary orderings exactly one holds between numbers and none otherwise |
| RuleEngine.OperatorsMean | libs/health/RuleEngine.cpp:86-141 | each ordering compares the number of the event with that of the target and holds only when both have one; equality, containment and patterns compare texts |
| RuleEngine.RestrictionsAreSeparate | libs/health/RuleEngine.cpp:143-167 | each restriction of a condition tests its own field and narrows the others |
| RuleEngine.MatchedByIsFilter | libs/health/RuleEngine.cpp:169-184 | a condition lists exactly its matching events, each as often as it occurs |
| RuleEngine.TriggeredHasEvents | libs/health/RuleEngine.cpp:559 | the final test for a nonempty list never decides |
| RuleEngine.RuleEngine.EvaluateAllLogic | libs/health/RuleEngine.cpp:169-184 | true exactly when every condition has a matching event, and then lists the matches of all conditions |
| RuleEngine.RuleEngine.EvaluateAnyLogic | libs/health/RuleEngine.cpp:186-198 | true exactly when some condition has a matching event, and lists the matches of all conditions |
| RuleEngine.RuleEngine.Evaluate | libs/health/RuleEngine.cpp:545-579 | yields one finding for each triggered rule, in rule order |
| RuleEngine.TriggeredMeans | libs/health/RuleEngine.cpp:169-198 | a rule is triggered exactly when it has conditions and each (All) or one (Any) matches some event |
| RuleEngine.TriggeredAtIsExact | libs/health/RuleEngine.cpp:549-559 | the positions of the triggered rules are listed without omission |
| RuleEngine.FindingsListTriggeredRules | libs/health/RuleEngine.cpp:549-572 | finding k is that of the k-th triggered rule, at most one per rule |
| RuleEngine.FindingMeans | libs/health/RuleEngine.cpp:560-572 | a finding carries the id, title, category and severity of its rule and lists each event once per condition that matches it |
| RuleEngine.TriggeredIsMonotone | libs/health/RuleEngine.cpp:169-198 | adding events never un-triggers a rule |
| RuleEngine.FindingsIgnoreEventOrder | libs/health/RuleEngine.cpp:545-579 | reordering events changes findings at most in the order of their events |
| RuleEngine.IgnoredEventsChangeNothing | libs/health/RuleEngine.cpp:545-579 | events no condition matches change no finding, wherever in the list they stand |
| RuleEngine.ForeignCategoriesRaiseNothing | libs/health/RuleEngine.cpp:318-448 | events of categories the built-in rules do not name change no built-in finding, whatever other events they come with |
| RuleEngine.BuiltInRulesMean | libs/health/RuleEngine.cpp:318-448 | which events raise each built-in finding |
| SystemdCollector.SystemdCollector.PruneOldTimestamps | libs/health/SystemdCollector.cpp:70-83 | with a clock that does not run back, the stored starts of every unit are its whole history cut to the window, with an entry exactly when that is not empty |
| SystemdCollector.SystemdCollector.Collect | libs/health/SystemdCollector.cpp:85-201 | keeps that invariant, logs each failed unit that is not ignored, and emits flapping exactly when its failures in the window reach the threshold |
| SystemdCollector.WindowMoves | libs/health/SystemdCollector.cpp:70-83 | pruning stored starts at a later cutoff equals cutting the whole history there |
| SystemdCollector.EventsMean | libs/health/SystemdCollector.cpp:128-193 | events are about units found failed and not ignored, each of which has a failure event, with the right source, signal and severity |
| SystemdCollector.CorrectedSettings | libs/health/SystemdCollector.cpp:55-64 | settings that make no sense become 3 failures in 300 seconds |
| SystemdCollector.FlappingExactly | libs/health/SystemdCollector.cpp:128-190 | a reply makes the collector report a unit as flapping exactly when it is found failed, is not ignored, and its failing polls in the window reach the threshold |
| SystemdCollector.ReportedExactly | libs/health/SystemdCollector.cpp:157-193 | for any life of a unit: a poll reports it exactly when this poll and enough earlier ones in the window find it failed; its restarts do not enter |
| SystemdCollector.SteadyFailureIsFlapping | libs/health/SystemdCollector.cpp:157-193 | a unit that stays failed and is never restarted is reported by poll n exactly when min(n, window / interval) + 1 reaches the threshold |
| SystemdCollector.FalseReportExactly | libs/health/SystemdCollector.cpp:157-193 | so it is ever reported exactly when window / interval + 1 reaches the threshold |
| SystemdCollector.RestartsGoUnseen | libs/health/SystemdCollector.cpp:157-193 | a unit can fail and be restarted as often as the threshold asks between two polls of the window, and no poll reports it |
| SystemdCollector.FailedUnitsRaiseNoBuiltInFinding | libs/health/RuleEngine.cpp:427-447 | whatever units fail and whatever else was collected, the collector's unit events change no built-in finding |
| CommandRunner.Run | libs/process/CommandRunner.cpp:101-163 | the loop ends in the outcome of the state machine after the given turns: a report, an exception, or still running |
| CommandRunner.OutputIsPrefix | libs/process/CommandRunner.cpp:42-47 | in every state the output is everything read cut at the limit, and the flag says whether something was cut |
| CommandRunner.FinishedExactly | libs/process/CommandRunner.cpp:106-146 | in every state the output is finished exactly when end of file or a fatal error was read, and the child exactly when it was reaped or the command was ended |
| CommandRunner.FinishedRuns | libs/process/CommandRunner.cpp:104-163 | a run that returns has met both, and reports all output cut at the limit and the cause of the last ending |
| CommandRunner.RaisesExactly | libs/process/CommandRunner.cpp:117-124 | a run raises exactly when a wait for the unfinished child fails |
| CommandRunner.StatusIsReaped | libs/process/CommandRunner.cpp:117-146 | the status of a finished child is the one it was reaped with: while polling, in the grace period or after SIGKILL |
| CommandRunner.FlagsTellTheLastKill | libs/process/CommandRunner.cpp:126-131 | timed out and cancelled tell the cause of the last ending, are never both set, and neither is set when the command was never ended |
| CommandRunner.KillFinishesChild | libs/process/CommandRunner.cpp:132-146 | the turn that ends the command finishes the child |
| CommandRunner.ReapedOnce | libs/process/CommandRunner.cpp:117-146 | the child is reaped exactly once in a run that returns, if it can be waited for until then |
| CommandRunner.ExitCodes | libs/process/CommandRunner.cpp:156-162 | 125 when cancelled, 124 when out of time, else the normalised wait status; always a byte |
| CommandRunner.WaitStatusDecodes | libs/process/CommandRunner.cpp:49-57 | exit(code) reads as code, death by a signal as 128 plus its number |
| ProcessAncestry.ParseIsExact | libs/agent/ProcessAncestryReader.cpp:23-39 | a record parses to p exactly when its fourth field, after the last parenthesis, holds the digits of p |
| ProcessAncestry.StatRoundTrip | libs/agent/ProcessAncestryReader.cpp:23-39 | the printed record of any process parses to its parent, whatever spaces and parentheses its name holds |
| ProcessAncestry.StuckIsLineage | libs/agent/ProcessAncestryReader.cpp:41-64 | a piece of the parent chain that cannot be extended is the longest allowed one, and every other is a prefix of it |
| ProcessAncestry.ProcessAncestryReader.Read | libs/agent/ProcessAncestryReader.cpp:41-64 | the walk returns the longest allowed piece: at most 64 processes, no repeats, no 0, process 1 only last, each the parsed parent of the one before, and it stops only at a repeat, 0, 1, the 64th or an unreadable process |
| ActionBindings.EveryRunRefines | libs/agent/NotificationActionBindings.cpp:10-42 | in every run the table is a part of the unbounded map fed the same operations, at most 256 usable entries none expired at the last prune, and all unexpired ones until an eviction |
| ActionBindings.ConsumeIsExact | libs/agent/NotificationActionBindings.cpp:31-40 | until an eviction, consuming succeeds exactly for the bindings of the last 24 hours |
| ActionBindings.EvictionTakesOldest | libs/agent/NotificationActionBindings.cpp:24-27 | room is made only in a full table, by an entry no remaining one is older than |
| ActionBindings.ConsumeHasOrigin | libs/agent/NotificationActionBindings.cpp:31-40 | a successful consume returns what the last binding of that id set, untouched since, at most 24 hours before |
| ActionBindings.EachBindingUsedOnce | libs/agent/NotificationActionBindings.cpp:31-40 | in a legal run every successful consume uses a binding one operation made, and no other consume uses it |
| ActionBindings.UsesAndEntriesWereBound | libs/agent/NotificationActionBindings.cpp:10-42 | in any run, successful consumes and entries left are together no more than bindings made |
| ActionBindings.NotificationActionBindings.Replace | libs/agent/NotificationActionBindings.cpp:15-29 | prunes, drops the replaced id, and inserts a usable binding, evicting an oldest entry when full |
| ActionBindings.ReplaceMeans | libs/agent/NotificationActionBindings.cpp:15-29 | afterwards the new binding is there when it is usable, the replaced one is not, and of the others only those of the last 24 hours |
| ActionBindings.ReplaceKeeps | libs/agent/NotificationActionBindings.cpp:15-29 | no other binding of the last 24 hours goes while there are fewer than 256 |
| ActionBindings.NotificationActionBindings.Consume | libs/agent/NotificationActionBindings.cpp:31-40 | yields the descriptor of the id exactly when it was bound in the last 24 hours, and leaves the other bindings of that time |
| SessionRegistry.SessionRegistry.RegisterSession | libs/agent/SessionRegistry.cpp:40-72 | stores a new session, activable exactly when the process lineage is not empty, under the given or derived id |
| SessionRegistry.SessionRegistry.PublishEvent | libs/agent/SessionRegistry.cpp:74-109 | updates the session with every nonempty field, each to its own place, or registers a bare one |
| SessionRegistry.SessionRegistry.PruneStaleSessions | libs/agent/SessionRegistry.cpp:143-153 | erasing while iterating keeps a session exactly when it was last updated at most 24 hours ago, unaltered |
| AgentDaemon.NotificationBridge.SendNotification | libs/agent/NotificationBridge.cpp:242-265 | a missing reply keeps the id, a nonzero one rebinds an activable session |
| AgentDaemon.AgentDaemon.PublishEvent | apps/agentd/main.cpp:80-140 | the handler is the publish step of the protocol |
| AgentDaemon.AgentDaemon.Idle | apps/agentd/main.cpp:250-253 | stale sessions are pruned once a minute |
| AgentProtocol.EveryRunIsSafe | apps/agentd/main.cpp:111-118 | with a conforming server, in every reachable state the bindings of a registration sit under its session's current id, and there is at most one |
| AgentProtocol.PublishSafeExactly | libs/agent/NotificationBridge.cpp:255-265 | from a safe state publishing stays safe exactly when the server does not answer 0 to a session that has a binding |
| AgentProtocol.ZeroReplyDuplicates | libs/agent/NotificationBridge.cpp:262-265 | a run in which a reply of 0 leads to two live bindings of one registration |
| AgentProtocol.SessionStepsKeepBindings | libs/agent/SessionRegistry.cpp:111-153 | registering, re-registering, ending and expiring sessions changes no binding |
| AgentProtocol.OpenReachesPublisher | libs/agent/NotificationBridge.cpp:143-158 | opening a notification activates the terminal of the session that published it, at most 24 hours later, if nothing replaced, used or closed it since |
| AgentProtocol.SessionHasRegistration | libs/agent/SessionRegistry.cpp:40-109 | in every reachable state a session keeps the process, window, start and activation that the step which last registered it recorded, and was not ended since |
| AgentProtocol.SessionsAreTheLiveOnes | libs/agent/SessionRegistry.cpp:40-153 | in every run a session is there exactly when it was mentioned and since then neither ended nor pruned more than 24 hours after its last mention |
| AgentProtocol.SessionShowsLastEvents | libs/agent/SessionRegistry.cpp:74-109 | in every run a session shows the last title, message and state its events gave since it was registered |
| AgentProtocol.KeysMean | libs/agent/NotificationBridge.cpp:143-158 | the open key uses up the binding, any other key changes nothing |
| AgentProtocol.ProtocolRunsTheTable | libs/agent/NotificationBridge.cpp:143-158 | the bindings of every run of the daemon are those of a run of table operations |
| AgentProtocol.StepsAreLegal | apps/agentd/main.cpp:111-118 | with a steady clock that does not run back, the table operations of a run of the daemon are a legal run of the table |
| AgentProtocol.DaemonRefinesTable | apps/agentd/main.cpp:111-118 | in every reachable state of the daemon its bindings refine the unbounded map: at most 256, usable, unexpired at the last prune, complete until an eviction |
| MessageText.TruncateMessage | libs/agent/NotificationBridge.cpp:78-111 | computes the collapsed message, cut with an ellipsis when it is too long |
| MessageText.CollapseFixesTidy | libs/agent/NotificationBridge.cpp:85-98 | collapsing leaves alone exactly the text without tabs, breaks, leading or double spaces |
| MessageText.TruncatedIsPrefix | libs/agent/NotificationBridge.cpp:104-110 | the result is the collapsed message, or at most max_len - 3 characters of it and an ellipsis |
| MessageText.TruncatedIsTidy | libs/agent/NotificationBridge.cpp:78-111 | the result is tidy and within the maximum |
| MessageText.TruncatedMeans | libs/agent/NotificationBridge.cpp:78-111 | the result has no tab, line break, leading space or double space and at most max_len bytes |
| MessageText.CollapseKeepsWords | libs/agent/NotificationBridge.cpp:85-98 | collapsing keeps the words one by one |
| MessageText.TruncateIsIdempotent | libs/agent/NotificationBridge.cpp:78-111 | truncating twice changes nothing more |
| MessageText.TruncatedUtf8Exactly | libs/agent/NotificationBridge.cpp:78-111 | the truncated form of well-formed UTF-8 is well formed exactly when nothing is cut off or the cut is not inside a character |
| MessageText.CharacterIsSplit | libs/agent/NotificationBridge.cpp:219 | a message of 200 bytes, the maximum the bridge asks for, that is cut inside a character |
| MessageText.BoundExactly | libs/agent/NotificationBridge.cpp:104-109 | the maximum is kept for every message exactly when it is at least 3 |
| MountPath.UnescapeMountPath | libs/health/StorageCollector.cpp:41-56 | the index loop computes the recursive unescaping |
| MountPath.EscapesMean | libs/health/StorageCollector.cpp:41-56 | three octal digits count 64, 8 and 1; the escapes of space, tab, line feed and backslash |
| MountPath.RoundTripExactly | libs/health/StorageCollector.cpp:41-56 | unescaping undoes escaping for every path exactly when the escape set has the backslash or all ten digits |
| MountPath.PlainUnescape | libs/health/StorageCollector.cpp:41-56 | text without a backslash is left alone |

## Left out

- SQLite itself: WAL, COMMIT failure, failure of the count and size reads (which the code takes for 0), error texts, mutexes, and `exportToJsonl`. A batch step that fails rolls back; a prune statement that fails changes nothing.
- Observation.ReadDouble: reads fixed notation with six decimals, the only text the encoder writes; exponents and hexadecimal that `std::stod` also accepts are not modelled. Doubles are the finite ones, without NaN, infinities and the sign of zero.
- RuleEngine.MatchValue: `std::stod` on arbitrary text, `std::regex_search` and the rounding of int64 to double are arbitrary functions; NaN comparisons are not modelled.
- Finding ids and time stamps, and exceptions swallowed by `evaluate` (no memory): a finding is modelled by its rule and its events, without the texts for causes and actions.
- JSON and TOML reading, the other collectors, coredump events, attribute texts of collected events, reports, logging and command-line handling.
- The restart count of a flapping event is not cut to a C int.
- D-Bus message building, signals emitted to clients, icons, timeouts and the shell's activation call: only a reply id or its absence, and acceptance or refusal, enter the model.
- The daemon without a notification bridge (before start-up completes) and without systemd support.
- fork, exec, pipe and signals: their results are the turns of `CommandRunner`. That a run ends is not claimed: a descendant holding the pipe can keep it open.
- SessionRegistry.NewSession: the project name of a path is an arbitrary function of the path, and the metadata JSON is given as its optional title and window.
- The sleep between daemon iterations and the checks that follow the store calls.
