# Verified models of MowisAI's algorithms and protocols

Dafny models of the self-contained algorithms and small protocols of MowisAI, each with the properties it
is relied on for. `dafny verify dfyconfig.toml` checks the whole project.

| files | what they model |
|---|---|
| `TextLines`, `EditScript`, `EditGraph`, `DiffPanel` | the line diff of the desktop app: newline normalisation, the greedy search over diagonals, the walk back |
| `ChangeTree`, `ChangeRows` | the diff panel's file tree and the rows it shows |
| `TaskGraph`, `DependencyGraph`, `SandboxAllocation` | the dependency planner: cycle check, dependency check, topological stages, and the sharing of sandboxes among teams |
| `WorkQueue` | the socket server's multi-consumer queue, as a state machine over its atomic steps, and the object with its critical sections |
| `TaskStream`, `TaskRuns` | the API server's event stream, and every interleaving of a task's writers and streams |
| `Framing` | finding the end of the headers, reading Content-Length, and the request read loop |
| `Bytes`, `Json`, `RecoveryJournal`, `WriteAheadLog` | the journal and the write-ahead log, with crashes between and inside file operations |
| `LogRotation` | the structured logger and its numbered backups |
| `TaskSplit` | splitting a task description among workers |
| `SandboxIds` | time-seeded identifiers with restore |
| `ShellQuoting` | single-quote escaping against a reader of POSIX words |
| `Arithmetic`, `Strings`, `Wrappers` | what the models share |

How the source's form is kept: loops are loops with invariants, objects with mutable fields are classes whose
methods state their whole new state through a function of the old one, `HashMap` iteration picks an arbitrary
remaining key, and a lock-protected protocol is a state machine whose runs are all interleavings. Long loops
of the source are split into methods, one per nesting level.

Findings where the code does less than its comments or callers may expect, each with its exact condition and an
input that shows it:

- `shutdown` of the work queue stores its flag without the mutex, so `notify_all` misses a worker that stands
  between reading the flag and waiting. It misses nobody else, and never more than that one worker
  (`WorkQueues.WhoMissesShutdown`, `WorkQueues.OneWorkerMissesShutdown`).
- A write-ahead log torn inside a multi-byte character cannot be read again until it is cleared, whatever is
  appended; it stays readable exactly as long as every crash falls between characters
  (`WriteAheadLogs.ReadableIff`, `WriteAheadLogs.TornEntryHidesLog`, `WriteAheadLogs.TearInsideAccent`). One torn
  elsewhere joins the next entry appended, which is read back iff the joined line is text that parses as it
  (`WriteAheadLogs.AppendAfterTear`). An entry torn just before its newline is read back at first and then lost with
  the next one (`WriteAheadLogs.UnfinishedEntryVanishes`, `WriteAheadLogs.DigitsRunTogether`), although `append` is
  described as atomic. What a crash leaves readable is `WriteAheadLogs.CrashKeepsAcknowledged`.
- With more workers than sentences, the surplus workers all receive the whole description
  (`TaskSplit.BreakDownTask`, `TaskSplit.OneSentenceTwoWorkers`).
- The request body keeps whatever arrived with it in the last chunk; it is exact when a chunk ends with the
  request (`Framing.BodyIsExactAtChunkBoundary`, `Framing.ExtraJoinsBody`).
- The change tree fails or drops files as soon as one path runs through another
  (`ChangeTrees.KeepsEveryChangeIff`, `ChangeTrees.FileAndDirectoryCollide`).
- A directory row's `count` is the number of passing files below it iff every directory in between that has one is
  expanded; otherwise it is smaller (`ChangeRows.CountIsWholeIff`, `ChangeRows.CollapsedFileIsNotCounted`).
- The comment in `init_counter` puts the time in the high 48 bits; an id shifts the counter a second time, so the
  order of ids holds up to a multiple of 2^48 (`SandboxIds.NextIdIsGreater`, `SandboxIds.IdAfterRestore`,
  `SandboxIds.IdsStartOver`).

## Model

| member | source | states |
|---|---|---|
| TextLines.NormalizeNormalizes | mowis-desktop/src/chat.js:611-616 | a normalised text has no carriage return and no escaped newline that could still be expanded; exactly such texts are left unchanged |
| TextLines.ReplaceEscapesWorks | mowis-desktop/src/chat.js:614 | expanding escaped newlines leaves none, and changes nothing where there was none |
| TextLines.LineEndingsWork | mowis-desktop/src/chat.js:615 | the two line-ending passes leave no carriage return and neither add nor remove escapes |
| TextLines.EachEscapeIsOneNewline | mowis-desktop/src/chat.js:614 | expansion replaces the first escape by one newline and goes on behind it |
| TextLines.EachEndingIsOneNewline | mowis-desktop/src/chat.js:615 | each line ending, of any of the three kinds, becomes one newline and the text between stays |
| TextLines.NormalizeIs | mowis-desktop/src/chat.js:611-616 | escapes are expanded exactly in texts that hold one and no newline, and then one pass over the text turns every line ending into a newline |
| TextLines.TwoPassesAreOne | mowis-desktop/src/chat.js:615 | the two passes do what a single pass over line endings does |
| TextLines.EscapeIsSomewhere | mowis-desktop/src/chat.js:614 | the test for an escape finds one wherever it stands |
| TextLines.JoinInvertsSplit | mowis-desktop/src/chat.js:619-620 | splitting at newlines loses nothing and no line holds one |
| DiffPanel.DiffLines | mowis-desktop/src/chat.js:618-655 | for all texts the returned script replays both files, no script that does is cheaper, it is the greedy one of these, no addition stands right before a deletion, its two sides join to the normalised texts, and the fallback after the loop is never taken |
| DiffPanel.Round | mowis-desktop/src/chat.js:630-653 | a round either stands exactly on the far corner, the furthest point of its diagonal, or leaves the furthest points for the next round with the corner still out of reach |
| DiffPanel.ExploreDiagonal | mowis-desktop/src/chat.js:632-643 | the point found on diagonal k is the furthest that d edits reach there |
| EditGraph.StartIsReached | mowis-desktop/src/chat.js:633-636 | every map entry a round reads is present, so no default is used, and the start of the slide is reached |
| EditGraph.FurthestStep | mowis-desktop/src/chat.js:631-643 | stepping off the better neighbour and sliding gives the furthest point of the next round |
| EditGraph.NothingIsFurther | mowis-desktop/src/chat.js:631-643 | no path with d edits gets further on the diagonal than that slide |
| EditGraph.ReachClamped | mowis-desktop/src/chat.js:639-645 | steps beyond the far edges are wasted: the projection onto the grid is reached with correspondingly fewer |
| EditGraph.ArrivesExactly | mowis-desktop/src/chat.js:645-648 | the first point past both far edges is the corner itself |
| EditGraph.ArrivesInTime | mowis-desktop/src/chat.js:623-629 | the corner is reached within N+M edits |
| EditGraph.ScriptIsPath | mowis-desktop/src/chat.js:618-655 | every script that replays is a path through the graph whose edits are its cost |
| EditGraph.StepIsBest | mowis-desktop/src/chat.js:632-637 | the step a round takes leaves the furthest point on its side and gets at least as far as the other side's would, with the addition winning a tie |
| EditGraph.DeletionsGoFirst | mowis-desktop/src/chat.js:657-693 | in a script of such steps no addition is directly followed by a deletion |
| EditGraph.GreedyScriptIsUnique | mowis-desktop/src/chat.js:657-693 | only one script of such steps and a given cost leads from one file to the other, so of all shortest scripts it is known which is returned |
| DiffPanel.CornerNotYetReached | mowis-desktop/src/chat.js:645-652 | a round that does not arrive shows that its number of edits is too few |
| DiffPanel.NoScriptIsShorter | mowis-desktop/src/chat.js:629-653 | the arriving round's number is the least cost of any script |
| DiffPanel.Backtrack | mowis-desktop/src/chat.js:657-693 | the walk back yields a script that replays both files, costs exactly the number of the arriving round, and takes the best edit at every point |
| DiffPanel.WalkRound | mowis-desktop/src/chat.js:662-689 | one turn of the walk goes from the furthest point of round d to the furthest point of round d-1, inside both files, and round 0 ends at the origin |
| DiffPanel.WalkSnake | mowis-desktop/src/chat.js:674-678 | the inner loop walks back over equal lines exactly to where the slide began |
| DiffPanel.WalkEdit | mowis-desktop/src/chat.js:682-688 | one added or deleted line joins the two remaining suffixes |
| DiffPanel.StepBack | mowis-desktop/src/chat.js:663-672 | the recorded round still holds the entries the search read, and leads back to a furthest point of the round before, by the best edit |
| EditScript.ShortestScriptKeepsLcs | mowis-desktop/src/chat.js:618-655 | a shortest script keeps a longest common subsequence and costs N+M-2·LCS |
| EditScript.ScriptKeeping | mowis-desktop/src/chat.js:618-655 | every common subsequence is what some replaying script keeps |
| EditScript.KeptIsCommon | mowis-desktop/src/chat.js:618-655 | the context lines of a script are a common subsequence of both sides |
| ChangeTrees.BuildChangeTree | mowis-desktop/src/chat.js:710-731 | the loop over the changes builds the tree defined change by change |
| ChangeTrees.PartsInvertJoin | mowis-desktop/src/chat.js:713 | a path of proper parts splits into exactly those parts |
| ChangeTrees.SlashSeparates | mowis-desktop/src/chat.js:713 | a slash separates what is before and behind it, wherever it stands and however many there are |
| ChangeTrees.BuiltIsWellNamed | mowis-desktop/src/chat.js:716-727 | in every tree that is built each node's path is its directory's path followed by its name |
| ChangeTrees.InsertAddsOne | mowis-desktop/src/chat.js:716-728 | where nothing is in the way, inserting a path succeeds and adds exactly its one file |
| ChangeTrees.InsertKeepsRoom | mowis-desktop/src/chat.js:716-728 | inserting one path leaves room for every path apart from it |
| ChangeTrees.TreeHoldsEveryChange | mowis-desktop/src/chat.js:710-731 | for separate paths the tree's files are the changes, each as often as listed |
| ChangeTrees.InsertSize | mowis-desktop/src/chat.js:716-728 | a successful insertion leaves a file at its path, no empty directory, and one file more exactly if nothing was in the way |
| ChangeTrees.KeepsEveryChangeIff | mowis-desktop/src/chat.js:710-731 | every change is kept exactly when all paths are non-empty and none runs through another |
| ChangeTrees.InsertFileAt | mowis-desktop/src/chat.js:716-728 | an insertion puts the change at its path, removes what that runs through or what runs through it, and changes no other path |
| ChangeTrees.InsertFailsIff | mowis-desktop/src/chat.js:716-728 | an insertion fails exactly if its path runs through a file |
| ChangeTrees.BuiltHoldsSurvivors | mowis-desktop/src/chat.js:710-731 | at every path the tree holds the last change made there that no later one has displaced, and nothing else |
| ChangeTrees.BuiltFailsIff | mowis-desktop/src/chat.js:710-731 | building fails exactly if a change finds on its way the file of an earlier one that is still there |
| ChangeTrees.BuiltIsPlaced | mowis-desktop/src/chat.js:716-727 | in every tree that is built each file stands under the directories and the name its change's path spells, and no two nodes share a path |
| ChangeTrees.FileAndDirectoryCollide | mowis-desktop/src/chat.js:710-731 | a file and a path through it: in one order building fails, in the other it drops a change |
| ChangeRows.TreeToRows | mowis-desktop/src/chat.js:733-759 | the recursion pushes, behind what is there, the rows of the children in sorted order |
| ChangeRows.SortedDirsFirst | mowis-desktop/src/chat.js:736-739 | directories come first and each kind is in name order |
| ChangeRows.SortedKeeps | mowis-desktop/src/chat.js:735-739 | sorting keeps exactly the children |
| ChangeRows.CollapsingIsProjection | mowis-desktop/src/chat.js:741-758 | for every set of expanded directories the rows are those rows of the panel with nothing hidden whose ancestors are all open, in order |
| ChangeRows.RowsAreVisible | mowis-desktop/src/chat.js:741-758 | the same at any depth, and there are rows for one set of expanded directories iff there are for all |
| ChangeRows.OutlineIsFullRowsIff | mowis-desktop/src/chat.js:741-758 | the panel shows every row there is exactly when every directory with a passing file is expanded |
| ChangeRows.CountSkipsCollapsed | mowis-desktop/src/chat.js:756 | a directory's count is the number of passing files below it that no collapsed directory hides |
| ChangeRows.CountIsWholeIff | mowis-desktop/src/chat.js:751-758 | the count is the number of passing files below iff every directory in between that has one is expanded, and smaller otherwise |
| ChangeRows.CollapsedFileIsNotCounted | mowis-desktop/src/chat.js:751-758 | an open directory over a collapsed one with its only file counts none |
| ChangeRows.FlagsAreRight | mowis-desktop/src/chat.js:751-756 | every directory row is marked open exactly when it is expanded |
| ChangeRows.RowsExistIffSomePasses | mowis-desktop/src/chat.js:742-757 | a directory has a row exactly when some file below it passes the filters |
| ChangeRows.FileRowIff | mowis-desktop/src/chat.js:742-748 | a file has its row exactly if its action is selected and the search text, if any, occurs somewhere in its lower-cased path |
| ChangeRows.IncludesIff | mowis-desktop/src/chat.js:745 | a text includes another iff that stands somewhere in it |
| ChangeRows.RowIsOfShown | mowis-desktop/src/chat.js:733-759 | every row is that of a wanted file, or of a directory with one below, all of whose directories are expanded, with its name and path and as deep as it has directories above it |
| ChangeRows.ShownHasRow | mowis-desktop/src/chat.js:733-759 | every such file and directory has its row |
| ChangeRows.EveryChangeIsShown | mowis-desktop/src/chat.js:710-759 | with all open and nothing filtered, separate changes each get their row exactly once |
| DependencyGraphs.DependencyGraphBuilder.AddTask | agentd/src/dependency_graph.rs:34-43 | the task replaces any of the same name and no other changes |
| DependencyGraphs.DependencyGraphBuilder.Build | agentd/src/dependency_graph.rs:46-60 | succeeds iff every dependency exists and there is no cycle, with a plan; a cycle is reported before a missing dependency, and each error names real tasks |
| DependencyGraphs.DependencyGraphBuilder.CheckCycles | agentd/src/dependency_graph.rs:63-74 | errs iff a cycle exists, for any visiting order, with or without missing dependencies |
| DependencyGraphs.DependencyGraphBuilder.DfsCycleCheck | agentd/src/dependency_graph.rs:77-101 | returns with the recursion stack restored and the finished names closed and on no cycle, or with a dependency that closes one |
| DependencyGraphs.SettleOne | agentd/src/dependency_graph.rs:86-100 | a name whose dependencies are finished can be finished: it is on no cycle |
| DependencyGraphs.PathReportsCycle | agentd/src/dependency_graph.rs:90-95 | a dependency found on the recursion stack closes a cycle |
| DependencyGraphs.ReportedCycleExists | agentd/src/dependency_graph.rs:91-94 | the dependency an error names lies on a cycle |
| DependencyGraphs.DependencyGraphBuilder.ValidateDependencies | agentd/src/dependency_graph.rs:104-116 | succeeds iff every dependency names a task, and otherwise names one that does not |
| DependencyGraphs.DependencyGraphBuilder.ComputeExecutionStages | agentd/src/dependency_graph.rs:119-177 | on a closed graph succeeds iff there is no cycle, with a plan; no lookup fails and no in-degree underflows |
| DependencyGraphs.DependencyGraphBuilder.CountDependencies | agentd/src/dependency_graph.rs:120-138 | in-degrees and reverse edges count every mention of a dependency, repeated ones included |
| DependencyGraphs.DependencyGraphBuilder.CountOne | agentd/src/dependency_graph.rs:131-137 | one task's dependencies, each mention counted once |
| DependencyGraphs.DependencyGraphBuilder.InitiallyFree | agentd/src/dependency_graph.rs:141-145 | the first queue holds exactly the tasks without dependencies, each once |
| DependencyGraphs.DependencyGraphBuilder.RunStage | agentd/src/dependency_graph.rs:149-166 | a stage is the whole queue, and the next queue holds exactly the tasks whose last dependency it contained |
| DependencyGraphs.DependencyGraphBuilder.Release | agentd/src/dependency_graph.rs:157-163 | each mention of the task is taken off its dependents, which are queued once, on reaching zero |
| DependencyGraphs.StageAdvances | agentd/src/dependency_graph.rs:149-168 | emitting the queue as a stage keeps every task as early as its dependencies allow |
| DependencyGraphs.FrontierAdvances | agentd/src/dependency_graph.rs:149-168 | what the stage freed is exactly the next frontier |
| DependencyGraphs.StuckIsCyclic | agentd/src/dependency_graph.rs:171-175 | when the queue runs dry early there is a cycle |
| TaskGraph.WaitingTasksHaveCycle | agentd/src/dependency_graph.rs:171-175 | tasks that all wait for one another contain a cycle |
| TaskGraph.StageIsLongestChain | agentd/src/dependency_graph.rs:147-169 | a task's stage index is the length of its longest dependency chain |
| TaskGraph.PlanIsSchedule | agentd/src/dependency_graph.rs:147-169 | a plan holds every task in exactly one stage, after all its dependencies |
| TaskGraph.PlanIsAcyclic | agentd/src/dependency_graph.rs:171-175 | a graph that is staged in full has no cycle |
| TaskGraph.PlanHasFewestStages | agentd/src/dependency_graph.rs:147-169 | no schedule that respects the dependencies has fewer stages |
| TaskGraph.PlansAgree | agentd/src/dependency_graph.rs:119-177 | any two plans of a graph have the same stages as sets, so map iteration order does not matter |
| SandboxAllocation.EstimateSandboxCount | agentd/src/dependency_graph.rs:185-194 | the least number that is one per team, at least one, and one per hundred units of complexity up to ten |
| SandboxAllocation.AllocateSandboxesByTeam | agentd/src/dependency_graph.rs:197-215 | every team gets at least one and its share within one of proportional; the total is within one per team of the request |
| SandboxAllocation.CountTasks | agentd/src/dependency_graph.rs:201-204 | the team counts are right and account for every task |
| SandboxAllocation.SharesAddUp | agentd/src/dependency_graph.rs:206-214 | the sum of the shares lies between total-teams+1 and total+teams-1 |
| WorkQueues.StepKeepsInvariant | agentd/src/socket_server.rs:1990-2039 | every atomic step keeps the order, lock, wake-up, exit and shutdown invariants together |
| WorkQueues.FirstInFirstOut | agentd/src/socket_server.rs:1990-2007 | in every interleaving the jobs taken followed by those queued are the jobs pushed |
| WorkQueues.QueuedJobsAreServed | agentd/src/socket_server.rs:1990-2007 | while jobs are queued some worker can take one unless all are busy or gone, and while anyone sleeps there is an awake worker for every queued job |
| WorkQueues.AwakeWorkerMoves | agentd/src/socket_server.rs:1996-2007 | at the free mutex a worker can take iff a job is queued, leave iff none is and the flag is set, and go to wait otherwise |
| WorkQueues.MutexIsReleased | agentd/src/socket_server.rs:1990-2012 | in every run the holder of the mutex can let go of it, a push is possible when it is free, and shutdown at any time |
| WorkQueues.FinishedWorkerTakesNext | agentd/src/socket_server.rs:2024-2034 | a worker that has finished its job can take the front job of the queue next |
| WorkQueues.EveryJobCanBeServed | agentd/src/socket_server.rs:1990-2039 | from every moment of every run, as long as one worker is left, takes and finishes alone can serve all that was pushed |
| WorkQueues.ExitMeansDrained | agentd/src/socket_server.rs:2067-2087 | when all pushes precede shutdown a worker leaves only after every job has been taken |
| WorkQueues.WhoMissesShutdown | agentd/src/socket_server.rs:2000-2012 | after `notify_all` a worker can fall asleep iff one stood between reading the flag and waiting, and at most one ever does |
| WorkQueues.OneWorkerMissesShutdown | agentd/src/socket_server.rs:1996-2012 | a run of one worker in which everyone has been notified and the worker then sleeps |
| WorkQueues.NobodyStartsWaiting | agentd/src/socket_server.rs:1996-2012 | once the flag is set and nobody waits, no step makes anyone wait |
| WorkQueues.StepOnShared | agentd/src/socket_server.rs:1990-2012 | on what the queue object holds, every step of the state machine is the object's own step, and wakes a waiter iff there is one |
| WorkQueues.WorkQueue.Push | agentd/src/socket_server.rs:1990-1994 | the job joins the back of the queue and some waiter, if there is one, is woken: the state machine's push |
| WorkQueues.WorkQueue.TryPop | agentd/src/socket_server.rs:1999-2004 | the front job comes first, the flag is read only when the queue is empty, and the object changes as in the state machine's step |
| WorkQueues.WorkQueue.Wait | agentd/src/socket_server.rs:2005 | the worker joins the waiters |
| WorkQueues.WorkQueue.Shutdown | agentd/src/socket_server.rs:2009-2012 | the flag is set and then all waiters are woken, the state machine's two steps, and the queue stays |
| TaskStreams.SseStream.Poll | agentd/src/api_server.rs:312-372 | a poll sends the new log lines, a changed status, a pending prompt and the ending, cut where the peer stops accepting |
| TaskStreams.SseStream.SendLog | agentd/src/api_server.rs:317-326 | the loop sends each new line once, in order, and stops for good on a failed write |
| TaskStreams.SseStream.SendTrailer | agentd/src/api_server.rs:329-366 | status, prompt and ending in that order |
| TaskStreams.SseStream.SendStatus | agentd/src/api_server.rs:329-338 | a status is sent when it differs from the last one sent |
| TaskStreams.SseStream.SendPrompt | agentd/src/api_server.rs:340-348 | a pending prompt is sent on every poll |
| TaskStreams.SseStream.SendEnd | agentd/src/api_server.rs:351-366 | a terminal status sends the diff, if any, and `done`, and closes the stream |
| TaskStreams.PollInTwoParts | agentd/src/api_server.rs:312-372 | the poll as a whole is its log part followed, unless cut short, by the rest |
| TaskRuns.StepKeepsLog | agentd/src/api_server.rs:389-489 | every writer's step keeps the log a start line, a merge of what both threads read, and at the end a last line |
| TaskRuns.PollKeepsReader | agentd/src/api_server.rs:302-379 | a poll keeps a stream's sent lines equal to the log's first lines, and ends it only with everything sent |
| TaskRuns.StreamsFollowTheLog | agentd/src/api_server.rs:302-489 | in every interleaving each stream has sent the first lines of the log, each once and in order |
| TaskRuns.DoneMeansComplete | agentd/src/api_server.rs:302-489 | a stream that sent `done` has sent the complete final log, the terminal status as its last status, and any diff just before |
| TaskRuns.RunEndsAsChildDid | agentd/src/api_server.rs:416-489 | in every run the task is over iff the child was waited for or did not start; status, last line and diff are then those of its outcome, its output is the child's, and the prompt is the last one set |
| TaskRuns.EveryMergeHappens | agentd/src/api_server.rs:401-489 | whatever the child writes and however it ends, every merge of its two outputs is the log of some run |
| TaskRuns.TaskCanGoOn | agentd/src/api_server.rs:389-489 | until it is over a task can always take its next step, and ends exactly when both outputs are read |
| TaskRuns.OnlyOwnPollsMove | agentd/src/api_server.rs:302-379 | a stream changes by its own polls alone |
| TaskRuns.PollOutcome | agentd/src/api_server.rs:312-372 | a poll whose peer takes everything has sent the whole log, the status, and the prompt iff one is pending, and closes iff the task is over; any other poll closes |
| TaskRuns.PollAfterTheEndFinishes | agentd/src/api_server.rs:351-366 | once the task is over, a poll whose peer takes everything ends with `done` |
| Framing.FindHeaderEnd | agentd/src/api_server.rs:563-570 | the least index of a blank line, or none if there is none |
| Framing.HeaderEndIsStable | agentd/src/api_server.rs:563-570 | later bytes never move the index, and it is not found before its last byte is there |
| Framing.ContentLengthIsNamed | agentd/src/api_server.rs:575 | the lines found are exactly those that start with the name and colon, each letter in either case |
| Framing.FieldValueIff | agentd/src/api_server.rs:576-578 | a line yields a length other than 0 iff that length, if it fits, is written in it, perhaps with a plus sign, any Unicode white space around it, and anything behind a further colon |
| Framing.WhiteSpaceIs | agentd/src/api_server.rs:577 | what is trimmed is exactly the code points with Unicode's White_Space property |
| Framing.ParseContentLength | agentd/src/api_server.rs:573-582 | the loop returns the value of the first Content-Length line, or 0 |
| Framing.ContentLengthRoundTrip | agentd/src/api_server.rs:575-578 | a length written in digits, with any Unicode white space around it and any capitalisation of the name, is read back, whatever follows a second colon |
| Framing.ReadRequest | agentd/src/api_server.rs:83-108 | the loop stops after the first chunk that completes the request, or when the input ends |
| Framing.CompleteWhenAllArrived | agentd/src/api_server.rs:93-102 | a part of the input counts as complete exactly when the whole request is in it |
| Framing.FirstLengthDecides | agentd/src/api_server.rs:573-582 | whatever lines stand around it, the first Content-Length line's number is the length, and without one it is 0 |
| Framing.BlockIsRequest | agentd/src/api_server.rs:563-582 | a block of header lines sent with line breaks between them ends at its blank line and is read line by line |
| Framing.RequestIsRead | agentd/src/api_server.rs:88-130 | however a request whose length reads as that of its body is cut, the loop stops when all of it has arrived and extracts exactly its body |
| Framing.ChunkingDoesNotMatter | agentd/src/api_server.rs:83-130 | the same for every request whose first Content-Length line, among any header lines, states the size of its body, or that has neither such a line nor a body |
| Framing.BodyIsExactAtChunkBoundary | agentd/src/api_server.rs:121-130 | with further bytes behind it the body is exact iff some chunk ends with the request, and never short |
| Framing.ExtraJoinsBody | agentd/src/api_server.rs:83-130 | a request of one byte and others behind it in one chunk: all of them are the body |
| RecoveryJournals.RecoveryJournal.AtomicWrite | agentd/src/persistence.rs:43-52 | wherever it crashes, the file holds its old content or all of the new |
| RecoveryJournals.RecoveryJournal.Perform | agentd/src/persistence.rs:293-362 | a call leaves the journal before the change or after it, and reports success only if it could read the journal |
| RecoveryJournals.RecoveryJournal.Run | agentd/src/persistence.rs:286-363 | after any calls, crashed or not, the journal is as if only the committed ones had been made |
| RecoveryJournals.RecoveryJournal.GetPendingOperations | agentd/src/persistence.rs:342-349 | the pending list, empty where the document has none, an error where there is no document |
| RecoveryJournals.PendingIsAddedSinceClear | agentd/src/persistence.rs:293-362 | from initialisation on, the document is exactly the last checkpoint marked, the operations added since the last clear in order, and the version |
| RecoveryJournals.AnyDocumentAfter | agentd/src/persistence.rs:308-362 | from any document at all, the calls touch nothing but the last mark and the list, and what they make of these |
| RecoveryJournals.AddTakesEffect | agentd/src/persistence.rs:324-340 | an operation added at any time shows in the list iff the journal began as an object with a list, or as an object and was cleared since |
| WriteAheadLogs.WriteAheadLog.Append | agentd/src/persistence.rs:245-257 | the printed line, or the part written before a crash, is appended to what was there |
| WriteAheadLogs.WriteAheadLog.ReadAll | agentd/src/persistence.rs:259-273 | the non-empty lines that parse, in order; an error on bytes that are not UTF-8 |
| WriteAheadLogs.WriteAheadLog.Clear | agentd/src/persistence.rs:275-278 | the log is empty |
| WriteAheadLogs.WriteAheadLog.AppendAll | agentd/src/persistence.rs:245-257 | any history of completed and torn appends leaves the bytes of the layout defined write by write |
| WriteAheadLogs.WriteAheadLog.AppendAllThenCrash | agentd/src/persistence.rs:245-257 | completed appends followed by a torn one add exactly their bytes to any log |
| WriteAheadLogs.WriteExtends | agentd/src/persistence.rs:245-257 | the layout after a write has the bytes the write adds, whether it completes a line or lengthens one |
| WriteAheadLogs.ReadAfterWrites | agentd/src/persistence.rs:245-273 | after any history, reading gives what the complete lines and the unfinished one parse as, or an error if any is no text |
| WriteAheadLogs.UntornHistoryReadsBack | agentd/src/persistence.rs:245-273 | a history whose crashes tear no line reads back as exactly the entries it completed, in order |
| WriteAheadLogs.ReadEncoded | agentd/src/persistence.rs:259-273 | complete entries read back as themselves whatever follows |
| WriteAheadLogs.EmptyLinesAreSkipped | agentd/src/persistence.rs:265-266 | empty lines are skipped whatever the parser says of nothing |
| WriteAheadLogs.CrashKeepsAcknowledged | agentd/src/persistence.rs:245-273 | after a crash all acknowledged entries and at most the one in flight are read, exactly when the torn bytes are whole characters that parse as nothing or as that entry |
| WriteAheadLogs.TornCharacterHidesLog | agentd/src/persistence.rs:245-273 | after a tear inside a character reading fails, whatever is appended later |
| WriteAheadLogs.TornEntryHidesLog | agentd/src/persistence.rs:245-273 | an append cut off where its bytes are no text makes the log unreadable for every later history |
| WriteAheadLogs.ReadableIff | agentd/src/persistence.rs:245-273 | over any history, a log that is text can be read exactly as long as every crash fell between characters |
| WriteAheadLogs.TearInsideAccent | agentd/src/persistence.rs:245-273 | a string with an accented letter torn between the letter's bytes: the log reads before, and no more after |
| WriteAheadLogs.AppendAfterTear | agentd/src/persistence.rs:245-273 | an append behind any unfinished line is read back iff the joined line is text and there was nothing to join or it parses as the new entry; nothing is read if it is no text |
| WriteAheadLogs.UnfinishedEntryVanishes | agentd/src/persistence.rs:245-273 | an entry torn just before its newline is read, and the next append replaces both by what they parse as together |
| WriteAheadLogs.DigitsRunTogether | agentd/src/persistence.rs:245-273 | 1 torn before its newline and then 2 read as 12 |
| Bytes.Utf8Concat | agentd/src/persistence.rs:263 | after valid text only what follows decides validity |
| Bytes.CharIsEncoding | agentd/src/persistence.rs:263 | what is accepted as a character is the UTF-8 encoding of a Unicode scalar value |
| Bytes.EncodingIsChar | agentd/src/persistence.rs:263 | the encoding of every scalar value is accepted, and decodes to it |
| Bytes.PartOfEncoding | agentd/src/persistence.rs:263 | no proper part of an encoding is text |
| Bytes.CutInsideCharacter | agentd/src/persistence.rs:263 | text cut off where it is no text is whole characters and a proper part of one |
| Bytes.LineDecidesUtf8 | agentd/src/persistence.rs:263-264 | bytes are text iff the line before a line feed and what follows it both are |
| Bytes.FirstCrLfLine | agentd/src/api_server.rs:574 | a line ending in carriage return and line feed is read without either |
| LogRotation.StructuredLogger.WriteEntry | agentd/src/logging.rs:40-61 | the line is appended, and a full file is closed and shifted, leaving the current file below the limit |
| LogRotation.StructuredLogger.Rotate | agentd/src/logging.rs:63-83 | each backup moves up by one whatever is missing, and only a full set loses its oldest |
| LogRotation.ShiftedSegments | agentd/src/logging.rs:63-83 | oldest to newest, a rotation appends the closed file and drops at most the oldest |
| LogRotation.KeepsNewestFiles | agentd/src/logging.rs:40-83 | over every run and from any backups, what is kept is a run of the newest files, whole |
| LogRotation.ClosingLosesNothing | agentd/src/logging.rs:40-83 | the closed files and the current one hold every byte written |
| LogRotation.StaysContiguous | agentd/src/logging.rs:63-83 | from n backups without a gap, r rotations leave min(n+r, 5), still without a gap |
| LogRotation.KeepsNewestBytes | agentd/src/logging.rs:40-83 | from any log, backups plus current file are a suffix of what there was and everything written since |
| LogRotation.FreshLogKeepsLastFive | agentd/src/logging.rs:40-83 | from an empty log exactly the last min(r, 5) files are kept, and backups plus current file are a suffix of everything written |
| TaskSplit.JoinInvertsSplit | agentd/src/hub_agent.rs:472 | splitting at sentence ends and joining gives the description back |
| TaskSplit.SentencesAreWhole | agentd/src/hub_agent.rs:472 | no sentence holds a separator: the description is cut at every one |
| TaskSplit.SplitTaskDescription | agentd/src/hub_agent.rs:466-495 | the pieces rejoin to the description, there are min(n, sentences) of them, all but the last hold the same number of sentences, the most that all n could have, and the fallback is never taken |
| TaskSplit.TakePieces | agentd/src/hub_agent.rs:476-488 | the loop groups all the parts in order, with every slice in range |
| TaskSplit.JoinOfPieces | agentd/src/hub_agent.rs:485 | joining the pieces is joining all the parts |
| TaskSplit.Boundaries | agentd/src/hub_agent.rs:477-484 | every slice is in range and a round is skipped only when all parts are taken |
| TaskSplit.BreakDownTask | agentd/src/hub_agent.rs:110-153 | one description per worker; the first ones are the even pieces and rejoin to the task, and all of them do iff there are no more workers than sentences |
| TaskSplit.OneSentenceTwoWorkers | agentd/src/hub_agent.rs:110-153 | one sentence and two workers: both get all of it |
| SandboxIds.SandboxCounter.NewId | agentd/src/sandbox.rs:157-161 | the id is made from the counter, which advances by one |
| SandboxIds.SandboxCounter.Restore | agentd/src/sandbox.rs:255-270 | the counter moves past the restored id and never back |
| SandboxIds.CounterPasses | agentd/src/sandbox.rs:157-270 | after an id is issued or restored the counter stays above it |
| SandboxIds.IdsIncrease | agentd/src/sandbox.rs:157-270 | while the counter is in range every id issued is above all issued or restored before, whatever the random bits |
| SandboxIds.NextIdIsGreater | agentd/src/sandbox.rs:159-161 | consecutive ids increase iff the counter does not step onto a multiple of 2^48 |
| SandboxIds.IdsStartOver | agentd/src/sandbox.rs:157-161 | the id from counter 2^48 is below the one before it |
| SandboxIds.IdAfterRestore | agentd/src/sandbox.rs:157-270 | the id issued right after a restore is above the restored one iff, with the counter in range, the restored one is not the last of the range; the condition out of range is given too |
| SandboxIds.IdEncodesCounter | agentd/src/sandbox.rs:159-161 | an id holds its counter value, modulo 2^48, above its random bits |
| SandboxIds.SeedIsInRange | agentd/src/sandbox.rs:44-51 | the seed starts in range iff the clock's low 48 bits are below 2^32 seconds |
| SandboxIds.SeedKeepsRange | agentd/src/sandbox.rs:44-270 | a clock below 2^32 seconds keeps the counter in range for as many ids as fit between the seed or the highest restored id and the end of the range |
| ShellQuoting.QuotedIsOneWord | agentd/src/vm_backend.rs:377-437 | an escaped string between quotes, alone or behind literal text inside them, is read as one word with that value, ending where the quote does |
| ShellQuoting.EscapedReadsBack | agentd/src/vm_backend.rs:433-437 | inside quotes the escaped text reads back as the string and closes the quote |
| ShellQuoting.QuotingIsInjective | agentd/src/vm_backend.rs:433-437 | distinct strings have distinct quoted forms |
| ShellQuoting.EscapeNeeded | agentd/src/vm_backend.rs:433-437 | without escaping, a string between quotes reads back iff it holds no quote |
| ShellQuoting.EscapeChangesQuotes | agentd/src/vm_backend.rs:433-437 | escaping changes exactly the strings that hold a quote |

## Left out

- Provider clients, command line, terminal UI, setup, virtual machines, mounts and DOM rendering: input and output.
- Text in the diff panel is a sequence of characters; JavaScript's UTF-16 code units are not modelled. Lower-casing and name order in the change tree are parameters.
- ChangeTrees.BuildChangeTree: the nested maps are values rather than objects updated in place; aliasing between them is not modelled.
- DependencyGraphs.DependencyGraphBuilder.DfsCycleCheck: the two sets passed by mutable reference are passed in and returned as values.
- SandboxAllocation.AllocateSandboxesByTeam: numbers are unbounded, so the product of sandboxes and tasks does not overflow.
- WorkQueues.WhoMissesShutdown: no claim is made that all workers exit after shutdown, since the stranded worker may stay; a job that panics is not modelled. Reads of the flag are sequentially consistent, although the source uses `Ordering::Relaxed`: a worker that reads a stale flag is not modelled.
- WorkQueues.WorkQueue: the two lanes are two independent queues; classifying a request into a lane is one branch.
- The message texts of failed tasks, and which error ended a child process, are parameters of the steps in `TaskRuns`.
- TaskStreams.SseStream.Poll: a peer that goes away is a number of writes it still accepts; what arrives on its side after a failed write is not modelled.
- JSON printing and parsing are parameters: that they round-trip, and that a printed value is one line of text, is required where it is used.
- RecoveryJournals.RecoveryJournal.AtomicWrite: a rename is atomic and a synced file survives; failing disks and directory syncing are not modelled.
- LogRotation.StructuredLogger.Rotate: failed writes and a failure to open the fresh file are not modelled; the current file is not deleted behind the logger's back.
- SandboxIds: container ids use a counter of their own in the same scheme, without restore; the directories and mounts of a sandbox are not modelled.
- ShellQuoting.QuotedIsOneWord: the commands around the quoted arguments, the field splitting of unquoted command substitutions, and base64 are not modelled.
- `create_completion_report`, intent scoring, security policy, configuration, channels and memory maps: single branches or foreign calls.
