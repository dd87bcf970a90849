# Verified model of the CodeZym exercise solutions

This project models, in Dafny, the core of a collection of single-class
Java exercise solutions. Each class becomes one module:

- In-memory state machines: the job scheduler (`JobScheduler`), the
  container orchestrator (`ContainerManager`), the rule-based file finder
  (`FileFinder`), the file system with wildcards (`FileSystem`), the text
  editors (`Notepad`, `TextEditor`, `Cursor`), the lifts (`LiftPlanner`,
  `LiftSimulation`), the locker, room, meeting and recurring-meeting
  bookers (`LockerManager`, `RoomBooking`, `MeetingScheduler`,
  `RecurringScheduler`), the train platforms (`TrainPlatform`), the
  leaderboard, rate limiter, router, cache, connection pool and hash map
  (`Leaderboard`, `RateLimiter`, `Router`, `CustomCache`, `ConnectionPool`,
  `HashMap`), the file collections, shopping cart, wallet, expense book,
  stock trading and car rental (`FileCollections`, `ShoppingCart`,
  `Wallet`, `SplitBook`, `Trading`, `CarRental`), the spreadsheet
  (`Spreadsheet`), the dictionary (`DictionaryApp`) and the
  publish/subscribe queue (`PubSub`).
- Algorithms over integers and strings: replacing transaction values
  (`TransactionValues`), processing transaction logs (`TransactionLogs`),
  fair prize distribution (`FairPrize`), maximum storage efficiency
  (`StorageEfficiency`), the max/min median of subsequences
  (`MedianSubsequences`), warehouse dispatch credits (`DispatchCredits`),
  sorting by proper substrings (`ProperSubstrings`) and the longest
  arithmetic subarray after one change (`ArithmeticSubarray`).

A class's state is an immutable datatype and its public methods are pure
functions from the old state (and the call's arguments) to the new state
and the result; algorithms with loops are methods with loop invariants.
Exceptions become the `Err` case of a `Result`; a method that returns a
sentinel (`""`, `false`, `-1`, an empty list) returns the same sentinel here.

Shared modules:

- `Common`: `Option` and `Result`.
- `Strings`: the `java.lang.String` operations the exercises rely on —
  `trim`, `isBlank`, ASCII `toLowerCase`, `replaceAll("\\s+", " ")`,
  `split` on one character, `Integer.parseInt`, and `compareTo`.
- `Ordering`: distinct sequences, sums, the "smallest key, ties by
  name" selection that every placement scan performs, and the sorted views
  of `Arrays.sort`, `Collections.sort` and `TreeSet`.
- `JavaMath`: Java's integer division and remainder, which round toward
  zero.

## Model

| member | source | states |
|---|---|---|
| JobScheduler.NormalizeToken | q22_job_scheduler/solution-1-java/JobScheduler.java:243-248 | a normalized token is empty exactly when the raw token is blank; otherwise it is trimmed, has no upper-case letter and no whitespace run longer than one space, and it holds the same words, in the same order, as the trimmed, lower-cased input |
| JobScheduler.NormalizeJoinsWords | q22_job_scheduler/solution-1-java/JobScheduler.java:243-248 | the normalized token is exactly the words of the trimmed, lower-cased input joined by single spaces |
| Strings.WordsCollapse | q22_job_scheduler/solution-1-java/JobScheduler.java:246 | replacing every whitespace run by one space keeps the words and their order |
| Strings.CollapsedIsJoinedWords | q22_job_scheduler/solution-1-java/JobScheduler.java:246 | a string whose whitespace runs are single spaces, and which neither starts nor ends with whitespace, is its words joined by single spaces |
| JobScheduler.NormalizeIdempotent | q22_job_scheduler/solution-1-java/JobScheduler.java:243-248 | normalizing an already normalized token changes nothing |
| JobScheduler.NormalizeCaps | q22_job_scheduler/solution-1-java/JobScheduler.java:231-240 | the set holds only tokens, holds the normalized form of every non-blank input, and nothing that is not the normal form of some input |
| JobScheduler.AddMachine | q22_job_scheduler/solution-1-java/JobScheduler.java:45-61 | a blank id and an id already registered are rejected; otherwise the trimmed id is registered with its normalized capabilities and zero counters, and the jobs are untouched |
| JobScheduler.AddMachinePreservesValid | q22_job_scheduler/solution-1-java/JobScheduler.java:53-60 | after a registration the inverted index still holds exactly the (capability, machine) pairs and the counters still count each machine's jobs |
| JobScheduler.Candidates | q22_job_scheduler/solution-1-java/JobScheduler.java:79-103 | intersecting the index sets yields exactly the machines that offer every required capability (all machines when none is required) |
| JobScheduler.Select | q22_job_scheduler/solution-1-java/JobScheduler.java:155-181 | the chosen candidate ranks no worse than any other: fewer unfinished jobs (criteria 0) or more finished jobs (criteria 1), ties to the smaller id |
| JobScheduler.PlaceNew | q22_job_scheduler/solution-1-java/JobScheduler.java:79-124 | "" exactly when no machine offers every required capability, and then nothing is recorded; otherwise the chosen machine offers them all, ranks first, and only its unfinished counter grows, by one, while the job is recorded as assigned to it |
| JobScheduler.Assign | q22_job_scheduler/solution-1-java/JobScheduler.java:68-77 | a blank job id is rejected; a known job id returns its stored machine and changes nothing; a new job id is placed |
| JobScheduler.AssignPreservesValid | q22_job_scheduler/solution-1-java/JobScheduler.java:119-122 | recording a job keeps every machine's counters equal to the number of its assigned and completed jobs |
| JobScheduler.Complete | q22_job_scheduler/solution-1-java/JobScheduler.java:131-151 | blank and unknown ids are rejected, a completed job is a no-op, a missing machine is an error, and otherwise the job becomes completed while only its machine's counters move |
| JobScheduler.CompleteSucceedsOnKnownJobs | q22_job_scheduler/solution-1-java/JobScheduler.java:135-145 | on a valid scheduler completion succeeds exactly for the known job ids: the missing-machine error cannot happen |
| JobScheduler.CompleteMovesOneJob | q22_job_scheduler/solution-1-java/JobScheduler.java:147-149 | completing an assigned job lowers its machine's unfinished counter by exactly one (the floor at zero never applies) and raises the finished counter by one |
| JobScheduler.CompletePreservesValid | q22_job_scheduler/solution-1-java/JobScheduler.java:131-151 | completion keeps the index and the counters consistent |
| JobScheduler.AssignIdempotent | q22_job_scheduler/solution-1-java/JobScheduler.java:72-76 | assigning a placed job again, whatever the capabilities and criteria, returns the same machine and changes nothing |
| JobScheduler.RetryAfterUnplaceable | q22_job_scheduler/solution-1-java/JobScheduler.java:63-66 | a job that got "" was not recorded: once a machine offering its capabilities is added, the same job id is placed |
| JobScheduler.AssignedJobKeepsCounterPositive | q22_job_scheduler/solution-1-java/JobScheduler.java:148 | while a job is assigned its machine's unfinished counter is positive |
| ContainerManager.Allocate | q28-container-orchestrator/solution-1-java/ContainerManager.java:50-54 | allocation lowers the free CPU and memory by exactly the request and stays within capacity |
| ContainerManager.Release | q28-container-orchestrator/solution-1-java/ContainerManager.java:56-62 | release lowers usage by the amount, floored at zero, and forgets the container |
| ContainerManager.ReleaseUndoesAllocate | q28-container-orchestrator/solution-1-java/ContainerManager.java:50-62 | releasing what was just allocated restores the machine |
| ContainerManager.ParseRow | q28-container-orchestrator/solution-1-java/ContainerManager.java:92-112 | a blank row and a wrong field count are rejected first; then a blank id, then a field that is not a 32-bit integer, then a non-positive capacity; an accepted row is the trimmed id with the numbers read from the trimmed second and third fields |
| ContainerManager.Parse | q28-container-orchestrator/solution-1-java/ContainerManager.java:89-118 | a parsed manager is valid, has no containers, and every machine is fresh |
| ContainerManager.ParseAccepts | q28-container-orchestrator/solution-1-java/ContainerManager.java:89-118 | the constructor succeeds exactly when every row parses and no machine id repeats |
| ContainerManager.ParseKeepsRows | q28-container-orchestrator/solution-1-java/ContainerManager.java:113-116 | each row's id names a machine with that row's capacities and nothing used |
| ContainerManager.ParseOnlyRows | q28-container-orchestrator/solution-1-java/ContainerManager.java:91-117 | every machine comes from some row |
| ContainerManager.ChooseHost | q28-container-orchestrator/solution-1-java/ContainerManager.java:133-151 | no host exactly when no machine has room; otherwise the host has room and is preferred over every machine with room: more spare CPU (criteria 0) or memory (criteria 1), ties to the smaller id |
| ContainerManager.AssignMachine | q28-container-orchestrator/solution-1-java/ContainerManager.java:125-163 | "" exactly when the request is invalid or nothing fits, and then nothing changes; otherwise the host reserves exactly the request, other machines are untouched and the container is recorded as running |
| ContainerManager.Stop | q28-container-orchestrator/solution-1-java/ContainerManager.java:168-184 | true exactly for a known, non-stopped container; then it is marked stopped and its host releases its resources; otherwise nothing changes |
| ContainerManager.StopTwice | q28-container-orchestrator/solution-1-java/ContainerManager.java:172 | a second stop of the same container reports false and changes nothing |
| TrainPlatform.Create | q32-train-platform-manager/solution-1-java/Solution.java:41-49 | a non-positive platform count is rejected; otherwise every platform starts with an empty timeline and the manager satisfies its invariant |
| TrainPlatform.Scan | q32-train-platform-manager/solution-1-java/Solution.java:74-97 | the scanned start is never before the arrival |
| TrainPlatform.ScanFree | q32-train-platform-manager/solution-1-java/Solution.java:76-97 | the scan's start leaves the whole block of waitTime slots clear of every interval on an ordered timeline |
| TrainPlatform.ScanEarliest | q32-train-platform-manager/solution-1-java/Solution.java:76-97 | no earlier start at or after the arrival leaves the block clear: the scan finds the first gap |
| TrainPlatform.FirstMin | q32-train-platform-manager/solution-1-java/Solution.java:101-105 | the kept platform has the smallest delay, and every lower platform a strictly larger one |
| TrainPlatform.AssignPlatform | q32-train-platform-manager/solution-1-java/Solution.java:56-116 | an empty id and a non-positive wait are rejected; a known train gets its stored platform and delay back with no change; a new train is recorded on the returned platform with an interval of exactly waitTime slots |
| TrainPlatform.PlaceChoosesEarliest | q32-train-platform-manager/solution-1-java/Solution.java:66-115 | the new interval starts at arrival plus the reported delay, is clear on its platform, no platform has a clear block with a smaller delay, and every lower-numbered platform only a larger one |
| TrainPlatform.InsertOrdered | q32-train-platform-manager/solution-1-java/Solution.java:112 | inserting a clear interval keeps a timeline in chronological order with disjoint intervals |
| TrainPlatform.AssignPreservesValid | q32-train-platform-manager/solution-1-java/Solution.java:108-115 | after an assignment every timeline is still ordered and disjoint and the train index still matches the timelines |
| TrainPlatform.AssignIdempotent | q32-train-platform-manager/solution-1-java/Solution.java:60-64 | assigning an already scheduled train again returns the same platform and delay and changes nothing |
| TrainPlatform.Floor | q32-train-platform-manager/solution-1-java/Solution.java:124 | an entry starting at or before t when one exists, none exactly when every entry starts after t, and on a chronologically ordered timeline the entry with the greatest such start |
| TrainPlatform.FloorFindsOccupant | q32-train-platform-manager/solution-1-java/Solution.java:121-128 | on a disjoint timeline the floor entry of an occupied slot is the interval covering it |
| TrainPlatform.TrainAtOccupant | q32-train-platform-manager/solution-1-java/Solution.java:121-128 | the platform query answers a train exactly when some interval covers the slot, and then that interval's train |
| TrainPlatform.PlatformOf | q32-train-platform-manager/solution-1-java/Solution.java:134-138 | the answer is -1 or the indexed platform of a train whose interval covers the slot |
| TrainPlatform.PlatformOfOccupant | q32-train-platform-manager/solution-1-java/Solution.java:134-138 | the train query answers platform p exactly when the train's interval on p covers the slot |
| TrainPlatform.AssignThenQuery | q32-train-platform-manager/solution-1-java/Solution.java:108-138 | right after a new train is placed, both queries find it at its start slot on its platform |
| TextEditor.Empty | q-27-text-editor-undo-redo/solution-1-java/TextEditor.java:42-44 | a new editor has no rows and a consistent (empty) history |
| TextEditor.Do | q-27-text-editor-undo-redo/solution-1-java/TextEditor.java:86-92 | performing or reverting one action rewrites only that action's row and never changes the row count |
| TextEditor.DoInverse | q-27-text-editor-undo-redo/solution-1-java/TextEditor.java:16-18 | an insertion is undone by deleting the same text at the same place, and a deletion by inserting the deleted text back: performing an action and then its inverse restores the rows |
| TextEditor.EnsureRowForAdd | q-27-text-editor-undo-redo/solution-1-java/TextEditor.java:130-138 | a row equal to the row count appends one empty row, a smaller row leaves the rows as they are, a larger one is rejected |
| TextEditor.AddText | q-27-text-editor-undo-redo/solution-1-java/TextEditor.java:51-60 | the call fails exactly for a row that skips ahead, a negative row or a column outside the row; on success the row holds the text spliced in at the column, no other row changes, the action is pushed and the redo stack is cleared |
| TextEditor.DeleteText | q-27-text-editor-undo-redo/solution-1-java/TextEditor.java:66-75 | the call fails, changing nothing, exactly for a row or range outside the document; on success the range is cut out of the row, the deleted text is recorded and the redo stack is cleared |
| TextEditor.Undo | q-27-text-editor-undo-redo/solution-1-java/TextEditor.java:81-95 | with an empty history nothing happens; otherwise the top action moves from the undo stack to the redo stack, and rows are never removed |
| TextEditor.Redo | q-27-text-editor-undo-redo/solution-1-java/TextEditor.java:101-115 | with an empty redo stack nothing happens; otherwise the top action moves back to the undo stack |
| TextEditor.ReadLine | q-27-text-editor-undo-redo/solution-1-java/TextEditor.java:120-122 | an existing row's content is returned and any other row is rejected |
| TextEditor.AddPreservesValid | q-27-text-editor-undo-redo/solution-1-java/TextEditor.java:51-60 | after an insertion, failed or not, every recorded action can still be undone and redone in order |
| TextEditor.DeletePreservesValid | q-27-text-editor-undo-redo/solution-1-java/TextEditor.java:66-75 | after a deletion every recorded action can still be undone and redone in order |
| TextEditor.UndoPreservesValid | q-27-text-editor-undo-redo/solution-1-java/TextEditor.java:81-95 | undo keeps the history consistent |
| TextEditor.RedoPreservesValid | q-27-text-editor-undo-redo/solution-1-java/TextEditor.java:101-115 | redo keeps the history consistent |
| TextEditor.RedoUndo | q-27-text-editor-undo-redo/solution-1-java/TextEditor.java:81-115 | redo right after undo restores the whole editor: rows and both stacks |
| TextEditor.UndoRedo | q-27-text-editor-undo-redo/solution-1-java/TextEditor.java:81-115 | undo right after redo restores the whole editor |
| TextEditor.UndoAfterAdd | q-27-text-editor-undo-redo/solution-1-java/TextEditor.java:51-95 | undoing an insertion restores the rows, except that a row the insertion appended stays as an empty row |
| TextEditor.UndoAfterDelete | q-27-text-editor-undo-redo/solution-1-java/TextEditor.java:66-95 | undoing a deletion restores the rows and the undo stack |
| TextEditor.UndoableExtend | q-27-text-editor-undo-redo/solution-1-java/TextEditor.java:9 | appending an empty row keeps every recorded action undoable, since rows are never removed |
| Notepad.Create | q39-text-editor-cursor/solution-1-java/Solution.java:15-22 | a new notepad has one empty line and the cursor at the origin |
| Notepad.Padded | q39-text-editor-cursor/solution-1-java/Solution.java:37-44 | the fill keeps the line as its prefix and extends it with '-' exactly to the cursor column when the cursor is past the end |
| Notepad.ReadLeft | q39-text-editor-cursor/solution-1-java/Solution.java:193-200 | the result is the prefix of the current line of length min(column, line length) |
| Notepad.AddString | q39-text-editor-cursor/solution-1-java/Solution.java:29-51 | empty text changes nothing; otherwise the cursor moves right by the text's length, other lines are untouched, and the current line becomes its first col characters, the text, then the rest of the line, or, when the cursor is past the end, the line, '-' up to the cursor, then the text |
| Notepad.ReadLeftAfterAdd | q39-text-editor-cursor/solution-1-java/Solution.java:29-51 | after typing, the text left of the cursor is the old left part followed by the text when the cursor was inside the line, and the whole line, the '-' fill and the text when it was past the end |
| Notepad.DeleteChar | q39-text-editor-cursor/solution-1-java/Solution.java:59-84 | at the origin nothing happens; with a positive column the character before the cursor is removed when it exists and the cursor moves left; at column 0 the current line is dropped and the cursor goes to the end of the line above |
| Notepad.DeleteUndoesAddChar | q39-text-editor-cursor/solution-1-java/Solution.java:29-84 | typing one character inside the line and then deleting it restores the notepad exactly |
| Notepad.MoveLeft | q39-text-editor-cursor/solution-1-java/Solution.java:92-97 | the column decreases by one unless it is 0, and the row never changes |
| Notepad.MoveRight | q39-text-editor-cursor/solution-1-java/Solution.java:106-108 | the column always increases by one, even past the end of the line |
| Notepad.MoveUp | q39-text-editor-cursor/solution-1-java/Solution.java:115-129 | on the first line nothing happens; otherwise the cursor goes one line up with its column clamped to that line's length |
| Notepad.MoveDown | q39-text-editor-cursor/solution-1-java/Solution.java:136-151 | the cursor goes one line down with its column clamped, or, below the last line, onto a new empty line at column 0 |
| Notepad.UpsMoves | q39-text-editor-cursor/solution-1-java/Solution.java:168-170 | n single moves up from a row at least n lines down land exactly n rows higher without touching the text, and never widen the column |
| Notepad.PageUpMoves | q39-text-editor-cursor/solution-1-java/Solution.java:158-171 | a page up with a non-positive page size or too few lines above does nothing, and otherwise moves exactly one page up |
| Notepad.DownsMoves | q39-text-editor-cursor/solution-1-java/Solution.java:184-186 | n single moves down land exactly n rows lower, keep every existing line, and append only empty lines, just enough to reach the new row |
| Notepad.PageDownMoves | q39-text-editor-cursor/solution-1-java/Solution.java:179-187 | a page down always moves exactly one page, appending empty lines when the document is too short |
| Cursor.Create | q40-text-editor-cursor-readonly/solution-1-java/Solution.java:11-26 | an empty document becomes one empty line, the page size is raised to at least 1, and the cursor starts at the origin in a valid position |
| Cursor.ClampColumn | q40-text-editor-cursor-readonly/solution-1-java/Solution.java:141-149 | the result lies in [0, line length], equals the desired column when that is in range, and is the nearer bound otherwise |
| Cursor.MoveLeft | q40-text-editor-cursor-readonly/solution-1-java/Solution.java:29-34 | the column drops by one unless it is 0; the lines never change |
| Cursor.MoveRight | q40-text-editor-cursor-readonly/solution-1-java/Solution.java:37-45 | the column rises by one unless it is at the end of the line |
| Cursor.MoveUp | q40-text-editor-cursor-readonly/solution-1-java/Solution.java:49-60 | on row 0 nothing changes; otherwise the cursor moves one row up and stays in a valid position |
| Cursor.MoveDown | q40-text-editor-cursor-readonly/solution-1-java/Solution.java:64-75 | on the last row nothing changes; otherwise the cursor moves one row down and stays in a valid position |
| Cursor.PageUp | q40-text-editor-cursor-readonly/solution-1-java/Solution.java:78-90 | without a full page above nothing changes; otherwise the cursor moves exactly one page up |
| Cursor.PageDown | q40-text-editor-cursor-readonly/solution-1-java/Solution.java:93-105 | without a full page below nothing changes; otherwise the cursor moves exactly one page down |
| Cursor.JumpKeepsColumn | q40-text-editor-cursor-readonly/solution-1-java/Solution.java:54-59 | a vertical move keeps the column when the target line is long enough and otherwise puts it at that line's end |
| Cursor.ReadLeft | q40-text-editor-cursor-readonly/solution-1-java/Solution.java:109-121 | the result is the prefix of the current line whose length is the column |
| Cursor.ReadLeftAfterRight | q40-text-editor-cursor-readonly/solution-1-java/Solution.java:109-121 | moving right inside a line extends the text read to the left by exactly the character passed |
| Router.Classify | q36-middleware-router/solution-1-java/Solution.java:110-118 | a segment is a wildcard exactly when it is "*", a parameter exactly when it starts with ':', and otherwise a literal |
| Router.ParsePieces | q36-middleware-router/solution-1-java/Solution.java:105-120 | the parse keeps exactly the non-empty pieces, gives each its class, and counts the literals and parameters among them |
| Router.ParseJoin | q36-middleware-router/solution-1-java/Solution.java:101-121 | joining non-empty, slash-free segments with '/' and parsing the result gives the same segments back |
| Router.MatchesConcrete | q36-middleware-router/solution-1-java/Solution.java:123-139 | a route matches a path exactly when both have the same number of segments and every literal of the route equals the path's segment at that position |
| Router.IsCompatible | q36-middleware-router/solution-1-java/Solution.java:147-162 | a stored pattern is compatible with a query exactly when both have the same length and no position holds two different literals |
| Router.BetterTransitive | q36-middleware-router/solution-1-java/Solution.java:168-179 | the precedence (literals, then parameters, then length, then earlier insertion) is transitive |
| Router.BetterTotal | q36-middleware-router/solution-1-java/Solution.java:168-179 | of two routes added at different times one always ranks above the other |
| Router.AddRoute | q36-middleware-router/solution-1-java/Solution.java:65-72 | re-adding a stored pattern replaces only its result and keeps its position; a new pattern is appended with the next insertion number |
| Router.AddRoutePreservesValid | q36-middleware-router/solution-1-java/Solution.java:59-72 | routes stay in insertion order with distinct patterns, each carrying its own parse |
| Router.Best | q36-middleware-router/solution-1-java/Solution.java:78-83 | the scan finds no route exactly when none matches, and otherwise keeps a matching stored route |
| Router.BestIsBest | q36-middleware-router/solution-1-java/Solution.java:168-179 | no matching route ranks above the route the scan keeps |
| Router.CallRoute | q36-middleware-router/solution-1-java/Solution.java:74-85 | the answer is "NOT_FOUND" when no route matches, and otherwise the result of a matching route |
| Router.CallRouteMostSpecific | q36-middleware-router/solution-1-java/Solution.java:74-85 | the route answered beats every other matching route under the precedence |
| Router.SearchRoutes | q36-middleware-router/solution-1-java/Solution.java:87-97 | a result is listed exactly when some compatible route holds it |
| Router.CompatibleAppend | q36-middleware-router/solution-1-java/Solution.java:91-95 | results come in insertion order: a route added later is listed after the earlier ones |
| FileSystem.Tokenize | q30-file-system-wildcard/solution-1-java/Solution.java:129-159 | every segment is non-empty and free of '/': surrounding whitespace is stripped and runs of '/' act as one separator |
| FileSystem.TokenizeSingle | q30-file-system-wildcard/solution-1-java/Solution.java:129-159 | a single slash-free name without surrounding whitespace tokenizes to itself |
| FileSystem.Create | q30-file-system-wildcard/solution-1-java/Solution.java:21-26 | a new shell has only the root, which is also the working directory |
| FileSystem.Parent | q30-file-system-wildcard/solution-1-java/Solution.java:96 | the parent of the root is the root; any other directory is its parent plus its own name |
| FileSystem.SmallestChild | q30-file-system-wildcard/solution-1-java/Solution.java:97-101 | the picked child exists and no other child name is lexicographically smaller |
| FileSystem.Mkdir | q30-file-system-wildcard/solution-1-java/Solution.java:51-77 | mkdir never moves the working directory and never removes a directory |
| FileSystem.MkWalkDescends | q30-file-system-wildcard/solution-1-java/Solution.java:55-76 | on a path without "..", the walk skips "." and "*", ends at the start extended by every named segment, and passes through exactly the non-empty prefixes of that extension |
| FileSystem.MkdirAddsPrefixes | q30-file-system-wildcard/solution-1-java/Solution.java:51-77 | on a path without "..", a directory exists after mkdir exactly when it existed before or is the start directory extended by a non-empty prefix of the named segments (so the target is created along with every missing ancestor, and nothing else) |
| FileSystem.MkWalkClosed | q30-file-system-wildcard/solution-1-java/Solution.java:55-76 | the walk creates each missing directory after its parent, so the tree stays prefix-closed, every name stays a real name ("*", "." and ".." are never created) and the walk's end exists |
| FileSystem.MkdirPreservesValid | q30-file-system-wildcard/solution-1-java/Solution.java:51-77 | after mkdir the tree is still prefix-closed, still contains the working directory, and contains the target |
| FileSystem.MkdirIdempotent | q30-file-system-wildcard/solution-1-java/Solution.java:44-50 | running the same mkdir twice is the same as running it once |
| FileSystem.Cd | q30-file-system-wildcard/solution-1-java/Solution.java:88-116 | cd never changes the tree, and when some named segment does not resolve the working directory stays as it was |
| FileSystem.CdPreservesValid | q30-file-system-wildcard/solution-1-java/Solution.java:88-116 | the directory cd commits to always exists |
| FileSystem.CdFollowsMkdir | q30-file-system-wildcard/solution-1-java/Solution.java:55-112 | once the directories a mkdir walk visits exist, a cd along the same segments without "*" resolves to where the mkdir walk ended |
| FileSystem.CdAfterMkdir | q30-file-system-wildcard/solution-1-java/Solution.java:51-116 | cd p right after mkdir p (p without "*") succeeds and lands on the directory mkdir reached |
| FileSystem.CdStar | q30-file-system-wildcard/solution-1-java/Solution.java:97-103 | a "*" segment enters the lexicographically smallest child, or stays put when there is none |
| FileSystem.CdUpAtRoot | q30-file-system-wildcard/solution-1-java/Solution.java:96 | ".." at the root stays at the root |
| FileSystem.Pwd | q30-file-system-wildcard/solution-1-java/Solution.java:29-42 | the printed path always starts with '/' |
| FileSystem.PwdTokenizes | q30-file-system-wildcard/solution-1-java/Solution.java:129-159 | tokenizing the printed path gives back the working directory's names, provided the last name does not end in whitespace |
| RateLimiter.ParseLimits | q34-rate-limiter/solution-1-java/Solution.java:31-37 | the limits are accepted exactly when they split into two fields that each parse, after trimming, as a 32-bit integer; a wrong field count is reported as such |
| RateLimiter.ParseLimitsRoundTrip | q34-rate-limiter/solution-1-java/Solution.java:31-37 | printing two 32-bit integers as "max,period" and parsing the string gives the same two integers back |
| RateLimiter.Initial | q34-rate-limiter/solution-1-java/Solution.java:39-46 | only "fixed-window-counter" and "sliding-window-counter" name a strategy, and each starts empty (no window seen, no request logged) |
| RateLimiter.AddResource | q34-rate-limiter/solution-1-java/Solution.java:30-50 | limits are parsed before the strategy is checked; on success the resource, new or not, is replaced by a fresh limiter and every other resource is untouched |
| RateLimiter.IsAllowed | q34-rate-limiter/solution-1-java/Solution.java:59-65 | an unknown resource is an error; otherwise only that resource's limiter advances and its verdict is returned |
| RateLimiter.Check | q34-rate-limiter/solution-1-java/Solution.java:100-133 | only a fixed window with a zero time period fails (division by zero); a step never changes the limits or the strategy |
| RateLimiter.FixedStep | q34-rate-limiter/solution-1-java/Solution.java:100-113 | the window becomes the truncated quotient of the timestamp by the period, and the count never exceeds the limit |
| RateLimiter.FixedWithinWindow | q34-rate-limiter/solution-1-java/Solution.java:100-113 | of a run of requests inside one window, exactly min(run length, budget left in the window) are allowed |
| RateLimiter.FixedNewWindowResets | q34-rate-limiter/solution-1-java/Solution.java:103-111 | the first request of a new window is allowed exactly when the limit is positive, and the count restarts from it |
| RateLimiter.DropBefore | q34-rate-limiter/solution-1-java/Solution.java:137-139 | the log loses a prefix of entries all older than the window start, and what remains starts inside the window |
| RateLimiter.DropBeforeIsWindow | q34-rate-limiter/solution-1-java/Solution.java:134-141 | on an increasing log, the pruned log is exactly the logged requests inside [t - period + 1, t] |
| RateLimiter.SlideAllowsIff | q34-rate-limiter/solution-1-java/Solution.java:133-149 | a request is allowed exactly when fewer than maxRequests logged requests lie in the window, and only then is it appended to them |
| RateLimiter.SlideKeepsBound | q34-rate-limiter/solution-1-java/Solution.java:124-149 | with increasing timestamps the log stays increasing and never holds more than maxRequests entries |
| RateLimiter.CheckPreservesValid | q34-rate-limiter/solution-1-java/Solution.java:90-149 | each request keeps a limiter's count (fixed) or log size (sliding) within the limit |
| JavaMath.DivNegative | q34-rate-limiter/solution-1-java/Solution.java:101 | Java's division of a negative timestamp by a positive period rounds toward zero, not down |
| SplitBook.Empty | q12_expense_sharing_splitwise/solution-1-java/SplitBook.java:20-27 | a new ledger is consistent: its balances are keyed by its users and sum to zero |
| SplitBook.RegisterUser | q12_expense_sharing_splitwise/solution-1-java/SplitBook.java:30-35 | a new user is added with a zero balance (an existing balance is kept); a known user changes nothing; expense ids are untouched |
| SplitBook.RegisterIdempotent | q12_expense_sharing_splitwise/solution-1-java/SplitBook.java:29-35 | registering the same user twice is the same as registering once |
| SplitBook.RegisterPreservesValid | q12_expense_sharing_splitwise/solution-1-java/SplitBook.java:30-35 | registration keeps the balance map's keys equal to the users and the balances summing to zero; a new user starts at zero |
| SplitBook.SortIndicesSorted | q12_expense_sharing_splitwise/solution-1-java/SplitBook.java:76-78 | the member indices come out ordered by user id with ties by position (a stable sort), each index once |
| SplitBook.PlusOneCount | q12_expense_sharing_splitwise/solution-1-java/SplitBook.java:72-83 | exactly total mod n members get the extra cent, all of them real member positions |
| SplitBook.PlusOneGoesFirst | q12_expense_sharing_splitwise/solution-1-java/SplitBook.java:75-83 | every member with an extra cent sorts before every member without one |
| SplitBook.SharesSum | q12_expense_sharing_splitwise/solution-1-java/SplitBook.java:71-87 | the shares add up to the total in cents: no cent is lost or invented |
| SplitBook.DeltasSumZero | q12_expense_sharing_splitwise/solution-1-java/SplitBook.java:85-91 | what the members paid minus their shares sums to zero |
| SplitBook.ApplyDeltasAt | q12_expense_sharing_splitwise/solution-1-java/SplitBook.java:86-91 | after applying the deltas a user's balance is their old balance (0 if absent) plus the sum of the deltas listed for them, repeats included |
| SplitBook.ApplyDeltasSum | q12_expense_sharing_splitwise/solution-1-java/SplitBook.java:86-91 | applying deltas to registered members adds exactly the deltas' sum to the sum of all balances |
| SplitBook.RecordExpense | q12_expense_sharing_splitwise/solution-1-java/SplitBook.java:43-92 | the expense id is burned even when the expense is rejected; a repeated id changes nothing; an empty, mismatched, unregistered, negative or all-zero expense leaves balances untouched; otherwise each member's delta is applied |
| SplitBook.RecordPreservesValid | q12_expense_sharing_splitwise/solution-1-java/SplitBook.java:43-92 | recording an expense keeps the balances summing to zero and keyed by the registered users |
| SplitBook.RecordOnce | q12_expense_sharing_splitwise/solution-1-java/SplitBook.java:44-45 | recording the same expense id a second time, with any members and payments, changes nothing |
| SplitBook.EntriesIncreasing | q12_expense_sharing_splitwise/solution-1-java/SplitBook.java:100-111 | the debtor and creditor lists are each strictly ordered by user id |
| SplitBook.EntriesSum | q12_expense_sharing_splitwise/solution-1-java/SplitBook.java:100-107 | total credit minus total debt equals the sum of all balances |
| SplitBook.DebtorsOwed | q12_expense_sharing_splitwise/solution-1-java/SplitBook.java:102-105 | a user appears among the debtors with exactly the amount they owe, and not at all unless their balance is negative |
| SplitBook.CreditorsOwed | q12_expense_sharing_splitwise/solution-1-java/SplitBook.java:102-106 | a user appears among the creditors with exactly the amount they are owed, and not at all unless their balance is positive |
| SplitBook.MatchIds | q12_expense_sharing_splitwise/solution-1-java/SplitBook.java:114-125 | every transfer runs from a listed debtor to a listed creditor |
| SplitBook.MatchSettles | q12_expense_sharing_splitwise/solution-1-java/SplitBook.java:113-125 | when total debt equals total credit, the greedy matching makes each debtor pay exactly their debt and each creditor receive exactly their credit |
| SplitBook.MatchSorted | q12_expense_sharing_splitwise/solution-1-java/SplitBook.java:113-125 | the transfers come out strictly ordered by debtor id, then creditor id, so no pair repeats |
| SplitBook.BalancesSettle | q12_expense_sharing_splitwise/solution-1-java/SplitBook.java:94-127 | on a consistent ledger, listBalances has every user pay exactly their negative balance and receive exactly their positive balance |
| SplitBook.BalancesSorted | q12_expense_sharing_splitwise/solution-1-java/SplitBook.java:94-127 | listBalances lines are sorted by debtor id, then creditor id |
| SplitBook.ListBalances | q12_expense_sharing_splitwise/solution-1-java/SplitBook.java:98-127 | one line per settling transfer, in the greedy match order, line i being "<debtor> owes <creditor>: <amount>" of transfer i |
| SplitBook.AmountFormat | q12_expense_sharing_splitwise/solution-1-java/SplitBook.java:137-141 | a non-negative amount prints as whole units, a dot and exactly two digits, which read back as the same number of cents |
| HashMap.CustomHash | q43-custom-hashmap/solution-1-java/Solution.java:173-181 | the hash loop yields the squared key length plus the sum of the letters' alphabet positions |
| HashMap.LetterSumBounds | q43-custom-hashmap/solution-1-java/Solution.java:173-181 | for lower-case keys each letter adds 1 to 26, so the hash is at least len² + len and never negative |
| HashMap.BucketIndex | q43-custom-hashmap/solution-1-java/Solution.java:165-171 | the bucket index is the hash reduced modulo the bucket count into [0, count), negative hashes included |
| HashMap.LoadFactor | q43-custom-hashmap/solution-1-java/Solution.java:154-163 | the load factor is size/count in hundredths rounded half up: 2·count·r ≤ 200·size + count < 2·count·(r+1) |
| HashMap.Init | q43-custom-hashmap/solution-1-java/Solution.java:25-32 | a new map has two empty buckets, size 0, no key, and satisfies the representation invariant |
| HashMap.Find | q43-custom-hashmap/solution-1-java/Solution.java:53-58 | a chain lookup finds nothing exactly when the key is not in the chain, and otherwise returns the value of an entry of that key |
| HashMap.FindUpdate | q43-custom-hashmap/solution-1-java/Solution.java:37-43 | overwriting a key present in a chain makes it map to the new value and leaves every other key's value alone |
| HashMap.FindDelete | q43-custom-hashmap/solution-1-java/Solution.java:61-83 | unlinking a key removes it from the chain, shortens the chain by one exactly when the key was there, and leaves other keys alone |
| HashMap.DeleteKeys | q43-custom-hashmap/solution-1-java/Solution.java:64-76 | the unlinked chain holds the old keys minus the removed one, still without repeats |
| HashMap.LookupHeld | q43-custom-hashmap/solution-1-java/Solution.java:53-59 | on a valid table get finds a value exactly when that key/value entry is stored somewhere in the table |
| HashMap.RehashIntoBucket | q43-custom-hashmap/solution-1-java/Solution.java:131-152 | after the rehash walk, each new bucket holds the entries that hash to it, in reverse walk order |
| HashMap.SpreadMember | q43-custom-hashmap/solution-1-java/Solution.java:134-151 | rehashing loses no entry and invents none |
| HashMap.SpreadPlaced | q43-custom-hashmap/solution-1-java/Solution.java:142-145 | after rehashing every entry sits in bucket customHash mod the new count |
| HashMap.RehashValid | q43-custom-hashmap/solution-1-java/Solution.java:131-152 | rehashing to a power-of-two count keeps the invariant (placement, no repeated key, size) and the exact set of entries |
| HashMap.RehashLookup | q43-custom-hashmap/solution-1-java/Solution.java:131-152 | rehashing changes the result of no lookup |
| HashMap.Grow | q43-custom-hashmap/solution-1-java/Solution.java:114-120 | the doubling phase ends at the first count whose load factor is within the maximum, the previous count having been above it |
| HashMap.Shrink | q43-custom-hashmap/solution-1-java/Solution.java:122-125 | the halving phase ends with the load factor above the maximum, or no longer below the minimum, or at two buckets |
| HashMap.Adjust | q43-custom-hashmap/solution-1-java/Solution.java:113-129 | when the resize loop returns, the table is settled (no further doubling or halving applies) with size and bounds unchanged |
| HashMap.AdjustValid | q43-custom-hashmap/solution-1-java/Solution.java:113-129 | resizing keeps the invariant and changes no lookup |
| HashMap.AdjustSettled | q43-custom-hashmap/solution-1-java/Solution.java:113-129 | the loop leaves a settled table alone |
| HashMap.AdjustCycles | q43-custom-hashmap/solution-1-java/Solution.java:113-129 | when the model says the loop never returns, there really is a count the loop halves whose half it doubles back |
| HashMap.ResizeCycleExample | q43-custom-hashmap/solution-1-java/Solution.java:113-129 | with bounds 0.40 and 0.60, three keys in four buckets double to eight and halve back to four forever |
| HashMap.WriteValid | q43-custom-hashmap/solution-1-java/Solution.java:34-48 | put's chain edit keeps the invariant and adds one to size exactly when the key was absent |
| HashMap.WriteLookup | q43-custom-hashmap/solution-1-java/Solution.java:34-48 | after put's chain edit the key maps to the new value and every other key is unchanged |
| HashMap.PutSpec | q43-custom-hashmap/solution-1-java/Solution.java:34-51 | after put, get of the key returns the new value, other keys are unchanged, size grows by one only for a new key, and the table is valid and settled |
| HashMap.UnlinkValid | q43-custom-hashmap/solution-1-java/Solution.java:61-80 | remove's chain edit keeps the invariant and lowers size by one exactly when the key was present |
| HashMap.UnlinkLookup | q43-custom-hashmap/solution-1-java/Solution.java:61-80 | after remove's chain edit the key is absent and every other key is unchanged |
| HashMap.RemoveSpec | q43-custom-hashmap/solution-1-java/Solution.java:61-87 | remove returns what get returned (the value or ""), leaves the key absent, other keys unchanged, size one lower only when the key was present, and the table valid and settled |
| HashMap.RemoveAbsent | q43-custom-hashmap/solution-1-java/Solution.java:85-86 | removing an absent key from a settled table returns "" and changes nothing |
| HashMap.BucketKeys | q43-custom-hashmap/solution-1-java/Solution.java:89-101 | getBucketKeys is strictly increasing, holds exactly the keys chained in that bucket, and is empty for an index out of range |
| HashMap.BucketKeysCount | q43-custom-hashmap/solution-1-java/Solution.java:94-100 | getBucketKeys lists as many keys as the bucket has entries |
| ConnectionPool.Create | q49-connection-pool/solution-1-java/Solution.java:29-40 | every connection 0 .. capacity-1 starts free, nobody holds or waits, and the pool invariant holds |
| ConnectionPool.Acquire | q49-connection-pool/solution-1-java/Solution.java:42-54 | with a connection free the request gets the lowest one; otherwise it gets -1 and joins the back of the queue |
| ConnectionPool.AcquireFails | q49-connection-pool/solution-1-java/Solution.java:42-54 | in a valid pool -1 comes back exactly when no connection is free, and the request is then waiting |
| ConnectionPool.AcquireValid | q49-connection-pool/solution-1-java/Solution.java:42-54 | acquiring keeps every connection either free or held by exactly one request |
| ConnectionPool.FirstWaiting | q49-connection-pool/solution-1-java/Solution.java:96-105 | the position found is that of the oldest queued request still waiting; every entry before it has expired |
| ConnectionPool.FirstWaitingFinds | q49-connection-pool/solution-1-java/Solution.java:96-105 | a request that is waiting and queued is always found |
| ConnectionPool.Release | q49-connection-pool/solution-1-java/Solution.java:56-60 | the release fails exactly when the request holds nothing, and then nothing changes |
| ConnectionPool.ReleaseHandsOver | q49-connection-pool/solution-1-java/Solution.java:62-71 | with someone waiting the connection passes to the oldest waiter and no connection is freed; otherwise it becomes free |
| ConnectionPool.ReleaseGrantsWaiting | q49-connection-pool/solution-1-java/Solution.java:62-67 | a request that newly holds a connection after a release was waiting for one |
| ConnectionPool.ReleaseValid | q49-connection-pool/solution-1-java/Solution.java:56-72 | releasing keeps held and free connections a partition of 0 .. capacity-1, and nobody waits while a connection is free |
| ConnectionPool.Expire | q49-connection-pool/solution-1-java/Solution.java:74-80 | the request stops waiting; holdings, free connections and the queue are untouched, and a request that was not waiting changes nothing |
| ConnectionPool.ExpireValid | q49-connection-pool/solution-1-java/Solution.java:74-80 | expiring keeps the pool invariant |
| ConnectionPool.ExpiredNeverServed | q49-connection-pool/solution-1-java/Solution.java:74-105 | an expired request is skipped: no later release hands it a connection |
| ConnectionPool.AcquireRelease | q49-connection-pool/solution-1-java/Solution.java:42-72 | taking a free connection and releasing it again restores the pool, apart from the drained queue of expired entries |
| ConnectionPool.Listing | q49-connection-pool/solution-1-java/Solution.java:82-93 | one "request-connection" line per holding request, each holder exactly once, in increasing request-id order |
| LockerManager.Create | q16_locker_management/solution-1-java/LockerManager.java:19-24 | every size starts with a zero counter and an empty free set, and no locker exists |
| LockerManager.IdInjective | q16_locker_management/solution-1-java/LockerManager.java:28-29 | two ids built from a valid size and a positive counter are equal only for the same size and counter |
| LockerManager.NextIdFresh | q16_locker_management/solution-1-java/LockerManager.java:26-31 | the id the next addition of a size would produce is not yet registered |
| LockerManager.AddSlot | q16_locker_management/solution-1-java/LockerManager.java:26-33 | an unknown size is ignored; otherwise exactly one id, the size followed by its new counter value, is registered |
| LockerManager.AddSlotFresh | q16_locker_management/solution-1-java/LockerManager.java:26-33 | the added locker is new and free, the size's counter grows by one, and the registry grows by one |
| LockerManager.AddSlotValid | q16_locker_management/solution-1-java/LockerManager.java:26-33 | adding keeps every locker named by its size's counter and every free set equal to that size's unoccupied lockers |
| LockerManager.FindSlot | q16_locker_management/solution-1-java/LockerManager.java:35-40 | "" for an unknown size or an empty free set; otherwise the lexicographically smallest free id of the size |
| LockerManager.FindSlotFree | q16_locker_management/solution-1-java/LockerManager.java:35-40 | the id offered is a registered, unoccupied locker of that size, and "" comes back exactly when every locker of the size is occupied |
| LockerManager.Occupy | q16_locker_management/solution-1-java/LockerManager.java:42-49 | occupying succeeds exactly for a registered, unoccupied locker that is in its free set, and then only that locker and that free set change |
| LockerManager.OccupyWhenFree | q16_locker_management/solution-1-java/LockerManager.java:42-49 | in a valid manager occupying succeeds exactly for a registered locker that is not occupied |
| LockerManager.OccupyValid | q16_locker_management/solution-1-java/LockerManager.java:42-49 | occupying keeps each free set equal to its size's unoccupied lockers |
| LockerManager.Free | q16_locker_management/solution-1-java/LockerManager.java:51-57 | freeing succeeds exactly for a registered, occupied locker, which returns to its size's free set |
| LockerManager.FreeValid | q16_locker_management/solution-1-java/LockerManager.java:51-57 | freeing keeps each free set equal to its size's unoccupied lockers |
| LockerManager.OccupyThenFree | q16_locker_management/solution-1-java/LockerManager.java:42-57 | freeing the locker just occupied gives back the same manager |
| LockerManager.FreeThenOccupy | q16_locker_management/solution-1-java/LockerManager.java:42-57 | occupying the locker just freed gives back the same manager |
| LockerManager.FindThenOccupy | q16_locker_management/solution-1-java/LockerManager.java:35-49 | the id findSlot offers can always be occupied |
| RoomBooking.Create | q29-meeting-room-booking/solution-1-java/Solution.java:40-48 | the rooms are exactly the given ids, in strictly increasing lexicographic order, each with an empty schedule, and no meeting is active |
| RoomBooking.Floor | q29-meeting-room-booking/solution-1-java/Solution.java:65 | the latest start at or before the time, or none when every start is later |
| RoomBooking.Ceiling | q29-meeting-room-booking/solution-1-java/Solution.java:72 | the earliest start at or after the time, or none when every start is earlier |
| RoomBooking.FitsIffFree | q29-meeting-room-booking/solution-1-java/Solution.java:64-76 | on a disjoint schedule the two neighbour checks pass exactly when no meeting of the room overlaps the inclusive interval |
| RoomBooking.PutDisjoint | q29-meeting-room-booking/solution-1-java/Solution.java:78-79 | inserting a fitting well-formed interval keeps the room's meetings disjoint, and its start was not yet taken |
| RoomBooking.CreateValid | q29-meeting-room-booking/solution-1-java/Solution.java:40-48 | a new booking system satisfies the invariant |
| RoomBooking.MeetingsDisjoint | q29-meeting-room-booking/solution-1-java/Solution.java:65-76 | two active meetings in the same room never share a time |
| RoomBooking.FirstFit | q29-meeting-room-booking/solution-1-java/Solution.java:61-82 | the room found is the first in order where the meeting fits; none before it fits |
| RoomBooking.Book | q29-meeting-room-booking/solution-1-java/Solution.java:55-86 | an active meeting id or no fitting room gives "" and no change; otherwise a fitting room is returned and the meeting is recorded there |
| RoomBooking.BookSmallest | q29-meeting-room-booking/solution-1-java/Solution.java:61-82 | no room lexicographically smaller than the chosen one can host the meeting |
| RoomBooking.BookValid | q29-meeting-room-booking/solution-1-java/Solution.java:55-86 | booking a well-formed interval keeps schedules disjoint and every active meeting recorded in its room |
| RoomBooking.Cancel | q29-meeting-room-booking/solution-1-java/Solution.java:92-104 | false exactly when the meeting is not active, and then nothing changes; otherwise the meeting stops being active |
| RoomBooking.CancelFrees | q29-meeting-room-booking/solution-1-java/Solution.java:96-102 | cancelling removes exactly the meeting's own interval from its room |
| RoomBooking.CancelValid | q29-meeting-room-booking/solution-1-java/Solution.java:92-104 | cancelling keeps the invariant |
| RoomBooking.BookThenCancel | q29-meeting-room-booking/solution-1-java/Solution.java:55-104 | cancelling a meeting right after booking it restores the booking system |
| MeetingScheduler.Create | q44-meeting-scheduler/solution-1-java/Solution.java:41-53 | one empty index per room and per employee and no bookings |
| MeetingScheduler.FloorByStart | q44-meeting-scheduler/solution-1-java/Solution.java:61-65 | the booking found starts no later than the time, and every booking starting earlier comes at or before it in (start, id) order |
| MeetingScheduler.CeilingByStart | q44-meeting-scheduler/solution-1-java/Solution.java:67-71 | the booking found starts no earlier than the time and comes first among all bookings starting at or after it |
| MeetingScheduler.BusyIffOverlap | q44-meeting-scheduler/solution-1-java/Solution.java:80-84 | on a room whose bookings are apart, the floor and ceiling checks report a conflict exactly when some booking of the room overlaps the closed interval |
| MeetingScheduler.CreateValid | q44-meeting-scheduler/solution-1-java/Solution.java:41-53 | a new scheduler satisfies the invariant |
| MeetingScheduler.Book | q44-meeting-scheduler/solution-1-java/Solution.java:73-91 | true exactly when the id is non-blank and new, the interval is ordered and non-negative and neither neighbour overlaps; then the booking enters the registry and both indexes, otherwise nothing changes |
| MeetingScheduler.BookIffFree | q44-meeting-scheduler/solution-1-java/Solution.java:73-91 | a booking succeeds exactly when its arguments pass and no booking of the room overlaps it |
| MeetingScheduler.BookValid | q44-meeting-scheduler/solution-1-java/Solution.java:73-91 | booking keeps both indexes consistent with the registry and each room's bookings pairwise apart |
| MeetingScheduler.AvailableRooms | q44-meeting-scheduler/solution-1-java/Solution.java:93-117 | none for a reversed interval; otherwise exactly the rooms that are empty or have no conflicting neighbour, in strictly ascending order |
| MeetingScheduler.AvailableIffFree | q44-meeting-scheduler/solution-1-java/Solution.java:93-117 | a room is listed exactly when none of its bookings overlaps the interval |
| MeetingScheduler.BookIffAvailable | q44-meeting-scheduler/solution-1-java/Solution.java:73-117 | a well-formed new booking succeeds exactly in the rooms that are listed as available |
| MeetingScheduler.Cancel | q44-meeting-scheduler/solution-1-java/Solution.java:119-126 | false exactly for an unknown id, with no change; otherwise the booking leaves the registry, its room's index and its employee's index |
| MeetingScheduler.CancelRemoves | q44-meeting-scheduler/solution-1-java/Solution.java:119-126 | after a cancellation no room or employee index mentions the booking |
| MeetingScheduler.CancelValid | q44-meeting-scheduler/solution-1-java/Solution.java:119-126 | cancelling keeps the invariant |
| MeetingScheduler.ListRoom | q44-meeting-scheduler/solution-1-java/Solution.java:128-134 | each booking of the room exactly once, ordered by start time and then by booking id |
| MeetingScheduler.ListEmployee | q44-meeting-scheduler/solution-1-java/Solution.java:136-142 | each booking of the employee exactly once, ordered by start time and then by booking id |
| MeetingScheduler.ListedByStart | q44-meeting-scheduler/solution-1-java/Solution.java:21-25 | in a listing an earlier entry never starts later, and equal starts are in increasing id order |
| RecurringScheduler.Create | q45-recurrent-meeting-scheduler/solution-1-java/Solution.java:52-61 | the counts are kept as given, with one empty id list per room and per employee and no bookings; a negative count gives no list, since the filling loop does not run |
| RecurringScheduler.OccurrencesApart | q45-recurrent-meeting-scheduler/solution-1-java/Solution.java:43-49 | for a booking that passed the time checks, occurrence i is a non-empty closed interval that ends before occurrence j starts whenever i < j |
| RecurringScheduler.Hits | q45-recurrent-meeting-scheduler/solution-1-java/Solution.java:140-147 | true exactly when one of the 20 occurrences overlaps the closed query interval |
| RecurringScheduler.Overlap20 | q45-recurrent-meeting-scheduler/solution-1-java/Solution.java:149-161 | true exactly when some pair among the 20 × 20 occurrences of the two bookings overlaps |
| RecurringScheduler.PairsIffHits | q45-recurrent-meeting-scheduler/solution-1-java/Solution.java:149-161 | the nested loop finds an overlapping pair exactly when some occurrence of the first booking, taken as a query, hits the second |
| RecurringScheduler.OverlapSymmetric | q45-recurrent-meeting-scheduler/solution-1-java/Solution.java:149-161 | whether two bookings clash does not depend on their order |
| RecurringScheduler.ClashIn | q45-recurrent-meeting-scheduler/solution-1-java/Solution.java:76-82 | true exactly when some known booking of the list clashes with the new one; unknown ids are skipped |
| RecurringScheduler.Book | q45-recurrent-meeting-scheduler/solution-1-java/Solution.java:63-89 | true exactly when the id is non-empty and new, start ≥ 0, 0 < duration < repeat, and no booking of the room clashes; then the booking is recorded and appended to its room's and employee's lists, otherwise nothing changes |
| RecurringScheduler.CreateValid | q45-recurrent-meeting-scheduler/solution-1-java/Solution.java:52-61 | a new scheduler satisfies the invariant |
| RecurringScheduler.BookValid | q45-recurrent-meeting-scheduler/solution-1-java/Solution.java:63-89 | booking keeps the lists consistent with the registry and the bookings of each room free of overlapping occurrences |
| RecurringScheduler.FreeIn | q45-recurrent-meeting-scheduler/solution-1-java/Solution.java:124-133 | true exactly when no known booking of the list has an occurrence meeting the query |
| RecurringScheduler.AvailableRooms | q45-recurrent-meeting-scheduler/solution-1-java/Solution.java:91-101 | none for a reversed query; the rooms are listed in strictly ascending order |
| RecurringScheduler.NoRoomsNoneAvailable | q45-recurrent-meeting-scheduler/solution-1-java/Solution.java:91-99 | a scheduler built with a zero or negative room count lists no available room, whatever the query |
| RecurringScheduler.AvailableIffFree | q45-recurrent-meeting-scheduler/solution-1-java/Solution.java:91-133 | for an ordered query a room is listed exactly when none of the 20 occurrences of any of its bookings overlaps the query |
| RecurringScheduler.BookIffEveryOccurrenceAvailable | q45-recurrent-meeting-scheduler/solution-1-java/Solution.java:63-133 | a new booking that passes the argument checks succeeds exactly when its room is listed as available for each of its 20 occurrences |
| RecurringScheduler.RemoveFirst | q45-recurrent-meeting-scheduler/solution-1-java/Solution.java:107-108 | an absent id leaves the list alone; a present one shortens it by one and adds nothing |
| RecurringScheduler.RemoveFirstDistinct | q45-recurrent-meeting-scheduler/solution-1-java/Solution.java:107-108 | on a list without repeats the result keeps exactly the other ids, still without repeats |
| RecurringScheduler.Cancel | q45-recurrent-meeting-scheduler/solution-1-java/Solution.java:103-110 | false exactly for an unknown id, with no change; otherwise the booking leaves the registry and the lists of its room and employee |
| RecurringScheduler.CancelValid | q45-recurrent-meeting-scheduler/solution-1-java/Solution.java:103-110 | cancelling keeps the invariant |
| RecurringScheduler.BookThenCancel | q45-recurrent-meeting-scheduler/solution-1-java/Solution.java:63-110 | cancelling a booking right after making it restores the scheduler |
| RecurringScheduler.BeforeTransitive | q45-recurrent-meeting-scheduler/solution-1-java/Solution.java:187-192 | the priority queue's comparator is transitive |
| RecurringScheduler.BeforeTotal | q45-recurrent-meeting-scheduler/solution-1-java/Solution.java:187-192 | two occurrences the comparator cannot order agree on start, booking id and index |
| RecurringScheduler.MinIndex | q45-recurrent-meeting-scheduler/solution-1-java/Solution.java:204 | the polled entry is one that no entry of the queue comes before |
| RecurringScheduler.MergeLength | q45-recurrent-meeting-scheduler/solution-1-java/Solution.java:203-216 | the loop emits n occurrences, or every occurrence still to come when fewer remain |
| RecurringScheduler.MergeSorted | q45-recurrent-meeting-scheduler/solution-1-java/Solution.java:203-216 | the loop emits occurrences in strictly increasing (start, booking id, index) order |
| RecurringScheduler.MergePending | q45-recurrent-meeting-scheduler/solution-1-java/Solution.java:203-216 | every emitted occurrence is a later-or-equal occurrence of a queued booking |
| RecurringScheduler.MergeClosed | q45-recurrent-meeting-scheduler/solution-1-java/Solution.java:203-216 | no pending occurrence that comes before an emitted one is skipped |
| RecurringScheduler.Seeds | q45-recurrent-meeting-scheduler/solution-1-java/Solution.java:194-201 | occurrence 0 of each known listed booking, in list order |
| RecurringScheduler.SeedsOk | q45-recurrent-meeting-scheduler/solution-1-java/Solution.java:194-201 | for a list without repeats the seeded queue is well-formed and still has all 20 occurrences of every listed booking to hand out |
| RecurringScheduler.OccurrencesFirstN | q45-recurrent-meeting-scheduler/solution-1-java/Solution.java:183-219 | for n > 0 the result is the first min(n, 20 × bookings) of all occurrences of the listed bookings in comparator order; for n ≤ 0 it is empty |
| RecurringScheduler.ListRoom | q45-recurrent-meeting-scheduler/solution-1-java/Solution.java:112-115 | n ≤ 0 gives no lines for any room or employee number, before the list is looked up; otherwise one line "id-start-end" per merged occurrence |
| RecurringScheduler.ListEmployee | q45-recurrent-meeting-scheduler/solution-1-java/Solution.java:117-120 | n ≤ 0 gives no lines for any room or employee number, before the list is looked up; otherwise one line "id-start-end" per merged occurrence |
| RecurringScheduler.ListingsFirstN | q45-recurrent-meeting-scheduler/solution-1-java/Solution.java:112-120 | in a valid scheduler each listing has min(n, 20 × bookings) lines for n > 0 |
| LiftPlanner.Create | q23_single_lift_system/solution-1-java/LiftSystem.java:36-51 | a lift exists exactly when floors is in 2..100, capacity in 1..20 and maxStops in 1..10; an out-of-range floor count is reported before capacity, capacity before maxStops; both planners start empty |
| LiftPlanner.CountInterior | q23_single_lift_system/solution-1-java/LiftSystem.java:143-147 | the count is the number of halts strictly inside (low, high), which is zero whenever low >= high |
| LiftPlanner.InteriorMonotone | q23_single_lift_system/solution-1-java/LiftSystem.java:104-115 | adding halts never lowers a rider's interior-halt count, so accepting a rider can only tighten the K-stop rule for those already aboard |
| LiftPlanner.StopsOk | q23_single_lift_system/solution-1-java/LiftSystem.java:108-112 | the loop over existing riders passes exactly when every rider passes at most maxStops proposed halts |
| LiftPlanner.Diffs | q23_single_lift_system/solution-1-java/LiftSystem.java:119-125 | entry g of the diff array is the number of riders boarding at g minus the number leaving at g |
| LiftPlanner.LoadStep | q23_single_lift_system/solution-1-java/LiftSystem.java:127-131 | the running sum after floor f equals the number of riders travelling segment (f, f+1) |
| LiftPlanner.SweepIsLoad | q23_single_lift_system/solution-1-java/LiftSystem.java:127-134 | the sweep from segment f returns true exactly when no segment from f to the last carries more than capacity riders |
| LiftPlanner.AcceptStops | q23_single_lift_system/solution-1-java/LiftSystem.java:108-115 | the two K-stop checks together hold exactly when every rider, the new one included, passes at most maxStops halts of the plan with the new floors added |
| LiftPlanner.AcceptCapacity | q23_single_lift_system/solution-1-java/LiftSystem.java:117-134 | the capacity sweep over the diff array with the new rider holds exactly when every segment of the accepted plan carries at most capacity riders |
| LiftPlanner.CanAccept | q23_single_lift_system/solution-1-java/LiftSystem.java:102-135 | canAccept holds exactly when the plan with the rider added satisfies both the K-stop rule and the capacity rule |
| LiftPlanner.Accept | q23_single_lift_system/solution-1-java/LiftSystem.java:137-141 | accepting appends the rider and makes its source and destination halts |
| LiftPlanner.RequestPickup | q23_single_lift_system/solution-1-java/LiftSystem.java:59-71 | a floor outside the building gives false with no change; a same-floor trip gives true with no change; otherwise the up planner (for source < destination) or the down planner accepts exactly when the plan stays feasible, and a rejection leaves the lift unchanged |
| LiftPlanner.CreateValid | q23_single_lift_system/solution-1-java/LiftSystem.java:36-51 | a freshly built lift satisfies the planner invariant |
| LiftPlanner.AcceptOk | q23_single_lift_system/solution-1-java/LiftSystem.java:137-141 | after accepting, a planner's halts are still exactly its riders' pickup and drop floors |
| LiftPlanner.RequestValid | q23_single_lift_system/solution-1-java/LiftSystem.java:59-71 | every request keeps both planners feasible: halts match riders, riders travel in the planner's direction, and both rules hold |
| LiftPlanner.AcceptedWithinStops | q23_single_lift_system/solution-1-java/LiftSystem.java:108-115 | after an accepted request every rider of that direction passes at most maxStops interior halts |
| LiftPlanner.AcceptedWithinCapacity | q23_single_lift_system/solution-1-java/LiftSystem.java:117-132 | after an accepted request no segment carries more than capacity riders of that direction |
| LiftPlanner.AcceptedRiderRecorded | q23_single_lift_system/solution-1-java/LiftSystem.java:66-68 | an accepted request's rider is the last rider of its planner and both its floors are halts |
| LiftSimulation.Create | q24-elevator-single-lift-simulation/solution-1-java/LiftSystem.java:38-50 | a simulation exists exactly when floors is in 2..200 and capacity in 1..20, the floor check first; it starts valid, and its state string is 0-I-0 |
| LiftSimulation.StateRoundTrip | q24-elevator-single-lift-simulation/solution-1-java/LiftSystem.java:90-98 | the state string splits at its dashes into exactly three fields, which parse back to the floor, the direction letter and the riders aboard |
| LiftSimulation.BoardNow | q24-elevator-single-lift-simulation/solution-1-java/LiftSystem.java:140-143 | one more rider aboard; only the drop count of its destination grows, and the total of the drop counts grows by one |
| LiftSimulation.Board | q24-elevator-single-lift-simulation/solution-1-java/LiftSystem.java:160-163 | the loop boards all waiting riders or one per free seat, whichever is fewer |
| LiftSimulation.BoardSum | q24-elevator-single-lift-simulation/solution-1-java/LiftSystem.java:160-163 | the total of the drop counts grows by exactly the number boarded |
| LiftSimulation.BoardDropAt | q24-elevator-single-lift-simulation/solution-1-java/LiftSystem.java:160-163 | each floor's drop count grows by the number of boarded riders headed there |
| LiftSimulation.BoardHere | q24-elevator-single-lift-simulation/solution-1-java/LiftSystem.java:157-164 | the first k riders of the queue for the car's direction board, k being the free seats or the queue length; the rest keep their order; every other queue is untouched |
| LiftSimulation.BoardHereDrops | q24-elevator-single-lift-simulation/solution-1-java/LiftSystem.java:157-164 | the boarded riders are the first k of the queue, each counted at its destination |
| LiftSimulation.AlightHere | q24-elevator-single-lift-simulation/solution-1-java/LiftSystem.java:150-155 | everyone headed for the car's floor leaves: riders aboard drop by that count, the floor's count becomes zero, other floors keep theirs |
| LiftSimulation.ScanUp | q24-elevator-single-lift-simulation/solution-1-java/LiftSystem.java:197-200 | the first floor at or above the start with work, and no floor below it in the scan has work |
| LiftSimulation.ScanDown | q24-elevator-single-lift-simulation/solution-1-java/LiftSystem.java:201-204 | the first floor at or below the start with work, and no floor above it in the scan has work |
| LiftSimulation.Nearest | q24-elevator-single-lift-simulation/solution-1-java/LiftSystem.java:190-209 | the result is idle exactly when no caller at this floor can board and no other floor has work; up without a caller here means work somewhere above |
| LiftSimulation.Move | q24-elevator-single-lift-simulation/solution-1-java/LiftSystem.java:115-117 | up moves one floor unless at the top, down one floor unless at the bottom, idle stays |
| LiftSimulation.Arrive | q24-elevator-single-lift-simulation/solution-1-java/LiftSystem.java:115-133 | moving, alighting, boarding and retargeting keep the state well formed and move the car at most one floor |
| LiftSimulation.Tick | q24-elevator-single-lift-simulation/solution-1-java/LiftSystem.java:100-134 | a tick keeps the state well formed, moves the car at most one floor and leaves it inside the building |
| LiftSimulation.Enqueue | q24-elevator-single-lift-simulation/solution-1-java/LiftSystem.java:145-148 | the rider joins the back of the queue at its start floor for its direction; nothing else changes |
| LiftSimulation.AddRequest | q24-elevator-single-lift-simulation/solution-1-java/LiftSystem.java:54-88 | bad or equal floors are rejected; a same-direction caller the car has passed is rejected; a rider who would board now needs a free seat; otherwise accepted, boarding at once (the car taking the rider's direction) or queued (an idle car heading toward the caller's floor, a moving car keeping its direction); a rejection changes nothing |
| LiftSimulation.AddRequestCounts | q24-elevator-single-lift-simulation/solution-1-java/LiftSystem.java:54-88 | an accepted request adds exactly one rider, aboard or waiting |
| LiftSimulation.EnqueueOk | q24-elevator-single-lift-simulation/solution-1-java/LiftSystem.java:145-148 | queueing a rider headed the right way keeps every queue headed the right way |
| LiftSimulation.AddRequestValid | q24-elevator-single-lift-simulation/solution-1-java/LiftSystem.java:54-88 | requests keep at most capacity riders aboard, riders aboard equal to the sum of the drop counts, and nobody aboard headed for the current floor |
| LiftSimulation.BoardHereSeated | q24-elevator-single-lift-simulation/solution-1-java/LiftSystem.java:157-164 | boarding never exceeds capacity, keeps riders aboard equal to the sum of the drop counts, and adds nobody headed for this floor |
| LiftSimulation.ArriveValid | q24-elevator-single-lift-simulation/solution-1-java/LiftSystem.java:119-133 | after arriving, riders are seated and nobody aboard is headed for the floor the car is on |
| LiftSimulation.TickValid | q24-elevator-single-lift-simulation/solution-1-java/LiftSystem.java:100-134 | ticks keep the invariant |
| CustomCache.PolicyFrom | q48-custom-cache/solution-1-java/Solution.java:57-67 | exactly the two policy names are accepted; any other name is an unknown-policy error naming it |
| CustomCache.Create | q48-custom-cache/solution-1-java/Solution.java:11-15 | a cache is created, empty, exactly when the policy name is known |
| CustomCache.CharWeight | q48-custom-cache/solution-1-java/Solution.java:142-150 | letters of either case weigh 1 to 26; every other character weighs nothing |
| CustomCache.Weight | q48-custom-cache/solution-1-java/Solution.java:138-153 | a key's weight is at most 26 per character |
| CustomCache.WeightIgnoresCase | q48-custom-cache/solution-1-java/Solution.java:143-147 | lower-casing a key does not change its weight |
| CustomCache.Victim | q48-custom-cache/solution-1-java/Solution.java:69-154 | the evicted key is present, and every other key has a smaller length (or weight), or the same one and is not lexicographically smaller |
| CustomCache.SelectKeyToEvict | q48-custom-cache/solution-1-java/Solution.java:73-136 | the best-so-far scan returns nothing for no keys and otherwise the victim, whatever order the keys are visited in |
| CustomCache.Get | q48-custom-cache/solution-1-java/Solution.java:17-20 | a missing key reads as the empty string; a present key reads its stored value |
| CustomCache.Put | q48-custom-cache/solution-1-java/Solution.java:22-35 | an existing key is updated in place; a new key within capacity is added; a new key past capacity is added and then the victim among the keys after insertion is removed |
| CustomCache.NextEvictionKey | q48-custom-cache/solution-1-java/Solution.java:37-41 | the empty string for an empty cache, otherwise the key the policy would evict, without changing the cache |
| CustomCache.Remove | q48-custom-cache/solution-1-java/Solution.java:43-45 | true exactly when the key was present; afterwards it is absent and every other entry is unchanged |
| CustomCache.CreateBounded | q48-custom-cache/solution-1-java/Solution.java:11-15 | a new cache is within its capacity |
| CustomCache.PutBounded | q48-custom-cache/solution-1-java/Solution.java:22-35 | puts and removes never take the cache past its capacity (or past zero entries for a capacity below one) |
| CustomCache.UpdateNeverEvicts | q48-custom-cache/solution-1-java/Solution.java:22-35 | updating an existing key keeps every key, stores the new value, and leaves every other value unchanged |
| CustomCache.NewKeyEvictsOne | q48-custom-cache/solution-1-java/Solution.java:28-34 | a new key past capacity evicts exactly one key, so the entry count is unchanged |
| CustomCache.PutThenGet | q48-custom-cache/solution-1-java/Solution.java:22-35 | a get after a put returns the new value, unless the new key was itself the victim, which happens exactly when it is new, the cache was full and the policy ranks it first |
| CustomCache.NextEvictionKeyPredicts | q48-custom-cache/solution-1-java/Solution.java:37-41 | a new key past capacity evicts exactly the key that nextEvictionKey would name once the key is inserted |
| FileCollections.Create | q37-file-collections/solution-1-java/Solution.java:31-39 | a new tracker has no files, no collections and a zero total |
| FileCollections.CreateConsistent | q37-file-collections/solution-1-java/Solution.java:31-39 | a new tracker's aggregates match its (absent) files |
| FileCollections.Normalize | q37-file-collections/solution-1-java/Solution.java:49-57 | the collection list becomes a set holding exactly its non-empty names |
| FileCollections.RemoveContribution | q37-file-collections/solution-1-java/Solution.java:67-77 | each old collection loses one file and its size, and one left with no file is dropped; other collections are untouched |
| FileCollections.AddContribution | q37-file-collections/solution-1-java/Solution.java:79-84 | each new collection gains one file and its size, and a missing one is created holding just this file; other collections are untouched |
| FileCollections.AddFile | q37-file-collections/solution-1-java/Solution.java:41-101 | an empty name or a non-positive size changes nothing; otherwise the file's record is replaced and the running total changes by the new size minus the old one (or grows by the size for a new file) |
| FileCollections.MembersAfter | q37-file-collections/solution-1-java/Solution.java:86-92 | after re-recording a file, a collection's members are the others plus the file exactly when its new set names the collection |
| FileCollections.SizeAfter | q37-file-collections/solution-1-java/Solution.java:60-89 | re-adding a file takes its old size out of each old collection's total and puts its new size into each new collection's total |
| FileCollections.TotalAfter | q37-file-collections/solution-1-java/Solution.java:64-65 | the sum of all sizes after re-recording a file changes by the new size minus the old one |
| FileCollections.RemoveStep | q37-file-collections/solution-1-java/Solution.java:67-77 | after the old contribution is removed, a collection's entry counts exactly its other members, and it is gone when none is left |
| FileCollections.AddStep | q37-file-collections/solution-1-java/Solution.java:79-99 | after the new contribution is added, a collection's entry counts exactly its members again |
| FileCollections.EntryAfter | q37-file-collections/solution-1-java/Solution.java:59-100 | re-recording one file keeps each collection's count and total size equal to those of its member files |
| FileCollections.AddFileConsistent | q37-file-collections/solution-1-java/Solution.java:41-101 | addFile keeps the running total equal to the sum of all file sizes, and lists a collection exactly when it has a file, with its file count and total size |
| FileCollections.TotalFileSize | q37-file-collections/solution-1-java/Solution.java:103-108 | the total clamped to 0 .. 2147483647 |
| FileCollections.TotalIsSum | q37-file-collections/solution-1-java/Solution.java:103-108 | the reported total is the sum of the file sizes, capped at 2147483647 (it is never clamped at zero) |
| FileCollections.Ranked | q37-file-collections/solution-1-java/Solution.java:110-142 | every collection, each once, ordered by the strategy's metric descending and then by name |
| FileCollections.TopCollections | q37-file-collections/solution-1-java/Solution.java:110-146 | at most ten collections, in ranking order, and every collection left out ranks after every one listed |
| ShoppingCart.ParseRow | q41-shopping-cart/solution-1-java/Solution.java:34-50 | a blank row or one without exactly three fields is skipped; an item row has a comma-free id and two 32-bit numbers |
| ShoppingCart.ParseFormat | q41-shopping-cart/solution-1-java/Solution.java:34-51 | a row printed from an id and two 32-bit numbers reads back as exactly that item |
| ShoppingCart.LastEntryIsLastRow | q41-shopping-cart/solution-1-java/Solution.java:30-52 | an id's catalog entry comes from the last item row naming it, and it has none when no row names it |
| ShoppingCart.CollectFails | q41-shopping-cart/solution-1-java/Solution.java:48-49 | reading the catalog fails exactly when some row has a bad number, and reports the first such row |
| ShoppingCart.CollectKeepsLast | q41-shopping-cart/solution-1-java/Solution.java:51 | after reading, each id maps to the item of its last row (a later `put` replaces an earlier one) |
| ShoppingCart.Create | q41-shopping-cart/solution-1-java/Solution.java:25-54 | the constructor succeeds exactly when the catalog reads, and starts with an empty cart |
| ShoppingCart.CreateReadsCatalog | q41-shopping-cart/solution-1-java/Solution.java:25-54 | a new cart fails on a row with a bad number; otherwise its catalog holds each id's last row and its cart is empty |
| ShoppingCart.AddItem | q41-shopping-cart/solution-1-java/Solution.java:56-76 | an unknown id is UNAVAILABLE, too little stock is OUT OF STOCK, both changing nothing; otherwise the units leave the stock and join the cart |
| ShoppingCart.AddItemConserves | q41-shopping-cart/solution-1-java/Solution.java:64-73 | adding never changes an id's stock-plus-cart units nor any price |
| ShoppingCart.ViewCart | q41-shopping-cart/solution-1-java/Solution.java:78-94 | the view has one line per item in the cart |
| ShoppingCart.ViewCartReadsBack | q41-shopping-cart/solution-1-java/Solution.java:84-91 | the view lists each cart id once in increasing order, and each line splits back into that id and its count |
| ShoppingCart.Wrap32 | q41-shopping-cart/solution-1-java/Solution.java:101-108 | Java `int` arithmetic: in range, exact for in-range values, and congruent to the exact value modulo 2^32 |
| ShoppingCart.Checkout | q41-shopping-cart/solution-1-java/Solution.java:96-116 | an empty cart gives -1 and changes nothing; otherwise the cart's value in `int` arithmetic, the cart emptied, the stock left reduced |
| ShoppingCart.AddItemValue | q41-shopping-cart/solution-1-java/Solution.java:68-73 | a successful add raises the value checkout charges by price times count |
| Trading.AddUser | q20_stock_trading/solution-1-java/TradingService.java:14-16 | a new user starts with the opening cash and nothing else; an existing user is left untouched |
| Trading.Balance | q20_stock_trading/solution-1-java/TradingService.java:19-22 | the user's cash, and 0 for an unknown user |
| Trading.ApplyBuy | q20_stock_trading/solution-1-java/TradingService.java:194-209 | a buy costs qty·price, adds qty shares of that stock only, and appends the stock to the first-acquisition list only the first time |
| Trading.ApplySell | q20_stock_trading/solution-1-java/TradingService.java:211-222 | a sell pays qty·price; the shares go only when the user holds enough, a holding sold to zero disappears, and the first-acquisition list never changes |
| Trading.FillConservesWorth | q20_stock_trading/solution-1-java/TradingService.java:194-222 | a fill is a trade at the fill price: cash plus shares valued at that price is unchanged |
| Trading.HandleMarket | q20_stock_trading/solution-1-java/TradingService.java:95-117 | a market buy fills exactly when cash covers qty·price, a market sell exactly when the user holds qty; it is never OPEN, and the order is recorded with limit 0 |
| Trading.HandleLimit | q20_stock_trading/solution-1-java/TradingService.java:119-146 | a limit order is rejected exactly when the user cannot cover it at the current price, filled at that price exactly when it is also favourable, and OPEN otherwise |
| Trading.Track | q20_stock_trading/solution-1-java/TradingService.java:147-150 | an OPEN order's reference is appended to its stock's queue, other queues untouched |
| Trading.Submit | q20_stock_trading/solution-1-java/TradingService.java:41-66 | an unknown user is rejected with nothing recorded; an unknown stock or a quantity of at most 0 records a REJECTED order; otherwise the market handler, or the limit handler at the current price, decides the status and the user's new state, and an OPEN limit order is queued on its stock under the index it was recorded at; only that user changes, and the queues change exactly when the order is OPEN |
| Trading.SubmitValid | q20_stock_trading/solution-1-java/TradingService.java:41-152 | placing any order keeps holdings positive, queues naming only OPEN orders of their stock, and every OPEN order queued |
| Trading.VisitDecides | q20_stock_trading/solution-1-java/TradingService.java:160-190 | on a price update a queued order fills, and leaves the queue, exactly when the new price favours it and the user can still cover it; otherwise nothing changes |
| Trading.FillPassEffect | q20_stock_trading/solution-1-java/TradingService.java:155-192 | the pass over a stock's queue marks FILLED exactly the orders it drops, each favoured by the new price, and leaves every other order unchanged |
| Trading.AutoFill | q20_stock_trading/solution-1-java/TradingService.java:155-192 | a price update touches only that stock's queue, which may shrink but never gains an entry |
| Trading.AutoFillValid | q20_stock_trading/solution-1-java/TradingService.java:155-192 | a price update keeps the service invariant |
| Trading.AutoFillKeepsUnfavorable | q20_stock_trading/solution-1-java/TradingService.java:169-171 | an order the new price does not favour stays OPEN and queued; an order that leaves the queue is FILLED and was favoured |
| Trading.AddStock | q20_stock_trading/solution-1-java/TradingService.java:25-29 | a new stock joins the end of the listing, an existing one keeps its place, and the price is the latest one |
| Trading.AddStockValid | q20_stock_trading/solution-1-java/TradingService.java:25-29 | adding or repricing a stock keeps the service invariant |
| Trading.ShowStocks | q20_stock_trading/solution-1-java/TradingService.java:32-38 | one line per listed stock in first-added order, line i being the stock name, a space and its latest price |
| Trading.HeldInOrder | q20_stock_trading/solution-1-java/TradingService.java:73-78 | exactly the stocks with a positive holding that appear in the first-acquisition list |
| Trading.HeldInOrderOrdered | q20_stock_trading/solution-1-java/TradingService.java:73-78 | the held stocks are listed in first-acquisition order |
| Trading.SubmitKeepsAcquisitionOrder | q20_stock_trading/solution-1-java/TradingService.java:199-202 | the first-acquisition list only ever grows at its end |
| Trading.SellOutKeepsPlace | q20_stock_trading/solution-1-java/TradingService.java:217-220 | a stock sold down to zero leaves the holdings, and buying it again keeps its original place |
| Trading.ViewHoldings | q20_stock_trading/solution-1-java/TradingService.java:69-80 | an unknown user sees no holdings; otherwise one line per stock of HeldInOrder over the first-acquisition list, in that order, each the stock name, a space and the shares held |
| Trading.ViewOrders | q20_stock_trading/solution-1-java/TradingService.java:83-91 | one line per placed order in placement order, line i being "stock ACTION qty KIND STATUS" of order i, and none for an unknown user |
| Wallet.Register | q42-payment-wallet/solution-1-java/Solution.java:29-38 | a new user starts with balance 0 and no deposit; registering again changes nothing |
| Wallet.Balance | q42-payment-wallet/solution-1-java/Solution.java:112-118 | the balance, and -1 for an unknown user |
| Wallet.AddMoney | q42-payment-wallet/solution-1-java/Solution.java:40-49 | an unknown user changes nothing; otherwise only the balance grows, the deposit untouched |
| Wallet.Interest | q42-payment-wallet/solution-1-java/Solution.java:142-143 | the interest is 5% of the threshold rounded half up |
| Wallet.InterestIsNearest | q42-payment-wallet/solution-1-java/Solution.java:142-143 | no integer is closer to 5% of the threshold than the interest |
| Wallet.AfterDebit | q42-payment-wallet/solution-1-java/Solution.java:124-149 | no active deposit: nothing changes; a balance below the threshold breaks the deposit with no interest; the balance changes at most by the interest |
| Wallet.AfterDebitCredits | q42-payment-wallet/solution-1-java/Solution.java:137-148 | a debit credits exactly the interest due, which is due only on the fifth counted debit, and then the deposit is no longer active |
| Wallet.AfterDebitOk | q42-payment-wallet/solution-1-java/Solution.java:138-147 | an active deposit never has five counted debits |
| Wallet.DebitsCount | q42-payment-wallet/solution-1-java/Solution.java:130-148 | debits that keep the balance at or above the threshold are each counted, and the fifth credits the interest once and completes the deposit |
| Wallet.Spend | q42-payment-wallet/solution-1-java/Solution.java:51-64 | an unknown user or a balance below the amount changes nothing; otherwise the amount is debited with the deposit rules |
| Wallet.Transfer | q42-payment-wallet/solution-1-java/Solution.java:66-89 | the sender is checked first, then the receiver, then the balance; on success the sender's account is debited by the amount with the deposit rules applied, and the receiver's balance then grows by the amount (on the already-debited account when they are the same user); no other account changes |
| Wallet.TransferConserves | q42-payment-wallet/solution-1-java/Solution.java:81-86 | a successful transfer keeps the wallet's total, apart from the interest the sender's debit makes due |
| Wallet.SpendLowersTotal | q42-payment-wallet/solution-1-java/Solution.java:60-62 | a successful spend lowers the wallet's total by the amount, apart from interest made due |
| Wallet.TransferToSelf | q42-payment-wallet/solution-1-java/Solution.java:82-86 | a transfer to oneself keeps the balance apart from interest but still counts as a debit |
| Wallet.CreateDeposit | q42-payment-wallet/solution-1-java/Solution.java:91-110 | the user must exist and hold the amount, and a second active deposit is refused; the amount is not deducted |
| Wallet.OperationsValid | q42-payment-wallet/solution-1-java/Solution.java:124-149 | every operation keeps each active deposit below five counted debits |
| CarRental.AddCar | q21_car_rental/solution-1-java/CarRentalService.java:63-67 | a blank plate or a negative rate changes nothing; a plate already present keeps its first car; otherwise the car is added under its plate |
| CarRental.Overlaps | q21_car_rental/solution-1-java/CarRentalService.java:143-146 | ranges that do not overlap share no day; two non-empty ranges that overlap share a day |
| CarRental.OverlapsSymmetric | q21_car_rental/solution-1-java/CarRentalService.java:143-146 | overlap does not depend on the order of the two ranges |
| CarRental.OverlapsShrink | q21_car_rental/solution-1-java/CarRentalService.java:143-146 | ending a range earlier can only remove overlaps |
| CarRental.OccupiedEnd | q21_car_rental/solution-1-java/CarRentalService.java:132-141 | the car is held through the actual end day once the trip has ended, else through the booked last day |
| CarRental.FirmEnd | q21_car_rental/solution-1-java/CarRentalService.java:132-141 | the day a booking holds for certain is never after the booked or the occupied end |
| CarRental.Scan | q21_car_rental/solution-1-java/CarRentalService.java:79-87 | the scan finds an overlap exactly when some listed booking's occupied range overlaps the request |
| CarRental.BookCar | q21_car_rental/solution-1-java/CarRentalService.java:69-93 | false and no change for a blank id or plate, an unknown car, a reused order id, an end before the start, or an overlap; otherwise the booking is recorded and appended to the car's list |
| CarRental.ScanFindsClash | q21_car_rental/solution-1-java/CarRentalService.java:81-91 | scanning the car's list finds exactly the overlaps of any booking of that car |
| CarRental.BookCarAccepts | q21_car_rental/solution-1-java/CarRentalService.java:69-93 | on a valid service a booking is accepted exactly when it passes the checks and overlaps no booking of its car |
| CarRental.StartTrip | q21_car_rental/solution-1-java/CarRentalService.java:95-99 | a known order records the reading and nothing else changes; an unknown order changes nothing |
| CarRental.DaysCharged | q21_car_rental/solution-1-java/CarRentalService.java:111-113 | the charged days run inclusively to the later of the booked and the actual end |
| CarRental.TripKms | q21_car_rental/solution-1-java/CarRentalService.java:114-115 | the distance is never negative and is zero without a start reading |
| CarRental.CostWithinAllowance | q21_car_rental/solution-1-java/CarRentalService.java:117-120 | a trip within the free allowance costs exactly the daily charge |
| CarRental.CostBeyondAllowance | q21_car_rental/solution-1-java/CarRentalService.java:117-120 | beyond the allowance each kilometre costs the kilometre rate |
| CarRental.CostBounds | q21_car_rental/solution-1-java/CarRentalService.java:117-120 | the cost lies between the daily charge and the daily charge plus every kilometre, and does not fall as the distance grows |
| CarRental.EndTrip | q21_car_rental/solution-1-java/CarRentalService.java:101-128 | -1 for an unknown order, the cached cost with no change for an ended trip, otherwise the charge recorded with the end day and odometer |
| CarRental.EndTripIdempotent | q21_car_rental/solution-1-java/CarRentalService.java:102-107 | a second endTrip returns the first one's cost and changes nothing, whatever its arguments |
| CarRental.EndTripMovesHold | q21_car_rental/solution-1-java/CarRentalService.java:122-123 | after endTrip the car is held through the actual end day; an early end frees the rest of the booked days |
| CarRental.ChargedDays | q21_car_rental/solution-1-java/CarRentalService.java:110-113 | an early return still pays every booked day; a late one pays through the actual end |
| CarRental.ValidCarsKnown | q21_car_rental/solution-1-java/CarRentalService.java:72 | every booking's car is known |
| CarRental.EmptyValid | q21_car_rental/solution-1-java/CarRentalService.java:55-59 | the empty service satisfies the invariant |
| CarRental.AddCarValid | q21_car_rental/solution-1-java/CarRentalService.java:63-67 | adding a car keeps the invariant |
| CarRental.BookCarValid | q21_car_rental/solution-1-java/CarRentalService.java:69-93 | booking keeps the invariant: the by-car lists index every booking and bookings of a car stay apart |
| CarRental.SameDatesValid | q21_car_rental/solution-1-java/CarRentalService.java:95-99 | changing only start readings keeps the invariant |
| CarRental.StartTripValid | q21_car_rental/solution-1-java/CarRentalService.java:95-99 | startTrip keeps the invariant |
| CarRental.ChargeNonNegative | q21_car_rental/solution-1-java/CarRentalService.java:113-120 | with non-negative rates a trip never costs less than zero |
| CarRental.EndTripValid | q21_car_rental/solution-1-java/CarRentalService.java:101-128 | endTrip keeps the invariant: a trip's certain hold only moves earlier |
| CarRental.NoDoubleBooking | q21_car_rental/solution-1-java/CarRentalService.java:79-87 | no day is held for certain by two bookings of one car |
| CarRental.OpenBookingsDisjoint | q21_car_rental/solution-1-java/CarRentalService.java:79-87 | bookings of one car whose trips have not ended share no booked day |
| Leaderboard.Team | q31-leaderboard/solution-1-java/Solution.java:59 | the team holds exactly the listed players, repeats dropped |
| Leaderboard.Dedup | q31-leaderboard/solution-1-java/Solution.java:59 | the copy lists each listed player once |
| Leaderboard.AddUser | q31-leaderboard/solution-1-java/Solution.java:57-78 | the user's team replaces any earlier one, each listed player's reverse index gains the user, and the user is filed in the ranking under the sum of the team's current player scores |
| Leaderboard.AddScore | q31-leaderboard/solution-1-java/Solution.java:85-109 | the player's score and the score of every user in its reverse index move by the delta, and those users' entries are refiled under the new scores; nothing else changes |
| Leaderboard.BeforeTotal | q31-leaderboard/solution-1-java/Solution.java:39-47 | the ranking comparator orders any two different entries |
| Leaderboard.BeforeStrict | q31-leaderboard/solution-1-java/Solution.java:39-47 | the ranking comparator is irreflexive and transitive |
| Leaderboard.FirstExists | q31-leaderboard/solution-1-java/Solution.java:39-47 | every non-empty ranking has a first entry |
| Leaderboard.Listing | q31-leaderboard/solution-1-java/Solution.java:115-123 | the ranking is iterated once per entry, in comparator order |
| Leaderboard.TopK | q31-leaderboard/solution-1-java/Solution.java:115-123 | a negative k is an error; otherwise at most k ids, fewer only when the ranking runs out, each the id of a ranking entry |
| Leaderboard.TopKUsers | q31-leaderboard/solution-1-java/Solution.java:116-121 | getTopK reads the first min(k, size) entries of the ranking |
| Leaderboard.EmptyValid | q31-leaderboard/solution-1-java/Solution.java:49-51 | the empty board satisfies the invariant |
| Leaderboard.AddUserValid | q31-leaderboard/solution-1-java/Solution.java:57-78 | registering a new user keeps the reverse index, the score sums and the ranking consistent |
| Leaderboard.AddUserFans | q31-leaderboard/solution-1-java/Solution.java:62-65 | the reverse index still lists exactly the users whose teams hold each player |
| Leaderboard.AddUserScores | q31-leaderboard/solution-1-java/Solution.java:67-72 | every user's score is still the sum of the team's player scores |
| Leaderboard.AddUserRanking | q31-leaderboard/solution-1-java/Solution.java:74-77 | the ranking still holds one entry per user under the user's score |
| Leaderboard.TeamSumAfterScore | q31-leaderboard/solution-1-java/Solution.java:85-99 | a team's sum moves by the delta exactly when the team holds the player |
| Leaderboard.AddScoreKeys | q31-leaderboard/solution-1-java/Solution.java:96-99 | a score change registers no new user |
| Leaderboard.AddScoreScores | q31-leaderboard/solution-1-java/Solution.java:85-99 | after a score change every user's score is still the sum of the team's player scores |
| Leaderboard.AddScoreRanking | q31-leaderboard/solution-1-java/Solution.java:101-107 | after a score change the ranking still holds one entry per user under the user's score |
| Leaderboard.AddScoreValid | q31-leaderboard/solution-1-java/Solution.java:85-109 | adding to a player's score keeps the invariant |
| Leaderboard.NewUserScore | q31-leaderboard/solution-1-java/Solution.java:53-72 | a new user starts at the sum of the team's current player scores, points earned earlier included |
| Leaderboard.AddScoreReaches | q31-leaderboard/solution-1-java/Solution.java:80-99 | a score change reaches exactly the users whose teams hold the player |
| Leaderboard.TopKIsBest | q31-leaderboard/solution-1-java/Solution.java:111-123 | on a valid board getTopK lists registered users by score descending then id ascending, at most k, and leaves a user out only when k users rank ahead |
| Leaderboard.TopKOrdered | q31-leaderboard/solution-1-java/Solution.java:115-123 | the listed users are registered and in ranking order |
| Leaderboard.ListingOfValid | q31-leaderboard/solution-1-java/Solution.java:39-47 | on a valid board the ranking holds every user once under the user's score |
| Leaderboard.LeftOut | q31-leaderboard/solution-1-java/Solution.java:115-123 | a registered user left out of getTopK comes after k listed users |
| Leaderboard.TopKDistinct | q31-leaderboard/solution-1-java/Solution.java:115-123 | no user is listed twice on a valid board |
| Leaderboard.ReRegistering | q31-leaderboard/solution-1-java/Solution.java:57-78 | registering a user id again leaves the old ranking entry and reverse index, so getTopK lists the user twice and a former player's score still reaches the user |
| FileFinder.AddFile | q15_unix_find_predicates/solution-1-java/FileFinder.java:16-18 | after addFile the path has the given size and every other path keeps its presence and size |
| FileFinder.IsUnderDir | q15_unix_find_predicates/solution-1-java/FileFinder.java:122-128 | "/" holds exactly the paths starting with a slash; another directory holds the paths starting with it plus a slash, the slash not doubled when the directory already ends with one |
| FileFinder.TrailingSlashIgnored | q15_unix_find_predicates/solution-1-java/FileFinder.java:126-127 | writing a directory with or without a trailing slash selects the same paths |
| FileFinder.SiblingNotUnder | q15_unix_find_predicates/solution-1-java/FileFinder.java:116-128 | a directory does not hold a sibling whose name extends its own ("/app/logs2" is not under "/app/logs") but holds its children |
| FileFinder.UnderSubdirectory | q15_unix_find_predicates/solution-1-java/FileFinder.java:116-128 | whatever a subdirectory holds, its parent directory holds too (the check is recursive) |
| FileFinder.MatchesMeaning | q15_unix_find_predicates/solution-1-java/FileFinder.java:94-114 | a rule selects exactly the table's files under its directory that are strictly larger than the minimum (rule 1) or whose path ends with the extension, case-sensitively (rule 2) |
| FileFinder.RuleSelectsFiles | q15_unix_find_predicates/solution-1-java/FileFinder.java:94-114 | a rule only ever selects paths of the table |
| FileFinder.TrimAllAt | q15_unix_find_predicates/solution-1-java/FileFinder.java:130-135 | field k of splitAndTrim's output is field k of the comma split, trimmed |
| FileFinder.ParseRuleCases | q15_unix_find_predicates/solution-1-java/FileFinder.java:72-92 | fewer than three fields is an invalid rule; a rule id, or a rule 1 size, that is not a 32-bit number is a number error; an id other than 1 or 2 is unknown; otherwise the rule has the second field as its directory and the third as its size or extension, and further fields are ignored |
| FileFinder.CleanFields | q15_unix_find_predicates/solution-1-java/FileFinder.java:130-135 | three comma-free, already-trimmed fields joined by commas split and trim back into exactly those three fields |
| FileFinder.ParseFormat | q15_unix_find_predicates/solution-1-java/FileFinder.java:72-92 | a rule written as "id,dir,arg" with clean fields and a 32-bit size parses back to the same rule |
| FileFinder.EvaluateAllOk | q15_unix_find_predicates/solution-1-java/FileFinder.java:37-41 | evaluating the rule list succeeds exactly when every rule does, and then holds each rule's result at its position |
| FileFinder.EvaluateAllFirstError | q15_unix_find_predicates/solution-1-java/FileFinder.java:37-41 | a failed evaluation reports the error of the first rule that fails, every earlier rule having succeeded |
| FileFinder.ResultsAreFiles | q15_unix_find_predicates/solution-1-java/FileFinder.java:37-41 | every rule result of a successful evaluation lies within the file table |
| FileFinder.ToUpper | q15_unix_find_predicates/solution-1-java/FileFinder.java:46 | upper-casing keeps the length and maps each character through the ASCII upper-case mapping |
| FileFinder.ParseOpNames | q15_unix_find_predicates/solution-1-java/FileFinder.java:46-61 | an operator is AND, OR or AND NOT exactly when its trimmed, upper-cased text is that name, and is unsupported otherwise |
| FileFinder.Combine | q15_unix_find_predicates/solution-1-java/FileFinder.java:49-58 | AND keeps the paths in both sets, OR those in either, AND NOT those in the first but not the second |
| FileFinder.ParseOps | q15_unix_find_predicates/solution-1-java/FileFinder.java:45-61 | the first n operators parse exactly when each exists and is supported, in order; otherwise the error names the first missing or unsupported one |
| FileFinder.Fold | q15_unix_find_predicates/solution-1-java/FileFinder.java:43-62 | the left-to-right fold holds exactly the paths selected by the results combined as (((r1 op0 r2) op1 r3) ...) |
| FileFinder.RunQuery | q15_unix_find_predicates/solution-1-java/FileFinder.java:33-68 | no rules give no paths; a bad rule is reported before any operator is read; then the first missing or unsupported operator is the error; otherwise the answer is the selected paths, each once, in strictly ascending order, every one of them in some rule's result |
| FileFinder.SelectedInSome | q15_unix_find_predicates/solution-1-java/FileFinder.java:43-62 | every path the fold selects is in one of the rule results |
| FileFinder.OrIsUnion | q15_unix_find_predicates/solution-1-java/FileFinder.java:53-55 | a query whose operators are all OR answers the union of the rule results |
| FileFinder.AndIsIntersection | q15_unix_find_predicates/solution-1-java/FileFinder.java:50-52 | a query whose operators are all AND answers the intersection of the rule results |
| Common.MapUntilErrorOk | q15_unix_find_predicates/solution-1-java/FileFinder.java:37-41 | mapping a fallible function over a list succeeds exactly when it succeeds on every element, holding each element's value in order |
| Common.MapUntilErrorFirst | q15_unix_find_predicates/solution-1-java/FileFinder.java:37-41 | a failed map reports the error of the first element that fails |
| DispatchCredits.NeedMeaning | q66-warehouse-dispatch-credits/solution-1-java/Solution.java:33-39 | for a non-negative inventory and positive dispatch sizes, the last round falls in [1, a+b] and is congruent to the inventory modulo a+b, and the skip count is the least number of extra dispatches of `a` that reaches it: need*a < last round <= (need+1)*a |
| DispatchCredits.Costs | q66-warehouse-dispatch-credits/solution-1-java/Solution.java:30-40 | one skip count per warehouse, in inventory order, each the skips that warehouse needs |
| DispatchCredits.TakePrefix | q66-warehouse-dispatch-credits/solution-1-java/Solution.java:44-53 | every prefix of the costs up to the greedy count fits the skip budget, and the next longer prefix, if any, does not |
| DispatchCredits.MaxCredits | q66-warehouse-dispatch-credits/solution-1-java/Solution.java:21-56 | a zero dispatch divisor with a non-empty inventory is the division error; otherwise the credits are at most the number of warehouses and equal the greedy count over the ascending skip costs |
| DispatchCredits.CountCredits | q66-warehouse-dispatch-credits/solution-1-java/Solution.java:44-55 | the loop's credit count fits the budget with every shorter prefix and overruns it with the next cost |
| DispatchCredits.CountIsTake | q66-warehouse-dispatch-credits/solution-1-java/Solution.java:44-53 | any count with those two properties is exactly the greedy count, so the loop and the recursive definition agree |
| DispatchCredits.GreedyIsOptimal | q66-warehouse-dispatch-credits/solution-1-java/Solution.java:18-19 | over ascending non-negative costs, any set of distinct warehouses larger than the greedy count costs more skips than the budget |
| DispatchCredits.MaxCreditsOptimal | q66-warehouse-dispatch-credits/solution-1-java/Solution.java:18-56 | no choice of more warehouses than `maxCredits` returns can be won within the skip budget, for non-negative inventories and positive dispatch sizes |
| StorageEfficiency.MinSeg | q64-maximum-storage-efficiency/solution-1-java/Solution.java:12-15 | the least segment count, or `Integer.MAX_VALUE` for an empty list: at most every element and equal to one of them unless the list is empty |
| StorageEfficiency.Units | q64-maximum-storage-efficiency/solution-1-java/Solution.java:25-26 | one unit count per task: the task's segments divided by the target, rounded down |
| StorageEfficiency.CountUnits | q64-maximum-storage-efficiency/solution-1-java/Solution.java:24-30 | the early-stopping units loop reaches `m` exactly when the target is feasible |
| StorageEfficiency.FeasibleMeaning | q64-maximum-storage-efficiency/solution-1-java/Solution.java:9-11 | for non-negative segment counts, a target is feasible exactly when the tasks split into at least `m` units in total |
| StorageEfficiency.FeasibleMonotone | q64-maximum-storage-efficiency/solution-1-java/Solution.java:32-37 | a smaller target stays feasible when a larger one is, which is what lets the binary search discard a half |
| StorageEfficiency.MaxStorageEfficiency | q64-maximum-storage-efficiency/solution-1-java/Solution.java:17-40 | the answer is at least 1; when target 1 is feasible and in range the answer is feasible, at most the least segment count, and either equal to it or followed by an infeasible target; any answer other than the starting 1 has that property too |
| StorageEfficiency.LargestFeasible | q64-maximum-storage-efficiency/solution-1-java/Solution.java:9-11 | such an answer is the largest feasible target: nothing above it, up to the least segment count, is feasible |
| StorageEfficiency.NothingFeasible | q64-maximum-storage-efficiency/solution-1-java/Solution.java:17-40 | when target 1 is infeasible, so is every target, and the returned 1 is a fallback, not a feasible answer |
| ArithmeticSubarray.RunEndSteady | q62-contiguous-arthimetic-progression/solution-1-java/Solution.java:16-24 | `left[i]` is between 1 and i+1 (at least 2 from the second element on) and the stretch of that length ending at i has one common difference |
| ArithmeticSubarray.RunEndLongest | q62-contiguous-arthimetic-progression/solution-1-java/Solution.java:16-24 | no stretch ending at i with one common difference is longer than `left[i]` |
| ArithmeticSubarray.RunStartBounds | q62-contiguous-arthimetic-progression/solution-1-java/Solution.java:26-34 | `right[i]` is between 1 and n-i, and at least 2 up to the second-to-last element |
| ArithmeticSubarray.RunStartSteady | q62-contiguous-arthimetic-progression/solution-1-java/Solution.java:26-34 | the stretch of length `right[i]` starting at i has one common difference |
| ArithmeticSubarray.RunStartLongest | q62-contiguous-arthimetic-progression/solution-1-java/Solution.java:26-34 | no stretch starting at i with one common difference is longer than `right[i]` |
| ArithmeticSubarray.RunAsItStands | q62-contiguous-arthimetic-progression/solution-1-java/Solution.java:36-37 | each `left[i]` is achievable with at most one replacement (here none) |
| ArithmeticSubarray.ExtendRight | q62-contiguous-arthimetic-progression/solution-1-java/Solution.java:41-46 | replacing the element after a run extends it by one: `left[i-1] + 1` is achievable |
| ArithmeticSubarray.ExtendLeft | q62-contiguous-arthimetic-progression/solution-1-java/Solution.java:40-47 | replacing the element before a run extends it by one: `right[i+1] + 1` is achievable |
| ArithmeticSubarray.JoinLeft | q62-contiguous-arthimetic-progression/solution-1-java/Solution.java:51-58 | once `a[i]` becomes the midpoint of its neighbours, the `l` elements before it, the midpoint and `a[i+1]` have one common difference |
| ArithmeticSubarray.JoinRight | q62-contiguous-arthimetic-progression/solution-1-java/Solution.java:51-63 | once `a[i]` becomes the midpoint, it and the `r` elements from `a[i+1]` on have one common difference, and they fit in the list |
| ArithmeticSubarray.MergeJoins | q62-contiguous-arthimetic-progression/solution-1-java/Solution.java:49-66 | when the neighbours of `a[i]` differ by an even amount, the merged length `l + 1 + r` is achievable by replacing `a[i]` |
| ArithmeticSubarray.LongestArithmetic | q62-contiguous-arthimetic-progression/solution-1-java/Solution.java:9-70 | up to two values answer their own count; the answer never exceeds n; it is at least one more than any stretch with a common difference, capped at n; and it is always achievable with at most one replacement |
| ArithmeticSubarray.LongestRun | q62-contiguous-arthimetic-progression/solution-1-java/Solution.java:36-37 | the no-change maximum is at least 1, at least every `left[i]`, and achievable |
| ArithmeticSubarray.TryChanges | q62-contiguous-arthimetic-progression/solution-1-java/Solution.java:40-67 | the candidate loop never lowers the answer, keeps it achievable, and leaves it above every `left[i-1]` and `right[i+1]` it visits |
| ArithmeticSubarray.TryAt | q62-contiguous-arthimetic-progression/solution-1-java/Solution.java:44-66 | one middle position raises the answer to at least `left[i-1] + 1` and `right[i+1] + 1`, keeping it achievable |
| ArithmeticSubarray.BetterOf | q62-contiguous-arthimetic-progression/solution-1-java/Solution.java:37-65 | the maximum of two achievable lengths is achievable, which is what each `Math.max` relies on |
| ArithmeticSubarray.Shorter | q62-contiguous-arthimetic-progression/solution-1-java/Solution.java:69 | a shorter length than an achievable one is achievable, so capping at n keeps the answer achievable |
| ArithmeticSubarray.AllRunsCovered | q62-contiguous-arthimetic-progression/solution-1-java/Solution.java:36-69 | with the candidates the loops have taken, every stretch with a common difference, lengthened by one and capped at n, is at most the capped answer |
| TransactionValues.Replace | q61-replace-transaction-values/solution-1-java/Solution.java:22-46 | a transaction keeps the length and turns every occurrence of the old value into the new one, leaving every other entry as it was |
| TransactionValues.ReplaceSum | q61-replace-transaction-values/solution-1-java/Solution.java:40-42 | replacing a value changes the sum by (new - old) times the number of its occurrences |
| TransactionValues.ReplaceCount | q61-replace-transaction-values/solution-1-java/Solution.java:44-46 | for distinct old and new values, the old value no longer occurs, the new value occurs as often as both did, and every other count is unchanged |
| TransactionValues.ReplaceNoop | q61-replace-transaction-values/solution-1-java/Solution.java:26-36 | a transaction whose values are equal, or whose old value does not occur, leaves the entries unchanged |
| TransactionValues.Tally | q61-replace-transaction-values/solution-1-java/Solution.java:10-18 | the opening pass yields the sum of the entries and, for every value, its number of occurrences (absent values count zero) |
| TransactionValues.Step | q61-replace-transaction-values/solution-1-java/Solution.java:22-48 | one transaction on the running sum and frequency map yields the sum and the counts of the entries after the replacement |
| TransactionValues.SumsAfterTransactions | q61-replace-transaction-values/solution-1-java/Solution.java:9-52 | one sum per transaction, the i-th being the sum of the entries after applying the first i+1 replacements in order |
| TransactionValues.TransactionDelta | q61-replace-transaction-values/solution-1-java/Solution.java:40-42 | each reported sum differs from the previous one by (new - old) times the occurrences of the old value before that transaction |
| TransactionLogs.ParseLogCases | q60-amazon-transaction-logs/solution-1-java/Solution.java:16-25 | a blank line is skipped; a line is skipped exactly when it has fewer than two whitespace-separated fields; a read line yields its first two fields as numbers; otherwise the first of them that is not a number is the error |
| TransactionLogs.ParseWritten | q60-amazon-transaction-logs/solution-1-java/Solution.java:20-25 | a line written as "sender recipient amount" reads back as that sender and recipient |
| TransactionLogs.TallyCounts | q60-amazon-transaction-logs/solution-1-java/Solution.java:27-33 | each user's count is the number of transactions it takes part in, a self-transaction counting once, and a user is in the map exactly when it took part in one |
| TransactionLogs.ProcessLogs | q60-amazon-transaction-logs/solution-1-java/Solution.java:9-53 | a line with a non-numeric id fails the call with that id; otherwise the result is the qualifying ids, sorted, printed in decimal |
| TransactionLogs.ProcessLogsMeaning | q60-amazon-transaction-logs/solution-1-java/Solution.java:36-45 | the listed ids are strictly ascending and are exactly the users that took part in at least one transaction and in at least `threshold` of them |
| TransactionLogs.ProcessLogsFirstError | q60-amazon-transaction-logs/solution-1-java/Solution.java:13-25 | a failing call reports the error of the first line that fails to parse, every line before it having parsed |
| MedianSubsequences.MaxMinMedian | q50-median-subsequences/solution-1-java/Solution.java:9-29 | k outside [1, n] is the argument error; otherwise the maximum median is the (k/2+1)-th largest value and the minimum median the ((k-1)/2)-th smallest |
| MedianSubsequences.MediansOfExtremes | q50-median-subsequences/solution-1-java/Solution.java:21-26 | the two answers are the medians of the k largest and of the k smallest values |
| MedianSubsequences.MediansAreValues | q50-median-subsequences/solution-1-java/Solution.java:21-28 | both answers are among the input values and the minimum median is at most the maximum median |
| MedianSubsequences.ExtremeMedians | q50-median-subsequences/solution-1-java/Solution.java:21-26 | in an ascending list, the median of the first k elements sits at (k-1)/2 and that of the last k at n-(k/2+1), the first no greater than the second |
| ProperSubstrings.FillSorted | q57-proper-substrings/solution-1-java/Solution.java:60-72 | the counting-sort output is in non-decreasing order and holds only letters from the current one on |
| ProperSubstrings.FillCount | q57-proper-substrings/solution-1-java/Solution.java:60-72 | the counting-sort output holds each letter from the current one on as often as the input does, and nothing else |
| ProperSubstrings.CountingSortPermutes | q57-proper-substrings/solution-1-java/Solution.java:60-72 | the globally sorted target is sorted, a permutation of the input, of the same length, and lower-case |
| ProperSubstrings.SortedUnique | q57-proper-substrings/solution-1-java/Solution.java:24-29 | two sorted strings with the same characters are equal, so the target is the only sorted arrangement |
| ProperSubstrings.FirstMismatch | q57-proper-substrings/solution-1-java/Solution.java:78-81 | the first index from i on where the strings differ, or the length, with all earlier positions agreeing |
| ProperSubstrings.LastMismatch | q57-proper-substrings/solution-1-java/Solution.java:82-84 | the last index up to r where the strings differ, or -1, with all later positions agreeing |
| ProperSubstrings.SortSegmentPermutes | q57-proper-substrings/solution-1-java/Solution.java:99-135 | sorting a segment keeps the length and the characters |
| ProperSubstrings.MinOperations | q57-proper-substrings/solution-1-java/Solution.java:20-56 | a character outside 'a'..'z' is the out-of-range error; otherwise the answer is between 0 and 3 |
| ProperSubstrings.ZeroIffSorted | q57-proper-substrings/solution-1-java/Solution.java:27-29 | the answer is 0 exactly when the string is already sorted |
| ProperSubstrings.SegmentFix | q57-proper-substrings/solution-1-java/Solution.java:34-36 | when the string agrees with its sorted target outside [l, r], sorting that segment yields the target |
| ProperSubstrings.MismatchSegment | q57-proper-substrings/solution-1-java/Solution.java:78-85 | an unsorted string whose mismatches do not span it has a proper segment outside which it agrees with the target |
| ProperSubstrings.OneAwayFixed | q57-proper-substrings/solution-1-java/Solution.java:87-97 | a string with the target's characters that passes the one-operation test reaches the target by sorting one proper substring |
| ProperSubstrings.OneSortNotFullSpan | q57-proper-substrings/solution-1-java/Solution.java:91-97 | a string one proper-substring sort away from its target does not mismatch it at both ends |
| ProperSubstrings.OneIffOneSort | q57-proper-substrings/solution-1-java/Solution.java:31-37 | the answer is 1 exactly when the string is unsorted and sorting one proper substring sorts it |
| ProperSubstrings.TwoSuffice | q57-proper-substrings/solution-1-java/Solution.java:39-52 | when the answer is 2, the string is unsorted, no single proper-substring sort sorts it, and two do |
| ProperSubstrings.Candidate | q57-proper-substrings/solution-1-java/Solution.java:42-52 | the candidate that passed the test is a proper-prefix or proper-suffix sort that is one operation away from the target |
| ProperSubstrings.ViaCandidate | q57-proper-substrings/solution-1-java/Solution.java:42-52 | a string is one sort from its candidate and the candidate one sort from the target |
| FairPrize.TalliesMeaning | q71-fair-prize-distribution/solution-1-java/Solution.java:52-77 | compressing an ascending list gives strictly increasing distinct values, each with a positive count equal to its number of occurrences, starting with the least value |
| FairPrize.TalliesOf | q71-fair-prize-distribution/solution-1-java/Solution.java:34-77 | the tallies of any list are strictly increasing with positive counts, and each value's count is its number of occurrences in the list |
| FairPrize.CountAt | q71-fair-prize-distribution/solution-1-java/Solution.java:66-77 | the count recorded at a position is that value's count |
| FairPrize.AssignSound | q71-fair-prize-distribution/solution-1-java/Solution.java:79-88 | a completed greedy assigns one value per score group, strictly increasing with the score, each with at least as many copies as the group has members, none below the least prize value |
| FairPrize.AssignLeast | q71-fair-prize-distribution/solution-1-java/Solution.java:79-88 | whenever some strictly increasing choice of values has enough copies for every group, the greedy completes and picks, group by group, a value no larger than that choice's |
| FairPrize.PrizeForAt | q71-fair-prize-distribution/solution-1-java/Solution.java:86-94 | the prize read back for a group's score is the value chosen for that group |
| FairPrize.FairDistribution | q71-fair-prize-distribution/solution-1-java/Solution.java:27-95 | no participants, or fewer prizes than participants, give an empty answer; any non-empty answer has one value per participant |
| FairPrize.Slot | q71-fair-prize-distribution/solution-1-java/Solution.java:91-94 | in a non-empty answer, each participant's value is the one the greedy chose for the group of their score |
| FairPrize.PairFair | q71-fair-prize-distribution/solution-1-java/Solution.java:12-13 | in a non-empty answer, equal scores get equal values and a higher score a strictly higher value |
| FairPrize.EnoughCopies | q71-fair-prize-distribution/solution-1-java/Solution.java:12-14 | in a non-empty answer, each participant's value occurs among the prizes at least as often as their score occurs among the participants |
| FairPrize.ResultIsFair | q71-fair-prize-distribution/solution-1-java/Solution.java:8-14 | a non-empty answer is fair: equal scores equal values, higher scores higher values, and no prize used more often than it occurs |
| FairPrize.LeastFair | q71-fair-prize-distribution/solution-1-java/Solution.java:8-25 | whenever a fair distribution exists, the answer is non-empty and no participant's value exceeds theirs in that distribution, so the answer is the element-wise and hence the lexicographically smallest fair one |
| FairPrize.GroupValues | q71-fair-prize-distribution/solution-1-java/Solution.java:23-25 | a fair distribution induces a strictly increasing choice of one value per score group, each with enough copies |
| FairPrize.EmptyIffUnfair | q71-fair-prize-distribution/solution-1-java/Solution.java:27-96 | the answer is empty exactly when there are no participants or no fair distribution exists |
| Spreadsheet.NewSheet | q-25-excel-editor/solution-1-java/Spreadsheet.java:17-27 | a new sheet is a 5 by 5 rectangle of empty cells |
| Spreadsheet.AddRow | q-25-excel-editor/solution-1-java/Spreadsheet.java:30-34 | an index outside [0, rows] is the add-row range error; otherwise the sheet gains one row and, if it was rectangular, keeps its column count |
| Spreadsheet.AddRowShifts | q-25-excel-editor/solution-1-java/Spreadsheet.java:30-34 | after inserting at `index`, rows above it are unchanged, the new row is empty, and rows from it on are the old rows moved down by one |
| Spreadsheet.AddColumn | q-25-excel-editor/solution-1-java/Spreadsheet.java:37-42 | an index outside [0, cols] is the add-column range error; otherwise the sheet keeps its row count and stays rectangular, one column wider when it has rows |
| Spreadsheet.AddColumnShifts | q-25-excel-editor/solution-1-java/Spreadsheet.java:37-42 | after inserting at `index`, columns left of it are unchanged, the new column is empty, and columns from it on are the old ones moved right by one |
| Spreadsheet.CheckPosition | q-25-excel-editor/solution-1-java/Spreadsheet.java:111-120 | a position passes exactly when both row and column are inside the grid; the row is reported first |
| Spreadsheet.CheckEntry | q-25-excel-editor/solution-1-java/Spreadsheet.java:122-135 | an entry passes exactly when its text has no hyphen, its font name is one or more lower-case letters, and its size is between 8 and 72; the checks report in that order |
| Spreadsheet.AddEntry | q-25-excel-editor/solution-1-java/Spreadsheet.java:52-63 | a bad position is reported before a bad entry; a valid entry creates or replaces the one cell and changes nothing else |
| Spreadsheet.GetEntry | q-25-excel-editor/solution-1-java/Spreadsheet.java:71-85 | a bad position is the error; otherwise the answer is empty exactly when the cell is empty |
| Spreadsheet.SerializeJoins | q-25-excel-editor/solution-1-java/Spreadsheet.java:76-84 | the serialization is the text, font name, size and flags joined with hyphens |
| Spreadsheet.ParseSerialize | q-25-excel-editor/solution-1-java/Spreadsheet.java:76-84 | for a valid cell the serialization is unambiguous: reading it back gives the same text, font, size, bold and italic |
| Spreadsheet.EntryReadsBack | q-25-excel-editor/solution-1-java/Spreadsheet.java:52-85 | after a successful `addEntry`, `getEntry` at the same position returns the cell's serialization, which reads back as that cell |
| DictionaryApp.NewDictionary | q-26-dictionary-app/solution-1-java/DictionaryApp.java:35-39 | a new dictionary stores no word and its three indexes agree |
| DictionaryApp.StoreWord | q-26-dictionary-app/solution-1-java/DictionaryApp.java:45-58 | the word now maps to the new meaning and every other word keeps its own; an overwrite leaves the sorted set and the length buckets as they were; the indexes stay in agreement with the map |
| DictionaryApp.GetMeaning | q-26-dictionary-app/solution-1-java/DictionaryApp.java:63-66 | a stored word's meaning, and "" for a word not stored |
| DictionaryApp.StoreThenGet | q-26-dictionary-app/solution-1-java/DictionaryApp.java:45-66 | after storing, the word reads back with the meaning just stored and every other word reads back as before |
| DictionaryApp.TailFrom | q-26-dictionary-app/solution-1-java/DictionaryApp.java:78 | the tail view holds exactly the words at or after the prefix |
| DictionaryApp.WithPrefix | q-26-dictionary-app/solution-1-java/DictionaryApp.java:79 | the filter holds exactly the words that start with the prefix |
| DictionaryApp.SearchIsFiltered | q-26-dictionary-app/solution-1-java/DictionaryApp.java:68-84 | the scan that stops at the first tail word without the prefix returns the same list as filtering all stored words by the prefix, in ascending order, and cutting it to max(1, n) |
| DictionaryApp.SearchResult | q-26-dictionary-app/solution-1-java/DictionaryApp.java:73-84 | a search returns at most max(1, n) words, strictly ascending, each stored and starting with the prefix |
| DictionaryApp.ScanIsFiltered | q-26-dictionary-app/solution-1-java/DictionaryApp.java:78-82 | over an ascending list of words none below the prefix, breaking at the first word without the prefix loses no word that has it |
| DictionaryApp.PrefixComesFirst | q-26-dictionary-app/solution-1-java/DictionaryApp.java:78-79 | a word that starts with a prefix is not below it in `compareTo` order |
| DictionaryApp.PrefixBetween | q-26-dictionary-app/solution-1-java/DictionaryApp.java:78-79 | a word between a prefix and a later word with that prefix has the prefix too, which is why the scan may stop at the first word without it |
| DictionaryApp.MatchesPattern | q-26-dictionary-app/solution-1-java/DictionaryApp.java:107-119 | a word of the pattern's length matches exactly when every non-dot pattern character equals the word's character at that position |
| DictionaryApp.Exists | q-26-dictionary-app/solution-1-java/DictionaryApp.java:92-104 | the answer is true exactly when some stored word has the pattern's length and matches it |
| PubSub.NewSystem | q33-pubsub-system/solution-1-java/Solution.java:37-48 | a new system has an empty queue, no subscribers and no counts |
| PubSub.AddSubscriber | q33-pubsub-system/solution-1-java/Solution.java:54-64 | a blank id changes nothing; otherwise the id's subscription is replaced by one with exactly the given event types, starting at the current end of the queue; counts, the queue and other subscribers are untouched |
| PubSub.RemoveSubscriber | q33-pubsub-system/solution-1-java/Solution.java:69-72 | the id is no longer subscribed; counts, the queue and other subscribers are untouched |
| PubSub.SendMessage | q33-pubsub-system/solution-1-java/Solution.java:79-91 | the message joins the end of the queue and every count grows by one exactly for the active subscribers whose filter holds the event type |
| PubSub.CountProcessed | q33-pubsub-system/solution-1-java/Solution.java:97-101 | the stored count, and 0 for an id that never processed anything |
| PubSub.RunCounts | q33-pubsub-system/solution-1-java/Solution.java:6-10 | after any run of operations a subscriber's count has grown by exactly the messages of its event types sent while it was subscribed, across unsubscribes and resubscribes |
| PubSub.NothingWhileAway | q33-pubsub-system/solution-1-java/Solution.java:7 | without a new subscription, nothing is delivered to an id that is not subscribed |
| PubSub.RemovedStopsCounting | q33-pubsub-system/solution-1-java/Solution.java:66-72 | after unsubscribing, whatever is sent or whoever else joins or leaves, the count stays where it was until the id subscribes again |
| PubSub.CountsNeverDecrease | q33-pubsub-system/solution-1-java/Solution.java:63 | counts are never reset: no run of operations lowers one |
| Ordering.SortInts | q50-median-subsequences/solution-1-java/Solution.java:18-19 | `Arrays.sort` on integers: the result is ascending and as long as the input |
| Ordering.SortIntsPermutes | q66-warehouse-dispatch-credits/solution-1-java/Solution.java:42 | sorting keeps exactly the input's values with their multiplicities |
| Ordering.SortedInts | q60-amazon-transaction-logs/solution-1-java/Solution.java:44-45 | the ids of a set in strictly ascending numeric order, each once, nothing else |
| Ordering.SortedSet | q-26-dictionary-app/solution-1-java/DictionaryApp.java:29-30 | the iteration order of a `TreeSet` of strings: every element once, nothing else, strictly ascending in `compareTo` order |

## Left out

- Strings.ParseInt: accepts ASCII digits only; Java's `Integer.parseInt` also accepts the decimal digits of other scripts (Arabic-Indic, Devanagari and so on), which the model rejects as not a number. Strings.IsDigit is ASCII-only for the same reason.
- RateLimiter: the sliding window's start `timestamp - timePeriod + 1` is a Java `int` expression that wraps for timestamps near `Integer.MIN_VALUE`; the model computes it on unbounded integers.
- FileSystem.MkdirAddsPrefixes: covers paths without ".."; a walk through ".." is described only by FileSystem.MkWalkClosed (the tree stays prefix-closed and the target exists).
- FileFinder: `null` rule and operator lists are not modelled (a `null` rule list answers no paths, a `null` operator list behaves as an empty one, which the model covers as missing operators); the thrown `IllegalArgumentException`, `NumberFormatException` and `IndexOutOfBoundsException` become the `FindError` cases.
- FileFinder.ToUpper: `toUpperCase(Locale.ROOT)` is modelled on the ASCII letters; a non-ASCII letter in an operator is left as it is, so an operator spelled with such letters is unsupported in the model where Java might upper-case it.
- FileFinder.ParseOps: `runQuery` reads operator i - 1 only when it reaches result i; the model parses all operators after every rule has been evaluated, which reports the same first error because no operator is read before every rule succeeds.
- FileFinder.RunQuery: states that the answer is the fold of the rule results in ascending order and that each answer lies in some rule result; the rule results themselves are described by FileFinder.MatchesMeaning.
- Null arguments: Java's `null` strings, arrays and lists have no counterpart; the model's inputs are always present values.
- Case mapping and whitespace are ASCII-only: `toLowerCase(Locale.ROOT)` and `\s` are modelled on the ASCII range, which is what `\s` matches without the Unicode flag; non-ASCII upper-case letters are not lowered.
- `String.compareTo` compares UTF-16 code units; the model compares characters, which agrees except between supplementary characters and the code units above U+D800.
- 32-bit overflow of the counters and capacities is not modelled: the model's integers are unbounded.
- `synchronized` and the strategy registry are not modelled beyond their effect: a criteria code other than 1 selects the least-unfinished strategy, as the registry's default does.
- Exception messages are not modelled; each exception a caller can provoke with well-formed input becomes one `Err` value. A list index outside the constructed range is the exception: the members below that name it take the index as a precondition instead.
- Debugging helpers (`getMachineFreeResources`, `getContainerInfo`, `toString`) are not modelled.
- HashMap: the constructor's `double` bounds are taken already rounded to hundredths; the rounding of the arguments themselves (`Math.round(x * 100.0)`) is not modelled.
- HashMap: `size()` and `bucketsCount()` are the table's `size` field and the length of its bucket sequence.
- HashMap: `customHash` is modelled on unbounded integers; keys long enough to overflow a 32-bit `int` are not considered.
- HashMap: a resize loop that never returns is the `None` outcome of `Put`, `Remove` and `Adjust`; the `int` overflow of a bucket count that keeps doubling (a negative maximum) is not modelled.
- ConnectionPool.Acquire: requires a request id that neither holds a connection nor waits, because the pool's callers promise never to repeat an id; a repeated id would overwrite a holding entry and leak its connection.
- LockerManager.Free: requires that a registered locker's size has a free set, which the constructor creates for every valid size; the Java code would throw a `NullPointerException` otherwise.
- RoomBooking.Create: a room id listed twice is kept once; the Java list keeps both copies, but the second copy is always checked after the first with the same schedule, so no booking differs.
- RoomBooking.BookValid: requires the start not to be after the end. For such an inverted interval the neighbour checks let a second meeting with the same start into the same room and its entry overwrites the first; `Book` reproduces this, but the invariant lemmas do not cover it.
- MeetingScheduler.Book: requires room and employee numbers inside the constructed ranges; Java's `List.get` throws `IndexOutOfBoundsException` outside them. With an in-range room and an employee number outside the range, the Java code throws after it has already added the booking to the room's set but before it records it by id; the model does not reproduce that partial update.
- MeetingScheduler.ListRoom: requires a room number inside the constructed range; `roomToBookings.get` throws `IndexOutOfBoundsException` outside it.
- MeetingScheduler.ListEmployee: requires an employee number inside the constructed range; `employeeToBookings.get` throws `IndexOutOfBoundsException` outside it.
- MeetingScheduler.Create: takes non-negative counts; `new ArrayList<>(n)` throws for a negative one.
- RecurringScheduler.Book: requires room and employee numbers inside the constructed ranges. With an employee number outside them the Java code throws after it has already recorded the booking and appended it to the room; the model does not reproduce that partial update.
- RecurringScheduler.ListRoom: for a positive `n`, requires a room number inside the constructed range; `bookingIdsByRoom.get` throws `IndexOutOfBoundsException` outside it. A non-positive `n` is answered with no line for any room number, as in the source.
- RecurringScheduler.ListEmployee: for a positive `n`, requires an employee number inside the constructed range; `bookingIdsByEmployee.get` throws `IndexOutOfBoundsException` outside it. A non-positive `n` is answered with no line for any employee number, as in the source.
- RecurringScheduler.MinIndex: `PriorityQueue.poll` may return any least entry; the model takes the first, which is the same entry whenever no two queued occurrences share start, booking id and index, as holds for every queue the listing builds.
- LiftPlanner: the debugging getters (getUpStops, getDownStops and the rider counts) read fields the model exposes directly.
- LiftSimulation: `hasAnyWork` and `hasWorkAhead` are loops over the floors that the model states as existential predicates; `Integer.MAX_VALUE` as "no work on that side" becomes `None`.
- CustomCache: `null` keys and values cannot occur through the public API, so the `null` branches of the policies and of `remove` are not modelled; the letter weight is an unbounded sum, because a Java `int` would overflow only for keys of tens of millions of characters.
- FileCollections: `null` names and collection lists cannot be expressed; the running total and per-collection sizes are Java `long` values and are modelled unbounded, since int-sized files cannot overflow them in any realistic run.
- FileCollections.AddFile: the source ignores only an EMPTY name (`isEmpty`), not a blank one, and the model follows it.
- ShoppingCart: `null` rows and a `null` list cannot be expressed; stock and cart counts are unbounded integers, so the `int` overflow of `unitsAvailable -= count` and `existing + count` with extreme counts is not modelled (checkout's sum is wrapped, since wrapping each product and sum gives the same `int` as wrapping the exact total).
- Trading: order kind and action arrive as enum values, so the exception `valueOf` throws on an unknown name is not modelled; cash, prices and quantities are unbounded integers, so the `int` overflow of `cash -= (int) cost` is not modelled; the average price a holding keeps is never read by any public method and is left out; an OPEN order is named by its owner and its index in the owner's order list instead of a shared object reference.
- Wallet.Interest: computed exactly as (threshold + 10) / 20 rounded down, where the source multiplies by the `double` 0.05; a threshold whose 5% lies within rounding error of a half could round the other way in the source.
- Wallet: balances are unbounded integers, so `int` overflow of a balance is not modelled.
- CarRental: dates are whole day numbers, so `LocalDate.parse` and the exception it throws on a malformed date are not modelled; rates, odometer readings and costs are unbounded integers, so the `int` overflow of `days * costPerDay` is not modelled.
- CarRental.NoDoubleBooking: covers only the days a booking holds for certain; a late return may run into a booking made before the trip ended, which the source allows and which the model reproduces.
- Leaderboard: scores are unbounded integers, so `int` overflow of a sum is not modelled; `userToEntry` is not kept, because in every reachable board it names the entry filed under the user's current score, and `AddScore` refiles every user in the reverse index, which in a reachable board are all registered.
- Leaderboard.TopK: a ghost function, since the ranking's iteration order is defined by choosing the first entry of a set.
- TransactionValues: sums and counts are Java `long` values and are modelled unbounded, so the overflow of `sum += (newV - oldV) * cnt` is not modelled; a transaction is a pair, so a transaction list with fewer than two elements (which throws in the source) cannot be expressed.
- TransactionLogs: `null` lines cannot be expressed (the source skips them); the count map is filled with unbounded integers.
- TransactionLogs.ProcessLogs: the exception a non-numeric id throws ends the call with no result; the model reports it as the `Err` case naming the first bad field. `Integer.parseInt` also rejects numbers outside the 32-bit range, which Strings.ParseInt models.
- MedianSubsequences.MaxMinMedian: states the two positions of the sorted values that the source returns and, through MedianSubsequences.MediansOfExtremes, that they are the medians of the k largest and the k smallest values; that no other subsequence of length k has a larger or smaller median is not proved.
- MedianSubsequences: a `null` array cannot be expressed, and the copy the source sorts is the functional SortInts, so the input is never changed.
- DispatchCredits: dispatch sizes, inventories and the skip budget are unbounded integers; the source widens them to `long`, so no overflow is lost for `int` inputs.
- DispatchCredits.MaxCreditsOptimal: covers non-negative inventories and positive dispatch sizes, the inputs the game describes; for other inputs only the greedy count itself is stated.
- StorageEfficiency.LargestFeasible: covers non-negative segment counts; the `>>> 1` midpoint is taken as the exact half, which it is for the non-negative bounds of the search.
- StorageEfficiency.MaxStorageEfficiency: when target 1 is infeasible, or the least segment count is below 1, the source returns the starting 1 without it being feasible, and the model states only that the answer is 1 or locally best (StorageEfficiency.NothingFeasible shows no target is feasible then).
- ArithmeticSubarray.LongestArithmetic: states that the answer is achievable with one replacement and at least every run the loops consider; that no single replacement achieves more (optimality) is not proved.
- ArithmeticSubarray: the `long` differences of the source are unbounded integers here.
- ProperSubstrings.MinOperations: for an answer of 3, neither that three operations always suffice nor that two never do is proved. For a string of length 2 that is not sorted the source answers 3 although no sort of a proper substring (a single character) changes it; the source documents the answer only for lengths of at least 3, and the model returns what the source returns.
- ProperSubstrings: the `char - 'a'` index of a character outside 'a'..'z' makes the source throw `ArrayIndexOutOfBoundsException`; the model reports it as the `Err` case.
- FairPrize: the initial capacities of the source's hash maps are not modelled; `null` lists are not expressible (the source treats them as empty).
- Spreadsheet.AddColumn: requires a rectangular sheet, which every sheet built by the public operations is (Spreadsheet.NewSheet, Spreadsheet.AddRow, Spreadsheet.AddColumn and Spreadsheet.AddEntry keep it).
- Spreadsheet: `null` text and font names cannot be expressed; the exceptions' messages are not modelled.
- DictionaryApp: the `requireNonNull` checks cannot fail, since the model's strings are always present; the input assumptions (lower-case, no '.') are not enforced by the source and are not required by the model.
- DictionaryApp.Exists: iterates over a length bucket in an unspecified order; the model states only the answer, which does not depend on that order.
- PubSub: `null` ids, event types and messages are not expressible, so the source's early returns for them are not modelled; counts are unbounded integers. `sendMessage` counts under the subscriber's own id, which equals the key it is filed under in every reachable state (PubSub.Valid).
- The Python ports of the classes are not modelled; they restate the Java logic.
