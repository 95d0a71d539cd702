# Datacrumbs: probe lists, traces and call trees

Datacrumbs decides which functions of a program, of its libraries and of the kernel to trace, and
analyses the traces it collects. This project models the parts of it that compute something
intricate, in Dafny, and proves what they guarantee.

* **Call trees** (`Forest`, `CallStack`, `CallSearch`, `CallPrefix`, `CallTree`, `CallForest`, `CallCut`,
  `CallTime`, `CallShares`, `CallReach`, `CallGraph`, `CallReport`, `CallFound`). One pass with a stack turns a flat trace of calls into a forest, with
  a depth cut and an optional folding of same-named siblings. `CallStack` and `CallTree` describe
  stack, links and figures as functions of the trace; `CallGraph` is the builder itself, over nodes
  that are updated in place, proved to compute exactly those functions. On top of that: the stack
  finds the same parent as a quadratic search, the links spell the trace in preorder, a depth cut is
  a truncation, folding keeps exact figures, exclusive time is conserved.
* **Signature cache** (`SingleFlight`, `TableOrigin`, `CallsAnswered`). Any number of threads ask for tables of any number of
  paths, through a mutex, a condition variable and a set of paths in progress. The protocol is a
  state machine; the results hold for every reachable state and every interleaving.
* **Type resolution** (`BtfTypes`, `BtfNames`, `BtfSizes`, `Text`, `TextWords`). Naming and sizing argument types over type tables
  that may be cyclic or dangling.
* **Argument lists and shell quoting** (`ArgumentList`, `ArgumentCommas`, `ShellQuoting`). Splitting a prototype's
  arguments inverts joining them; quoting a string for the shell is inverted by the shell's own
  reading rules.
* **Probe lists** (`ProbePipeline`, `ProbeOrder`, `ProbeKeys`, `FunctionNames`). Candidates are filtered, normalised,
  excluded, sorted and deduplicated, in whatever order the extractions finish.
* **Trace statistics** (`DurationStats`, `TraceAggregate`, `TraceRecords`, `TraceStatistics`). A chunked line
  reader that feeds streaming statistics.
* **Event ids** (`EventIds`). Numbering of functions with a forward map and a string-keyed
  inverse.
* **Symbol lists** (`ElfSymbols`, `FunctionNames`). Grouping symbols by name, with printed file
  offsets that can be read back.

`dafny verify dfyconfig.toml` checks everything.

## Where the code falls short of what it is for

These are stated as lemmas, together with the exact condition where there is one.

* A signature dump that prints nothing, or that makes the parser throw (a number beyond `int`, say),
  leaves its path in progress for good: no later call for that path returns
  (`SingleFlight.AbandonedPathIsStranded`). A waiter is going to be woken exactly when neither has
  happened (`SingleFlight.WaiterWillBeWoken`).
* The square of a duration is a 32-bit product. It is exact up to 46340 and wraps beyond
  (`DurationStats.SumSqIsExactIff`); two durations of 46341 already give a negative number under the
  square root (`DurationStats.LongDurationsBreakRadicand`). A list of durations has a standard
  deviation exactly when it is shorter than two, where the code takes no root, or its spread makes up
  for what its squares lost (`DurationStats.HasDeviationIff`), and a bound on durations ensures that
  exactly if it is at most 46340 (`DurationStats.SafeBoundIff`).
* Two different (probe, function) pairs share an id key exactly when one probe name goes on, after a
  newline, where the other ends, and the function of the other is the rest of it
  (`EventIds.SameKeyIff`, with an input in `EventIds.NewlineBreaksLookup`); it takes a newline in a
  probe name and in a function. Looking up comes out right for every pair there is exactly if no loaded
  name has a newline (`EventIds.LookupIsAlwaysRightIff`), and a loaded pair keeps its id exactly when no
  later pair has its key (`EventIds.LookupInvertsIff`).
* The set of claimed names does not depend on the order in which extractions finish, but the lists
  do, exactly when two extractions offer a name under the same unclaimed key
  (`ProbeOrder.ListsDoNotDependOnOrderIff`).
* The stack machine and the quadratic search can disagree on a trace that is both out of order and
  has negative durations (`CallSearch.SearchNeedsOrderOrSign`); either condition alone is harmless.
  In general they agree exactly when the parents that the search finds do not cross
  (`CallSearch.StackIsSearchIff`).
* With aggregation, callees of a folded call are out of the report's reach
  (`CallReach.FoldedCallHidesCallees`), and their time is counted as the entry's own
  (`CallShares.AggregateExclusive`); it makes no difference exactly for entries whose folded calls
  have no time in callees (`CallShares.AggregateAgreesIff`).
* A string with a NUL does not survive quoting, since the command passes through a C string
  (`ShellQuoting.EscapeRoundTripsIff`).
* Two binaries, or a binary and an unprefixed kind, can share a key: exactly when one text splits at two
  underscores into both path and name (`ProbeKeys.SameKeyIff`), such as `b_c` in `/bin/a` and `c` in
  `/bin/a_b`. Then only the one processed first lists its name.
* A trace that is nothing but an opening bracket is handed to the parser if no newline ends it, and
  skipped if one does; for every other stream a final newline makes no difference
  (`TraceRecords.FinalNewlineIff`).
* A depth cut hides calls from the stack, so on a trace where calls overlap without nesting it is not
  a truncation (`CallCut.OverlapBreaksCut`). It is one, at every depth, exactly when every call's stack
  ancestors are still open as the call arrives (`CallCut.DepthCutIsTruncationIff`), which is so in
  every nested trace.
* With offsets asked for, the code reads an offset of every listed name; there is one exactly when all
  listed names are non-empty and colon-free (`ElfSymbols.PrintableIff`).
* A negative depth cut acts like zero, because roots are never cut.

## Model

| member | source | states |
|---|---|---|
| CallStack.PopStops | tools/callgraph_vis.cpp:384-386 | what the pop loop removes has ended, what it leaves on top has not |
| CallSearch.StackRefinesSearch | tools/callgraph_vis.cpp:380-390 | in a trace that is sorted, or has no negative duration, the parent picked by the stack is the one found by a search that looks back through the trace, without a stack, for the latest call kept and still open; nesting is not assumed |
| CallSearch.StackIsSearchIff | tools/callgraph_vis.cpp:380-398 | for any trace and cut, stack and search agree on every call if and only if the parents found by the search do not cross |
| CallSearch.SearchNeedsOrderOrSign | tools/callgraph_vis.cpp:384-390 | an unsorted trace with a negative duration on which stack and search disagree |
| CallPrefix.NestedIsOpen | tools/callgraph_vis.cpp:384-398 | in a nested trace everything left on the stack is still open when a call arrives |
| CallPrefix.CutStackIsPrefix | tools/callgraph_vis.cpp:384-398 | as long as that is so, the stack under a depth cut is a prefix of the stack under any larger cut |
| CallPrefix.CutStackIsPrefixIff | tools/callgraph_vis.cpp:384-398 | the smaller stacks are prefixes at all times if and only if everything left on the largest is always open |
| CallPrefix.CutDepth | tools/callgraph_vis.cpp:388-398 | a smaller cut then keeps exactly the calls of small enough depth, at the same depth |
| CallTree.SiblingNamesDiffer | tools/callgraph_vis.cpp:400-439 | with aggregation, siblings and roots have pairwise distinct names |
| CallTree.EveryKeptCallIsRepresented | tools/callgraph_vis.cpp:400-439 | every call not cut off has an entry of its name under its stack parent |
| CallTree.FoldedOnlyIntoNamesake | tools/callgraph_vis.cpp:400-411 | a call is folded into an entry exactly when it is routed to the same parent and has the same name |
| CallTree.EntrySummarisesRouted | tools/callgraph_vis.cpp:400-439 | an entry's count, dur, min and max are the count, sum and extremes of the durations of all calls of its name routed to its stack parent |
| CallTree.EntryAverageInRange | tools/callgraph_vis.cpp:400-439 | count * min <= dur <= count * max for every entry |
| CallTree.PlainKeepsFigures | tools/callgraph_vis.cpp:413-421 | without aggregation every node keeps the figures of its own call |
| CallForest.StackOnSpine | tools/callgraph_vis.cpp:380-443 | the stack is a prefix of the rightmost path of the forest |
| CallForest.LinksAreGrown | tools/callgraph_vis.cpp:380-443 | reading the parent and child links gives the forest grown call by call along its rightmost path |
| CallForest.PreorderIsKeptTrace | tools/callgraph_vis.cpp:380-443 | for any order and any cut, the preorder walk of the roots is the subsequence of calls not cut off |
| CallCut.KidsUnderCut | tools/callgraph_vis.cpp:388-440 | as long as stack ancestors are open, and in either mode, a smaller cut keeps the children of every node above it and removes all others |
| CallCut.TallyUnderCut | tools/callgraph_vis.cpp:388-440 | the figures of the entries above the cut are what they are under a larger one |
| CallCut.DepthCutIsTruncation | tools/callgraph_vis.cpp:388-398 | as long as stack ancestors are open, and in either mode, building with a cut is building without and removing the deeper nodes; the excluded time is the time of the calls that lie deeper |
| CallCut.NestedCutIsTruncation | tools/callgraph_vis.cpp:388-398 | the same for every nested trace |
| CallCut.DepthCutIsTruncationIff | tools/callgraph_vis.cpp:388-398 | every cut truncates, in both modes, if and only if in the uncut run every call's stack ancestors are still open as it arrives |
| CallCut.OverlapBreaksCut | tools/callgraph_vis.cpp:388-398 | three partly overlapping calls, of which cut zero keeps the third as a root though it lies at depth two |
| CallReach.HungIff | tools/callgraph_vis.cpp:400-439 | a call becomes an entry of its own if and only if it is kept and, with aggregation, no earlier kept call has the same stack parent and name; otherwise a kept call is folded |
| CallReach.ReachableIff | tools/callgraph_vis.cpp:400-442 | in either mode, the roots lead to a call exactly when it and all its stack ancestors are kept and, with aggregation, the first of their names under their stack parents |
| CallReach.PlainReachesKept | tools/callgraph_vis.cpp:413-440 | without aggregation those are the calls not cut off |
| CallReach.FoldedCallHidesCallees | tools/callgraph_vis.cpp:400-442 | a folded call is still pushed, so its callees hang where the roots do not lead |
| CallReach.ACalleeIsHidden | tools/callgraph_vis.cpp:400-442 | a trace of three calls, the last of which is kept and yet out of the roots' reach |
| CallTime.CompareIsPreorder | tools/callgraph_vis.cpp:119-127 | the comparator is a total preorder, equal only for equal start and duration |
| CallTime.SortedIsWellNested | tools/callgraph_vis.cpp:370-372 | whatever arrangement the sort produces, it is well nested if and only if durations are non-negative and calls pairwise disjoint or nested |
| CallTime.ChildInsideParent | tools/callgraph_vis.cpp:384-390 | on a well-nested trace a call lies inside its parent |
| CallTime.SiblingsAreDisjoint | tools/callgraph_vis.cpp:384-390 | calls with the same parent do not overlap |
| CallTime.KidTimeIsChildTime | tools/callgraph_vis.cpp:400-440 | in either mode the entries under a parent carry exactly the time of all calls routed to it |
| CallTime.ExclusiveInRange | tools/callgraph_vis.cpp:90-102 | on a well-nested trace 0 <= exclusive time <= dur for every entry, in either mode |
| CallTime.ExclusiveTimeIsConserved | tools/callgraph_vis.cpp:90-102 | for any trace, cut and mode, exclusive times over all reachable entries add up to the time of the roots |
| CallShares.AggregateExclusive | tools/callgraph_vis.cpp:90-102 | with aggregation an entry's exclusive time is the sum of the plain exclusive times of all calls it stands for, plus the time in the callees of the folded ones |
| CallShares.AggregateAgreesIff | tools/callgraph_vis.cpp:90-102 | for non-negative durations that extra time is zero if and only if no folded call has callees that take time |
| CallGraph.Node.constructor | tools/callgraph_vis.cpp:336-345 | a new node has its call's figures, no children and depth 0 |
| CallGraph.PopEnded | tools/callgraph_vis.cpp:384-386 | the pop loop leaves exactly the open entries |
| CallGraph.Fold | tools/callgraph_vis.cpp:401-410 | the first sibling of the call's name, if any, takes in its duration; nothing else changes |
| CallGraph.PlaceUnder | tools/callgraph_vis.cpp:400-421 | the call is folded into a child of its name or becomes the last child |
| CallGraph.PlaceAsRoot | tools/callgraph_vis.cpp:422-440 | the same among the roots |
| CallGraph.PlaceCall | tools/callgraph_vis.cpp:388-440 | one call is cut off, folded or hung as the trace specifies, and the excluded time is kept |
| CallGraph.ProcessCall | tools/callgraph_vis.cpp:380-443 | one turn of the loop takes nodes, roots, stack and excluded time from what the first j calls specify to what the first j + 1 specify |
| CallGraph.BuildCallTree | tools/callgraph_vis.cpp:374-443 | the nodes and roots built are those specified for the whole trace: children, figures and depth of every call, and the excluded time |
| CallReport.CalculateExclusiveTimes | tools/callgraph_vis.cpp:90-102 | writes the exclusive time of every node under the given ones and changes nothing else |
| CallReport.FilledIs | tools/callgraph_vis.cpp:90-102 | the walk writes exactly the entries of the forest |
| CallReport.FindNodesByName | tools/callgraph_vis.cpp:104-117 | appends the nodes of that name, in preorder |
| CallReport.SearchFindsKeptCalls | tools/callgraph_vis.cpp:104-117 | from the roots, without aggregation, the search finds the calls of that name that were not cut off, in processing order |
| CallFound.FoundIff | tools/callgraph_vis.cpp:104-117 | in either mode the node of a call is found if and only if the call has that name and the roots lead to it |
| CallFound.FoundInTraceOrder | tools/callgraph_vis.cpp:104-117 | without aggregation nodes are found in processing order, none twice |
| CallReport.AnalyzeTrace | tools/callgraph_vis.cpp:374-457 | build, exclusive times and search in sequence: every reachable entry has its exclusive time and the search its result |
| SingleFlight.InvHolds | src/datacrumbs/utils/explorer/probe_explorer.cpp:601-699 | the protocol invariant holds after every sequence of steps of any number of threads |
| SingleFlight.AtMostOneLoad | src/datacrumbs/utils/explorer/probe_explorer.cpp:610-623 | at most one thread loads a path at any moment, and a path is loaded at most once in a run |
| SingleFlight.CacheIsWriteOnce | src/datacrumbs/utils/explorer/probe_explorer.cpp:690-694 | no step changes or removes a cache entry |
| SingleFlight.SamePathSameTable | src/datacrumbs/utils/explorer/probe_explorer.cpp:601-699 | all calls for a path that return do so with the same table; after an empty dump, the one call that returns gets the empty table |
| TableOrigin.CacheIsTheDump | src/datacrumbs/utils/explorer/probe_explorer.cpp:627-694 | for a cached path exactly one step of the run dumped a table, by the thread loading the path, and the cache holds that table |
| TableOrigin.ReplyIsTheDump | src/datacrumbs/utils/explorer/probe_explorer.cpp:612-698 | what a caller gets for a path is the table of that one dump, except for the call whose dump was empty |
| CallsAnswered.EveryCallIsAccountedFor | src/datacrumbs/utils/explorer/probe_explorer.cpp:601-699 | in every run each call for a path has been answered once, was left by an exception, or is still going on |
| SingleFlight.WaiterWillBeWoken | src/datacrumbs/utils/explorer/probe_explorer.cpp:612-622 | a waiter has a live loader or a publisher yet to notify if and only if no loader abandoned its path, by an empty dump or an exception |
| SingleFlight.AbandonedPathIsStranded | src/datacrumbs/utils/explorer/probe_explorer.cpp:629-665 | after an empty dump, or an exception while a dump is parsed, the path is never cached and no call for it returns any more |
| SingleFlight.AWaiterCanBeStranded | src/datacrumbs/utils/explorer/probe_explorer.cpp:629-665 | for either way of abandoning, a run of two threads that ends with one waiting for ever |
| SingleFlight.QuietMeansDone | src/datacrumbs/utils/explorer/probe_explorer.cpp:601-699 | when no protocol step is possible, every thread has returned or waits on an abandoned path |
| SingleFlight.NotifyWakesEveryone | src/datacrumbs/utils/explorer/probe_explorer.cpp:695 | a notification sends every waiter, whatever its path, back to look again |
| SingleFlight.ProtocolStepsEnd | src/datacrumbs/utils/explorer/probe_explorer.cpp:601-699 | a run of n threads takes at most 2n + 6 protocol steps for each call and two for each spurious wakeup |
| Text.NormalizeKeepsStars | src/datacrumbs/utils/explorer/probe_explorer.cpp:73-85 | normalising white space neither adds nor removes a star |
| TextWords.TrimIs | src/datacrumbs/utils/explorer/probe_explorer.cpp:73-78 | trimming takes off all white space around a text and nothing else |
| TextWords.NormalizeIsTidy | src/datacrumbs/utils/explorer/probe_explorer.cpp:80-85 | normalising gives a text with single blanks between words and the same words |
| TextWords.TidyStays | src/datacrumbs/utils/explorer/probe_explorer.cpp:80-85 | such a text stays as it is |
| BtfTypes.ResolveBtfTypeName | src/datacrumbs/utils/explorer/probe_explorer.cpp:558-582 | terminates on every table, inserting into the caller's set, with the name that ResolveName gives |
| BtfTypes.ResolveBtfTypeSize | src/datacrumbs/utils/explorer/probe_explorer.cpp:584-599 | terminates on every table with the size that ResolveSize gives |
| BtfTypes.NameHasStarIff | src/datacrumbs/utils/explorer/probe_explorer.cpp:558-582 | the printed name has a star if and only if the walk through qualifiers and anonymous typedefs ends at a pointer, an array or a starred name |
| BtfNames.NameIsAtTheEnd | src/datacrumbs/utils/explorer/probe_explorer.cpp:558-582 | a type is called what its path through qualifiers and typedefs without a name ends at, with a "const " for each CONST on the way; void where that is no type or goes round, unsigned long long where it is missing |
| BtfNames.NamePathExists | src/datacrumbs/utils/explorer/probe_explorer.cpp:558-582 | every type has such a path, on any table |
| BtfNames.NameOfPointer | src/datacrumbs/utils/explorer/probe_explorer.cpp:573-577 | a pointer or array is called what it points to is called, and a star after a space |
| BtfSizes.SizeIsAtTheEnd | src/datacrumbs/utils/explorer/probe_explorer.cpp:584-599 | the size of a type is that of the integer, enumeration, structure or union its path ends at; 8 for a pointer, an array or a missing type, 0 for no type and for a path that goes round, else its size or 8 |
| BtfSizes.PathOf | src/datacrumbs/utils/explorer/probe_explorer.cpp:584-599 | every type has such a path, on any table |
| BtfTypes.PointerWalkSize | src/datacrumbs/utils/explorer/probe_explorer.cpp:584-599 | the walk of a pointer type leads the size resolver to 8 |
| BtfTypes.PointerArgs | src/datacrumbs/utils/explorer/probe_explorer.cpp:669-688 | with star-free type names an argument is a pointer if and only if its walk reaches PTR or ARRAY, and then its size resolves to 8; every other argument has 1 to 8 bytes |
| BtfSizes.SizedArg | src/datacrumbs/utils/explorer/probe_explorer.cpp:682-684 | an argument that is no pointer and ends at an integer, enumeration, structure or union of non-zero size takes that size, up to 8 |
| BtfSizes.BytesOfArg | src/datacrumbs/utils/explorer/probe_explorer.cpp:682-684 | every argument that is no pointer takes its resolved size up to 8, or that of its name if it has none |
| BtfSizes.IntSize | src/datacrumbs/utils/explorer/probe_explorer.cpp:107-126 | without a resolved size an int takes 4 bytes |
| BtfSizes.ShortSize | src/datacrumbs/utils/explorer/probe_explorer.cpp:107-126 | a short, however it goes on, takes 2 |
| BtfSizes.LongSize | src/datacrumbs/utils/explorer/probe_explorer.cpp:107-126 | a long that is not short takes 8 |
| BtfNames.PointerToNamed | src/datacrumbs/utils/explorer/probe_explorer.cpp:128-139 | a pointer to a named type is described with 8 bytes, or with as many as are captured of a string |
| BtfNames.CharStarIff | src/datacrumbs/utils/explorer/probe_explorer.cpp:102-105 | strings are the pointers to a type whose name ends in char |
| ArgumentList.SplitArguments | src/datacrumbs/utils/explorer/probe_explorer.cpp:467-485 | the scanning loop computes Split |
| ArgumentList.PiecesJoin | src/datacrumbs/utils/explorer/probe_explorer.cpp:467-485 | for every text, the pieces found, joined by commas, give it back, and no piece has a comma at depth zero |
| ArgumentCommas.NetIsCounted | src/datacrumbs/utils/explorer/probe_explorer.cpp:472-473 | nesting is the number of opening less that of closing parentheses |
| ArgumentCommas.PieceCount | src/datacrumbs/utils/explorer/probe_explorer.cpp:467-485 | there is one more piece than there are commas before which parentheses balance |
| ArgumentCommas.PartsAtComma | src/datacrumbs/utils/explorer/probe_explorer.cpp:474-478 | at each such comma the pieces of the text are those before and those after it |
| ArgumentCommas.CallbackIsOnePiece | src/datacrumbs/utils/explorer/probe_explorer.cpp:467-485 | an argument keeps the commas between its parentheses |
| ArgumentList.PiecesOfJoin | src/datacrumbs/utils/explorer/probe_explorer.cpp:467-485 | there is only one such list of pieces |
| ArgumentList.SplitOfJoin | src/datacrumbs/utils/explorer/probe_explorer.cpp:467-485 | for pieces without a comma at depth zero, all but the last balanced, splitting the joined text gives the trimmed pieces, less a blank last one |
| ArgumentList.SplitInvertsJoin | src/datacrumbs/utils/explorer/probe_explorer.cpp:467-485 | splitting inverts joining with "," and with ", " |
| ShellQuoting.ShellEscape | src/datacrumbs/utils/explorer/probe_explorer.cpp:141-152 | the loop computes Escape |
| ShellQuoting.EscapedIsOneWord | src/datacrumbs/utils/explorer/probe_explorer.cpp:141-152 | wherever a command may begin a word, the shell reads the escaped string as one word equal to the string, and reads on from there, whatever follows |
| ShellQuoting.ReadelfPassesPath | src/datacrumbs/utils/explorer/probe_explorer.cpp:290-291 | the readelf command passes its two plain words and then the path |
| ShellQuoting.DwarfdumpPassesPath | src/datacrumbs/utils/explorer/probe_explorer.cpp:422-423 | so does the llvm-dwarfdump command |
| ShellQuoting.BpftoolPassesPath | src/datacrumbs/utils/explorer/probe_explorer.cpp:627-628 | and the bpftool command, after four plain words |
| ShellQuoting.EscapeRoundTripsIff | src/datacrumbs/utils/explorer/probe_explorer.cpp:141-152 | through a C string the round trip succeeds if and only if the string has no NUL |
| FunctionNames.BaseOfOffset | src/datacrumbs/utils/explorer/probe_explorer.cpp:87-90 | the base name of a colon-free name with an offset attached is the name |
| FunctionNames.OffsetRoundTrip | src/datacrumbs/utils/explorer/mechanism/elf_capture.cpp:119-120 | a printed offset reads back as itself |
| FunctionNames.OffsetText | src/datacrumbs/utils/explorer/mechanism/elf_capture.cpp:119-120 | a printed offset is 0x and lower-case hexadecimal digits without leading zeros |
| ProbePipeline.ListFunctions | src/datacrumbs/utils/explorer/probe_explorer.cpp:1338-1504 | the stages for one extraction compute the list and the claimed keys that Listed specifies |
| ProbePipeline.ProcessCompleted | src/datacrumbs/utils/explorer/probe_explorer.cpp:1327-1519 | one completed extraction, including the invalid and the failed-validation case, the latter keeping its claims |
| ProbePipeline.ExtractProbes | src/datacrumbs/utils/explorer/probe_explorer.cpp:1521-1558 | the polling loop ends having processed each extraction exactly once, with as many completed as there are |
| ProbePipeline.AscendingIsUnique | src/datacrumbs/utils/explorer/probe_explorer.cpp:1385-1387 | an ascending arrangement of names is unique, so any sort gives the same list |
| ProbePipeline.ListedIff | src/datacrumbs/utils/explorer/probe_explorer.cpp:1338-1504 | a name is listed if and only if it is the normalised form of a candidate that matched as spelled, is excluded neither by full nor base name, and its key was unclaimed; deduplicated non-custom lists are strictly increasing |
| ProbePipeline.NormalizeIff | src/datacrumbs/utils/explorer/probe_explorer.cpp:1352-1361 | a system call loses a leading __x64_sys_ or else sys_, any other name stays |
| ProbeKeys.BelowIff | src/datacrumbs/utils/explorer/probe_explorer.cpp:1385-1387 | names compare by their first different character, prefixes first |
| ProbeKeys.OthersAscend | src/datacrumbs/utils/explorer/probe_explorer.cpp:1385-1387 | every list of a probe that is not custom is ascending |
| ProbeKeys.CustomKeepsOrder | src/datacrumbs/utils/explorer/probe_explorer.cpp:1385-1387 | custom names keep the order of their candidates |
| ProbeKeys.OfferedCount | src/datacrumbs/utils/explorer/probe_explorer.cpp:1338-1387 | as many names go to deduplication as candidates match and are not excluded |
| ProbeKeys.DedupedListUnclaimed | src/datacrumbs/utils/explorer/probe_explorer.cpp:1389-1503 | headers, kernel symbols, custom probes, uprobes and USDT probes list exactly what they offer under unclaimed keys, and claim these |
| ProbeKeys.OthersListAll | src/datacrumbs/utils/explorer/probe_explorer.cpp:1413-1470 | all other kinds list all they offer and claim nothing |
| ProbePipeline.AllClaimedIff | src/datacrumbs/utils/explorer/probe_explorer.cpp:1389-1503 | the keys claimed in the end are those claimed at the start and those some valid extraction offers |
| ProbePipeline.ClaimsDoNotDependOnOrder | src/datacrumbs/utils/explorer/probe_explorer.cpp:1521-1535 | the final set of keys is the same for every completion order |
| ProbePipeline.NoKeyListedTwice | src/datacrumbs/utils/explorer/probe_explorer.cpp:1389-1503 | no key is listed by two extractions |
| ProbeKeys.SameKeyIff | src/datacrumbs/utils/explorer/probe_explorer.cpp:1389-1503 | two names share a key if and only if, under unprefixed kinds, they are equal, and under sources, one text splits at underscores into both |
| ProbeKeys.UnsharedIsListed | src/datacrumbs/utils/explorer/probe_explorer.cpp:1389-1503 | a name under a key that is unclaimed and that nobody else offers is listed in every completion order |
| ProbeKeys.BothBinariesList | src/datacrumbs/utils/explorer/probe_explorer.cpp:1413-1437 | two uprobe extractions with paths apart both list a name both binaries have, whatever the order, unless a third claims it |
| ProbeKeys.PlainNameListedOnce | src/datacrumbs/utils/explorer/probe_explorer.cpp:1389-1411 | of two header, kernel symbol or custom extractions never both list a name |
| ProbePipeline.NewKeyIsListed | src/datacrumbs/utils/explorer/probe_explorer.cpp:1389-1503 | every key newly claimed is listed by some extraction |
| ProbeOrder.ListsDoNotDependOnOrderIff | src/datacrumbs/utils/explorer/probe_explorer.cpp:1389-1535 | all completion orders give the same lists if and only if no key unclaimed at the start is offered by two extractions |
| ProbeOrder.OutcomeDoesNotDependOnOrder | src/datacrumbs/utils/explorer/probe_explorer.cpp:1505-1519 | then the probes handed on, and whether any was invalid, are the same for all orders too: what each extraction decides alone |
| ProbeOrder.ListsDependOnOrder | src/datacrumbs/utils/explorer/probe_explorer.cpp:1521-1535 | the simplest contention: two extractions offering one name |
| DurationStats.Stats.Add | tools/aggregate_trace.cpp:25-31 | one duration is added to all five fields |
| DurationStats.FoldIs | tools/aggregate_trace.cpp:25-31 | count, sum, minimum and maximum are those of the durations added |
| DurationStats.SumSqIsExactIff | tools/aggregate_trace.cpp:28 | the sum of squares is exact if and only if every duration is at most 46340 in magnitude |
| DurationStats.VarianceBounds | tools/aggregate_trace.cpp:25-39 | for all 32-bit durations count * sum_sq - sum^2 <= (count * max - sum) * (sum - count * min), and four times that is at most (count * (max - min))^2; up to 46340 it is never negative |
| DurationStats.RadicandIs | tools/aggregate_trace.cpp:33-39 | count times the mean is the sum, and count squared times the number under the square root is count * sum_sq - sum^2 |
| DurationStats.HasDeviationIff | tools/aggregate_trace.cpp:28-39 | a list of durations has a standard deviation if and only if it is shorter than two, or count times the true sum of squares exceeds the squared sum by at least count times what wrapping took from the squares |
| DurationStats.RadicandNonNegative | tools/aggregate_trace.cpp:35-39 | up to 46340 the number under the square root is never negative |
| DurationStats.LongDurationsBreakRadicand | tools/aggregate_trace.cpp:28-39 | beyond that it can be, with two records |
| DurationStats.SafeBoundIff | tools/aggregate_trace.cpp:28-39 | a bound on durations ensures that every list has a standard deviation if and only if it is at most 46340 |
| TraceAggregate.LinesConcat | tools/aggregate_trace.cpp:68-108 | carrying over the unterminated rest is enough: cutting rest and next chunk into lines is cutting the whole |
| TraceAggregate.GlueOfLines | tools/aggregate_trace.cpp:71-75 | the lines and the rest make up the stream |
| TraceAggregate.LinesUnique | tools/aggregate_trace.cpp:71-75 | and there is only one way to cut it |
| TraceAggregate.TakeLines | tools/aggregate_trace.cpp:70-107 | the inner loop handles each complete line once, in order, and returns the rest |
| TraceAggregate.StatsMap.Add | tools/aggregate_trace.cpp:103 | one record is added in place to the statistics of its key, made new if need be, and to no other |
| TraceAggregate.TakeRest | tools/aggregate_trace.cpp:109-128 | an unterminated last line is taken in too |
| TraceAggregate.AggregateTrace | tools/aggregate_trace.cpp:65-128 | however the stream is cut into chunks, the statistics are those of the lines of the whole stream |
| TraceRecords.RecordsOnFragments | tools/aggregate_trace.cpp:68-128 | the records of a stream are what the parser makes of the texts between its newlines, in order, without blanks and brackets; an opening bracket is one only as the first of several |
| TraceRecords.OneLineIsRead | tools/aggregate_trace.cpp:71-128 | a single line is read whether or not a newline ends it |
| TraceRecords.FinalNewlineIff | tools/aggregate_trace.cpp:71-128 | a final newline makes no difference to any parser if and only if the stream is not a lone opening bracket |
| TraceRecords.ChopsOneReturn | tools/aggregate_trace.cpp:76-77 | one carriage return at the end of a line is dropped, and nothing else |
| TraceStatistics.StatsByKey | tools/aggregate_trace.cpp:103 | there is an entry for exactly the keys that occur, summarising exactly their durations |
| TraceStatistics.EntryHasDeviationIff | tools/aggregate_trace.cpp:28-39 | an entry has a standard deviation if and only if it stands for one record or its durations make up for what wrapping took |
| TraceStatistics.EveryEntryHasDeviation | tools/aggregate_trace.cpp:35-39 | for durations up to 46340 every entry has one |
| TraceStatistics.TotalsAreConserved | tools/aggregate_trace.cpp:103-123 | counts and sums over all keys add up to the number and total duration of the records |
| EventIds.ConfigurationManager.LoadRuntimeProbeFile | src/datacrumbs/utils/common/configuration_manager.cpp:691-724 | loading makes both maps number the pairs of the file's probes, so reloading changes nothing; a failed load leaves everything as it was |
| EventIds.ConfigurationManager.GetRuntimeEventId | src/datacrumbs/utils/common/configuration_manager.cpp:726-733 | an id is found if and only if some loaded pair has the key, and is the last one given to it; unless a loaded pair collides, if and only if the pair was loaded, and the id maps back to it |
| EventIds.IdsAreContiguous | src/datacrumbs/utils/common/configuration_manager.cpp:704-719 | the ids in use are exactly 1000 to 1000 + N - 1, in order of the pairs |
| EventIds.SupportedAt | src/datacrumbs/utils/common/configuration_manager.cpp:705-716 | the probes held are those of all supported entries, in file order |
| EventIds.PairsOfFile | src/datacrumbs/utils/common/configuration_manager.cpp:705-722 | a pair is loaded if and only if a supported entry lists it, and as many are loaded as functions are listed |
| EventIds.IdInFile | src/datacrumbs/utils/common/configuration_manager.cpp:704-719 | the j-th function of an entry gets the id 1000, plus the functions of the supported entries before, plus j |
| EventIds.LookupInvertsIff | src/datacrumbs/utils/common/configuration_manager.cpp:717-733 | looking a pair up gives its own id if and only if no later pair has its key |
| EventIds.LookupFindsKey | src/datacrumbs/utils/common/configuration_manager.cpp:717-733 | a key is found if and only if some pair has it, under the number of the last that does |
| EventIds.SameKeyIff | src/datacrumbs/utils/common/configuration_manager.cpp:95-97 | two pairs have the same key if and only if they are equal or split one text at different newlines |
| EventIds.NewlineFreeDoNotCollide | src/datacrumbs/utils/common/configuration_manager.cpp:95-97 | newline-free probe names keep pairs from colliding, and so do newline-free function names |
| EventIds.LookupFindsLoaded | src/datacrumbs/utils/common/configuration_manager.cpp:717-733 | a pair that no loaded pair collides with is found if and only if it was loaded, under the last id given to it, and that id maps back to it |
| EventIds.LookupIsAlwaysRightIff | src/datacrumbs/utils/common/configuration_manager.cpp:717-733 | that is so for every pair there is if and only if no loaded probe or function name has a newline |
| EventIds.NewlineBreaksLookup | src/datacrumbs/utils/common/configuration_manager.cpp:95-97 | two pairs that collide, of which the first loses its id |
| ElfSymbols.CollectOffsets | src/datacrumbs/utils/explorer/mechanism/elf_capture.cpp:83-124 | the first pass groups the printed offsets of all tables by name |
| ElfSymbols.GroupsOf | src/datacrumbs/utils/explorer/mechanism/elf_capture.cpp:83-124 | a name has a group if and only if a defined function has it, and the group holds exactly the printed offsets of those functions |
| ElfSymbols.OffsetsKeepDistances | src/datacrumbs/utils/explorer/mechanism/elf_capture.cpp:103-110 | within a section file offsets are addresses moved by a constant |
| ElfSymbols.OffsetOutsideSections | src/datacrumbs/utils/explorer/mechanism/elf_capture.cpp:102-110 | a symbol in no section, or below the start of its section, is at its plain value |
| ElfSymbols.ExtractSymbols | src/datacrumbs/utils/explorer/mechanism/elf_capture.cpp:126-147 | lists exactly the entries of the groups not excluded, without duplicates when names are clean |
| ElfSymbols.PrintableIff | src/datacrumbs/utils/explorer/mechanism/elf_capture.cpp:138-140 | the offset taken of every listed name exists if and only if offsets are not asked for or every listed name is clean |
| ElfSymbols.CleanIff | src/datacrumbs/utils/explorer/mechanism/elf_capture.cpp:99 | a name is clean if and only if it is not empty and has no colon |
| ElfSymbols.ExcludedIs | src/datacrumbs/utils/explorer/mechanism/elf_capture.cpp:14 | exactly _init, _fini and _start are never listed |
| ElfSymbols.BaseNamesListed | src/datacrumbs/utils/explorer/mechanism/elf_capture.cpp:126-147 | the base names of what is listed are exactly the defined function names that are not excluded |
| ElfSymbols.EntriesPerName | src/datacrumbs/utils/explorer/mechanism/elf_capture.cpp:132-142 | a name has as many entries as distinct offsets |
| ElfSymbols.PlainIff | src/datacrumbs/utils/explorer/mechanism/elf_capture.cpp:132-142 | a name is listed without an offset if and only if offsets are not asked for and all functions of that name lie at one |
| ElfSymbols.OffsetsRecovered | src/datacrumbs/utils/explorer/mechanism/elf_capture.cpp:126-147 | with offsets asked for, the entries decode to exactly the (name, file offset) pairs of the functions not excluded |

## Left out

- Reading JSON, gzip streams, ELF files, command output and configuration: these arrive as parsed records, chunks, tables and candidate lists. `parse`, `matches` and `valid` are arbitrary functions, standing for the JSON parser, the configured regular expression and the validation of a finished probe.
- Integer widths other than the 32-bit square and the 64-bit file offset: times, totals, counts and event ids are unbounded. An over-long product is undefined in C++; the model gives it two's-complement wrap-around.
- Rounding of doubles, and the square root itself: sums, means and radicands are exact.
- The library sorts: sorted nodes are any arrangement in comparator order, sorted names the only ascending one.
- Capacity and reallocation of the child, root and node arrays, and freeing memory: child and root lists are sequences held in fields and variables, which the builder reassigns.
- The printed text and DOT output of a call tree, percentages and display thresholds.
- What a loader does between the two times it holds the mutex is one step, and so is each stretch under the mutex. Parsing the dump into a type table is not modelled, nor are the index and label of an argument description; type kinds the resolvers do not name are one kind.
- The prototype pattern around an argument list, and default labels.
- Probes reused from an earlier run, which are not extracted; discovered signatures attached to a probe; progress logging and sleeping.
- SingleFlight.ProtocolStepsEnd: bounds runs under any scheduler; that a given call returns is left to a fair one, which is not modelled.
- An extraction that throws: the polling loop would leave by the same exception.
- ShellQuoting.EscapedIsOneWord: the reader covers words, single quotes, backslashes and blanks, and stops at the first unquoted character that is more than that; what operators and expansions from there on mean is not modelled, nor is tilde expansion inside assignments.
- ProbePipeline.ExtractProbes: futures become ready by some round chosen in advance, since the loop would otherwise wait for ever.
- ProbePipeline.NoKeyListedTwice: holds for the kinds that consult the shared set; binary probes attached other than by uprobes, and USDT captures attached other than by USDT, skip it in the code too.
- ElfSymbols.ExtractSymbols: with offsets asked for, every listed name must have an offset; the code dereferences the end of an empty set otherwise, for a name that is empty or contains a colon.
- The `readelf` and `llvm-dwarfdump` line parsers, whose meaning depends on the output of external tools.
- Probe validation, serialisation, the environment, headers parsed with libclang, sockets, signing and the tracer itself.
- Configuration templates: sequential replacement is independent of order only under artificial conditions on the values.
