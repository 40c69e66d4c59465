# loadwhat: decision logic, modelled and proved

`loadwhat` explains why a Windows program does not start or fails to load a DLL. Around its
foreign calls and its printing there is deterministic logic: a graph search over static imports,
an inference over an interleaved loader trace, a PE parser with its writer, a COM resolver over a
two-hive registry, a debug loop with command-line quoting, and a manifest scanner. This project
models that logic in Dafny, in the form the source has it (loops over mutable state as methods and
classes, pure code as functions), and proves what the program relies on.

`dafny verify dfyconfig.toml` checks everything.

| file | source | content |
|---|---|---|
| `Text.dfy`, `TextFacts.dfy` | shared | options and results, ASCII case, trimming, lexicographic order, and what they mean |
| `Search.dfy` | `src/search.rs` | search order, deduplication, resolution |
| `ImportWalk.dfy`, `WalkEarlyStop.dfy`, `WalkExact.dfy` | `src/main.rs` | the static walk, its early stop, its exactness |
| `WalkOrder.dfy`, `WalkOrderLimits.dfy`, `MockFiles.dfy`, `MockAgainstReal.dfy` | `src/com/fs.rs` | the last-in-first-out walk of the mock file system, what its order can change, and the mock against the real walk |
| `LineScan.dfy`, `HexScan.dfy`, `LoaderLine.dfy`, `LineFacts.dfy` | `src/main.rs` | the scanners and classifiers of a debug string, and what the scanners find |
| `PhaseC.dfy`, `PhaseCThreads.dfy`, `PhaseCSelection.dfy`, `PhaseCStatus.dfy`, `PhaseCAnswer.dfy`, `PhaseCDocumented.dfy`, `PhaseCTraces.dfy` | `src/main.rs` | the dynamic-failure fold, thread isolation, selection, the reported status, the answer read off the debug strings, the documented selection and traces on which it differs |
| `Pe.dfy`, `PeFacts.dfy`, `PeImage.dfy`, `PeBuilder.dfy` | `src/pe.rs` | the parser, its meaning, the format apart from the parser, the image writers and the round trips |
| `Registry.dfy`, `Chains.dfy`, `Resolver.dfy`, `ResolverFacts.dfy`, `ResolverReads.dfy`, `ForwardBackward.dfy`, `Registering.dfy` | `src/com/registry.rs`, `src/com/resolver.rs` | the mock registry, chain following, both lookups, what they read, forward against backward, a write against both |
| `DebugLoop.dfy`, `DebugProtocol.dfy` | `src/debug_run.rs` | the debug loop, and what each of its runs keeps |
| `CommandLine.dfy` | `src/debug_run.rs` | quoting against the `CommandLineToArgvW` rules |
| `Manifest.dfy`, `ManifestFacts.dfy`, `ManifestScope.dfy`, `ManifestSpelling.dfy`, `ManifestLimits.dfy` | `src/com/manifest.rs` | the scanner, its inverse, file scoping, every spelling of a tag, the limits of the round trip |
| `RunCommand.dfy` | `src/main.rs` | a summary-mode run across the phases |

Functions give each computation as a value; every method that works by changing state is proved
equal to such a function, and the theorems are about the functions. The environment enters as
oracles and inputs: what files exist and import (`World`, `FileSystem`), what the debugger's calls
and the clock answer (`Turn`), how a path is canonicalised and a variable expanded.

Where code and documentation disagree the code is followed, and the difference is proved. The
documentation (docs/loadwhat_spec_v1.md:173-180) discards a candidate whose name loads later, and
ranks equally relevant candidates by age before correlation. The code also discards a full-path
probe whose name loaded earlier (src/main.rs:1922-1923), and ranks correlation before age
(src/main.rs:1940-1941). `PhaseCDocumented` says exactly when the selected candidates differ, and
`PhaseCTraces` gives debug strings on which each difference shows. Also, a module that does not
parse aborts the whole walk (src/main.rs:1340), even where the search found it, which tests headers
alone (src/search.rs:187-196); the mock file system calls such a module a bad image.

Some properties hold only under a condition, which is proved to be exact:

- a registration found forwards is listed by the reverse lookup exactly when its terminal CLSID
  contains no backslash;
- a command line is parsed back exactly when the program name holds no quote and, if it has to be
  quoted, does not end in a backslash; the arguments are unrestricted;
- the early-stopping walk fails exactly when some module does not read or parse and no module
  nearer to the root has a failing import; a module that does not parse further down fails only
  the full walk;
- the mock file system's walk agrees with the real one exactly as far as no reachable module imports
  a file with headers that parse and an import table that does not; there the mock returns and the
  real walk fails;
- the worklist order changes neither the names nor the kinds of the failures; it can change the
  importer that is named, but only where paths to one file have different file names;
- the scan for a status succeeds exactly unless the eight bytes behind some "0x", with no number
  before it, end inside a character; there the source's slice panics;
- a server is read from its first mebibyte exactly when that holds the section table;
- an embedded manifest is read back exactly when the payload is not empty;
- a printed manifest without quotes in its values, and without both a `<` and a `>` in the name of
  a file that declares no class, is read back exactly when no value that a declared class shows
  holds a `>`. A name with both can spell a tag of its own, and does in
  `ManifestLimits.DecoySwallowsAClass`.

## Model

| member | source | states |
|---|---|---|
| `TextFacts.CaseMeaning` | src/main.rs:1801-1801 | folding case changes the 26 letters and nothing else |
| `TextFacts.WhitespaceMeaning` | src/main.rs:1796-1796 | the 25 characters that count as blank |
| `TextFacts.TrimMeaning` | src/main.rs:1796-1796 | trimming takes off all blanks at both ends and nothing else |
| `TextFacts.TrimQuotesMeaning` | src/com/resolver.rs:322-322 | likewise for quotes |
| `TextFacts.FileNameMeaning` | src/main.rs:2303-2306 | a file name is what is behind the last separator of either kind |
| `TextFacts.LexLessMeaning` | src/main.rs:1518-1531 | texts compare by their first difference, or else by length |
| `TextFacts.ContainsMeaning` | src/main.rs:1955-1960 | a text contains another when it is that text with something before and behind it |
| `Search.DedupCaseInsensitive` | src/search.rs:204-214 | the loop with a seen set is the recursive deduplication |
| `Search.DedupMeaning` | src/search.rs:204-214 | no two survivors agree up to case, every listed root agrees with a survivor |
| `Search.DedupAppend` | src/search.rs:204-214 | a path appended to the list survives exactly when its lowercase form is new |
| `Search.PushSystemRoots` | src/search.rs:74-104 | the system directories are pushed in order, System16 only if it exists |
| `Search.ComputeOrderedRoots` | src/search.rs:74-104 | both safe-mode orders, the current directory only where it differs from the application's, deduplicated |
| `Search.DedupDropsRepeat` | src/search.rs:74-104 | a later root that repeats an earlier one up to case can be left out anywhere |
| `Search.CwdTestIsRedundant` | src/search.rs:76-101 | the test for a different current directory never changes the root list |
| `Search.FirstHitSkips` | src/search.rs:114-145 | leading misses do not affect the first hit |
| `Search.ResolveDll` | src/search.rs:107-185 | candidates are a prefix of the roots numbered from 1, all misses but possibly the last; the choice is the first hit; an absolute name is probed alone |
| `Search.DedupKeepsFirstHit` | src/search.rs:107-153 | with a case-blind oracle deduplication keeps the first hit, whatever was seen before |
| `Search.DedupRefinesPlainSearch` | src/search.rs:107-153 | the resolution has the path and kind of the undeduplicated search with the current directory always listed |
| `Search.RootsInOrder` | src/search.rs:74-104 | mode by mode: the current directory stands behind the system directories with safe DLL search, right behind the application's without it; the PATH entries come last |
| `Search.ResolutionMeaning` | src/search.rs:114-153 | a name is missing exactly when no root has a file for it; otherwise the first root that has one decides, and it is found exactly when that file is an image |
| `Search.CandidateMeaning` | src/search.rs:187-196 | each candidate says whether its file is missing, an image or a bad one |
| `Search.ProbeMeaning` | src/search.rs:155-185 | an absolute name is its own and only candidate |
| `ImportWalk.ScanSound` | src/main.rs:1344-1497 | scanning a module keeps one queue entry per key, agreeing with the visited set, and only appends |
| `ImportWalk.ScanNode` | src/main.rs:1328-1497 | one pop moves on by exactly one module and keeps what was queued |
| `ImportWalk.Walker.constructor` | src/main.rs:1321-1327 | the walk starts at the root with depth 0, visited |
| `ImportWalk.Walker.QueueIfUnvisited` | src/main.rs:1535-1552 | queues a module exactly when its key is new, and marks it |
| `ImportWalk.Walker.RecordFailure` | src/main.rs:1393-1497 | one failure: list, count by kind, first issue, depth limit |
| `ImportWalk.Walker.ScanModule` | src/main.rs:1344-1497 | the import loop is the fold over the import list |
| `ImportWalk.Walker.PopFront` | src/main.rs:1328-1333 | takes the oldest queued module |
| `ImportWalk.DiagnoseStaticImports` | src/main.rs:1287-1515 | the queue loop terminates and answers as the walk over the graph does |
| `WalkEarlyStop.ScanRecordsFailures` | src/main.rs:1393-1497 | a module adds exactly its failing imports, in order |
| `WalkEarlyStop.ScanTracksFirst` | src/main.rs:1393-1497 | the running first issue and the depth limit after a module |
| `WalkEarlyStop.ScanEffect` | src/main.rs:1328-1497 | the whole effect of one pop on failures, counts, first issue and limit |
| `WalkEarlyStop.RestIsDeeper` | src/main.rs:1328-1338 | once every queued module is deeper than the first issue's importer, the rest of the walk cannot change it |
| `WalkEarlyStop.WalksAgree` | src/main.rs:1328-1499 | the stopping walk runs in step with the full one until it stops |
| `WalkEarlyStop.EarlyStopLosesNothing` | src/main.rs:1328-1338 | if the full walk returns, the stopping walk returns the same first issue and exactly the shallowest failures with their counts |
| `WalkEarlyStop.ModesAgree` | src/main.rs:1328-1338 | only the failures-only and the summary mode stop early |
| `WalkEarlyStop.WalkCounts` | src/main.rs:1393-1497 | the two counts are the numbers of failures of each kind throughout |
| `WalkEarlyStop.ReportAddsUp` | src/main.rs:1499-1515 | counts add up to the failure list; the first issue is present exactly when they are positive, and no failure precedes it |
| `WalkEarlyStop.FirstIsLeast` | src/main.rs:1518-1532 | the running minimum is a least failure by depth, importer and name |
| `WalkEarlyStop.FirstIssueIsSmallest` | src/main.rs:1518-1532 | of all failures recorded, none is nearer to the root than the first issue, none as near has an earlier importer, and none of its importer an earlier name |
| `WalkEarlyStop.PrecedesIsStrictWeakOrder` | src/main.rs:1518-1532 | the comparison of issues is irreflexive, asymmetric and transitive, and so are its ties |
| `WalkEarlyStop.TieMeansSame` | src/main.rs:1518-1532 | two issues tie exactly when depth, importer and name agree |
| `WalkExact.WalkExplores` | src/main.rs:1328-1499 | every run of the loop keeps: scanned modules have all their targets queued, each at its depth |
| `WalkExact.FollowsWhereItLeads` | src/main.rs:1341-1420 | the walk goes on from an import exactly to where it leads: no API set leads anywhere; at the root a DLL seen loaded leads to the path it was seen at, or seen at none to the one the search chooses; any other leads where the search finds it |
| `WalkExact.ModuleOfRootIsWalked` | src/main.rs:1356-1376 | every failing import of a module that the root leads to, a module seen loaded among them, is recorded at depth 2 |
| `WalkExact.FullWalkEnds` | src/main.rs:1328-1499 | the full walk ends with everything queued scanned, or at a module that does not read |
| `WalkExact.PathDepth` | src/main.rs:1328-1499 | down to the level reached, no module is labelled deeper than any path to it |
| `WalkExact.DepthIsDistance` | src/main.rs:1328-1499 | down to the level reached, a depth label is the shortest distance from the root |
| `WalkExact.FullWalkIsExact` | src/main.rs:1321-1499 | scans exactly the reachable modules, once each, at their distance, and records exactly their failing imports in scan order |
| `WalkExact.FullWalkReturnsExactlyWhen` | src/main.rs:1340-1343 | the full walk returns exactly when every reachable module reads and parses |
| `WalkExact.RecordedFailures` | src/main.rs:1393-1497 | a failure with its importer, depth, kind and candidates is recorded exactly when a module at that distance has that failing import |
| `WalkExact.FailuresByDistance` | src/main.rs:1393-1497 | whatever names modules have, a name fails with a kind at depth d exactly when a module at distance d - 1 has that failing import |
| `WalkExact.EarlyStopFailsExactlyWhen` | src/main.rs:1328-1342 | the stopping walk fails exactly when a module does not parse and none nearer to the root has a failing import, with the error of the full walk |
| `WalkOrder.LifoKeepsExplored` | src/com/fs.rs:140-187 | the last-in-first-out loop keeps its closure invariant |
| `WalkOrder.OrderIsIrrelevant` | src/com/fs.rs:140-187 | the same modules fail alike in any order, in every view of a failure that does not tell its depth or the path its importer was found on |
| `WalkOrder.WorklistOrderKeepsVerdict` | src/com/fs.rs:129-189 | in every world both worklist orders return together and record the same multiset of (name, kind), and of (name, importer, kind) where the paths to a module have one file name; depths are never smaller last-in-first-out |
| `WalkOrderLimits.ImportersCanDiffer` | src/main.rs:1535-1552 | a world with two paths to one file, on which the two orders name different importers |
| `MockFiles.ImportsAreLowercase` | src/pe.rs:55-94 | every import the parser lists is lowercase, so lowercasing it again changes nothing |
| `MockFiles.MockFileSystem.AddRaw` | src/com/fs.rs:94-96 | a file is stored under its lowercased path |
| `MockFiles.MockFileSystem.AddPe` | src/com/fs.rs:99-101 | stores an image whose import list is the ordered set of the names, each up to its first NUL |
| `MockFiles.MockFileSystem.WalkDependencies` | src/com/fs.rs:129-189 | the mock's loop records, name by name, what the last-in-first-out walk over its files records, and fails where it fails |
| `MockFiles.MockAgreesWithQueue` | src/com/fs.rs:129-189 | over the mock's own resolution, first-in-first-out returns exactly when the mock does, with the same multiset of failures |
| `MockAgainstReal.WiderWalkReturnsExactlyWhen` | src/main.rs:1340-1343 | a walk that follows more imports, to modules that do not parse, returns exactly when the narrower one does and meets none of them; then they are one run |
| `MockAgainstReal.MockAgreesWithRealWalk` | src/com/fs.rs:129-189 | with the real classification by headers alone, the real walk returns exactly when the mock does and no module it reaches imports a file whose headers parse and whose import table does not; then both record the same multiset of failures |
| `MockAgainstReal.CutImageIsHalfParsed` | src/pe.rs:628-666 | an image cut off inside its import table is such a file |
| `MockAgainstReal.MockReturnsAlone` | src/com/fs.rs:164-172 | for a root that imports one such file the mock records one bad image, and the real walk fails at the file |
| `MockAgainstReal.CutImport` | src/pe.rs:628-666 | builds the two files for any importable name |
| `LineScan.ReadToken` | src/main.rs:2277-2321 | the walk back over token characters; trimming quotes and blanks off the token changes nothing |
| `LineScan.ExtractDllBasenames` | src/main.rs:2277-2321 | the scanning loop collects the names of the tokens without repeats |
| `LineScan.TokenIsDll` | src/main.rs:2277-2321 | every token yields a name that ends in ".dll", so the two tests of the loop reject nothing |
| `LineScan.BasenamesMeaning` | src/main.rs:2277-2321 | a name is found exactly when some ".dll" in the text ends a token with that name; no name is found twice |
| `LineScan.ExtractCandidatePath` | src/main.rs:2148-2178 | the loop answers the first token that is a path |
| `LineScan.CandidatePathMeaning` | src/main.rs:2148-2178 | that is the first token ending in ".dll" in any case that holds a separator or a colon, and there is none exactly when no token does |
| `HexScan.ExtractFirstHex` | src/main.rs:2259-2275 | the loop over positions is the scan, with its slice of eight bytes |
| `HexScan.ScanHexMeaning` | src/main.rs:2259-2275 | the scan panics exactly when the eight bytes behind some "0x" end inside a character and no number stands before it; otherwise it finds the first number |
| `HexScan.FirstHexMeaning` | src/main.rs:2259-2275 | the number found is the first "0x" that eight hexadecimal digits follow |
| `HexScan.AsciiIsSafe` | src/main.rs:2259-2275 | a text of ASCII characters is never cut |
| `HexScan.CutStatusPanics` | src/main.rs:2259-2275 | a text that is cut |
| `LineFacts.CharsMeaning` | src/main.rs:2283-2297 | the characters of a name and of a token, written out |
| `LineFacts.TokenMeaning` | src/main.rs:2283-2301 | a token is the longest run of token characters up to a ".dll" |
| `LineFacts.BasenameMeaning` | src/main.rs:2303-2311 | its name is its last part, stripped of other characters at both ends |
| `LineFacts.NamesInOrder` | src/main.rs:2277-2321 | the names of a line are in the order of their first occurrences |
| `LineFacts.PathLikeMeaning` | src/main.rs:2172-2174 | a token is a path when it holds a separator or a colon |
| `LineFacts.UnableMeaning` | src/main.rs:2128-2145 | the name behind the first "unable to load dll:" is the first name in the quotes there, or else before the comma; there is none without those words |
| `LineFacts.HexValueMeaning` | src/main.rs:2264-2268 | the number is the positional value of its hexadecimal digits |
| `LineFacts.HexAtMeaning` | src/main.rs:2262-2266 | a number stands where "0x" and eight hexadecimal digits do |
| `LineFacts.CharsInMeaning` | src/main.rs:2264-2264 | the characters of a slice of bytes are those whose UTF-8 encoding is that long |
| `LoaderLine.ReadDebugString` | src/main.rs:1795-1882 | trims, lowercases and scans a debug string into the features the inference uses, or panics |
| `LoaderLine.ScoreAndKindAgree` | src/main.rs:2046-2112 | a line has a kind exactly when its score is positive, so the score test rejects nothing |
| `PhaseC.Inference.RecordDynamicSuccess` | src/main.rs:2034-2043 | keeps the latest event index of a success per name |
| `PhaseC.Inference.OnReturn` | src/main.rs:1818-1844 | a returning load: success, back-fill of the thread's last candidate, end of the attempt |
| `PhaseC.Inference.TrackLoad` | src/main.rs:1805-1844 | a load attempt and a return on one line |
| `PhaseC.Inference.Raise` | src/main.rs:1909-1912 | adds a candidate; only an uncorrelated one becomes the thread's last |
| `PhaseC.Inference.OnDebugString` | src/main.rs:1795-1913 | one debug string has exactly the effect the line has on its own thread |
| `PhaseC.Inference.OnEvent` | src/main.rs:1789-1915 | one event is one step of the fold |
| `PhaseC.PickBest` | src/main.rs:1926-1946 | the head of the sorted unresolved candidates |
| `PhaseC.FoldEvents` | src/main.rs:1789-1915 | the loop over the events as they arrive is the fold of what is read from them, and panics exactly when reading one does |
| `PhaseC.DetectDynamicMissing` | src/main.rs:1779-1952 | the loop over three tables answers as fold, filter and sort do, unless a line panics |
| `PhaseCThreads.ReadingIsLawful` | src/main.rs:1795-1913 | what a line does depends on its event index only through the index stored in its candidate |
| `PhaseCThreads.OtherThreadInvisible` | src/main.rs:1805-1912 | a line of another thread changes nothing of this thread's share |
| `PhaseCThreads.OwnLineIsLocal` | src/main.rs:1805-1912 | a thread's own line acts on its share alone |
| `PhaseCThreads.RunIsLocal` | src/main.rs:1784-1915 | the share of a thread in a run is the run of its own lines |
| `PhaseCThreads.ThreadsAreIsolated` | src/main.rs:1784-1915 | a thread's candidates in any interleaving are those of its own strings alone, indices mapped increasingly |
| `PhaseCSelection.PendingLoadMeaning` | src/main.rs:1805-1843 | a pending load is the last attempt of the thread that nothing has closed |
| `PhaseCSelection.LastLoadIsPending` | src/main.rs:1805-1843 | the table of last loads holds exactly the pending loads |
| `PhaseCSelection.CandidatesAreRaised` | src/main.rs:1833-1840 | back-fill changes only status and reason, never the list |
| `PhaseCSelection.EventIndicesSeparate` | src/main.rs:1895-1909 | candidates have strictly increasing event indices, so the later sort keys never decide |
| `PhaseCSelection.SuccessTable` | src/main.rs:2034-2043 | the table has a name exactly when it was ever loaded, with its latest event |
| `PhaseCSelection.ResolvedIsOffline` | src/main.rs:1917-1924 | resolved means: a later success of the name exists, or for a full-path probe any |
| `PhaseCSelection.SortMeaning` | src/main.rs:1934-1944 | sorting keeps the members and orders them by the eight keys |
| `PhaseCSelection.SelectionMeetsSpec` | src/main.rs:1917-1952 | no winner exactly when all are resolved; else the strict maximum of the unresolved |
| `PhaseCSelection.RankingMeaning` | src/main.rs:1934-1944 | the sort ranks by kind, score, app-local, not framework, correlated, earlier |
| `PhaseCSelection.BestUnique` | src/main.rs:1934-1946 | at most one candidate is best |
| `PhaseCSelection.BackfillKeepsWinner` | src/main.rs:1829-1840 | there is a winner exactly when a candidate is unresolved as raised, and back-fill does not change which one wins |
| `PhaseCSelection.LaterLoadRemovesItsName` | src/main.rs:1791-1794 | a later load of a name removes exactly the candidates of that name from the selection |
| `PhaseCStatus.OpenCandidateMeaning` | src/main.rs:1826-1843 | a thread's open candidate is its last uncorrelated one that no return has closed |
| `PhaseCStatus.LastFailureIsOpen` | src/main.rs:1826-1912 | the table of last failures holds exactly the open candidates |
| `PhaseCStatus.FinalStatus` | src/main.rs:1826-1843 | a candidate ends as it was raised, unless it had no status and its thread's next return, before another uncorrelated candidate, has a loader status; then with that status and reason |
| `PhaseCAnswer.ReasonMeaning` | src/main.rs:1983-2003 | a loader status decides the reason by itself; otherwise the phrases of the line do |
| `PhaseCAnswer.ScoreMeaning` | src/main.rs:2046-2079 | the score of a line is the highest that its phrases earn |
| `PhaseCAnswer.KindMeaning` | src/main.rs:2082-2112 | the kind of a line, by the scores it earns |
| `PhaseCAnswer.RankOfKind` | src/main.rs:1746-1752 | the order of the kinds |
| `PhaseCAnswer.CandidateMeaning` | src/main.rs:1846-1887 | a failure is named after the name behind "unable to load dll", a name on the line, or the load of its thread; a name that tells nothing comes after the load |
| `PhaseCAnswer.LoadMeaning` | src/main.rs:1803-1843 | which debug strings begin a load of their thread, of which DLL and path, and which end it |
| `PhaseCAnswer.RaisedMeaning` | src/main.rs:1846-1909 | which debug strings raise a candidate, and its name, kind, score, status, reason and hints, read off the string and the load it is in |
| `PhaseCAnswer.LoadedMeaning` | src/main.rs:1790-1825 | a name is shown to be loaded by the debugger or by a return of status 0 |
| `PhaseCAnswer.OfferMeaning` | src/main.rs:1826-1840 | a return offers its status to a candidate exactly when it is one of seven |
| `PhaseCAnswer.AnswerIsRead` | src/main.rs:1779-1952 | an answer has the name of a line that reports a failure, and the status and reason of the same line or of the return that fills them in |
| `PhaseCAnswer.StatusGivesReason` | src/main.rs:1983-1987 | over every trace, a reported 0xC0000135 or 0x8007007E comes with NOT_FOUND, and 0xC000007B, 0x800700C1 or 0xC000012F with BAD_IMAGE |
| `PhaseCAnswer.PanicsExactlyWhen` | src/main.rs:1795-1856 | there is no answer exactly when a debug string whose status is looked for makes the scan cut a character |
| `PhaseCDocumented.DiscardDiffersExactlyWhen` | src/main.rs:1917-1924 | the code discards more than documented exactly for full-path probes whose name loaded, but not later |
| `PhaseCDocumented.OrderDiffersExactlyWhen` | src/main.rs:1934-1944 | two candidates are ranked other than documented exactly when only correlation and age are left and the correlated one is the later |
| `PhaseCDocumented.DocumentedBestExists` | src/main.rs:1934-1944 | the documented order picks a candidate from every non-empty list |
| `PhaseCDocumented.DocumentedBestUnique` | src/main.rs:1934-1944 | and only one |
| `PhaseCDocumented.OrdersPickDifferently` | src/main.rs:1934-1946 | over the same candidates the picks differ exactly when the code's is correlated and an equally relevant uncorrelated one is earlier |
| `PhaseCDocumented.SelectionDiffersExactlyWhen` | src/main.rs:1917-1946 | the selected candidate is not the documented one exactly when that is a probe whose name loaded, or is uncorrelated beside an unresolved correlated one as relevant |
| `PhaseCDocumented.NoPickNoWinner` | src/main.rs:1917-1929 | where the documentation keeps no candidate the code selects none |
| `PhaseCTraces.CorrelationBeatsAge` | src/main.rs:1934-1944 | a family of traces, each a list of debug strings as they arrive, that report the DLL a thread was loading where the documentation selects the one an earlier line names |
| `PhaseCTraces.CorrelatedPickHappens` | src/main.rs:1934-1944 | such a trace exists on every machine |
| `PhaseCTraces.EarlierLoadClearsProbe` | src/main.rs:1917-1924 | a family of traces that report nothing where the documentation selects the DLL of a failed full-path load |
| `PhaseCTraces.ClearedProbeHappens` | src/main.rs:1917-1924 | such a trace exists wherever `c:/a.dll` is absolute |
| `Pe.ReadSectionsAppend` | src/pe.rs:154-176 | the section table read one entry at a time |
| `Pe.ParsePeLayout` | src/pe.rs:103-182 | the section loop parses the layout, with every error case of the headers |
| `Pe.NulAt` | src/pe.rs:279-292 | the end of a name is the first NUL, or the end of the file |
| `Pe.ReadCString` | src/pe.rs:279-292 | the index loop reads the bytes up to that NUL, or fails out of bounds, unterminated or not UTF-8 |
| `Pe.InsertMeaning` | src/pe.rs:68-93 | inserting keeps the list strictly increasing and adds one member |
| `Pe.OrderedListUnique` | src/pe.rs:68-93 | a strictly increasing list is determined by its members |
| `Pe.DirectImportsFromBytes` | src/pe.rs:55-94 | the descriptor loop terminates and collects the ordered names |
| `Pe.FindEntryMeaning` | src/pe.rs:219-248 | the answer is the target of the first of the counted entries that matches, and none exactly when none does |
| `Pe.FindResourceEntryByScan` | src/pe.rs:219-248 | the entry loop finds the first entry of the directory with the id |
| `PeFacts.TableGivesImports` | src/pe.rs:55-94 | a descriptor table is read as the strictly increasing list of its lowercased names |
| `PeFacts.ImportsComeFromTable` | src/pe.rs:55-94 | every list read comes from such a table at the mapped offset |
| `PeFacts.LayoutIsPrefixStable` | src/pe.rs:103-182 | a layout parsed from a prefix is the layout of the file |
| `PeFacts.PrefixParsesExactlyWhen` | src/pe.rs:103-182 | a prefix of an image parses exactly when it holds the whole section table |
| `PeFacts.ImportsArePrefixStable` | src/pe.rs:55-94 | so is an import list |
| `PeFacts.ManifestIsPrefixStable` | src/pe.rs:194-248 | so is an embedded manifest |
| `PeImage.Has32Meaning` | src/pe.rs:301-306 | four bytes are read low byte first |
| `PeImage.LayoutExactlyWhen` | src/pe.rs:103-182 | a layout is read exactly off the files that hold it: 32-bit images with the directories 96 bytes into the optional header, and 64-bit ones with 112 |
| `PeImage.LayoutError` | src/pe.rs:103-182 | otherwise which of nine reasons is given: the first that applies |
| `PeImage.MapExactlyWhen` | src/pe.rs:266-277 | an address maps as far into the first section that spans it, within 32 bits |
| `PeImage.Utf8ExactlyWhen` | src/pe.rs:290-291 | bytes are accepted as UTF-8 exactly when they encode some text |
| `PeImage.NameExactlyWhen` | src/pe.rs:279-292 | a name is read exactly where it stands, in UTF-8 and terminated |
| `PeImage.NameError` | src/pe.rs:279-292 | otherwise why: it starts behind the end, nothing terminates it, or it is not UTF-8 |
| `PeImage.ImportsExactlyWhen` | src/pe.rs:55-94 | an import list is read exactly off the files of either format whose import directory is absent or lists these names |
| `PeImage.ImportError` | src/pe.rs:55-94 | otherwise why: the file is no image, its import directory has no place in the file, or some descriptor, the first such, cannot be read |
| `PeImage.LeadsOnExactlyWhen` | src/pe.rs:219-248 | a directory leads on by its first entry with the ID |
| `PeImage.ManifestExactlyWhen` | src/pe.rs:194-217 | an embedded manifest is read exactly off the files of either format whose resource directory leads to it |
| `PeImage.DecodingMeaning` | src/pe.rs:250-264 | UTF-16 behind its byte-order mark is decoded to its units, and anything else is UTF-8 without the mark |
| `PeBuilder.WriteU16` | src/pe.rs:394-396 | writes two bytes and no others |
| `PeBuilder.WriteU32` | src/pe.rs:398-400 | writes four bytes and no others |
| `PeBuilder.BuildTestPe` | src/pe.rs:329-392 | the written array is an import image of the names |
| `PeBuilder.EndedIsText` | src/pe.rs:279-292 | the part of a UTF-8 name before its first NUL is UTF-8 |
| `PeBuilder.As32BitHoldsNames` | src/pe.rs:130-137 | every import list has a 32-bit image |
| `PeBuilder.ImportRoundTrip` | src/pe.rs:55-94 | reading back a file of either format with an import section gives the strictly ordered set of its lowercased names, each up to its first NUL |
| `PeBuilder.PlainImportRoundTrip` | src/pe.rs:55-94 | names without a NUL come back whole |
| `PeBuilder.BuildTestPeWithManifest` | src/pe.rs:402-441 | the extended array is a manifest image of the payload |
| `PeBuilder.ImageHoldsPayload` | src/pe.rs:402-441 | a manifest image is a file whose layout leads to the resources |
| `PeBuilder.ManifestRoundTrip` | src/pe.rs:194-277 | reading back a file of either format gives the payload through three levels and two sections, and nothing exactly when it is empty |
| `Registry.RSplitMeaning` | src/com/registry.rs:238-254 | a key splits at its last backslash |
| `Registry.ListAncestorsLists` | src/com/registry.rs:238-254 | every component of the key is listed under its parent |
| `Registry.SetKeepsValid` | src/com/registry.rs:238-254 | a write keeps every stored key listed up to the root, changes one value and denies nothing |
| `Registry.DenyKeepsValid` | src/com/registry.rs:257-259 | a denial keeps the invariant |
| `Registry.SetListsOnce` | src/com/registry.rs:238-254 | no write lists a name twice under a key, in whatever case |
| `Registry.SortNamesMembers` | src/com/registry.rs:302-313 | sorting the listing loses no child |
| `Registry.MockRegistry.Set` | src/com/registry.rs:238-254 | the loop over ancestors is the write of the specification |
| `Registry.MockRegistry.DenyAccess` | src/com/registry.rs:257-259 | adds one denied key |
| `Registry.MockRegistry.IsDenied` | src/com/registry.rs:261-273 | the upward loop finds a denied ancestor or none |
| `Registry.MockRegistry.Read` | src/com/registry.rs:277-289 | a read is denied, missing or the stored value |
| `Chains.FollowChain` | src/com/resolver.rs:256-302 | the loop over the visited set is the recursive following |
| `Chains.ChaseStops` | src/com/resolver.rs:256-302 | the result is a real chain without repeats, within the limit, stopped for one of the four reasons |
| `Chains.ChaseIsExact` | src/com/resolver.rs:256-302 | a proper chain is returned with its end; a longer or repeating one ends in an untaken redirect |
| `Resolver.ExistingPrefixMeaning` | src/com/resolver.rs:559-577 | the prefix tried is the shortest that ends before a blank and exists |
| `Resolver.LocalServerExeMeaning` | src/com/resolver.rs:559-577 | the server of a command, without its algorithm |
| `Resolver.ExtractLocalServerExe` | src/com/resolver.rs:559-577 | the quoted part, else the shortest prefix that exists, else the whole command if it exists, else the first word |
| `Resolver.InspectServers` | src/com/resolver.rs:304-357 | the two server kinds in order, the first usable one registers |
| `Resolver.FindClsid` | src/com/resolver.rs:250-359 | the loop and the inspection answer as the specification |
| `Resolver.FindProgid` | src/com/resolver.rs:363-449 | likewise for a ProgID, its CurVer chain and the CLSID behind it |
| `Resolver.CollectMatches` | src/com/resolver.rs:595-631 | the nested loops collect the matches in enumeration order |
| `Resolver.FindByPath` | src/com/resolver.rs:583-638 | the loop over views and hives, ending at a denied listing |
| `ResolverFacts.ShadowedHiveDoesNotMatter` | src/com/resolver.rs:199-245 | registries equal in HKCU and, where HKCU neither has nor denies the key, in HKLM resolve alike; the other view is irrelevant |
| `ResolverFacts.TreatAsChains` | src/com/resolver.rs:256-302 | at most 64 redirects reach their terminal, a longer or cyclic chain is broken, whatever it leads to |
| `ResolverFacts.CurVerChains` | src/com/resolver.rs:363-449 | the same with 63 redirects, the input being in the chain |
| `ResolverFacts.SelfTreatAsIsBroken` | src/com/resolver.rs:256-302 | a CLSID redirecting to itself is broken |
| `ResolverFacts.SelfCurVerIsTerminal` | src/com/resolver.rs:363-449 | a ProgID whose CurVer names itself resolves through its own CLSID with itself alone in the chain |
| `ResolverFacts.ProgidIsNeverUnregistered` | src/com/resolver.rs:363-449 | a missing CLSID behind a ProgID reads as a broken ProgID |
| `ResolverFacts.ReverseLookupIsExact` | src/com/resolver.rs:583-638 | lists exactly the registered servers of the views whose normalised path is the given one |
| `ResolverFacts.LookupAnswersExactlyWhen` | src/com/resolver.rs:583-638 | answers exactly when no scanned location denies its listing |
| `ResolverReads.ReadMeaning` | src/com/resolver.rs:214-235 | which hive answers for a value, and what: text as stored or expanded, a refusal, an unusable value or nothing |
| `ResolverReads.ReadUnique` | src/com/resolver.rs:214-235 | and only one outcome fits |
| `ResolverReads.StateMeaning` | src/com/resolver.rs:199-210 | a key is in the first hive that has it or refuses |
| `ResolverReads.StepsMeaning` | src/com/resolver.rs:257-413 | where a CLSID and a ProgID lead, by the values under their own keys |
| `ResolverReads.ServerMeaning` | src/com/resolver.rs:307-342 | the server of a CLSID: its file without blanks and quotes, or the program of its command, and the threading model beside it |
| `ResolverReads.OtherReadsMeaning` | src/com/resolver.rs:345-357 | the keys of the other reads |
| `ResolverReads.TerminalResult` | src/com/resolver.rs:250-359 | every field of the result of a CLSID with a proper chain, by its deciding server |
| `ResolverReads.NamedResult` | src/com/resolver.rs:418-449 | the result of a terminal ProgID is that of the CLSID it names, under its own chain |
| `ResolverReads.IndexMeaning` | src/com/resolver.rs:595-625 | what the reverse lookup reads of a location |
| `ResolverReads.NormalizeMeaning` | src/com/mod.rs:117-122 | paths are compared up to case, kind of separator, and blanks and quotes around them |
| `ResolverReads.ReverseLookupInOrder` | src/com/resolver.rs:590-638 | matches come view by view, the user's before the machine's, and these by CLSID |
| `ResolverReads.InprocComesFirst` | src/com/resolver.rs:605-630 | of two servers of one CLSID the in-process one comes first |
| `ResolverReads.OnlyRefusalsFail` | src/com/resolver.rs:594-604 | only a refusal ends the lookup |
| `ForwardBackward.DenialInherited` | src/com/registry.rs:261-273 | what lies below a denied key is denied |
| `ForwardBackward.ServerIsListed` | src/com/registry.rs:238-313 | a stored server value puts its CLSID into the listing, unless the CLSID has a backslash |
| `ForwardBackward.FoundForwardsIsFoundBackwards` | src/com/resolver.rs:250-359 | a server found forwards is found backwards, exactly when the terminal CLSID has no backslash |
| `Registering.AncestorsAreShorter` | src/com/registry.rs:238-254 | a write lists children only under the ancestors of its key |
| `Registering.WriteIsLocal` | src/com/registry.rs:238-300 | a key longer than the written one's parent reads and exists as before |
| `Registering.RegisteredIsFound` | src/com/resolver.rs:250-359 | after an in-process server is written for a CLSID in HKCU, as a string or an expandable string, whatever else is registered, the CLSID resolves to the text or its expansion |
| `Registering.UnusableIsBroken` | src/com/resolver.rs:214-235 | a stored value that is blank, a number or binary makes the CLSID a broken registration, whatever the machine-wide hive has |
| `Registering.RegisteredIsFoundByPath` | src/com/resolver.rs:583-638 | and the reverse lookup of its path lists it exactly when the CLSID has no backslash |
| `Registering.FoundOnlyForwards` | src/com/resolver.rs:583-638 | one such write into an empty registry, with a backslash, is found forwards and not backwards |
| `DebugLoop.HandleEvent` | src/debug_run.rs:203-265 | the event switch: what is recorded, closed and answered for each event |
| `DebugLoop.TestTimers` | src/debug_run.rs:157-180 | the timeout and drain tests at the top of a turn |
| `DebugLoop.RunTarget` | src/debug_run.rs:157-291 | the loop over any answers of the environment is the fold of its turns |
| `DebugProtocol.WaitIsExact` | src/debug_run.rs:182-187 | the truncating cast is exact whenever its result is used; a wait is positive and at most 250 ms |
| `DebugProtocol.ReceivedKeeps` | src/debug_run.rs:189-273 | receiving an event keeps the protocol and the records, or ends the run with its exit |
| `DebugProtocol.NothingReceivedKeeps` | src/debug_run.rs:189-201 | a wait without an event changes nothing, or fails with the handles closed |
| `DebugProtocol.EveryRunKeepsTheProtocol` | src/debug_run.rs:157-291 | every run is accepted by the protocol monitor, which has the answer due to each event with its constants; a success records the exit, exception, end kind and events as received |
| `DebugProtocol.ProtocolMeaning` | src/debug_run.rs:157-291 | what acceptance means for terminations, continuations and file handles |
| `DebugProtocol.EveryEventIsContinuedOnce` | src/debug_run.rs:157-291 | one continuation per event, as not handled exactly for an exception that is neither a breakpoint nor a single step; one close per file handle, at most one termination; a timeout is reported exactly when it was issued |
| `DebugProtocol.NothingIsLost` | src/debug_run.rs:189-273 | a running loop has received every event delivered |
| `DebugProtocol.AddressTextMeaning` | src/debug_run.rs:391-395 | an address is written with sixteen hexadecimal digits that read as it |
| `DebugProtocol.MillisMeaning` | src/debug_run.rs:158-158 | elapsed time is counted in whole milliseconds |
| `DebugProtocol.TurnEndsExactlyWhen` | src/debug_run.rs:158-201 | how a turn ends the loop: by a failed termination, the drain time, a failed wait or the exit, with the time elapsed |
| `DebugProtocol.TimeoutIsActedOn` | src/debug_run.rs:158-171 | while the loop runs, termination was issued exactly when some turn began past the timeout |
| `DebugProtocol.TerminationIsPrompt` | src/debug_run.rs:158-171 | and then in the first such turn |
| `DebugProtocol.NoRunOutlivesItsDeadline` | src/debug_run.rs:158-180 | with a timeout set, no run goes on 5000 ms past its termination |
| `CommandLine.QuoteCmdArg` | src/debug_run.rs:433-463 | the character loop with its slash counter writes the quoted argument |
| `CommandLine.BuildCommandLine` | src/debug_run.rs:422-431 | program and arguments quoted and joined by single spaces |
| `CommandLine.PlainIsLeftAlone` | src/debug_run.rs:433-437 | exactly the arguments that have characters and no blank, tab or quote are left as they are |
| `CommandLine.QuotedParsesBack` | src/debug_run.rs:438-462 | a quoted argument is read back, whatever its backslashes and quotes |
| `CommandLine.PlainParsesBack` | src/debug_run.rs:434-436 | an argument that needs no quotes is read back |
| `CommandLine.ArgRoundTrip` | src/debug_run.rs:433-463 | every argument is read back and what follows it is left |
| `CommandLine.ArgsRoundTrip` | src/debug_run.rs:422-431 | every argument list is read back |
| `CommandLine.CommandLineRoundTrip` | src/debug_run.rs:422-463 | the whole line is read back exactly when the program name survives its own parsing rule |
| `Manifest.NextAttr` | src/com/manifest.rs:149-178 | each attribute makes the rest shorter |
| `Manifest.NextPiece` | src/com/manifest.rs:74-107 | each round of the tag loop makes the rest shorter |
| `Manifest.ParseAttrList` | src/com/manifest.rs:149-178 | the attribute loop terminates with the attributes |
| `Manifest.TagIter.constructor` | src/com/manifest.rs:66-68 | iteration starts with the whole text |
| `Manifest.TagIter.Next` | src/com/manifest.rs:74-107 | the loop yields the next tag and leaves the text after it |
| `Manifest.TagsByNext` | src/com/manifest.rs:74-107 | all tags are the next one followed by all tags of the rest |
| `Manifest.ParseManifestComClasses` | src/com/manifest.rs:16-46 | the loop with its current file yields the classes of all tags |
| `ManifestFacts.TagsCompose` | src/com/manifest.rs:74-107 | the tags of two texts add up where the first leaves the scanner between tags |
| `ManifestFacts.AttrsRoundTrip` | src/com/manifest.rs:149-178 | printed attributes are read back |
| `ManifestFacts.TagRoundTrip` | src/com/manifest.rs:110-147 | a printed tag is read back |
| `ManifestFacts.ScannerUndoesPrinter` | src/com/manifest.rs:74-178 | from tags, comments, declarations and text the scanner reads exactly the tags, in order |
| `ManifestFacts.CommentsAreInvisible` | src/com/manifest.rs:80-88 | a closed comment between tags of any text changes no class |
| `ManifestScope.ScopeIsLastOpenFile` | src/com/manifest.rs:22-31 | the scope is the last open, not self-closing file tag |
| `ManifestScope.FoundClasses` | src/com/manifest.rs:16-46 | a class is found exactly when a comClass tag has its clsid and attributes and its server is the last file still open there |
| `ManifestScope.ServerIsLastOpenFile` | src/com/manifest.rs:16-46 | what a tag declares stands at its place among the classes, with the last open file before it as server |
| `ManifestScope.ManifestRoundTrip` | src/com/manifest.rs:16-46 | a printed manifest is read back whatever comments, declarations and text surround its tags |
| `ManifestScope.PlainManifestRoundTrip` | src/com/manifest.rs:16-46 | every manifest with clean values prints to such a text |
| `ManifestSpelling.LocalNameMeaning` | src/com/manifest.rs:125-140 | a tag's local name is what is behind its last colon |
| `ManifestSpelling.AttrValueMeaning` | src/com/manifest.rs:54-59 | the value of an attribute is that of the first one with its name, in any case |
| `ManifestSpelling.SpelledTagReads` | src/com/manifest.rs:110-178 | a tag is read from any spelling: prefixes, blanks, either kind of quotes |
| `ManifestSpelling.ScannerReadsAnySpelling` | src/com/manifest.rs:74-178 | from any spelling of any tags, with anything between them, the scanner reads those tags |
| `ManifestSpelling.SpelledManifestRoundTrip` | src/com/manifest.rs:16-178 | a manifest is read back however its tags are spelled and whatever stands between them |
| `ManifestLimits.NoValueHoldsTagEnd` | src/com/manifest.rs:98-105 | no attribute value ever holds a `>` |
| `ManifestLimits.CutFileTagScans` | src/com/manifest.rs:98-147 | a file tag whose name holds a `>` is read as a file tag without a name |
| `ManifestLimits.ManifestRoundTripExactlyWhen` | src/com/manifest.rs:16-178 | without quotes in its values, and without both `<` and `>` in the name of a file that declares no class, a manifest is read back exactly when no value a declared class shows holds a `>` |
| `ManifestLimits.DecoySwallowsAClass` | src/com/manifest.rs:80-88 | with both, the name can open a comment and a class is lost |
| `RunCommand.CollectRuntime` | src/main.rs:245-265 | the loop over loaded modules builds the name set and the path map |
| `RunCommand.ObservedIsPreferred` | src/main.rs:1583-1587 | the path kept for a name is one observed, and none observed has a shorter or smaller key |
| `RunCommand.KeptIsShortest` | src/main.rs:1583-1587 | no path seen under a name has a shorter key than the kept one, nor a smaller one of its length |
| `RunCommand.LoadOrderDoesNotMatter` | src/main.rs:245-265 | the order of loading changes neither the names nor the keys kept |
| `RunCommand.StaticSummary` | src/main.rs:245-333 | the static line is the first issue's, and the counts are zero exactly without one |
| `RunCommand.RunSummary` | src/main.rs:245-535 | one line at most; 10 exactly with a diagnosis line, 0 exactly with SUCCESS, 21 exactly with none; the static first issue before the dynamic one; no code exactly when the inference runs and panics |
| `RunCommand.SummaryNamesTheFullFirstIssue` | src/main.rs:282-333 | the summary line names the full walk's first issue, and a static line exists exactly when the full walk has failures |
| `RunCommand.WorldSeenMeaning` | src/main.rs:245-265 | what the static walk is told of the run |
| `RunCommand.TraceSeenMeaning` | src/main.rs:1789-1799 | what the inference is told of the run: every runtime event, in order |
| `RunCommand.StaticIssueMeaning` | src/main.rs:274-300 | a static issue exactly when the run looks like a failed load, by loader code or by an early exit, and the walk finds one |
| `RunCommand.SummaryMeaning` | src/main.rs:300-535 | the line of a run, case by case: the importer is named below depth 1; success needs exit code 0, or the timeout with a module loaded |

## Left out

- Foreign calls: process creation, handles, remote memory, the real registry and file system. Their answers are inputs.
- `src/loader_snaps.rs`, `src/cli.rs`, `src/emit.rs` and the formatting of lines, which would add only easy members; `RunCommand` keeps what a summary line says and how many there are.
- Trace and test modes of `run_command`, and what comes before a run outcome exists (exit codes 20 to 22).
- Validation of a server file and the audit of a COM target (`src/com/resolver.rs:455-553`, `src/com/resolver.rs:644-830`): each composes results proved here.
- Canonical paths, `PathBuf::join`, environment expansion and the Windows or application-local path tests are oracles. A world gives one import list per canonical key, so two paths with one key are the same file.
- The real search looks in more directories than the mock; `MockAgainstReal` compares the two walks in the application directory alone, and `Search` has the whole order.
- Scanned texts are characters where the source has bytes; only the number scanner can tell, and `HexScan` counts its bytes. Any hexadecimal number is read as a status, with no claim that it is one.
- Text is sequences of characters or bytes: ASCII case folding, UTF-8 checked for validity only, UTF-16 to code units, no lossy conversion.
- The `u32` depth of the walk is unbounded here; `WalkExact.FullWalkIsExact` shows that it stays below the number of modules.
- `Vec::sort_by` and `BTreeSet` are modelled by insertion; the theorems use only the resulting order.
- `ImportWalk.Walker` and `PhaseC.Inference` hold as fields what the source keeps in local variables of one function.
- The undocumented rule of `CommandLineToArgvW` for two quotes in a row inside a quoted part is not modelled; a built line never has two.
- `DebugLoop.RunTarget`: runs over the answers given, so a loop that goes on forever is each of its finite beginnings.
- `PeBuilder.ImportRoundTrip`: names are UTF-8, as the source's string type has them, and the image fits 32 bits.
