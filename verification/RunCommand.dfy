/**
 The summary-mode run (`run_command`, src/main.rs): what the debugger saw is handed to the
 static walk, the walk gates the dynamic inference, and one line and one exit code come out.
 */
module RunCommand {
  import opened Wrappers
  import opened Text
  import D = DebugLoop
  import C = PhaseC
  import L = LoaderLine
  import opened ImportWalk
  import opened WalkEarlyStop

  /** The machine's answers. `world` is everything the static walk needs but what was observed
      at run time; `baseName` takes the file name of a module. */
  datatype Machine = Machine(world: World, phaseC: C.Env, baseName: string -> string)

  // ---------- what was observed at run time ----------

  /** `prefer_runtime_observed_path`: the shorter key, then the smaller one. */
  predicate Prefers(w: World, candidate: Search.Path, existing: Search.Path) {
    var c, e := w.keyOf(candidate), w.keyOf(existing);
    |c| < |e| || (|c| == |e| && LexLess(c, e))
  }

  function LoadedNames(ms: seq<D.LoadedModule>): set<string> {
    if ms == [] then {} else LoadedNames(ms[..|ms| - 1]) + {Lower(ms[|ms| - 1].dllName)}
  }

  function ObservedPaths(w: World, ms: seq<D.LoadedModule>): map<string, Search.Path> {
    if ms == [] then map[]
    else
      var before, m := ObservedPaths(w, ms[..|ms| - 1]), ms[|ms| - 1];
      var dll := Lower(m.dllName);
      if m.path.None? then before
      else if dll in before && !Prefers(w, m.path.value.text, before[dll]) then before
      else before[dll := m.path.value.text]
  }

  method CollectRuntime(w: World, modules: seq<D.LoadedModule>)
    returns (loaded: set<string>, observed: map<string, Search.Path>)
    ensures loaded == LoadedNames(modules) && observed == ObservedPaths(w, modules)
  {
    loaded, observed := {}, map[];
    for i := 0 to |modules|
      invariant loaded == LoadedNames(modules[..i]) && observed == ObservedPaths(w, modules[..i])
    {
      assert modules[..i + 1][..i] == modules[..i];
      var dll := Lower(modules[i].dllName);
      loaded := loaded + {dll};
      if modules[i].path.None? { continue; }
      var path := modules[i].path.value.text;
      if dll in observed {
        if Prefers(w, path, observed[dll]) { observed := observed[dll := path]; }
      } else {
        observed := observed[dll := path];
      }
    }
    assert modules[..|modules|] == modules;
  }

  predicate Names(m: D.LoadedModule, dll: string) {
    m.path.Some? && Lower(m.dllName) == dll
  }

  lemma PrefersTransitive(w: World, a: Search.Path, b: Search.Path, c: Search.Path)
    requires Prefers(w, a, b) && !Prefers(w, c, b)
    ensures !Prefers(w, c, a)
  {
    if Prefers(w, c, a) {
      if |w.keyOf(c)| == |w.keyOf(a)| == |w.keyOf(b)| {
        LexTransitive(w.keyOf(c), w.keyOf(a), w.keyOf(b));
      }
      assert false;
    }
  }

  /** The path kept for a name is that of some module seen under it, and no module seen under
      it has a preferred one. */
  lemma {:induction false} ObservedIsPreferred(w: World, ms: seq<D.LoadedModule>, dll: string)
    ensures dll in LoadedNames(ms) <==> exists m :: m in ms && Lower(m.dllName) == dll
    ensures dll in ObservedPaths(w, ms) <==> exists m :: m in ms && Names(m, dll)
    ensures dll in ObservedPaths(w, ms) ==>
              var kept := ObservedPaths(w, ms)[dll];
              && (exists m :: m in ms && Names(m, dll) && m.path.value.text == kept)
              && (forall m :: m in ms && Names(m, dll) ==> !Prefers(w, m.path.value.text, kept))
    decreases |ms|
  {
    if ms != [] {
      var init, last := ms[..|ms| - 1], ms[|ms| - 1];
      assert ms == init + [last];
      ObservedIsPreferred(w, init, dll);
      if Names(last, dll) {
        var path := last.path.value.text;
        LexIrreflexive(w.keyOf(path));
        if dll in ObservedPaths(w, init) && Prefers(w, path, ObservedPaths(w, init)[dll]) {
          forall m | m in init && Names(m, dll) ensures !Prefers(w, m.path.value.text, path) {
            PrefersTransitive(w, path, ObservedPaths(w, init)[dll], m.path.value.text);
          }
        }
      }
    }
  }

  /** That is: no module seen under the name has a shorter key, nor a smaller one of the same length. */
  lemma KeptIsShortest(w: World, ms: seq<D.LoadedModule>, m: D.LoadedModule)
    requires m in ms && m.path.Some?
    ensures var dll, key := Lower(m.dllName), w.keyOf(m.path.value.text);
            && dll in ObservedPaths(w, ms)
            && var kept := w.keyOf(ObservedPaths(w, ms)[dll]);
               |kept| < |key| || (|kept| == |key| && !LexLess(key, kept))
  {
    ObservedIsPreferred(w, ms, Lower(m.dllName));
  }

  /** The order in which modules were loaded does not matter. */
  lemma LoadOrderDoesNotMatter(w: World, ms: seq<D.LoadedModule>, ms': seq<D.LoadedModule>)
    requires forall m :: m in ms <==> m in ms'
    ensures LoadedNames(ms) == LoadedNames(ms')
    ensures ObservedPaths(w, ms).Keys == ObservedPaths(w, ms').Keys
    ensures forall dll :: dll in ObservedPaths(w, ms) ==>
              w.keyOf(ObservedPaths(w, ms)[dll]) == w.keyOf(ObservedPaths(w, ms')[dll])
  {
    forall dll: string
      ensures dll in LoadedNames(ms) <==> dll in LoadedNames(ms')
      ensures dll in ObservedPaths(w, ms) <==> dll in ObservedPaths(w, ms')
      ensures dll in ObservedPaths(w, ms) ==>
                w.keyOf(ObservedPaths(w, ms)[dll]) == w.keyOf(ObservedPaths(w, ms')[dll])
    {
      ObservedIsPreferred(w, ms, dll);
      ObservedIsPreferred(w, ms', dll);
      if dll in ObservedPaths(w, ms) {
        LexTotal(w.keyOf(ObservedPaths(w, ms)[dll]), w.keyOf(ObservedPaths(w, ms')[dll]));
      }
    }
  }

  // ---------- the gates ----------

  predicate HeuristicEarlyFail(o: D.RunOutcome) {
    o.endKind.EndExitProcess? && o.exitCode.Some? && o.exitCode.value != 0
    && o.elapsedMs < 1500 && |o.loadedModules| <= 6
  }

  /** Whether the static walk runs. */
  predicate WalksImports(o: D.RunOutcome) {
    (o.exceptionCode.Some? && L.IsLoaderRelatedCode(o.exceptionCode.value)) || HeuristicEarlyFail(o)
  }

  /** `run_result_code` */
  function RunResultCode(o: D.RunOutcome, diagnosisCount: nat): int {
    if diagnosisCount > 0 then 10
    else if o.endKind.EndExitProcess? && o.exitCode == Some(0) then 0
    else if o.endKind.EndTimeout? && o.loadedModules != [] then 0
    else 21
  }

  // ---------- the lines ----------

  datatype SummaryLine =
    | StaticMissing(dll: string, via: Option<(string, nat)>)
    | StaticBadImage(dll: string)
    | DynamicMissing(dynamic: C.DynamicMissing)
    | Success

  function LineFor(issue: Failure): SummaryLine {
    if issue.kind == Search.Missing
    then StaticMissing(issue.dll, if issue.depth > 1 then Some((issue.via, issue.depth)) else None)
    else StaticBadImage(issue.dll)
  }

  /** What the static walk sees of the run. */
  function WorldSeen(machine: Machine, o: D.RunOutcome): World {
    machine.world.(runtimeLoaded := LoadedNames(o.loadedModules),
                   runtimeObserved := ObservedPaths(machine.world, o.loadedModules))
  }

  /** What the dynamic inference sees of the run. */
  function TraceSeen(machine: Machine, events: seq<D.RuntimeEvent>): seq<C.RawEvent> {
    if events == [] then []
    else
      var before, e := TraceSeen(machine, events[..|events| - 1]), events[|events| - 1];
      match e
      case RuntimeLoaded(m) => before + [C.RawLoaded(machine.baseName(m.dllName))]
      case DebugString(_, tid, text) => before + [C.RawDebug(tid, text)]
  }

  /** The first issue, when the walk runs and returns with one. */
  ghost function StaticIssue(machine: Machine, o: D.RunOutcome): Option<Failure> {
    if !WalksImports(o) then None
    else
      var answer := Answer(Run(WorldSeen(machine, o), SummaryOnly));
      if answer.Ok? then answer.value.first else None
  }

  function DynamicIssue(machine: Machine, o: D.RunOutcome): Result<Option<C.DynamicMissing>, L.Panic> {
    C.DetectRaw(machine.phaseC, TraceSeen(machine, o.runtimeEvents))
  }

  /** The dynamic inference runs, and a debug string ends it. */
  ghost predicate InferencePanics(machine: Machine, snaps: bool, o: D.RunOutcome) {
    snaps && StaticIssue(machine, o).None? && DynamicIssue(machine, o).Err?
  }

  /** The line owed to a run: the static first issue, else the dynamic one, else success. */
  ghost function LinesOwed(machine: Machine, snaps: bool, o: D.RunOutcome): seq<SummaryLine> {
    var issue := StaticIssue(machine, o);
    if issue.Some? then [LineFor(issue.value)]
    else if InferencePanics(machine, snaps, o) then []
    else if snaps && DynamicIssue(machine, o).value.Some? then [DynamicMissing(DynamicIssue(machine, o).value.value)]
    else if RunResultCode(o, 0) == 0 then [Success]
    else []
  }

  /** The part of a run before the inference: `first_issue` and the counts, which the source keeps
      apart; that they agree is the walk's invariant. */
  method StaticSummary(machine: Machine, o: D.RunOutcome) returns (lines: seq<SummaryLine>, count: nat)
    ensures var issue := StaticIssue(machine, o);
            && lines == (if issue.Some? then [LineFor(issue.value)] else [])
            && (count == 0 <==> issue.None?)
  {
    lines, count := [], 0;
    var loaded, observed := CollectRuntime(machine.world, o.loadedModules);
    if WalksImports(o) {
      var w := machine.world.(runtimeLoaded := loaded, runtimeObserved := observed);
      var diag := DiagnoseStaticImports(w, SummaryOnly);
      if diag.Ok? {
        ReportAddsUp(w, SummaryOnly);
        count := diag.value.missing + diag.value.badImage;
        if diag.value.first.Some? {
          var issue := diag.value.first.value;
          match issue.kind {
            case Missing =>
              var via := if issue.depth > 1 then Some((issue.via, issue.depth)) else None;
              lines := lines + [StaticMissing(issue.dll, via)];
            case BadImage =>
              lines := lines + [StaticBadImage(issue.dll)];
            case Found =>
          }
        }
      }
    }
  }

  /** A run in summary mode, from the outcome of the debug loop on, with its exit code; without
      one the program panicked, and then it printed nothing. The code and the lines say the same
      thing: at most one line; 10 exactly with one diagnosis line, 0 exactly with one SUCCESS line,
      21 exactly with none. */
  method RunSummary(machine: Machine, snaps: bool, o: D.RunOutcome)
    returns (lines: seq<SummaryLine>, code: Option<int>)
    ensures lines == LinesOwed(machine, snaps, o) && |lines| <= 1
    ensures code.None? <==> InferencePanics(machine, snaps, o)
    ensures code.Some? ==> code.value in {0, 10, 21}
    ensures code == Some(10) <==> |lines| == 1 && !lines[0].Success?
    ensures code == Some(0) <==> |lines| == 1 && lines[0].Success?
    ensures code == Some(21) <==> lines == [] && code.Some?
  {
    var dynamicCount, staticCount: nat := 0, 0;
    lines, staticCount := StaticSummary(machine, o);
    var lineEmitted := lines != [];

    if snaps && staticCount == 0 {
      var found := C.DetectDynamicMissing(machine.phaseC, TraceSeen(machine, o.runtimeEvents));
      if found.Err? {
        return lines, None;
      }
      if found.value.Some? {
        lines := lines + [DynamicMissing(found.value.value)];
        dynamicCount := 1;
        lineEmitted := true;
      }
    }

    code := Some(RunResultCode(o, staticCount + dynamicCount));
    if !lineEmitted && code == Some(0) {
      lines := lines + [Success];
    }
  }

  // ---------- what a summary means ----------

  /** A run that looks like a failed load: it ended with an exception or exit code of the loader's, or by
      itself with a code other than 0, in less than 1500 ms and with at most six modules loaded. */
  predicate LooksFailed(o: D.RunOutcome) {
    || (o.exceptionCode.Some?
        && o.exceptionCode.value in {0xC0000135, 0xC0000139, 0xC000007B, 0xC0000142, 0xC000001D,
                                     0x8007007E, 0x800700C1})
    || (o.endKind == D.EndExitProcess && o.exitCode.Some? && o.exitCode.value > 0
        && o.elapsedMs < 1500 && |o.loadedModules| < 7)
  }

  /** A run that went well: it exited with code 0, or was still going at the timeout with modules loaded. */
  predicate WentWell(o: D.RunOutcome) {
    match o.endKind
    case EndExitProcess => o.exitCode == Some(0)
    case EndTimeout => |o.loadedModules| > 0
    case EndException => false
  }

  /** What the static walk is told of the run: the names of all modules seen loaded, and under each name
      a path it was seen at. The rest of its world is the machine's. */
  lemma WorldSeenMeaning(machine: Machine, o: D.RunOutcome, dll: string)
    ensures var w, ms := WorldSeen(machine, o), o.loadedModules;
            && (dll in w.runtimeLoaded <==> exists m :: m in ms && Lower(m.dllName) == dll)
            && (dll in w.runtimeObserved <==> exists m :: m in ms && Names(m, dll))
            && (dll in w.runtimeObserved ==>
                  exists m :: m in ms && Names(m, dll) && m.path.value.text == w.runtimeObserved[dll])
            && w.(runtimeLoaded := {}, runtimeObserved := map[])
               == machine.world.(runtimeLoaded := {}, runtimeObserved := map[])
  {
    ObservedIsPreferred(machine.world, o.loadedModules, dll);
  }

  /** What the inference is told of the run: every runtime event, in order. */
  lemma {:induction false} TraceSeenMeaning(machine: Machine, events: seq<D.RuntimeEvent>)
    ensures |TraceSeen(machine, events)| == |events|
    ensures forall i :: 0 <= i < |events| ==>
              TraceSeen(machine, events)[i] ==
              match events[i]
              case RuntimeLoaded(m) => C.RawLoaded(machine.baseName(m.dllName))
              case DebugString(_, tid, text) => C.RawDebug(tid, text)
  {
    if events != [] { TraceSeenMeaning(machine, events[..|events| - 1]); }
  }

  /** There is a static issue exactly when the run looks like a failed load and the walk finds one. */
  lemma StaticIssueMeaning(machine: Machine, o: D.RunOutcome, issue: Failure)
    ensures StaticIssue(machine, o) == Some(issue) <==>
              && LooksFailed(o)
              && var answer := Answer(Run(WorldSeen(machine, o), SummaryOnly));
                 answer.Ok? && answer.value.first == Some(issue)
  {
  }

  /** The line of a run: that of the static issue, naming the importer of a DLL missing below the root's
      own imports; without one, and with loader snaps on, that of the dynamic issue; without that,
      success for a run that went well. */
  lemma SummaryMeaning(machine: Machine, snaps: bool, o: D.RunOutcome)
    ensures var lines, dynamic := LinesOwed(machine, snaps, o), DynamicIssue(machine, o);
            match StaticIssue(machine, o)
            case Some(Failure(dll, via, depth, kind, _)) =>
              var importer := if depth < 2 then None else Some((via, depth));
              lines == [if kind == Search.Missing then StaticMissing(dll, importer) else StaticBadImage(dll)]
            case None =>
              && (snaps && dynamic.Err? ==> lines == [])
              && (snaps && dynamic.Ok? && dynamic.value.Some? ==> lines == [DynamicMissing(dynamic.value.value)])
              && (!snaps || (dynamic.Ok? && dynamic.value.None?) ==> lines == if WentWell(o) then [Success] else [])
  {
  }

  /** The summary names the first issue of the full walk, whenever that walk returns; and then a
      run that walks its imports has a static line exactly when the full walk has failures. */
  lemma SummaryNamesTheFullFirstIssue(machine: Machine, snaps: bool, o: D.RunOutcome)
    requires WalksImports(o) && Answer(Run(WorldSeen(machine, o), Full)).Ok?
    ensures var full, lines := Answer(Run(WorldSeen(machine, o), Full)).value, LinesOwed(machine, snaps, o);
            && (full.first.Some? ==> lines == [LineFor(full.first.value)])
            && (full.failures != [] <==> |lines| == 1 && (lines[0].StaticMissing? || lines[0].StaticBadImage?))
  {
    var w := WorldSeen(machine, o);
    EarlyStopLosesNothing(w, Full, SummaryOnly);
    ReportAddsUp(w, Full);
  }
}
