/**
 Two traces on which the selected candidate is not the documented one: debug strings as they
 arrive, read by the scanners.
 */
module PhaseCTraces {
  import opened Wrappers
  import opened Text
  import opened LineScan
  import opened HexScan
  import opened LoaderLine
  import opened PhaseC
  import opened PhaseCSelection
  import opened PhaseCDocumented

  // ---------- reading concrete texts ----------

  /** A pattern with a character that the text lacks is not in it. */
  lemma Lacks(text: string, pat: string, c: char)
    requires c in pat && c !in text
    ensures !Contains(text, pat)
  {
    var k :| 0 <= k < |pat| && pat[k] == c;
    forall i ensures !MatchAt(text, pat, i) {
      if 0 <= i && i + |pat| <= |text| { assert text[i..i + |pat|][k] == text[i + k]; }
    }
  }

  predicate IsPlainText(text: string) {
    && text != [] && !IsWhitespace(text[0]) && !IsWhitespace(text[|text| - 1])
    && forall i :: 0 <= i < |text| ==> text[i] as int < 0x80 && !('A' <= text[i] <= 'Z')
  }

  lemma {:induction false} LowerPlain(text: string)
    requires forall i :: 0 <= i < |text| ==> !('A' <= text[i] <= 'Z')
    ensures Lower(text) == text
  {
    if text != [] {
      LowerPlain(text[1..]);
      assert text == [text[0]] + text[1..];
    }
  }

  lemma PlainReads(text: string)
    requires IsPlainText(text)
    ensures Lower(text) == text
    ensures ReadLine(text) == ReadText(text, DllBasenames(text), CandidatePath(text), UnableDll(text))
  {
    LowerPlain(text);
    assert Trim(text) == text;
  }

  lemma PlainIsSafe(text: string)
    requires IsPlainText(text)
    ensures !LinePanics(text)
  {
    LowerPlain(text);
    assert Trim(text) == text;
    AsciiIsSafe(text);
  }

  /** A text that lacks a character of the marker names nothing behind it. */
  lemma NoUnable(text: string, c: char)
    requires c in UNABLE && c !in text
    ensures UnableDll(text).None?
  {
    Lacks(text, UNABLE, c);
  }

  // ---------- scanning concrete texts ----------

  lemma {:induction false} TokenStartsAt(text: string, start: nat, at: nat)
    requires start <= at <= |text| && forall i :: start <= i < at ==> IsTokenChar(text[i])
    requires start == 0 || !IsTokenChar(text[start - 1])
    ensures TokenStart(text, at) == start
    decreases at
  {
    if start < at { TokenStartsAt(text, start, at - 1); }
  }

  /** A token with one dot, behind a text without any and a character that no token holds. */
  predicate StandsAlone(before: string, token: string) {
    && '.' !in before && (before == [] || !IsTokenChar(before[|before| - 1]))
    && EndsInDll(token) && (forall i :: 0 <= i < |token| ==> IsTokenChar(token[i]))
    && forall i :: 0 <= i < |token| && token[i] == '.' ==> i == |token| - 4
  }

  lemma OneDll(before: string, token: string)
    requires StandsAlone(before, token)
    ensures var text := before + token; FindDll(text, 0) == Some(|text| - 4) && TokenAt(text, |text| - 4) == token
  {
    var text := before + token;
    var at := |text| - 4;
    FindDllIsFirst(text, 0, at);
    var found := FindDll(text, 0).value;
    assert text[found] == '.';
    TokenStartsAt(text, |before|, at);
  }

  lemma OneToken(before: string, token: string)
    requires StandsAlone(before, token)
    ensures TokensFrom(before + token, 0) == [token]
  {
    var text := before + token;
    OneDll(before, token);
    assert TokensFrom(text, |text|) == [];
    assert [token] + [] == [token];
  }

  lemma OneName(before: string, token: string)
    requires StandsAlone(before, token)
    ensures DllBasenames(before + token) == [BasenameOf(token)]
  {
    OneToken(before, token);
    BasenameOfDll(token);
    AddStep(token, [], []);
    assert [token] + [] == [token];
    assert Unique([], [BasenameOf(token)]) == [BasenameOf(token)];
  }

  lemma PathAtEnd(text: string, token: string)
    requires |text| >= 4 && FindDll(text, 0) == Some(|text| - 4) && TokenAt(text, |text| - 4) == token
    ensures PathFrom(text, text, 0) == if IsPathLike(token) then Some(token) else None
  {
    assert PathFrom(text, text, |text|).None?;
  }

  lemma OnePath(before: string, token: string)
    requires StandsAlone(before, token) && Lower(before + token) == before + token
    ensures CandidatePath(before + token) == if IsPathLike(token) then Some(token) else None
  {
    OneDll(before, token);
    PathAtEnd(before + token, token);
  }

  lemma {:induction false} NoDot(text: string, offset: nat)
    requires '.' !in text && offset <= |text|
    ensures FindDll(text, offset).None?
    decreases |text| - offset
  {
    if offset + 4 <= |text| { NoDot(text, offset + 1); }
  }

  lemma DotFree(text: string)
    requires '.' !in text && Lower(text) == text
    ensures DllBasenames(text) == [] && CandidatePath(text).None?
  {
    NoDot(text, 0);
  }

  /** What is behind the last separator of a token is its name. */
  lemma NameBehind(prefix: string, name: string)
    requires prefix == [] || IsSeparator(prefix[|prefix| - 1])
    requires name != [] && forall i :: 0 <= i < |name| ==> IsNameChar(name[i])
    ensures BasenameOf(prefix + name) == name
  {
    SegmentStartsAt(prefix + name, |prefix|, |prefix + name|);
    assert (prefix + name)[|prefix|..] == name;
    NothingToTrim(name, IsNoNameChar);
  }

  lemma {:induction false} SegmentStartsAt(p: string, start: nat, end: nat)
    requires start <= end <= |p| && forall i :: start <= i < end ==> !IsSeparator(p[i])
    requires start == 0 || IsSeparator(p[start - 1])
    ensures SegmentStart(p, end) == start
  {
    if start < end { SegmentStartsAt(p, start, end - 1); }
  }

  /** A text without dashes reports no return, no probe, and none of the marked failures. */
  lemma DashFree(text: string)
    requires '-' !in text
    ensures !LooksLikeReturn(text) && !IsIgnoredProbeLine(text)
    ensures !SaysUnableToLoad(text) && !SaysInitRoutineFailed(text) && !SaysSearchPathFailed(text)
  {
    NoReturn(text);
    NoProbe(text);
    NoMarkedFailure(text);
  }

  lemma NoReturn(text: string)
    requires '-' !in text
    ensures !LooksLikeReturn(text)
  {
    Lacks(text, "ldrloaddll - return", '-');
    Lacks(text, "ldrploaddllinternal - return", '-');
  }

  lemma NoProbe(text: string)
    requires '-' !in text
    ensures !IsIgnoredProbeLine(text)
  {
    Lacks(text, "ldrpfindknowndll - return", '-');
    Lacks(text, "ldrpresolvedllname - return", '-');
    Lacks(text, "ldrpresolvefilename - return", '-');
    Lacks(text, "ldrpfindloadeddllinternal - return", '-');
    Lacks(text, "ldrpreporterror - warning: locating export", '-');
  }

  lemma NoMarkedFailure(text: string)
    requires '-' !in text
    ensures !SaysUnableToLoad(text) && !SaysInitRoutineFailed(text) && !SaysSearchPathFailed(text)
  {
    Lacks(text, "ldrpprocesswork - error: unable to load dll", '-');
    Lacks(text, "- error: unable to load dll", '-');
    Lacks(text, "ldrpinitializenode - error: init routine", '-');
    Lacks(text, "ldrpsearchpath - return", '-');
  }

  lemma NoCode(text: string)
    requires '0' !in text
    ensures !HasLoaderFailureCode(text)
  {
    Lacks(text, "0xc0000135", '0');
    Lacks(text, "0x8007007e", '0');
    Lacks(text, "0xc000007b", '0');
    Lacks(text, "0xc000012f", '0');
    Lacks(text, "0x800700c1", '0');
    Lacks(text, "0xc0000139", '0');
    Lacks(text, "0xc0000142", '0');
  }

  lemma NoAttempt(text: string)
    requires '-' !in text && 'y' !in text && ':' !in text
    ensures !LooksLikeLoadAttempt(text)
  {
    Lacks(text, "dll name:", ':');
    Lacks(text, "ldrloaddll - enter", '-');
    Lacks(text, "loadlibrary", 'y');
  }

  // ---------- the features of four lines ----------

  /** A line that opens a load of `dll`. */
  predicate Opens(line: Line, dll: string) {
    && !line.blank && line.dlls == [dll] && line.path.None?
    && line.looksLikeAttempt && !line.looksLikeReturn && line.kind.None?
  }

  /** A line that reports a failure of the given kind and score, and a load neither begun nor ended. */
  predicate Complains(line: Line, kind: CandidateKind, score: nat) {
    && !line.blank && !line.looksLikeAttempt && !line.looksLikeReturn && !line.ignoredProbe
    && line.kind == Some(kind) && line.score == score && score > 0
    && line.unable.None?
  }

  /** Texts that can only be read as the opening of a load. */
  predicate IsOpening(text: string) {
    && IsPlainText(text) && Contains(text, ".dll") && Contains(text, "dll name:")
    && Avoids(text, '-', '0', 'f', 'w', 'u')
  }

  /** Texts that can only be read as a failed walk of the import tables. */
  predicate IsWalking(text: string) {
    && IsPlainText(text) && "walking the import tables" <= text
    && Avoids(text, '-', 'y', ':', 'f', 'f')
  }

  /** Texts that can only be read as a failed load. */
  predicate IsFailedLoad(text: string) {
    && IsPlainText(text) && Contains(text, "ldrloaddll") && Contains(text, "failed")
    && Avoids(text, '-', 'n', 'b', 'w', 'p')
  }

  /** The scanners find these names, and no path. */
  predicate Names(text: string, dlls: seq<string>) {
    DllBasenames(text) == dlls && CandidatePath(text).None?
  }

  /** None of the five characters occurs. */
  predicate Avoids(text: string, a: char, b: char, c: char, d: char, e: char) {
    forall i :: 0 <= i < |text| ==> text[i] != a && text[i] != b && text[i] != c && text[i] != d && text[i] != e
  }

  lemma OpeningReads(text: string, dll: string)
    requires IsOpening(text) && Names(text, [dll])
    ensures Opens(ReadLine(text), dll)
  {
    PlainReads(text);
    DashFree(text);
    NoCode(text);
    Lacks(text, "failed", 'f');
    Lacks(text, "process initialization failed", 'f');
    Lacks(text, "_ldrpinitialize - error", '-');
    Lacks(text, "walking the import tables", 'w');
  }

  lemma WalkingReads(text: string, dlls: seq<string>)
    requires IsWalking(text) && Names(text, dlls)
    ensures var line := ReadLine(text);
            Complains(line, InitializeProcessFailure, 90) && line.dlls == dlls && line.path.None?
  {
    PlainReads(text);
    DashFree(text);
    NoAttempt(text);
    NoUnable(text, ':');
    assert MatchAt(text, "walking the import tables", 0);
    Lacks(text, "failed", 'f');
  }

  lemma ProbeReads(text: string, dll: string, path: Path)
    requires IsFailedLoad(text) && DllBasenames(text) == [dll] && CandidatePath(text) == Some(path)
    ensures var line := ReadLine(text);
            Complains(line, LoadDllFailed, 80) && line.dlls == [dll] && line.path == Some(path)
  {
    PlainReads(text);
    DashFree(text);
    NoUnable(text, 'n');
    Lacks(text, "dll name:", 'n');
    Lacks(text, "ldrloaddll - enter", '-');
    Lacks(text, "loadlibrary", 'b');
    Lacks(text, "walking the import tables", 'w');
    Lacks(text, "process initialization failed", 'p');
    Lacks(text, "_ldrpinitialize - error", '-');
  }

  // ---------- correlation before age ----------

  /** The run reports `reported` on a trace for which the documentation selects `documented`. */
  ghost predicate TellsApart(env: Env, trace: seq<RawEvent>, reported: Option<string>, documented: string) {
    var events := ReadTrace(trace);
    && DetectRaw(env, trace).Ok?
    && reported == (match DetectRaw(env, trace).value case None => None case Some(found) => Some(found.dll))
    && exists d :: IsDocumentedPick(env, events, d) && d.dll == documented
  }

  predicate AllPlain(trace: seq<RawEvent>) {
    forall i :: 0 <= i < |trace| && trace[i].RawDebug? ==> IsPlainText(trace[i].text)
  }

  lemma TellsApartBy(env: Env, trace: seq<RawEvent>, events: seq<Event>, reported: Option<string>, d: Candidate)
    requires AllPlain(trace)
    requires events == ReadTrace(trace) && IsDocumentedPick(env, events, d)
    requires reported == match Detect(env, events) case None => None case Some(found) => Some(found.dll)
    ensures TellsApart(env, trace, reported, d.dll)
  {
    AnyPanicsMeaning(trace, |trace|);
    forall i | 0 <= i < |trace| ensures !EventPanics(trace[i]) {
      if trace[i].RawDebug? { PlainIsSafe(trace[i].text); }
    }
  }

  /** Thread 1 begins to load `a`; a line of thread 2 names `b`; a line of thread 1 names nothing. */
  function Crossing(begin: Line, named: Line, unnamed: Line): seq<Event> {
    [Debug(1, begin), Debug(2, named), Debug(1, unnamed)]
  }

  predicate IsCrossing(begin: Line, named: Line, unnamed: Line, a: string, b: string) {
    && Opens(begin, a) && !IsNoiseDll(a) && !IsNoiseDll(b)
    && Complains(named, InitializeProcessFailure, 90) && named.dlls == [b] && named.path.None?
    && Complains(unnamed, InitializeProcessFailure, 90) && unnamed.dlls == [] && unnamed.path.None?
  }

  function RaisedBy(line: Line, idx: nat, tid: Tid, dll: string, correlated: bool): Candidate {
    Candidate(idx, tid, dll, line.status, line.reason, 90, InitializeProcessFailure, false, false, false, correlated)
  }

  /** One more line of a trace. */
  lemma NextLine(env: Env, events: seq<Event>, n: nat, e: Effect)
    requires n < |events| && events[n].Debug?
    requires e == EffectOf(env, n, events[n].tid, events[n].line,
                           Lookup(Run(Reading(env), events, n).lastLoad, events[n].tid))
    ensures Run(Reading(env), events, n + 1) == Apply(Run(Reading(env), events, n), n, events[n].tid, e)
  {
    StepIsApply(env, Run(Reading(env), events, n), n, events[n].tid, events[n].line, e);
  }

  lemma CrossingRuns(env: Env, begin: Line, named: Line, unnamed: Line, a: string, b: string)
    requires IsCrossing(begin, named, unnamed, a, b)
    ensures var events := Crossing(begin, named, unnamed);
            var st := Run(Reading(env), events, 3);
            && st.candidates == [RaisedBy(named, 1, 2, b, false), RaisedBy(unnamed, 2, 1, a, true)]
            && st.successes == map[]
  {
    var events := Crossing(begin, named, unnamed);
    var ctx := Some(LoadContext(a, None));
    var e0 := Effect(ctx, None, None, false, None);
    assert EffectOf(env, 0, 1, begin, None) == e0;
    NextLine(env, events, 0, e0);
    var st1 := Run(Reading(env), events, 1);
    assert Run(Reading(env), events, 0) == EMPTY;
    assert Lookup(st1.lastLoad, 1) == ctx && Lookup(st1.lastLoad, 2).None? && st1.candidates == [];
    var e1 := Effect(None, None, None, false, Some(RaisedBy(named, 1, 2, b, false)));
    assert EffectOf(env, 1, 2, named, None) == e1;
    NextLine(env, events, 1, e1);
    var st2 := Run(Reading(env), events, 2);
    assert st2.candidates == [RaisedBy(named, 1, 2, b, false)] && st2.successes == map[];
    assert Lookup(st2.lastLoad, 1) == ctx;
    var e2 := Effect(ctx, None, None, false, Some(RaisedBy(unnamed, 2, 1, a, true)));
    assert EffectOf(env, 2, 1, unnamed, ctx) == e2;
    NextLine(env, events, 2, e2);
  }

  /** The correlated candidate wins, though the documented pick is the earlier one. */
  lemma CrossingSelects(env: Env, begin: Line, named: Line, unnamed: Line, a: string, b: string)
    requires IsCrossing(begin, named, unnamed, a, b)
    ensures var events := Crossing(begin, named, unnamed);
            && Winner(env, events) == Some(RaisedBy(unnamed, 2, 1, a, true))
            && IsDocumentedPick(env, events, RaisedBy(named, 1, 2, b, false))
  {
    var events := Crossing(begin, named, unnamed);
    var x, y := RaisedBy(named, 1, 2, b, false), RaisedBy(unnamed, 2, 1, a, true);
    CrossingRuns(env, begin, named, unnamed, a, b);
    NothingLoads(env, events, x);
    NothingLoads(env, events, y);
    SelectionMeetsSpec(env, events);
    RankingMeaning(x, y);
    assert y in [x, y] && x in [x, y];
  }

  lemma NothingLoads(env: Env, events: seq<Event>, c: Candidate)
    requires Run(Reading(env), events, |events|).successes == map[]
    ensures !LaterLoaded(env, events, c) && !ResolvedOffline(env, events, c)
  {
    SuccessTable(env, events, |events|, c.dll);
    assert !EverLoads(env, events, |events|, c.dll);
  }

  /** The debug strings of a crossing. */
  function CrossingTrace(begin: string, named: string, unnamed: string): seq<RawEvent> {
    [RawDebug(1, begin), RawDebug(2, named), RawDebug(1, unnamed)]
  }

  /** On any such trace the run reports the DLL that the thread was loading, where the documented
      selection is the one that the earlier line names. */
  lemma CorrelationBeatsAge(env: Env, begin: string, named: string, unnamed: string, a: string, b: string)
    requires IsOpening(begin) && IsWalking(named) && IsWalking(unnamed)
    requires Names(begin, [a]) && Names(named, [b]) && Names(unnamed, [])
    requires !IsNoiseDll(a) && !IsNoiseDll(b)
    ensures TellsApart(env, CrossingTrace(begin, named, unnamed), Some(a), b)
  {
    var trace := CrossingTrace(begin, named, unnamed);
    var l0 := OpeningLine(begin, a);
    var l1 := WalkingLine(named, [b]);
    var l2 := WalkingLine(unnamed, []);
    CrossingIsPlain(begin, named, unnamed);
    CrossingReads(begin, named, unnamed, l0, l1, l2);
    CrossingTells(env, trace, l0, l1, l2, a, b);
  }

  lemma CrossingIsPlain(begin: string, named: string, unnamed: string)
    requires IsPlainText(begin) && IsPlainText(named) && IsPlainText(unnamed)
    ensures AllPlain(CrossingTrace(begin, named, unnamed))
  {
  }

  lemma CrossingReads(begin: string, named: string, unnamed: string, l0: Line, l1: Line, l2: Line)
    requires l0 == ReadLine(begin) && l1 == ReadLine(named) && l2 == ReadLine(unnamed)
    ensures ReadTrace(CrossingTrace(begin, named, unnamed)) == Crossing(l0, l1, l2)
  {
    ReadThree(RawDebug(1, begin), RawDebug(2, named), RawDebug(1, unnamed));
  }

  lemma OpeningLine(text: string, dll: string) returns (line: Line)
    requires IsOpening(text) && Names(text, [dll])
    ensures line == ReadLine(text) && Opens(line, dll)
  {
    line := ReadLine(text);
    OpeningReads(text, dll);
  }

  lemma WalkingLine(text: string, dlls: seq<string>) returns (line: Line)
    requires IsWalking(text) && Names(text, dlls)
    ensures line == ReadLine(text)
    ensures Complains(line, InitializeProcessFailure, 90) && line.dlls == dlls && line.path.None?
  {
    line := ReadLine(text);
    WalkingReads(text, dlls);
  }

  lemma CrossingTells(env: Env, trace: seq<RawEvent>, l0: Line, l1: Line, l2: Line, a: string, b: string)
    requires AllPlain(trace) && ReadTrace(trace) == Crossing(l0, l1, l2) && IsCrossing(l0, l1, l2, a, b)
    ensures TellsApart(env, trace, Some(a), b)
  {
    CrossingDetects(env, l0, l1, l2, a, b);
    TellsApartBy(env, trace, Crossing(l0, l1, l2), Some(a), RaisedBy(l1, 1, 2, b, false));
  }

  lemma CrossingDetects(env: Env, begin: Line, named: Line, unnamed: Line, a: string, b: string)
    requires IsCrossing(begin, named, unnamed, a, b)
    ensures var events := Crossing(begin, named, unnamed);
            && Detect(env, events).Some? && Detect(env, events).value.dll == a
            && IsDocumentedPick(env, events, RaisedBy(named, 1, 2, b, false))
  {
    CrossingSelects(env, begin, named, unnamed, a, b);
  }

  lemma ReadPush(events: seq<RawEvent>, e: RawEvent)
    ensures ReadTrace(events + [e]) == ReadTrace(events) + [ReadEvent(e)]
  {
    var longer := events + [e];
    assert longer[..|longer| - 1] == events;
  }

  lemma ReadTwo(x: RawEvent, y: RawEvent)
    ensures ReadTrace([x, y]) == [ReadEvent(x), ReadEvent(y)]
  {
    ReadPush([], x);
    ReadPush([x], y);
    assert [] + [x] == [x] && [x] + [y] == [x, y];
  }

  lemma ReadThree(x: RawEvent, y: RawEvent, z: RawEvent)
    ensures ReadTrace([x, y, z]) == [ReadEvent(x), ReadEvent(y), ReadEvent(z)]
  {
    ReadTwo(x, y);
    ReadPush([x, y], z);
    assert [x, y] + [z] == [x, y, z];
  }

  // ---------- an earlier load clears a full-path probe ----------

  lemma ProbeSelects(env: Env, line: Line, dll: string, path: Path) returns (d: Candidate)
    requires Complains(line, LoadDllFailed, 80) && line.dlls == [dll] && line.path == Some(path) && !IsNoiseDll(dll)
    requires env.isAbsolute(path)
    ensures var events := [Loaded(dll), Debug(1, line)];
            Winner(env, events).None? && IsDocumentedPick(env, events, d) && d.dll == dll
  {
    var events := [Loaded(dll), Debug(1, line)];
    var st1 := Run(Reading(env), events, 1);
    assert Run(Reading(env), events, 0) == EMPTY && st1.lastLoad == map[] && st1.candidates == [];
    var e := EffectOf(env, 1, 1, line, None);
    NextLine(env, events, 1, e);
    d := e.candidate.value;
    assert d.fullPathProbe && d.dll == dll && d.eventIdx == 1;
    var st := Run(Reading(env), events, 2);
    assert st.candidates == [d];
    assert LoadsAt(env, events, 0) == Some(dll);
    SelectionMeetsSpec(env, events);
  }

  /** A module loads, and a line then reports that its full path failed to. */
  function ProbeTrace(dll: string, text: string): seq<RawEvent> {
    [RawLoaded(dll), RawDebug(1, text)]
  }

  /** On any such trace the run reports nothing, where the documented selection is the DLL: it
      loaded before the failure, not later. */
  lemma EarlierLoadClearsProbe(env: Env, text: string, dll: string, path: Path)
    requires IsFailedLoad(text) && DllBasenames(text) == [dll] && CandidatePath(text) == Some(path)
    requires !IsNoiseDll(dll) && env.isAbsolute(path)
    ensures TellsApart(env, ProbeTrace(dll, text), None, dll)
  {
    var line := ProbeLine(text, dll, path);
    ProbeIsPlain(text, dll);
    ProbeTraceReads(text, dll, line);
    ProbeTells(env, ProbeTrace(dll, text), line, dll, path);
  }

  lemma ProbeIsPlain(text: string, dll: string)
    requires IsPlainText(text)
    ensures AllPlain(ProbeTrace(dll, text))
  {
  }

  lemma ProbeTraceReads(text: string, dll: string, line: Line)
    requires line == ReadLine(text)
    ensures ReadTrace(ProbeTrace(dll, text)) == [Loaded(dll), Debug(1, line)]
  {
    ReadTwo(RawLoaded(dll), RawDebug(1, text));
  }

  lemma ProbeLine(text: string, dll: string, path: Path) returns (line: Line)
    requires IsFailedLoad(text) && DllBasenames(text) == [dll] && CandidatePath(text) == Some(path)
    ensures line == ReadLine(text)
    ensures Complains(line, LoadDllFailed, 80) && line.dlls == [dll] && line.path == Some(path)
  {
    line := ReadLine(text);
    ProbeReads(text, dll, path);
  }

  lemma ProbeTells(env: Env, trace: seq<RawEvent>, line: Line, dll: string, path: Path)
    requires AllPlain(trace) && ReadTrace(trace) == [Loaded(dll), Debug(1, line)]
    requires Complains(line, LoadDllFailed, 80) && line.dlls == [dll] && line.path == Some(path) && !IsNoiseDll(dll)
    requires env.isAbsolute(path)
    ensures TellsApart(env, trace, None, dll)
  {
    var d := ProbeSelects(env, line, dll, path);
    TellsApartBy(env, trace, [Loaded(dll), Debug(1, line)], None, d);
  }

  // ---------- such traces exist ----------

  lemma Includes(before: string, pat: string, after: string)
    ensures Contains(before + (pat + after), pat)
  {
    assert MatchAt(before + (pat + after), pat, |before|);
  }

  lemma AvoidsConcat(s: string, t: string, a: char, b: char, c: char, d: char, e: char)
    requires Avoids(s, a, b, c, d, e) && Avoids(t, a, b, c, d, e)
    ensures Avoids(s + t, a, b, c, d, e)
  {
  }

  /** A token behind a text, with the name in it. */
  predicate Holds(before: string, token: string, name: string) {
    && StandsAlone(before, token) && BasenameOf(token) == name
    && IsPlainText(before + token) && !IsNoiseDll(name)
  }

  lemma HeldIsFound(before: string, token: string, name: string)
    requires Holds(before, token, name)
    ensures DllBasenames(before + token) == [name]
    ensures CandidatePath(before + token) == if IsPathLike(token) then Some(token) else None
  {
    LowerPlain(before + token);
    OneName(before, token);
    OnePath(before, token);
  }

  /** The first part of a plain text, without a dot and up to a blank. */
  predicate IsLead(before: string) {
    && before != [] && !IsWhitespace(before[0]) && before[|before| - 1] == ' '
    && forall i :: 0 <= i < |before| ==> before[i] != '.' && before[i] as int < 0x80 && !('A' <= before[i] <= 'Z')
  }

  /** A lowercase token with one dot. */
  predicate IsLittleToken(token: string) {
    && EndsInDll(token)
    && (forall i :: 0 <= i < |token| ==> IsTokenChar(token[i]) && !('A' <= token[i] <= 'Z'))
    && (forall i :: 0 <= i < |token| && token[i] == '.' ==> i == |token| - 4)
  }

  lemma HoldsToken(before: string, token: string, name: string)
    requires IsLead(before) && IsLittleToken(token) && BasenameOf(token) == name && !IsNoiseDll(name)
    ensures Holds(before, token, name)
  {
    var text := before + token;
    assert text[0] == before[0] && text[|text| - 1] == token[|token| - 1] == 'l';
  }

  lemma TokenA()
    ensures IsLittleToken("a.dll") && !IsNoiseDll("a.dll") && BasenameOf("a.dll") == "a.dll"
  {
    NameBehind([], "a.dll");
    assert [] + "a.dll" == "a.dll";
  }

  lemma TokenB()
    ensures IsLittleToken("b.dll") && !IsNoiseDll("b.dll") && BasenameOf("b.dll") == "b.dll"
  {
    NameBehind([], "b.dll");
    assert [] + "b.dll" == "b.dll";
  }

  lemma TokenOfA()
    ensures IsLittleToken("c:/a.dll") && BasenameOf("c:/a.dll") == "a.dll" && IsPathLike("c:/a.dll")
  {
    NameBehind("c:/", "a.dll");
    assert "c:/" + "a.dll" == "c:/a.dll";
    assert "c:/a.dll"[1] == ':';
  }

  lemma OpensWith(before: string, token: string, name: string)
    requires Holds(before, token, name) && !IsPathLike(token)
    requires Avoids(before, '-', '0', 'f', 'w', 'u') && Avoids(token, '-', '0', 'f', 'w', 'u')
    requires Contains(before + token, ".dll") && Contains(before + token, "dll name:")
    ensures IsOpening(before + token) && Names(before + token, [name])
  {
    HeldIsFound(before, token, name);
    AvoidsConcat(before, token, '-', '0', 'f', 'w', 'u');
  }

  lemma OpeningParts()
    ensures IsLead("dll name: ") && Avoids("dll name: ", '-', '0', 'f', 'w', 'u')
    ensures Avoids("a.dll", '-', '0', 'f', 'w', 'u') && !IsPathLike("a.dll")
  {
  }

  lemma OpeningText()
    ensures IsOpening("dll name: " + "a.dll") && Names("dll name: " + "a.dll", ["a.dll"])
  {
    TokenA();
    OpeningParts();
    OpeningIncludes();
    HoldsToken("dll name: ", "a.dll", "a.dll");
    OpensWith("dll name: ", "a.dll", "a.dll");
  }

  lemma OpeningIncludes()
    ensures Contains("dll name: " + "a.dll", "dll name:") && Contains("dll name: " + "a.dll", ".dll")
  {
    Includes([], "dll name:", " a.dll");
    assert [] + ("dll name:" + " a.dll") == "dll name: " + "a.dll";
    Includes("dll name: a", ".dll", []);
    assert "dll name: a" + (".dll" + []) == "dll name: " + "a.dll";
  }

  lemma WalksWith(before: string, token: string, name: string)
    requires Holds(before, token, name) && !IsPathLike(token) && "walking the import tables" <= before
    requires Avoids(before, '-', 'y', ':', 'f', 'f') && Avoids(token, '-', 'y', ':', 'f', 'f')
    ensures IsWalking(before + token) && Names(before + token, [name])
  {
    HeldIsFound(before, token, name);
    AvoidsConcat(before, token, '-', 'y', ':', 'f', 'f');
  }

  lemma WalkingParts()
    ensures IsLead("walking the import tables ") && Avoids("walking the import tables ", '-', 'y', ':', 'f', 'f')
    ensures Avoids("b.dll", '-', 'y', ':', 'f', 'f') && !IsPathLike("b.dll")
  {
  }

  lemma NamedWalkingText()
    ensures IsWalking("walking the import tables " + "b.dll")
    ensures Names("walking the import tables " + "b.dll", ["b.dll"])
  {
    TokenB();
    WalkingParts();
    HoldsToken("walking the import tables ", "b.dll", "b.dll");
    WalksWith("walking the import tables ", "b.dll", "b.dll");
  }

  lemma WalksAlone(text: string)
    requires IsPlainText(text) && '.' !in text && "walking the import tables" <= text
    requires Avoids(text, '-', 'y', ':', 'f', 'f')
    ensures IsWalking(text) && Names(text, [])
  {
    LowerPlain(text);
    DotFree(text);
  }

  lemma WalkingText()
    ensures IsWalking("walking the import tables") && Names("walking the import tables", [])
  {
    WalkingWords();
    WalksAlone("walking the import tables");
  }

  lemma WalkingWords()
    ensures IsPlainText("walking the import tables") && '.' !in "walking the import tables"
    ensures Avoids("walking the import tables", '-', 'y', ':', 'f', 'f')
  {
  }

  /** The program can receive a trace on which correlation beats age, against the documentation. */
  lemma CorrelatedPickHappens(env: Env)
    ensures exists trace :: TellsApart(env, trace, Some("a.dll"), "b.dll")
  {
    OpeningText();
    NamedWalkingText();
    WalkingText();
    TokenA();
    TokenB();
    CorrelationBeatsAge(env, "dll name: " + "a.dll", "walking the import tables " + "b.dll",
                        "walking the import tables", "a.dll", "b.dll");
  }

  lemma FailsWith(before: string, token: string, name: string)
    requires Holds(before, token, name) && IsPathLike(token)
    requires Avoids(before, '-', 'n', 'b', 'w', 'p') && Avoids(token, '-', 'n', 'b', 'w', 'p')
    requires Contains(before + token, "ldrloaddll") && Contains(before + token, "failed")
    ensures IsFailedLoad(before + token)
    ensures DllBasenames(before + token) == [name] && CandidatePath(before + token) == Some(token)
  {
    HeldIsFound(before, token, name);
    AvoidsConcat(before, token, '-', 'n', 'b', 'w', 'p');
  }

  lemma FailedLoadParts()
    ensures IsLead("ldrloaddll failed ") && Avoids("ldrloaddll failed ", '-', 'n', 'b', 'w', 'p')
    ensures Avoids("c:/a.dll", '-', 'n', 'b', 'w', 'p')
  {
  }

  lemma FailedLoadText()
    ensures var text := "ldrloaddll failed " + "c:/a.dll";
            IsFailedLoad(text) && DllBasenames(text) == ["a.dll"] && CandidatePath(text) == Some("c:/a.dll")
  {
    TokenA();
    TokenOfA();
    FailedLoadParts();
    FailedLoadIncludes();
    HoldsToken("ldrloaddll failed ", "c:/a.dll", "a.dll");
    FailsWith("ldrloaddll failed ", "c:/a.dll", "a.dll");
  }

  lemma FailedLoadIncludes()
    ensures Contains("ldrloaddll failed " + "c:/a.dll", "ldrloaddll")
    ensures Contains("ldrloaddll failed " + "c:/a.dll", "failed")
  {
    Includes([], "ldrloaddll", " failed c:/a.dll");
    assert [] + ("ldrloaddll" + " failed c:/a.dll") == "ldrloaddll failed " + "c:/a.dll";
    Includes("ldrloaddll ", "failed", " c:/a.dll");
    assert "ldrloaddll " + ("failed" + " c:/a.dll") == "ldrloaddll failed " + "c:/a.dll";
  }

  /** And one on which an earlier load clears a full-path probe. */
  lemma ClearedProbeHappens(env: Env)
    requires env.isAbsolute("c:/a.dll")
    ensures exists trace :: TellsApart(env, trace, None, "a.dll")
  {
    FailedLoadText();
    TokenA();
    EarlierLoadClearsProbe(env, "ldrloaddll failed " + "c:/a.dll", "a.dll", "c:/a.dll");
  }
}
