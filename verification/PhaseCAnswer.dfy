/**
 The answer of the dynamic-failure inference, read off the debug strings as they arrive: which of
 them raise a candidate, what it is named after, how it ranks, and what it is blamed on. The
 phrases and codes of the loader are written out here, apart from the classifiers.
 */
module PhaseCAnswer {
  import opened Wrappers
  import opened Text
  import opened LineScan
  import opened HexScan
  import opened LoaderLine
  import opened PhaseC
  import opened PhaseCSelection
  import opened PhaseCStatus

  /** What a debug string says: the text that phrases are looked for in. */
  function Said(e: RawEvent): string
    requires e.RawDebug?
  {
    Lower(Trim(e.text))
  }

  // ---------- reasons ----------

  /** A loader status decides the reason by itself; otherwise the phrases of the line do. */
  predicate IsReasonOf(text: string, status: Option<nat>, reason: Reason) {
    var notFound := Contains(text, "not found") || Contains(text, "could not be found");
    var badImage := Contains(text, "bad image") || Contains(text, "invalid image")
                    || Contains(text, "not a valid win32 application");
    if status.Some? && status.value in {0xC0000135, 0x8007007E} then reason == NotFound
    else if status.Some? && status.value in {0xC000007B, 0x800700C1, 0xC000012F} then reason == BadImage
    else (reason == NotFound <==> notFound) && (reason == BadImage <==> badImage && !notFound)
  }

  /** A text that contains `pat` contains every end of it. */
  lemma ContainsEnd(text: string, pat: string, end: string)
    requires |end| <= |pat| && pat[|pat| - |end|..] == end && Contains(text, pat)
    ensures Contains(text, end)
  {
    var i :| 0 <= i <= |text| && MatchAt(text, pat, i);
    var at := i + (|pat| - |end|);
    assert text[i..i + |pat|][|pat| - |end|..] == text[at..at + |end|];
    assert MatchAt(text, end, at);
  }

  lemma ReasonMeaning(text: string, status: Option<nat>)
    ensures IsReasonOf(text, status, ClassifyReason(text, status))
  {
    if Contains(text, "file not found") { ContainsEnd(text, "file not found", "not found"); }
  }

  // ---------- scores and kinds ----------

  /** The text has the code of a failed load. */
  predicate WritesCode(text: string) {
    || Contains(text, "0xc0000135") || Contains(text, "0x8007007e") || Contains(text, "0xc000007b")
    || Contains(text, "0xc000012f") || Contains(text, "0x800700c1") || Contains(text, "0xc0000139")
    || Contains(text, "0xc0000142")
  }

  /** The text is about loading. */
  predicate IsAboutLoading(text: string) {
    || Contains(text, "ldrloaddll") || Contains(text, "ldrploadllinternal") || Contains(text, "loadlibrary")
    || Contains(text, "unable to load dll") || Contains(text, "dll name:") || Contains(text, "ldrpsearchpath")
    || Contains(text, "process initialization failed") || Contains(text, "_ldrpinitialize")
    || Contains(text, "walking the import tables")
  }

  /** What the text says earns it this score. */
  predicate Earns(text: string, points: nat) {
    || (points == 100 && Contains(text, "ldrpprocesswork - error: unable to load dll"))
    || (points == 95 && Contains(text, "- error: unable to load dll"))
    || (points == 92 && Contains(text, "ldrpinitializenode - error: init routine")
        && Contains(text, "failed during dll_process_attach"))
    || (points == 90 && Contains(text, "walking the import tables"))
    || (points == 85 && (Contains(text, "process initialization failed")
                         || Contains(text, "_ldrpinitialize - error")))
    || (points == 80 && Contains(text, "ldrloaddll") && Contains(text, "failed"))
    || (points == 70 && Contains(text, "ldrpsearchpath - return") && WritesCode(text))
    || (points == 60 && WritesCode(text) && IsAboutLoading(text)
        && (Contains(text, "failed") || Contains(text, "error")))
  }

  /** The score of a line is the highest that it earns. */
  lemma ScoreMeaning(text: string)
    ensures FailureScore(text) > 0 ==> Earns(text, FailureScore(text))
    ensures forall points: nat :: Earns(text, points) ==> points <= FailureScore(text)
  {
  }

  /** A failure by the scores it earns. A failed load outranks a failed initialization, unless it
      is a failed initialization routine, although it scores less. */
  ghost predicate IsKindOf(text: string, kind: CandidateKind) {
    match kind
    case UnableToLoadDll => Earns(text, 95)
    case LoadDllFailed => Earns(text, 80) && !Earns(text, 95) && !Earns(text, 92)
    case InitializeProcessFailure =>
      !Earns(text, 95) && (Earns(text, 92) || ((Earns(text, 90) || Earns(text, 85)) && !Earns(text, 80)))
    case SearchPathFailure =>
      Earns(text, 70) && forall points: nat :: points > 70 ==> !Earns(text, points)
    case Other => Earns(text, 60) && forall points: nat :: points > 60 ==> !Earns(text, points)
  }

  lemma HighestEarnsNext(text: string)
    ensures Earns(text, 100) ==> Earns(text, 95)
  {
    if Earns(text, 100) {
      ContainsEnd(text, "ldrpprocesswork - error: unable to load dll", "- error: unable to load dll");
    }
  }

  lemma KindMeaning(text: string, kind: CandidateKind)
    ensures ClassifyKind(text) == Some(kind) <==> IsKindOf(text, kind)
  {
    ScoreAndKindAgree(text);
    ScoreMeaning(text);
    HighestEarnsNext(text);
  }

  predicate IsFailureLine(text: string) {
    exists points: nat | points <= 100 :: Earns(text, points)
  }

  ghost predicate IsScoreOf(text: string, score: nat) {
    Earns(text, score) && forall points: nat :: Earns(text, points) ==> points <= score
  }

  /** A line is a failure when it earns a score; then its kind and score are as follows. */
  lemma RankMeaning(text: string)
    ensures ClassifyKind(text).Some? && FailureScore(text) > 0 <==> IsFailureLine(text)
    ensures ClassifyKind(text).Some? ==>
              IsKindOf(text, ClassifyKind(text).value) && IsScoreOf(text, FailureScore(text))
  {
    ScoreAndKindAgree(text);
    ScoreMeaning(text);
    if ClassifyKind(text).Some? { KindMeaning(text, ClassifyKind(text).value); }
  }

  /** The kinds, from the least terminal failure to the most. */
  const KINDS_IN_ORDER: seq<CandidateKind> :=
    [Other, SearchPathFailure, InitializeProcessFailure, LoadDllFailed, UnableToLoadDll]

  lemma RankOfKind(kind: CandidateKind)
    ensures 0 <= KindRank(kind) < 5 && KINDS_IN_ORDER[KindRank(kind)] == kind
  {
  }

  // ---------- names ----------

  /** A DLL that every process has: it tells nothing. */
  predicate TellsNothing(dll: string) {
    || "api-ms-win-" <= dll || "ext-ms-" <= dll
    || dll == "ntdll.dll" || dll == "kernel32.dll" || dll == "kernelbase.dll" || dll == "user32.dll"
    || dll == "gdi32.dll" || dll == "advapi32.dll" || dll == "sechost.dll" || dll == "msvcrt.dll"
    || dll == "ucrtbase.dll"
  }

  predicate SomeTells(dlls: seq<string>) {
    exists d | d in dlls :: !TellsNothing(d)
  }

  ghost predicate FirstTelling(dlls: seq<string>, i: int) {
    0 <= i < |dlls| && !TellsNothing(dlls[i]) && forall j :: 0 <= j < i ==> TellsNothing(dlls[j])
  }

  ghost predicate IsFirstTelling(dlls: seq<string>, dll: string) {
    exists i :: FirstTelling(dlls, i) && dlls[i] == dll
  }

  lemma {:induction false} PickBestMeaning(dlls: seq<string>)
    ensures PickBestDll(dlls).Some? <==> SomeTells(dlls)
    ensures PickBestDll(dlls).Some? ==> IsFirstTelling(dlls, PickBestDll(dlls).value)
  {
    if dlls != [] {
      PickBestMeaning(dlls[1..]);
      assert dlls == [dlls[0]] + dlls[1..];
      if !TellsNothing(dlls[0]) {
        assert FirstTelling(dlls, 0);
      } else if SomeTells(dlls[1..]) {
        var i :| FirstTelling(dlls[1..], i) && dlls[1..][i] == PickBestDll(dlls).value;
        var k := i + 1;
        assert FirstTelling(dlls, k) && dlls[k] == PickBestDll(dlls).value;
      }
    }
  }

  /** The DLL among those on a line: the first that tells something, or else the first. */
  ghost predicate IsDllOf(dlls: seq<string>, dll: string) {
    if SomeTells(dlls) then IsFirstTelling(dlls, dll) else dlls != [] && dlls[0] == dll
  }

  lemma LineDllMeaning(dlls: seq<string>, dll: string)
    ensures LineDll(dlls) == Some(dll) <==> IsDllOf(dlls, dll)
    ensures LineDll(dlls).None? <==> dlls == []
  {
    PickBestMeaning(dlls);
  }

  /** What a failure is named after: by preference the name behind "unable to load dll", a name on
      the line, the load that the thread is in; but a name that tells nothing comes after the load. */
  ghost predicate IsNameOf(unable: Option<string>, dlls: seq<string>, load: Option<LoadContext>, dll: string) {
    if unable.Some? && !TellsNothing(unable.value) then dll == unable.value
    else if SomeTells(dlls) then IsFirstTelling(dlls, dll)
    else if load.Some? then dll == load.value.dll
    else if unable.Some? then dll == unable.value
    else dlls != [] && dll == dlls[0]
  }

  // ---------- what an event does ----------

  /** The text reports that a load returned. */
  predicate IsReturnLine(text: string) {
    Contains(text, "ldrloaddll - return") || Contains(text, "ldrploaddllinternal - return")
  }

  /** The text reports a probe that may fail. */
  predicate IsProbeLine(text: string) {
    || Contains(text, "ldrpfindknowndll - return") || Contains(text, "ldrpresolvedllname - return")
    || Contains(text, "ldrpresolvefilename - return") || Contains(text, "ldrpfindloadeddllinternal - return")
    || Contains(text, "ldrpreporterror - warning: locating export")
  }

  /** The text reports that a load begins. */
  predicate IsAttemptLine(text: string) {
    Contains(text, "dll name:") || Contains(text, "ldrloaddll - enter") || Contains(text, "loadlibrary")
  }

  /** Debug string `e` of thread `t` ends the load that the thread is in. */
  predicate Ends(e: RawEvent, t: Tid) {
    e.RawDebug? && e.tid == t && IsReturnLine(Said(e)) && FirstHex(Said(e)).Some?
  }

  /** Debug string `e` of thread `t` begins a load. */
  predicate Begins(e: RawEvent, t: Tid) {
    && e.RawDebug? && e.tid == t && !Ends(e, t)
    && IsAttemptLine(Said(e)) && DllBasenames(Said(e)) != []
  }

  lemma NamesAreSaid(text: string)
    ensures DllBasenames(text) != [] ==> Contains(text, ".dll")
  {
    BasenamesMeaning(text);
    if DllBasenames(text) != [] {
      assert DllBasenames(text)[0] in DllBasenames(text);
      var at: nat :| Yields(text, at, DllBasenames(text)[0]);
      assert MatchAt(text, ".dll", at);
    }
  }

  lemma BlankSaysNothing(pat: string)
    requires pat != []
    ensures !Contains([], pat)
  {
  }

  lemma LoadMeaning(e: RawEvent, t: Tid)
    ensures ClosesLoad(ReadEvent(e), t) <==> Ends(e, t)
    ensures OpensLoad(ReadEvent(e), t) <==> Begins(e, t)
    ensures OpensLoad(ReadEvent(e), t) ==>
              var load := AttemptContext(ReadEvent(e).line);
              IsDllOf(DllBasenames(Said(e)), load.dll) && load.path == CandidatePath(Trim(e.text))
  {
    if e.RawDebug? {
      NamesAreSaid(Said(e));
      if DllBasenames(Said(e)) != [] {
        LineDllMeaning(DllBasenames(Said(e)), LineDll(DllBasenames(Said(e))).value);
      }
      if Said(e) == [] {
        BlankSaysNothing("ldrloaddll - return");
        BlankSaysNothing("ldrploaddllinternal - return");
      }
    }
  }

  /** Where a candidate's file is: the path on the line, or else that of the load. */
  function PathFor(text: string, load: Option<LoadContext>): Option<Path> {
    if CandidatePath(text).Some? then CandidatePath(text)
    else if load.Some? then load.value.path else None
  }

  /** When a line raises a candidate, and what it is named after. */
  lemma CandidateMeaning(env: Env, idx: nat, tid: Tid, line: Line, load: Option<LoadContext>)
    ensures var c := CandidateOf(env, idx, tid, line, load);
            && (c.Some? <==> !line.ignoredProbe && line.kind.Some? && line.score > 0
                             && (line.unable.Some? || line.dlls != [] || load.Some?))
            && (c.Some? ==>
                  && IsNameOf(line.unable, line.dlls, load, c.value.dll)
                  && (c.value.threadCorrelated <==> line.unable.None? && line.dlls == []))
  {
    PickBestMeaning(line.dlls);
  }

  /** What else a candidate says. */
  lemma CandidateFields(env: Env, idx: nat, tid: Tid, line: Line, load: Option<LoadContext>)
    requires CandidateOf(env, idx, tid, line, load).Some?
    ensures line.kind.Some?
    ensures var c := CandidateOf(env, idx, tid, line, load).value;
            var path := if line.path.Some? then line.path else if load.Some? then load.value.path else None;
            c == Candidate(
              idx, tid, c.dll, line.status, line.reason, line.score, line.kind.value,
              path.Some? && env.isAppLocal(path.value),
              (path.Some? && env.isWindowsOrGac(path.value)) || TellsNothing(c.dll),
              path.Some? && env.isAbsolute(path.value) && c.kind != Other && c.kind != InitializeProcessFailure,
              c.threadCorrelated)
  {
  }

  /** Debug string `e` raises a candidate for a thread in this load. */
  predicate Raises(e: RawEvent, load: Option<LoadContext>) {
    && e.RawDebug? && !IsProbeLine(Said(e)) && IsFailureLine(Said(e))
    && (UnableDll(Said(e)).Some? || DllBasenames(Said(e)) != [] || load.Some?)
  }

  /** The candidate `c` is what `e` says of a thread in this load. */
  ghost predicate IsSaid(env: Env, e: RawEvent, load: Option<LoadContext>, c: Candidate)
    requires e.RawDebug?
  {
    var text := Said(e);
    var path := PathFor(Trim(e.text), load);
    && IsNameOf(UnableDll(text), DllBasenames(text), load, c.dll)
    && IsKindOf(text, c.kind)
    && IsScoreOf(text, c.score)
    && c.status == FirstHex(text) && IsReasonOf(text, c.status, c.reason)
    && (c.appLocalHint <==> path.Some? && env.isAppLocal(path.value))
    && (c.frameworkHint <==> (path.Some? && env.isWindowsOrGac(path.value)) || TellsNothing(c.dll))
    && (c.fullPathProbe <==> path.Some? && env.isAbsolute(path.value)
                             && c.kind != Other && c.kind != InitializeProcessFailure)
    && (c.threadCorrelated <==> UnableDll(text).None? && DllBasenames(text) == [])
  }

  lemma BlankIsNoFailure(points: nat)
    ensures !Earns([], points)
  {
    forall pat: string | pat != [] ensures !Contains([], pat) { BlankSaysNothing(pat); }
  }

  lemma RaiseMeaning(env: Env, idx: nat, e: RawEvent, load: Option<LoadContext>)
    requires e.RawDebug?
    ensures var c := CandidateOf(env, idx, e.tid, ReadLine(e.text), load);
            && (c.Some? <==> Raises(e, load))
            && (c.Some? ==> c.value.eventIdx == idx && c.value.tid == e.tid && IsSaid(env, e, load, c.value))
  {
    RankMeaning(Said(e));
    ReasonMeaning(Said(e), FirstHex(Said(e)));
    CandidateMeaning(env, idx, e.tid, ReadLine(e.text), load);
    if CandidateOf(env, idx, e.tid, ReadLine(e.text), load).Some? {
      CandidateFields(env, idx, e.tid, ReadLine(e.text), load);
    }
  }

  // ---------- what the trace says ----------

  lemma RaisedIsCandidate(env: Env, events: seq<Event>, i: nat)
    requires i < |events| && events[i].Debug?
    ensures var e := events[i];
            RaisedAt(env, events, i) == if e.line.blank then None
                                        else CandidateOf(env, i, e.tid, e.line, PendingLoad(events, e.tid, i + 1))
  {
  }

  /** What event `i` raises is what its debug string says, in the load that the thread is in by then. */
  lemma RaisedMeaning(env: Env, raw: seq<RawEvent>, i: nat)
    requires i < |raw| && raw[i].RawDebug?
    ensures var load := PendingLoad(ReadTrace(raw), raw[i].tid, i + 1);
            var c := RaisedAt(env, ReadTrace(raw), i);
            && (c.Some? <==> Raises(raw[i], load))
            && (c.Some? ==> c.value.eventIdx == i && c.value.tid == raw[i].tid && IsSaid(env, raw[i], load, c.value))
  {
    ReadTraceAt(raw, i);
    RaisedIsCandidate(env, ReadTrace(raw), i);
    RaiseMeaning(env, i, raw[i], PendingLoad(ReadTrace(raw), raw[i].tid, i + 1));
    if Said(raw[i]) == [] {
      forall points: nat ensures !Earns(Said(raw[i]), points) { BlankIsNoFailure(points); }
    }
  }

  /** Event `i` shows that `d` is loaded: the debugger reports it, or a load of it returns 0. */
  ghost predicate ShowsLoaded(raw: seq<RawEvent>, i: nat, d: string)
    requires i < |raw|
  {
    match raw[i]
    case RawLoaded(dll) => dll == d
    case RawDebug(tid, _) =>
      var dlls, load := DllBasenames(Said(raw[i])), PendingLoad(ReadTrace(raw), tid, i);
      && Ends(raw[i], tid) && FirstHex(Said(raw[i])) == Some(0)
      && if dlls != [] then IsDllOf(dlls, d) else load.Some? && load.value.dll == d
  }

  lemma LoadsByReturning(env: Env, events: seq<Event>, i: nat, d: string)
    requires i < |events| && events[i].Debug?
    ensures var e, load := events[i], PendingLoad(events, events[i].tid, i);
            LoadsAt(env, events, i) == Some(d) <==>
              && ClosesLoad(e, e.tid) && e.line.status == Some(0)
              && if e.line.dlls != [] then LineDll(e.line.dlls) == Some(d) else load.Some? && load.value.dll == d
  {
    PickBestMeaning(events[i].line.dlls);
  }

  lemma LoadedMeaning(env: Env, raw: seq<RawEvent>, i: nat, d: string)
    requires i < |raw|
    ensures LoadsAt(env, ReadTrace(raw), i) == Some(d) <==> ShowsLoaded(raw, i, d)
  {
    ReadTraceAt(raw, i);
    if raw[i].RawDebug? {
      LoadsByReturning(env, ReadTrace(raw), i, d);
      LoadMeaning(raw[i], raw[i].tid);
      LineDllMeaning(DllBasenames(Said(raw[i])), d);
    }
  }

  /** The status and reason that are read off a debug string. */
  lemma StatusIsRead(raw: seq<RawEvent>, k: nat)
    requires k < |raw| && raw[k].RawDebug?
    ensures var e := ReadTrace(raw)[k];
            && e.Debug? && e.line.status == FirstHex(Said(raw[k]))
            && IsReasonOf(Said(raw[k]), e.line.status, e.line.reason)
  {
    ReadTraceAt(raw, k);
    ReasonMeaning(Said(raw[k]), FirstHex(Said(raw[k])));
  }

  lemma ReadKeepsKind(raw: seq<RawEvent>, k: nat)
    requires k < |raw|
    ensures ReadTrace(raw)[k].Debug? <==> raw[k].RawDebug?
    ensures raw[k].RawDebug? ==> ReadTrace(raw)[k].tid == raw[k].tid
  {
    ReadTraceAt(raw, k);
  }

  lemma ReadEndsLoad(raw: seq<RawEvent>, k: nat, t: Tid)
    requires k < |raw|
    ensures ClosesLoad(ReadTrace(raw)[k], t) <==> Ends(raw[k], t)
  {
    ReadTraceAt(raw, k);
    LoadMeaning(raw[k], t);
  }

  lemma OfferReads(events: seq<Event>, j: nat, t: Tid, status: nat, reason: Reason)
    requires j < |events|
    ensures Offer(events, j, t) == Some((status, reason)) <==>
              && ClosesLoad(events[j], t) && events[j].line.status == Some(status) && events[j].line.reason == reason
              && status in {0xC0000135, 0xC0000139, 0xC000007B, 0xC0000142, 0xC000001D, 0x8007007E, 0x800700C1}
  {
  }

  /** What a return offers to a candidate without a status: one of seven, and the reason it gives. */
  lemma OfferMeaning(raw: seq<RawEvent>, j: nat, t: Tid, status: nat, reason: Reason)
    requires j < |raw|
    ensures Offer(ReadTrace(raw), j, t) == Some((status, reason)) <==>
              && Ends(raw[j], t) && FirstHex(Said(raw[j])) == Some(status)
              && status in {0xC0000135, 0xC0000139, 0xC000007B, 0xC0000142, 0xC000001D, 0x8007007E, 0x800700C1}
              && IsReasonOf(Said(raw[j]), Some(status), reason)
  {
    OfferReads(ReadTrace(raw), j, t, status, reason);
    ReadEndsLoad(raw, j, t);
    if raw[j].RawDebug? { StatusIsRead(raw, j); }
  }

  // ---------- the answer ----------

  /** Event `k` tells the status of the candidate that event `i` raises: the return that fills it in,
      or, where none does, event `i` itself. */
  ghost predicate Tells(env: Env, events: seq<Event>, i: nat, k: nat)
    requires i < |events|
  {
    || Fills(env, events, i, k)
    || (k == i && RaisedAt(env, events, i).Some? && forall j: nat :: !Fills(env, events, i, j))
  }

  lemma TellerIsDebug(env: Env, events: seq<Event>, i: nat, k: nat)
    requires i < |events| && Tells(env, events, i, k)
    ensures k < |events| && events[k].Debug? && events[i].Debug? && events[k].tid == events[i].tid
  {
    RaisedOwned(env, events, i);
  }

  /** A candidate ends with the status and reason of the line that tells them. */
  lemma TellerGivesStatus(env: Env, events: seq<Event>, c: Candidate, k: nat)
    requires c in Run(Reading(env), events, |events|).candidates
    requires c.eventIdx < |events| && Tells(env, events, c.eventIdx, k)
    ensures k < |events| && events[k].Debug? && RaisedAt(env, events, c.eventIdx).Some?
    ensures c.dll == RaisedAt(env, events, c.eventIdx).value.dll
    ensures c.status == events[k].line.status && c.reason == events[k].line.reason
  {
    FinalStatus(env, events, c);
    TellerIsDebug(env, events, c.eventIdx, k);
    if !Fills(env, events, c.eventIdx, k) {
      RaisedReads(env, events, k);
    }
  }

  lemma RaisedReads(env: Env, events: seq<Event>, i: nat)
    requires i < |events| && events[i].Debug? && RaisedAt(env, events, i).Some?
    ensures var c := RaisedAt(env, events, i).value;
            c.status == events[i].line.status && c.reason == events[i].line.reason
  {
    var e := events[i];
    RaisedIsCandidate(env, events, i);
    CandidateFields(env, i, e.tid, e.line, PendingLoad(events, e.tid, i + 1));
  }

  lemma SomeoneTells(env: Env, events: seq<Event>, i: nat) returns (k: nat)
    requires i < |events| && RaisedAt(env, events, i).Some?
    ensures Tells(env, events, i, k)
  {
    if j: nat :| Fills(env, events, i, j) {
      k := j;
    } else {
      k := i;
    }
  }

  lemma AnswerIsTold(env: Env, events: seq<Event>, m: DynamicMissing) returns (i: nat, k: nat)
    requires Detect(env, events) == Some(m)
    ensures i < |events| && Tells(env, events, i, k) && k < |events| && events[k].Debug?
    ensures RaisedAt(env, events, i).Some? && m.dll == RaisedAt(env, events, i).value.dll
    ensures m.status == events[k].line.status && m.reason == events[k].line.reason
  {
    SelectionMeetsSpec(env, events);
    var c := Winner(env, events).value;
    FinalStatus(env, events, c);
    i := c.eventIdx;
    k := SomeoneTells(env, events, i);
    TellerGivesStatus(env, events, c, k);
  }

  lemma NameIsSaid(env: Env, e: RawEvent, load: Option<LoadContext>, c: Candidate, dll: string)
    requires e.RawDebug? && IsSaid(env, e, load, c) && c.dll == dll
    ensures IsNameOf(UnableDll(Said(e)), DllBasenames(Said(e)), load, dll)
  {
  }

  lemma NameIsRead(env: Env, raw: seq<RawEvent>, i: nat, dll: string)
    requires i < |raw| && raw[i].RawDebug?
    requires RaisedAt(env, ReadTrace(raw), i).Some? && RaisedAt(env, ReadTrace(raw), i).value.dll == dll
    ensures var load := PendingLoad(ReadTrace(raw), raw[i].tid, i + 1);
            Raises(raw[i], load) && IsNameOf(UnableDll(Said(raw[i])), DllBasenames(Said(raw[i])), load, dll)
  {
    RaisedMeaning(env, raw, i);
    var load := PendingLoad(ReadTrace(raw), raw[i].tid, i + 1);
    NameIsSaid(env, raw[i], load, RaisedAt(env, ReadTrace(raw), i).value, dll);
  }

  /** The answer `m` is the failure that event `i` reports, for the status that event `k` tells. */
  ghost predicate IsAnswer(env: Env, raw: seq<RawEvent>, m: DynamicMissing, i: nat, k: nat) {
    && i < |raw| && raw[i].RawDebug? && Tells(env, ReadTrace(raw), i, k) && k < |raw| && raw[k].RawDebug?
    && var load := PendingLoad(ReadTrace(raw), raw[i].tid, i + 1);
    && Raises(raw[i], load)
    && IsNameOf(UnableDll(Said(raw[i])), DllBasenames(Said(raw[i])), load, m.dll)
    && m.status == FirstHex(Said(raw[k])) && IsReasonOf(Said(raw[k]), m.status, m.reason)
  }

  /** An answer is read off the trace: its name off the line that reports the failure, and its status
      and reason off the same line or off the return that fills them in. */
  lemma AnswerIsRead(env: Env, raw: seq<RawEvent>, m: DynamicMissing)
    requires DetectRaw(env, raw) == Ok(Some(m))
    ensures exists i, k :: IsAnswer(env, raw, m, i, k)
  {
    var i, k := AnswerIsTold(env, ReadTrace(raw), m);
    TellerIsDebug(env, ReadTrace(raw), i, k);
    ReadKeepsKind(raw, i);
    ReadKeepsKind(raw, k);
    NameIsRead(env, raw, i, m.dll);
    StatusIsRead(raw, k);
    assert IsAnswer(env, raw, m, i, k);
  }

  /** The loader status of an answer gives its reason, whichever event told it. */
  lemma StatusGivesReason(env: Env, raw: seq<RawEvent>, m: DynamicMissing)
    requires DetectRaw(env, raw) == Ok(Some(m))
    ensures m.status == Some(0xC0000135) || m.status == Some(0x8007007E) ==> m.reason == NotFound
    ensures m.status == Some(0xC000007B) || m.status == Some(0x800700C1) || m.status == Some(0xC000012F) ==>
              m.reason == BadImage
  {
    AnswerIsRead(env, raw, m);
  }

  // ---------- when there is no answer ----------

  /** Reading `e` looks for a status, and cuts a character in two. */
  ghost predicate CutsCharacter(e: RawEvent) {
    && e.RawDebug?
    && (IsReturnLine(Said(e)) || (!IsProbeLine(Said(e)) && IsFailureLine(Said(e))))
    && exists i: nat :: CutFirst(Said(e), i)
  }

  lemma PanicMeaning(e: RawEvent)
    ensures EventPanics(e) <==> CutsCharacter(e)
  {
    if e.RawDebug? {
      RankMeaning(Said(e));
      ScoreAndKindAgree(Said(e));
      ScanHexMeaning(Said(e));
    }
  }

  /** The inference panics exactly when some debug string makes the number scanner cut a character. */
  lemma PanicsExactlyWhen(env: Env, raw: seq<RawEvent>)
    ensures DetectRaw(env, raw).Err? <==> exists e :: e in raw && CutsCharacter(e)
  {
    AnyPanicsMeaning(raw, |raw|);
    forall e { PanicMeaning(e); }
  }
}
