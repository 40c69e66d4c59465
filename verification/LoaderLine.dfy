/**
 The line classifiers of the dynamic-failure inference (src/main.rs): what a trimmed,
 lowercased loader-snaps line says, by the source's substring tests.
 */
module LoaderLine {
  import opened Wrappers
  import opened Text
  import opened LineScan
  import opened HexScan

  type Path = string

  datatype CandidateKind =
    Other | SearchPathFailure | InitializeProcessFailure | LoadDllFailed | UnableToLoadDll

  datatype Reason = NotFound | BadImage | OtherReason

  /** What the inference reads off a line. `status` is the first hexadecimal number in it,
      which is the returned status of a line that reports a return. */
  datatype Line = Line(
    blank: bool, dlls: seq<string>, path: Option<Path>, unable: Option<string>,
    looksLikeAttempt: bool, looksLikeReturn: bool, ignoredProbe: bool,
    kind: Option<CandidateKind>, score: nat, status: Option<nat>, reason: Reason)

  predicate LooksLikeLoadAttempt(text: string) {
    Contains(text, ".dll")
    && (Contains(text, "dll name:") || Contains(text, "ldrloaddll - enter") || Contains(text, "loadlibrary"))
  }

  predicate IsIgnoredProbeLine(text: string) {
    || Contains(text, "ldrpfindknowndll - return")
    || Contains(text, "ldrpresolvedllname - return")
    || Contains(text, "ldrpresolvefilename - return")
    || Contains(text, "ldrpfindloadeddllinternal - return")
    || Contains(text, "ldrpreporterror - warning: locating export")
  }

  predicate HasLoaderFailureCode(text: string) {
    || Contains(text, "0xc0000135") || Contains(text, "0x8007007e") || Contains(text, "0xc000007b")
    || Contains(text, "0xc000012f") || Contains(text, "0x800700c1") || Contains(text, "0xc0000139")
    || Contains(text, "0xc0000142")
  }

  predicate LooksLikeLoaderFailureContext(text: string) {
    || Contains(text, "ldrloaddll") || Contains(text, "ldrploadllinternal") || Contains(text, "loadlibrary")
    || Contains(text, "unable to load dll") || Contains(text, "dll name:") || Contains(text, "ldrpsearchpath")
    || Contains(text, "process initialization failed") || Contains(text, "_ldrpinitialize")
    || Contains(text, "walking the import tables")
  }

  predicate SaysUnableToLoad(text: string) {
    Contains(text, "ldrpprocesswork - error: unable to load dll") || Contains(text, "- error: unable to load dll")
  }

  predicate SaysInitRoutineFailed(text: string) {
    Contains(text, "ldrpinitializenode - error: init routine") && Contains(text, "failed during dll_process_attach")
  }

  predicate SaysInitializationFailed(text: string) {
    Contains(text, "process initialization failed") || Contains(text, "_ldrpinitialize - error")
  }

  predicate SaysLoadDllFailed(text: string) {
    Contains(text, "ldrloaddll") && Contains(text, "failed")
  }

  predicate SaysSearchPathFailed(text: string) {
    Contains(text, "ldrpsearchpath - return") && HasLoaderFailureCode(text)
  }

  predicate SaysOtherFailure(text: string) {
    HasLoaderFailureCode(text)
    && (Contains(text, "failed") || Contains(text, "error"))
    && LooksLikeLoaderFailureContext(text)
  }

  /** `failure_score` */
  function FailureScore(text: string): nat {
    if Contains(text, "ldrpprocesswork - error: unable to load dll") then 100
    else if Contains(text, "- error: unable to load dll") then 95
    else if SaysInitRoutineFailed(text) then 92
    else if Contains(text, "walking the import tables") then 90
    else if SaysInitializationFailed(text) then 85
    else if SaysLoadDllFailed(text) then 80
    else if SaysSearchPathFailed(text) then 70
    else if SaysOtherFailure(text) then 60
    else 0
  }

  /** `classify_dynamic_candidate_kind` */
  function ClassifyKind(text: string): Option<CandidateKind> {
    if SaysUnableToLoad(text) then Some(UnableToLoadDll)
    else if SaysInitRoutineFailed(text) then Some(InitializeProcessFailure)
    else if SaysLoadDllFailed(text) then Some(LoadDllFailed)
    else if SaysInitializationFailed(text) || Contains(text, "walking the import tables")
    then Some(InitializeProcessFailure)
    else if SaysSearchPathFailed(text) then Some(SearchPathFailure)
    else if SaysOtherFailure(text) then Some(Other)
    else None
  }

  predicate IsLoaderRelatedCode(code: nat) {
    code in {0xC0000135, 0xC0000139, 0xC000007B, 0xC0000142, 0xC000001D, 0x8007007E, 0x800700C1}
  }

  function ClassifyReason(text: string, status: Option<nat>): Reason {
    if status == Some(0xC0000135) || status == Some(0x8007007E) then NotFound
    else if status == Some(0xC000007B) || status == Some(0x800700C1) || status == Some(0xC000012F) then BadImage
    else if Contains(text, "not found") || Contains(text, "could not be found")
         || Contains(text, "file not found") then NotFound
    else if Contains(text, "bad image") || Contains(text, "invalid image")
         || Contains(text, "not a valid win32 application") then BadImage
    else OtherReason
  }

  predicate LooksLikeReturn(text: string) {
    Contains(text, "ldrloaddll - return") || Contains(text, "ldrploaddllinternal - return")
  }

  /** What is read off a trimmed and lowercased text. */
  function ReadText(text: string, dlls: seq<string>, path: Option<Path>, unable: Option<string>): Line {
    var status := FirstHex(text);
    Line(text == [], dlls, path, unable,
         LooksLikeLoadAttempt(text), LooksLikeReturn(text), IsIgnoredProbeLine(text),
         ClassifyKind(text), FailureScore(text), status, ClassifyReason(text, status))
  }

  /** What is read off a debug string as it arrives. */
  function ReadLine(raw: string): Line {
    var text := Trim(raw);
    var lower := Lower(text);
    ReadText(lower, DllBasenames(lower), CandidatePath(text), UnableDll(lower))
  }

  /** Reading the line looks for a hexadecimal number: on a return, and for a candidate. */
  predicate ScansHex(text: string) {
    LooksLikeReturn(text) || (!IsIgnoredProbeLine(text) && ClassifyKind(text).Some?)
  }

  /** The number scanner cuts a character of the line. */
  predicate LinePanics(raw: string) {
    ScansHex(Lower(Trim(raw))) && ScanHex(Lower(Trim(raw))).Panics?
  }

  datatype Panic = CharacterCut

  method ReadDebugString(raw: string) returns (r: Result<Line, Panic>)
    ensures r == if LinePanics(raw) then Err(CharacterCut) else Ok(ReadLine(raw))
  {
    var text := Trim(raw);
    var lower := Lower(text);
    var dlls := ExtractDllBasenames(lower);
    var path := ExtractCandidatePath(text);
    if ScansHex(lower) {
      var status := ExtractFirstHex(lower);
      if status.Panics? {
        return Err(CharacterCut);
      }
    }
    return Ok(ReadText(lower, dlls, path, UnableDll(lower)));
  }

  /** The two classifiers recognise the same lines: a line has a kind exactly when its score
      is positive, so the score test never drops a candidate; and the top kind is exactly the
      top two scores. */
  lemma ScoreAndKindAgree(text: string)
    ensures ClassifyKind(text).Some? <==> FailureScore(text) > 0
    ensures ClassifyKind(text) == Some(UnableToLoadDll) <==> FailureScore(text) >= 95
    ensures ClassifyKind(text) == Some(Other) <==> FailureScore(text) == 60
    ensures ClassifyKind(text) == Some(SearchPathFailure) <==> FailureScore(text) == 70
    ensures ClassifyKind(text) == Some(LoadDllFailed) ==> FailureScore(text) in {80, 85, 90}
    ensures ClassifyKind(text) == Some(InitializeProcessFailure) ==> FailureScore(text) in {85, 90, 92}
  {
  }
}
