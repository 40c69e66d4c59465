/**
 Dynamic-failure inference from loader-snaps debug strings
 (`detect_dynamic_missing_from_debug_strings`, src/main.rs): a fold over an interleaved
 trace of many threads, then a filter and an eight-key sort.
 */
module PhaseC {
  import opened Wrappers
  import opened Text
  import opened LoaderLine

  type Tid = nat

  /** A module load, named by its lowercased base name, or a debug string of one thread. */
  datatype RawEvent = RawLoaded(dll: string) | RawDebug(tid: Tid, text: string)

  datatype Event = Loaded(dll: string) | Debug(tid: Tid, line: Line)

  function ReadEvent(e: RawEvent): Event {
    match e
    case RawLoaded(dll) => Loaded(dll)
    case RawDebug(tid, text) => Debug(tid, ReadLine(text))
  }

  predicate EventPanics(e: RawEvent) {
    e.RawDebug? && LinePanics(e.text)
  }

  function ReadTrace(events: seq<RawEvent>): (trace: seq<Event>)
    ensures |trace| == |events|
  {
    if events == [] then [] else ReadTrace(events[..|events| - 1]) + [ReadEvent(events[|events| - 1])]
  }

  /** Questions about a path whose answers come from the machine. */
  datatype Env = Env(isAbsolute: Path -> bool, isAppLocal: Path -> bool, isWindowsOrGac: Path -> bool)

  datatype LoadContext = LoadContext(dll: string, path: Option<Path>)

  datatype Candidate = Candidate(
    eventIdx: nat, tid: Tid, dll: string, status: Option<nat>, reason: Reason, score: nat,
    kind: CandidateKind, appLocalHint: bool, frameworkHint: bool, fullPathProbe: bool, threadCorrelated: bool)

  datatype DynamicMissing = DynamicMissing(dll: string, reason: Reason, status: Option<nat>)

  predicate IsNoiseDll(dll: string) {
    || StartsWith(dll, "api-ms-win-") || StartsWith(dll, "ext-ms-")
    || dll in {"ntdll.dll", "kernel32.dll", "kernelbase.dll", "user32.dll", "gdi32.dll", "advapi32.dll",
               "sechost.dll", "msvcrt.dll", "ucrtbase.dll"}
  }

  function PickBestDll(dlls: seq<string>): Option<string> {
    if dlls == [] then None
    else if !IsNoiseDll(dlls[0]) then Some(dlls[0])
    else PickBestDll(dlls[1..])
  }

  /** The best DLL of a line, or else its first. */
  function LineDll(dlls: seq<string>): Option<string> {
    if PickBestDll(dlls).Some? then PickBestDll(dlls)
    else if dlls != [] then Some(dlls[0]) else None
  }

  function OrElse<T>(a: Option<T>, b: Option<T>): Option<T> {
    if a.Some? then a else b
  }

  function DllOf(ctx: Option<LoadContext>): Option<string> {
    if ctx.Some? then Some(ctx.value.dll) else None
  }

  function PathOf(ctx: Option<LoadContext>): Option<Path> {
    if ctx.Some? then ctx.value.path else None
  }

  // ---------- what one line does to its own thread ----------

  /** `backfill` is a status, with the reason it implies, for the thread's last candidate;
      `ended` says that the thread's current load attempt is over. */
  datatype Effect = Effect(
    ctx: Option<LoadContext>, success: Option<string>, backfill: Option<(nat, Reason)>,
    ended: bool, candidate: Option<Candidate>)

  predicate IsAttempt(line: Line) {
    line.dlls != [] && line.looksLikeAttempt
  }

  /** `extract_load_return_status` */
  function ReturnStatus(line: Line): Option<nat> {
    if line.looksLikeReturn then line.status else None
  }

  function AttemptContext(line: Line): LoadContext
    requires line.dlls != []
  {
    LoadContext(LineDll(line.dlls).value, line.path)
  }

  predicate IsFullPathProbe(env: Env, kind: CandidateKind, path: Option<Path>) {
    && path.Some? && env.isAbsolute(path.value)
    && (kind.SearchPathFailure? || kind.LoadDllFailed? || kind.UnableToLoadDll?)
  }

  /** The failure candidate a line raises, given the thread's pending load. */
  function CandidateOf(env: Env, idx: nat, tid: Tid, line: Line, ctx: Option<LoadContext>): Option<Candidate> {
    if line.ignoredProbe then None
    else
      var kind :- line.kind;
      if line.score <= 0 then None
      else
        var fromLine := LineDll(line.dlls);
        var named :- OrElse(line.unable, OrElse(fromLine, DllOf(ctx)));
        var dll := if !IsNoiseDll(named) then named
                   else match OrElse(PickBestDll(line.dlls), DllOf(ctx))
                        case Some(d) => d
                        case None => named;
        var path := OrElse(line.path, PathOf(ctx));
        Some(Candidate(
          idx, tid, dll, line.status, line.reason, line.score, kind,
          path.Some? && env.isAppLocal(path.value),
          (path.Some? && env.isWindowsOrGac(path.value)) || IsNoiseDll(dll),
          IsFullPathProbe(env, kind, path),
          line.unable.None? && fromLine.None? && ctx.Some?))
  }

  function EffectOf(env: Env, idx: nat, tid: Tid, line: Line, ctx: Option<LoadContext>): Effect {
    if line.blank then Effect(ctx, None, None, false, None)
    else
      var ctx1 := if IsAttempt(line) then Some(AttemptContext(line)) else ctx;
      match ReturnStatus(line)
      case None => Effect(ctx1, None, None, false, CandidateOf(env, idx, tid, line, ctx1))
      case Some(status) =>
        Effect(None,
               if status == 0 then OrElse(LineDll(line.dlls), DllOf(ctx1)) else None,
               if status != 0 && IsLoaderRelatedCode(status) then Some((status, line.reason)) else None,
               true,
               CandidateOf(env, idx, tid, line, None))
  }

  // ---------- the fold ----------

  datatype Fold = Fold(
    lastLoad: map<Tid, LoadContext>,
    candidates: seq<Candidate>,
    lastFailure: map<Tid, nat>,
    successes: map<string, nat>)

  const EMPTY: Fold := Fold(map[], [], map[], map[])

  function Lookup<K, V>(m: map<K, V>, k: K): Option<V> {
    if k in m then Some(m[k]) else None
  }

  function Put<K, V>(m: map<K, V>, k: K, v: Option<V>): map<K, V> {
    if v.Some? then m[k := v.value] else m - {k}
  }

  /** `record_dynamic_success`: the latest index per name. */
  function RecordSuccess(successes: map<string, nat>, dll: string, idx: nat): map<string, nat> {
    successes[dll := if dll in successes && successes[dll] > idx then successes[dll] else idx]
  }

  /** The thread's last candidate takes a status it does not have yet. */
  function Backfill(candidates: seq<Candidate>, at: Option<nat>, fill: Option<(nat, Reason)>): seq<Candidate> {
    if at.Some? && fill.Some? && at.value < |candidates| && candidates[at.value].status.None? then
      candidates[at.value := candidates[at.value].(status := Some(fill.value.0), reason := fill.value.1)]
    else candidates
  }

  function Apply(st: Fold, idx: nat, tid: Tid, e: Effect): Fold {
    var filled := Backfill(st.candidates, Lookup(st.lastFailure, tid), e.backfill);
    var lastFailure := if e.ended then st.lastFailure - {tid} else st.lastFailure;
    Fold(
      Put(st.lastLoad, tid, e.ctx),
      if e.candidate.Some? then filled + [e.candidate.value] else filled,
      if e.candidate.Some? && !e.candidate.value.threadCorrelated then lastFailure[tid := |filled|] else lastFailure,
      if e.success.Some? then RecordSuccess(st.successes, e.success.value, idx) else st.successes)
  }

  /** How lines are read: event index, thread, line and the thread's pending load. The fold
      and the facts about its threads do not depend on which reader it is. */
  type Reader = (nat, Tid, Line, Option<LoadContext>) -> Effect

  function Reading(env: Env): Reader {
    (idx: nat, tid: Tid, line: Line, ctx: Option<LoadContext>) => EffectOf(env, idx, tid, line, ctx)
  }

  /** One event, which carries its index in the trace. */
  function Step(read: Reader, st: Fold, idx: nat, event: Event): Fold {
    match event
    case Loaded(dll) => st.(successes := RecordSuccess(st.successes, dll, idx))
    case Debug(tid, line) => Apply(st, idx, tid, read(idx, tid, line, Lookup(st.lastLoad, tid)))
  }

  /** The first `n` events. */
  function Run(read: Reader, events: seq<Event>, n: nat): Fold
    requires n <= |events|
  {
    if n == 0 then EMPTY else Step(read, Run(read, events, n - 1), n - 1, events[n - 1])
  }

  // ---------- filter and sort ----------

  predicate Resolved(c: Candidate, successes: map<string, nat>) {
    c.dll in successes && (successes[c.dll] > c.eventIdx || c.fullPathProbe)
  }

  function Unresolved(cs: seq<Candidate>, successes: map<string, nat>): seq<Candidate> {
    if cs == [] then []
    else (if Resolved(cs[0], successes) then [] else [cs[0]]) + Unresolved(cs[1..], successes)
  }

  function KindRank(kind: CandidateKind): int {
    match kind
    case Other => 0
    case SearchPathFailure => 1
    case InitializeProcessFailure => 2
    case LoadDllFailed => 3
    case UnableToLoadDll => 4
  }

  function Flag(b: bool): int {
    if b then 1 else 0
  }

  /** The first six sort keys, each so that smaller is better. */
  function SortKey(c: Candidate): seq<int> {
    [-KindRank(c.kind), -(c.score as int), -Flag(c.appLocalHint), Flag(c.frameworkHint),
     -Flag(c.threadCorrelated), c.eventIdx]
  }

  predicate KeyLess(a: seq<int>, b: seq<int>) {
    if a == [] || b == [] then a == [] && b != []
    else a[0] < b[0] || (a[0] == b[0] && KeyLess(a[1..], b[1..]))
  }

  /** The comparison of the sort: six keys, then the name, then the thread. */
  predicate Before(a: Candidate, b: Candidate) {
    || KeyLess(SortKey(a), SortKey(b))
    || (SortKey(a) == SortKey(b) && (LexLess(a.dll, b.dll) || (a.dll == b.dll && a.tid < b.tid)))
  }

  /** Insertion behind everything that is not after `c`: the stable order of `sort_by`. */
  function InsertSorted(s: seq<Candidate>, c: Candidate): seq<Candidate> {
    if s == [] || Before(c, s[0]) then [c] + s else [s[0]] + InsertSorted(s[1..], c)
  }

  function Sort(cs: seq<Candidate>): seq<Candidate> {
    if cs == [] then [] else InsertSorted(Sort(cs[..|cs| - 1]), cs[|cs| - 1])
  }

  /** The selected candidate. */
  function Winner(env: Env, events: seq<Event>): Option<Candidate> {
    var st := Run(Reading(env), events, |events|);
    Head(Sort(Unresolved(st.candidates, st.successes)))
  }

  function Head(cs: seq<Candidate>): Option<Candidate> {
    if cs == [] then None else Some(cs[0])
  }

  function Detect(env: Env, events: seq<Event>): Option<DynamicMissing> {
    match Winner(env, events)
    case None => None
    case Some(best) => Some(DynamicMissing(best.dll, best.reason, best.status))
  }

  // ---------- the loop ----------

  /** The tables the inference updates in place. */
  class Inference {
    var lastLoad: map<Tid, LoadContext>
    var candidates: seq<Candidate>
    var lastFailure: map<Tid, nat>
    var successes: map<string, nat>

    ghost function Value(): Fold
      reads this
    {
      Fold(lastLoad, candidates, lastFailure, successes)
    }

    constructor ()
      ensures Value() == EMPTY
    {
      lastLoad, candidates, lastFailure, successes := map[], [], map[], map[];
    }

    method RecordDynamicSuccess(dll: string, idx: nat)
      modifies this`successes
      ensures successes == RecordSuccess(old(successes), dll, idx)
    {
      if dll in successes {
        if successes[dll] < idx { successes := successes[dll := idx]; }
        else { successes := successes[dll := successes[dll]]; }
      } else {
        successes := successes[dll := idx];
      }
    }

    /** The return-line part of the loop body. */
    method OnReturn(idx: nat, tid: Tid, line: Line, status: nat)
      requires ReturnStatus(line) == Some(status)
      modifies this
      ensures var ctx := Lookup(old(lastLoad), tid);
              var success := if status == 0 then OrElse(LineDll(line.dlls), DllOf(ctx)) else None;
              var fill := if status != 0 && IsLoaderRelatedCode(status)
                          then Some((status, line.reason)) else None;
              && lastLoad == old(lastLoad) - {tid} && lastFailure == old(lastFailure) - {tid}
              && candidates == Backfill(old(candidates), Lookup(old(lastFailure), tid), fill)
              && successes == if success.Some? then RecordSuccess(old(successes), success.value, idx)
                              else old(successes)
    {
      if status == 0 {
        var successDll := OrElse(LineDll(line.dlls), DllOf(Lookup(lastLoad, tid)));
        if successDll.Some? {
          RecordDynamicSuccess(successDll.value, idx);
        }
      } else if IsLoaderRelatedCode(status) {
        if tid in lastFailure && lastFailure[tid] < |candidates| {
          var at := lastFailure[tid];
          if candidates[at].status.None? {
            candidates := candidates[at := candidates[at].(
              status := Some(status), reason := line.reason)];
          }
        }
      }
      lastFailure := lastFailure - {tid};
      lastLoad := lastLoad - {tid};
    }

    /** The load-context part of the loop body: an attempt opens a context, a return closes it. */
    method TrackLoad(env: Env, idx: nat, tid: Tid, line: Line)
      requires !line.blank
      modifies this
      ensures var e := EffectOf(env, idx, tid, line, Lookup(old(lastLoad), tid));
              && lastLoad == Put(old(lastLoad), tid, e.ctx)
              && candidates == Backfill(old(candidates), Lookup(old(lastFailure), tid), e.backfill)
              && lastFailure == (if e.ended then old(lastFailure) - {tid} else old(lastFailure))
              && successes == if e.success.Some? then RecordSuccess(old(successes), e.success.value, idx)
                              else old(successes)
    {
      if IsAttempt(line) {
        lastLoad := lastLoad[tid := AttemptContext(line)];
      }
      var returned := ReturnStatus(line);
      if returned.Some? {
        OnReturn(idx, tid, line, returned.value);
      }
      assert lastLoad == Put(old(lastLoad), tid, EffectOf(env, idx, tid, line, Lookup(old(lastLoad), tid)).ctx);
    }

    method Raise(tid: Tid, candidate: Candidate)
      modifies this`candidates, this`lastFailure
      ensures candidates == old(candidates) + [candidate]
      ensures lastFailure == if candidate.threadCorrelated then old(lastFailure)
                             else old(lastFailure)[tid := |old(candidates)|]
    {
      candidates := candidates + [candidate];
      if !candidate.threadCorrelated {
        lastFailure := lastFailure[tid := |candidates| - 1];
      }
    }

    method OnDebugString(env: Env, idx: nat, tid: Tid, line: Line)
      modifies this
      ensures Value() == Step(Reading(env), old(Value()), idx, Debug(tid, line))
    {
      if line.blank {
        assert Put(lastLoad, tid, Lookup(lastLoad, tid)) == lastLoad;
        return;
      }
      TrackLoad(env, idx, tid, line);
      CandidateSeesContext(env, idx, tid, line, Lookup(old(lastLoad), tid));
      var candidate := CandidateOf(env, idx, tid, line, Lookup(lastLoad, tid));
      if candidate.Some? {
        Raise(tid, candidate.value);
      }
    }

    method OnEvent(env: Env, idx: nat, event: Event)
      modifies this
      ensures Value() == Step(Reading(env), old(Value()), idx, event)
    {
      match event
      case Loaded(dll) => RecordDynamicSuccess(dll, idx);
      case Debug(tid, line) => OnDebugString(env, idx, tid, line);
    }

    /** An event as it arrives. */
    method OnRawEvent(env: Env, idx: nat, event: RawEvent) returns (panics: bool)
      modifies this
      ensures panics == EventPanics(event)
      ensures !panics ==> Value() == Step(Reading(env), old(Value()), idx, ReadEvent(event))
    {
      match event
      case RawLoaded(dll) =>
        OnEvent(env, idx, Loaded(dll));
        panics := false;
      case RawDebug(tid, text) =>
        var line := ReadDebugString(text);
        if line.Err? {
          return true;
        }
        OnEvent(env, idx, Debug(tid, line.value));
        panics := false;
    }
  }

  lemma CandidateSeesContext(env: Env, idx: nat, tid: Tid, line: Line, ctx: Option<LoadContext>)
    requires !line.blank
    ensures var e := EffectOf(env, idx, tid, line, ctx); e.candidate == CandidateOf(env, idx, tid, line, e.ctx)
  {
  }

  /** `sort_by`, then the first. */
  method PickBest(kept: seq<Candidate>) returns (best: Option<Candidate>)
    ensures best == Head(Sort(kept))
  {
    if kept == [] {
      return None;
    }
    var sorted: seq<Candidate> := [];
    for i := 0 to |kept|
      invariant sorted == Sort(kept[..i])
      invariant |sorted| == i
    {
      assert kept[..i + 1][..|kept[..i + 1]| - 1] == kept[..i];
      InsertLength(sorted, kept[i]);
      sorted := InsertSorted(sorted, kept[i]);
    }
    assert kept[..|kept|] == kept;
    return Some(sorted[0]);
  }

  predicate AnyPanics(events: seq<RawEvent>, n: nat)
    requires n <= |events|
  {
    n > 0 && (AnyPanics(events, n - 1) || EventPanics(events[n - 1]))
  }

  lemma {:induction false} AnyPanicsMeaning(events: seq<RawEvent>, n: nat)
    requires n <= |events|
    ensures AnyPanics(events, n) <==> exists i :: 0 <= i < n && EventPanics(events[i])
  {
    if n > 0 { AnyPanicsMeaning(events, n - 1); }
  }

  lemma {:induction false} PanicsStay(events: seq<RawEvent>, n: nat, m: nat)
    requires n <= m <= |events| && AnyPanics(events, n)
    ensures AnyPanics(events, m)
  {
    if n < m { PanicsStay(events, n, m - 1); }
  }

  /** The answer for the events as they arrive: a line whose number scan panics ends the program. */
  function DetectRaw(env: Env, events: seq<RawEvent>): Result<Option<DynamicMissing>, Panic> {
    if AnyPanics(events, |events|) then Err(CharacterCut) else Ok(Detect(env, ReadTrace(events)))
  }

  lemma {:induction false} ReadTraceAt(events: seq<RawEvent>, i: nat)
    requires i < |events|
    ensures ReadTrace(events)[i] == ReadEvent(events[i])
  {
    if i < |events| - 1 { ReadTraceAt(events[..|events| - 1], i); }
  }

  method FoldEvents(env: Env, events: seq<RawEvent>, inference: Inference) returns (panics: bool)
    requires inference.Value() == EMPTY
    modifies inference
    ensures panics == AnyPanics(events, |events|)
    ensures !panics ==> inference.Value() == Run(Reading(env), ReadTrace(events), |events|)
  {
    ghost var trace := ReadTrace(events);
    for idx := 0 to |events|
      invariant inference.Value() == Run(Reading(env), trace, idx)
      invariant !AnyPanics(events, idx)
    {
      ReadTraceAt(events, idx);
      panics := inference.OnRawEvent(env, idx, events[idx]);
      if panics {
        PanicsStay(events, idx + 1, |events|);
        return;
      }
    }
    panics := false;
  }

  method DetectDynamicMissing(env: Env, events: seq<RawEvent>) returns (r: Result<Option<DynamicMissing>, Panic>)
    ensures r == DetectRaw(env, events)
  {
    var inference := new Inference();
    var panics := FoldEvents(env, events, inference);
    if panics {
      return Err(CharacterCut);
    }
    var best := PickBest(Unresolved(inference.candidates, inference.successes));
    if best.None? {
      return Ok(None);
    }
    return Ok(Some(DynamicMissing(best.value.dll, best.value.reason, best.value.status)));
  }

  lemma {:induction false} InsertLength(s: seq<Candidate>, c: Candidate)
    ensures |InsertSorted(s, c)| == |s| + 1
  {
    if s != [] && !Before(c, s[0]) { InsertLength(s[1..], c); }
  }
}
