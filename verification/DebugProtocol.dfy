/**
 What every run of the debug loop keeps. The calls it makes are checked by a monitor that
 knows the debugging protocol and nothing of the loop; what it records is a function of the
 events received.
 */
module DebugProtocol {
  import opened Wrappers
  import opened DebugLoop

  // ---------- the protocol ----------

  /** `pending`: the event received and not yet continued; `open`: its file handle, while it
      is still open; `terminated`: when TerminateProcess was issued; `exited`: the exit was
      continued; `closed`: the process handles are gone. */
  datatype Monitor = Monitor(
    pending: Option<DebugEvent>, open: Option<Handle>, terminated: Option<nat>, exited: bool, closed: bool)

  /** The file handle that comes with an event, unless it is null or invalid. */
  function FileOf(info: Info): Option<Handle> {
    if (info.CreateProcess? || info.LoadDll?) && info.file != 0 && info.file != -1 then Some(info.file) else None
  }

  /** An exception that is the target's own: neither a breakpoint nor a single step. */
  predicate IsOwnException(info: Info) {
    info.Exception? && info.code != 0x8000_0003 && info.code != 0x8000_0004
  }

  /** The target's own exceptions go back to it as not handled (DBG_EXCEPTION_NOT_HANDLED), so that its
      handlers run; every other event is just continued (DBG_CONTINUE). */
  function DueStatus(info: Info): U32 {
    if IsOwnException(info) then 0x8001_0001 else 0x0001_0002
  }

  predicate IsIdle(m: Monitor) {
    m.pending.None? && m.open.None? && !m.closed
  }

  /** The time the loop may wait, without any truncation: never zero, never past the timeout. */
  predicate MayWait(cfg: Config, terminated: bool, elapsed: nat, ms: nat) {
    if cfg.timeoutMs == 0 || terminated then ms == 250
    else elapsed < cfg.timeoutMs && ms == (if cfg.timeoutMs - elapsed < 250 then cfg.timeoutMs - elapsed else 250)
  }

  /** The monitor after one call, or None when the call breaks the protocol. */
  function Check(cfg: Config, m: Monitor, a: Action): Option<Monitor> {
    match a
    case Terminate(top, after) =>
      if IsIdle(m) && !m.exited && m.terminated.None? && cfg.timeoutMs != 0 && Millis(cfg.start, top) >= cfg.timeoutMs
      then Some(m.(terminated := Some(after))) else None
    case Wait(top, at, ms, received) =>
      if && IsIdle(m) && !m.exited
         && (m.terminated.Some? ==> Millis(m.terminated.value, at) < 5_000)
         && MayWait(cfg, m.terminated.Some?, Millis(cfg.start, top), ms)
      then Some(m.(pending := received, open := if received.Some? then FileOf(received.value.info) else None))
      else None
    case CloseFile(file) =>
      if m.pending.Some? && m.open == Some(file) then Some(m.(open := None)) else None
    case Continue(pid, tid, status) =>
      if && m.pending.Some? && m.open.None?
         && pid == m.pending.value.pid && tid == m.pending.value.tid
         && status == DueStatus(m.pending.value.info)
      then Some(m.(pending := None, exited := m.pending.value.info.ExitProcess?)) else None
    case CloseProcess =>
      if IsIdle(m) then Some(m.(closed := true)) else None
  }

  function Watch(cfg: Config, log: seq<Action>): Option<Monitor> {
    if log == [] then Some(Monitor(None, None, None, false, false))
    else
      var m :- Watch(cfg, log[..|log| - 1]);
      Check(cfg, m, log[|log| - 1])
  }

  lemma WatchPush(cfg: Config, log: seq<Action>, a: Action)
    ensures Watch(cfg, log + [a]) ==
            if Watch(cfg, log).Some? then Check(cfg, Watch(cfg, log).value, a) else None
  {
    var longer := log + [a];
    assert longer[..|longer| - 1] == log;
  }

  // ---------- what was received ----------

  function ReceivedIn(log: seq<Action>): seq<DebugEvent> {
    if log == [] then []
    else
      var before, a := ReceivedIn(log[..|log| - 1]), log[|log| - 1];
      if a.Wait? && a.received.Some? then before + [a.received.value] else before
  }

  lemma ReceivedPush(log: seq<Action>, a: Action)
    ensures ReceivedIn(log + [a]) ==
            if a.Wait? && a.received.Some? then ReceivedIn(log) + [a.received.value] else ReceivedIn(log)
  {
    var longer := log + [a];
    assert longer[..|longer| - 1] == log;
  }

  function PathSeen(fromFile: Option<Path>, fromName: Option<Path>): Option<Path> {
    match fromFile
    case Some(path) => Some(path)
    case None => fromName
  }

  /** The path of a loaded module is the one behind its file handle, or else the one behind its image
      name; its name is the file name of that path, or else made of its base address. */
  function ModuleSeen(fromFile: Option<Path>, fromName: Option<Path>, base: nat): LoadedModule {
    match PathSeen(fromFile, fromName)
    case Some(Path(text, Some(name))) => LoadedModule(name, Some(Path(text, Some(name))), base)
    case path => LoadedModule("UNKNOWN_" + AddressText(base), path, base)
  }

  lemma ModuleIsSeen(fromFile: Option<Path>, fromName: Option<Path>, base: nat)
    ensures ModuleOf(fromFile, fromName, base) == ModuleSeen(fromFile, fromName, base)
  {
  }

  function DigitValue(c: char): nat {
    if '0' <= c <= '9' then c as nat - 48 else if 'A' <= c <= 'F' then c as nat - 55 else 16
  }

  function HexNumber(digits: string): nat {
    if digits == [] then 0 else 16 * HexNumber(digits[..|digits| - 1]) + DigitValue(digits[|digits| - 1])
  }

  function Power16(n: nat): nat {
    if n == 0 then 1 else 16 * Power16(n - 1)
  }

  lemma DigitIsRead(d: nat)
    requires d < 16
    ensures DigitValue("0123456789ABCDEF"[d]) == d
  {
  }

  /** A number is written with `width` digits of sixteen, and reads as itself. */
  lemma {:induction false} HexDigitsMeaning(n: nat, width: nat)
    ensures |HexDigits(n, width)| == width && forall c :: c in HexDigits(n, width) ==> DigitValue(c) < 16
    ensures n < Power16(width) ==> HexNumber(HexDigits(n, width)) == n
    decreases width
  {
    if width > 0 {
      HexDigitsMeaning(n / 16, width - 1);
      DigitIsRead(n % 16);
      var front := HexDigits(n / 16, width - 1);
      assert HexDigits(n, width)[..width - 1] == front;
    }
  }

  lemma PowerStep(n: nat, p: nat)
    requires Power16(n) == p
    ensures Power16(n + 4) == 0x1_0000 * p
  {
    var n1 := n + 1;
    var n2 := n1 + 1;
    var n3 := n2 + 1;
    assert Power16(n1) == 16 * p && Power16(n2) == 0x100 * p && Power16(n3) == 0x1000 * p;
  }

  lemma PowerOfAddress(width: nat)
    requires width == 16
    ensures Power16(width) == 0x1_0000_0000_0000_0000
  {
    PowerStep(width - 16, 1);
    PowerStep(width - 12, 0x1_0000);
    PowerStep(width - 8, 0x1_0000_0000);
    PowerStep(width - 4, 0x1_0000_0000_0000);
  }

  /** The text of an address has sixteen digits, and reads as the address. */
  lemma AddressTextMeaning(base: nat)
    ensures |AddressText(base)| == 16 && forall c :: c in AddressText(base) ==> DigitValue(c) < 16
    ensures base < 0x1_0000_0000_0000_0000 ==> HexNumber(AddressText(base)) == base
  {
    HexDigitsMeaning(base, 2 * ADDRESS_BYTES);
    PowerOfAddress(2 * ADDRESS_BYTES);
  }

  /** The runtime event that a debug event is: a module load or a debug string, nothing else. */
  function EventSeen(e: DebugEvent): Option<RuntimeEvent> {
    match e.info
    case LoadDll(_, fromFile, fromName, base) => Some(RuntimeLoaded(ModuleSeen(fromFile, fromName, base)))
    case OutputDebugString(None) => Some(DebugString(e.pid, e.tid, "UNREADABLE"))
    case OutputDebugString(Some(text)) => Some(DebugString(e.pid, e.tid, text))
    case _ => None
  }

  function Appended(events: seq<RuntimeEvent>, e: Option<RuntimeEvent>): seq<RuntimeEvent> {
    if e.Some? then events + [e.value] else events
  }

  /** The runtime events in the order received. */
  function Observed(es: seq<DebugEvent>): seq<RuntimeEvent> {
    if es == [] then [] else Appended(Observed(es[..|es| - 1]), EventSeen(es[|es| - 1]))
  }

  lemma ObservedPush(es: seq<DebugEvent>, e: DebugEvent)
    ensures Observed(es + [e]) == Appended(Observed(es), EventSeen(e))
  {
    assert (es + [e])[..|es + [e]| - 1] == es;
  }

  /** The module loads among the runtime events, in order. */
  function Loads(events: seq<RuntimeEvent>): seq<LoadedModule> {
    if events == [] then []
    else
      var before, e := Loads(events[..|events| - 1]), events[|events| - 1];
      if e.RuntimeLoaded? then before + [e.m] else before
  }

  lemma LoadsPush(events: seq<RuntimeEvent>, e: RuntimeEvent)
    ensures Loads(events + [e]) == if e.RuntimeLoaded? then Loads(events) + [e.m] else Loads(events)
  {
    var longer := events + [e];
    assert longer[..|longer| - 1] == events;
  }

  predicate IsFatal(info: Info) {
    IsOwnException(info) && info.firstChance == 0
  }

  /** The last second-chance exception that is not a debugger trap. */
  function LastFatal(es: seq<DebugEvent>): Option<U32> {
    if es == [] then None
    else if IsFatal(es[|es| - 1].info) then Some(es[|es| - 1].info.code)
    else LastFatal(es[..|es| - 1])
  }

  /** The exit code of the last event, when that is the exit. */
  function ExitOf(es: seq<DebugEvent>): Option<U32> {
    if es != [] && es[|es| - 1].info.ExitProcess? then Some(es[|es| - 1].info.exitCode) else None
  }

  predicate NoExit(es: seq<DebugEvent>) {
    forall i :: 0 <= i < |es| ==> !es[i].info.ExitProcess?
  }

  // ---------- one turn keeps the invariant ----------

  /** What holds of the loop's own variables. */
  predicate Recorded(s: State, es: seq<DebugEvent>) {
    && s.events == Observed(es)
    && s.loaded == Loads(s.events)
    && s.terminalException == LastFatal(es).Some?
    && s.timeoutHit == s.terminationStarted.Some?
  }

  /** Between turns. */
  predicate Running(cfg: Config, s: State) {
    var es := ReceivedIn(s.log);
    && s.result.None?
    && Recorded(s, es) && NoExit(es)
    && !s.exited && s.exitCode.None? && s.exceptionCode == LastFatal(es)
    && Watch(cfg, s.log) == Some(Monitor(None, None, s.terminationStarted, false, false))
  }

  /** `exception_code`: a fatal exception wins, else an exit code with its top bit set. */
  function ExceptionFor(es: seq<DebugEvent>, exitCode: U32): Option<U32> {
    if LastFatal(es).Some? then LastFatal(es) else if exitCode >= 0x8000_0000 then Some(exitCode) else None
  }

  predicate IsOutcome(cfg: Config, es: seq<DebugEvent>, terminated: bool, o: RunOutcome) {
    && es != [] && NoExit(es[..|es| - 1]) && ExitOf(es).Some?
    && o.exitCode == ExitOf(es)
    && o.exceptionCode == ExceptionFor(es, ExitOf(es).value)
    && o.endKind == (if terminated then EndTimeout else if LastFatal(es).Some? then EndException else EndExitProcess)
    && o.runtimeEvents == Observed(es)
    && o.loadedModules == Loads(o.runtimeEvents)
    && o.pid == cfg.pid
  }

  /** After the loop: the process handles are closed, and a success is what was received. */
  predicate Ended(cfg: Config, s: State) {
    var m, es := Watch(cfg, s.log), ReceivedIn(s.log);
    && s.result.Some?
    && s.events == Observed(es) && s.loaded == Loads(s.events)
    && m.Some? && m.value.closed && m.value.pending.None?
    && (s.result.value.Ok? ==>
          m.value.exited && IsOutcome(cfg, es, m.value.terminated.Some?, s.result.value.value))
    && (s.result.value.Err? ==> NoExit(es))
    && (s.result.value == Err(DrainTimedOut) ==> m.value.terminated.Some?)
  }

  lemma FailEnds(cfg: Config, s: State, terminated: Option<nat>, error: RunError)
    requires NoExit(ReceivedIn(s.log)) && s.events == Observed(ReceivedIn(s.log)) && s.loaded == Loads(s.events)
    requires Watch(cfg, s.log) == Some(Monitor(None, None, terminated, false, false))
    requires error == DrainTimedOut ==> terminated.Some?
    ensures Ended(cfg, Fail(s, error)) && ReceivedIn(Fail(s, error).log) == ReceivedIn(s.log)
  {
    WatchPush(cfg, s.log, CloseProcess);
    ReceivedPush(s.log, CloseProcess);
  }

  lemma TimeoutTestKeeps(cfg: Config, s: State, t: Turn)
    requires Running(cfg, s)
    ensures var s' := CheckTimeout(cfg, s, t);
            if s'.result.Some? then Ended(cfg, s')
            else && Running(cfg, s') && ReceivedIn(s'.log) == ReceivedIn(s.log)
                 && (s'.timeoutHit || cfg.timeoutMs == 0 || Millis(cfg.start, t.atTop) < cfg.timeoutMs)
  {
    if !s.timeoutHit && cfg.timeoutMs != 0 && Millis(cfg.start, t.atTop) >= cfg.timeoutMs {
      var a := Terminate(t.atTop, t.afterTerminate);
      WatchPush(cfg, s.log, a);
      ReceivedPush(s.log, a);
      if t.terminateError.Some? {
        FailEnds(cfg, s.(log := s.log + [a]), Some(t.afterTerminate), TerminateFailed(t.terminateError.value));
      }
    }
  }

  lemma DrainTestKeeps(cfg: Config, s: State, t: Turn)
    requires Running(cfg, s)
    ensures var s' := CheckDrain(s, t);
            if s'.result.Some? then Ended(cfg, s')
            else s' == s && (s.terminationStarted.Some? ==>
                               Millis(s.terminationStarted.value, t.atDrain) < 5_000)
  {
    if CheckDrain(s, t).result.Some? {
      FailEnds(cfg, s, s.terminationStarted, DrainTimedOut);
    }
  }

  /** The truncating cast is exact whenever its result is used. */
  lemma WaitIsExact(cfg: Config, timeoutHit: bool, elapsed: nat)
    requires timeoutHit || cfg.timeoutMs == 0 || elapsed < cfg.timeoutMs
    ensures MayWait(cfg, timeoutHit, elapsed, WaitMs(cfg, timeoutHit, elapsed))
    ensures 0 < WaitMs(cfg, timeoutHit, elapsed) <= 250
  {
  }

  /** An event's file handle is closed, once, before the event is continued. */
  lemma ObservingClosesFile(cfg: Config, s: State, e: DebugEvent, terminated: Option<nat>)
    requires Watch(cfg, s.log) == Some(Monitor(Some(e), FileOf(e.info), terminated, false, false))
    ensures var log := Observe(s, e).log;
            && Watch(cfg, log) == Some(Monitor(Some(e), None, terminated, false, false))
            && ReceivedIn(log) == ReceivedIn(s.log)
  {
    if FileOf(e.info).Some? {
      var close := CloseFile(e.info.file);
      WatchPush(cfg, s.log, close);
      ReceivedPush(s.log, close);
      assert Observe(s, e).log == s.log + [close];
    } else {
      assert Observe(s, e).log == s.log;
    }
  }

  lemma ObservingAppends(s: State, e: DebugEvent)
    ensures Observe(s, e).events == Appended(s.events, EventSeen(e))
    ensures Observe(s, e).loaded == if EventSeen(e).Some? && EventSeen(e).value.RuntimeLoaded?
                                    then s.loaded + [EventSeen(e).value.m] else s.loaded
  {
    if e.info.LoadDll? { ModuleIsSeen(e.info.fromFile, e.info.fromName, e.info.base); }
  }

  lemma RecordingKeeps(events: seq<RuntimeEvent>, e: Option<RuntimeEvent>)
    ensures Loads(Appended(events, e)) ==
            if e.Some? && e.value.RuntimeLoaded? then Loads(events) + [e.value.m] else Loads(events)
  {
    if e.Some? { LoadsPush(events, e.value); }
  }

  lemma ObservingRecords(s: State, e: DebugEvent, es: seq<DebugEvent>)
    requires s.events == Observed(es) && s.loaded == Loads(s.events)
    ensures var s' := Observe(s, e);
            s'.events == Observed(es + [e]) && s'.loaded == Loads(s'.events)
  {
    ObservedPush(es, e);
    ObservingAppends(s, e);
    RecordingKeeps(s.events, EventSeen(e));
  }

  lemma ObservingFlags(s: State, e: DebugEvent, es: seq<DebugEvent>)
    requires !s.exited && s.exitCode.None? && s.exceptionCode == LastFatal(es)
    requires s.terminalException == LastFatal(es).Some?
    ensures var s', es' := Observe(s, e), es + [e];
            && s'.exited == e.info.ExitProcess? && s'.exitCode == ExitOf(es')
            && s'.terminalException == LastFatal(es').Some?
            && s'.exceptionCode == (if e.info.ExitProcess? then ExceptionFor(es', e.info.exitCode) else LastFatal(es'))
            && s'.result == s.result && s'.terminationStarted == s.terminationStarted && s'.timeoutHit == s.timeoutHit
  {
    assert (es + [e])[..|es + [e]| - 1] == es;
  }

  lemma ContinuingKeeps(cfg: Config, s: State, t: Turn, e: DebugEvent, es: seq<DebugEvent>)
    requires es != [] && es[|es| - 1] == e && NoExit(es[..|es| - 1])
    requires ReceivedIn(s.log) == es && Recorded(s, es) && s.result.None?
    requires Watch(cfg, s.log) == Some(Monitor(Some(e), None, s.terminationStarted, false, false))
    requires s.exited == e.info.ExitProcess? && s.exitCode == ExitOf(es)
    requires s.exceptionCode == if e.info.ExitProcess? then ExceptionFor(es, e.info.exitCode) else LastFatal(es)
    ensures var s' := Continued(cfg, s, t, e);
            && (if s'.result.Some? then Ended(cfg, s') else Running(cfg, s'))
            && ReceivedIn(s'.log) == es
  {
    var c := Continue(e.pid, e.tid, StatusFor(e.info));
    WatchPush(cfg, s.log, c);
    ReceivedPush(s.log, c);
    if s.exited {
      WatchPush(cfg, s.log + [c], CloseProcess);
      ReceivedPush(s.log + [c], CloseProcess);
    }
  }

  lemma ReceivedKeeps(cfg: Config, s: State, t: Turn)
    requires Running(cfg, s) && t.wait.Received?
    requires s.terminationStarted.Some? ==>
               Millis(s.terminationStarted.value, t.atDrain) < 5_000
    requires s.timeoutHit || cfg.timeoutMs == 0 || Millis(cfg.start, t.atTop) < cfg.timeoutMs
    ensures var s' := WaitAndHandle(cfg, s, t);
            && (if s'.result.Some? then Ended(cfg, s') else Running(cfg, s'))
            && ReceivedIn(s'.log) == ReceivedIn(s.log) + [t.wait.event]
  {
    var e, elapsed := t.wait.event, Millis(cfg.start, t.atTop);
    WaitIsExact(cfg, s.timeoutHit, elapsed);
    var w := Wait(t.atTop, t.atDrain, WaitMs(cfg, s.timeoutHit, elapsed), Some(e));
    WatchPush(cfg, s.log, w);
    ReceivedPush(s.log, w);
    var before, waiting := ReceivedIn(s.log), s.(log := s.log + [w]);
    var es := before + [e];
    assert es[..|es| - 1] == before;
    ObservingClosesFile(cfg, waiting, e, s.terminationStarted);
    ObservingRecords(waiting, e, before);
    ObservingFlags(waiting, e, before);
    ContinuingKeeps(cfg, Observe(waiting, e), t, e, es);
  }

  lemma WaitingKeeps(cfg: Config, s: State, w: Action)
    requires Running(cfg, s) && w.Wait? && w.received.None?
    requires Check(cfg, Monitor(None, None, s.terminationStarted, false, false), w).Some?
    ensures Running(cfg, s.(log := s.log + [w])) && ReceivedIn(s.log + [w]) == ReceivedIn(s.log)
  {
    WatchPush(cfg, s.log, w);
    ReceivedPush(s.log, w);
  }

  lemma NothingReceivedKeeps(cfg: Config, s: State, t: Turn)
    requires Running(cfg, s) && t.wait.NotReceived?
    requires s.terminationStarted.Some? ==>
               Millis(s.terminationStarted.value, t.atDrain) < 5_000
    requires s.timeoutHit || cfg.timeoutMs == 0 || Millis(cfg.start, t.atTop) < cfg.timeoutMs
    ensures var s' := WaitAndHandle(cfg, s, t);
            && (if s'.result.Some? then Ended(cfg, s') else Running(cfg, s'))
            && ReceivedIn(s'.log) == ReceivedIn(s.log)
  {
    var elapsed := Millis(cfg.start, t.atTop);
    WaitIsExact(cfg, s.timeoutHit, elapsed);
    var w := Wait(t.atTop, t.atDrain, WaitMs(cfg, s.timeoutHit, elapsed), None);
    WaitingKeeps(cfg, s, w);
    FailEnds(cfg, s.(log := s.log + [w]), s.terminationStarted, WaitFailed(t.wait.error));
  }

  lemma StepKeeps(cfg: Config, s: State, t: Turn)
    requires Running(cfg, s)
    ensures var s' := Step(cfg, s, t); if s'.result.Some? then Ended(cfg, s') else Running(cfg, s')
  {
    TimeoutTestKeeps(cfg, s, t);
    var timed := CheckTimeout(cfg, s, t);
    if timed.result.None? {
      DrainTestKeeps(cfg, timed, t);
      if CheckDrain(timed, t).result.None? {
        if t.wait.Received? { ReceivedKeeps(cfg, timed, t); } else { NothingReceivedKeeps(cfg, timed, t); }
      }
    }
  }

  // ---------- every run ----------

  /** The invariant of every run of the loop, whatever the environment answers: the calls keep
      the protocol, the records are what was received, a result closes the process handles. */
  lemma {:induction false} EveryRunKeepsTheProtocol(cfg: Config, turns: seq<Turn>)
    ensures var s := Run(cfg, turns); if s.result.Some? then Ended(cfg, s) else Running(cfg, s)
  {
    if turns != [] {
      var init := turns[..|turns| - 1];
      EveryRunKeepsTheProtocol(cfg, init);
      if Run(cfg, init).result.None? { StepKeeps(cfg, Run(cfg, init), turns[|turns| - 1]); }
    }
  }

  // ---------- what the protocol means for the calls ----------

  function Terminations(log: seq<Action>): nat {
    if log == [] then 0
    else Terminations(log[..|log| - 1]) + (if log[|log| - 1].Terminate? then 1 else 0)
  }

  /** The calls of one kind that answer received events. */
  function ContinuesIn(log: seq<Action>): seq<(U32, U32, U32)> {
    if log == [] then []
    else
      var before, a := ContinuesIn(log[..|log| - 1]), log[|log| - 1];
      if a.Continue? then before + [(a.pid, a.tid, a.status)] else before
  }

  function ClosedFilesIn(log: seq<Action>): seq<Handle> {
    if log == [] then []
    else
      var before, a := ClosedFilesIn(log[..|log| - 1]), log[|log| - 1];
      if a.CloseFile? then before + [a.file] else before
  }

  function Answers(es: seq<DebugEvent>): seq<(U32, U32, U32)> {
    if es == [] then []
    else var e := es[|es| - 1]; Answers(es[..|es| - 1]) + [(e.pid, e.tid, DueStatus(e.info))]
  }

  function FilesOf(es: seq<DebugEvent>): seq<Handle> {
    if es == [] then []
    else
      var before, file := FilesOf(es[..|es| - 1]), FileOf(es[|es| - 1].info);
      if file.Some? then before + [file.value] else before
  }

  /** What is still owed to the last event received. */
  function Owed(m: Monitor): seq<(U32, U32, U32)> {
    if m.pending.None? then []
    else var e := m.pending.value; [(e.pid, e.tid, DueStatus(e.info))]
  }

  function OpenFiles(m: Monitor): seq<Handle> {
    if m.open.Some? then [m.open.value] else []
  }

  /** The calls so far account for the events received so far, up to what is still owed. */
  ghost predicate Accounted(m: Monitor, log: seq<Action>) {
    && Terminations(log) == (if m.terminated.Some? then 1 else 0)
    && ContinuesIn(log) + Owed(m) == Answers(ReceivedIn(log))
    && ClosedFilesIn(log) + OpenFiles(m) == FilesOf(ReceivedIn(log))
    && (m.open.Some? ==> m.pending.Some?)
  }

  lemma CountedPush(log: seq<Action>, a: Action)
    ensures Terminations(log + [a]) == Terminations(log) + (if a.Terminate? then 1 else 0)
    ensures ContinuesIn(log + [a]) ==
            if a.Continue? then ContinuesIn(log) + [(a.pid, a.tid, a.status)] else ContinuesIn(log)
    ensures ClosedFilesIn(log + [a]) == if a.CloseFile? then ClosedFilesIn(log) + [a.file] else ClosedFilesIn(log)
  {
    var longer := log + [a];
    assert longer[..|longer| - 1] == log;
  }

  lemma AnswersPush(es: seq<DebugEvent>, e: DebugEvent)
    ensures Answers(es + [e]) == Answers(es) + [(e.pid, e.tid, DueStatus(e.info))]
    ensures FilesOf(es + [e]) == if FileOf(e.info).Some? then FilesOf(es) + [FileOf(e.info).value] else FilesOf(es)
  {
    assert (es + [e])[..|es + [e]| - 1] == es;
  }

  lemma EventAccounted(cfg: Config, m: Monitor, log: seq<Action>, a: Action)
    requires Accounted(m, log) && Check(cfg, m, a).Some? && a.Wait? && a.received.Some?
    ensures Accounted(Check(cfg, m, a).value, log + [a])
  {
    var m', e := Check(cfg, m, a).value, a.received.value;
    CountedPush(log, a);
    ReceivedPush(log, a);
    AnswersPush(ReceivedIn(log), e);
    assert Owed(m) == [] && Owed(m') == [(e.pid, e.tid, DueStatus(e.info))];
    assert OpenFiles(m) == [] && OpenFiles(m') == if FileOf(e.info).Some? then [FileOf(e.info).value] else [];
    assert ContinuesIn(log) + [] == ContinuesIn(log) && ClosedFilesIn(log) + [] == ClosedFilesIn(log);
  }

  lemma ContinueAccounted(cfg: Config, m: Monitor, log: seq<Action>, a: Action)
    requires Accounted(m, log) && Check(cfg, m, a).Some? && a.Continue?
    ensures Accounted(Check(cfg, m, a).value, log + [a])
  {
    CountedPush(log, a);
    ReceivedPush(log, a);
    var m' := Check(cfg, m, a).value;
    assert Owed(m) == [(a.pid, a.tid, a.status)] && Owed(m') == [];
    assert ContinuesIn(log + [a]) + [] == ContinuesIn(log + [a]);
    assert OpenFiles(m') == OpenFiles(m);
  }

  lemma CloseAccounted(cfg: Config, m: Monitor, log: seq<Action>, a: Action)
    requires Accounted(m, log) && Check(cfg, m, a).Some? && a.CloseFile?
    ensures Accounted(Check(cfg, m, a).value, log + [a])
  {
    CountedPush(log, a);
    ReceivedPush(log, a);
    var m' := Check(cfg, m, a).value;
    assert OpenFiles(m) == [a.file] && OpenFiles(m') == [];
    assert ClosedFilesIn(log + [a]) + [] == ClosedFilesIn(log + [a]);
    assert Owed(m') == Owed(m);
  }

  lemma OtherAccounted(cfg: Config, m: Monitor, log: seq<Action>, a: Action)
    requires Accounted(m, log) && Check(cfg, m, a).Some?
    requires !a.Continue? && !a.CloseFile? && !(a.Wait? && a.received.Some?)
    ensures Accounted(Check(cfg, m, a).value, log + [a])
  {
    CountedPush(log, a);
    ReceivedPush(log, a);
    var m' := Check(cfg, m, a).value;
    assert Owed(m') == Owed(m) && OpenFiles(m') == OpenFiles(m);
  }

  lemma {:induction false} ProtocolMeaning(cfg: Config, log: seq<Action>)
    requires Watch(cfg, log).Some?
    ensures Accounted(Watch(cfg, log).value, log)
  {
    if log != [] {
      var init, a := log[..|log| - 1], log[|log| - 1];
      ProtocolMeaning(cfg, init);
      assert init + [a] == log;
      var m := Watch(cfg, init).value;
      if a.Wait? && a.received.Some? {
        EventAccounted(cfg, m, init, a);
      } else if a.Continue? {
        ContinueAccounted(cfg, m, init, a);
      } else if a.CloseFile? {
        CloseAccounted(cfg, m, init, a);
      } else {
        OtherAccounted(cfg, m, init, a);
      }
    }
  }

  /** Over every run: TerminateProcess is issued at most once; each event received is continued
      exactly once, in order and with its status; each file handle received is closed exactly
      once; a success has an exit code, and its end kind is a timeout exactly when termination
      was issued. */
  lemma EveryEventIsContinuedOnce(cfg: Config, turns: seq<Turn>)
    ensures var s := Run(cfg, turns);
            && Terminations(s.log) <= 1
            && ContinuesIn(s.log) == Answers(ReceivedIn(s.log))
            && ClosedFilesIn(s.log) == FilesOf(ReceivedIn(s.log))
            && s.events == Observed(ReceivedIn(s.log))
            && s.loaded == Loads(s.events)
            && (s.result.Some? && s.result.value.Ok? ==>
                  var o := s.result.value.value;
                  o.exitCode.Some? && (o.endKind == EndTimeout <==> Terminations(s.log) == 1))
  {
    EveryRunKeepsTheProtocol(cfg, turns);
    ProtocolMeaning(cfg, Run(cfg, turns).log);
  }

  // ---------- what the environment delivered ----------

  function Delivered(turns: seq<Turn>): seq<DebugEvent> {
    if turns == [] then []
    else
      var before, t := Delivered(turns[..|turns| - 1]), turns[|turns| - 1];
      if t.wait.Received? then before + [t.wait.event] else before
  }

  lemma StepReceives(cfg: Config, s: State, t: Turn)
    requires Running(cfg, s)
    ensures var s' := Step(cfg, s, t);
            s'.result.None? || (s'.result.value.Ok? && t.wait.Received?) ==>
              ReceivedIn(s'.log) == (if t.wait.Received? then ReceivedIn(s.log) + [t.wait.event] else ReceivedIn(s.log))
  {
    TimeoutTestKeeps(cfg, s, t);
    var timed := CheckTimeout(cfg, s, t);
    if timed.result.None? {
      DrainTestKeeps(cfg, timed, t);
      if CheckDrain(timed, t).result.None? {
        if t.wait.Received? { ReceivedKeeps(cfg, timed, t); } else { NothingReceivedKeeps(cfg, timed, t); }
      }
    }
  }

  /** Nothing delivered is lost: while the loop runs, it has received every event there was. */
  lemma {:induction false} NothingIsLost(cfg: Config, turns: seq<Turn>)
    requires Run(cfg, turns).result.None?
    ensures ReceivedIn(Run(cfg, turns).log) == Delivered(turns)
  {
    if turns != [] {
      var init := turns[..|turns| - 1];
      NothingIsLost(cfg, init);
      EveryRunKeepsTheProtocol(cfg, init);
      StepReceives(cfg, Run(cfg, init), turns[|turns| - 1]);
    }
  }

  // ---------- the deadline ----------

  /** Elapsed time is counted in whole milliseconds, and a clock that runs backwards has not moved. */
  lemma MillisMeaning(since: nat, now: nat, ms: nat)
    ensures Millis(since, now) >= ms <==> ms == 0 || since + 1_000_000 * ms <= now
  {
  }

  predicate Monotone(turns: seq<Turn>) {
    forall i, j :: 0 <= i <= j < |turns| ==> turns[i].afterTerminate <= turns[j].afterTerminate
  }

  lemma MillisShrinks(a: nat, b: nat, now: nat)
    requires a <= b
    ensures Millis(b, now) <= Millis(a, now)
  {
  }

  predicate IsLate(cfg: Config, t: Turn) {
    cfg.timeoutMs != 0 && Millis(cfg.start, t.atTop) >= cfg.timeoutMs
  }

  lemma WaitingKeepsTermination(cfg: Config, s: State, t: Turn)
    ensures WaitAndHandle(cfg, s, t).terminationStarted == s.terminationStarted
  {
  }

  /** A turn that leaves the loop running. */
  lemma TurnAndTermination(cfg: Config, s: State, t: Turn)
    requires s.result.None? && Step(cfg, s, t).result.None?
    requires s.timeoutHit == s.terminationStarted.Some?
    ensures var started := Step(cfg, s, t).terminationStarted;
            && started == (if s.terminationStarted.None? && IsLate(cfg, t) then Some(t.afterTerminate)
                           else s.terminationStarted)
            && (started.Some? ==> Millis(started.value, t.atDrain) < 5_000)
  {
    WaitingKeepsTermination(cfg, CheckTimeout(cfg, s, t), t);
  }

  /** The result of a turn that gets as far as waiting. */
  ghost predicate EndsByWait(cfg: Config, t: Turn, r: Option<Result<RunOutcome, RunError>>) {
    match t.wait
    case NotReceived(error) => r == if error == 258 || error == 121 then None else Some(Err(WaitFailed(error)))
    case Received(e) =>
      && (r.Some? <==> e.info.ExitProcess?)
      && (r.Some? ==> r.value.Ok? && r.value.value.elapsedMs == Millis(cfg.start, t.atEnd))
  }

  lemma WaitEnds(cfg: Config, s: State, t: Turn)
    requires s.result.None? && !s.exited
    ensures EndsByWait(cfg, t, WaitAndHandle(cfg, s, t).result)
  {
    if t.wait.Received? {
      ObservingExits(s.(log := s.log + [Wait(t.atTop, t.atDrain, WaitMs(cfg, s.timeoutHit, Millis(cfg.start, t.atTop)),
                                             Some(t.wait.event))]), t.wait.event);
    }
  }

  lemma ObservingExits(s: State, e: DebugEvent)
    requires s.result.None? && !s.exited
    ensures Observe(s, e).result.None? && (Observe(s, e).exited <==> e.info.ExitProcess?)
  {
  }

  /** How one more turn ends a run, if it does: by a termination that fails, by a target that does not
      exit 5000 ms after its termination, by a wait that fails otherwise than by running out of time
      (errors 258 and 121), and successfully by the exit of the target. */
  lemma TurnEndsExactlyWhen(cfg: Config, s: State, t: Turn)
    requires Running(cfg, s)
    ensures var r := Step(cfg, s, t).result;
            var terminates := s.terminationStarted.None? && IsLate(cfg, t);
            var started := if terminates then Some(t.afterTerminate) else s.terminationStarted;
            if terminates && t.terminateError.Some? then r == Some(Err(TerminateFailed(t.terminateError.value)))
            else if started.Some? && Millis(started.value, t.atDrain) >= 5_000 then r == Some(Err(DrainTimedOut))
            else
              EndsByWait(cfg, t, r)
  {
    var timed := CheckTimeout(cfg, s, t);
    if timed.result.None? && CheckDrain(timed, t).result.None? { WaitEnds(cfg, timed, t); }
  }

  lemma LastTurn(cfg: Config, turns: seq<Turn>)
    requires turns != [] && Run(cfg, turns).result.None?
    ensures var s, t, started := Run(cfg, turns[..|turns| - 1]), turns[|turns| - 1], Run(cfg, turns).terminationStarted;
            && s.result.None?
            && started == (if s.terminationStarted.None? && IsLate(cfg, t) then Some(t.afterTerminate)
                           else s.terminationStarted)
            && (started.Some? ==> Millis(started.value, t.atDrain) < 5_000)
  {
    EveryRunKeepsTheProtocol(cfg, turns[..|turns| - 1]);
    TurnAndTermination(cfg, Run(cfg, turns[..|turns| - 1]), turns[|turns| - 1]);
  }

  /** While the loop runs, termination was issued exactly when some turn began past the timeout. */
  lemma {:induction false} TimeoutIsActedOn(cfg: Config, turns: seq<Turn>)
    requires Run(cfg, turns).result.None?
    ensures Run(cfg, turns).terminationStarted.Some? <==> exists j :: 0 <= j < |turns| && IsLate(cfg, turns[j])
  {
    if turns != [] {
      var init := turns[..|turns| - 1];
      LastTurn(cfg, turns);
      TimeoutIsActedOn(cfg, init);
      assert forall j :: 0 <= j < |init| ==> init[j] == turns[j];
    }
  }

  /** And it was issued in the first such turn: its clock reading is that of one, before which
      there is none. */
  lemma {:induction false} TerminationIsPrompt(cfg: Config, turns: seq<Turn>, j: nat)
    requires Run(cfg, turns).result.None? && j < |turns| && IsLate(cfg, turns[j])
    requires forall i :: 0 <= i < j ==> !IsLate(cfg, turns[i])
    ensures Run(cfg, turns).terminationStarted == Some(turns[j].afterTerminate)
  {
    var init := turns[..|turns| - 1];
    LastTurn(cfg, turns);
    TimeoutIsActedOn(cfg, init);
    assert forall i :: 0 <= i < |init| ==> init[i] == turns[i];
    if j < |init| { TerminationIsPrompt(cfg, init, j); }
  }

  /** The first turn past the timeout, when there is one. */
  lemma {:induction false} FirstLate(cfg: Config, turns: seq<Turn>, j: nat) returns (first: nat)
    requires j < |turns| && IsLate(cfg, turns[j])
    ensures first <= j && IsLate(cfg, turns[first]) && forall i :: 0 <= i < first ==> !IsLate(cfg, turns[i])
    decreases j
  {
    if i: nat :| i < j && IsLate(cfg, turns[i]) { first := FirstLate(cfg, turns, i); } else { first := j; }
  }

  /** With a timeout set, no run outlives it by more than the drain time: a turn that begins
      past the timeout and a turn that reads the clock 5000 ms later cannot both leave the loop
      running. */
  lemma NoRunOutlivesItsDeadline(cfg: Config, turns: seq<Turn>, j: nat)
    requires Monotone(turns) && j < |turns| && IsLate(cfg, turns[j])
    requires Millis(turns[j].afterTerminate, turns[|turns| - 1].atDrain) >= 5_000
    ensures Run(cfg, turns).result.Some?
  {
    if Run(cfg, turns).result.None? {
      var first := FirstLate(cfg, turns, j);
      TerminationIsPrompt(cfg, turns, first);
      LastTurn(cfg, turns);
      MillisShrinks(turns[first].afterTerminate, turns[j].afterTerminate, turns[|turns| - 1].atDrain);
      assert false;
    }
  }
}
