/**
 The debug loop of `run_target` (src/debug_run.rs:157-291). One turn of the loop takes what
 the environment answers: clock readings, the result of `TerminateProcess` and the result of
 `WaitForDebugEvent`. The calls the loop makes are kept in a log.
 */
module DebugLoop {
  import opened Wrappers

  type U32 = n: nat | n < 0x1_0000_0000
  type Handle = int

  const DBG_CONTINUE: U32 := 0x0001_0002
  const DBG_EXCEPTION_NOT_HANDLED: U32 := 0x8001_0001
  const STATUS_BREAKPOINT: U32 := 0x8000_0003
  const STATUS_SINGLE_STEP: U32 := 0x8000_0004
  const WAIT_TIMEOUT: U32 := 258
  const ERROR_SEM_TIMEOUT: U32 := 121
  const TERMINATION_DRAIN_TIMEOUT_MS: nat := 5_000

  // ---------- what the environment says ----------

  /** A path, with what `Path::file_name` says of it. */
  datatype Path = Path(text: string, fileName: Option<string>)

  datatype Info =
    | CreateProcess(file: Handle)
    | LoadDll(file: Handle, fromFile: Option<Path>, fromName: Option<Path>, base: nat)
    | OutputDebugString(text: Option<string>)
    | Exception(code: U32, firstChance: U32)
    | ExitProcess(exitCode: U32)
    | Other

  datatype DebugEvent = DebugEvent(pid: U32, tid: U32, info: Info)

  datatype WaitResult = Received(event: DebugEvent) | NotReceived(error: U32)

  /** Clock readings are in nanoseconds. */
  datatype Turn = Turn(
    atTop: nat, terminateError: Option<U32>, afterTerminate: nat, atDrain: nat, wait: WaitResult, atEnd: nat)

  datatype Config = Config(start: nat, timeoutMs: U32, pid: U32)

  /** `Instant::elapsed().as_millis()`, which saturates at zero. */
  function Millis(since: nat, now: nat): nat {
    if now < since then 0 else (now - since) / 1_000_000
  }

  /** `elapsed as u32` keeps the low 32 bits. */
  function Truncated(n: nat): U32 {
    n % 0x1_0000_0000
  }

  function SaturatingSub(a: U32, b: U32): U32 {
    if b <= a then a - b else 0
  }

  // ---------- what the loop does ----------

  datatype Action =
    | Terminate(top: nat, after: nat)
    | Wait(top: nat, at: nat, ms: nat, received: Option<DebugEvent>)
    | CloseFile(file: Handle)
    | Continue(pid: U32, tid: U32, status: U32)
    | CloseProcess

  datatype LoadedModule = LoadedModule(dllName: string, path: Option<Path>, base: nat)

  datatype RuntimeEvent = RuntimeLoaded(m: LoadedModule) | DebugString(pid: U32, tid: U32, text: string)

  datatype RunEndKind = EndExitProcess | EndException | EndTimeout

  datatype RunOutcome = RunOutcome(
    pid: U32, runtimeEvents: seq<RuntimeEvent>, loadedModules: seq<LoadedModule>, endKind: RunEndKind,
    exitCode: Option<U32>, exceptionCode: Option<U32>, elapsedMs: nat)

  datatype RunError = TerminateFailed(code: U32) | DrainTimedOut | WaitFailed(code: U32)

  datatype State = State(
    events: seq<RuntimeEvent>, loaded: seq<LoadedModule>, exitCode: Option<U32>, exceptionCode: Option<U32>,
    terminalException: bool, exited: bool, timeoutHit: bool, terminationStarted: Option<nat>,
    log: seq<Action>, result: Option<Result<RunOutcome, RunError>>)

  const INITIAL: State := State([], [], None, None, false, false, false, None, [], None)

  predicate IsReal(h: Handle) {
    h != 0 && h != -1
  }

  /** `close_if_needed` */
  function Closing(log: seq<Action>, file: Handle): seq<Action> {
    if IsReal(file) then log + [CloseFile(file)] else log
  }

  function HexDigits(n: nat, width: nat): string {
    if width == 0 then [] else HexDigits(n / 16, width - 1) + ["0123456789ABCDEF"[n % 16]]
  }

  const ADDRESS_BYTES: nat := 8

  /** An address, with all its digits. */
  function AddressText(base: nat): string {
    HexDigits(base, 2 * ADDRESS_BYTES)
  }

  /** `loaded_module_name` */
  function LoadedModuleName(path: Option<Path>, base: nat): string {
    if path.Some? && path.value.fileName.Some? then path.value.fileName.value
    else "UNKNOWN_" + AddressText(base)
  }

  function ModuleOf(fromFile: Option<Path>, fromName: Option<Path>, base: nat): LoadedModule {
    var path := if fromFile.Some? then fromFile else fromName;
    LoadedModule(LoadedModuleName(path, base), path, base)
  }

  /** `debug_string_text` */
  function DebugStringText(text: Option<string>): string {
    if text.Some? then text.value else "UNREADABLE"
  }

  predicate IsDebuggerTrap(code: U32) {
    code == STATUS_BREAKPOINT || code == STATUS_SINGLE_STEP
  }

  /** `determine_end_kind` */
  function DetermineEndKind(exited: bool, terminalException: bool, timeoutHit: bool): RunEndKind {
    if timeoutHit then EndTimeout
    else if exited then if terminalException then EndException else EndExitProcess
    else if terminalException then EndException
    else EndTimeout
  }

  function Fail(s: State, error: RunError): State {
    s.(log := s.log + [CloseProcess], result := Some(Err(error)))
  }

  /** The timeout test at the top of a turn. */
  function CheckTimeout(cfg: Config, s: State, t: Turn): State {
    if !s.timeoutHit && cfg.timeoutMs != 0 && Millis(cfg.start, t.atTop) >= cfg.timeoutMs then
      var s' := s.(log := s.log + [Terminate(t.atTop, t.afterTerminate)]);
      if t.terminateError.Some? then Fail(s', TerminateFailed(t.terminateError.value))
      else s'.(timeoutHit := true, terminationStarted := Some(t.afterTerminate))
    else s
  }

  function CheckDrain(s: State, t: Turn): State {
    if s.terminationStarted.Some? && Millis(s.terminationStarted.value, t.atDrain) >= TERMINATION_DRAIN_TIMEOUT_MS
    then Fail(s, DrainTimedOut) else s
  }

  function WaitMs(cfg: Config, timeoutHit: bool, elapsed: nat): nat {
    var remaining := SaturatingSub(cfg.timeoutMs, Truncated(elapsed));
    if cfg.timeoutMs == 0 || timeoutHit then 250 else if remaining < 250 then remaining else 250
  }

  function StatusFor(info: Info): U32 {
    if info.Exception? && !IsDebuggerTrap(info.code) then DBG_EXCEPTION_NOT_HANDLED else DBG_CONTINUE
  }

  function Observe(s: State, e: DebugEvent): State {
    match e.info
    case CreateProcess(file) => s.(log := Closing(s.log, file))
    case LoadDll(file, fromFile, fromName, base) =>
      var m := ModuleOf(fromFile, fromName, base);
      s.(loaded := s.loaded + [m], events := s.events + [RuntimeLoaded(m)], log := Closing(s.log, file))
    case OutputDebugString(text) =>
      s.(events := s.events + [DebugString(e.pid, e.tid, DebugStringText(text))])
    case Exception(code, firstChance) =>
      if !IsDebuggerTrap(code) && firstChance == 0
      then s.(exceptionCode := Some(code), terminalException := true) else s
    case ExitProcess(code) =>
      s.(exitCode := Some(code), exited := true,
         exceptionCode := if s.exceptionCode.None? && code >= 0x8000_0000 then Some(code) else s.exceptionCode)
    case Other => s
  }

  function OutcomeOf(cfg: Config, s: State, t: Turn): RunOutcome {
    RunOutcome(cfg.pid, s.events, s.loaded, DetermineEndKind(s.exited, s.terminalException, s.timeoutHit),
               s.exitCode, s.exceptionCode, Millis(cfg.start, t.atEnd))
  }

  /** The event is continued, and its exit ends the loop. */
  function Continued(cfg: Config, s: State, t: Turn, e: DebugEvent): State {
    var s' := s.(log := s.log + [Continue(e.pid, e.tid, StatusFor(e.info))]);
    if !s'.exited then s'
    else s'.(log := s'.log + [CloseProcess], result := Some(Ok(OutcomeOf(cfg, s', t))))
  }

  function WaitAndHandle(cfg: Config, s: State, t: Turn): State {
    var ms := WaitMs(cfg, s.timeoutHit, Millis(cfg.start, t.atTop));
    match t.wait
    case NotReceived(error) =>
      var s' := s.(log := s.log + [Wait(t.atTop, t.atDrain, ms, None)]);
      if error == WAIT_TIMEOUT || error == ERROR_SEM_TIMEOUT then s' else Fail(s', WaitFailed(error))
    case Received(e) =>
      Continued(cfg, Observe(s.(log := s.log + [Wait(t.atTop, t.atDrain, ms, Some(e))]), e), t, e)
  }

  function Step(cfg: Config, s: State, t: Turn): State {
    if s.result.Some? then s
    else
      var timed := CheckTimeout(cfg, s, t);
      if timed.result.Some? then timed
      else
        var drained := CheckDrain(timed, t);
        if drained.result.Some? then drained else WaitAndHandle(cfg, drained, t)
  }

  /** The loop over the first turns of a run. */
  function Run(cfg: Config, turns: seq<Turn>): State {
    if turns == [] then INITIAL else Step(cfg, Run(cfg, turns[..|turns| - 1]), turns[|turns| - 1])
  }

  /** The arms of the event switch. */
  method HandleEvent(
    event: DebugEvent, ghost s: State,
    events: seq<RuntimeEvent>, loaded: seq<LoadedModule>, exitCode: Option<U32>, exceptionCode: Option<U32>,
    terminalException: bool, exited: bool, log: seq<Action>)
    returns (events': seq<RuntimeEvent>, loaded': seq<LoadedModule>, exitCode': Option<U32>,
             exceptionCode': Option<U32>, terminalException': bool, exited': bool, log': seq<Action>,
             continueStatus: U32)
    requires s == State(events, loaded, exitCode, exceptionCode, terminalException, exited,
                        s.timeoutHit, s.terminationStarted, log, None)
    ensures Observe(s, event) == State(events', loaded', exitCode', exceptionCode', terminalException', exited',
                                       s.timeoutHit, s.terminationStarted, log', None)
    ensures continueStatus == StatusFor(event.info)
  {
    events', loaded', exitCode', exceptionCode' := events, loaded, exitCode, exceptionCode;
    terminalException', exited', log' := terminalException, exited, log;
    continueStatus := DBG_CONTINUE;
    match event.info {
      case CreateProcess(file) =>
        log' := Closing(log', file);
      case LoadDll(file, fromFile, fromName, base) =>
        var m := ModuleOf(fromFile, fromName, base);
        loaded' := loaded' + [m];
        events' := events' + [RuntimeLoaded(m)];
        log' := Closing(log', file);
      case OutputDebugString(text) =>
        events' := events' + [DebugString(event.pid, event.tid, DebugStringText(text))];
      case Exception(code, firstChance) =>
        if !IsDebuggerTrap(code) {
          if firstChance == 0 {
            exceptionCode' := Some(code);
            terminalException' := true;
          }
          continueStatus := DBG_EXCEPTION_NOT_HANDLED;
        }
      case ExitProcess(code) =>
        exitCode' := Some(code);
        if exceptionCode'.None? && code >= 0x8000_0000 {
          exceptionCode' := Some(code);
        }
        exited' := true;
      case Other =>
    }
  }

  /** The timeout test and the drain test at the top of a turn. */
  ghost function CheckTimers(cfg: Config, s: State, t: Turn): State {
    var timed := CheckTimeout(cfg, s, t);
    if timed.result.Some? then timed else CheckDrain(timed, t)
  }

  /** The same tests on the variables of the loop; an error ends it. */
  method TestTimers(cfg: Config, t: Turn, ghost s: State,
                    timeoutHit: bool, terminationStarted: Option<nat>, log: seq<Action>)
    returns (timeoutHit': bool, terminationStarted': Option<nat>, log': seq<Action>, error: Option<RunError>)
    requires s.timeoutHit == timeoutHit && s.terminationStarted == terminationStarted
    requires s.log == log && s.result.None?
    ensures CheckTimers(cfg, s, t) == s.(timeoutHit := timeoutHit', terminationStarted := terminationStarted',
                                         log := log', result := if error.Some? then Some(Err(error.value)) else None)
  {
    timeoutHit', terminationStarted', log', error := timeoutHit, terminationStarted, log, None;
    if !timeoutHit && cfg.timeoutMs != 0 && Millis(cfg.start, t.atTop) >= cfg.timeoutMs {
      log' := log' + [Terminate(t.atTop, t.afterTerminate)];
      if t.terminateError.Some? {
        log' := log' + [CloseProcess];
        error := Some(TerminateFailed(t.terminateError.value));
        return;
      }
      timeoutHit' := true;
      terminationStarted' := Some(t.afterTerminate);
    }
    if terminationStarted'.Some? {
      if Millis(terminationStarted'.value, t.atDrain) >= TERMINATION_DRAIN_TIMEOUT_MS {
        log' := log' + [CloseProcess];
        error := Some(DrainTimedOut);
      }
    }
  }

  /** The loop itself, over the turns the environment provides; without a result it is still running. */
  method RunTarget(cfg: Config, turns: seq<Turn>)
    returns (result: Option<Result<RunOutcome, RunError>>, log: seq<Action>, events: seq<RuntimeEvent>)
    ensures result == Run(cfg, turns).result
    ensures log == Run(cfg, turns).log && events == Run(cfg, turns).events
  {
    events, log, result := [], [], None;
    var loaded: seq<LoadedModule> := [];
    var exitCode: Option<U32> := None;
    var exceptionCode: Option<U32> := None;
    var sawTerminalException, sawExit, timeoutHit := false, false, false;
    var terminationStarted: Option<nat> := None;
    var i := 0;
    while i < |turns|
      invariant 0 <= i <= |turns|
      invariant Run(cfg, turns[..i]) == State(events, loaded, exitCode, exceptionCode, sawTerminalException,
                                              sawExit, timeoutHit, terminationStarted, log, None)
      invariant result == None
    {
      var t := turns[i];
      ghost var before := Run(cfg, turns[..i]);
      i := i + 1;
      assert turns[..i][..i - 1] == turns[..i - 1];
      assert Run(cfg, turns[..i]) == Step(cfg, before, t);
      var error;
      timeoutHit, terminationStarted, log, error :=
        TestTimers(cfg, t, before, timeoutHit, terminationStarted, log);
      if error.Some? {
        result := Some(Err(error.value));
        break;
      }
      ghost var timed := CheckTimers(cfg, before, t);
      assert Step(cfg, before, t) == WaitAndHandle(cfg, timed, t);

      var elapsed := Millis(cfg.start, t.atTop);
      var remaining := SaturatingSub(cfg.timeoutMs, Truncated(elapsed));
      var waitMs := 250;
      if cfg.timeoutMs != 0 && !timeoutHit && remaining < 250 {
        waitMs := remaining;
      }
      if t.wait.NotReceived? {
        log := log + [Wait(t.atTop, t.atDrain, waitMs, None)];
        if t.wait.error == WAIT_TIMEOUT || t.wait.error == ERROR_SEM_TIMEOUT {
          continue;
        }
        log := log + [CloseProcess];
        result := Some(Err(WaitFailed(t.wait.error)));
        break;
      }

      var event := t.wait.event;
      log := log + [Wait(t.atTop, t.atDrain, waitMs, Some(event))];
      ghost var waiting := timed.(log := log);
      var continueStatus;
      events, loaded, exitCode, exceptionCode, sawTerminalException, sawExit, log, continueStatus :=
        HandleEvent(event, waiting, events, loaded, exitCode, exceptionCode, sawTerminalException, sawExit, log);
      log := log + [Continue(event.pid, event.tid, continueStatus)];

      if sawExit {
        log := log + [CloseProcess];
        var endKind := DetermineEndKind(sawExit, sawTerminalException, timeoutHit);
        result := Some(Ok(RunOutcome(cfg.pid, events, loaded, endKind, exitCode, exceptionCode,
                                     Millis(cfg.start, t.atEnd))));
        break;
      }
    }
    StaysEnded(cfg, turns, i);
  }

  lemma {:induction false} StaysEnded(cfg: Config, turns: seq<Turn>, i: nat)
    requires i == |turns| || (i < |turns| && Run(cfg, turns[..i]).result.Some?)
    ensures Run(cfg, turns) == Run(cfg, turns[..i])
    decreases |turns|
  {
    if i < |turns| {
      var init := turns[..|turns| - 1];
      assert init[..i] == turns[..i];
      StaysEnded(cfg, init, i);
    } else {
      assert turns[..i] == turns;
    }
  }
}
