/**
 The COM resolver of src/com/resolver.rs over the registry interface: merged hive reads,
 CLSID and ProgID resolution, server command lines, and the reverse lookup by path.
 */
module Resolver {
  import opened Wrappers
  import opened Text
  import opened TextFacts
  import opened Registry
  import opened Chains

  const MAX_CHAIN_HOPS: nat := 64

  /** Environment-variable expansion and the file check, as the machine answers them. */
  datatype Env = Env(expand: string -> string, fileExists: string -> bool)

  datatype ServerKind = Inproc | Local

  datatype LookupStatus =
    Registered | NotRegistered | ProgidBroken | TreatAsBroken | BrokenRegistration | AccessIsDenied

  datatype LookupResult = LookupResult(
    status: LookupStatus, view: View, clsid: Option<string>, hive: Option<Hive>, serverKind: Option<ServerKind>,
    serverPath: Option<string>, serverCommand: Option<string>, threadingModel: Option<string>,
    progidOfClsid: Option<string>, progidChain: seq<string>, treatasChain: seq<string>)

  function NewResult(view: View, status: LookupStatus): LookupResult {
    LookupResult(status, view, None, None, None, None, None, None, None, [], [])
  }

  // ---------- key names ----------

  const CLASSES_ROOT: string := "Software\\Classes"
  const CLSID_ROOT: string := "Software\\Classes\\CLSID"

  function Under(parent: string, child: string): string {
    parent + "\\" + child
  }

  function ClsidKey(clsid: string): string {
    Under(CLSID_ROOT, clsid)
  }

  function KindName(kind: ServerKind): string {
    if kind.Inproc? then "InprocServer32" else "LocalServer32"
  }

  function ServerKey(clsid: string, kind: ServerKind): string {
    Under(ClsidKey(clsid), KindName(kind))
  }

  function ProgidKey(progid: string): string {
    Under(CLASSES_ROOT, progid)
  }

  // ---------- merged reads: the user hive first ----------

  datatype KeyState = Exists(hive: Hive) | Denied | Absent

  datatype MergedRead = Found(text: string, hive: Hive) | Invalid(hive: Hive) | Nothing | ReadDenied

  /** What one hive decides about a key, if anything. */
  function KeyStateAt(reg: Registry, view: View, key: string, hive: Hive): Option<KeyState> {
    var loc := Location(hive, view);
    if reg.read(loc, key, "").AccessDenied? then Some(Denied)
    else if reg.keyExists(loc, key) then Some(Exists(hive))
    else None
  }

  function MergedKeyState(reg: Registry, view: View, key: string): KeyState {
    match KeyStateAt(reg, view, key, Hkcu)
    case Some(s) => s
    case None =>
      match KeyStateAt(reg, view, key, Hklm)
      case Some(s) => s
      case None => Absent
  }

  /** A usable string: not blank, expanded when it is an expandable one. */
  function Usable(env: Env, value: RegValue): Option<string> {
    match value
    case Str(text) => if Trim(text) != [] then Some(text) else None
    case ExpandStr(text) => if Trim(text) != [] then Some(env.expand(text)) else None
    case _ => None
  }

  /** What one hive decides about a value: a present key shadows the other hive even when its
      value is unusable. */
  function ReadAt(env: Env, reg: Registry, view: View, key: string, name: string, hive: Hive): Option<MergedRead> {
    var loc := Location(hive, view);
    var value := reg.read(loc, key, name);
    if Usable(env, value).Some? then Some(Found(Usable(env, value).value, hive))
    else if value.AccessDenied? then Some(ReadDenied)
    else if reg.keyExists(loc, key) then Some(Invalid(hive))
    else None
  }

  function MergedReadString(env: Env, reg: Registry, view: View, key: string, name: string): MergedRead {
    match ReadAt(env, reg, view, key, name, Hkcu)
    case Some(r) => r
    case None =>
      match ReadAt(env, reg, view, key, name, Hklm)
      case Some(r) => r
      case None => Nothing
  }

  function ReadStringAt(env: Env, reg: Registry, loc: Location, key: string, name: string): Option<string> {
    Usable(env, reg.read(loc, key, name))
  }

  // ---------- server commands ----------

  /** `extract_local_server_exe`: a quoted prefix, or the shortest existing prefix that ends
      before a space, or the whole command, or its first word. */
  function LocalServerExe(env: Env, command: string): string {
    var trimmed := Trim(command);
    if trimmed != [] && trimmed[0] == '"' then UpTo(trimmed[1..], '"')
    else match ExistingPrefix(env, trimmed, 0)
         case Some(exe) => exe
         case None => if env.fileExists(trimmed) then trimmed else UpTo(trimmed, ' ')
  }

  function ExistingPrefix(env: Env, s: string, i: nat): Option<string>
    requires i <= |s|
    decreases |s| - i
  {
    if i == |s| then None
    else if s[i] == ' ' && env.fileExists(s[..i]) then Some(s[..i])
    else ExistingPrefix(env, s, i + 1)
  }

  /** The command ends before a blank at `j`, and what is before it exists. */
  predicate CutsAt(env: Env, s: string, j: nat) {
    j < |s| && s[j] == ' ' && env.fileExists(s[..j])
  }

  /** The shortest prefix that ends before a blank and exists. */
  lemma {:induction false} ExistingPrefixMeaning(env: Env, s: string, i: nat)
    requires i <= |s|
    ensures var exe := ExistingPrefix(env, s, i);
            && (exe.None? <==> forall j: nat :: i <= j ==> !CutsAt(env, s, j))
            && (exe.Some? ==> i <= |exe.value| && exe.value <= s && CutsAt(env, s, |exe.value|)
                              && forall j: nat :: i <= j < |exe.value| ==> !CutsAt(env, s, j))
    decreases |s| - i
  {
    if i < |s| && !CutsAt(env, s, i) { ExistingPrefixMeaning(env, s, i + 1); }
  }

  /** The server of a command: behind an opening quote, what is before the next one. Otherwise the
      shortest prefix that ends before a blank and exists, or else the whole command if that
      exists, or else its first word. */
  ghost predicate IsServerExe(env: Env, t: string, exe: string) {
    if t != [] && t[0] == '"' then
      exe <= t[1..] && '"' !in exe && (|exe| < |t| - 1 ==> t[1..][|exe|] == '"')
    else if exists j: nat :: CutsAt(env, t, j) then
      exe <= t && CutsAt(env, t, |exe|) && forall j: nat :: j < |exe| ==> !CutsAt(env, t, j)
    else if env.fileExists(t) then exe == t
    else exe <= t && ' ' !in exe && (|exe| < |t| ==> t[|exe|] == ' ')
  }

  lemma LocalServerExeMeaning(env: Env, command: string)
    ensures IsServerExe(env, Trim(command), LocalServerExe(env, command))
  {
    var t := Trim(command);
    ExistingPrefixMeaning(env, t, 0);
    if t != [] { UpToMeaning(t[1..], '"'); }
    UpToMeaning(t, ' ');
  }

  method ExtractLocalServerExe(env: Env, command: string) returns (exe: string)
    ensures exe == LocalServerExe(env, command) && IsServerExe(env, Trim(command), exe)
  {
    LocalServerExeMeaning(env, command);
    var trimmed := Trim(command);
    if trimmed != [] && trimmed[0] == '"' {
      return UpTo(trimmed[1..], '"');
    }
    for i := 0 to |trimmed|
      invariant ExistingPrefix(env, trimmed, i) == ExistingPrefix(env, trimmed, 0)
    {
      if trimmed[i] == ' ' && env.fileExists(trimmed[..i]) {
        return trimmed[..i];
      }
    }
    if env.fileExists(trimmed) {
      return trimmed;
    }
    return UpTo(trimmed, ' ');
  }

  /** The server file of a registered server value. */
  function ServerPath(env: Env, kind: ServerKind, text: string): string {
    if kind.Inproc? then TrimQuotes(Trim(text)) else LocalServerExe(env, text)
  }

  // ---------- what the keys of one name say ----------

  /** The default values of one view, merged over the hives, with the threading model that
      stands beside a found value. */
  datatype Merged = Merged(
    state: string -> KeyState, value: string -> MergedRead, threading: string -> Option<string>)

  function ThreadingBeside(env: Env, reg: Registry, view: View, key: string): Option<string> {
    var read := MergedReadString(env, reg, view, key, "");
    if read.Found? then ReadStringAt(env, reg, Location(read.hive, view), key, "ThreadingModel") else None
  }

  function MergedOf(env: Env, reg: Registry, view: View): Merged {
    Merged((key: string) => MergedKeyState(reg, view, key),
           (key: string) => MergedReadString(env, reg, view, key, ""),
           (key: string) => ThreadingBeside(env, reg, view, key))
  }

  function ClsidStep(m: Merged, clsid: string): Step {
    match m.state(ClsidKey(clsid))
    case Denied => Blocked
    case Absent => Gone
    case Exists(_) =>
      match m.value(Under(ClsidKey(clsid), "TreatAs"))
      case ReadDenied => Blocked
      case Found(text, _) => Redirect(Trim(text))
      case Invalid(_) => Malformed
      case Nothing => Terminal
  }

  /** A CurVer that names its own key is terminal. */
  function ProgidStep(m: Merged, progid: string): Step {
    match m.state(ProgidKey(progid))
    case Denied => Blocked
    case Absent => Gone
    case Exists(_) =>
      match m.value(Under(ProgidKey(progid), "CurVer"))
      case ReadDenied => Blocked
      case Found(text, _) => if SameIgnoringCase(Trim(text), progid) then Terminal else Redirect(Trim(text))
      case Invalid(_) => Malformed
      case Nothing => Terminal
  }

  /** A registered server: its file, the raw value behind it, and its threading model. */
  datatype Served = Served(path: string, text: string, threadingModel: Option<string>)

  datatype ServerRead = Server(hive: Hive, served: Served) | ServerDenied | ServerBroken(brokenIn: Hive) | NoServer

  function ReadServer(env: Env, m: Merged, clsid: string, kind: ServerKind): ServerRead {
    match m.value(ServerKey(clsid, kind))
    case ReadDenied => ServerDenied
    case Found(text, hive) =>
      Server(hive, Served(ServerPath(env, kind, text), text, m.threading(ServerKey(clsid, kind))))
    case Invalid(hive) => ServerBroken(hive)
    case Nothing => NoServer
  }

  function ClsidKeyState(m: Merged, clsid: string): KeyState {
    m.state(ClsidKey(clsid))
  }

  function ProgidOfClsid(m: Merged, clsid: string): MergedRead {
    m.value(Under(ClsidKey(clsid), "ProgID"))
  }

  function ClsidOfProgid(m: Merged, progid: string): MergedRead {
    m.value(Under(ProgidKey(progid), "CLSID"))
  }

  /** All that resolution asks of a registry view, name by name. `SourceOf` is the resolver's
      own way of answering, by merged reads of the keys of that name. */
  datatype Source = Source(
    clsidStep: string -> Step,
    progidStep: string -> Step,
    server: (string, ServerKind) -> ServerRead,
    keyState: string -> KeyState,
    progidOf: string -> MergedRead,
    clsidOf: string -> MergedRead)

  function SourceFrom(env: Env, m: Merged): Source {
    Source(
      (clsid: string) => ClsidStep(m, clsid),
      (progid: string) => ProgidStep(m, progid),
      (clsid: string, kind: ServerKind) => ReadServer(env, m, clsid, kind),
      (clsid: string) => ClsidKeyState(m, clsid),
      (clsid: string) => ProgidOfClsid(m, clsid),
      (progid: string) => ClsidOfProgid(m, progid))
  }

  function SourceOf(env: Env, reg: Registry, view: View): Source {
    SourceFrom(env, MergedOf(env, reg, view))
  }

  // ---------- CLSIDs ----------

  /** A found server in the result, with the raw command when it is more than the path. */
  function WithServer(src: Source, result: LookupResult, clsid: string, kind: ServerKind, hive: Hive, served: Served)
    : LookupResult
  {
    var read := src.progidOf(clsid);
    result.(
      hive := Some(hive), serverKind := Some(kind), serverPath := Some(served.path),
      threadingModel := served.threadingModel,
      serverCommand := if kind.Local? && served.path != served.text then Some(served.text) else None,
      progidOfClsid := if read.Found? then Some(Trim(read.text)) else None)
  }

  /** The servers of a terminal CLSID, in order: the first that exists decides. */
  function Inspect(src: Source, result: LookupResult, clsid: string, kinds: seq<ServerKind>): LookupResult {
    if kinds == [] then
      var state := src.keyState(clsid);
      result.(hive := if state.Exists? then Some(state.hive) else None, status := BrokenRegistration)
    else
      match src.server(clsid, kinds[0])
      case ServerDenied => result.(status := AccessIsDenied)
      case Server(hive, served) => WithServer(src, result, clsid, kinds[0], hive, served)
      case ServerBroken(hive) => result.(hive := Some(hive), status := BrokenRegistration)
      case NoServer => Inspect(src, result, clsid, kinds[1..])
  }

  const KINDS: seq<ServerKind> := [Inproc, Local]

  /** The result for a CLSID whose chain ended with `t`. */
  function ClsidResult(src: Source, view: View, t: Trail): LookupResult {
    var result := NewResult(view, Registered).(treatasChain := t.chain);
    match t.end
    case Blocked => result.(status := AccessIsDenied)
    case Gone => result.(status := if t.chain == [] then NotRegistered else TreatAsBroken)
    case Malformed => result.(status := TreatAsBroken)
    case Redirect(_) => result.(status := TreatAsBroken)
    case Terminal => Inspect(src, result.(clsid := Some(t.last)), t.last, KINDS)
  }

  /** `resolve_clsid` */
  function ResolveClsid(src: Source, clsid: string, view: View): LookupResult {
    ClsidResult(src, view, Chase(src.clsidStep, clsid, MAX_CHAIN_HOPS))
  }

  method InspectServers(src: Source, found: LookupResult, clsid: string) returns (r: LookupResult)
    ensures r == Inspect(src, found, clsid, KINDS)
  {
    for i := 0 to |KINDS|
      invariant Inspect(src, found, clsid, KINDS[i..]) == Inspect(src, found, clsid, KINDS)
    {
      match src.server(clsid, KINDS[i])
      case ServerDenied => return found.(status := AccessIsDenied);
      case Server(hive, served) => return WithServer(src, found, clsid, KINDS[i], hive, served);
      case ServerBroken(hive) => return found.(hive := Some(hive), status := BrokenRegistration);
      case NoServer =>
        assert KINDS[i..][1..] == KINDS[i + 1..];
    }
    var state := src.keyState(clsid);
    return found.(hive := if state.Exists? then Some(state.hive) else None, status := BrokenRegistration);
  }

  method FindClsid(src: Source, clsid: string, view: View) returns (r: LookupResult)
    ensures r == ResolveClsid(src, clsid, view)
  {
    var t := FollowChain(src.clsidStep, clsid, MAX_CHAIN_HOPS);
    r := NewResult(view, Registered).(treatasChain := t.chain);
    match t.end
    case Blocked =>
      r := r.(status := AccessIsDenied);
    case Gone =>
      r := r.(status := if t.chain == [] then NotRegistered else TreatAsBroken);
    case Terminal =>
      r := InspectServers(src, r.(clsid := Some(t.last)), t.last);
    case _ =>
      r := r.(status := TreatAsBroken);
  }

  // ---------- ProgIDs ----------

  /** The CLSID a terminal ProgID names, resolved. A missing one is a broken ProgID. */
  function ResolveNamedClsid(src: Source, progid: string, chain: seq<string>, view: View): LookupResult {
    match src.clsidOf(progid)
    case ReadDenied => NewResult(view, AccessIsDenied).(progidChain := chain)
    case Found(text, _) =>
      var r := ResolveClsid(src, Trim(text), view);
      (if r.status == NotRegistered then r.(status := ProgidBroken, clsid := Some(Trim(text))) else r)
        .(progidChain := chain)
    case _ => NewResult(view, ProgidBroken).(progidChain := chain)
  }

  function ProgidResult(src: Source, view: View, progid: string, t: Trail): LookupResult {
    var chain := [progid] + t.chain;
    match t.end
    case Blocked => NewResult(view, AccessIsDenied).(progidChain := chain)
    case Terminal => ResolveNamedClsid(src, t.last, chain, view)
    case _ => NewResult(view, ProgidBroken).(progidChain := chain)
  }

  /** `resolve_progid`: the chain starts with the input, which takes up one of the 64 places. */
  function ResolveProgid(src: Source, progid: string, view: View): LookupResult {
    ProgidResult(src, view, progid, Chase(src.progidStep, progid, MAX_CHAIN_HOPS - 1))
  }

  method FindProgid(src: Source, progid: string, view: View) returns (r: LookupResult)
    ensures r == ResolveProgid(src, progid, view)
  {
    var t := FollowChain(src.progidStep, progid, MAX_CHAIN_HOPS - 1);
    r := ProgidResult(src, view, progid, t);
  }

  // ---------- reverse lookup ----------

  /** `normalize_path_for_compare` */
  function NormalizePath(path: string): string {
    Lower(Replace(TrimQuotes(Trim(path)), '/', '\\'))
  }

  datatype Registration = Registration(
    clsid: string, hive: Hive, view: View, kind: ServerKind, path: string, threadingModel: Option<string>)

  /** All that the reverse lookup asks of a registry: the CLSIDs of a location, and the server
      one of them registers there. */
  datatype Index = Index(
    listing: Location -> Result<seq<string>, nat>,
    served: (Location, string, ServerKind) -> Option<Served>)

  function ServedAt(env: Env, reg: Registry, loc: Location, clsid: string, kind: ServerKind): Option<Served> {
    var text :- ReadStringAt(env, reg, loc, ServerKey(clsid, kind), "");
    Some(Served(ServerPath(env, kind, text), text,
                ReadStringAt(env, reg, loc, ServerKey(clsid, kind), "ThreadingModel")))
  }

  function IndexOf(env: Env, reg: Registry): Index {
    Index((loc: Location) => reg.subkeysOf(loc, CLSID_ROOT),
          (loc: Location, clsid: string, kind: ServerKind) => ServedAt(env, reg, loc, clsid, kind))
  }

  /** The registration under one listed CLSID, if its server is the wanted file. */
  function ServerMatch(ix: Index, target: string, loc: Location, clsid: string, kind: ServerKind): seq<Registration> {
    match ix.served(loc, clsid, kind)
    case None => []
    case Some(served) =>
      if NormalizePath(served.path) == target then
        [Registration(clsid, loc.hive, loc.view, kind, served.path, served.threadingModel)]
      else []
  }

  function Matcher(ix: Index, target: string, loc: Location): string -> seq<Registration> {
    (clsid: string) => ServerMatch(ix, target, loc, clsid, Inproc) + ServerMatch(ix, target, loc, clsid, Local)
  }

  function ConcatMap<A, B>(f: A -> seq<B>, s: seq<A>): seq<B> {
    if s == [] then [] else ConcatMap(f, s[..|s| - 1]) + f(s[|s| - 1])
  }

  /** One hive of one view. A denied listing is an error; any other listing error is an empty list. */
  function LookupIn(ix: Index, target: string, loc: Location): Result<seq<Registration>, Location> {
    match ix.listing(loc)
    case Ok(names) => Ok(ConcatMap(Matcher(ix, target, loc), SortNames(names)))
    case Err(code) => if code == ERROR_ACCESS_DENIED then Err(loc) else Ok([])
  }

  /** The locations in the order they are scanned. */
  function Scanned(views: seq<View>): seq<Location> {
    if views == [] then []
    else Scanned(views[..|views| - 1]) + [Location(Hkcu, views[|views| - 1]), Location(Hklm, views[|views| - 1])]
  }

  function LookupAll(ix: Index, target: string, locs: seq<Location>): Result<seq<Registration>, Location> {
    if locs == [] then Ok([])
    else
      var front :- LookupAll(ix, target, locs[..|locs| - 1]);
      var last :- LookupIn(ix, target, locs[|locs| - 1]);
      Ok(front + last)
  }

  /** `reverse_lookup` */
  function ReverseLookup(ix: Index, path: string, views: seq<View>): Result<seq<Registration>, Location> {
    LookupAll(ix, NormalizePath(path), Scanned(views))
  }

  /** The loop over one location's CLSIDs. */
  method CollectMatches(matchesOf: string -> seq<Registration>, clsids: seq<string>)
    returns (matches: seq<Registration>)
    ensures matches == ConcatMap(matchesOf, clsids)
  {
    matches := [];
    for j := 0 to |clsids|
      invariant matches == ConcatMap(matchesOf, clsids[..j])
    {
      assert clsids[..j + 1][..|clsids[..j + 1]| - 1] == clsids[..j];
      matches := matches + matchesOf(clsids[j]);
    }
    assert clsids[..|clsids|] == clsids;
  }

  method FindByPath(ix: Index, path: string, views: seq<View>) returns (r: Result<seq<Registration>, Location>)
    ensures r == ReverseLookup(ix, path, views)
  {
    var target := NormalizePath(path);
    var matches: seq<Registration> := [];
    var locs := Scanned(views);
    for i := 0 to |locs|
      invariant LookupAll(ix, target, locs[..i]) == Ok(matches)
    {
      var loc := locs[i];
      assert locs[..i + 1][..|locs[..i + 1]| - 1] == locs[..i];
      var listing := ix.listing(loc);
      if listing.Err? {
        if listing.error == ERROR_ACCESS_DENIED {
          LookupFails(ix, target, locs, i + 1);
          return Err(loc);
        }
        assert matches + [] == matches;
      } else {
        var found := CollectMatches(Matcher(ix, target, loc), SortNames(listing.value));
        matches := matches + found;
      }
    }
    assert locs[..|locs|] == locs;
    return Ok(matches);
  }

  lemma {:induction false} LookupFails(ix: Index, target: string, locs: seq<Location>, n: nat)
    requires n <= |locs| && LookupAll(ix, target, locs[..n]).Err?
    ensures LookupAll(ix, target, locs) == LookupAll(ix, target, locs[..n])
    decreases |locs|
  {
    if n == |locs| {
      assert locs[..n] == locs;
    } else {
      assert locs[..|locs| - 1][..n] == locs[..n];
      LookupFails(ix, target, locs[..|locs| - 1], n);
    }
  }
}
