/**
 What the resolver reads, stated on the registry: which hive answers, which values are usable,
 under which keys a CLSID and a ProgID are looked up, and what a result says about its server.
 */
module ResolverReads {
  import opened Wrappers
  import opened Text
  import opened TextFacts
  import opened Registry
  import opened Chains
  import opened Resolver

  // ---------- one value ----------

  /** The value holds this text: as a string, or as an expandable one that expands to it. Whether it is
      blank is asked before it is expanded. */
  predicate HasText(env: Env, value: RegValue, text: string) {
    || (value.Str? && !IsBlank(value.text) && text == value.text)
    || (value.ExpandStr? && !IsBlank(value.text) && text == env.expand(value.text))
  }

  /** The value holds no text: it is missing, blank, a number, binary or an error. */
  predicate HasNoText(value: RegValue) {
    match value
    case Str(text) => IsBlank(text)
    case ExpandStr(text) => IsBlank(text)
    case _ => true
  }

  lemma UsableMeaning(env: Env, value: RegValue, text: string)
    ensures Usable(env, value) == Some(text) <==> HasText(env, value, text)
    ensures Usable(env, value).None? <==> HasNoText(value)
  {
    if value.Str? || value.ExpandStr? { BlankTrims(value.text); }
  }

  // ---------- two hives ----------

  /** The hive that answers for a value: the user's, if it holds text or refuses or has the key at all;
      otherwise the machine's. */
  function Answering(reg: Registry, view: View, key: string, name: string): Hive {
    var user := reg.read(Location(Hkcu, view), key, name);
    if !HasNoText(user) || user == AccessDenied || reg.keyExists(Location(Hkcu, view), key) then Hkcu else Hklm
  }

  ghost predicate IsRead(env: Env, reg: Registry, view: View, key: string, name: string, r: MergedRead) {
    var hive := Answering(reg, view, key, name);
    var loc := Location(hive, view);
    var value := reg.read(loc, key, name);
    match r
    case Found(text, h) => h == hive && HasText(env, value, text)
    case ReadDenied => value == AccessDenied
    case Invalid(h) => h == hive && HasNoText(value) && value != AccessDenied && reg.keyExists(loc, key)
    case Nothing => HasNoText(value) && value != AccessDenied && !reg.keyExists(loc, key)
  }

  lemma ReadMeaning(env: Env, reg: Registry, view: View, key: string, name: string)
    ensures IsRead(env, reg, view, key, name, MergedReadString(env, reg, view, key, name))
  {
    var user, machine := reg.read(Location(Hkcu, view), key, name), reg.read(Location(Hklm, view), key, name);
    UsableMeaning(env, user, "");
    UsableMeaning(env, machine, "");
    if Usable(env, user).Some? { UsableMeaning(env, user, Usable(env, user).value); }
    if Usable(env, machine).Some? { UsableMeaning(env, machine, Usable(env, machine).value); }
  }

  /** A read has one outcome. */
  lemma ReadUnique(env: Env, reg: Registry, view: View, key: string, name: string, a: MergedRead, b: MergedRead)
    requires IsRead(env, reg, view, key, name, a) && IsRead(env, reg, view, key, name, b)
    ensures a == b
  {
  }

  /** A key is in the first hive that has it or refuses. */
  ghost predicate IsState(reg: Registry, view: View, key: string, s: KeyState) {
    var user, machine := Location(Hkcu, view), Location(Hklm, view);
    if reg.read(user, key, "") == AccessDenied then s == Denied
    else if reg.keyExists(user, key) then s == Exists(Hkcu)
    else if reg.read(machine, key, "") == AccessDenied then s == Denied
    else s == if reg.keyExists(machine, key) then Exists(Hklm) else Absent
  }

  lemma StateMeaning(reg: Registry, view: View, key: string)
    ensures IsState(reg, view, key, MergedKeyState(reg, view, key))
  {
  }

  // ---------- keys ----------

  function ClsidPath(clsid: string): string {
    "Software\\Classes\\CLSID\\" + clsid
  }

  function ProgidPath(progid: string): string {
    "Software\\Classes\\" + progid
  }

  lemma KeyNames(clsid: string, progid: string)
    ensures ClsidKey(clsid) == ClsidPath(clsid) && ProgidKey(progid) == ProgidPath(progid)
    ensures ServerKey(clsid, Inproc) == ClsidPath(clsid) + "\\InprocServer32"
    ensures ServerKey(clsid, Local) == ClsidPath(clsid) + "\\LocalServer32"
  {
    assert "Software\\Classes\\CLSID" + "\\" == "Software\\Classes\\CLSID\\";
    assert "Software\\Classes" + "\\" == "Software\\Classes\\";
    UnderName(ClsidKey(clsid), "InprocServer32", "\\InprocServer32");
    UnderName(ClsidKey(clsid), "LocalServer32", "\\LocalServer32");
  }

  lemma UnderName(parent: string, child: string, tail: string)
    requires tail == "\\" + child
    ensures Under(parent, child) == parent + tail
  {
    assert parent + "\\" + child == parent + ("\\" + child);
  }

  // ---------- redirects ----------

  /** What a CLSID leads to, by its key and the value of its `TreatAs` key. */
  ghost predicate IsClsidStep(env: Env, reg: Registry, view: View, clsid: string, step: Step) {
    var key := ClsidPath(clsid);
    exists state, read ::
      && IsState(reg, view, key, state) && IsRead(env, reg, view, key + "\\TreatAs", "", read)
      && match step
         case Gone => state == Absent
         case Blocked => state == Denied || (state.Exists? && read == ReadDenied)
         case Malformed => state.Exists? && read.Invalid?
         case Redirect(next) => state.Exists? && read.Found? && IsTrimmed(read.text, next)
         case Terminal => state.Exists? && read == Nothing
  }

  /** `named` is the name in the value, if there is one. */
  predicate IsProgidOutcome(state: KeyState, read: MergedRead, named: string, progid: string, step: Step) {
    match step
    case Gone => state == Absent
    case Blocked => state == Denied || (state.Exists? && read == ReadDenied)
    case Malformed => state.Exists? && read.Invalid?
    case Redirect(next) => state.Exists? && read.Found? && next == named && !SameIgnoringCase(named, progid)
    case Terminal => state.Exists? && (read == Nothing || (read.Found? && SameIgnoringCase(named, progid)))
  }

  /** What a ProgID leads to, by its key and the value of its `CurVer` key; naming itself leads nowhere. */
  ghost predicate IsProgidStep(env: Env, reg: Registry, view: View, progid: string, step: Step) {
    var key := ProgidPath(progid);
    exists state, read, named ::
      && IsProgidOutcome(state, read, named, progid, step)
      && IsState(reg, view, key, state) && IsRead(env, reg, view, key + "\\CurVer", "", read)
      && (read.Found? ==> IsTrimmed(read.text, named))
  }

  lemma StepsMeaning(env: Env, reg: Registry, view: View, name: string)
    ensures IsClsidStep(env, reg, view, name, SourceOf(env, reg, view).clsidStep(name))
    ensures IsProgidStep(env, reg, view, name, SourceOf(env, reg, view).progidStep(name))
  {
    ClsidStepMeaning(env, reg, view, name);
    ProgidStepMeaning(env, reg, view, name);
  }

  lemma ClsidStepMeaning(env: Env, reg: Registry, view: View, clsid: string)
    ensures IsClsidStep(env, reg, view, clsid, ClsidStep(MergedOf(env, reg, view), clsid))
  {
    KeyNames(clsid, "");
    UnderName(ClsidKey(clsid), "TreatAs", "\\TreatAs");
    var state := MergedKeyState(reg, view, ClsidKey(clsid));
    var read := MergedReadString(env, reg, view, Under(ClsidKey(clsid), "TreatAs"), "");
    StateMeaning(reg, view, ClsidKey(clsid));
    ReadMeaning(env, reg, view, Under(ClsidKey(clsid), "TreatAs"), "");
    if read.Found? { TrimMeaning(read.text); }
  }

  lemma ProgidStepMeaning(env: Env, reg: Registry, view: View, progid: string)
    ensures IsProgidStep(env, reg, view, progid, ProgidStep(MergedOf(env, reg, view), progid))
  {
    KeyNames("", progid);
    UnderName(ProgidKey(progid), "CurVer", "\\CurVer");
    var state := MergedKeyState(reg, view, ProgidKey(progid));
    var read := MergedReadString(env, reg, view, Under(ProgidKey(progid), "CurVer"), "");
    StateMeaning(reg, view, ProgidKey(progid));
    ReadMeaning(env, reg, view, Under(ProgidKey(progid), "CurVer"), "");
    var named := if read.Found? then Trim(read.text) else [];
    if read.Found? { TrimMeaning(read.text); }
    assert IsProgidOutcome(state, read, named, progid, ProgidStep(MergedOf(env, reg, view), progid));
  }

  // ---------- servers ----------

  function ServerPathOf(clsid: string, kind: ServerKind): string {
    ClsidPath(clsid) + if kind == Inproc then "\\InprocServer32" else "\\LocalServer32"
  }

  /** The file of a server value: what it says without blanks and quotes, or the program of the command. */
  ghost predicate IsServerFile(env: Env, kind: ServerKind, text: string, file: string) {
    exists t :: IsTrimmed(text, t)
                && if kind == Inproc then IsStripped(t, c => c == '"', file) else IsServerExe(env, t, file)
  }

  lemma ServerFileMeaning(env: Env, kind: ServerKind, text: string)
    ensures IsServerFile(env, kind, text, ServerPath(env, kind, text))
  {
    TrimMeaning(text);
    TrimQuotesMeaning(Trim(text));
    LocalServerExeMeaning(env, text);
  }

  /** The threading model stands beside the server value, in the same hive. */
  ghost predicate IsThreading(env: Env, reg: Registry, loc: Location, key: string, model: Option<string>) {
    var value := reg.read(loc, key, "ThreadingModel");
    if model.Some? then HasText(env, value, model.value) else HasNoText(value)
  }

  lemma ThreadingMeaning(env: Env, reg: Registry, loc: Location, key: string)
    ensures IsThreading(env, reg, loc, key, ReadStringAt(env, reg, loc, key, "ThreadingModel"))
  {
    var value := reg.read(loc, key, "ThreadingModel");
    UsableMeaning(env, value, if Usable(env, value).Some? then Usable(env, value).value else "");
  }

  ghost predicate IsServer(env: Env, reg: Registry, view: View, clsid: string, kind: ServerKind, s: ServerRead) {
    var key := ServerPathOf(clsid, kind);
    match s
    case NoServer => IsRead(env, reg, view, key, "", Nothing)
    case ServerDenied => IsRead(env, reg, view, key, "", ReadDenied)
    case ServerBroken(hive) => IsRead(env, reg, view, key, "", Invalid(hive))
    case Server(hive, served) =>
      && IsRead(env, reg, view, key, "", Found(served.text, hive))
      && IsServerFile(env, kind, served.text, served.path)
      && IsThreading(env, reg, Location(hive, view), key, served.threadingModel)
  }

  lemma ServerMeaning(env: Env, reg: Registry, view: View, clsid: string, kind: ServerKind)
    ensures IsServer(env, reg, view, clsid, kind, SourceOf(env, reg, view).server(clsid, kind))
  {
    KeyNames(clsid, "");
    var key := ServerKey(clsid, kind);
    var read := MergedReadString(env, reg, view, key, "");
    ReadMeaning(env, reg, view, key, "");
    if read.Found? {
      ServerFileMeaning(env, kind, read.text);
      ThreadingMeaning(env, reg, Location(read.hive, view), key);
    }
  }

  /** The other reads of a lookup: the key of a CLSID, its `ProgID`, and the `CLSID` of a ProgID. */
  lemma OtherReadsMeaning(env: Env, reg: Registry, view: View, name: string)
    ensures var src := SourceOf(env, reg, view);
            && IsState(reg, view, ClsidPath(name), src.keyState(name))
            && IsRead(env, reg, view, ClsidPath(name) + "\\ProgID", "", src.progidOf(name))
            && IsRead(env, reg, view, ProgidPath(name) + "\\CLSID", "", src.clsidOf(name))
  {
    KeyNames(name, name);
    UnderName(ClsidKey(name), "ProgID", "\\ProgID");
    UnderName(ProgidKey(name), "CLSID", "\\CLSID");
    StateMeaning(reg, view, ClsidKey(name));
    ReadMeaning(env, reg, view, Under(ClsidKey(name), "ProgID"), "");
    ReadMeaning(env, reg, view, Under(ProgidKey(name), "CLSID"), "");
  }

  // ---------- results ----------

  /** Which of the two servers of a CLSID decides: the in-process one, unless there is none. */
  function Deciding(src: Source, clsid: string): ServerKind {
    if src.server(clsid, Inproc) == NoServer then Local else Inproc
  }

  /** The result for a CLSID that is not redirected further: what its deciding server says. */
  ghost predicate IsTerminalResult(src: Source, view: View, last: string, r: LookupResult) {
    var kind := Deciding(src, last);
    var read, progid := src.server(last, kind), src.progidOf(last);
    && r.view == view && r.clsid == Some(last) && r.progidChain == []
    && (read.Server? ==>
          && r.status == Registered && r.hive == Some(read.hive) && r.serverKind == Some(kind)
          && r.serverPath == Some(read.served.path) && r.threadingModel == read.served.threadingModel
          && (r.serverCommand.Some? <==> kind == Local && read.served.path != read.served.text)
          && (r.serverCommand.Some? ==> r.serverCommand.value == read.served.text)
          && (r.progidOfClsid.Some? <==> progid.Found?)
          && (progid.Found? ==> IsTrimmed(progid.text, r.progidOfClsid.value)))
    && (!read.Server? ==>
          && r.serverKind.None? && r.serverPath.None? && r.serverCommand.None? && r.threadingModel.None?
          && r.progidOfClsid.None?
          && r.status == (if read == ServerDenied then AccessIsDenied else BrokenRegistration)
          && r.hive == match read
                       case ServerDenied => None
                       case ServerBroken(hive) => Some(hive)
                       case NoServer => if src.keyState(last).Exists? then Some(src.keyState(last).hive) else None)
  }

  lemma InspectInTurn(src: Source, result: LookupResult, clsid: string)
    ensures var first, second := src.server(clsid, Inproc), src.server(clsid, Local);
            var kind, read := if first.NoServer? then Local else Inproc, if first.NoServer? then second else first;
            Inspect(src, result, clsid, KINDS) ==
              match read
              case ServerDenied => result.(status := AccessIsDenied)
              case Server(hive, served) => WithServer(src, result, clsid, kind, hive, served)
              case ServerBroken(hive) => result.(hive := Some(hive), status := BrokenRegistration)
              case NoServer => Inspect(src, result, clsid, [])
  {
    var rest: seq<ServerKind> := [Local];
    assert KINDS[0] == Inproc && KINDS[1..] == rest && rest[1..] == [];
    assert Inspect(src, result, clsid, KINDS) == match src.server(clsid, Inproc)
                                                 case ServerDenied => result.(status := AccessIsDenied)
                                                 case Server(hive, served) =>
                                                   WithServer(src, result, clsid, Inproc, hive, served)
                                                 case ServerBroken(hive) =>
                                                   result.(hive := Some(hive), status := BrokenRegistration)
                                                 case NoServer => Inspect(src, result, clsid, rest);
  }

  lemma InspectMeaning(src: Source, view: View, chain: seq<string>, last: string)
    ensures var found := NewResult(view, Registered).(treatasChain := chain, clsid := Some(last));
            var r := Inspect(src, found, last, KINDS);
            IsTerminalResult(src, view, last, r) && r.treatasChain == chain
  {
    var read := src.progidOf(last);
    if read.Found? { TrimMeaning(read.text); }
    InspectInTurn(src, NewResult(view, Registered).(treatasChain := chain, clsid := Some(last)), last);
  }

  /** A CLSID with a proper chain of redirects to a terminal one has the result of that one. */
  lemma TerminalResult(src: Source, view: View, clsid: string, chain: seq<string>)
    requires IsTrail(src.clsidStep, clsid, chain) && |chain| <= 64 && NoRepeats(clsid, chain)
    requires src.clsidStep(LastOf(clsid, chain)) == Terminal
    ensures var r := ResolveClsid(src, clsid, view);
            IsTerminalResult(src, view, LastOf(clsid, chain), r) && r.treatasChain == chain
  {
    ChaseIsExact(src.clsidStep, clsid, MAX_CHAIN_HOPS, chain);
    InspectMeaning(src, view, chain, LastOf(clsid, chain));
  }

  /** The result of a ProgID that names this CLSID. */
  ghost predicate IsNamedResult(src: Source, view: View, clsid: string, r: LookupResult) {
    var found := ResolveClsid(src, clsid, view);
    if found.status == NotRegistered then r.status == ProgidBroken && r.clsid == Some(clsid)
    else r == found.(progidChain := r.progidChain)
  }

  /** A terminal ProgID has the result of the CLSID it names, under its own chain; one that names no
      CLSID, or one that is not registered, is broken. */
  lemma NamedResult(src: Source, view: View, progid: string, chain: seq<string>)
    ensures var r, read := ResolveNamedClsid(src, progid, chain, view), src.clsidOf(progid);
            && r.progidChain == chain && r.view == view
            && (read.Found? ==> exists clsid :: IsTrimmed(read.text, clsid) && IsNamedResult(src, view, clsid, r))
            && (!read.Found? ==>
                  r.status == (if read == ReadDenied then AccessIsDenied else ProgidBroken)
                  && r.clsid.None? && r.serverPath.None?)
  {
    var read := src.clsidOf(progid);
    if read.Found? {
      TrimMeaning(read.text);
      assert IsNamedResult(src, view, Trim(read.text), ResolveNamedClsid(src, progid, chain, view));
      ViewIsKept(src, view, Trim(read.text));
    }
  }

  lemma {:induction false} InspectKeepsView(src: Source, result: LookupResult, clsid: string, kinds: seq<ServerKind>)
    ensures Inspect(src, result, clsid, kinds).view == result.view
  {
    if kinds != [] { InspectKeepsView(src, result, clsid, kinds[1..]); }
  }

  lemma ViewIsKept(src: Source, view: View, clsid: string)
    ensures ResolveClsid(src, clsid, view).view == view
  {
    var t := Chase(src.clsidStep, clsid, MAX_CHAIN_HOPS);
    InspectKeepsView(src, NewResult(view, Registered).(treatasChain := t.chain, clsid := Some(t.last)), t.last, KINDS);
  }

  // ---------- the reverse lookup ----------

  /** The reverse lookup asks one location at a time: for the names under the key of all CLSIDs, and for
      the server under one of them. */
  lemma IndexMeaning(env: Env, reg: Registry, loc: Location, clsid: string, kind: ServerKind)
    ensures IndexOf(env, reg).listing(loc) == reg.subkeysOf(loc, "Software\\Classes\\CLSID")
    ensures var served, key := IndexOf(env, reg).served(loc, clsid, kind), ServerPathOf(clsid, kind);
            && (served.None? <==> HasNoText(reg.read(loc, key, "")))
            && (served.Some? ==>
                  && HasText(env, reg.read(loc, key, ""), served.value.text)
                  && IsServerFile(env, kind, served.value.text, served.value.path)
                  && IsThreading(env, reg, loc, key, served.value.threadingModel))
  {
    KeyNames(clsid, "");
    var key := ServerKey(clsid, kind);
    var text := ReadStringAt(env, reg, loc, key, "");
    UsableMeaning(env, reg.read(loc, key, ""), if text.Some? then text.value else "");
    ThreadingMeaning(env, reg, loc, key);
    if text.Some? { ServerFileMeaning(env, kind, text.value); }
  }

  /** The characters are the same up to case, or both separators. */
  predicate SamePathChar(c: char, d: char) {
    LowerChar(c) == LowerChar(d) || (c in "\\/" && d in "\\/")
  }

  /** Paths are compared without blanks and quotes around them, up to case and the kind of separator. */
  lemma NormalizeMeaning(a: string, b: string)
    ensures NormalizePath(a) == NormalizePath(b) <==>
            var s, t := TrimQuotes(Trim(a)), TrimQuotes(Trim(b));
            |s| == |t| && forall i :: 0 <= i < |s| ==> SamePathChar(s[i], t[i])
  {
    NormalizeAt(a);
    NormalizeAt(b);
  }

  lemma NormalizeAt(a: string)
    ensures var s := TrimQuotes(Trim(a));
            && |NormalizePath(a)| == |s|
            && forall i :: 0 <= i < |s| ==> NormalizePath(a)[i] == if s[i] == '/' then '\\' else LowerChar(s[i])
  {
    var s := TrimQuotes(Trim(a));
    ReplaceMeaning(s, '/', '\\');
    LowerAt(Replace(s, '/', '\\'));
  }

  // ---------- the order of the matches ----------

  ghost predicate NamesSorted(names: seq<string>) {
    forall i, j :: 0 <= i < j < |names| ==> !LexLess(names[j], names[i])
  }

  lemma {:induction false} InsertNameSorted(names: seq<string>, x: string)
    requires NamesSorted(names)
    ensures NamesSorted(InsertName(names, x))
  {
    if names != [] {
      if LexLess(x, names[0]) {
        forall j | 0 <= j < |names| ensures !LexLess(names[j], x) {
          if LexLess(names[j], x) {
            LexTransitive(names[j], x, names[0]);
            LexIrreflexive(names[0]);
          }
        }
      } else {
        InsertNameSorted(names[1..], x);
        InsertNameMembers(names[1..], x);
        var rest := InsertName(names[1..], x);
        forall j | 0 <= j < |rest| ensures !LexLess(rest[j], names[0]) {
          assert rest[j] in multiset(rest);
          if rest[j] != x { assert rest[j] in names[1..]; }
        }
      }
    }
  }

  /** The names under a key are taken in order. */
  lemma {:induction false} SortNamesSorted(names: seq<string>)
    ensures NamesSorted(SortNames(names))
  {
    if names != [] {
      SortNamesSorted(names[1..]);
      InsertNameSorted(SortNames(names[1..]), names[0]);
    }
  }

  ghost predicate OfOneClsid(matches: seq<Registration>, loc: Location, clsid: string) {
    forall g :: g in matches ==> Location(g.hive, g.view) == loc && g.clsid == clsid
  }

  /** The matches of one location, by CLSID. */
  ghost predicate IsGroup(matches: seq<Registration>, loc: Location) {
    && (forall g :: g in matches ==> Location(g.hive, g.view) == loc)
    && forall i, j :: 0 <= i < j < |matches| ==> !LexLess(matches[j].clsid, matches[i].clsid)
  }

  lemma {:induction false} ConcatMapInOrder(
    matchesOf: string -> seq<Registration>, loc: Location, names: seq<string>)
    requires NamesSorted(names) && forall name :: OfOneClsid(matchesOf(name), loc, name)
    ensures IsGroup(ConcatMap(matchesOf, names), loc)
    ensures forall g :: g in ConcatMap(matchesOf, names) ==> g.clsid in names
  {
    if names != [] {
      var init, last := names[..|names| - 1], names[|names| - 1];
      ConcatMapInOrder(matchesOf, loc, init);
      assert names == init + [last];
      var front, back := ConcatMap(matchesOf, init), matchesOf(last);
      assert OfOneClsid(back, loc, last);
      LexIrreflexive(last);
      forall i, j | 0 <= i < j < |front + back| ensures !LexLess((front + back)[j].clsid, (front + back)[i].clsid) {
        if i < |front| <= j {
          assert front[i] in front && back[j - |front|] in back;
          var k :| 0 <= k < |init| && init[k] == front[i].clsid;
          assert names[k] == init[k] && names[|names| - 1] == last;
        } else if |front| <= i {
          assert back[i - |front|] in back && back[j - |front|] in back;
        }
      }
    }
  }

  lemma LookupInOrder(ix: Index, target: string, loc: Location)
    requires LookupIn(ix, target, loc).Ok?
    ensures IsGroup(LookupIn(ix, target, loc).value, loc)
  {
    if ix.listing(loc).Ok? {
      var matcher := Matcher(ix, target, loc);
      SortNamesSorted(ix.listing(loc).value);
      forall name ensures OfOneClsid(matcher(name), loc, name) {}
      ConcatMapInOrder(matcher, loc, SortNames(ix.listing(loc).value));
    }
  }

  function Flattened(groups: seq<seq<Registration>>): seq<Registration> {
    if groups == [] then [] else groups[0] + Flattened(groups[1..])
  }

  lemma {:induction false} FlattenedPush(groups: seq<seq<Registration>>, last: seq<Registration>)
    ensures Flattened(groups + [last]) == Flattened(groups) + last
  {
    if groups == [] {
      assert [last][1..] == [] && last + [] == last;
    } else {
      FlattenedPush(groups[1..], last);
      assert (groups + [last])[1..] == groups[1..] + [last];
    }
  }

  /** One group of matches for each location, in the order of the locations. */
  ghost predicate GroupedBy(groups: seq<seq<Registration>>, locs: seq<Location>, matches: seq<Registration>) {
    && |groups| == |locs| && Flattened(groups) == matches
    && forall k :: 0 <= k < |locs| ==> IsGroup(groups[k], locs[k])
  }

  lemma {:induction false} LookupAllInOrder(ix: Index, target: string, locs: seq<Location>)
    returns (groups: seq<seq<Registration>>)
    requires LookupAll(ix, target, locs).Ok?
    ensures GroupedBy(groups, locs, LookupAll(ix, target, locs).value)
  {
    groups := [];
    if locs != [] {
      var init, last := locs[..|locs| - 1], locs[|locs| - 1];
      var front := LookupAllInOrder(ix, target, init);
      var back := LookupIn(ix, target, last).value;
      LookupInOrder(ix, target, last);
      FlattenedPush(front, back);
      groups := front + [back];
    }
  }

  /** The user's and the machine's hive of each view. */
  function HivesOf(views: seq<View>): seq<Location> {
    if views == [] then [] else [Location(Hkcu, views[0]), Location(Hklm, views[0])] + HivesOf(views[1..])
  }

  lemma {:induction false} ScannedPush(views: seq<View>, v: View)
    ensures HivesOf(views + [v]) == HivesOf(views) + [Location(Hkcu, v), Location(Hklm, v)]
  {
    if views == [] {
      assert [v][1..] == [];
    } else {
      ScannedPush(views[1..], v);
      assert (views + [v])[1..] == views[1..] + [v];
    }
  }

  lemma {:induction false} ScannedInOrder(views: seq<View>)
    ensures Scanned(views) == HivesOf(views)
  {
    if views != [] {
      var init, v := views[..|views| - 1], views[|views| - 1];
      ScannedInOrder(init);
      ScannedPush(init, v);
      assert views == init + [v];
    }
  }

  /** The matches come view by view, in each the user's before the machine's, and these by CLSID. */
  lemma ReverseLookupInOrder(ix: Index, path: string, views: seq<View>)
    requires ReverseLookup(ix, path, views).Ok?
    ensures exists groups :: GroupedBy(groups, HivesOf(views), ReverseLookup(ix, path, views).value)
  {
    ScannedInOrder(views);
    var groups := LookupAllInOrder(ix, NormalizePath(path), Scanned(views));
  }

  /** Of two servers of one CLSID that are both the wanted file, the in-process one comes first. */
  lemma InprocComesFirst(ix: Index, target: string, loc: Location, clsid: string)
    requires var inproc, local := ix.served(loc, clsid, Inproc), ix.served(loc, clsid, Local);
             && inproc.Some? && NormalizePath(inproc.value.path) == target
             && local.Some? && NormalizePath(local.value.path) == target
    ensures var both := Matcher(ix, target, loc)(clsid);
            |both| == 2 && both[0].kind == Inproc && both[1].kind == Local
  {
  }

  /** Only a refusal (error 5) ends the lookup; any other listing error is an empty listing. */
  lemma OnlyRefusalsFail(ix: Index, target: string, loc: Location, code: nat)
    requires ix.listing(loc) == Err(code)
    ensures LookupIn(ix, target, loc) == if code == 5 then Err(loc) else Ok([])
  {
  }
}
