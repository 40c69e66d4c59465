/**
 What COM resolution guarantees: the user hive shadows the machine hive and nothing else
 matters, redirect chains are followed exactly, and a registration found by CLSID is found
 again by its path.
 */
module ResolverFacts {
  import opened Wrappers
  import opened Text
  import opened Registry
  import opened Chains
  import opened Resolver

  // ---------- hive shadowing ----------

  ghost predicate SameAt(a: Registry, b: Registry, loc: Location, key: string) {
    a.keyExists(loc, key) == b.keyExists(loc, key) && forall name :: a.read(loc, key, name) == b.read(loc, key, name)
  }

  /** The registries agree on the user hive of the view, and on the machine hive at every key
      that the user hive neither has nor denies. Nothing is said about the other view. */
  ghost predicate SameAsSeen(a: Registry, b: Registry, view: View) {
    && (forall key :: SameAt(a, b, Location(Hkcu, view), key))
    && (forall key ::
          !a.keyExists(Location(Hkcu, view), key) && !a.read(Location(Hkcu, view), key, "").AccessDenied? ==>
            SameAt(a, b, Location(Hklm, view), key))
  }

  lemma SameKeyState(a: Registry, b: Registry, view: View, key: string)
    requires SameAsSeen(a, b, view)
    ensures MergedKeyState(a, view, key) == MergedKeyState(b, view, key)
  {
    assert SameAt(a, b, Location(Hkcu, view), key);
    if KeyStateAt(a, view, key, Hkcu).None? { assert SameAt(a, b, Location(Hklm, view), key); }
  }

  lemma SameRead(env: Env, a: Registry, b: Registry, view: View, key: string)
    requires SameAsSeen(a, b, view)
    ensures var r := MergedReadString(env, a, view, key, "");
            && r == MergedReadString(env, b, view, key, "")
            && (r.Found? ==> SameAt(a, b, Location(r.hive, view), key))
  {
    assert SameAt(a, b, Location(Hkcu, view), key);
    if ReadAt(env, a, view, key, "", Hkcu).None? { assert SameAt(a, b, Location(Hklm, view), key); }
  }

  lemma SameThreading(env: Env, a: Registry, b: Registry, view: View, key: string)
    requires SameAsSeen(a, b, view)
    ensures ThreadingBeside(env, a, view, key) == ThreadingBeside(env, b, view, key)
  {
    SameRead(env, a, b, view, key);
  }

  ghost predicate SameMerged(m: Merged, m': Merged) {
    forall key ::
      m.state(key) == m'.state(key) && m.value(key) == m'.value(key) && m.threading(key) == m'.threading(key)
  }

  lemma SeenAlikeIsSameMerged(env: Env, a: Registry, b: Registry, view: View)
    requires SameAsSeen(a, b, view)
    ensures SameMerged(MergedOf(env, a, view), MergedOf(env, b, view))
  {
    forall key
      ensures MergedKeyState(a, view, key) == MergedKeyState(b, view, key)
      ensures MergedReadString(env, a, view, key, "") == MergedReadString(env, b, view, key, "")
      ensures ThreadingBeside(env, a, view, key) == ThreadingBeside(env, b, view, key)
    {
      SameKeyState(a, b, view, key);
      SameRead(env, a, b, view, key);
      SameThreading(env, a, b, view, key);
    }
  }

  /** Two sources that answer alike. */
  ghost predicate SameSource(a: Source, b: Source) {
    && (forall n :: a.clsidStep(n) == b.clsidStep(n))
    && (forall n :: a.progidStep(n) == b.progidStep(n))
    && (forall n, kind :: a.server(n, kind) == b.server(n, kind))
    && (forall n :: a.keyState(n) == b.keyState(n))
    && (forall n :: a.progidOf(n) == b.progidOf(n))
    && (forall n :: a.clsidOf(n) == b.clsidOf(n))
  }

  lemma SameMergedIsSameSource(env: Env, m: Merged, m': Merged)
    requires SameMerged(m, m')
    ensures SameSource(SourceFrom(env, m), SourceFrom(env, m'))
  {
    forall n
      ensures ClsidStep(m, n) == ClsidStep(m', n) && ProgidStep(m, n) == ProgidStep(m', n)
      ensures ClsidKeyState(m, n) == ClsidKeyState(m', n)
      ensures ProgidOfClsid(m, n) == ProgidOfClsid(m', n) && ClsidOfProgid(m, n) == ClsidOfProgid(m', n)
    {
      SameAnswers(m, m', n);
    }
    forall n, kind ensures ReadServer(env, m, n, kind) == ReadServer(env, m', n, kind) {}
  }

  lemma SameAnswers(m: Merged, m': Merged, n: string)
    requires SameMerged(m, m')
    ensures ClsidStep(m, n) == ClsidStep(m', n) && ProgidStep(m, n) == ProgidStep(m', n)
    ensures ClsidKeyState(m, n) == ClsidKeyState(m', n)
    ensures ProgidOfClsid(m, n) == ProgidOfClsid(m', n) && ClsidOfProgid(m, n) == ClsidOfProgid(m', n)
  {
  }

  lemma {:induction false} SameFollow(s: string -> Step, s': string -> Step,
                                      current: string, visited: set<string>, chain: seq<string>, room: nat)
    requires forall name :: s(name) == s'(name)
    ensures Follow(s, current, visited, chain, room) == Follow(s', current, visited, chain, room)
    decreases room
  {
    if s(current).Redirect? && Upper(s(current).next) !in visited && room > 0 {
      var next := s(current).next;
      SameFollow(s, s', next, visited + {Upper(next)}, chain + [next], room - 1);
    }
  }

  lemma {:induction false} SameInspect(
    s: Source, s': Source, result: LookupResult, clsid: string, kinds: seq<ServerKind>)
    requires SameSource(s, s')
    ensures Inspect(s, result, clsid, kinds) == Inspect(s', result, clsid, kinds)
  {
    if kinds != [] { SameInspect(s, s', result, clsid, kinds[1..]); }
  }

  lemma SameResolveClsid(s: Source, s': Source, view: View, clsid: string)
    requires SameSource(s, s')
    ensures ResolveClsid(s, clsid, view) == ResolveClsid(s', clsid, view)
  {
    SameFollow(s.clsidStep, s'.clsidStep, clsid, {Upper(clsid)}, [], MAX_CHAIN_HOPS);
    var t := Chase(s.clsidStep, clsid, MAX_CHAIN_HOPS);
    SameInspect(s, s', NewResult(view, Registered).(treatasChain := t.chain, clsid := Some(t.last)), t.last, KINDS);
  }

  lemma SameResolveProgid(s: Source, s': Source, view: View, progid: string)
    requires SameSource(s, s')
    ensures ResolveProgid(s, progid, view) == ResolveProgid(s', progid, view)
  {
    SameFollow(s.progidStep, s'.progidStep, progid, {Upper(progid)}, [], MAX_CHAIN_HOPS - 1);
    var last := Chase(s.progidStep, progid, MAX_CHAIN_HOPS - 1).last;
    var read := s.clsidOf(last);
    if read.Found? { SameResolveClsid(s, s', view, Trim(read.text)); }
  }

  lemma MergedAlikeResolve(env: Env, m: Merged, m': Merged, view: View, name: string)
    requires SameMerged(m, m')
    ensures ResolveClsid(SourceFrom(env, m), name, view) == ResolveClsid(SourceFrom(env, m'), name, view)
    ensures ResolveProgid(SourceFrom(env, m), name, view) == ResolveProgid(SourceFrom(env, m'), name, view)
  {
    SameMergedIsSameSource(env, m, m');
    SameResolveClsid(SourceFrom(env, m), SourceFrom(env, m'), view, name);
    SameResolveProgid(SourceFrom(env, m), SourceFrom(env, m'), view, name);
  }

  /** Resolution cannot tell such registries apart: machine-wide values under a key that the
      user has or denies, and the whole other view, do not matter. */
  lemma ShadowedHiveDoesNotMatter(env: Env, a: Registry, b: Registry, view: View, name: string)
    requires SameAsSeen(a, b, view)
    ensures ResolveClsid(SourceOf(env, a, view), name, view) == ResolveClsid(SourceOf(env, b, view), name, view)
    ensures ResolveProgid(SourceOf(env, a, view), name, view) == ResolveProgid(SourceOf(env, b, view), name, view)
  {
    SeenAlikeIsSameMerged(env, a, b, view);
    MergedAlikeResolve(env, MergedOf(env, a, view), MergedOf(env, b, view), view, name);
  }

  // ---------- redirect chains ----------

  lemma {:induction false} InspectKeeps(src: Source, result: LookupResult, clsid: string, kinds: seq<ServerKind>)
    requires result.status == Registered
    ensures var r := Inspect(src, result, clsid, kinds);
            && r.clsid == result.clsid && r.treatasChain == result.treatasChain
            && (r.status == Registered || r.status == BrokenRegistration || r.status == AccessIsDenied)
  {
    if kinds != [] { InspectKeeps(src, result, clsid, kinds[1..]); }
  }

  /** TreatAs chains, exactly. For any chain of redirects from a CLSID: with at most 64 of them,
      no repeats and a terminal end, that end is what is inspected; with a missing end the CLSID
      is unregistered if it was not redirected at all and broken otherwise; a longer or repeating
      chain is broken, whatever it leads to. */
  lemma TreatAsChains(src: Source, view: View, clsid: string, chain: seq<string>)
    requires IsTrail(src.clsidStep, clsid, chain)
    ensures var r := ResolveClsid(src, clsid, view);
            var last := LastOf(clsid, chain);
            var end := src.clsidStep(last);
            var proper := |chain| <= 64 && NoRepeats(clsid, chain);
            && (proper && end.Terminal? ==> r.clsid == Some(last) && r.treatasChain == chain
                                            && r.status != NotRegistered && r.status != TreatAsBroken)
            && (proper && end.Gone? ==> r.status == if chain == [] then NotRegistered else TreatAsBroken)
            && (proper && end.Malformed? ==> r.status == TreatAsBroken)
            && (proper && end.Blocked? ==> r.status == AccessIsDenied)
            && (!proper ==> r.status == TreatAsBroken && r.clsid.None?)
  {
    ChaseIsExact(src.clsidStep, clsid, MAX_CHAIN_HOPS, chain);
    var t := Chase(src.clsidStep, clsid, MAX_CHAIN_HOPS);
    InspectKeeps(src, NewResult(view, Registered).(treatasChain := t.chain, clsid := Some(t.last)), t.last, KINDS);
  }

  /** CurVer chains take at most 63 redirects, since the input itself is in the chain. */
  lemma CurVerChains(src: Source, view: View, progid: string, chain: seq<string>)
    requires IsTrail(src.progidStep, progid, chain)
    ensures var r := ResolveProgid(src, progid, view);
            var last := LastOf(progid, chain);
            var end := src.progidStep(last);
            var proper := |chain| <= 63 && NoRepeats(progid, chain);
            && (proper && end.Terminal? ==> r == ResolveNamedClsid(src, last, [progid] + chain, view))
            && (proper && (end.Gone? || end.Malformed?) ==>
                  r.status == ProgidBroken && r.progidChain == [progid] + chain)
            && (proper && end.Blocked? ==> r.status == AccessIsDenied && r.progidChain == [progid] + chain)
            && (!proper ==> r.status == ProgidBroken && r.clsid.None?)
  {
    ChaseIsExact(src.progidStep, progid, MAX_CHAIN_HOPS - 1, chain);
  }

  /** A CLSID that redirects to itself is broken. */
  lemma SelfTreatAsIsBroken(src: Source, view: View, clsid: string, next: string)
    requires SameIgnoringCase(next, clsid) && src.clsidStep(clsid) == Redirect(next)
    ensures ResolveClsid(src, clsid, view).status == TreatAsBroken
  {
    UpperAgreesWithLower(next, clsid);
    assert [next][..0] == [];
    assert IsTrail(src.clsidStep, clsid, [next]) && !NoRepeats(clsid, [next]);
    TreatAsChains(src, view, clsid, [next]);
  }

  /** A ProgID whose CurVer names itself is not redirected by it: it resolves through its own
      CLSID, with nothing but itself in the chain. */
  lemma SelfCurVerIsTerminal(env: Env, m: Merged, view: View, progid: string)
    requires m.state(ProgidKey(progid)).Exists?
    requires var read := m.value(Under(ProgidKey(progid), "CurVer"));
             read.Found? && SameIgnoringCase(Trim(read.text), progid)
    ensures ResolveProgid(SourceFrom(env, m), progid, view)
         == ResolveNamedClsid(SourceFrom(env, m), progid, [progid], view)
  {
    var src := SourceFrom(env, m);
    assert src.progidStep(progid) == ProgidStep(m, progid) == Terminal;
    CurVerChains(src, view, progid, []);
    assert [progid] + [] == [progid];
  }

  /** A missing CLSID behind a ProgID is a broken ProgID, never an unregistered one. */
  lemma ProgidIsNeverUnregistered(src: Source, view: View, progid: string)
    ensures ResolveProgid(src, progid, view).status != NotRegistered
  {
    var t := Chase(src.progidStep, progid, MAX_CHAIN_HOPS - 1);
    NamedIsNeverUnregistered(src, view, t.last, [progid] + t.chain);
  }

  lemma NamedIsNeverUnregistered(src: Source, view: View, progid: string, chain: seq<string>)
    ensures ResolveNamedClsid(src, progid, chain, view).status != NotRegistered
  {
  }

  // ---------- reverse lookup, declaratively ----------

  /** `g` is the server registered under a listed CLSID. */
  ghost predicate Registers(ix: Index, g: Registration) {
    var loc := Location(g.hive, g.view);
    var served := ix.served(loc, g.clsid, g.kind);
    && ix.listing(loc).Ok? && g.clsid in ix.listing(loc).value
    && served.Some? && g.path == served.value.path && g.threadingModel == served.value.threadingModel
  }

  lemma MatcherMembers(ix: Index, target: string, loc: Location, clsid: string, g: Registration)
    ensures g in Matcher(ix, target, loc)(clsid)
       <==> g.clsid == clsid && Location(g.hive, g.view) == loc && g in ServerMatch(ix, target, loc, clsid, g.kind)
  {
    match g.kind
    case Inproc =>
    case Local =>
  }

  lemma {:induction false} ConcatMapMembers<A, B>(f: A -> seq<B>, s: seq<A>, b: B)
    ensures b in ConcatMap(f, s) <==> exists a :: a in s && b in f(a)
  {
    if s != [] {
      var init, last := s[..|s| - 1], s[|s| - 1];
      ConcatMapMembers(f, init, b);
      assert s == init + [last];
    }
  }

  lemma LookupInMembers(ix: Index, target: string, loc: Location, g: Registration)
    requires LookupIn(ix, target, loc).Ok?
    ensures g in LookupIn(ix, target, loc).value
       <==> Location(g.hive, g.view) == loc && Registers(ix, g) && NormalizePath(g.path) == target
  {
    if ix.listing(loc).Ok? {
      var names := ix.listing(loc).value;
      var matcher := Matcher(ix, target, loc);
      ConcatMapMembers(matcher, SortNames(names), g);
      SortNamesSame(names, g.clsid);
      MatcherMembers(ix, target, loc, g.clsid, g);
      if a :| a in SortNames(names) && g in matcher(a) {
        MatcherMembers(ix, target, loc, a, g);
      }
    }
  }

  lemma {:induction false} LookupAllMembers(ix: Index, target: string, locs: seq<Location>, g: Registration)
    requires LookupAll(ix, target, locs).Ok?
    ensures g in LookupAll(ix, target, locs).value
       <==> Location(g.hive, g.view) in locs && Registers(ix, g) && NormalizePath(g.path) == target
  {
    if locs != [] {
      var init, last := locs[..|locs| - 1], locs[|locs| - 1];
      LookupAllMembers(ix, target, init, g);
      LookupInMembers(ix, target, last, g);
      assert locs == init + [last];
    }
  }

  lemma {:induction false} ScannedMembers(views: seq<View>, loc: Location)
    ensures loc in Scanned(views) <==> loc.view in views
  {
    if views != [] {
      var init, last := views[..|views| - 1], views[|views| - 1];
      ScannedMembers(init, loc);
      assert views == init + [last];
      match loc.hive
      case Hkcu =>
      case Hklm =>
    }
  }

  /** The reverse lookup, when it answers, lists exactly the registered servers of the given
      views whose path is the given one up to case, separators and quotes. */
  lemma ReverseLookupIsExact(ix: Index, path: string, views: seq<View>, g: Registration)
    requires ReverseLookup(ix, path, views).Ok?
    ensures g in ReverseLookup(ix, path, views).value
       <==> g.view in views && Registers(ix, g) && NormalizePath(g.path) == NormalizePath(path)
  {
    LookupAllMembers(ix, NormalizePath(path), Scanned(views), g);
    ScannedMembers(views, Location(g.hive, g.view));
  }

  /** It answers unless a scanned location refuses to list its CLSIDs. */
  lemma {:induction false} LookupAnswersExactlyWhen(ix: Index, target: string, locs: seq<Location>)
    ensures LookupAll(ix, target, locs).Ok?
       <==> forall loc :: loc in locs ==> ix.listing(loc) != Err(ERROR_ACCESS_DENIED)
  {
    if locs != [] {
      var init, last := locs[..|locs| - 1], locs[|locs| - 1];
      LookupAnswersExactlyWhen(ix, target, init);
      assert locs == init + [last];
    }
  }
}
