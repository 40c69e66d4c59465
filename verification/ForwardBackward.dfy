/**
 A registration that is found by CLSID is found again by the path of its server: forward
 resolution against the reverse lookup, over every state of the in-memory registry.
 */
module ForwardBackward {
  import opened Wrappers
  import opened Text
  import opened Registry
  import opened Chains
  import opened Resolver
  import opened ResolverFacts

  // ---------- what a registered result says ----------

  lemma {:induction false} InspectRegistered(src: Source, result: LookupResult, clsid: string, kinds: seq<ServerKind>)
    requires Inspect(src, result, clsid, kinds).status == Registered && result.status == Registered
    ensures var r := Inspect(src, result, clsid, kinds);
            && r.serverKind.Some? && r.hive.Some? && r.serverPath.Some?
            && r.clsid == result.clsid
            && var read := src.server(clsid, r.serverKind.value);
               read.Server? && read.hive == r.hive.value && read.served.path == r.serverPath.value
  {
    if kinds != [] && src.server(clsid, kinds[0]).NoServer? {
      InspectRegistered(src, result, clsid, kinds[1..]);
    }
  }

  /** A registered result of any trail that ends where it says. */
  lemma TrailRegistered(src: Source, view: View, t: Trail)
    requires ClsidResult(src, view, t).status == Registered && t.end == src.clsidStep(t.last)
    ensures var r := ClsidResult(src, view, t);
            && r.clsid.Some? && r.serverKind.Some? && r.hive.Some? && r.serverPath.Some?
            && src.clsidStep(r.clsid.value) == Terminal
            && var read := src.server(r.clsid.value, r.serverKind.value);
               read.Server? && read.hive == r.hive.value && read.served.path == r.serverPath.value
  {
    InspectRegistered(src, NewResult(view, Registered).(treatasChain := t.chain, clsid := Some(t.last)), t.last, KINDS);
  }

  lemma TrailEnds(step: string -> Step, start: string, limit: nat)
    ensures var t := Chase(step, start, limit); t.end == step(t.last)
  {
    ChaseStops(step, start, limit);
  }

  lemma RegisteredMeans(src: Source, clsid: string, view: View)
    requires ResolveClsid(src, clsid, view).status == Registered
    ensures var r := ResolveClsid(src, clsid, view);
            && r.clsid.Some? && r.serverKind.Some? && r.hive.Some? && r.serverPath.Some?
            && src.clsidStep(r.clsid.value) == Terminal
            && var read := src.server(r.clsid.value, r.serverKind.value);
               read.Server? && read.hive == r.hive.value && read.served.path == r.serverPath.value
  {
    TrailEnds(src.clsidStep, clsid, MAX_CHAIN_HOPS);
    TrailRegistered(src, view, Chase(src.clsidStep, clsid, MAX_CHAIN_HOPS));
  }

  // ---------- denial is inherited ----------

  lemma {:induction false} DenialInherited(m: Store, loc: Location, p: string, x: string)
    requires IsDeniedLower(m, loc, p)
    ensures IsDeniedLower(m, loc, p + "\\" + x)
    decreases |x|
  {
    RSplitMeaning(x);
    match RSplit(x)
    case None =>
      RSplitJoin(p, x);
    case Some((a, b)) =>
      assert p + "\\" + x == (p + "\\" + a) + "\\" + b;
      RSplitJoin(p + "\\" + a, b);
      DenialInherited(m, loc, p, a);
  }

  lemma LowerUnder(parent: string, child: string)
    ensures Lower(Under(parent, child)) == Under(Lower(parent), Lower(child))
  {
    LowerConcat(parent + "\\", child);
    LowerConcat(parent, "\\");
    assert Lower("\\") == "\\";
  }

  /** A key that can be read has parents that can be listed. */
  lemma ReadableParent(m: Store, loc: Location, parent: string, child: string, name: string)
    requires ReadValue(m, loc, Under(parent, child), name) != AccessDenied
    ensures !IsDeniedLower(m, loc, Lower(Under(parent, child)))
    ensures !IsDeniedLower(m, loc, Lower(parent))
  {
    LowerUnder(parent, child);
    if IsDeniedLower(m, loc, Lower(parent)) {
      DenialInherited(m, loc, Lower(parent), Lower(child));
    }
  }

  /** Denied values are stored values too: the store may hold an explicit denial. */
  lemma NothingIsUndenied(env: Env, m: Store, view: View, key: string, hive: Hive)
    requires MergedReadString(env, AsRegistry(m), view, key, "") == Nothing
    ensures ReadValue(m, Location(hive, view), key, "") != AccessDenied
  {
    match hive
    case Hkcu =>
    case Hklm =>
  }

  /** A CLSID whose TreatAs key is absent from both hives: neither hive refuses to list CLSIDs. */
  lemma BothHivesList(env: Env, m: Store, view: View, clsid: string, hive: Hive)
    requires MergedReadString(env, AsRegistry(m), view, Under(ClsidKey(clsid), "TreatAs"), "") == Nothing
    ensures EnumSubkeys(m, Location(hive, view), CLSID_ROOT)
         == Ok(SortNames(ListedUnder(m, Location(hive, view), Lower(CLSID_ROOT))))
  {
    var loc := Location(hive, view);
    NothingIsUndenied(env, m, view, Under(ClsidKey(clsid), "TreatAs"), hive);
    ReadableParent(m, loc, ClsidKey(clsid), "TreatAs", "");
    LowerUnder(CLSID_ROOT, clsid);
    if IsDeniedLower(m, loc, Lower(CLSID_ROOT)) {
      DenialInherited(m, loc, Lower(CLSID_ROOT), Lower(clsid));
    }
  }

  // ---------- a stored server is listed ----------

  lemma KindNameIsPlain(kind: ServerKind)
    ensures '\\' !in Lower(KindName(kind))
  {
    LowerKeepsBackslash(KindName(kind));
  }

  lemma ServerKeySplits(clsid: string, kind: ServerKind)
    requires '\\' !in clsid
    ensures RSplit(Lower(ServerKey(clsid, kind))) == Some((Lower(ClsidKey(clsid)), Lower(KindName(kind))))
    ensures RSplit(Lower(ClsidKey(clsid))) == Some((Lower(CLSID_ROOT), Lower(clsid)))
  {
    KindNameIsPlain(kind);
    LowerKeepsBackslash(clsid);
    LowerUnder(ClsidKey(clsid), KindName(kind));
    LowerUnder(CLSID_ROOT, clsid);
    RSplitJoin(Lower(ClsidKey(clsid)), Lower(KindName(kind)));
    RSplitJoin(Lower(CLSID_ROOT), Lower(clsid));
  }

  lemma GrandchildListed(m: Store, loc: Location, key: string, parent: string, root: string, child: string,
                         leaf: string)
    requires Listed(m, loc, key) && RSplit(key) == Some((parent, leaf)) && RSplit(parent) == Some((root, child))
    ensures exists e :: e in ListedUnder(m, loc, root) && Lower(e) == child
  {
    RSplitShrinks(key);
    assert Listed(m, loc, parent);
  }

  lemma ServerIsListed(m: Store, loc: Location, clsid: string, kind: ServerKind)
    requires Valid(m) && '\\' !in clsid
    requires (loc, Lower(ServerKey(clsid, kind)), Lower("")) in m.values
    ensures exists e :: e in ListedUnder(m, loc, Lower(CLSID_ROOT)) && Lower(e) == Lower(clsid)
  {
    ServerKeySplits(clsid, kind);
    StoredIsListed(m, loc, Lower(ServerKey(clsid, kind)), Lower(""));
    GrandchildListed(m, loc, Lower(ServerKey(clsid, kind)), Lower(ClsidKey(clsid)), Lower(CLSID_ROOT), Lower(clsid),
                     Lower(KindName(kind)));
  }

  lemma StoredIsListed(m: Store, loc: Location, key: string, name: string)
    requires Valid(m) && (loc, key, name) in m.values
    ensures Listed(m, loc, key)
  {
    var k := (loc, key, name);
    assert k in m.values;
  }

  lemma LowerServerKey(clsid: string, kind: ServerKind)
    ensures Lower(ServerKey(clsid, kind)) == Under(Under(Lower(CLSID_ROOT), Lower(clsid)), Lower(KindName(kind)))
  {
    LowerUnder(ClsidKey(clsid), KindName(kind));
    LowerUnder(CLSID_ROOT, clsid);
  }

  lemma ReadIgnoresCase(m: Store, loc: Location, a: string, b: string, name: string)
    requires Lower(a) == Lower(b)
    ensures ReadValue(m, loc, a, name) == ReadValue(m, loc, b, name)
  {
  }

  lemma SameKeyReadsSame(m: Store, loc: Location, a: string, b: string, kind: ServerKind, name: string)
    requires SameIgnoringCase(a, b)
    ensures ReadValue(m, loc, ServerKey(a, kind), name) == ReadValue(m, loc, ServerKey(b, kind), name)
  {
    LowerServerKey(a, kind);
    LowerServerKey(b, kind);
    ReadIgnoresCase(m, loc, ServerKey(a, kind), ServerKey(b, kind), name);
  }

  /** A server that was read from a hive is stored there. */
  lemma FoundIsStored(env: Env, m: Store, view: View, key: string, text: string, hive: Hive)
    requires MergedReadString(env, AsRegistry(m), view, key, "") == Found(text, hive)
    ensures Usable(env, ReadValue(m, Location(hive, view), key, "")) == Some(text)
    ensures (Location(hive, view), Lower(key), Lower("")) in m.values
  {
  }

  // ---------- the theorem ----------

  /** `g` is the registration a forward result stands for. */
  ghost predicate Describes(g: Registration, r: LookupResult)
    requires r.clsid.Some? && r.hive.Some? && r.serverKind.Some? && r.serverPath.Some?
  {
    && SameIgnoringCase(g.clsid, r.clsid.value) && g.hive == r.hive.value && g.view == r.view
    && g.kind == r.serverKind.value && g.path == r.serverPath.value
  }

  lemma ServedAgain(env: Env, m: Store, view: View, clsid: string, e: string, kind: ServerKind, text: string,
                    hive: Hive)
    requires MergedReadString(env, AsRegistry(m), view, ServerKey(clsid, kind), "") == Found(text, hive)
    requires SameIgnoringCase(e, clsid)
    ensures var served := ServedAt(env, AsRegistry(m), Location(hive, view), e, kind);
            served.Some? && served.value.path == ServerPath(env, kind, text)
  {
    FoundIsStored(env, m, view, ServerKey(clsid, kind), text, hive);
    SameKeyReadsSame(m, Location(hive, view), e, clsid, kind, "");
  }

  lemma ReverseAnswers(env: Env, m: Store, view: View, path: string)
    requires forall hive :: EnumSubkeys(m, Location(hive, view), CLSID_ROOT).Ok?
    ensures ReverseLookup(IndexOf(env, AsRegistry(m)), path, [view]).Ok?
  {
    var ix := IndexOf(env, AsRegistry(m));
    LookupAnswersExactlyWhen(ix, NormalizePath(path), Scanned([view]));
    forall loc | loc in Scanned([view]) ensures ix.listing(loc) != Err(ERROR_ACCESS_DENIED) {
      ScannedMembers([view], loc);
      assert EnumSubkeys(m, Location(loc.hive, view), CLSID_ROOT).Ok?;
    }
  }

  /** A registration found forwards is found backwards. Over every registry state that writes
      and denials can reach, if a CLSID resolves to a registered server, the reverse lookup of
      that server's path in that view answers; and it lists that very registration (the CLSID
      up to case, the hive, the kind and the path) exactly when the terminal CLSID contains no
      backslash. With one, the registration lies below another CLSID's key and is not
      enumerated. */
  lemma FoundForwardsIsFoundBackwards(env: Env, m: Store, clsid: string, view: View)
    requires Valid(m)
    ensures var r := ResolveClsid(SourceOf(env, AsRegistry(m), view), clsid, view);
            r.status == Registered ==>
              && r.clsid.Some? && r.hive.Some? && r.serverKind.Some? && r.serverPath.Some? && r.view == view
              && var back := ReverseLookup(IndexOf(env, AsRegistry(m)), r.serverPath.value, [view]);
                 && back.Ok?
                 && ((exists g :: g in back.value && Describes(g, r)) <==> '\\' !in r.clsid.value)
  {
    var merged := MergedOf(env, AsRegistry(m), view);
    var r := ResolveClsid(SourceFrom(env, merged), clsid, view);
    if r.status == Registered {
      RegisteredMeans(SourceFrom(env, merged), clsid, view);
      ResultKeepsView(SourceFrom(env, merged), clsid, view);
      StepAndServer(env, m, view, r.clsid.value, r.serverKind.value, r.hive.value, r.serverPath.value);
      BackwardFromParts(env, m, view, r);
    }
  }

  lemma {:induction false} InspectKeepsView(src: Source, result: LookupResult, clsid: string, kinds: seq<ServerKind>)
    ensures Inspect(src, result, clsid, kinds).view == result.view
  {
    if kinds != [] { InspectKeepsView(src, result, clsid, kinds[1..]); }
  }

  lemma ResultKeepsView(src: Source, clsid: string, view: View)
    ensures ResolveClsid(src, clsid, view).view == view
  {
    var t := Chase(src.clsidStep, clsid, MAX_CHAIN_HOPS);
    InspectKeepsView(src, NewResult(view, Registered).(treatasChain := t.chain, clsid := Some(t.last)), t.last, KINDS);
  }

  /** The two facts about keys that a registered result rests on. */
  ghost predicate RestsOn(env: Env, m: Store, view: View, c: string, kind: ServerKind, hive: Hive, path: string) {
    && MergedReadString(env, AsRegistry(m), view, Under(ClsidKey(c), "TreatAs"), "") == Nothing
    && var read := MergedReadString(env, AsRegistry(m), view, ServerKey(c, kind), "");
       read.Found? && read.hive == hive && path == ServerPath(env, kind, read.text)
  }

  lemma StepAndServer(env: Env, m: Store, view: View, c: string, kind: ServerKind, hive: Hive, path: string)
    requires ClsidStep(MergedOf(env, AsRegistry(m), view), c) == Terminal
    requires var read := ReadServer(env, MergedOf(env, AsRegistry(m), view), c, kind);
             read.Server? && read.hive == hive && read.served.path == path
    ensures RestsOn(env, m, view, c, kind, hive, path)
  {
  }

  lemma BackwardFromParts(env: Env, m: Store, view: View, r: LookupResult)
    requires Valid(m)
    requires r.clsid.Some? && r.hive.Some? && r.serverKind.Some? && r.serverPath.Some? && r.view == view
    requires RestsOn(env, m, view, r.clsid.value, r.serverKind.value, r.hive.value, r.serverPath.value)
    ensures var back := ReverseLookup(IndexOf(env, AsRegistry(m)), r.serverPath.value, [view]);
            && back.Ok?
            && ((exists g :: g in back.value && Describes(g, r)) <==> '\\' !in r.clsid.value)
  {
    var ix := IndexOf(env, AsRegistry(m));
    var c, kind, hive, path := r.clsid.value, r.serverKind.value, r.hive.value, r.serverPath.value;
    var loc := Location(hive, view);
    forall h ensures EnumSubkeys(m, Location(h, view), CLSID_ROOT).Ok? { BothHivesList(env, m, view, c, h); }
    ReverseAnswers(env, m, view, path);
    BothHivesList(env, m, view, c, hive);
    var back := ReverseLookup(ix, path, [view]).value;
    if '\\' !in c {
      var g := Witness(env, m, view, r);
      ReverseLookupIsExact(ix, path, [view], g);
    }
    if g :| g in back && Describes(g, r) {
      ReverseLookupIsExact(ix, path, [view], g);
      SortNamesSame(ListedUnder(m, loc, Lower(CLSID_ROOT)), g.clsid);
      LowerKeepsBackslash(g.clsid);
      LowerKeepsBackslash(c);
    }
  }

  lemma Witness(env: Env, m: Store, view: View, r: LookupResult) returns (g: Registration)
    requires Valid(m)
    requires r.clsid.Some? && r.hive.Some? && r.serverKind.Some? && r.serverPath.Some? && r.view == view
    requires RestsOn(env, m, view, r.clsid.value, r.serverKind.value, r.hive.value, r.serverPath.value)
    requires '\\' !in r.clsid.value
    ensures Describes(g, r) && Registers(IndexOf(env, AsRegistry(m)), g)
  {
    var c, kind, hive := r.clsid.value, r.serverKind.value, r.hive.value;
    var loc := Location(hive, view);
    var read := MergedReadString(env, AsRegistry(m), view, ServerKey(c, kind), "");
    FoundIsStored(env, m, view, ServerKey(c, kind), read.text, hive);
    ServerIsListed(m, loc, c, kind);
    var e :| e in ListedUnder(m, loc, Lower(CLSID_ROOT)) && Lower(e) == Lower(c);
    ServedAgain(env, m, view, c, e, kind, read.text, hive);
    var served := ServedAt(env, AsRegistry(m), loc, e, kind).value;
    g := Registration(e, hive, view, kind, served.path, served.threadingModel);
    BothHivesList(env, m, view, c, hive);
    SortNamesSame(ListedUnder(m, loc, Lower(CLSID_ROOT)), e);
  }
}
