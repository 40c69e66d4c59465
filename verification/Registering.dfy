/**
 Writing a registration and looking it up: `set` of the in-memory registry against both
 lookups of the resolver.
 */
module Registering {
  import opened Wrappers
  import opened Text
  import opened Registry
  import opened Chains
  import opened Resolver
  import opened ResolverReads
  import opened ForwardBackward

  // ---------- what a write leaves alone ----------

  /** Listing the ancestors of a key touches no other location and no key longer than its parent. */
  lemma {:induction false} AncestorsAreShorter(m: Store, loc: Location, key: string, at: Location, k: string)
    requires at != loc || RSplit(key).None? || |k| > |RSplit(key).value.0|
    ensures var r := ListAncestors(m, loc, key);
            && ((at, k) in r.subkeys <==> (at, k) in m.subkeys)
            && r.values == m.values && r.denied == m.denied
    decreases |key|
  {
    if RSplit(key).Some? {
      var (parent, child) := RSplit(key).value;
      RSplitShrinks(key);
      LowerAt(parent);
      if RSplit(parent).Some? { RSplitShrinks(parent); }
      AncestorsAreShorter(AddChild(m, loc, parent, child), loc, parent, at, k);
    }
  }

  /** After a write, a longer key than the written one's parent reads and exists as before,
      unless it is the written key itself. */
  lemma WriteIsLocal(m: Store, loc: Location, key: string, value: RegValue, at: Location, other: string)
    requires RSplit(key).Some? && |Lower(other)| > |RSplit(key).value.0|
    requires at != loc || Lower(other) != Lower(key)
    ensures var r := SetValue(m, loc, key, "", value);
            && (forall name :: ReadValue(r, at, other, name) == ReadValue(m, at, other, name))
            && KeyExists(r, at, other) == KeyExists(m, at, other)
  {
    var m1 := m.(values := m.values[(loc, Lower(key), Lower("")) := value]);
    var r := SetValue(m, loc, key, "", value);
    AncestorsAreShorter(m1, loc, key, at, Lower(other));
    SameDenied(m, r, at, Lower(other));
    forall k
      ensures k in r.values && k.0 == at && k.1 == Lower(other) <==> k in m.values && k.0 == at && k.1 == Lower(other)
    {
    }
  }

  lemma {:induction false} SameDenied(m: Store, r: Store, loc: Location, key: string)
    requires m.denied == r.denied
    ensures IsDeniedLower(m, loc, key) == IsDeniedLower(r, loc, key)
    decreases |key|
  {
    if RSplit(key).Some? {
      RSplitShrinks(key);
      SameDenied(m, r, loc, RSplit(key).value.0);
    }
  }

  // ---------- a per-user in-process server ----------

  /** The write of a server value for `clsid` in the user's hive. */
  function Registering(m: Store, view: View, clsid: string, value: RegValue): Store {
    SetValue(m, Location(Hkcu, view), ServerKey(clsid, Inproc), "", value)
  }

  /** The value is one that a registry stores. */
  predicate IsStored(value: RegValue) {
    value.Str? || value.ExpandStr? || value.Dword? || value.Binary?
  }

  lemma ServerKeyShape(clsid: string)
    ensures RSplit(ServerKey(clsid, Inproc)) == Some((ClsidKey(clsid), "InprocServer32"))
    ensures |Lower(Under(ClsidKey(clsid), "TreatAs"))| == |ClsidKey(clsid)| + 8
    ensures |Lower(ServerKey(clsid, Inproc))| == |ClsidKey(clsid)| + 15
  {
    var name := "InprocServer32";
    assert '\\' !in name;
    RSplitJoin(ClsidKey(clsid), name);
    LowerAt(Under(ClsidKey(clsid), "TreatAs"));
    LowerAt(ServerKey(clsid, Inproc));
  }

  /** The conditions under which the write is seen: the keys are not denied, and nothing
      redirects the CLSID. */
  predicate IsOpen(env: Env, m: Store, view: View, clsid: string) {
    && ReadValue(m, Location(Hkcu, view), ServerKey(clsid, Inproc), "") != AccessDenied
    && ReadValue(m, Location(Hkcu, view), ClsidKey(clsid), "") != AccessDenied
    && MergedReadString(env, AsRegistry(m), view, Under(ClsidKey(clsid), "TreatAs"), "") == Nothing
  }

  lemma WrittenIsRead(env: Env, m: Store, view: View, clsid: string, value: RegValue)
    requires ReadValue(m, Location(Hkcu, view), ServerKey(clsid, Inproc), "") != AccessDenied
    ensures var m' := Registering(m, view, clsid, value);
            var read := MergedReadString(env, AsRegistry(m'), view, ServerKey(clsid, Inproc), "");
            && (forall path :: HasText(env, value, path) ==> read == Found(path, Hkcu))
            && (HasNoText(value) && IsStored(value) ==> read == Invalid(Hkcu))
  {
    var loc, key := Location(Hkcu, view), ServerKey(clsid, Inproc);
    var m1 := m.(values := m.values[(loc, Lower(key), Lower("")) := value]);
    var m' := Registering(m, view, clsid, value);
    AncestorsAreShorter(m1, loc, key, Location(Hklm, view), "");
    SameDenied(m, m', loc, Lower(key));
    assert ReadValue(m', loc, key, "") == value;
    forall path { UsableMeaning(env, value, path); }
  }

  lemma ParentExists(m: Store, view: View, clsid: string, value: RegValue)
    requires ReadValue(m, Location(Hkcu, view), ServerKey(clsid, Inproc), "") != AccessDenied
    requires ReadValue(m, Location(Hkcu, view), ClsidKey(clsid), "") != AccessDenied
    ensures MergedKeyState(AsRegistry(Registering(m, view, clsid, value)), view, ClsidKey(clsid)) == Exists(Hkcu)
  {
    var loc, key := Location(Hkcu, view), ServerKey(clsid, Inproc);
    var m1 := m.(values := m.values[(loc, Lower(key), Lower("")) := value]);
    var m' := Registering(m, view, clsid, value);
    ServerKeyShape(clsid);
    AncestorsAreShorter(m1, loc, key, Location(Hklm, view), "");
    ReadableParent(m, loc, ClsidKey(clsid), "InprocServer32", "");
    SameDenied(m, m', loc, Lower(ClsidKey(clsid)));
    ParentIsListed(m1, loc, key);
    LowerAt(ClsidKey(clsid));
    assert ReadValue(m', loc, ClsidKey(clsid), "") == ReadValue(m, loc, ClsidKey(clsid), "");
  }

  lemma ParentIsListed(m: Store, loc: Location, key: string)
    requires RSplit(key).Some?
    ensures (loc, Lower(RSplit(key).value.0)) in ListAncestors(m, loc, key).subkeys
  {
    var (parent, child) := RSplit(key).value;
    RSplitShrinks(key);
    LowerAt(parent);
    var m' := AddChild(m, loc, parent, child);
    if RSplit(parent).Some? { RSplitShrinks(parent); }
    AncestorsAreShorter(m', loc, parent, loc, Lower(parent));
  }

  lemma StillNoRedirect(env: Env, m: Store, view: View, clsid: string, value: RegValue)
    requires MergedReadString(env, AsRegistry(m), view, Under(ClsidKey(clsid), "TreatAs"), "") == Nothing
    ensures var m' := Registering(m, view, clsid, value);
            MergedReadString(env, AsRegistry(m'), view, Under(ClsidKey(clsid), "TreatAs"), "") == Nothing
  {
    var key := Under(ClsidKey(clsid), "TreatAs");
    ServerKeyShape(clsid);
    WriteIsLocal(m, Location(Hkcu, view), ServerKey(clsid, Inproc), value, Location(Hkcu, view), key);
    WriteIsLocal(m, Location(Hkcu, view), ServerKey(clsid, Inproc), value, Location(Hklm, view), key);
  }

  // ---------- the theorem ----------

  lemma ServedIsRegistered(src: Source, clsid: string, view: View, served: Served)
    requires src.clsidStep(clsid) == Terminal && src.server(clsid, Inproc) == Server(Hkcu, served)
    ensures var r := ResolveClsid(src, clsid, view);
            && r.status == Registered && r.clsid == Some(clsid) && r.treatasChain == []
            && r.hive == Some(Hkcu) && r.serverKind == Some(Inproc) && r.serverPath == Some(served.path)
  {
    assert KINDS[0] == Inproc;
  }

  lemma NothingRedirects(env: Env, m: Store, view: View, clsid: string, value: RegValue)
    requires IsOpen(env, m, view, clsid)
    ensures ClsidStep(MergedOf(env, AsRegistry(Registering(m, view, clsid, value)), view), clsid) == Terminal
  {
    ParentExists(m, view, clsid, value);
    StillNoRedirect(env, m, view, clsid, value);
  }

  /** What is registered is found: whatever the registry held, once an undenied user key names a
      server for a CLSID that nothing redirects, by a string or an expandable string, the CLSID
      resolves to that server, ahead of any machine-wide one. */
  lemma RegisteredIsFound(env: Env, m: Store, view: View, clsid: string, value: RegValue, path: string)
    requires HasText(env, value, path) && IsOpen(env, m, view, clsid)
    ensures var r := ResolveClsid(SourceOf(env, AsRegistry(Registering(m, view, clsid, value)), view), clsid, view);
            && r.status == Registered && r.clsid == Some(clsid) && r.treatasChain == []
            && r.hive == Some(Hkcu) && r.serverKind == Some(Inproc) && r.serverPath == Some(TrimQuotes(Trim(path)))
  {
    var merged := MergedOf(env, AsRegistry(Registering(m, view, clsid, value)), view);
    WrittenIsRead(env, m, view, clsid, value);
    NothingRedirects(env, m, view, clsid, value);
    var served := Served(TrimQuotes(Trim(path)), path, merged.threading(ServerKey(clsid, Inproc)));
    assert ReadServer(env, merged, clsid, Inproc) == Server(Hkcu, served);
    ServedIsRegistered(SourceFrom(env, merged), clsid, view, served);
  }

  lemma InvalidIsBroken(src: Source, clsid: string, view: View)
    requires src.clsidStep(clsid) == Terminal && src.server(clsid, Inproc) == ServerBroken(Hkcu)
    ensures var r := ResolveClsid(src, clsid, view);
            r.status == BrokenRegistration && r.hive == Some(Hkcu) && r.serverPath.None?
  {
    assert KINDS[0] == Inproc;
  }

  /** A stored value that holds no text (a blank one, a number, binary data) breaks the registration, even
      over a good machine-wide one. */
  lemma UnusableIsBroken(env: Env, m: Store, view: View, clsid: string, value: RegValue)
    requires HasNoText(value) && IsStored(value) && IsOpen(env, m, view, clsid)
    ensures var r := ResolveClsid(SourceOf(env, AsRegistry(Registering(m, view, clsid, value)), view), clsid, view);
            r.status == BrokenRegistration && r.hive == Some(Hkcu) && r.serverPath.None?
  {
    var merged := MergedOf(env, AsRegistry(Registering(m, view, clsid, value)), view);
    WrittenIsRead(env, m, view, clsid, value);
    NothingRedirects(env, m, view, clsid, value);
    assert ReadServer(env, merged, clsid, Inproc) == ServerBroken(Hkcu);
    InvalidIsBroken(SourceFrom(env, merged), clsid, view);
  }

  /** The registration of a user's in-process server is among those listed. */
  ghost predicate Lists(back: seq<Registration>, view: View, clsid: string, path: string) {
    exists g :: g in back && SameIgnoringCase(g.clsid, clsid) && g.hive == Hkcu && g.view == view
                && g.kind == Inproc && g.path == path
  }

  /** And it is found again by its path, exactly when the CLSID holds no backslash. */
  lemma RegisteredIsFoundByPath(env: Env, m: Store, view: View, clsid: string, value: RegValue, path: string)
    requires Valid(m) && HasText(env, value, path) && IsOpen(env, m, view, clsid)
    ensures var back := ReverseLookup(IndexOf(env, AsRegistry(Registering(m, view, clsid, value))),
                                      TrimQuotes(Trim(path)), [view]);
            && back.Ok?
            && (Lists(back.value, view, clsid, TrimQuotes(Trim(path))) <==> '\\' !in clsid)
  {
    SetKeepsValid(m, Location(Hkcu, view), ServerKey(clsid, Inproc), "", value);
    RegisteredIsFound(env, m, view, clsid, value, path);
    var m' := Registering(m, view, clsid, value);
    FoundForwardsIsFoundBackwards(env, m', clsid, view);
    DescribesIsListed(env, m', view, clsid, TrimQuotes(Trim(path)),
                      ResolveClsid(SourceOf(env, AsRegistry(m'), view), clsid, view));
  }

  lemma DescribesIsListed(env: Env, m: Store, view: View, clsid: string, path: string, r: LookupResult)
    requires r.clsid == Some(clsid) && r.hive == Some(Hkcu) && r.serverKind == Some(Inproc)
    requires r.serverPath == Some(path) && r.view == view
    ensures forall back: seq<Registration> ::
              Lists(back, view, clsid, path) <==> exists g :: g in back && Describes(g, r)
  {
    forall back: seq<Registration>
      ensures Lists(back, view, clsid, path) <==> exists g :: g in back && Describes(g, r)
    {
      if Lists(back, view, clsid, path) {
        var g :| g in back && SameIgnoringCase(g.clsid, clsid) && g.hive == Hkcu && g.view == view
                 && g.kind == Inproc && g.path == path;
        assert Describes(g, r);
      }
    }
  }

  // ---------- where the two lookups part ----------

  lemma {:induction false} NothingIsDenied(loc: Location, key: string)
    ensures !IsDeniedLower(NOTHING, loc, key)
    decreases |key|
  {
    if RSplit(key).Some? {
      RSplitShrinks(key);
      NothingIsDenied(loc, RSplit(key).value.0);
    }
  }

  lemma EmptyIsOpen(env: Env, view: View, clsid: string)
    ensures IsOpen(env, NOTHING, view, clsid)
  {
    var key := Under(ClsidKey(clsid), "TreatAs");
    NothingIsDenied(Location(Hkcu, view), Lower(ServerKey(clsid, Inproc)));
    NothingIsDenied(Location(Hkcu, view), Lower(ClsidKey(clsid)));
    NothingIsDenied(Location(Hkcu, view), Lower(key));
    NothingIsDenied(Location(Hklm, view), Lower(key));
  }

  /** One write into an empty registry, for any CLSID with a backslash, is found forwards and
      not backwards. */
  lemma FoundOnlyForwards(env: Env, view: View, clsid: string, value: RegValue, path: string)
    requires '\\' in clsid && HasText(env, value, path)
    ensures var m, file := Registering(NOTHING, view, clsid, value), TrimQuotes(Trim(path));
            && ResolveClsid(SourceOf(env, AsRegistry(m), view), clsid, view).status == Registered
            && ReverseLookup(IndexOf(env, AsRegistry(m)), file, [view]).Ok?
            && !Lists(ReverseLookup(IndexOf(env, AsRegistry(m)), file, [view]).value, view, clsid, file)
  {
    EmptyIsOpen(env, view, clsid);
    RegisteredIsFound(env, NOTHING, view, clsid, value, path);
    RegisteredIsFoundByPath(env, NOTHING, view, clsid, value, path);
  }
}
