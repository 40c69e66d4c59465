/**
 The mock file system's walk against the real one over the same files. The real search accepts
 a file whose headers parse (src/search.rs:187-196); the mock asks for its imports as well
 (src/com/fs.rs:164-172). A file with headers but without a readable import table is a bad
 image to the mock and the end of the real walk.
 */
module MockAgainstReal {
  import opened Wrappers
  import opened Text
  import opened Search
  import opened ImportWalk
  import opened WalkExact
  import opened WalkOrder
  import opened MockFiles

  // ---------- two worlds that differ in what they follow ----------

  /** `v` is `w`, except that it follows the tripping imports, to modules that do not read. */
  ghost predicate Follows(v: World, w: World, trips: string -> bool) {
    && v.(resolve := w.resolve) == w
    && (forall atRoot, dll :: !trips(dll) ==> Examine(v, atRoot, dll) == Examine(w, atRoot, dll))
    && (forall atRoot, dll :: trips(dll) ==>
          && Examine(w, atRoot, dll).Fail? && Examine(v, atRoot, dll).Follow?
          && v.keyOf(Examine(v, atRoot, dll).path) !in v.imports)
  }

  /** Some module that the walk over `w` reaches has a tripping import. */
  ghost predicate Meets(w: World, trips: string -> bool) {
    exists k, dll :: Reachable(w, k) && dll in ImportsOf(w, k) && trips(dll)
  }

  lemma {:induction false} ScanAlike(
    v: World, w: World, trips: string -> bool, node: Node, dlls: seq<string>, st: State)
    requires Follows(v, w, trips) && forall dll :: dll in dlls ==> !trips(dll)
    ensures Scan(v, false, node, dlls, st) == Scan(w, false, node, dlls, st)
  {
    if dlls != [] {
      assert Examine(v, node.depth == 0, dlls[0]) == Examine(w, node.depth == 0, dlls[0]);
      ScanAlike(v, w, trips, node, dlls[1..], ScanOne(w, false, node, dlls[0], st));
    }
  }

  lemma SeenIsReachable(w: World, st: State, i: nat)
    requires Explored(w, st) && i < |st.seen|
    ensures Reachable(w, w.keyOf(st.seen[i].path))
  {
    var p :| PathTo(w, p, w.keyOf(st.seen[i].path)) && |p| == st.seen[i].depth + 1;
  }

  lemma TurnAlike(v: World, w: World, trips: string -> bool, st: State)
    requires Follows(v, w, trips) && !Meets(w, trips)
    requires Sound(w, st) && Explored(w, st) && st.next < |st.seen| && w.keyOf(st.seen[st.next].path) in w.imports
    ensures Sound(v, st) && ScanNode(v, false, st) == ScanNode(w, false, st)
  {
    var node := st.seen[st.next];
    SeenIsReachable(w, st, st.next);
    ScanAlike(v, w, trips, node, w.imports[w.keyOf(node.path)], st.(next := st.next + 1));
  }

  lemma {:induction false} WalkAlike(v: World, w: World, trips: string -> bool, st: State)
    requires Follows(v, w, trips) && !Meets(w, trips) && Progress(w, st)
    ensures Sound(v, st) && Walk(v, false, st) == Walk(w, false, st)
    decreases w.imports.Keys - Keys(w, st.seen[..st.next])
  {
    if st.next < |st.seen| && w.keyOf(st.seen[st.next].path) in w.imports {
      TurnAlike(v, w, trips, st);
      ScanKeepsProgress(w, false, st);
      assert w.keyOf(st.seen[st.next].path) !in Keys(w, st.seen[..st.next]);
      WalkAlike(v, w, trips, ScanNode(w, false, st));
    }
  }

  lemma EdgeAlike(v: World, w: World, trips: string -> bool, a: Key, b: Key)
    requires Follows(v, w, trips) && Edge(w, a, b)
    ensures Edge(v, a, b)
  {
    var dll :| dll in ImportsOf(w, a) && Leads(w, a == w.keyOf(w.root), dll, b);
    LeadsByExamining(w, a == w.keyOf(w.root), dll, b);
    LeadsByExamining(v, a == v.keyOf(v.root), dll, b);
  }

  lemma ReachableAlike(v: World, w: World, trips: string -> bool, k: Key)
    requires Follows(v, w, trips) && Reachable(w, k)
    ensures Reachable(v, k)
  {
    var p :| PathTo(w, p, k);
    forall i | 0 < i < |p| ensures Edge(v, p[i - 1], p[i]) { EdgeAlike(v, w, trips, p[i - 1], p[i]); }
    assert PathTo(v, p, k);
  }

  lemma TrippingReaches(v: World, w: World, trips: string -> bool, k: Key, dll: string)
    requires Follows(v, w, trips) && Reachable(w, k) && dll in ImportsOf(w, k) && trips(dll)
    ensures exists b :: Reachable(v, b) && b !in v.imports
  {
    var atRoot := k == v.keyOf(v.root);
    var b := v.keyOf(Examine(v, atRoot, dll).path);
    ReachableAlike(v, w, trips, k);
    LeadsByExamining(v, atRoot, dll, b);
    assert Edge(v, k, b);
    var p :| PathTo(v, p, k);
    assert PathTo(v, p + [b], b);
  }

  /** The wider walk returns exactly when the narrower one does and meets no tripping import;
      then the two are one run. */
  lemma WiderWalkReturnsExactlyWhen(v: World, w: World, trips: string -> bool)
    requires Follows(v, w, trips)
    ensures Answer(Run(v, CollectOnly)).Ok? <==> Answer(Run(w, CollectOnly)).Ok? && !Meets(w, trips)
    ensures !Meets(w, trips) ==> Run(v, CollectOnly) == Run(w, CollectOnly)
  {
    if Meets(w, trips) {
      FullWalkReturnsExactlyWhen(v, CollectOnly);
      var k, dll :| Reachable(w, k) && dll in ImportsOf(w, k) && trips(dll);
      TrippingReaches(v, w, trips, k, dll);
    } else {
      RootPath(w);
      assert Progress(w, Init(w));
      WalkAlike(v, w, trips, Init(w));
    }
  }

  // ---------- the real rule ----------

  /** `classify_candidate`, in a search with the application directory alone. */
  function ClassifyIn(files: Files, appDir: Path, dll: string): Resolution {
    var candidate := InAppDir(appDir, dll);
    if candidate !in files then Resolution(Missing, None, [])
    else if Pe.ParseLayout(files[candidate]).Err? then Resolution(BadImage, Some(candidate), [])
    else Resolution(Found, Some(candidate), [])
  }

  function RealWorld(files: Files, root: Path, appDir: Path): World {
    WorldOf(files, root, appDir).(resolve := dll => ClassifyIn(files, appDir, dll))
  }

  /** Headers that parse, and an import table that does not. */
  predicate HalfParsed(data: seq<Pe.Byte>) {
    Pe.ParseLayout(data).Ok? && Pe.DirectImports(data).Err?
  }

  /** Importing the name finds a half-parsed file. */
  function Trips(files: Files, appDir: Path): string -> bool {
    dll => !IsApiSet(dll) && InAppDir(appDir, dll) in files && HalfParsed(files[InAppDir(appDir, dll)])
  }

  /** Some module that the mock's walk reaches imports a half-parsed file. */
  ghost predicate MeetsHalfParsed(files: Files, root: Path, appDir: Path) {
    Meets(WorldOf(files, root, appDir), Trips(files, appDir))
  }

  lemma ExamineBoth(files: Files, root: Path, appDir: Path, atRoot: bool, dll: string)
    ensures var w, v := WorldOf(files, root, appDir), RealWorld(files, root, appDir);
            && (!Trips(files, appDir)(dll) ==> Examine(v, atRoot, dll) == Examine(w, atRoot, dll))
            && (Trips(files, appDir)(dll) ==>
                  && Examine(w, atRoot, dll) == Fail(BadImage, [])
                  && Examine(v, atRoot, dll) == Follow(InAppDir(appDir, dll))
                  && InAppDir(appDir, dll) !in v.imports)
  {
  }

  lemma RealFollows(files: Files, root: Path, appDir: Path)
    ensures Follows(RealWorld(files, root, appDir), WorldOf(files, root, appDir), Trips(files, appDir))
  {
    forall atRoot, dll
      ensures var w, v := WorldOf(files, root, appDir), RealWorld(files, root, appDir);
              && (!Trips(files, appDir)(dll) ==> Examine(v, atRoot, dll) == Examine(w, atRoot, dll))
              && (Trips(files, appDir)(dll) ==>
                    && Examine(w, atRoot, dll) == Fail(BadImage, [])
                    && Examine(v, atRoot, dll) == Follow(InAppDir(appDir, dll))
                    && InAppDir(appDir, dll) !in v.imports)
    {
      ExamineBoth(files, root, appDir, atRoot, dll);
    }
  }

  /** What the mock answers, against the real walk over the same files: the real walk returns
      exactly when the mock does and no module it reaches imports a half-parsed file. Then both
      record the same multiset of (name, importer's file name, kind), so they agree on whether
      anything is missing. */
  lemma MockAgreesWithRealWalk(files: Files, path: Path, appDir: Path, r: Result<seq<DepFailure>, Path>)
    requires IsMockAnswer(files, path, appDir, r)
    ensures var walk := Answer(Run(RealWorld(files, Lower(path), Lower(appDir)), CollectOnly));
            && (walk.Ok? <==> r.Ok? && !MeetsHalfParsed(files, Lower(path), Lower(appDir)))
            && (walk.Ok? ==> multiset(DepSignatures(r.value)) == multiset(Views(walk.value.failures, SignatureOf)))
            && (walk.Ok? ==> (r.value == [] <==> walk.value.failures == []))
  {
    MockAgreesWithQueue(files, path, appDir, r);
    RealFollows(files, Lower(path), Lower(appDir));
    WiderWalkReturnsExactlyWhen(RealWorld(files, Lower(path), Lower(appDir)),
                                WorldOf(files, Lower(path), Lower(appDir)), Trips(files, Lower(appDir)));
  }

  // ---------- files on which they differ ----------

  /** An image cut off inside its first import descriptor is half-parsed. */
  lemma CutImageIsHalfParsed(image: seq<Pe.Byte>, names: seq<seq<Pe.Byte>>)
    requires PeBuilder.IsImportImage(image, names) && PeBuilder.Fits(names) && names != []
    ensures |image| > PeBuilder.SECTION_RAW_DATA_PTR + 19
    ensures HalfParsed(image[..PeBuilder.SECTION_RAW_DATA_PTR + 19])
  {
    var cut := image[..PeBuilder.SECTION_RAW_DATA_PTR + 19];
    var rva, size, section :=
      PeBuilder.SECTION_VIRTUAL_ADDRESS, PeBuilder.DescriptorBytes(names), PeBuilder.ImportSection(names);
    PeBuilder.HeadersLocal(image, cut, rva, size, 0, 0, [section]);
    PeBuilder.HeadersParse(cut, rva, size, 0, 0, [section]);
    assert Pe.RvaToOffset(rva, [section]) == Some(PeBuilder.SECTION_RAW_DATA_PTR);
  }

  /** A root with one import, in any world. */
  ghost predicate ImportsOnly(w: World, dll: string) {
    w.keyOf(w.root) in w.imports && w.imports[w.keyOf(w.root)] == [dll]
  }

  lemma FailingImportAlone(m: World, dll: string, finding: Finding)
    requires ImportsOnly(m, dll) && finding.Fail? && Examine(m, true, dll) == finding
    ensures LifoRun(m).LifoFinished? && LifoRun(m).st.failures == [FailureFor(m, Node(m.root, 0), dll, finding)]
  {
    LifoEnds(m);
    LifoMakesProgress(m, LifoInit(m));
    assert [dll][1..] == [];
    assert LifoScan(m, Node(m.root, 0), [dll], LifoPop(LifoInit(m)))
        == LifoScanOne(m, Node(m.root, 0), dll, LifoPop(LifoInit(m)));
  }

  lemma BrokenImportAlone(v: World, dll: string, path: Path)
    requires ImportsOnly(v, dll) && Examine(v, true, dll) == Follow(path) && v.keyOf(path) !in v.imports
    ensures Answer(Run(v, CollectOnly)) == Err(path)
  {
    var root, next := Node(v.root, 0), Node(path, 1);
    assert [dll][1..] == [];
    assert Scan(v, false, root, [dll], Init(v).(next := 1)) == ScanOne(v, false, root, dll, Init(v).(next := 1));
    assert ScanNode(v, false, Init(v)).seen == [root, next];
    assert Walk(v, false, ScanNode(v, false, Init(v))) == Aborted(next, ScanNode(v, false, Init(v)));
  }

  ghost predicate TripsAtRoot(files: Files, root: Path, appDir: Path, dll: string) {
    root in files && Pe.DirectImports(files[root]) == Ok([dll]) && Trips(files, appDir)(dll)
  }

  lemma WorldsImportOnly(files: Files, root: Path, appDir: Path, dll: string)
    requires root in files && Pe.DirectImports(files[root]) == Ok([dll])
    ensures ImportsOnly(WorldOf(files, root, appDir), dll)
  {
  }

  lemma MockRecordsTrip(files: Files, root: Path, appDir: Path, dll: string)
    requires TripsAtRoot(files, root, appDir, dll)
    ensures var e := LifoRun(MockWorld(files, root, appDir));
            e.LifoFinished? && e.st.failures == [Failure(dll, LastPart(root), 1, BadImage, [])]
  {
    WorldsImportOnly(files, root, appDir, dll);
    ExamineBoth(files, root, appDir, true, dll);
    FailingImportAlone(MockWorld(files, root, appDir), dll, Fail(BadImage, []));
  }

  lemma RealWalkStopsAtTrip(files: Files, root: Path, appDir: Path, dll: string)
    requires TripsAtRoot(files, root, appDir, dll)
    ensures Answer(Run(RealWorld(files, root, appDir), CollectOnly)) == Err(InAppDir(appDir, dll))
  {
    WorldsImportOnly(files, root, appDir, dll);
    ExamineBoth(files, root, appDir, true, dll);
    BrokenImportAlone(RealWorld(files, root, appDir), dll, InAppDir(appDir, dll));
  }

  /** A root whose one import is half-parsed: the mock returns with a bad image, and the real
      walk fails at that file. */
  lemma MockReturnsAlone(files: Files, path: Path, appDir: Path, dll: string, r: Result<seq<DepFailure>, Path>)
    requires TripsAtRoot(files, Lower(path), Lower(appDir), dll) && IsMockAnswer(files, path, appDir, r)
    ensures r == Ok([DepFailure(dll, LastPart(Lower(path)), 1, BadImage)])
    ensures Answer(Run(RealWorld(files, Lower(path), Lower(appDir)), CollectOnly)) == Err(InAppDir(Lower(appDir), dll))
  {
    MockRecordsTrip(files, Lower(path), Lower(appDir), dll);
    RealWalkStopsAtTrip(files, Lower(path), Lower(appDir), dll);
    SingleAnswer(r.value, Failure(dll, LastPart(Lower(path)), 1, BadImage, []));
  }

  lemma SingleAnswer(ds: seq<DepFailure>, f: Failure)
    requires SameList(ds, [f])
    ensures ds == [DepFailure(f.dll, f.via, f.depth, f.kind)]
  {
    assert SameFailure(ds[0], [f][0]);
  }

  lemma OrderedSingleton(list: seq<string>, x: string)
    requires PeFacts.OrderedSetOf(list, {x})
    ensures list == [x]
  {
    assert Pe.StrictlyIncreasing([x]);
    Pe.OrderedListUnique(list, [x]);
  }

  lemma LoweredSingleton(name: seq<Pe.Byte>)
    ensures PeFacts.Lowered([name]) == {Lower(Pe.AsText(name))}
  {
    assert [name][1..] == [];
  }

  /** The files, as the tests of src/pe.rs make them: an image that imports `name`, and one cut
      off inside its import table. */
  method CutImport(path: Path, appDir: Path, name: seq<Pe.Byte>) returns (files: Files)
    requires PeBuilder.Fits([name]) && PeBuilder.AreTexts([name]) && 0 !in name
    requires var dll := Lower(Pe.AsText(name));
             !IsApiSet(dll) && InAppDir(Lower(appDir), dll) != Lower(path)
    ensures TripsAtRoot(files, Lower(path), Lower(appDir), Lower(Pe.AsText(name)))
  {
    var image := PeBuilder.BuildTestPe([name]);
    var dll := Lower(Pe.AsText(name));
    var bytes := image[..];
    files := map[Lower(path) := bytes,
                 InAppDir(Lower(appDir), dll) := bytes[..PeBuilder.SECTION_RAW_DATA_PTR + 19]];
    PeBuilder.ImageHoldsNames(bytes, [name]);
    PeBuilder.PlainImportRoundTrip(bytes, [name]);
    LoweredSingleton(name);
    OrderedSingleton(Pe.DirectImports(bytes).value, dll);
    CutImageIsHalfParsed(bytes, [name]);
  }
}
