/**
 `MockFileSystem` of src/com/fs.rs: files held as bytes under lowercased paths, images made
 by the synthetic writer, and the dependency walk the COM resolver's tests run instead of
 the real one.
 */
module MockFiles {
  import opened Wrappers
  import opened Text
  import opened Search
  import opened ImportWalk
  import opened WalkExact
  import opened WalkOrder
  import Pe
  import PeFacts
  import PeBuilder

  // ---------- names within paths ----------

  /** `rsplit('\\').next()` */
  function LastPart(p: string): string {
    if p == [] || p[|p| - 1] == '\\' then []
    else LastPart(p[..|p| - 1]) + [p[|p| - 1]]
  }

  /** Behind a separator, only what follows it matters. */
  lemma {:induction false} SegmentStartBehind(p: string, n: nat, b: string, i: nat)
    requires 0 < n && n + i <= |p| && i <= |b| && IsSeparator(p[n - 1])
    requires forall k :: 0 <= k < i ==> p[n + k] == b[k]
    ensures SegmentStart(p, n + i) == n + SegmentStart(b, i)
  {
    if i > 0 {
      assert p[n + (i - 1)] == b[i - 1];
      if !IsSeparator(b[i - 1]) { SegmentStartBehind(p, n, b, i - 1); }
    }
  }

  lemma FileNameBehind(p: string, n: nat, b: string)
    requires 0 < n <= |p| && p[n..] == b && IsSeparator(p[n - 1])
    ensures FileName(p) == FileName(b)
  {
    SegmentStartBehind(p, n, b, |b|);
    assert p[n + SegmentStart(b, |b|)..] == p[n..][SegmentStart(b, |b|)..];
  }

  lemma FileNameOfJoin(a: string, b: string)
    ensures FileName(a + "\\" + b) == FileName(b)
  {
    FileNameBehind(a + "\\" + b, |a| + 1, b);
  }

  lemma {:induction false} FileNameOfLastPart(p: string)
    ensures FileName(LastPart(p)) == FileName(p)
    decreases |p|
  {
    if p != [] {
      var init, c := p[..|p| - 1], p[|p| - 1];
      assert p == init + [c];
      FileNamePush(init, c);
      if c != '\\' {
        FileNameOfLastPart(init);
        FileNamePush(LastPart(init), c);
      }
    }
  }

  // ---------- the world a set of files describes ----------

  type Files = map<Path, seq<Pe.Byte>>

  function InAppDir(appDir: Path, dll: string): Path {
    appDir + "\\" + dll
  }

  /** Names resolve in the application directory only. */
  function ResolveIn(files: Files, appDir: Path, dll: string): Resolution {
    var candidate := InAppDir(appDir, dll);
    if candidate !in files then Resolution(Missing, None, [])
    else if Pe.DirectImports(files[candidate]).Err? then Resolution(BadImage, Some(candidate), [])
    else Resolution(Found, Some(candidate), [])
  }

  function WorldOf(files: Files, root: Path, appDir: Path): World {
    World(root, p => p, p => FileName(p),
          map p | p in files && Pe.DirectImports(files[p]).Ok? :: Pe.DirectImports(files[p]).value,
          dll => ResolveIn(files, appDir, dll), {}, map[])
  }

  /** What the mock calls a module: the root by its last part, any other one as it was imported. */
  function MockName(root: Path, appDir: Path, p: Path): string {
    if p == root then LastPart(root)
    else if appDir + "\\" <= p then p[|appDir| + 1..]
    else FileName(p)
  }

  /** The same world with the mock's names. */
  function MockWorld(files: Files, root: Path, appDir: Path): World {
    WorldOf(files, root, appDir).(nameOf := (p: Path) => MockName(root, appDir, p))
  }

  lemma MockNameOfCandidate(root: Path, appDir: Path, dll: string)
    requires InAppDir(appDir, dll) != root
    ensures MockName(root, appDir, InAppDir(appDir, dll)) == dll
  {
  }

  /** Up to directories in an imported name, the mock's name is the file name. */
  lemma MockNameFile(root: Path, appDir: Path, p: Path)
    ensures FileName(MockName(root, appDir, p)) == FileName(p)
  {
    if p == root {
      FileNameOfLastPart(root);
    } else if appDir + "\\" <= p {
      FileNameOfJoin(appDir, p[|appDir| + 1..]);
      assert appDir + "\\" + p[|appDir| + 1..] == p;
    } else {
      FileNameTwice(p);
    }
  }

  lemma {:induction false} FileNameTwice(p: string)
    ensures FileName(FileName(p)) == FileName(p)
  {
    if p != [] {
      var init, c := p[..|p| - 1], p[|p| - 1];
      assert p == init + [c];
      FileNamePush(init, c);
      if !IsSeparator(c) {
        FileNameTwice(init);
        FileNamePush(FileName(init), c);
      }
    }
  }

  lemma ImportsAreLowercase(data: seq<Pe.Byte>, dll: string)
    requires Pe.DirectImports(data).Ok? && dll in Pe.DirectImports(data).value
    ensures Lower(dll) == dll
  {
    var off, names := PeFacts.ImportsComeFromTable(data);
    LoweredIsLowercase(names, dll);
  }

  lemma {:induction false} LoweredIsLowercase(names: seq<seq<Pe.Byte>>, dll: string)
    requires dll in PeFacts.Lowered(names)
    ensures Lower(dll) == dll
  {
    if dll == Lower(Pe.AsText(names[0])) {
      LowerIdempotent(Pe.AsText(names[0]));
    } else {
      LoweredIsLowercase(names[1..], dll);
    }
  }

  // ---------- the walk ----------

  datatype DepFailure = DepFailure(dll: string, via: string, depth: nat, kind: Kind)

  datatype Entry = Entry(path: Path, name: string, depth: nat)

  predicate SameNode(w: World, e: Entry, n: Node) {
    e.path == n.path && e.depth == n.depth && e.name == w.nameOf(n.path)
  }

  predicate SameFailure(d: DepFailure, f: Failure) {
    d.dll == f.dll && d.depth == f.depth && d.kind == f.kind && d.via == f.via
  }

  ghost predicate Tracks(w: World, stack: seq<Entry>, visited: set<Path>, failures: seq<DepFailure>, st: Lifo) {
    && visited == st.visited && w.root in visited
    && |stack| == |st.stack| && (forall i :: 0 <= i < |stack| ==> SameNode(w, stack[i], st.stack[i]))
    && SameList(failures, st.failures)
  }

  ghost predicate SameList(ds: seq<DepFailure>, fs: seq<Failure>) {
    |ds| == |fs| && forall i :: 0 <= i < |ds| ==> SameFailure(ds[i], fs[i])
  }

  lemma TracksPop(w: World, stack: seq<Entry>, visited: set<Path>, failures: seq<DepFailure>, st: Lifo)
    requires Tracks(w, stack, visited, failures, st) && stack != []
    ensures Tracks(w, stack[..|stack| - 1], visited, failures, LifoPop(st))
    ensures SameNode(w, stack[|stack| - 1], st.stack[|st.stack| - 1])
  {
  }

  lemma ImportsAllLowercase(data: seq<Pe.Byte>)
    requires Pe.DirectImports(data).Ok?
    ensures forall dll :: dll in Pe.DirectImports(data).value ==> Lower(dll) == dll
  {
    forall dll | dll in Pe.DirectImports(data).value ensures Lower(dll) == dll {
      ImportsAreLowercase(data, dll);
    }
  }

  lemma ReadsOwnImports(files: Files, w: World, root: Path, appDir: Path, p: Path)
    requires w == MockWorld(files, root, appDir) && p in files && Pe.DirectImports(files[p]).Ok?
    ensures w.keyOf(p) == p && p in w.imports && ImportsOf(w, p) == Pe.DirectImports(files[p]).value
  {
  }

  /** The top of the stack is the node the walk over the world pops; it is read from its file, and
      the walk goes on with the scan of its imports. */
  lemma TopEntry(files: Files, w: World, appDir: Path,
                 stack: seq<Entry>, visited: set<Path>, failures: seq<DepFailure>, st: Lifo)
    requires w == MockWorld(files, w.root, appDir) && LifoSound(w, st)
    requires Tracks(w, stack, visited, failures, st) && stack != []
    ensures var entry := stack[|stack| - 1];
            var node := Node(entry.path, entry.depth);
            && SameNode(w, entry, node) && st.stack[|st.stack| - 1] == node
            && Tracks(w, stack[..|stack| - 1], visited, failures, LifoPop(st))
            && if entry.path !in files || Pe.DirectImports(files[entry.path]).Err?
               then LifoWalk(w, st) == LifoAborted(node)
               else
                 var imports := Pe.DirectImports(files[entry.path]).value;
                 && LifoScanNode(w, st) == LifoScan(w, node, imports, LifoPop(st))
                 && LifoWalk(w, LifoScanNode(w, st)) == LifoWalk(w, st)
                 && Keys(w, st.scanned) < Keys(w, LifoScanNode(w, st).scanned)
                 && entry.path in w.imports && entry.path !in Keys(w, st.scanned)
                 && entry.path in Keys(w, LifoScanNode(w, st).scanned)
  {
    var entry := stack[|stack| - 1];
    TracksPop(w, stack, visited, failures, st);
    LifoMakesProgress(w, st);
    if entry.path in files && Pe.DirectImports(files[entry.path]).Ok? {
      ReadsOwnImports(files, w, w.root, appDir, entry.path);
    }
  }

  /** What the walk over the mock's world does with one import. */
  lemma MockScansOne(files: Files, w: World, appDir: Path, node: Node, dll: string, st: Lifo)
    requires w == MockWorld(files, w.root, appDir) && Lower(dll) == dll && w.root in st.visited
    ensures var candidate, r := InAppDir(appDir, dll), LifoScanOne(w, node, dll, st);
            if StartsWith(dll, "api-ms-win-") || StartsWith(dll, "ext-ms-win-") then r == st
            else if candidate !in files then
              r == st.(failures := st.failures + [Failure(dll, w.nameOf(node.path), node.depth + 1, Missing, [])])
            else if Pe.DirectImports(files[candidate]).Err? then
              r == st.(failures := st.failures + [Failure(dll, w.nameOf(node.path), node.depth + 1, BadImage, [])])
            else if candidate in st.visited then r == st
            else
              && r == st.(visited := st.visited + {candidate}, stack := st.stack + [Node(candidate, node.depth + 1)])
              && w.nameOf(candidate) == dll
  {
    if InAppDir(appDir, dll) != w.root { MockNameOfCandidate(w.root, appDir, dll); }
  }

  /** The answer of the mock: that of the last-in-first-out walk, with the mock's names. */
  ghost predicate IsMockAnswer(files: Files, path: Path, appDir: Path, r: Result<seq<DepFailure>, Path>) {
    match LifoRun(MockWorld(files, Lower(path), Lower(appDir)))
    case LifoFinished(st) => r.Ok? && SameList(r.value, st.failures)
    case LifoAborted(at) => r == Err(at.path)
  }

  class MockFileSystem {
    var files: Files

    constructor ()
      ensures files == map[]
    {
      files := map[];
    }

    method AddRaw(path: Path, content: seq<Pe.Byte>)
      modifies this
      ensures files == old(files)[Lower(path) := content]
    {
      files := files[Lower(path) := content];
    }

    /** Adds an image whose import list, read back, is the ordered set of the given names, each
        up to its first NUL. */
    method AddPe(path: Path, imports: seq<seq<Pe.Byte>>)
      requires PeBuilder.Fits(imports) && PeBuilder.AreTexts(imports)
      modifies this
      ensures files.Keys == old(files).Keys + {Lower(path)}
      ensures forall p :: p in old(files) && p != Lower(path) ==> files[p] == old(files)[p]
      ensures Pe.DirectImports(files[Lower(path)]).Ok?
      ensures PeFacts.OrderedSetOf(Pe.DirectImports(files[Lower(path)]).value,
                                   PeFacts.Lowered(PeBuilder.Shown(imports)))
    {
      var image := PeBuilder.BuildTestPe(imports);
      PeBuilder.ImageHoldsNames(image[..], imports);
      PeBuilder.ImportRoundTrip(image[..], imports);
      AddRaw(path, image[..]);
    }

    /** The loop over one module's imports. */
    method ScanImports(imports: seq<string>, entry: Entry, appDir: Path,
                       stack: seq<Entry>, visited: set<Path>, failures: seq<DepFailure>,
                       ghost w: World, ghost st: Lifo)
      returns (stack': seq<Entry>, visited': set<Path>, failures': seq<DepFailure>)
      requires w == MockWorld(files, w.root, appDir) && Tracks(w, stack, visited, failures, st)
      requires forall dll :: dll in imports ==> Lower(dll) == dll
      requires SameNode(w, entry, Node(entry.path, entry.depth))
      ensures Tracks(w, stack', visited', failures', LifoScan(w, Node(entry.path, entry.depth), imports, st))
    {
      stack', visited', failures' := stack, visited, failures;
      ghost var node := Node(entry.path, entry.depth);
      ghost var cur := st;
      for i := 0 to |imports|
        invariant Tracks(w, stack', visited', failures', cur)
        invariant LifoScan(w, node, imports[i..], cur) == LifoScan(w, node, imports, st)
      {
        var dll := imports[i];
        assert imports[i..][0] == dll && imports[i..][1..] == imports[i + 1..];
        MockScansOne(files, w, appDir, node, dll, cur);
        cur := LifoScanOne(w, node, dll, cur);
        if StartsWith(dll, "api-ms-win-") || StartsWith(dll, "ext-ms-win-") {
          continue;
        }
        var candidate := appDir + "\\" + dll;
        if candidate !in files {
          failures' := failures' + [DepFailure(dll, entry.name, entry.depth + 1, Missing)];
        } else if Pe.DirectImports(files[candidate]).Err? {
          failures' := failures' + [DepFailure(dll, entry.name, entry.depth + 1, BadImage)];
        } else if candidate !in visited' {
          visited' := visited' + {candidate};
          stack' := stack' + [Entry(candidate, dll, entry.depth + 1)];
        }
      }
    }

    /** `walk_dependencies`: last in, first out. */
    method WalkDependencies(path: Path, appDir: Path) returns (r: Result<seq<DepFailure>, Path>)
      ensures IsMockAnswer(files, path, appDir, r)
    {
      var rootLower := Lower(path);
      var dir := Lower(appDir);
      ghost var w := MockWorld(files, rootLower, dir);
      var failures: seq<DepFailure> := [];
      var visited := {rootLower};
      var stack := [Entry(rootLower, LastPart(rootLower), 0)];
      ghost var st := LifoInit(w);
      LifoEnds(w);
      while stack != []
        invariant LifoSound(w, st) && Tracks(w, stack, visited, failures, st)
        invariant LifoWalk(w, st) == LifoRun(w)
        decreases w.imports.Keys - Keys(w, st.scanned)
      {
        var entry := stack[|stack| - 1];
        ghost var node := Node(entry.path, entry.depth);
        TopEntry(files, w, dir, stack, visited, failures, st);
        if entry.path !in files || Pe.DirectImports(files[entry.path]).Err? {
          return Err(entry.path);
        }
        var imports := Pe.DirectImports(files[entry.path]).value;
        ImportsAllLowercase(files[entry.path]);
        stack, visited, failures :=
          ScanImports(imports, entry, dir, stack[..|stack| - 1], visited, failures, w, LifoPop(st));
        st := LifoScanNode(w, st);
      }
      return Ok(failures);
    }
  }

  // ---------- the mock against the real walk ----------

  /** The two worlds differ in names only, and the mock's names have the real file names. */
  predicate SameButNames(a: Lifo, b: Lifo) {
    && a.scanned == b.scanned && a.stack == b.stack && a.visited == b.visited
    && |a.failures| == |b.failures|
    && forall i :: 0 <= i < |a.failures| ==> SameButName(a.failures[i], b.failures[i])
  }

  predicate SameButName(f: Failure, g: Failure) {
    f.dll == g.dll && f.depth == g.depth && f.kind == g.kind && FileName(f.via) == g.via
  }

  /** `m` names modules as the mock does, and is `w` otherwise. */
  ghost predicate IsRenaming(m: World, w: World) {
    m.(nameOf := w.nameOf) == w && forall p: Path :: FileName(m.nameOf(p)) == w.nameOf(p)
  }

  lemma {:induction false} ScanRenamed(m: World, w: World, node: Node, dlls: seq<string>, a: Lifo, b: Lifo)
    requires IsRenaming(m, w) && SameButNames(a, b)
    ensures SameButNames(LifoScan(m, node, dlls, a), LifoScan(w, node, dlls, b))
  {
    if dlls != [] {
      assert Examine(m, node.depth == 0, dlls[0]) == Examine(w, node.depth == 0, dlls[0]);
      ScanRenamed(m, w, node, dlls[1..], LifoScanOne(m, node, dlls[0], a), LifoScanOne(w, node, dlls[0], b));
    }
  }

  lemma PopRenamed(m: World, w: World, a: Lifo, b: Lifo)
    requires IsRenaming(m, w) && SameButNames(a, b) && a.stack != [] && LifoSound(m, a) && LifoSound(w, b)
    ensures SameButNames(LifoScanNode(m, a), LifoScanNode(w, b))
  {
    var node := b.stack[|b.stack| - 1];
    ScanRenamed(m, w, node, ImportsOf(w, w.keyOf(node.path)), LifoPop(a), LifoPop(b));
  }

  lemma {:induction false} WalkRenamed(m: World, w: World, a: Lifo, b: Lifo)
    requires IsRenaming(m, w) && SameButNames(a, b) && LifoSound(m, a) && LifoSound(w, b)
    ensures var x, y := LifoWalk(m, a), LifoWalk(w, b);
            && (x.LifoFinished? <==> y.LifoFinished?)
            && (x.LifoFinished? ==> SameButNames(x.st, y.st))
    decreases w.imports.Keys - Keys(w, b.scanned)
  {
    if b.stack != [] && w.keyOf(b.stack[|b.stack| - 1].path) in w.imports {
      LifoMakesProgress(w, b);
      PopRenamed(m, w, a, b);
      WalkRenamed(m, w, LifoScanNode(m, a), LifoScanNode(w, b));
    }
  }

  lemma MockIsRenaming(files: Files, root: Path, appDir: Path)
    ensures IsRenaming(MockWorld(files, root, appDir), WorldOf(files, root, appDir))
  {
    forall p: Path ensures FileName(MockName(root, appDir, p)) == FileName(p) { MockNameFile(root, appDir, p); }
  }

  function DepSignatures(ds: seq<DepFailure>): seq<Signature> {
    if ds == [] then [] else [Signature(ds[0].dll, FileName(ds[0].via), ds[0].kind)] + DepSignatures(ds[1..])
  }

  lemma {:induction false} SameSignatures(ds: seq<DepFailure>, fs: seq<Failure>, gs: seq<Failure>)
    requires SameList(ds, fs) && |fs| == |gs| && forall i :: 0 <= i < |fs| ==> SameButName(fs[i], gs[i])
    ensures DepSignatures(ds) == Views(gs, SignatureOf)
  {
    if ds != [] { SameSignatures(ds[1..], fs[1..], gs[1..]); }
  }

  /** The mock's answer, for any files: it returns exactly when the first-in-first-out walk over
      the same world does, with the same multiset of (name, importer's file name, kind). */
  lemma MockAgreesWithQueue(files: Files, path: Path, appDir: Path, r: Result<seq<DepFailure>, Path>)
    requires IsMockAnswer(files, path, appDir, r)
    ensures var fifo := Answer(Run(WorldOf(files, Lower(path), Lower(appDir)), CollectOnly));
            && (r.Ok? <==> fifo.Ok?)
            && (r.Ok? ==> multiset(DepSignatures(r.value)) == multiset(Views(fifo.value.failures, SignatureOf)))
            && (r.Ok? ==> |r.value| == |fifo.value.failures|)
  {
    var w, m := WorldOf(files, Lower(path), Lower(appDir)), MockWorld(files, Lower(path), Lower(appDir));
    assert NamesByKey(w);
    WorklistOrderKeepsVerdict(w);
    LifoEnds(w);
    LifoEnds(m);
    MockIsRenaming(files, Lower(path), Lower(appDir));
    WalkRenamed(m, w, LifoInit(m), LifoInit(w));
    if r.Ok? {
      SameSignatures(r.value, LifoRun(m).st.failures, LifoRun(w).st.failures);
    }
  }
}
