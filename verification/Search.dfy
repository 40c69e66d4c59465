/**
 The fixed DLL search order of src/search.rs: the ordered list of root directories,
 its case-insensitive deduplication, and the first-hit resolution over it.

 The file system is an oracle: which paths exist, which existing files parse as PE
 images, how a directory and a name are joined, and which names are absolute.
 */
module Search {
  import opened Wrappers
  import opened Text

  type Path = string

  datatype FileSystem = FileSystem(
    exists_: Path -> bool,
    isPe: Path -> bool,
    join: (Path, string) -> Path,
    isAbsolute: string -> bool)

  datatype Kind = Found | Missing | BadImage

  datatype Candidate = Candidate(order: nat, path: Path, result: Kind)

  datatype Resolution = Resolution(kind: Kind, chosen: Option<Path>, candidates: seq<Candidate>)

  datatype SearchContext = SearchContext(
    appDir: Path, cwd: Path, pathDirs: seq<Path>, safeDll: bool,
    systemDir: Path, windowsDir: Path, system16Dir: Option<Path>)

  function Classify(fs: FileSystem, path: Path): Kind {
    if !fs.exists_(path) then Missing
    else if fs.isPe(path) then Found
    else BadImage
  }

  // ---------- roots ----------

  /** The search order as documented, before duplicates are dropped. `withCwd` says
      whether the current directory gets its own entry. */
  function ListedRoots(ctx: SearchContext, withCwd: bool): seq<Path> {
    var cwd := if withCwd then [ctx.cwd] else [];
    BeforeCwd(ctx) + cwd + AfterCwd(ctx)
  }

  function SystemRoots(ctx: SearchContext): seq<Path> {
    var system16 := if ctx.system16Dir.Some? then [ctx.system16Dir.value] else [];
    [ctx.systemDir] + system16 + [ctx.windowsDir]
  }

  /** Safe DLL search moves the current directory behind the system directories. */
  function BeforeCwd(ctx: SearchContext): seq<Path> {
    [ctx.appDir] + if ctx.safeDll then SystemRoots(ctx) else []
  }

  function AfterCwd(ctx: SearchContext): seq<Path> {
    (if ctx.safeDll then [] else SystemRoots(ctx)) + ctx.pathDirs
  }

  /** The search order, mode by mode: with safe DLL search the current directory is behind the system
      directories, without it right behind the application's. */
  lemma RootsInOrder(ctx: SearchContext, withCwd: bool)
    ensures var cwd, directories := if withCwd then [ctx.cwd] else [], ListedRoots(ctx, withCwd);
            match (ctx.safeDll, ctx.system16Dir)
            case (true, None) => directories == [ctx.appDir, ctx.systemDir, ctx.windowsDir] + cwd + ctx.pathDirs
            case (true, Some(s)) => directories == [ctx.appDir, ctx.systemDir, s, ctx.windowsDir] + cwd + ctx.pathDirs
            case (false, None) => directories == [ctx.appDir] + cwd + [ctx.systemDir, ctx.windowsDir] + ctx.pathDirs
            case (false, Some(s)) =>
              directories == [ctx.appDir] + cwd + [ctx.systemDir, s, ctx.windowsDir] + ctx.pathDirs
  {
  }

  /** The roots that survive: the first of every group that agrees up to ASCII case. */
  function Dedup(paths: seq<Path>, seen: set<string>): seq<Path> {
    if paths == [] then []
    else if Lower(paths[0]) in seen then Dedup(paths[1..], seen)
    else [paths[0]] + Dedup(paths[1..], seen + {Lower(paths[0])})
  }

  ghost function Folded(paths: seq<Path>): set<string> {
    if paths == [] then {} else {Lower(paths[0])} + Folded(paths[1..])
  }

  lemma {:induction false} DedupAppend(paths: seq<Path>, p: Path, seen: set<string>)
    ensures Folded(paths + [p]) == Folded(paths) + {Lower(p)}
    ensures Dedup(paths + [p], seen)
         == if Lower(p) in seen + Folded(paths) then Dedup(paths, seen) else Dedup(paths, seen) + [p]
  {
    if paths != [] {
      assert (paths + [p])[1..] == paths[1..] + [p];
      DedupAppend(paths[1..], p, seen);
      DedupAppend(paths[1..], p, seen + {Lower(paths[0])});
    }
  }

  /** Deduplication keeps one root of each group: no two survivors agree up to case, and
      every listed root agrees with a survivor. */
  lemma {:induction false} DedupMeaning(paths: seq<Path>, seen: set<string>)
    ensures forall i, j :: 0 <= i < j < |Dedup(paths, seen)| ==>
              !SameIgnoringCase(Dedup(paths, seen)[i], Dedup(paths, seen)[j])
    ensures Folded(Dedup(paths, seen)) == Folded(paths) - seen
    ensures forall i :: 0 <= i < |Dedup(paths, seen)| ==> Lower(Dedup(paths, seen)[i]) !in seen
  {
    if paths != [] {
      DedupMeaning(paths[1..], seen);
      DedupMeaning(paths[1..], seen + {Lower(paths[0])});
    }
  }

  method DedupCaseInsensitive(paths: seq<Path>) returns (out: seq<Path>)
    ensures out == Dedup(paths, {})
  {
    out := [];
    var seen: set<string> := {};
    for i := 0 to |paths|
      invariant out == Dedup(paths[..i], {})
      invariant seen == Folded(paths[..i])
    {
      assert paths[..i + 1] == paths[..i] + [paths[i]];
      DedupAppend(paths[..i], paths[i], {});
      var normalized := Lower(paths[i]);
      if normalized !in seen {
        seen := seen + {normalized};
        out := out + [paths[i]];
      }
    }
    assert paths[..|paths|] == paths;
  }

  /** `ordered_roots` */
  function OrderedRoots(ctx: SearchContext): seq<Path> {
    Dedup(ListedRoots(ctx, Lower(ctx.cwd) != Lower(ctx.appDir)), {})
  }

  method PushSystemRoots(roots: seq<Path>, ctx: SearchContext) returns (r: seq<Path>)
    ensures r == roots + SystemRoots(ctx)
  {
    r := roots + [ctx.systemDir];
    if ctx.system16Dir.Some? { r := r + [ctx.system16Dir.value]; }
    r := r + [ctx.windowsDir];
  }

  /** The roots up to the PATH entries, in either mode. */
  function FixedRoots(ctx: SearchContext, withCwd: bool): seq<Path> {
    var front := BeforeCwd(ctx) + if withCwd then [ctx.cwd] else [];
    if ctx.safeDll then front else front + SystemRoots(ctx)
  }

  lemma FixedRootsFirst(ctx: SearchContext, withCwd: bool)
    ensures FixedRoots(ctx, withCwd) + ctx.pathDirs == ListedRoots(ctx, withCwd)
  {
    if ctx.safeDll { assert AfterCwd(ctx) == ctx.pathDirs; }
  }

  method ComputeOrderedRoots(ctx: SearchContext) returns (roots: seq<Path>)
    ensures roots == OrderedRoots(ctx)
  {
    roots := [ctx.appDir];
    var cwdDiffers := Lower(ctx.cwd) != Lower(ctx.appDir);
    if ctx.safeDll {
      roots := PushSystemRoots(roots, ctx);
      if cwdDiffers { roots := roots + [ctx.cwd]; }
    } else {
      if cwdDiffers { roots := roots + [ctx.cwd]; }
      roots := PushSystemRoots(roots, ctx);
    }
    ghost var fixedRoots := FixedRoots(ctx, cwdDiffers);
    assert roots == fixedRoots;
    for i := 0 to |ctx.pathDirs|
      invariant roots == fixedRoots + ctx.pathDirs[..i]
    {
      roots := roots + [ctx.pathDirs[i]];
    }
    assert ctx.pathDirs[..|ctx.pathDirs|] == ctx.pathDirs;
    FixedRootsFirst(ctx, cwdDiffers);
    roots := DedupCaseInsensitive(roots);
  }

  lemma {:induction false} DedupDropsRepeat(front: seq<Path>, p: Path, back: seq<Path>, seen: set<string>)
    requires Lower(p) in seen + Folded(front)
    ensures Dedup(front + [p] + back, seen) == Dedup(front + back, seen)
  {
    if front == [] {
      assert front + [p] + back == [p] + back && front + back == back;
    } else {
      assert (front + [p] + back)[1..] == front[1..] + [p] + back;
      assert (front + back)[1..] == front[1..] + back;
      if Lower(front[0]) in seen {
        DedupDropsRepeat(front[1..], p, back, seen);
      } else {
        DedupDropsRepeat(front[1..], p, back, seen + {Lower(front[0])});
      }
    }
  }

  /** The `cwd_differs` test only saves work: listing the current directory always
      gives the same roots. */
  lemma CwdTestIsRedundant(ctx: SearchContext)
    ensures OrderedRoots(ctx) == Dedup(ListedRoots(ctx, true), {})
  {
    if Lower(ctx.cwd) == Lower(ctx.appDir) {
      assert BeforeCwd(ctx) + [] == BeforeCwd(ctx);
      assert BeforeCwd(ctx)[0] == ctx.appDir;
      DedupDropsRepeat(BeforeCwd(ctx), ctx.cwd, AfterCwd(ctx), {});
    }
  }

  // ---------- resolution ----------

  /** The first root at which the name is not missing. */
  function FirstHit(fs: FileSystem, dll: string, roots: seq<Path>): Option<Path> {
    if roots == [] then None
    else if Classify(fs, fs.join(roots[0], dll)) != Missing then Some(fs.join(roots[0], dll))
    else FirstHit(fs, dll, roots[1..])
  }

  /** The outcome of probing `path` and stopping there, as the `n`-th candidate. */
  function Probe(fs: FileSystem, path: Path, before: seq<Candidate>): Resolution {
    var kind := Classify(fs, path);
    Resolution(kind, if kind == Missing then None else Some(path),
               before + [Candidate(|before| + 1, path, kind)])
  }

  /** Candidates numbered from 1, each classified by the oracle and each a miss but
      possibly the last, taken in order from the roots. */
  ghost predicate CandidatesFollow(fs: FileSystem, dll: string, roots: seq<Path>, cs: seq<Candidate>) {
    && |cs| <= |roots|
    && (forall i :: 0 <= i < |cs| ==>
         && cs[i].order == i + 1
         && cs[i].path == fs.join(roots[i], dll)
         && cs[i].result == Classify(fs, cs[i].path))
    && (forall i :: 0 <= i < |cs| - 1 ==> cs[i].result == Missing)
  }

  /** What one relative name resolves to over a list of roots. */
  ghost predicate ResolvesOver(fs: FileSystem, dll: string, roots: seq<Path>, r: Resolution) {
    && CandidatesFollow(fs, dll, roots, r.candidates)
    && r.chosen == FirstHit(fs, dll, roots)
    && r.kind == (if r.chosen.None? then Missing else Classify(fs, r.chosen.value))
    && (r.chosen.None? ==> |r.candidates| == |roots| && (|roots| > 0 ==> r.candidates[|roots| - 1].result == Missing))
    && (r.chosen.Some? ==> r.candidates != [] && r.candidates[|r.candidates| - 1].path == r.chosen.value)
  }

  lemma {:induction false} FirstHitSkips(fs: FileSystem, dll: string, roots: seq<Path>, n: nat)
    requires n <= |roots|
    requires forall i :: 0 <= i < n ==> Classify(fs, fs.join(roots[i], dll)) == Missing
    ensures FirstHit(fs, dll, roots) == FirstHit(fs, dll, roots[n..])
  {
    if n > 0 {
      FirstHitSkips(fs, dll, roots[1..], n - 1);
      assert roots[1..][n - 1..] == roots[n..];
    } else {
      assert roots[0..] == roots;
    }
  }

  /** The file that a root directory has under the name. */
  predicate HasFile(fs: FileSystem, dll: string, root: Path) {
    fs.exists_(fs.join(root, dll))
  }

  ghost predicate FirstWithFile(fs: FileSystem, dll: string, roots: seq<Path>, i: nat) {
    i < |roots| && HasFile(fs, dll, roots[i]) && forall j :: 0 <= j < i ==> !HasFile(fs, dll, roots[j])
  }

  lemma {:induction false} SomeFirst(fs: FileSystem, dll: string, roots: seq<Path>, i: nat) returns (first: nat)
    requires i < |roots| && HasFile(fs, dll, roots[i])
    ensures FirstWithFile(fs, dll, roots, first)
    decreases i
  {
    if j: nat :| j < i && HasFile(fs, dll, roots[j]) { first := SomeFirst(fs, dll, roots, j); } else { first := i; }
  }

  lemma ResolvedAt(fs: FileSystem, dll: string, roots: seq<Path>, r: Resolution, i: nat)
    requires ResolvesOver(fs, dll, roots, r) && FirstWithFile(fs, dll, roots, i)
    ensures r.chosen == Some(fs.join(roots[i], dll)) && |r.candidates| == i + 1
    ensures r.kind == if fs.isPe(fs.join(roots[i], dll)) then Found else BadImage
  {
    FirstHitSkips(fs, dll, roots, i);
    var n := |r.candidates| - 1;
    assert r.candidates[n].path == fs.join(roots[n], dll);
  }

  /** What resolving a name means for the files there are: it is missing exactly when no root has it;
      otherwise the first root that has it decides, and it is found exactly when that file is an image. */
  lemma ResolutionMeaning(fs: FileSystem, dll: string, roots: seq<Path>, r: Resolution)
    requires ResolvesOver(fs, dll, roots, r)
    ensures r.kind == Missing <==> forall i :: 0 <= i < |roots| ==> !HasFile(fs, dll, roots[i])
    ensures forall i: nat :: FirstWithFile(fs, dll, roots, i) ==>
              && r.chosen == Some(fs.join(roots[i], dll)) && |r.candidates| == i + 1
              && r.kind == if fs.isPe(fs.join(roots[i], dll)) then Found else BadImage
  {
    forall i: nat | FirstWithFile(fs, dll, roots, i)
      ensures r.chosen == Some(fs.join(roots[i], dll)) && |r.candidates| == i + 1
      ensures r.kind == if fs.isPe(fs.join(roots[i], dll)) then Found else BadImage
    {
      ResolvedAt(fs, dll, roots, r, i);
    }
    if i: nat :| i < |roots| && HasFile(fs, dll, roots[i]) {
      var first := SomeFirst(fs, dll, roots, i);
    } else {
      FirstHitSkips(fs, dll, roots, |roots|);
    }
  }

  /** Each candidate says what its file is. */
  lemma CandidateMeaning(fs: FileSystem, dll: string, roots: seq<Path>, cs: seq<Candidate>, c: Candidate)
    requires CandidatesFollow(fs, dll, roots, cs) && c in cs
    ensures c.result == if !fs.exists_(c.path) then Missing else if fs.isPe(c.path) then Found else BadImage
  {
  }

  /** An absolute name is its own and only candidate. */
  lemma ProbeMeaning(fs: FileSystem, path: Path)
    ensures var r := Probe(fs, path, []);
            && r.kind == (if !fs.exists_(path) then Missing else if fs.isPe(path) then Found else BadImage)
            && r.chosen == (if fs.exists_(path) then Some(path) else None)
            && r.candidates == [Candidate(1, path, r.kind)]
  {
  }

  /** `resolve_dll`: an absolute name is probed on its own; a relative one is probed at
      each deduplicated root until something other than a miss turns up. */
  method ResolveDll(fs: FileSystem, dll: string, ctx: SearchContext) returns (r: Resolution)
    ensures fs.isAbsolute(dll) ==> r == Probe(fs, dll, [])
    ensures !fs.isAbsolute(dll) ==> ResolvesOver(fs, dll, OrderedRoots(ctx), r)
    ensures r.kind == Missing <==> r.chosen.None?
  {
    if fs.isAbsolute(dll) {
      return Probe(fs, dll, []);
    }
    var candidates := [];
    var roots := ComputeOrderedRoots(ctx);
    for idx := 0 to |roots|
      invariant |candidates| == idx
      invariant CandidatesFollow(fs, dll, roots, candidates)
      invariant forall i :: 0 <= i < idx ==> candidates[i].result == Missing
    {
      var candidate := fs.join(roots[idx], dll);
      var result := Classify(fs, candidate);
      candidates := candidates + [Candidate(idx + 1, candidate, result)];
      if result != Missing {
        FirstHitSkips(fs, dll, roots, idx);
        return Resolution(result, Some(candidate), candidates);
      }
    }
    FirstHitSkips(fs, dll, roots, |roots|);
    return Resolution(Missing, None, candidates);
  }

  /** The file system does not tell apart directories that differ only in ASCII case. */
  ghost predicate CaseBlind(fs: FileSystem, dll: string) {
    forall a: Path, b: Path :: SameIgnoringCase(a, b) ==>
      Classify(fs, fs.join(a, dll)) == Classify(fs, fs.join(b, dll))
  }

  lemma {:induction false} DedupKeepsFirstHit(fs: FileSystem, dll: string, paths: seq<Path>, seen: set<string>)
    requires CaseBlind(fs, dll)
    requires forall p: Path :: Lower(p) in seen ==> Classify(fs, fs.join(p, dll)) == Missing
    ensures FirstHit(fs, dll, Dedup(paths, seen)) == FirstHit(fs, dll, paths)
  {
    if paths != [] {
      var p := paths[0];
      if Lower(p) in seen || Classify(fs, fs.join(p, dll)) != Missing {
        if Lower(p) in seen { DedupKeepsFirstHit(fs, dll, paths[1..], seen); }
      } else {
        forall q: Path | Lower(q) in seen + {Lower(p)}
          ensures Classify(fs, fs.join(q, dll)) == Missing
        {
          if Lower(q) == Lower(p) { assert SameIgnoringCase(q, p); }
        }
        DedupKeepsFirstHit(fs, dll, paths[1..], seen + {Lower(p)});
      }
    }
  }

  /** Deduplication is invisible in the answer: whatever resolves over the deduplicated
      roots has the chosen path and the kind of the plain search that lists every
      directory, the current one included, with its repeats. */
  lemma DedupRefinesPlainSearch(fs: FileSystem, dll: string, ctx: SearchContext, r: Resolution)
    requires CaseBlind(fs, dll)
    requires ResolvesOver(fs, dll, OrderedRoots(ctx), r)
    ensures r.chosen == FirstHit(fs, dll, ListedRoots(ctx, true))
    ensures r.kind == (if r.chosen.None? then Missing else Classify(fs, r.chosen.value))
  {
    CwdTestIsRedundant(ctx);
    DedupKeepsFirstHit(fs, dll, ListedRoots(ctx, true), {});
  }
}
