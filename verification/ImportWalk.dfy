/**
 The breadth-first walk over static imports (`diagnose_static_imports_in_context`,
 src/main.rs).

 The environment is a `World`: how a path is keyed and named, the sorted import list of
 every module that reads and parses (keyed by canonical path), the search oracle, and
 what the debugger saw being loaded. The walk itself is the loop of the source; `Run`
 is the same walk as a function, about which the other walk modules prove theorems.
 */
module ImportWalk {
  import opened Wrappers
  import opened Text
  import opened Search

  type Key = string

  datatype World = World(
    root: Path,
    keyOf: Path -> Key,
    nameOf: Path -> string,
    imports: map<Key, seq<string>>,
    resolve: string -> Resolution,
    runtimeLoaded: set<string>,
    runtimeObserved: map<string, Path>)

  datatype EmitMode = Full | FailuresOnly | SummaryOnly | CollectOnly

  predicate StopsEarly(mode: EmitMode) {
    mode.FailuresOnly? || mode.SummaryOnly?
  }

  datatype Node = Node(path: Path, depth: nat)

  /** A recorded failure. The first issue is one of these: its module is always the root
      and its diagnosis string is fixed by `kind`. */
  datatype Failure = Failure(dll: string, via: string, depth: nat, kind: Kind, candidates: seq<Candidate>)

  datatype Report = Report(missing: nat, badImage: nat, first: Option<Failure>, failures: seq<Failure>)

  predicate IsApiSet(dll: string) {
    StartsWith(Lower(dll), "api-ms-win-") || StartsWith(Lower(dll), "ext-ms-win-")
  }

  // ---------- what one import means ----------

  datatype Finding = Skip | Follow(path: Path) | Fail(kind: Kind, candidates: seq<Candidate>)

  /** What the walk does with one import of a module. Only at the root do modules the
      debugger saw loaded count as found. */
  function Examine(w: World, atRoot: bool, dll: string): Finding {
    var resolution := w.resolve(dll);
    if IsApiSet(dll) then Skip
    else if atRoot && dll in w.runtimeLoaded then
      if dll in w.runtimeObserved then Follow(w.runtimeObserved[dll])
      else if resolution.chosen.Some? then Follow(resolution.chosen.value)
      else Skip
    else if resolution.kind == Found then
      if resolution.chosen.Some? then Follow(resolution.chosen.value) else Skip
    else Fail(resolution.kind, resolution.candidates)
  }

  // ---------- first issue ----------

  /** The order of `consider_first_issue`: depth, then importer, then name. */
  predicate Precedes(a: Failure, b: Failure) {
    a.depth < b.depth
    || (a.depth == b.depth && (LexLess(a.via, b.via) || (a.via == b.via && LexLess(a.dll, b.dll))))
  }

  function Considered(current: Option<Failure>, candidate: Failure): Option<Failure> {
    if current.None? || Precedes(candidate, current.value) then Some(candidate) else current
  }

  // ---------- the walk as a function ----------

  /** `seen` is every module ever queued, in discovery order; those before `next` have
      been scanned and the rest is the queue. */
  datatype State = State(
    seen: seq<Node>,
    next: nat,
    visited: set<Key>,
    failures: seq<Failure>,
    missing: nat,
    badImage: nat,
    first: Option<Failure>,
    limit: Option<nat>)

  function Init(w: World): State {
    State([Node(w.root, 0)], 0, {w.keyOf(w.root)}, [], 0, 0, None, None)
  }

  /** `queue_module_if_unvisited` */
  function Enqueue(w: World, st: State, path: Path, depth: nat): State {
    if w.keyOf(path) in st.visited then st
    else st.(visited := st.visited + {w.keyOf(path)}, seen := st.seen + [Node(path, depth)])
  }

  function Record(early: bool, st: State, f: Failure, parentDepth: nat): State {
    st.(failures := st.failures + [f],
        missing := st.missing + (if f.kind == Missing then 1 else 0),
        badImage := st.badImage + (if f.kind == Missing then 0 else 1),
        first := Considered(st.first, f),
        limit := if early && st.limit.None? then Some(parentDepth) else st.limit)
  }

  function FailureFor(w: World, node: Node, dll: string, finding: Finding): Failure
    requires finding.Fail?
  {
    Failure(dll, w.nameOf(node.path), node.depth + 1, finding.kind, finding.candidates)
  }

  function ScanOne(w: World, early: bool, node: Node, dll: string, st: State): State {
    var finding := Examine(w, node.depth == 0, dll);
    match finding
    case Skip => st
    case Follow(path) => Enqueue(w, st, path, node.depth + 1)
    case Fail(_, _) => Record(early, st, FailureFor(w, node, dll, finding), node.depth)
  }

  function Scan(w: World, early: bool, node: Node, dlls: seq<string>, st: State): State {
    if dlls == [] then st else Scan(w, early, node, dlls[1..], ScanOne(w, early, node, dlls[0], st))
  }

  ghost function Keys(w: World, nodes: seq<Node>): set<Key> {
    set n | n in nodes :: w.keyOf(n.path)
  }

  ghost predicate DistinctKeys(w: World, nodes: seq<Node>) {
    forall i, j :: 0 <= i < j < |nodes| ==> w.keyOf(nodes[i].path) != w.keyOf(nodes[j].path)
  }

  /** No module is queued twice. */
  ghost predicate Sound(w: World, st: State) {
    st.next <= |st.seen| && st.visited == Keys(w, st.seen) && DistinctKeys(w, st.seen)
  }

  lemma {:induction false} ScanSound(w: World, early: bool, node: Node, dlls: seq<string>, st: State)
    requires Sound(w, st)
    ensures Sound(w, Scan(w, early, node, dlls, st))
    ensures Scan(w, early, node, dlls, st).next == st.next
    ensures st.seen <= Scan(w, early, node, dlls, st).seen
  {
    if dlls != [] {
      ScanSound(w, early, node, dlls[1..], ScanOne(w, early, node, dlls[0], st));
    }
  }

  datatype Ending = Finished(st: State) | Aborted(at: Node, st: State)

  predicate StopsAt(early: bool, st: State)
    requires st.next < |st.seen|
  {
    early && st.limit.Some? && st.seen[st.next].depth > st.limit.value
  }

  ghost function Walk(w: World, early: bool, st: State): Ending
    requires Sound(w, st)
    decreases w.imports.Keys - Keys(w, st.seen[..st.next])
  {
    if st.next == |st.seen| || StopsAt(early, st) then Finished(st)
    else
      var node := st.seen[st.next];
      var key := w.keyOf(node.path);
      if key !in w.imports then Aborted(node, st)
      else
        var after := ScanNode(w, early, st);
        assert key in Keys(w, after.seen[..after.next]) && key !in Keys(w, st.seen[..st.next]);
        Walk(w, early, after)
  }

  /** Pops the front of the queue and scans it. */
  ghost function ScanNode(w: World, early: bool, st: State): (r: State)
    requires Sound(w, st) && st.next < |st.seen| && w.keyOf(st.seen[st.next].path) in w.imports
    ensures Sound(w, r) && r.next == st.next + 1 && st.seen <= r.seen
    ensures Keys(w, r.seen[..r.next]) == Keys(w, st.seen[..st.next]) + {w.keyOf(st.seen[st.next].path)}
  {
    var node := st.seen[st.next];
    var dlls := w.imports[w.keyOf(node.path)];
    ScanSound(w, early, node, dlls, st.(next := st.next + 1));
    var r := Scan(w, early, node, dlls, st.(next := st.next + 1));
    assert r.seen[..r.next] == st.seen[..st.next] + [node];
    r
  }

  ghost function Run(w: World, mode: EmitMode): Ending {
    Walk(w, StopsEarly(mode), Init(w))
  }

  function ReportOf(st: State): Report {
    Report(st.missing, st.badImage, st.first, st.failures)
  }

  /** A module that cannot be read or parsed aborts the whole walk. */
  ghost function Answer(e: Ending): Result<Report, Path> {
    if e.Finished? then Ok(ReportOf(e.st)) else Err(e.at.path)
  }

  // ---------- the walk as a loop ----------

  /** The variables one walk updates in place. `st` is the same information as a value. */
  class Walker {
    var visited: set<Key>
    var queue: seq<Node>
    var failures: seq<Failure>
    var missingCount: nat
    var badImageCount: nat
    var firstIssue: Option<Failure>
    var maxParentDepth: Option<nat>
    ghost var st: State

    ghost predicate Valid()
      reads this
    {
      && st.next <= |st.seen|
      && queue == st.seen[st.next..]
      && st == State(st.seen, st.next, visited, failures, missingCount, badImageCount, firstIssue, maxParentDepth)
    }

    constructor (w: World)
      ensures Valid() && st == Init(w)
    {
      visited, queue := {w.keyOf(w.root)}, [Node(w.root, 0)];
      failures, missingCount, badImageCount := [], 0, 0;
      firstIssue, maxParentDepth := None, None;
      st := Init(w);
    }

    method QueueIfUnvisited(w: World, path: Path, depth: nat)
      requires Valid()
      modifies this
      ensures Valid() && st == Enqueue(w, old(st), path, depth)
    {
      var key := w.keyOf(path);
      if key !in visited {
        visited := visited + {key};
        queue := queue + [Node(path, depth)];
      }
      st := Enqueue(w, st, path, depth);
    }

    method RecordFailure(early: bool, f: Failure, parentDepth: nat)
      requires Valid()
      modifies this
      ensures Valid() && st == Record(early, old(st), f, parentDepth)
    {
      if f.kind == Missing { missingCount := missingCount + 1; }
      else { badImageCount := badImageCount + 1; }
      failures := failures + [f];
      firstIssue := Considered(firstIssue, f);
      if early && maxParentDepth.None? { maxParentDepth := Some(parentDepth); }
      st := Record(early, st, f, parentDepth);
    }

    /** The loop over one module's imports. */
    method ScanModule(w: World, early: bool, node: Node, imports: seq<string>)
      requires Valid()
      modifies this
      ensures Valid() && st == Scan(w, early, node, imports, old(st))
    {
      for i := 0 to |imports|
        invariant Valid()
        invariant Scan(w, early, node, imports[i..], st) == Scan(w, early, node, imports, old(st))
      {
        var dll := imports[i];
        assert imports[i..][0] == dll && imports[i..][1..] == imports[i + 1..];
        if IsApiSet(dll) {
          continue;
        }
        if node.depth == 0 && dll in w.runtimeLoaded {
          var observed :=
            if dll in w.runtimeObserved then Some(w.runtimeObserved[dll]) else w.resolve(dll).chosen;
          if observed.Some? {
            QueueIfUnvisited(w, observed.value, node.depth + 1);
          }
          continue;
        }
        var resolution := w.resolve(dll);
        if resolution.kind == Found {
          if resolution.chosen.Some? {
            QueueIfUnvisited(w, resolution.chosen.value, node.depth + 1);
          }
        } else {
          var failure := Failure(dll, w.nameOf(node.path), node.depth + 1, resolution.kind, resolution.candidates);
          RecordFailure(early, failure, node.depth);
        }
      }
    }

    method PopFront() returns (node: Node)
      requires Valid() && queue != []
      modifies this
      ensures Valid() && node == old(st.seen[st.next]) && st == old(st).(next := old(st).next + 1)
    {
      node := queue[0];
      queue := queue[1..];
      st := st.(next := st.next + 1);
    }
  }

  method DiagnoseStaticImports(w: World, mode: EmitMode) returns (r: Result<Report, Path>)
    ensures r == Answer(Run(w, mode))
  {
    var walker := new Walker(w);
    var early := StopsEarly(mode);
    while walker.queue != []
      invariant walker.Valid() && Sound(w, walker.st)
      invariant Walk(w, early, walker.st) == Run(w, mode)
      decreases w.imports.Keys - Keys(w, walker.st.seen[..walker.st.next])
    {
      ghost var before := walker.st;
      var node := walker.PopFront();
      if early && walker.maxParentDepth.Some? && node.depth > walker.maxParentDepth.value {
        break;
      }
      if w.keyOf(node.path) !in w.imports {
        return Err(node.path);
      }
      walker.ScanModule(w, early, node, w.imports[w.keyOf(node.path)]);
      assert walker.st == ScanNode(w, early, before);
    }
    return Ok(Report(walker.missingCount, walker.badImageCount, walker.firstIssue, walker.failures));
  }
}
