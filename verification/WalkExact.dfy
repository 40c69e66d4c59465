/**
 What the full walk computes, stated without the walk: reachability and shortest
 distance in the import graph.
 */
module WalkExact {
  import opened Wrappers
  import opened Text
  import opened Search
  import opened ImportWalk
  import opened WalkEarlyStop

  // ---------- the import graph ----------

  function ImportsOf(w: World, k: Key): seq<string> {
    if k in w.imports then w.imports[k] else []
  }

  /** `s` begins with the lowercase `prefix`, in any case. */
  predicate BeginsWith(s: string, prefix: string) {
    |prefix| <= |s| && forall i :: 0 <= i < |prefix| ==> LowerChar(s[i]) == prefix[i]
  }

  /** The virtual names of the loader's API sets. */
  predicate NamesApiSet(dll: string) {
    BeginsWith(dll, "api-ms-win-") || BeginsWith(dll, "ext-ms-win-")
  }

  /** The file that importing `dll` from a module (the root, or not) leads to. What the debugger
      saw loaded for the root is taken as found: at the path it was seen at, or else where the
      search would choose. Any other name has to be found by the search. */
  predicate LeadsTo(w: World, atRoot: bool, dll: string, path: Path) {
    && !NamesApiSet(dll)
    && if atRoot && dll in w.runtimeLoaded then
         if dll in w.runtimeObserved then path == w.runtimeObserved[dll] else w.resolve(dll).chosen == Some(path)
       else w.resolve(dll).kind == Found && w.resolve(dll).chosen == Some(path)
  }

  lemma LowerBegins(s: string, prefix: string)
    ensures prefix <= Lower(s) <==> BeginsWith(s, prefix)
  {
    LowerAt(s);
  }

  lemma ApiSetByPrefix(dll: string)
    ensures IsApiSet(dll) <==> NamesApiSet(dll)
  {
    LowerBegins(dll, "api-ms-win-");
    LowerBegins(dll, "ext-ms-win-");
  }

  /** The walk goes on exactly where an import leads. */
  lemma FollowsWhereItLeads(w: World, atRoot: bool, dll: string, path: Path)
    ensures Examine(w, atRoot, dll) == Follow(path) <==> LeadsTo(w, atRoot, dll, path)
  {
    ApiSetByPrefix(dll);
  }

  /** Importing `dll` leads to module `b`. */
  ghost predicate Leads(w: World, atRoot: bool, dll: string, b: Key) {
    exists path :: LeadsTo(w, atRoot, dll, path) && w.keyOf(path) == b
  }

  lemma LeadsByExamining(w: World, atRoot: bool, dll: string, b: Key)
    ensures Leads(w, atRoot, dll, b) <==>
            Examine(w, atRoot, dll).Follow? && w.keyOf(Examine(w, atRoot, dll).path) == b
  {
    if path :| LeadsTo(w, atRoot, dll, path) && w.keyOf(path) == b { FollowsWhereItLeads(w, atRoot, dll, path); }
    if Examine(w, atRoot, dll).Follow? {
      FollowsWhereItLeads(w, atRoot, dll, Examine(w, atRoot, dll).path);
    }
  }

  ghost predicate TargetOf(w: World, atRoot: bool, dlls: seq<string>, b: Key) {
    exists dll :: dll in dlls && Leads(w, atRoot, dll, b)
  }

  ghost predicate Edge(w: World, a: Key, b: Key) {
    TargetOf(w, a == w.keyOf(w.root), ImportsOf(w, a), b)
  }

  ghost predicate IsPath(w: World, p: seq<Key>) {
    && |p| > 0
    && p[0] == w.keyOf(w.root)
    && forall i :: 0 < i < |p| ==> Edge(w, p[i - 1], p[i])
  }

  ghost predicate PathTo(w: World, p: seq<Key>, k: Key) {
    IsPath(w, p) && p[|p| - 1] == k
  }

  ghost predicate PathOfLength(w: World, k: Key, d: nat) {
    exists p :: PathTo(w, p, k) && |p| == d + 1
  }

  ghost predicate Reachable(w: World, k: Key) {
    exists p :: PathTo(w, p, k)
  }

  /** `d` is the length of a shortest path from the root to `k`. */
  ghost predicate Distance(w: World, k: Key, d: nat) {
    PathOfLength(w, k, d) && forall p :: PathTo(w, p, k) ==> d + 1 <= |p|
  }

  lemma RootPath(w: World)
    ensures PathOfLength(w, w.keyOf(w.root), 0)
  {
    assert PathTo(w, [w.keyOf(w.root)], w.keyOf(w.root));
  }

  lemma ExtendPath(w: World, a: Key, b: Key, d: nat)
    requires PathOfLength(w, a, d) && Edge(w, a, b)
    ensures PathOfLength(w, b, d + 1)
  {
    var p :| PathTo(w, p, a) && |p| == d + 1;
    assert PathTo(w, p + [b], b);
  }

  // ---------- closed collections of scanned modules ----------

  /** Everything a worklist walk guarantees whatever its order: one node per module, the
      root among them, each at the length of some path, and no edge leading out. */
  ghost predicate Closed(w: World, nodes: seq<Node>) {
    && DistinctKeys(w, nodes)
    && w.keyOf(w.root) in Keys(w, nodes)
    && (forall i :: 0 <= i < |nodes| ==> PathOfLength(w, w.keyOf(nodes[i].path), nodes[i].depth))
    && (forall a, b :: a in Keys(w, nodes) && Edge(w, a, b) ==> b in Keys(w, nodes))
  }

  lemma {:induction false} PathStaysInside(w: World, nodes: seq<Node>, p: seq<Key>)
    requires Closed(w, nodes) && IsPath(w, p)
    ensures p[|p| - 1] in Keys(w, nodes)
  {
    if |p| > 1 {
      PathStaysInside(w, nodes, p[..|p| - 1]);
    }
  }

  lemma ClosedIsReachable(w: World, nodes: seq<Node>)
    requires Closed(w, nodes)
    ensures forall k :: Reachable(w, k) <==> k in Keys(w, nodes)
  {
    forall k | Reachable(w, k) ensures k in Keys(w, nodes) {
      var p :| PathTo(w, p, k);
      PathStaysInside(w, nodes, p);
    }
    forall k | k in Keys(w, nodes) ensures Reachable(w, k) {
      var n :| n in nodes && w.keyOf(n.path) == k;
      var i :| 0 <= i < |nodes| && nodes[i] == n;
      var p :| PathTo(w, p, k) && |p| == n.depth + 1;
    }
  }

  // ---------- the breadth-first invariant ----------

  /** A scanned module's targets are known, at most one level below it. */
  ghost predicate TargetsSeen(w: World, nodes: seq<Node>, n: Node) {
    forall b :: Edge(w, w.keyOf(n.path), b) ==>
      exists m :: m in nodes && w.keyOf(m.path) == b && m.depth <= n.depth + 1
  }

  ghost predicate Explored(w: World, st: State) {
    && Ordered(st)
    && |st.seen| > 0 && st.seen[0] == Node(w.root, 0)
    && (forall i :: 0 < i < |st.seen| ==> 0 < st.seen[i].depth <= i)
    && (forall i :: 0 <= i < |st.seen| ==> PathOfLength(w, w.keyOf(st.seen[i].path), st.seen[i].depth))
    && (forall i :: 0 <= i < st.next ==> w.keyOf(st.seen[i].path) in w.imports && TargetsSeen(w, st.seen, st.seen[i]))
  }

  lemma {:induction false} ScanReachesTargets(w: World, early: bool, node: Node, dlls: seq<string>, st: State)
    ensures var r := Scan(w, early, node, dlls, st);
            && st.visited <= r.visited
            && forall dll, b :: dll in dlls && Leads(w, node.depth == 0, dll, b) ==> b in r.visited
  {
    if dlls != [] {
      var st' := ScanOne(w, early, node, dlls[0], st);
      ScanReachesTargets(w, early, node, dlls[1..], st');
      forall dll, b | dll in dlls && Leads(w, node.depth == 0, dll, b)
        ensures b in Scan(w, early, node, dlls, st).visited
      {
        LeadsByExamining(w, node.depth == 0, dll, b);
        if dll == dlls[0] { assert b in st'.visited; } else { assert dll in dlls[1..]; }
      }
    }
  }

  lemma {:induction false} ScanQueuesTargets(w: World, early: bool, node: Node, dlls: seq<string>, st: State)
    ensures var r := Scan(w, early, node, dlls, st);
            && st.seen <= r.seen
            && forall i :: |st.seen| <= i < |r.seen| ==> TargetOf(w, node.depth == 0, dlls, w.keyOf(r.seen[i].path))
  {
    if dlls != [] {
      var st' := ScanOne(w, early, node, dlls[0], st);
      var r := Scan(w, early, node, dlls, st);
      ScanQueuesTargets(w, early, node, dlls[1..], st');
      forall i | |st.seen| <= i < |r.seen| ensures TargetOf(w, node.depth == 0, dlls, w.keyOf(r.seen[i].path)) {
        var b := w.keyOf(r.seen[i].path);
        if i < |st'.seen| {
          assert r.seen[i] == st'.seen[i];
          LeadsByExamining(w, node.depth == 0, dlls[0], b);
          assert dlls[0] in dlls && Leads(w, node.depth == 0, dlls[0], b);
        } else {
          var dll :| dll in dlls[1..] && Leads(w, node.depth == 0, dll, b);
          assert dll in dlls;
        }
      }
    }
  }

  lemma OnlyRootAtDepthZero(w: World, st: State, i: nat)
    requires DistinctKeys(w, st.seen) && Explored(w, st) && i < |st.seen|
    ensures st.seen[i].depth == 0 <==> w.keyOf(st.seen[i].path) == w.keyOf(w.root)
  {
    if i > 0 { assert w.keyOf(st.seen[0].path) != w.keyOf(st.seen[i].path); }
  }

  /** The same, for one pop of the queue. */
  lemma ScanNodeFindsTargets(w: World, early: bool, st: State)
    requires Sound(w, st) && Explored(w, st) && st.next < |st.seen| && w.keyOf(st.seen[st.next].path) in w.imports
    ensures var node, r := st.seen[st.next], ScanNode(w, early, st);
            && (forall b :: Edge(w, w.keyOf(node.path), b) ==> b in r.visited)
            && (forall i :: |st.seen| <= i < |r.seen| ==>
                  Edge(w, w.keyOf(node.path), w.keyOf(r.seen[i].path)) && r.seen[i].depth == node.depth + 1)
  {
    var node, r := st.seen[st.next], ScanNode(w, early, st);
    var k := w.keyOf(node.path);
    var dlls := w.imports[k];
    OnlyRootAtDepthZero(w, st, st.next);
    ScanReachesTargets(w, early, node, dlls, st.(next := st.next + 1));
    ScanQueuesTargets(w, early, node, dlls, st.(next := st.next + 1));
    ScanEffect(w, early, st);
    forall b | Edge(w, k, b) ensures b in r.visited {
      var dll :| dll in ImportsOf(w, k) && Leads(w, k == w.keyOf(w.root), dll, b);
    }
    forall i | |st.seen| <= i < |r.seen|
      ensures Edge(w, k, w.keyOf(r.seen[i].path))
    {
      assert TargetOf(w, node.depth == 0, dlls, w.keyOf(r.seen[i].path));
    }
  }

  lemma ScanKeepsExplored(w: World, early: bool, st: State)
    requires Sound(w, st) && Explored(w, st) && st.next < |st.seen| && w.keyOf(st.seen[st.next].path) in w.imports
    ensures Explored(w, ScanNode(w, early, st))
  {
    var node, r := st.seen[st.next], ScanNode(w, early, st);
    ScanKeepsOrder(w, early, st);
    ScanNodeFindsTargets(w, early, st);
    forall i | 0 <= i < |r.seen| ensures PathOfLength(w, w.keyOf(r.seen[i].path), r.seen[i].depth) {
      if i < |st.seen| { assert r.seen[i] == st.seen[i]; }
      else { ExtendPath(w, w.keyOf(node.path), w.keyOf(r.seen[i].path), node.depth); }
    }
    forall i | 0 <= i < r.next
      ensures w.keyOf(r.seen[i].path) in w.imports && TargetsSeen(w, r.seen, r.seen[i])
    {
      assert r.seen[i] == st.seen[i];
      if i == st.next {
        forall b | Edge(w, w.keyOf(node.path), b)
          ensures exists m :: m in r.seen && w.keyOf(m.path) == b && m.depth <= node.depth + 1
        {
          assert b in Keys(w, r.seen);
          var m :| m in r.seen && w.keyOf(m.path) == b;
          var j :| 0 <= j < |r.seen| && r.seen[j] == m;
          if j < |st.seen| { assert r.seen[j] == st.seen[j]; }
        }
      } else {
        TargetsStaySeen(w, st.seen, r.seen, st.seen[i]);
      }
    }
  }

  lemma TargetsStaySeen(w: World, nodes: seq<Node>, more: seq<Node>, n: Node)
    requires nodes <= more && TargetsSeen(w, nodes, n)
    ensures TargetsSeen(w, more, n)
  {
    forall b | Edge(w, w.keyOf(n.path), b)
      ensures exists m :: m in more && w.keyOf(m.path) == b && m.depth <= n.depth + 1
    {
      var m :| m in nodes && w.keyOf(m.path) == b && m.depth <= n.depth + 1;
      assert m in more;
    }
  }

  // ---------- the recorded failures ----------

  /** The failures of a list of scanned modules, module by module. */
  function AllFailures(w: World, nodes: seq<Node>): seq<Failure> {
    if nodes == [] then []
    else
      var last := nodes[|nodes| - 1];
      AllFailures(w, nodes[..|nodes| - 1]) + FailuresOf(w, last, ImportsOf(w, w.keyOf(last.path)))
  }

  ghost predicate Progress(w: World, st: State) {
    Sound(w, st) && Explored(w, st) && st.failures == AllFailures(w, st.seen[..st.next])
  }

  lemma ScanKeepsProgress(w: World, early: bool, st: State)
    requires Progress(w, st) && st.next < |st.seen| && w.keyOf(st.seen[st.next].path) in w.imports
    ensures Progress(w, ScanNode(w, early, st))
  {
    var node := st.seen[st.next];
    var r := ScanNode(w, early, st);
    ScanKeepsExplored(w, early, st);
    ScanRecords(w, early, st);
  }

  lemma ScanRecords(w: World, early: bool, st: State)
    requires Sound(w, st) && st.next < |st.seen| && w.keyOf(st.seen[st.next].path) in w.imports
    requires st.failures == AllFailures(w, st.seen[..st.next])
    ensures var r := ScanNode(w, early, st); r.failures == AllFailures(w, r.seen[..r.next])
  {
    var node := st.seen[st.next];
    var r := ScanNode(w, early, st);
    ScanEffect(w, early, st);
    var nodes := r.seen[..r.next];
    assert nodes[..|nodes| - 1] == st.seen[..st.next] && nodes[|nodes| - 1] == node;
  }

  lemma {:induction false} WalkExplores(w: World, early: bool, st: State)
    requires Progress(w, st)
    ensures Progress(w, Walk(w, early, st).st)
    decreases w.imports.Keys - Keys(w, st.seen[..st.next])
  {
    if st.next < |st.seen| && !StopsAt(early, st) && w.keyOf(st.seen[st.next].path) in w.imports {
      ScanKeepsProgress(w, early, st);
      assert w.keyOf(st.seen[st.next].path) !in Keys(w, st.seen[..st.next]);
      WalkExplores(w, early, ScanNode(w, early, st));
    }
  }

  lemma {:induction false} WalkEnds(w: World, st: State)
    requires Sound(w, st)
    ensures var e := Walk(w, false, st);
            && (e.Finished? ==> e.st.next == |e.st.seen|)
            && (e.Aborted? ==> e.st.next < |e.st.seen| && e.at == e.st.seen[e.st.next])
            && (e.Aborted? ==> e.at in e.st.seen && w.keyOf(e.at.path) !in w.imports)
    decreases w.imports.Keys - Keys(w, st.seen[..st.next])
  {
    if st.next < |st.seen| && w.keyOf(st.seen[st.next].path) in w.imports {
      assert w.keyOf(st.seen[st.next].path) !in Keys(w, st.seen[..st.next]);
      WalkEnds(w, ScanNode(w, false, st));
    }
  }

  /** What holds at the end of every full walk. */
  lemma FullWalkEnds(w: World)
    ensures var e := Walk(w, false, Init(w));
            && Progress(w, e.st)
            && (e.Finished? ==> e.st.next == |e.st.seen| && e.st.seen[..e.st.next] == e.st.seen)
            && (e.Aborted? ==> e.st.next < |e.st.seen| && e.at == e.st.seen[e.st.next])
            && (e.Aborted? ==> e.at in e.st.seen && w.keyOf(e.at.path) !in w.imports)
  {
    RootPath(w);
    assert Progress(w, Init(w));
    WalkExplores(w, false, Init(w));
    WalkEnds(w, Init(w));
  }

  // ---------- the theorems ----------

  /** Every module at most `d` levels down is known, when all modules above that level have been
      scanned. */
  ghost predicate ScannedAbove(st: State, d: nat) {
    st.next <= |st.seen| && forall i :: 0 <= i < |st.seen| && st.seen[i].depth < d ==> i < st.next
  }

  lemma {:induction false} PathDepth(w: World, st: State, p: seq<Key>, d: nat)
    requires Sound(w, st) && Explored(w, st) && ScannedAbove(st, d) && IsPath(w, p) && |p| <= d + 1
    ensures exists m :: m in st.seen && w.keyOf(m.path) == p[|p| - 1] && m.depth <= |p| - 1
  {
    if |p| == 1 {
      assert st.seen[0] in st.seen;
    } else {
      var q := p[..|p| - 1];
      PathDepth(w, st, q, d);
      var m :| m in st.seen && w.keyOf(m.path) == q[|q| - 1] && m.depth <= |q| - 1;
      assert Edge(w, p[|p| - 2], p[|p| - 1]);
      var i :| 0 <= i < |st.seen| && st.seen[i] == m;
      assert TargetsSeen(w, st.seen, st.seen[i]);
    }
  }

  lemma FinishedIsClosed(w: World, st: State)
    requires Sound(w, st) && Explored(w, st) && st.next == |st.seen|
    ensures Closed(w, st.seen)
  {
    assert st.seen[0] in st.seen;
    forall a, b | a in Keys(w, st.seen) && Edge(w, a, b) ensures b in Keys(w, st.seen) {
      var n :| n in st.seen && w.keyOf(n.path) == a;
      var i :| 0 <= i < |st.seen| && st.seen[i] == n;
      assert TargetsSeen(w, st.seen, st.seen[i]);
    }
  }

  /** The full walk is exact. It scans every reachable module once and nothing else, labels
      each with its shortest distance from the root, and records, module by module in scan
      order, every failing import and nothing else. Depths stay below the number of modules. */
  lemma FullWalkIsExact(w: World, mode: EmitMode)
    requires !StopsEarly(mode) && Run(w, mode).Finished?
    ensures var st := Run(w, mode).st;
            && st.next == |st.seen| && DistinctKeys(w, st.seen)
            && (forall k :: Reachable(w, k) <==> k in Keys(w, st.seen))
            && (forall i :: 0 <= i < |st.seen| ==>
                  Distance(w, w.keyOf(st.seen[i].path), st.seen[i].depth) && st.seen[i].depth < |st.seen|)
            && st.failures == AllFailures(w, st.seen)
  {
    FullWalkEnds(w);
    var st := Run(w, mode).st;
    FinishedIsClosed(w, st);
    ClosedIsReachable(w, st.seen);
    forall i | 0 <= i < |st.seen| ensures Distance(w, w.keyOf(st.seen[i].path), st.seen[i].depth) {
      DepthIsDistance(w, st, i, st.seen[i].depth);
    }
  }

  /** A depth label is the shortest distance, down to the level that has been reached. */
  lemma DepthIsDistance(w: World, st: State, i: nat, d: nat)
    requires Sound(w, st) && Explored(w, st) && ScannedAbove(st, d) && i < |st.seen| && st.seen[i].depth <= d
    ensures Distance(w, w.keyOf(st.seen[i].path), st.seen[i].depth)
  {
    forall p | PathTo(w, p, w.keyOf(st.seen[i].path)) ensures st.seen[i].depth + 1 <= |p| {
      if |p| <= d {
        PathDepth(w, st, p, d);
        var m :| m in st.seen && w.keyOf(m.path) == p[|p| - 1] && m.depth <= |p| - 1;
        SameKeySameNode(w, st.seen, m, st.seen[i]);
      }
    }
  }

  /** Every module at distance `d` is known, and labelled so. */
  lemma NodeAtDistance(w: World, st: State, k: Key, d: nat) returns (i: nat)
    requires Sound(w, st) && Explored(w, st) && ScannedAbove(st, d) && Distance(w, k, d)
    ensures i < |st.seen| && w.keyOf(st.seen[i].path) == k && st.seen[i].depth == d
  {
    var p :| PathTo(w, p, k) && |p| == d + 1;
    PathDepth(w, st, p, d);
    var n :| n in st.seen && w.keyOf(n.path) == k && n.depth <= d;
    i :| 0 <= i < |st.seen| && st.seen[i] == n;
    DepthIsDistance(w, st, i, d);
    DistanceUnique(w, k, d, n.depth);
  }

  lemma SameKeySameNode(w: World, nodes: seq<Node>, m: Node, n: Node)
    requires DistinctKeys(w, nodes) && m in nodes && n in nodes && w.keyOf(m.path) == w.keyOf(n.path)
    ensures m == n
  {
  }

  /** The full walk fails exactly when some reachable module does not read and parse. */
  lemma FullWalkReturnsExactlyWhen(w: World, mode: EmitMode)
    requires !StopsEarly(mode)
    ensures Answer(Run(w, mode)).Ok? <==> forall k :: Reachable(w, k) ==> k in w.imports
  {
    FullWalkEnds(w);
    var e := Run(w, mode);
    if e.Finished? {
      FinishedIsClosed(w, e.st);
      ClosedIsReachable(w, e.st.seen);
      forall k | Reachable(w, k) ensures k in w.imports {
        var n :| n in e.st.seen && w.keyOf(n.path) == k;
        var i :| 0 <= i < |e.st.seen| && e.st.seen[i] == n;
      }
    } else {
      var i :| 0 <= i < |e.st.seen| && e.st.seen[i] == e.at;
      var p :| PathTo(w, p, w.keyOf(e.at.path)) && |p| == e.at.depth + 1;
      assert Reachable(w, w.keyOf(e.at.path));
    }
  }

  // ---------- which failures are recorded ----------

  /** `f` is what importing a name from module `n` fails with. */
  ghost predicate FailsAt(w: World, n: Node, f: Failure) {
    && f.dll in ImportsOf(w, w.keyOf(n.path))
    && var finding := Examine(w, n.depth == 0, f.dll);
       finding.Fail? && f == FailureFor(w, n, f.dll, finding)
  }

  lemma {:induction false} FailuresOfMembers(w: World, n: Node, dlls: seq<string>, f: Failure)
    ensures f in FailuresOf(w, n, dlls) <==>
              f.dll in dlls && Examine(w, n.depth == 0, f.dll).Fail?
              && f == FailureFor(w, n, f.dll, Examine(w, n.depth == 0, f.dll))
  {
    if dlls != [] { FailuresOfMembers(w, n, dlls[1..], f); }
  }

  lemma {:induction false} AllFailuresMembers(w: World, nodes: seq<Node>, f: Failure)
    ensures f in AllFailures(w, nodes) <==> exists i :: 0 <= i < |nodes| && FailsAt(w, nodes[i], f)
  {
    if nodes != [] {
      var init, last := nodes[..|nodes| - 1], nodes[|nodes| - 1];
      AllFailuresMembers(w, init, f);
      FailuresOfMembers(w, last, ImportsOf(w, w.keyOf(last.path)), f);
      if i :| 0 <= i < |init| && FailsAt(w, init[i], f) { assert FailsAt(w, nodes[i], f); }
      if FailsAt(w, last, f) { assert FailsAt(w, nodes[|nodes| - 1], f); }
      if i :| 0 <= i < |nodes| && FailsAt(w, nodes[i], f) {
        if i < |init| { assert FailsAt(w, init[i], f); }
      }
    }
  }

  /** An import of module `k` that the walk must report: not an API set, not runtime-observed
      at the root, and resolved to nothing or to a bad image. */
  ghost predicate FailingImport(w: World, k: Key, dll: string, kind: Kind) {
    && dll in ImportsOf(w, k)
    && !NamesApiSet(dll)
    && !(k == w.keyOf(w.root) && dll in w.runtimeLoaded)
    && kind == w.resolve(dll).kind
    && kind != Found
  }

  lemma FailsAtIsFailingImport(w: World, st: State, i: nat, f: Failure)
    requires Sound(w, st) && Explored(w, st) && i < |st.seen|
    ensures FailsAt(w, st.seen[i], f)
       <==> FailingImport(w, w.keyOf(st.seen[i].path), f.dll, f.kind)
            && f == FailureFor(w, st.seen[i], f.dll, Fail(f.kind, w.resolve(f.dll).candidates))
  {
    OnlyRootAtDepthZero(w, st, i);
    ApiSetByPrefix(f.dll);
  }

  /** `f` is the failure to report for an import of the module found at `path`. */
  ghost predicate Reports(w: World, path: Path, f: Failure) {
    && f.depth > 0
    && Distance(w, w.keyOf(path), f.depth - 1)
    && FailingImport(w, w.keyOf(path), f.dll, f.kind)
    && f.via == w.nameOf(path)
    && f.candidates == w.resolve(f.dll).candidates
  }

  /** Paths to the same module have the same file name. */
  ghost predicate NamesByKey(w: World) {
    forall p: Path, q: Path :: w.keyOf(p) == w.keyOf(q) ==> w.nameOf(p) == w.nameOf(q)
  }

  lemma FailsAtReports(w: World, st: State, i: nat, f: Failure)
    requires Sound(w, st) && Explored(w, st) && i < |st.seen| && ScannedAbove(st, st.seen[i].depth)
    ensures FailsAt(w, st.seen[i], f) <==> f.depth == st.seen[i].depth + 1 && Reports(w, st.seen[i].path, f)
  {
    FailsAtIsFailingImport(w, st, i, f);
    DepthIsDistance(w, st, i, st.seen[i].depth);
  }

  /** The failure list, stated on the graph. A failure is recorded exactly when it is the one to
      report for a failing import of some scanned module, under the path the module was first
      found at; which path that is does not matter where names depend on the module alone. */
  lemma RecordedFailures(w: World, mode: EmitMode, f: Failure)
    requires !StopsEarly(mode) && Answer(Run(w, mode)).Ok?
    ensures var seen, failures := Run(w, mode).st.seen, Answer(Run(w, mode)).value.failures;
            && (f in failures <==> exists i :: 0 <= i < |seen| && Reports(w, seen[i].path, f))
            && (NamesByKey(w) ==> (f in failures <==> exists path :: Reports(w, path, f)))
  {
    FullWalkEnds(w);
    var st := Run(w, mode).st;
    AllFailuresMembers(w, st.seen, f);
    forall i | 0 <= i < |st.seen| ensures FailsAt(w, st.seen[i], f) <==> Reports(w, st.seen[i].path, f) {
      FailsAtReports(w, st, i, f);
      DepthIsDistance(w, st, i, st.seen[i].depth);
      if Reports(w, st.seen[i].path, f) {
        DistanceUnique(w, w.keyOf(st.seen[i].path), f.depth - 1, st.seen[i].depth);
      }
    }
    if path :| NamesByKey(w) && Reports(w, path, f) {
      var i := NodeAtDistance(w, st, w.keyOf(path), f.depth - 1);
      assert Reports(w, st.seen[i].path, f);
    }
  }

  /** A name fails with `kind` at depth `d` exactly when a module at distance `d - 1` has that
      failing import. */
  lemma FailuresByDistance(w: World, mode: EmitMode, dll: string, kind: Kind, d: nat)
    requires !StopsEarly(mode) && Answer(Run(w, mode)).Ok?
    ensures (exists f :: f in Answer(Run(w, mode)).value.failures && f.dll == dll && f.kind == kind && f.depth == d)
       <==> (d > 0 && exists k :: Distance(w, k, d - 1) && FailingImport(w, k, dll, kind))
  {
    FullWalkEnds(w);
    var st := Run(w, mode).st;
    if f :| f in st.failures && f.dll == dll && f.kind == kind && f.depth == d {
      RecordedFailures(w, mode, f);
    }
    if d > 0 {
      if k :| Distance(w, k, d - 1) && FailingImport(w, k, dll, kind) {
        var i := NodeAtDistance(w, st, k, d - 1);
        var f := Failure(dll, w.nameOf(st.seen[i].path), d, kind, w.resolve(dll).candidates);
        assert Reports(w, st.seen[i].path, f);
        RecordedFailures(w, mode, f);
      }
    }
  }

  /** The module that an import of the root leads to is at distance 1, unless it is the root. */
  lemma ImportIsAtDistanceOne(w: World, dll: string, path: Path)
    requires dll in ImportsOf(w, w.keyOf(w.root)) && LeadsTo(w, true, dll, path)
    requires w.keyOf(path) != w.keyOf(w.root)
    ensures Distance(w, w.keyOf(path), 1)
  {
    var root, k := w.keyOf(w.root), w.keyOf(path);
    assert Leads(w, true, dll, k);
    assert Edge(w, root, k);
    RootPath(w);
    ExtendPath(w, root, k, 0);
    forall p | PathTo(w, p, k) ensures 2 <= |p| {
      assert p[0] == root;
    }
  }

  /** What is missing beneath a module of the root is reported: a DLL that the root imports and
      the debugger saw loaded is walked at the path it was seen at (or, seen at none, where the
      search would choose), and any other one where the search finds it; every failing import of
      that module is recorded at depth 2. */
  lemma ModuleOfRootIsWalked(w: World, mode: EmitMode, dll: string, path: Path, below: string, kind: Kind)
    requires !StopsEarly(mode) && Answer(Run(w, mode)).Ok?
    requires dll in ImportsOf(w, w.keyOf(w.root)) && !NamesApiSet(dll) && w.keyOf(path) != w.keyOf(w.root)
    requires if dll !in w.runtimeLoaded then w.resolve(dll).kind == Found && w.resolve(dll).chosen == Some(path)
             else if dll !in w.runtimeObserved then w.resolve(dll).chosen == Some(path)
             else w.runtimeObserved[dll] == path
    requires FailingImport(w, w.keyOf(path), below, kind)
    ensures exists f :: f in Answer(Run(w, mode)).value.failures && f.dll == below && f.kind == kind && f.depth == 2
  {
    ImportIsAtDistanceOne(w, dll, path);
    FailuresByDistance(w, mode, below, kind, 2);
  }

  // ---------- when the early stop fails ----------

  /** A module at distance `d` does not read or parse, and nothing above it has a failing import. */
  ghost predicate BrokenAt(w: World, k: Key, d: nat) {
    && Distance(w, k, d) && k !in w.imports
    && forall a, e: nat, dll, kind :: e < d && Distance(w, a, e) ==> !FailingImport(w, a, dll, kind)
  }

  /** Up to where a full walk is aborted, the levels above are complete. */
  lemma AbortedScannedAbove(w: World)
    requires Walk(w, false, Init(w)).Aborted?
    ensures var e := Walk(w, false, Init(w)); ScannedAbove(e.st, e.at.depth)
  {
    FullWalkEnds(w);
  }

  /** A failing import of a scanned module bounds the first issue. */
  lemma FailingBoundsFirst(w: World, st: State, i: nat, dll: string, kind: Kind)
    requires Progress(w, st) && IsLeast(st.first, st.failures) && i < st.next
    requires FailingImport(w, w.keyOf(st.seen[i].path), dll, kind)
    ensures st.first.Some? && st.first.value.depth <= st.seen[i].depth + 1
  {
    var f := FailureFor(w, st.seen[i], dll, Fail(kind, w.resolve(dll).candidates));
    FailsAtIsFailingImport(w, st, i, f);
    AllFailuresMembers(w, st.seen[..st.next], f);
    assert FailsAt(w, st.seen[..st.next][i], f);
    assert f in st.failures;
  }

  lemma AbortIsBroken(w: World)
    requires var e := Walk(w, false, Init(w));
             e.Aborted? && (e.st.first.None? || e.at.depth < e.st.first.value.depth)
    ensures var e := Walk(w, false, Init(w)); BrokenAt(w, w.keyOf(e.at.path), e.at.depth)
  {
    FullWalkEnds(w);
    AbortedScannedAbove(w);
    FirstIsLeast(w, false, Init(w));
    var e := Walk(w, false, Init(w));
    var st, d := e.st, e.at.depth;
    DepthIsDistance(w, st, st.next, d);
    forall a, l: nat, dll, kind | l < d && Distance(w, a, l) ensures !FailingImport(w, a, dll, kind) {
      if FailingImport(w, a, dll, kind) {
        var i := NodeAtDistance(w, st, a, l);
        FailingBoundsFirst(w, st, i, dll, kind);
      }
    }
  }

  /** The first issue is a failing import of a scanned module one level above it. */
  lemma FirstIssueImporter(w: World, st: State) returns (j: nat)
    requires Progress(w, st) && IsLeast(st.first, st.failures) && st.first.Some?
    ensures j < st.next && st.first.value.depth == st.seen[j].depth + 1
    ensures FailingImport(w, w.keyOf(st.seen[j].path), st.first.value.dll, st.first.value.kind)
  {
    var f := st.first.value;
    AllFailuresMembers(w, st.seen[..st.next], f);
    j :| 0 <= j < st.next && FailsAt(w, st.seen[..st.next][j], f);
    FailsAtIsFailingImport(w, st, j, f);
  }

  /** No module of a completely scanned level is broken. */
  lemma BrokenIsBelow(w: World, st: State, l: nat, k: Key, d: nat)
    requires Sound(w, st) && Explored(w, st) && ScannedAbove(st, l) && BrokenAt(w, k, d)
    ensures d >= l
  {
    if d < l {
      var i := NodeAtDistance(w, st, k, d);
      assert false;
    }
  }

  lemma BrokenIsAbort(w: World, k: Key, d: nat)
    requires BrokenAt(w, k, d)
    ensures var e := Walk(w, false, Init(w));
            e.Aborted? && (e.st.first.None? || e.at.depth < e.st.first.value.depth)
  {
    FullWalkReturnsExactlyWhen(w, CollectOnly);
    assert Reachable(w, k);
    AbortedScannedAbove(w);
    FullWalkEnds(w);
    FirstIsLeast(w, false, Init(w));
    var e := Walk(w, false, Init(w));
    if e.st.first.Some? && e.st.first.value.depth <= e.at.depth {
      var j := FirstIssueImporter(w, e.st);
      BrokenIsBelow(w, e.st, e.at.depth, k, d);
      DepthIsDistance(w, e.st, j, e.st.seen[j].depth);
    }
  }

  /** When the stopping walk fails: exactly when some module does not read or parse and no module
      nearer to the root has a failing import; and then with the error of the full walk. A
      module that does not parse below a failing import is not noticed. */
  lemma EarlyStopFailsExactlyWhen(w: World, full: EmitMode, stop: EmitMode)
    requires !StopsEarly(full) && StopsEarly(stop)
    ensures Answer(Run(w, stop)).Err? <==> exists k, d :: BrokenAt(w, k, d)
    ensures Answer(Run(w, stop)).Err? ==> Answer(Run(w, stop)) == Answer(Run(w, full))
    ensures Run(w, full).Aborted? && Answer(Run(w, stop)).Ok? ==>
              Answer(Run(w, stop)).value.first == Run(w, full).st.first
  {
    StopAgainstFull(w, full, stop);
    if Answer(Run(w, stop)).Err? {
      AbortIsBroken(w);
    }
    if k, d :| BrokenAt(w, k, d) {
      BrokenIsAbort(w, k, d);
    }
  }

  lemma DistanceUnique(w: World, k: Key, d: nat, e: nat)
    requires Distance(w, k, d) && Distance(w, k, e)
    ensures d == e
  {
    var p :| PathTo(w, p, k) && |p| == d + 1;
    var q :| PathTo(w, q, k) && |q| == e + 1;
  }
}
