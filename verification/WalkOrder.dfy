/**
 The worklist order does not matter to the verdict: the last-in-first-out walk of
 `MockFileSystem::walk_dependencies` (src/com/fs.rs), which stands in for the real walk
 behind the COM resolver, records the same failures as the first-in-first-out walk.
 */
module WalkOrder {
  import opened Search
  import opened ImportWalk
  import opened WalkEarlyStop
  import opened WalkExact

  // ---------- the last-in-first-out walk over a world ----------

  datatype Lifo = Lifo(scanned: seq<Node>, stack: seq<Node>, visited: set<Key>, failures: seq<Failure>)

  function LifoInit(w: World): Lifo {
    Lifo([], [Node(w.root, 0)], {w.keyOf(w.root)}, [])
  }

  function LifoScanOne(w: World, node: Node, dll: string, st: Lifo): Lifo {
    var finding := Examine(w, node.depth == 0, dll);
    match finding
    case Skip => st
    case Follow(path) =>
      if w.keyOf(path) in st.visited then st
      else st.(visited := st.visited + {w.keyOf(path)}, stack := st.stack + [Node(path, node.depth + 1)])
    case Fail(_, _) => st.(failures := st.failures + [FailureFor(w, node, dll, finding)])
  }

  function LifoScan(w: World, node: Node, dlls: seq<string>, st: Lifo): Lifo {
    if dlls == [] then st else LifoScan(w, node, dlls[1..], LifoScanOne(w, node, dlls[0], st))
  }

  ghost predicate LifoSound(w: World, st: Lifo) {
    DistinctKeys(w, st.scanned + st.stack) && st.visited == Keys(w, st.scanned + st.stack)
  }

  /** Moving the popped node from the stack to the scanned list. */
  function LifoPop(st: Lifo): Lifo
    requires st.stack != []
  {
    st.(scanned := st.scanned + [st.stack[|st.stack| - 1]], stack := st.stack[..|st.stack| - 1])
  }

  /** `b` is `a` with its last node moved to position `n`. */
  predicate LastMovedTo(a: seq<Node>, b: seq<Node>, n: nat) {
    && n < |a| == |b|
    && (forall i :: 0 <= i < n ==> b[i] == a[i])
    && b[n] == a[|a| - 1]
    && (forall i :: n <= i < |a| - 1 ==> b[i + 1] == a[i])
  }

  lemma MovedKeepsDistinct(w: World, a: seq<Node>, b: seq<Node>, n: nat)
    requires LastMovedTo(a, b, n) && DistinctKeys(w, a)
    ensures DistinctKeys(w, b)
  {
    forall i, j | 0 <= i < j < |b| ensures w.keyOf(b[i].path) != w.keyOf(b[j].path) {
      var i', j' := MovedFrom(a, b, n, i), MovedFrom(a, b, n, j);
      assert b[i] == a[i'] && b[j] == a[j'] && i' != j';
    }
  }

  function MovedFrom(a: seq<Node>, b: seq<Node>, n: nat, i: nat): (k: nat)
    requires LastMovedTo(a, b, n) && i < |b|
    ensures k < |a| && b[i] == a[k] && k == if i < n then i else if i == n then |a| - 1 else i - 1
  {
    if i < n then i
    else if i == n then |a| - 1
    else
      assert b[(i - 1) + 1] == a[i - 1];
      i - 1
  }

  lemma MovedKeepsKeys(w: World, a: seq<Node>, b: seq<Node>, n: nat)
    requires LastMovedTo(a, b, n)
    ensures Keys(w, a) == Keys(w, b)
  {
    forall x ensures x in a <==> x in b {
      if x in a {
        var i :| 0 <= i < |a| && a[i] == x;
        assert b[if i < n then i else if i == |a| - 1 then n else i + 1] == x;
      }
      if x in b {
        var i :| 0 <= i < |b| && b[i] == x;
        assert a[MovedFrom(a, b, n, i)] == x;
      }
    }
  }

  lemma LifoPopSound(w: World, st: Lifo)
    requires LifoSound(w, st) && st.stack != []
    ensures LifoSound(w, LifoPop(st))
  {
    var a, b := st.scanned + st.stack, LifoPop(st).scanned + LifoPop(st).stack;
    assert LastMovedTo(a, b, |st.scanned|);
    MovedKeepsDistinct(w, a, b, |st.scanned|);
    MovedKeepsKeys(w, a, b, |st.scanned|);
  }

  lemma {:induction false} LifoScanSound(w: World, node: Node, dlls: seq<string>, st: Lifo)
    requires LifoSound(w, st)
    ensures var r := LifoScan(w, node, dlls, st);
            LifoSound(w, r) && r.scanned == st.scanned && st.stack <= r.stack
  {
    if dlls != [] {
      var st' := LifoScanOne(w, node, dlls[0], st);
      LifoScanOneSound(w, node, dlls[0], st);
      LifoScanSound(w, node, dlls[1..], st');
    }
  }

  lemma LifoScanOneSound(w: World, node: Node, dll: string, st: Lifo)
    requires LifoSound(w, st)
    ensures LifoSound(w, LifoScanOne(w, node, dll, st))
  {
    var r := LifoScanOne(w, node, dll, st);
    if r.stack != st.stack {
      var a, b := st.scanned + st.stack, r.scanned + r.stack;
      assert b == a + [r.stack[|r.stack| - 1]];
    }
  }

  ghost function LifoScanNode(w: World, st: Lifo): (r: Lifo)
    requires LifoSound(w, st) && st.stack != []
    ensures LifoSound(w, r) && r.scanned == st.scanned + [st.stack[|st.stack| - 1]]
  {
    var node := st.stack[|st.stack| - 1];
    LifoPopSound(w, st);
    LifoScanSound(w, node, ImportsOf(w, w.keyOf(node.path)), LifoPop(st));
    LifoScan(w, node, ImportsOf(w, w.keyOf(node.path)), LifoPop(st))
  }

  lemma LifoMakesProgress(w: World, st: Lifo)
    requires LifoSound(w, st) && st.stack != []
    ensures var k := w.keyOf(st.stack[|st.stack| - 1].path);
            && k !in Keys(w, st.scanned)
            && Keys(w, LifoScanNode(w, st).scanned) == Keys(w, st.scanned) + {k}
  {
    var a, m := st.scanned + st.stack, |st.scanned| + |st.stack| - 1;
    assert a[m] == st.stack[|st.stack| - 1];
    forall n | n in st.scanned ensures w.keyOf(n.path) != w.keyOf(a[m].path) {
      var i :| 0 <= i < |st.scanned| && st.scanned[i] == n;
      assert a[i] == n;
    }
  }

  datatype LifoEnding = LifoFinished(st: Lifo) | LifoAborted(at: Node)

  ghost function LifoWalk(w: World, st: Lifo): LifoEnding
    requires LifoSound(w, st)
    decreases w.imports.Keys - Keys(w, st.scanned)
  {
    if st.stack == [] then LifoFinished(st)
    else
      var node := st.stack[|st.stack| - 1];
      if w.keyOf(node.path) !in w.imports then LifoAborted(node)
      else
        LifoMakesProgress(w, st);
        LifoWalk(w, LifoScanNode(w, st))
  }

  // ---------- what it has established at every pop ----------

  /** A node sits at the length of some path, at zero exactly for the root. */
  ghost predicate WellPlaced(w: World, n: Node) {
    PathOfLength(w, w.keyOf(n.path), n.depth) && (n.depth == 0 <==> w.keyOf(n.path) == w.keyOf(w.root))
  }

  ghost predicate LifoExplored(w: World, st: Lifo) {
    && LifoSound(w, st)
    && w.keyOf(w.root) in st.visited
    && (forall n :: n in st.scanned || n in st.stack ==> WellPlaced(w, n))
    && (forall n :: n in st.scanned ==> w.keyOf(n.path) in w.imports)
    && (forall n, b :: n in st.scanned && Edge(w, w.keyOf(n.path), b) ==> b in st.visited)
    && st.failures == AllFailures(w, st.scanned)
  }

  lemma {:induction false} LifoScanEffect(w: World, node: Node, dlls: seq<string>, st: Lifo)
    ensures var r := LifoScan(w, node, dlls, st);
            && r.failures == st.failures + FailuresOf(w, node, dlls)
            && st.visited <= r.visited
            && (forall b :: TargetOf(w, node.depth == 0, dlls, b) ==> b in r.visited)
  {
    if dlls != [] {
      var st' := LifoScanOne(w, node, dlls[0], st);
      LifoScanEffect(w, node, dlls[1..], st');
      var fs' := FailuresOf(w, node, dlls[1..]);
      var finding := Examine(w, node.depth == 0, dlls[0]);
      if finding.Fail? {
        assert st'.failures + fs' == st.failures + ([FailureFor(w, node, dlls[0], finding)] + fs');
      } else {
        assert st'.failures + fs' == st.failures + ([] + fs');
      }
      forall b | TargetOf(w, node.depth == 0, dlls, b) ensures b in LifoScan(w, node, dlls, st).visited {
        var dll :| dll in dlls && Leads(w, node.depth == 0, dll, b);
        LeadsByExamining(w, node.depth == 0, dll, b);
        if dll == dlls[0] { assert b in st'.visited; }
        else { assert dll in dlls[1..]; assert TargetOf(w, node.depth == 0, dlls[1..], b); }
      }
    }
  }

  /** Every node the scan pushes is a target of the scanned module, one level down, and not the root. */
  lemma {:induction false} LifoScanPushes(w: World, node: Node, dlls: seq<string>, st: Lifo)
    requires w.keyOf(w.root) in st.visited
    ensures var r := LifoScan(w, node, dlls, st);
            forall n :: n in r.stack && n !in st.stack ==>
              && TargetOf(w, node.depth == 0, dlls, w.keyOf(n.path))
              && n.depth == node.depth + 1 && w.keyOf(n.path) != w.keyOf(w.root)
  {
    if dlls != [] {
      var st' := LifoScanOne(w, node, dlls[0], st);
      var r := LifoScan(w, node, dlls, st);
      LifoScanPushes(w, node, dlls[1..], st');
      forall n | n in r.stack && n !in st.stack
        ensures TargetOf(w, node.depth == 0, dlls, w.keyOf(n.path))
             && n.depth == node.depth + 1 && w.keyOf(n.path) != w.keyOf(w.root)
      {
        if n in st'.stack {
          LeadsByExamining(w, node.depth == 0, dlls[0], w.keyOf(n.path));
          assert dlls[0] in dlls && Leads(w, node.depth == 0, dlls[0], w.keyOf(n.path));
        } else {
          var dll :| dll in dlls[1..] && Leads(w, node.depth == 0, dll, w.keyOf(n.path));
          assert dll in dlls;
        }
      }
    }
  }

  lemma LifoPlacesNodes(w: World, st: Lifo)
    requires LifoExplored(w, st) && st.stack != []
    ensures var r := LifoScanNode(w, st);
            forall n :: n in r.scanned || n in r.stack ==> WellPlaced(w, n)
  {
    var node, r, p := st.stack[|st.stack| - 1], LifoScanNode(w, st), LifoPop(st);
    var k := w.keyOf(node.path);
    LifoScanPushes(w, node, ImportsOf(w, k), p);
    assert WellPlaced(w, node);
    assert (node.depth == 0) == (k == w.keyOf(w.root));
    forall n | n in r.stack && n !in p.stack ensures WellPlaced(w, n) {
      assert Edge(w, k, w.keyOf(n.path));
      ExtendPath(w, k, w.keyOf(n.path), node.depth);
    }
  }

  lemma LifoScanReaches(w: World, st: Lifo)
    requires LifoExplored(w, st) && st.stack != []
    requires w.keyOf(st.stack[|st.stack| - 1].path) in w.imports
    ensures var r := LifoScanNode(w, st);
            && w.keyOf(w.root) in r.visited
            && (forall n, b :: n in r.scanned && Edge(w, w.keyOf(n.path), b) ==> b in r.visited)
  {
    var node, r, p := st.stack[|st.stack| - 1], LifoScanNode(w, st), LifoPop(st);
    LifoScanEffect(w, node, w.imports[w.keyOf(node.path)], p);
    assert WellPlaced(w, node);
    forall n, b | n in r.scanned && Edge(w, w.keyOf(n.path), b) ensures b in r.visited {
      if n in st.scanned { assert b in st.visited; }
    }
  }

  lemma LifoScanFailures(w: World, st: Lifo)
    requires LifoExplored(w, st) && st.stack != []
    requires w.keyOf(st.stack[|st.stack| - 1].path) in w.imports
    ensures LifoScanNode(w, st).failures == AllFailures(w, LifoScanNode(w, st).scanned)
  {
    var node, r := st.stack[|st.stack| - 1], LifoScanNode(w, st);
    LifoScanEffect(w, node, w.imports[w.keyOf(node.path)], LifoPop(st));
    assert r.scanned[..|r.scanned| - 1] == st.scanned;
  }

  lemma LifoKeepsExplored(w: World, st: Lifo)
    requires LifoExplored(w, st) && st.stack != []
    requires w.keyOf(st.stack[|st.stack| - 1].path) in w.imports
    ensures LifoExplored(w, LifoScanNode(w, st))
  {
    LifoPlacesNodes(w, st);
    LifoScanReaches(w, st);
    LifoScanFailures(w, st);
  }

  lemma {:induction false} LifoWalkExplores(w: World, st: Lifo)
    requires LifoExplored(w, st)
    ensures var e := LifoWalk(w, st);
            && (e.LifoFinished? ==> LifoExplored(w, e.st) && e.st.stack == [])
            && (e.LifoAborted? ==> Reachable(w, w.keyOf(e.at.path)) && w.keyOf(e.at.path) !in w.imports)
    decreases w.imports.Keys - Keys(w, st.scanned)
  {
    if st.stack != [] {
      var node := st.stack[|st.stack| - 1];
      if w.keyOf(node.path) in w.imports {
        LifoMakesProgress(w, st);
        LifoKeepsExplored(w, st);
        LifoWalkExplores(w, LifoScanNode(w, st));
      } else {
        assert WellPlaced(w, node);
        var p :| PathTo(w, p, w.keyOf(node.path)) && |p| == node.depth + 1;
      }
    }
  }

  lemma LifoExploredIsClosed(w: World, st: Lifo)
    requires LifoExplored(w, st) && st.stack == []
    ensures Closed(w, st.scanned)
  {
    assert st.scanned + st.stack == st.scanned;
  }

  // ---------- failures as a multiset ----------

  /** A failure without its depth and its trace candidates, and without its importer as well. */
  datatype Signature = Signature(dll: string, via: string, kind: Kind)

  datatype Mark = Mark(dll: string, kind: Kind)

  function SignatureOf(f: Failure): Signature {
    Signature(f.dll, f.via, f.kind)
  }

  function MarkOf(f: Failure): Mark {
    Mark(f.dll, f.kind)
  }

  ghost function Views<T>(fs: seq<Failure>, view: Failure -> T): seq<T> {
    if fs == [] then [] else [view(fs[0])] + Views(fs[1..], view)
  }

  /** The two lists look alike, in whatever order. */
  ghost predicate LookAlike<T>(a: seq<Failure>, b: seq<Failure>, view: Failure -> T) {
    multiset(Views(a, view)) == multiset(Views(b, view))
  }

  lemma {:induction false} ViewsConcat<T>(a: seq<Failure>, b: seq<Failure>, view: Failure -> T)
    ensures multiset(Views(a + b, view)) == multiset(Views(a, view)) + multiset(Views(b, view))
  {
    if a == [] {
      assert a + b == b;
    } else {
      assert (a + b)[1..] == a[1..] + b;
      ViewsConcat(a[1..], b, view);
    }
  }

  ghost function NodeViews<T>(w: World, n: Node, view: Failure -> T): multiset<T> {
    multiset(Views(FailuresOf(w, n, ImportsOf(w, w.keyOf(n.path))), view))
  }

  ghost function TotalViews<T>(w: World, nodes: seq<Node>, view: Failure -> T): multiset<T> {
    if nodes == [] then multiset{}
    else TotalViews(w, nodes[..|nodes| - 1], view) + NodeViews(w, nodes[|nodes| - 1], view)
  }

  lemma {:induction false} AllFailuresViews<T>(w: World, nodes: seq<Node>, view: Failure -> T)
    ensures multiset(Views(AllFailures(w, nodes), view)) == TotalViews(w, nodes, view)
  {
    if nodes != [] {
      var init, last := nodes[..|nodes| - 1], nodes[|nodes| - 1];
      AllFailuresViews(w, init, view);
      ViewsConcat(AllFailures(w, init), FailuresOf(w, last, ImportsOf(w, w.keyOf(last.path))), view);
    }
  }

  lemma TotalPush<T>(w: World, nodes: seq<Node>, n: Node, view: Failure -> T)
    ensures TotalViews(w, nodes + [n], view) == TotalViews(w, nodes, view) + NodeViews(w, n, view)
  {
    var longer := nodes + [n];
    assert longer[..|longer| - 1] == nodes && longer[|longer| - 1] == n;
  }

  lemma {:induction false} TotalConcat<T>(w: World, a: seq<Node>, b: seq<Node>, view: Failure -> T)
    ensures TotalViews(w, a + b, view) == TotalViews(w, a, view) + TotalViews(w, b, view)
  {
    if b == [] {
      assert a + b == a;
    } else {
      var init, last := b[..|b| - 1], b[|b| - 1];
      assert b == init + [last] && a + b == (a + init) + [last];
      TotalConcat(w, a, init, view);
      TotalPush(w, init, last, view);
      TotalPush(w, a + init, last, view);
    }
  }

  lemma TotalWithout<T>(w: World, nodes: seq<Node>, j: nat, view: Failure -> T)
    requires j < |nodes|
    ensures TotalViews(w, nodes, view)
         == TotalViews(w, nodes[..j] + nodes[j + 1..], view) + NodeViews(w, nodes[j], view)
  {
    assert nodes == nodes[..j + 1] + nodes[j + 1..];
    assert nodes[..j + 1][..j] == nodes[..j];
    TotalConcat(w, nodes[..j + 1], nodes[j + 1..], view);
    TotalConcat(w, nodes[..j], nodes[j + 1..], view);
  }

  ghost predicate RootAtZero(w: World, nodes: seq<Node>) {
    forall n :: n in nodes ==> (n.depth == 0 <==> w.keyOf(n.path) == w.keyOf(w.root))
  }

  /** The view does not tell how deep a module was found, nor on which of its paths. */
  ghost predicate SeesModules<T(!new)>(w: World, view: Failure -> T) {
    forall m: Node, n: Node, dll, finding: Finding ::
      w.keyOf(m.path) == w.keyOf(n.path) && finding.Fail? ==>
        view(FailureFor(w, m, dll, finding)) == view(FailureFor(w, n, dll, finding))
  }

  lemma MarksSeeModules(w: World)
    ensures SeesModules(w, MarkOf)
  {
  }

  lemma SignaturesSeeModules(w: World)
    requires NamesByKey(w)
    ensures SeesModules(w, SignatureOf)
  {
  }

  lemma {:induction false} ViewsIgnoreDepth<T(!new)>(
    w: World, m: Node, n: Node, dlls: seq<string>, view: Failure -> T)
    requires SeesModules(w, view) && w.keyOf(m.path) == w.keyOf(n.path) && (m.depth == 0 <==> n.depth == 0)
    ensures Views(FailuresOf(w, m, dlls), view) == Views(FailuresOf(w, n, dlls), view)
  {
    if dlls != [] {
      ViewsIgnoreDepth(w, m, n, dlls[1..], view);
      var finding := Examine(w, m.depth == 0, dlls[0]);
      var fm, fn := FailuresOf(w, m, dlls[1..]), FailuresOf(w, n, dlls[1..]);
      if finding.Fail? {
        assert ([FailureFor(w, m, dlls[0], finding)] + fm)[1..] == fm;
        assert ([FailureFor(w, n, dlls[0], finding)] + fn)[1..] == fn;
      } else {
        assert [] + fm == fm && [] + fn == fn;
      }
    }
  }

  lemma RemoveKeepsDistinct(w: World, nodes: seq<Node>, j: nat)
    requires DistinctKeys(w, nodes) && j < |nodes|
    ensures DistinctKeys(w, nodes[..j] + nodes[j + 1..])
    ensures Keys(w, nodes[..j] + nodes[j + 1..]) == Keys(w, nodes) - {w.keyOf(nodes[j].path)}
    ensures forall n :: n in nodes[..j] + nodes[j + 1..] ==> n in nodes
  {
    var rest := nodes[..j] + nodes[j + 1..];
    assert forall i :: 0 <= i < |rest| ==> rest[i] == nodes[if i < j then i else i + 1];
    forall k | k in Keys(w, nodes) - {w.keyOf(nodes[j].path)} ensures k in Keys(w, rest) {
      var n :| n in nodes && w.keyOf(n.path) == k;
      var i :| 0 <= i < |nodes| && nodes[i] == n;
      assert rest[if i < j then i else i - 1] == n;
    }
  }

  lemma KeysEmpty(w: World, nodes: seq<Node>)
    ensures Keys(w, nodes) == {} <==> nodes == []
  {
    if nodes != [] { assert nodes[0] in nodes; assert w.keyOf(nodes[0].path) in Keys(w, nodes); }
  }

  /** The same modules fail alike, whatever the order they were scanned in. */
  lemma {:induction false} OrderIsIrrelevant<T(!new)>(w: World, a: seq<Node>, b: seq<Node>, view: Failure -> T)
    requires SeesModules(w, view) && DistinctKeys(w, a) && DistinctKeys(w, b) && Keys(w, a) == Keys(w, b)
    requires RootAtZero(w, a) && RootAtZero(w, b)
    ensures TotalViews(w, a, view) == TotalViews(w, b, view)
  {
    KeysEmpty(w, a);
    KeysEmpty(w, b);
    if a != [] {
      var i := |a| - 1;
      assert w.keyOf(a[i].path) in Keys(w, b);
      var n :| n in b && w.keyOf(n.path) == w.keyOf(a[i].path);
      var j :| 0 <= j < |b| && b[j] == n;
      RemoveKeepsDistinct(w, a, i);
      RemoveKeepsDistinct(w, b, j);
      assert a[..i] + a[i + 1..] == a[..i];
      OrderIsIrrelevant(w, a[..i], b[..j] + b[j + 1..], view);
      TotalWithout(w, b, j, view);
      ViewsIgnoreDepth(w, a[i], b[j], ImportsOf(w, w.keyOf(a[i].path)), view);
    }
  }

  // ---------- the theorem ----------

  lemma LifoEnds(w: World)
    ensures LifoSound(w, LifoInit(w))
    ensures var e := LifoWalk(w, LifoInit(w));
            && (e.LifoFinished? ==> LifoExplored(w, e.st) && e.st.stack == [])
            && (e.LifoAborted? ==> Reachable(w, w.keyOf(e.at.path)) && w.keyOf(e.at.path) !in w.imports)
  {
    RootPath(w);
    LifoWalkExplores(w, LifoInit(w));
  }

  ghost function LifoRun(w: World): LifoEnding {
    LifoEnds(w);
    LifoWalk(w, LifoInit(w))
  }

  /** Last-in-first-out returns exactly when first-in-first-out does; then both record the same
      multiset of (name, kind), and with the importers' names where a module has one name; and
      each module's last-in-first-out depth is at least its first-in-first-out depth. */
  lemma WorklistOrderKeepsVerdict(w: World)
    ensures LifoRun(w).LifoFinished? <==> Run(w, CollectOnly).Finished?
    ensures LifoRun(w).LifoFinished? ==>
              var lifo, fifo := LifoRun(w).st, Run(w, CollectOnly).st;
              && LookAlike(lifo.failures, fifo.failures, MarkOf)
              && (NamesByKey(w) ==> LookAlike(lifo.failures, fifo.failures, SignatureOf))
              && |lifo.failures| == |fifo.failures|
              && (forall m, n :: m in fifo.seen && n in lifo.scanned && w.keyOf(m.path) == w.keyOf(n.path) ==>
                    m.depth <= n.depth)
  {
    LifoEnds(w);
    FullWalkReturnsExactlyWhen(w, CollectOnly);
    var e := LifoRun(w);
    if e.LifoFinished? {
      LifoExploredIsClosed(w, e.st);
      ClosedIsReachable(w, e.st.scanned);
      FullWalkEnds(w);
      var fifo := Run(w, CollectOnly).st;
      FailAlike(w, fifo, e.st);
      forall m, n | m in fifo.seen && n in e.st.scanned && w.keyOf(m.path) == w.keyOf(n.path)
        ensures m.depth <= n.depth
      {
        LifoIsNoShallower(w, fifo, e.st, m, n);
      }
    }
  }

  lemma SameModules(w: World, fifo: State, lifo: Lifo)
    requires Progress(w, fifo) && fifo.next == |fifo.seen|
    requires LifoExplored(w, lifo) && lifo.stack == []
    ensures DistinctKeys(w, lifo.scanned) && Keys(w, fifo.seen) == Keys(w, lifo.scanned)
    ensures RootAtZero(w, fifo.seen) && RootAtZero(w, lifo.scanned)
  {
    assert lifo.scanned + lifo.stack == lifo.scanned;
    FinishedIsClosed(w, fifo);
    ClosedIsReachable(w, fifo.seen);
    LifoExploredIsClosed(w, lifo);
    ClosedIsReachable(w, lifo.scanned);
    forall n | n in fifo.seen ensures n.depth == 0 <==> w.keyOf(n.path) == w.keyOf(w.root) {
      var i :| 0 <= i < |fifo.seen| && fifo.seen[i] == n;
      OnlyRootAtDepthZero(w, fifo, i);
    }
  }

  lemma LifoIsNoShallower(w: World, fifo: State, lifo: Lifo, m: Node, n: Node)
    requires Progress(w, fifo) && fifo.next == |fifo.seen| && LifoExplored(w, lifo)
    requires m in fifo.seen && n in lifo.scanned && w.keyOf(m.path) == w.keyOf(n.path)
    ensures m.depth <= n.depth
  {
    var i :| 0 <= i < |fifo.seen| && fifo.seen[i] == m;
    DepthIsDistance(w, fifo, i, fifo.seen[i].depth);
    assert WellPlaced(w, n);
    var p :| PathTo(w, p, w.keyOf(n.path)) && |p| == n.depth + 1;
  }

  lemma SameFailures<T(!new)>(w: World, fifo: State, lifo: Lifo, view: Failure -> T)
    requires SeesModules(w, view)
    requires Progress(w, fifo) && fifo.next == |fifo.seen| && fifo.failures == AllFailures(w, fifo.seen)
    requires LifoExplored(w, lifo) && lifo.stack == []
    ensures LookAlike(lifo.failures, fifo.failures, view)
  {
    SameModules(w, fifo, lifo);
    OrderIsIrrelevant(w, fifo.seen, lifo.scanned, view);
    AllFailuresViews(w, fifo.seen, view);
    AllFailuresViews(w, lifo.scanned, view);
  }

  lemma FailAlike(w: World, fifo: State, lifo: Lifo)
    requires Progress(w, fifo) && fifo.next == |fifo.seen| && fifo.failures == AllFailures(w, fifo.seen)
    requires LifoExplored(w, lifo) && lifo.stack == []
    ensures LookAlike(lifo.failures, fifo.failures, MarkOf)
    ensures NamesByKey(w) ==> LookAlike(lifo.failures, fifo.failures, SignatureOf)
    ensures |lifo.failures| == |fifo.failures|
  {
    MarksSeeModules(w);
    SameFailures(w, fifo, lifo, MarkOf);
    ViewsLength(fifo.failures, MarkOf);
    ViewsLength(lifo.failures, MarkOf);
    assert |multiset(Views(lifo.failures, MarkOf))| == |multiset(Views(fifo.failures, MarkOf))|;
    if NamesByKey(w) {
      SignaturesSeeModules(w);
      SameFailures(w, fifo, lifo, SignatureOf);
    }
  }

  lemma {:induction false} ViewsLength<T>(fs: seq<Failure>, view: Failure -> T)
    ensures |Views(fs, view)| == |fs|
  {
    if fs != [] { ViewsLength(fs[1..], view); }
  }
}
