/**
 Where the worklist order shows: a module that two imports find on two paths is reported under
 the path found first, and the two orders need not find the same one first.
 */
module WalkOrderLimits {
  import opened Wrappers
  import opened Text
  import opened Search
  import opened ImportWalk
  import opened WalkOrder

  /** "r" imports "a" and "b"; "a" imports "c" and "b" imports "d", two names of one file, which
      imports the missing "e". */
  function TwoNames(): World {
    World("r", p => if p == "c2" then "c1" else p, p => p,
          map["r" := ["a", "b"], "a" := ["c"], "b" := ["d"], "c1" := ["e"]],
          dll => if dll == "e" then Resolution(Missing, None, []) else Resolution(Found, Some(PathOf(dll)), []),
          {}, map[])
  }

  function PathOf(dll: string): Path {
    if dll == "c" then "c1" else if dll == "d" then "c2" else dll
  }

  function MissingVia(via: string): Failure {
    Failure("e", via, 3, Missing, [])
  }

  lemma ShortNamesAreNoApiSets(dll: string)
    requires |dll| == 1
    ensures !IsApiSet(dll)
  {
    LowerAt(dll);
  }

  lemma Examined(dll: string, atRoot: bool)
    requires |dll| == 1
    ensures Examine(TwoNames(), atRoot, dll) == if dll == "e" then Fail(Missing, []) else Follow(PathOf(dll))
  {
    ShortNamesAreNoApiSets(dll);
  }

  /** All that the walks see of that world. */
  ghost predicate LooksLike(w: World) {
    && w.root == "r" && w.keyOf("r") == "r" && w.keyOf("a") == "a" && w.keyOf("b") == "b"
    && w.keyOf("c1") == "c1" && w.keyOf("c2") == "c1" && w.nameOf("c1") == "c1" && w.nameOf("c2") == "c2"
    && "r" in w.imports && w.imports["r"] == ["a", "b"] && "a" in w.imports && w.imports["a"] == ["c"]
    && "b" in w.imports && w.imports["b"] == ["d"] && "c1" in w.imports && w.imports["c1"] == ["e"]
    && Examine(w, true, "a") == Follow("a") && Examine(w, true, "b") == Follow("b")
    && Examine(w, false, "c") == Follow("c1") && Examine(w, false, "d") == Follow("c2")
    && Examine(w, false, "e") == Fail(Missing, [])
  }

  lemma TwoNamesLooksLike()
    ensures LooksLike(TwoNames())
  {
    Examined("a", true);
    Examined("b", true);
    Examined("c", false);
    Examined("d", false);
    Examined("e", false);
  }

  // ---------- first in, first out ----------

  /** The state after some turns without a failure. */
  function Reached(seen: seq<Node>, next: nat, visited: set<Key>): State {
    State(seen, next, visited, [], 0, 0, None, None)
  }

  const LEVEL1: seq<Node> := [Node("r", 0), Node("a", 1), Node("b", 1)]
  const LEVEL2: seq<Node> := [Node("r", 0), Node("a", 1), Node("b", 1), Node("c1", 2)]
  const ALL: set<Key> := {"r", "a", "b", "c1"}

  /** Scanning a single import is one step. */
  lemma ScanSingle(w: World, node: Node, dll: string, st: State)
    ensures Scan(w, false, node, [dll], st) == ScanOne(w, false, node, dll, st)
  {
    assert [dll][1..] == [];
  }

  lemma Turn(w: World, st: State, next: State)
    requires Sound(w, st) && st.next < |st.seen| && w.keyOf(st.seen[st.next].path) in w.imports
    requires next == ScanNode(w, false, st)
    ensures Sound(w, next) && Walk(w, false, st) == Walk(w, false, next)
  {
  }

  lemma TurnRoot(w: World)
    requires LooksLike(w)
    ensures ScanNode(w, false, Init(w)) == Reached(LEVEL1, 1, {"r", "a", "b"})
  {
    var st, st' := Reached([Node("r", 0)], 1, {"r"}), Reached([Node("r", 0), Node("a", 1)], 1, {"r", "a"});
    assert ScanOne(w, false, Node("r", 0), "a", st) == st';
    assert ["a", "b"][1..] == ["b"];
    ScanSingle(w, Node("r", 0), "b", st');
  }

  lemma TurnA(w: World, st: State)
    requires LooksLike(w) && st == Reached(LEVEL1, 1, {"r", "a", "b"}) && Sound(w, st)
    ensures ScanNode(w, false, st) == Reached(LEVEL2, 2, ALL)
  {
    ScanSingle(w, Node("a", 1), "c", Reached(LEVEL1, 2, {"r", "a", "b"}));
  }

  lemma TurnB(w: World, st: State)
    requires LooksLike(w) && st == Reached(LEVEL2, 2, ALL) && Sound(w, st)
    ensures ScanNode(w, false, st) == Reached(LEVEL2, 3, ALL)
  {
    ScanSingle(w, Node("b", 1), "d", Reached(LEVEL2, 3, ALL));
  }

  lemma TurnC(w: World, st: State)
    requires LooksLike(w) && st == Reached(LEVEL2, 3, ALL) && Sound(w, st)
    ensures ScanNode(w, false, st) == Record(false, Reached(LEVEL2, 4, ALL), MissingVia("c1"), 2)
  {
    ScanSingle(w, Node("c1", 2), "e", Reached(LEVEL2, 4, ALL));
  }

  lemma FifoFinds(w: World)
    requires LooksLike(w)
    ensures Run(w, CollectOnly).Finished? && Run(w, CollectOnly).st.failures == [MissingVia("c1")]
  {
    var st1, st2, st3 := Reached(LEVEL1, 1, {"r", "a", "b"}), Reached(LEVEL2, 2, ALL), Reached(LEVEL2, 3, ALL);
    TurnRoot(w);
    Turn(w, Init(w), st1);
    TurnA(w, st1);
    Turn(w, st1, st2);
    TurnB(w, st2);
    Turn(w, st2, st3);
    TurnC(w, st3);
    Turn(w, st3, Record(false, Reached(LEVEL2, 4, ALL), MissingVia("c1"), 2));
  }

  // ---------- last in, first out ----------

  const START: Lifo := Lifo([], [Node("r", 0)], {"r"}, [])
  const AFTER_ROOT: Lifo := Lifo([Node("r", 0)], [Node("a", 1), Node("b", 1)], {"r", "a", "b"}, [])
  const AFTER_B: Lifo := Lifo([Node("r", 0), Node("b", 1)], [Node("a", 1), Node("c2", 2)], ALL, [])
  const AFTER_C: Lifo := Lifo([Node("r", 0), Node("b", 1), Node("c2", 2)], [Node("a", 1)], ALL, [MissingVia("c2")])
  const AFTER_A: Lifo :=
    Lifo([Node("r", 0), Node("b", 1), Node("c2", 2), Node("a", 1)], [], ALL, [MissingVia("c2")])

  lemma LifoScanSingle(w: World, node: Node, dll: string, st: Lifo)
    ensures LifoScan(w, node, [dll], st) == LifoScanOne(w, node, dll, st)
  {
    assert [dll][1..] == [];
  }

  lemma LifoTurn(w: World, st: Lifo, next: Lifo)
    requires LifoSound(w, st) && st.stack != [] && w.keyOf(st.stack[|st.stack| - 1].path) in w.imports
    requires next == LifoScanNode(w, st)
    ensures LifoSound(w, next) && LifoWalk(w, st) == LifoWalk(w, next)
  {
    LifoMakesProgress(w, st);
  }

  lemma PopRoot(w: World, st: Lifo)
    requires LooksLike(w) && st == START && LifoSound(w, st)
    ensures LifoScanNode(w, st) == AFTER_ROOT
  {
    var root := Node("r", 0);
    var popped, st' := Lifo([root], [], {"r"}, []), Lifo([root], [Node("a", 1)], {"r", "a"}, []);
    assert LifoPop(st) == popped && LifoScanOne(w, root, "a", popped) == st';
    assert ["a", "b"][1..] == ["b"];
    LifoScanSingle(w, root, "b", st');
    assert LifoScan(w, root, ["a", "b"], popped) == LifoScan(w, root, ["b"], st') == AFTER_ROOT;
  }

  lemma PopB(w: World, st: Lifo)
    requires LooksLike(w) && st == AFTER_ROOT && LifoSound(w, st)
    ensures LifoScanNode(w, st) == AFTER_B
  {
    LifoScanSingle(w, Node("b", 1), "d", LifoPop(st));
  }

  lemma PopC(w: World, st: Lifo)
    requires LooksLike(w) && st == AFTER_B && LifoSound(w, st)
    ensures LifoScanNode(w, st) == AFTER_C
  {
    LifoScanSingle(w, Node("c2", 2), "e", LifoPop(st));
  }

  lemma PopA(w: World, st: Lifo)
    requires LooksLike(w) && st == AFTER_C && LifoSound(w, st)
    ensures LifoScanNode(w, st) == AFTER_A
  {
    LifoScanSingle(w, Node("a", 1), "c", LifoPop(st));
  }

  lemma LifoFinds(w: World)
    requires LooksLike(w)
    ensures LifoRun(w).LifoFinished? && LifoRun(w).st.failures == [MissingVia("c2")]
  {
    LifoEnds(w);
    PopRoot(w, START);
    LifoTurn(w, START, AFTER_ROOT);
    PopB(w, AFTER_ROOT);
    LifoTurn(w, AFTER_ROOT, AFTER_B);
    PopC(w, AFTER_B);
    LifoTurn(w, AFTER_B, AFTER_C);
    PopA(w, AFTER_C);
    LifoTurn(w, AFTER_C, AFTER_A);
  }

  lemma SinglesDiffer(f: Failure, g: Failure)
    requires SignatureOf(f) != SignatureOf(g)
    ensures !LookAlike([f], [g], SignatureOf)
  {
    assert Views([f], SignatureOf) == [SignatureOf(f)] && Views([g], SignatureOf) == [SignatureOf(g)];
    assert SignatureOf(f) in multiset([SignatureOf(f)]) && SignatureOf(f) !in multiset([SignatureOf(g)]);
  }

  /** Both orders return and record one failure, of the same name and kind, whose importer each
      names after the path it found first. */
  lemma ImportersCanDiffer()
    ensures var w := TwoNames();
            && LifoRun(w).LifoFinished? && Run(w, CollectOnly).Finished?
            && LifoRun(w).st.failures == [MissingVia("c2")]
            && Run(w, CollectOnly).st.failures == [MissingVia("c1")]
            && !LookAlike(LifoRun(w).st.failures, Run(w, CollectOnly).st.failures, SignatureOf)
  {
    TwoNamesLooksLike();
    FifoFinds(TwoNames());
    LifoFinds(TwoNames());
    SinglesDiffer(MissingVia("c2"), MissingVia("c1"));
  }
}
