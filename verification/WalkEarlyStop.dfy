/**
 The early-stopping walk (summary and failures-only modes) reports exactly the first
 issue of the full walk.
 */
module WalkEarlyStop {
  import opened Wrappers
  import opened Text
  import opened Search
  import opened ImportWalk

  // ---------- the effect of scanning one module ----------

  /** The failures one module contributes, in import order. */
  function FailuresOf(w: World, node: Node, dlls: seq<string>): seq<Failure> {
    if dlls == [] then []
    else
      var finding := Examine(w, node.depth == 0, dlls[0]);
      (if finding.Fail? then [FailureFor(w, node, dlls[0], finding)] else []) + FailuresOf(w, node, dlls[1..])
  }

  function Count(kind: Kind, fs: seq<Failure>): nat {
    if fs == [] then 0 else (if fs[0].kind == kind then 1 else 0) + Count(kind, fs[1..])
  }

  function FirstOf(current: Option<Failure>, fs: seq<Failure>): Option<Failure>
    decreases fs
  {
    if fs == [] then current else FirstOf(Considered(current, fs[0]), fs[1..])
  }

  lemma {:induction false} FailuresOfKinds(w: World, node: Node, dlls: seq<string>)
    ensures forall f :: f in FailuresOf(w, node, dlls) ==>
              f.kind != Found && f.depth == node.depth + 1 && f.via == w.nameOf(node.path)
  {
    if dlls != [] { FailuresOfKinds(w, node, dlls[1..]); }
  }

  lemma {:induction false} ScanRecordsFailures(w: World, early: bool, node: Node, dlls: seq<string>, st: State)
    ensures Scan(w, early, node, dlls, st).failures == st.failures + FailuresOf(w, node, dlls)
  {
    if dlls != [] {
      var st' := ScanOne(w, early, node, dlls[0], st);
      var fs' := FailuresOf(w, node, dlls[1..]);
      ScanRecordsFailures(w, early, node, dlls[1..], st');
      var finding := Examine(w, node.depth == 0, dlls[0]);
      if finding.Fail? {
        var f := FailureFor(w, node, dlls[0], finding);
        assert st'.failures + fs' == st.failures + ([f] + fs');
      } else {
        assert st'.failures + fs' == st.failures + ([] + fs');
      }
    }
  }

  lemma {:induction false} ScanTracksFirst(w: World, early: bool, node: Node, dlls: seq<string>, st: State)
    ensures var r := Scan(w, early, node, dlls, st);
            var fs := FailuresOf(w, node, dlls);
            && r.first == FirstOf(st.first, fs)
            && r.limit == (if early && st.limit.None? && fs != [] then Some(node.depth) else st.limit)
  {
    if dlls != [] {
      ScanTracksFirst(w, early, node, dlls[1..], ScanOne(w, early, node, dlls[0], st));
      var fs' := FailuresOf(w, node, dlls[1..]);
      var finding := Examine(w, node.depth == 0, dlls[0]);
      if finding.Fail? {
        assert ([FailureFor(w, node, dlls[0], finding)] + fs')[1..] == fs';
      } else {
        assert [] + fs' == fs';
      }
    }
  }

  lemma {:induction false} ScanCounts(w: World, early: bool, node: Node, dlls: seq<string>, st: State)
    ensures var r := Scan(w, early, node, dlls, st);
            && r.missing == st.missing + Count(Missing, FailuresOf(w, node, dlls))
            && r.badImage == st.badImage + Count(BadImage, FailuresOf(w, node, dlls))
  {
    if dlls != [] {
      ScanCounts(w, early, node, dlls[1..], ScanOne(w, early, node, dlls[0], st));
      var fs' := FailuresOf(w, node, dlls[1..]);
      var finding := Examine(w, node.depth == 0, dlls[0]);
      if finding.Fail? {
        assert ([FailureFor(w, node, dlls[0], finding)] + fs')[1..] == fs';
      } else {
        assert [] + fs' == fs';
      }
    }
  }

  lemma {:induction false} ScanDepths(w: World, early: bool, node: Node, dlls: seq<string>, st: State)
    ensures var r := Scan(w, early, node, dlls, st);
            && r.next == st.next
            && st.seen <= r.seen
            && forall i :: |st.seen| <= i < |r.seen| ==> r.seen[i].depth == node.depth + 1
  {
    if dlls != [] {
      ScanDepths(w, early, node, dlls[1..], ScanOne(w, early, node, dlls[0], st));
    }
  }

  /** All of these, for one pop of the queue. */
  lemma ScanEffect(w: World, early: bool, st: State)
    requires Sound(w, st) && st.next < |st.seen| && w.keyOf(st.seen[st.next].path) in w.imports
    ensures var node, r := st.seen[st.next], ScanNode(w, early, st);
            var fs := FailuresOf(w, node, w.imports[w.keyOf(node.path)]);
            && r.failures == st.failures + fs
            && r.first == FirstOf(st.first, fs)
            && r.limit == (if early && st.limit.None? && fs != [] then Some(node.depth) else st.limit)
            && r.missing == st.missing + Count(Missing, fs)
            && r.badImage == st.badImage + Count(BadImage, fs)
            && (forall i :: |st.seen| <= i < |r.seen| ==> r.seen[i].depth == node.depth + 1)
            && (forall f :: f in fs ==> f.kind != Found && f.depth == node.depth + 1)
            && w.keyOf(node.path) !in Keys(w, st.seen[..st.next])
  {
    var node := st.seen[st.next];
    var dlls := w.imports[w.keyOf(node.path)];
    ScanRecordsFailures(w, early, node, dlls, st.(next := st.next + 1));
    ScanTracksFirst(w, early, node, dlls, st.(next := st.next + 1));
    ScanCounts(w, early, node, dlls, st.(next := st.next + 1));
    ScanDepths(w, early, node, dlls, st.(next := st.next + 1));
    FailuresOfKinds(w, node, dlls);
  }

  /** The stop flag touches nothing but the limit. */
  lemma {:induction false} ScanIgnoresLimit(w: World, node: Node, dlls: seq<string>, full: State, stop: State)
    requires stop == full.(limit := stop.limit)
    ensures Scan(w, true, node, dlls, stop)
         == Scan(w, false, node, dlls, full).(limit := Scan(w, true, node, dlls, stop).limit)
  {
    if dlls != [] {
      ScanIgnoresLimit(w, node, dlls[1..],
                       ScanOne(w, false, node, dlls[0], full), ScanOne(w, true, node, dlls[0], stop));
    }
  }

  // ---------- breadth-first order ----------

  /** Depths never decrease along the queue, which spans at most two levels. */
  ghost predicate Ordered(st: State) {
    && st.next <= |st.seen|
    && (forall i, j :: 0 <= i < j < |st.seen| ==> st.seen[i].depth <= st.seen[j].depth)
    && (st.next < |st.seen| ==> forall j :: 0 <= j < |st.seen| ==> st.seen[j].depth <= st.seen[st.next].depth + 1)
  }

  lemma ScanKeepsOrder(w: World, early: bool, st: State)
    requires Sound(w, st) && Ordered(st) && st.next < |st.seen| && w.keyOf(st.seen[st.next].path) in w.imports
    ensures Ordered(ScanNode(w, early, st))
  {
    ScanEffect(w, early, st);
  }

  lemma {:induction false} FirstOfKeepsShallower(current: Option<Failure>, fs: seq<Failure>)
    requires current.Some? && forall f :: f in fs ==> current.value.depth < f.depth
    ensures FirstOf(current, fs) == current
  {
    if fs != [] { FirstOfKeepsShallower(current, fs[1..]); }
  }

  lemma {:induction false} FirstOfDepth(current: Option<Failure>, fs: seq<Failure>, depth: nat)
    requires current.Some? ==> current.value.depth == depth
    requires forall f :: f in fs ==> f.depth == depth
    ensures FirstOf(current, fs).Some? <==> current.Some? || fs != []
    ensures FirstOf(current, fs).Some? ==> FirstOf(current, fs).value.depth == depth
    decreases fs
  {
    if fs != [] { FirstOfDepth(Considered(current, fs[0]), fs[1..], depth); }
  }

  /** Once the queue is past the depth of the first issue, nothing found later is as shallow. */
  lemma {:induction false} RestIsDeeper(w: World, st: State)
    requires Sound(w, st) && Ordered(st) && st.first.Some?
    requires st.next < |st.seen| ==> st.first.value.depth <= st.seen[st.next].depth
    ensures var e := Walk(w, false, st);
            && e.st.first == st.first
            && st.failures <= e.st.failures
            && (forall i :: |st.failures| <= i < |e.st.failures| ==> st.first.value.depth < e.st.failures[i].depth)
            && (e.Aborted? ==> st.first.value.depth <= e.at.depth)
    decreases w.imports.Keys - Keys(w, st.seen[..st.next])
  {
    if st.next < |st.seen| && w.keyOf(st.seen[st.next].path) in w.imports {
      var node := st.seen[st.next];
      ScanEffect(w, false, st);
      FirstOfKeepsShallower(st.first, FailuresOf(w, node, w.imports[w.keyOf(node.path)]));
      ScanKeepsOrder(w, false, st);
      RestIsDeeper(w, ScanNode(w, false, st));
    }
  }

  /** The two walks in step: equal but for the limit, which records the one depth at which
      failures have turned up. */
  ghost predicate InStep(full: State, stop: State) {
    && stop == full.(limit := stop.limit)
    && full.limit.None?
    && (stop.limit.Some? <==> full.first.Some?)
    && (full.failures == [] <==> full.first.None?)
    && (full.first.Some? ==> full.first.value.depth == stop.limit.value + 1)
    && (forall f :: f in full.failures ==> full.first.Some? && f.depth == full.first.value.depth)
    && (full.first.Some? && full.next < |full.seen| ==> stop.limit.value <= full.seen[full.next].depth)
  }

  lemma StepTogether(w: World, full: State, stop: State)
    requires Sound(w, full) && Sound(w, stop) && Ordered(full) && InStep(full, stop)
    requires full.next < |full.seen| && w.keyOf(full.seen[full.next].path) in w.imports
    requires !StopsAt(true, stop)
    ensures InStep(ScanNode(w, false, full), ScanNode(w, true, stop))
  {
    var node := full.seen[full.next];
    var dlls := w.imports[w.keyOf(node.path)];
    ScanEffect(w, false, full);
    ScanEffect(w, true, stop);
    ScanIgnoresLimit(w, node, dlls, full.(next := full.next + 1), stop.(next := stop.next + 1));
    FirstOfDepth(full.first, FailuresOf(w, node, dlls), node.depth + 1);
    ScanKeepsOrder(w, false, full);
  }

  /** How the two walks end, from any pair of states in step. */
  ghost predicate SameVerdict(full: Ending, stop: Ending) {
    if full.Aborted? && (full.st.first.None? || full.at.depth < full.st.first.value.depth) then
      stop.Aborted? && stop.at == full.at
    else
      && stop.Finished?
      && stop.st.first == full.st.first
      && stop.st.failures <= full.st.failures
      && (full.st.first.None? ==> full.st.failures == [])
      && (forall f :: f in stop.st.failures ==> full.st.first.Some? && f.depth == full.st.first.value.depth)
      && (forall i :: |stop.st.failures| <= i < |full.st.failures| ==>
            full.st.first.Some? && full.st.first.value.depth < full.st.failures[i].depth)
  }

  lemma {:induction false} WalksAgree(w: World, full: State, stop: State)
    requires Sound(w, full) && Sound(w, stop) && Ordered(full) && InStep(full, stop)
    ensures SameVerdict(Walk(w, false, full), Walk(w, true, stop))
    decreases w.imports.Keys - Keys(w, full.seen[..full.next])
  {
    if full.next == |full.seen| {
    } else if StopsAt(true, stop) {
      RestIsDeeper(w, full);
    } else if w.keyOf(full.seen[full.next].path) in w.imports {
      StepTogether(w, full, stop);
      ScanKeepsOrder(w, false, full);
      ScanEffect(w, false, full);
      WalksAgree(w, ScanNode(w, false, full), ScanNode(w, true, stop));
    }
  }

  // ---------- counts ----------

  ghost predicate CountsMatch(st: State) {
    st.missing == Count(Missing, st.failures) && st.badImage == Count(BadImage, st.failures)
  }

  lemma {:induction false} CountConcat(kind: Kind, a: seq<Failure>, b: seq<Failure>)
    ensures Count(kind, a + b) == Count(kind, a) + Count(kind, b)
  {
    if a == [] {
      assert a + b == b;
    } else {
      assert (a + b)[1..] == a[1..] + b;
      CountConcat(kind, a[1..], b);
    }
  }

  lemma {:induction false} WalkCounts(w: World, early: bool, st: State)
    requires Sound(w, st) && CountsMatch(st) && (forall f :: f in st.failures ==> f.kind != Found)
    ensures CountsMatch(Walk(w, early, st).st)
    ensures forall f :: f in Walk(w, early, st).st.failures ==> f.kind != Found
    decreases w.imports.Keys - Keys(w, st.seen[..st.next])
  {
    if st.next < |st.seen| && !StopsAt(early, st) && w.keyOf(st.seen[st.next].path) in w.imports {
      var fs := FailuresOf(w, st.seen[st.next], w.imports[w.keyOf(st.seen[st.next].path)]);
      ScanEffect(w, early, st);
      CountConcat(Missing, st.failures, fs);
      CountConcat(BadImage, st.failures, fs);
      WalkCounts(w, early, ScanNode(w, early, st));
    }
  }

  lemma {:induction false} CountsTotal(fs: seq<Failure>)
    requires forall f :: f in fs ==> f.kind != Found
    ensures Count(Missing, fs) + Count(BadImage, fs) == |fs|
  {
    if fs != [] { CountsTotal(fs[1..]); }
  }

  /** The failures at one depth, in order. */
  function AtDepth(fs: seq<Failure>, depth: nat): seq<Failure> {
    if fs == [] then []
    else (if fs[0].depth == depth then [fs[0]] else []) + AtDepth(fs[1..], depth)
  }

  lemma {:induction false} AtDepthOfPrefix(fs: seq<Failure>, n: nat, depth: nat)
    requires n <= |fs|
    requires forall i :: 0 <= i < n ==> fs[i].depth == depth
    requires forall i :: n <= i < |fs| ==> depth < fs[i].depth
    ensures AtDepth(fs, depth) == fs[..n]
  {
    if fs != [] {
      AtDepthOfPrefix(fs[1..], if n == 0 then 0 else n - 1, depth);
      if n > 0 { assert fs[..n] == [fs[0]] + fs[1..][..n - 1]; }
    }
  }

  // ---------- the theorems ----------

  /** Early stop loses nothing. If the full walk returns, the stopping walk returns the
      same first issue; the failures it lists are exactly the full walk's shallowest ones,
      in the same order, and its counts are the counts of those. */
  lemma EarlyStopLosesNothing(w: World, full: EmitMode, stop: EmitMode)
    requires !StopsEarly(full) && StopsEarly(stop)
    requires Answer(Run(w, full)).Ok?
    ensures Answer(Run(w, stop)).Ok?
    ensures var all, some := Answer(Run(w, full)).value, Answer(Run(w, stop)).value;
            && some.first == all.first
            && some.failures == (if all.first.None? then [] else AtDepth(all.failures, all.first.value.depth))
            && some.missing == Count(Missing, some.failures)
            && some.badImage == Count(BadImage, some.failures)
  {
    var init := Init(w);
    WalksAgree(w, init, init);
    WalkCounts(w, true, init);
    var f, e := Run(w, full).st, Run(w, stop).st;
    if f.first.Some? {
      assert e.failures == f.failures[..|e.failures|];
      forall i | 0 <= i < |e.failures| ensures f.failures[i].depth == f.first.value.depth {
        assert f.failures[i] == e.failures[i] && e.failures[i] in e.failures;
      }
      AtDepthOfPrefix(f.failures, |e.failures|, f.first.value.depth);
    }
  }

  /** When the stopping walk fails, in terms of how the full walk ends. */
  lemma StopAgainstFull(w: World, full: EmitMode, stop: EmitMode)
    requires !StopsEarly(full) && StopsEarly(stop)
    ensures var f := Run(w, full);
            && (Answer(Run(w, stop)).Err? <==>
                  f.Aborted? && (f.st.first.None? || f.at.depth < f.st.first.value.depth))
            && (Answer(Run(w, stop)).Err? ==> Answer(Run(w, stop)) == Answer(f))
            && (f.Aborted? && Answer(Run(w, stop)).Ok? ==> Answer(Run(w, stop)).value.first == f.st.first)
  {
    WalksAgree(w, Init(w), Init(w));
  }

  /** The report's own arithmetic, in every mode: the counts add up to the failure list,
      and a first issue is present exactly when they are positive. */
  lemma ReportAddsUp(w: World, mode: EmitMode)
    requires Answer(Run(w, mode)).Ok?
    ensures var r := Answer(Run(w, mode)).value;
            && r.missing == Count(Missing, r.failures)
            && r.badImage == Count(BadImage, r.failures)
            && r.missing + r.badImage == |r.failures|
            && (r.first.Some? <==> r.missing + r.badImage > 0)
            && (r.first.Some? ==> r.first.value in r.failures && r.first.value.kind != Found)
            && (r.first.Some? ==> forall f :: f in r.failures ==> !Precedes(f, r.first.value))
  {
    WalkCounts(w, StopsEarly(mode), Init(w));
    CountsTotal(Answer(Run(w, mode)).value.failures);
    FirstIsLeast(w, StopsEarly(mode), Init(w));
  }

  // ---------- the first issue is the least failure ----------

  /** `first` is a failure that no recorded failure precedes; there is one unless the list is empty. */
  ghost predicate IsLeast(first: Option<Failure>, fs: seq<Failure>) {
    if first.None? then fs == []
    else first.value in fs && forall f :: f in fs ==> !Precedes(f, first.value)
  }

  lemma PrecedesTransitive(a: Failure, b: Failure, c: Failure)
    requires Precedes(a, b) && !Precedes(c, b)
    ensures !Precedes(c, a)
  {
    if Precedes(c, a) {
      if c.depth == a.depth == b.depth {
        if LexLess(c.via, a.via) && LexLess(a.via, b.via) { LexTransitive(c.via, a.via, b.via); }
        if c.via == a.via == b.via { LexTransitive(c.dll, a.dll, b.dll); }
      }
    }
  }

  lemma PrecedesIrreflexive(a: Failure)
    ensures !Precedes(a, a)
  {
    LexIrreflexive(a.via);
    LexIrreflexive(a.dll);
  }

  /** Two failures tie exactly when depth, importer and name agree. */
  lemma TieMeansSame(a: Failure, b: Failure)
    ensures !Precedes(a, b) && !Precedes(b, a) <==> a.depth == b.depth && a.via == b.via && a.dll == b.dll
  {
    LexTotal(a.via, b.via);
    LexTotal(a.dll, b.dll);
    PrecedesIrreflexive(a);
  }

  /** The comparison of issues is a strict weak order, so a first issue is well defined. */
  lemma PrecedesIsStrictWeakOrder(a: Failure, b: Failure, c: Failure)
    ensures !Precedes(a, a)
    ensures Precedes(a, b) ==> !Precedes(b, a)
    ensures Precedes(a, b) && Precedes(b, c) ==> Precedes(a, c)
    ensures !Precedes(a, b) && !Precedes(b, a) && !Precedes(b, c) && !Precedes(c, b) ==>
              !Precedes(a, c) && !Precedes(c, a)
  {
    PrecedesIrreflexive(a);
    PrecedesIrreflexive(b);
    if Precedes(a, b) && Precedes(b, a) { PrecedesTransitive(a, b, b); }
    if Precedes(a, b) && Precedes(b, c) {
      if !Precedes(a, c) { PrecedesTransitive(b, c, a); }
    }
    TieMeansSame(a, b);
    TieMeansSame(b, c);
    TieMeansSame(a, c);
  }

  lemma {:induction false} FirstOfIsLeast(first: Option<Failure>, fs: seq<Failure>, more: seq<Failure>)
    requires IsLeast(first, fs)
    ensures IsLeast(FirstOf(first, more), fs + more)
    decreases more
  {
    if more == [] {
      assert fs + more == fs;
    } else {
      var c := more[0];
      if first.Some? && Precedes(c, first.value) {
        forall f | f in fs ensures !Precedes(f, c) { PrecedesTransitive(c, first.value, f); }
      }
      PrecedesIrreflexive(c);
      assert IsLeast(Considered(first, c), fs + [c]);
      FirstOfIsLeast(Considered(first, c), fs + [c], more[1..]);
      assert fs + [c] + more[1..] == fs + more;
    }
  }

  lemma {:induction false} FirstIsLeast(w: World, early: bool, st: State)
    requires Sound(w, st) && IsLeast(st.first, st.failures)
    ensures IsLeast(Walk(w, early, st).st.first, Walk(w, early, st).st.failures)
    decreases w.imports.Keys - Keys(w, st.seen[..st.next])
  {
    if st.next < |st.seen| && !StopsAt(early, st) && w.keyOf(st.seen[st.next].path) in w.imports {
      ScanEffect(w, early, st);
      FirstOfIsLeast(st.first, st.failures, FailuresOf(w, st.seen[st.next], w.imports[w.keyOf(st.seen[st.next].path)]));
      FirstIsLeast(w, early, ScanNode(w, early, st));
    }
  }

  /** The first issue, written out: no failure is nearer to the root, none as near has an earlier
      importer, and none of the same importer an earlier name. */
  lemma FirstIssueIsSmallest(w: World, mode: EmitMode, f: Failure)
    requires Answer(Run(w, mode)).Ok? && f in Answer(Run(w, mode)).value.failures
    ensures var first := Answer(Run(w, mode)).value.first;
            && first.Some?
            && first.value.depth <= f.depth
            && (first.value.depth == f.depth ==> !LexLess(f.via, first.value.via))
            && (first.value.depth == f.depth && first.value.via == f.via ==> !LexLess(f.dll, first.value.dll))
  {
    FirstIsLeast(w, StopsEarly(mode), Init(w));
  }

  /** The modes are two: for full output and for collecting the walk goes on to its end, and for failures
      only and for the summary it stops early. */
  lemma ModesAgree(w: World)
    ensures Run(w, Full) == Walk(w, false, Init(w)) == Run(w, CollectOnly)
    ensures Run(w, FailuresOnly) == Walk(w, true, Init(w)) == Run(w, SummaryOnly)
  {
  }
}
