/**
 The selection of the dynamic-failure inference, stated offline: which candidates a trace
 raises, which loads it shows to have succeeded, and which unresolved candidate wins.
 */
module PhaseCSelection {
  import opened Wrappers
  import opened Text
  import opened LoaderLine
  import opened PhaseC
  import opened PhaseCThreads

  // ---------- the pending load of a thread ----------

  predicate OpensLoad(e: Event, t: Tid) {
    e.Debug? && e.tid == t && !e.line.blank && IsAttempt(e.line) && ReturnStatus(e.line).None?
  }

  predicate ClosesLoad(e: Event, t: Tid) {
    e.Debug? && e.tid == t && !e.line.blank && ReturnStatus(e.line).Some?
  }

  /** The load thread `t` is in before event `n`: its latest attempt that no return has closed. */
  function PendingLoad(events: seq<Event>, t: Tid, n: nat): Option<LoadContext>
    requires n <= |events|
  {
    if n == 0 then None
    else if ClosesLoad(events[n - 1], t) then None
    else if OpensLoad(events[n - 1], t) then Some(AttemptContext(events[n - 1].line))
    else PendingLoad(events, t, n - 1)
  }

  /** Event `i` opened the load `ctx` that is pending before event `n`. */
  ghost predicate Opened(events: seq<Event>, t: Tid, i: int, n: nat, ctx: LoadContext)
    requires n <= |events|
  {
    && 0 <= i < n && OpensLoad(events[i], t) && AttemptContext(events[i].line) == ctx
    && forall j :: i < j < n ==> !OpensLoad(events[j], t) && !ClosesLoad(events[j], t)
  }

  lemma {:induction false} PendingLoadMeaning(events: seq<Event>, t: Tid, n: nat, ctx: LoadContext)
    requires n <= |events|
    ensures PendingLoad(events, t, n) == Some(ctx) <==> exists i :: Opened(events, t, i, n, ctx)
  {
    if n > 0 {
      PendingLoadMeaning(events, t, n - 1, ctx);
      var e := events[n - 1];
      if i :| Opened(events, t, i, n, ctx) {
        if i < n - 1 { assert Opened(events, t, i, n - 1, ctx); }
      }
      if PendingLoad(events, t, n) == Some(ctx) {
        if OpensLoad(e, t) {
          assert Opened(events, t, n - 1, n, ctx);
        } else {
          var i :| Opened(events, t, i, n - 1, ctx);
          assert Opened(events, t, i, n, ctx);
        }
      }
    }
  }

  lemma ContextStep(env: Env, idx: nat, t: Tid, line: Line, ctx: Option<LoadContext>)
    ensures EffectOf(env, idx, t, line, ctx).ctx
         == if ClosesLoad(Debug(t, line), t) then None
            else if OpensLoad(Debug(t, line), t) then Some(AttemptContext(line)) else ctx
  {
  }

  /** The table of last loads holds exactly the pending loads. */
  lemma {:induction false} LastLoadIsPending(env: Env, events: seq<Event>, t: Tid, n: nat)
    requires n <= |events|
    ensures Lookup(Run(Reading(env), events, n).lastLoad, t) == PendingLoad(events, t, n)
  {
    if n > 0 {
      LastLoadIsPending(env, events, t, n - 1);
      var st := Run(Reading(env), events, n - 1);
      LoadStep(env, st, n - 1, events[n - 1], t);
    }
  }

  lemma LoadStep(env: Env, st: Fold, idx: nat, e: Event, t: Tid)
    ensures Lookup(Step(Reading(env), st, idx, e).lastLoad, t)
         == if ClosesLoad(e, t) then None
            else if OpensLoad(e, t) then Some(AttemptContext(e.line)) else Lookup(st.lastLoad, t)
  {
    if e.Debug? {
      ContextStep(env, idx, e.tid, e.line, Lookup(st.lastLoad, e.tid));
    }
  }

  // ---------- successes and candidates, event by event ----------

  /** What event `i` does, read with the load that is pending on its thread. */
  function EffectAtEvent(env: Env, events: seq<Event>, i: nat): Effect
    requires i < |events| && events[i].Debug?
  {
    EffectOf(env, i, events[i].tid, events[i].line, PendingLoad(events, events[i].tid, i))
  }

  /** The name that event `i` shows to have loaded: a module load, or a line that returns
      status 0 (for the name on it, or else for the thread's pending load). */
  function LoadsAt(env: Env, events: seq<Event>, i: nat): Option<string>
    requires i < |events|
  {
    if events[i].Loaded? then Some(events[i].dll) else EffectAtEvent(env, events, i).success
  }

  function RaisedAt(env: Env, events: seq<Event>, i: nat): Option<Candidate>
    requires i < |events|
  {
    if events[i].Loaded? then None else EffectAtEvent(env, events, i).candidate
  }

  function Pushed(cs: seq<Candidate>, c: Option<Candidate>): seq<Candidate> {
    if c.Some? then cs + [c.value] else cs
  }

  /** The candidates of the first `n` events, as they are when raised. */
  function Raised(env: Env, events: seq<Event>, n: nat): seq<Candidate>
    requires n <= |events|
  {
    if n == 0 then [] else Pushed(Raised(env, events, n - 1), RaisedAt(env, events, n - 1))
  }

  /** One step of the fold in these terms. */
  lemma StepSuccesses(env: Env, events: seq<Event>, n: nat)
    requires n < |events|
    ensures Run(Reading(env), events, n + 1).successes
         == match LoadsAt(env, events, n)
            case None => Run(Reading(env), events, n).successes
            case Some(d) => RecordSuccess(Run(Reading(env), events, n).successes, d, n)
  {
    var st := Run(Reading(env), events, n);
    if events[n].Debug? {
      LastLoadIsPending(env, events, events[n].tid, n);
      StepIsApply(env, st, n, events[n].tid, events[n].line, EffectAtEvent(env, events, n));
    }
  }

  ghost predicate Extends(cs: seq<Candidate>, c: Option<Candidate>, cs': seq<Candidate>) {
    exists filled :: OnlyStatusDiffers(cs, filled) && cs' == Pushed(filled, c)
  }

  lemma StepCandidates(env: Env, events: seq<Event>, n: nat)
    requires n < |events|
    ensures Extends(Run(Reading(env), events, n).candidates, RaisedAt(env, events, n),
                    Run(Reading(env), events, n + 1).candidates)
  {
    var st := Run(Reading(env), events, n);
    match events[n]
    case Loaded(_) =>
      assert OnlyStatusDiffers(st.candidates, st.candidates);
    case Debug(tid, line) =>
      LastLoadIsPending(env, events, tid, n);
      var e := EffectAtEvent(env, events, n);
      StepIsApply(env, st, n, tid, line, e);
      BackfillOnlyStatus(st.candidates, Lookup(st.lastFailure, tid), e.backfill);
  }

  lemma StepIsApply(env: Env, st: Fold, idx: nat, tid: Tid, line: Line, e: Effect)
    requires e == EffectOf(env, idx, tid, line, Lookup(st.lastLoad, tid))
    ensures Step(Reading(env), st, idx, Debug(tid, line)) == Apply(st, idx, tid, e)
  {
  }

  // ---------- back-fill ----------

  function EraseStatus(c: Candidate): Candidate {
    c.(status := None, reason := OtherReason)
  }

  ghost predicate OnlyStatusDiffers(a: seq<Candidate>, b: seq<Candidate>) {
    |a| == |b| && forall i :: 0 <= i < |a| ==> EraseStatus(a[i]) == EraseStatus(b[i])
  }

  lemma BackfillOnlyStatus(cs: seq<Candidate>, at: Option<nat>, fill: Option<(nat, Reason)>)
    ensures OnlyStatusDiffers(cs, Backfill(cs, at, fill))
  {
  }

  /** Up to status and reason, the candidate list is the list of raised candidates: back-fill
      adds, drops and reorders nothing. */
  lemma {:induction false} CandidatesAreRaised(env: Env, events: seq<Event>, n: nat)
    requires n <= |events|
    ensures OnlyStatusDiffers(Run(Reading(env), events, n).candidates, Raised(env, events, n))
  {
    if n > 0 {
      CandidatesAreRaised(env, events, n - 1);
      StepCandidates(env, events, n - 1);
      ChainStatus(Run(Reading(env), events, n - 1).candidates, Raised(env, events, n - 1),
                  RaisedAt(env, events, n - 1), Run(Reading(env), events, n).candidates);
    }
  }

  lemma ChainStatus(cs: seq<Candidate>, raised: seq<Candidate>, c: Option<Candidate>, cs': seq<Candidate>)
    requires OnlyStatusDiffers(cs, raised)
    requires Extends(cs, c, cs')
    ensures OnlyStatusDiffers(cs', Pushed(raised, c))
  {
    var filled :| OnlyStatusDiffers(cs, filled) && cs' == Pushed(filled, c);
    forall i | 0 <= i < |filled| ensures EraseStatus(filled[i]) == EraseStatus(raised[i]) {
      assert EraseStatus(cs[i]) == EraseStatus(filled[i]);
    }
  }

  ghost predicate Increasing(cs: seq<Candidate>, n: nat) {
    && (forall i :: 0 <= i < |cs| ==> cs[i].eventIdx < n)
    && (forall i, j :: 0 <= i < j < |cs| ==> cs[i].eventIdx < cs[j].eventIdx)
  }

  lemma RaisedOwned(env: Env, events: seq<Event>, i: nat)
    requires i < |events| && RaisedAt(env, events, i).Some?
    ensures events[i].Debug?
    ensures RaisedAt(env, events, i).value.eventIdx == i && RaisedAt(env, events, i).value.tid == events[i].tid
  {
    ReadingMoves(env, i, events[i].tid, events[i].line, PendingLoad(events, events[i].tid, i));
  }

  lemma {:induction false} RaisedIncreasing(env: Env, events: seq<Event>, n: nat)
    requires n <= |events|
    ensures Increasing(Raised(env, events, n), n)
  {
    if n > 0 {
      RaisedIncreasing(env, events, n - 1);
      if RaisedAt(env, events, n - 1).Some? { RaisedOwned(env, events, n - 1); }
    }
  }

  lemma EventIndicesSeparate(env: Env, events: seq<Event>)
    ensures Increasing(Run(Reading(env), events, |events|).candidates, |events|)
  {
    CandidatesAreRaised(env, events, |events|);
    RaisedIncreasing(env, events, |events|);
    SameIndices(Run(Reading(env), events, |events|).candidates, Raised(env, events, |events|), |events|);
  }

  lemma SameIndices(a: seq<Candidate>, b: seq<Candidate>, n: nat)
    requires OnlyStatusDiffers(a, b) && Increasing(b, n)
    ensures Increasing(a, n)
  {
    forall i | 0 <= i < |a| ensures a[i].eventIdx == b[i].eventIdx {
      assert EraseStatus(a[i]) == EraseStatus(b[i]);
    }
  }

  // ---------- the success table ----------

  /** The table holds, for each name that ever loads, the last event that loads it. */
  ghost predicate LatestLoad(env: Env, events: seq<Event>, n: nat, d: string, m: nat)
    requires n <= |events|
  {
    && m < n && LoadsAt(env, events, m) == Some(d)
    && forall i :: m < i < n ==> LoadsAt(env, events, i) != Some(d)
  }

  ghost predicate EverLoads(env: Env, events: seq<Event>, n: nat, d: string)
    requires n <= |events|
  {
    exists i :: 0 <= i < n && LoadsAt(env, events, i) == Some(d)
  }

  lemma {:induction false} SuccessTable(env: Env, events: seq<Event>, n: nat, d: string)
    requires n <= |events|
    ensures var table := Run(Reading(env), events, n).successes;
            && (d in table <==> EverLoads(env, events, n, d))
            && (d in table ==> LatestLoad(env, events, n, d, table[d]))
  {
    if n > 0 {
      SuccessTable(env, events, n - 1, d);
      StepSuccesses(env, events, n - 1);
      var table, table' := Run(Reading(env), events, n - 1).successes, Run(Reading(env), events, n).successes;
      RecordStep(env, events, n - 1, d, table, table');
    }
  }

  lemma RecordStep(env: Env, events: seq<Event>, n: nat, d: string, table: map<string, nat>, table': map<string, nat>)
    requires n < |events|
    requires (d in table <==> EverLoads(env, events, n, d)) && (d in table ==> LatestLoad(env, events, n, d, table[d]))
    requires table' == match LoadsAt(env, events, n) case None => table case Some(x) => RecordSuccess(table, x, n)
    ensures d in table' <==> EverLoads(env, events, n + 1, d)
    ensures d in table' ==> LatestLoad(env, events, n + 1, d, table'[d])
  {
    if LoadsAt(env, events, n) == Some(d) {
      assert table'[d] == n;
    } else {
      assert d in table' <==> d in table;
      if i :| 0 <= i < n && LoadsAt(env, events, i) == Some(d) {
        assert LoadsAt(env, events, i) == Some(d) && i < n + 1;
      }
      if i :| 0 <= i < n + 1 && LoadsAt(env, events, i) == Some(d) {
        assert i != n;
        assert EverLoads(env, events, n, d);
      }
    }
  }

  /** A candidate is resolved when its name loads later, or, for a full-path probe, ever. */
  ghost predicate ResolvedOffline(env: Env, events: seq<Event>, c: Candidate) {
    exists i :: 0 <= i < |events| && LoadsAt(env, events, i) == Some(c.dll) && (c.eventIdx < i || c.fullPathProbe)
  }

  lemma ResolvedIsOffline(env: Env, events: seq<Event>, c: Candidate)
    ensures Resolved(c, Run(Reading(env), events, |events|).successes) <==> ResolvedOffline(env, events, c)
  {
    var table := Run(Reading(env), events, |events|).successes;
    SuccessTable(env, events, |events|, c.dll);
    if c.dll in table {
      assert LoadsAt(env, events, table[c.dll]) == Some(c.dll);
    }
    if i :| 0 <= i < |events| && LoadsAt(env, events, i) == Some(c.dll) && (c.eventIdx < i || c.fullPathProbe) {
      assert EverLoads(env, events, |events|, c.dll);
      assert i <= table[c.dll];
    }
  }

  // ---------- the order ----------

  lemma {:induction false} KeyTransitive(a: seq<int>, b: seq<int>, c: seq<int>)
    requires KeyLess(a, b) && KeyLess(b, c)
    ensures KeyLess(a, c)
  {
    if a != [] && a[0] == b[0] == c[0] { KeyTransitive(a[1..], b[1..], c[1..]); }
  }

  lemma {:induction false} KeyIrreflexive(a: seq<int>)
    ensures !KeyLess(a, a)
  {
    if a != [] { KeyIrreflexive(a[1..]); }
  }

  lemma {:induction false} KeyTotal(a: seq<int>, b: seq<int>)
    requires |a| == |b|
    ensures KeyLess(a, b) || a == b || KeyLess(b, a)
  {
    if a != [] && a[0] == b[0] {
      KeyTotal(a[1..], b[1..]);
      assert a == [a[0]] + a[1..] && b == [b[0]] + b[1..];
    }
  }

  lemma BeforeTransitive(a: Candidate, b: Candidate, c: Candidate)
    requires Before(a, b) && Before(b, c)
    ensures Before(a, c)
  {
    if KeyLess(SortKey(a), SortKey(b)) && KeyLess(SortKey(b), SortKey(c)) {
      KeyTransitive(SortKey(a), SortKey(b), SortKey(c));
    }
    if LexLess(a.dll, b.dll) && LexLess(b.dll, c.dll) { LexTransitive(a.dll, b.dll, c.dll); }
  }

  lemma BeforeIrreflexive(a: Candidate)
    ensures !Before(a, a)
  {
    KeyIrreflexive(SortKey(a));
    LexIrreflexive(a.dll);
  }

  lemma {:induction false} InsertMembers(s: seq<Candidate>, c: Candidate)
    ensures InsertSorted(s, c) != []
    ensures multiset(InsertSorted(s, c)) == multiset(s) + multiset{c}
  {
    if s != [] && !Before(c, s[0]) {
      InsertMembers(s[1..], c);
      assert s == [s[0]] + s[1..];
    }
  }

  ghost predicate Sorted(s: seq<Candidate>) {
    forall i, j :: 0 <= i < j < |s| ==> !Before(s[j], s[i])
  }

  lemma {:induction false} InsertSortedKeeps(s: seq<Candidate>, c: Candidate)
    requires Sorted(s)
    ensures Sorted(InsertSorted(s, c))
  {
    if s != [] {
      if Before(c, s[0]) {
        forall j | 0 <= j < |s| ensures !Before(s[j], c) {
          if Before(s[j], c) {
            BeforeTransitive(s[j], c, s[0]);
            if j == 0 { BeforeIrreflexive(s[0]); }
          }
        }
      } else {
        InsertSortedKeeps(s[1..], c);
        InsertMembers(s[1..], c);
        var rest := InsertSorted(s[1..], c);
        forall j | 0 <= j < |rest| ensures !Before(rest[j], s[0]) {
          assert rest[j] in multiset(rest);
          if rest[j] != c { assert rest[j] in s[1..]; }
        }
      }
    }
  }

  lemma {:induction false} SortMeaning(cs: seq<Candidate>)
    ensures Sorted(Sort(cs)) && multiset(Sort(cs)) == multiset(cs)
  {
    if cs != [] {
      var init, last := cs[..|cs| - 1], cs[|cs| - 1];
      SortMeaning(init);
      InsertSortedKeeps(Sort(init), last);
      InsertMembers(Sort(init), last);
      assert cs == init + [last];
    }
  }

  lemma {:induction false} UnresolvedMembers(cs: seq<Candidate>, table: map<string, nat>, c: Candidate)
    ensures c in Unresolved(cs, table) <==> c in cs && !Resolved(c, table)
  {
    if cs != [] { UnresolvedMembers(cs[1..], table, c); }
  }

  /** `best` comes before every other member of `cs` on the first six keys alone. */
  ghost predicate Best(cs: seq<Candidate>, best: Candidate) {
    best in cs && forall c :: c in cs && c != best ==> KeyLess(SortKey(best), SortKey(c))
  }

  lemma BestUnique(cs: seq<Candidate>, a: Candidate, b: Candidate)
    requires Best(cs, a) && Best(cs, b)
    ensures a == b
  {
    if a != b {
      KeyTransitive(SortKey(a), SortKey(b), SortKey(a));
      KeyIrreflexive(SortKey(a));
    }
  }

  // ---------- the ranking ----------

  /** Rules 3 and 4 of the selection rules: how terminal a failure is, then app-local relevance.
      None when they leave the two tied. */
  function Relevance(a: Candidate, b: Candidate): Option<bool> {
    if a.kind != b.kind then Some(KindRank(a.kind) > KindRank(b.kind))
    else if a.score != b.score then Some(a.score > b.score)
    else if a.appLocalHint != b.appLocalHint then Some(a.appLocalHint)
    else if a.frameworkHint != b.frameworkHint then Some(b.frameworkHint)
    else None
  }

  /** The order of the code: relevance, then correlation, then the earlier candidate. */
  lemma RankingMeaning(a: Candidate, b: Candidate)
    ensures KeyLess(SortKey(a), SortKey(b)) <==>
            if Relevance(a, b).Some? then Relevance(a, b).value
            else if a.threadCorrelated != b.threadCorrelated then a.threadCorrelated
            else a.eventIdx < b.eventIdx
  {
    KindRanksDiffer(a.kind, b.kind);
    KeyLessSix(SortKey(a), SortKey(b));
  }

  lemma KeyLessSix(x: seq<int>, y: seq<int>)
    requires |x| == |y| == 6
    ensures KeyLess(x, y) <==>
            if x[0] != y[0] then x[0] < y[0]
            else if x[1] != y[1] then x[1] < y[1]
            else if x[2] != y[2] then x[2] < y[2]
            else if x[3] != y[3] then x[3] < y[3]
            else if x[4] != y[4] then x[4] < y[4]
            else x[5] < y[5]
  {
    KeyLessFrom(x, y, 0);
    KeyLessFrom(x, y, 1);
    KeyLessFrom(x, y, 2);
    KeyLessFrom(x, y, 3);
    KeyLessFrom(x, y, 4);
    KeyLessFrom(x, y, 5);
    assert x[0..] == x && y[0..] == y && x[6..] == [] && y[6..] == [];
  }

  lemma KeyLessFrom(x: seq<int>, y: seq<int>, i: nat)
    requires i < |x| == |y|
    ensures KeyLess(x[i..], y[i..]) <==> x[i] < y[i] || (x[i] == y[i] && KeyLess(x[i + 1..], y[i + 1..]))
  {
    assert x[i..][1..] == x[i + 1..] && y[i..][1..] == y[i + 1..];
  }

  lemma KindRanksDiffer(k: CandidateKind, k': CandidateKind)
    ensures KindRank(k) == KindRank(k') <==> k == k'
  {
  }

  ghost predicate Separate(cs: seq<Candidate>) {
    forall a, b :: a in cs && b in cs && a.eventIdx == b.eventIdx ==> a == b
  }

  /** Whatever sorts them: among candidates with separate event indices, the head of any
      sorted arrangement is the one that wins on the first six keys. */
  lemma SortedHeadIsBest(cs: seq<Candidate>, sorted: seq<Candidate>)
    requires Separate(cs) && Sorted(sorted) && multiset(sorted) == multiset(cs) && sorted != []
    ensures Best(cs, sorted[0])
  {
    var best := sorted[0];
    assert best in multiset(sorted);
    forall c | c in cs && c != best ensures KeyLess(SortKey(best), SortKey(c)) {
      assert c in multiset(sorted);
      var j :| 0 <= j < |sorted| && sorted[j] == c;
      assert !Before(sorted[j], sorted[0]);
      assert SortKey(best)[5] != SortKey(c)[5];
      KeyTotal(SortKey(best), SortKey(c));
    }
  }

  // ---------- the theorems ----------

  lemma IncreasingSeparate(cs: seq<Candidate>, n: nat)
    requires Increasing(cs, n)
    ensures Separate(cs)
  {
  }

  lemma UnresolvedSeparate(cs: seq<Candidate>, table: map<string, nat>)
    requires Separate(cs)
    ensures Separate(Unresolved(cs, table))
  {
    forall c | c in Unresolved(cs, table) ensures c in cs { UnresolvedMembers(cs, table, c); }
  }

  lemma WinnerIsBest(env: Env, events: seq<Event>)
    ensures var st := Run(Reading(env), events, |events|);
            var kept := Unresolved(st.candidates, st.successes);
            && (Winner(env, events).None? <==> kept == [])
            && (Winner(env, events).Some? ==> Best(kept, Winner(env, events).value))
  {
    var st := Run(Reading(env), events, |events|);
    var kept := Unresolved(st.candidates, st.successes);
    EventIndicesSeparate(env, events);
    IncreasingSeparate(st.candidates, |events|);
    UnresolvedSeparate(st.candidates, st.successes);
    SortMeaning(kept);
    if kept != [] {
      assert kept[0] in multiset(kept);
      SortedHeadIsBest(kept, Sort(kept));
    } else {
      assert |multiset(Sort(kept))| == 0;
    }
  }

  /** Selection against the offline specification: there is no winner exactly when every
      candidate is resolved; otherwise the winner is the one unresolved candidate that comes
      before all others on the first six keys, so the name and thread keys never decide. */
  lemma SelectionMeetsSpec(env: Env, events: seq<Event>)
    ensures var cs := Run(Reading(env), events, |events|).candidates;
            && (Winner(env, events).None? <==> forall c :: c in cs ==> ResolvedOffline(env, events, c))
            && (Winner(env, events).Some? ==>
                  var best := Winner(env, events).value;
                  && best in cs && !ResolvedOffline(env, events, best)
                  && forall c :: c in cs && !ResolvedOffline(env, events, c) && c != best ==>
                       KeyLess(SortKey(best), SortKey(c)))
  {
    var st := Run(Reading(env), events, |events|);
    var kept := Unresolved(st.candidates, st.successes);
    WinnerIsBest(env, events);
    forall c ensures c in kept <==> c in st.candidates && !ResolvedOffline(env, events, c) {
      UnresolvedMembers(st.candidates, st.successes, c);
      ResolvedIsOffline(env, events, c);
    }
    assert kept != [] ==> kept[0] in kept;
  }

  // ---------- what cannot change the winner ----------

  lemma {:induction false} UnresolvedIgnoresStatus(a: seq<Candidate>, b: seq<Candidate>, table: map<string, nat>)
    requires OnlyStatusDiffers(a, b)
    ensures OnlyStatusDiffers(Unresolved(a, table), Unresolved(b, table))
  {
    if a != [] {
      assert EraseStatus(a[0]) == EraseStatus(b[0]);
      SameResolved(a[0], b[0], table);
      TailsDiffer(a, b);
      UnresolvedIgnoresStatus(a[1..], b[1..], table);
      var x, y := Unresolved(a[1..], table), Unresolved(b[1..], table);
      ConsDiffers(a[0], b[0], x, y);
      UnresolvedFront(a, table);
      UnresolvedFront(b, table);
    }
  }

  lemma UnresolvedFront(cs: seq<Candidate>, table: map<string, nat>)
    requires cs != []
    ensures var rest := Unresolved(cs[1..], table);
            Unresolved(cs, table) == if Resolved(cs[0], table) then rest else [cs[0]] + rest
  {
  }

  lemma SameResolved(a: Candidate, b: Candidate, table: map<string, nat>)
    requires EraseStatus(a) == EraseStatus(b)
    ensures Resolved(a, table) == Resolved(b, table)
  {
  }

  lemma TailsDiffer(a: seq<Candidate>, b: seq<Candidate>)
    requires OnlyStatusDiffers(a, b) && a != []
    ensures OnlyStatusDiffers(a[1..], b[1..])
  {
  }

  lemma ConsDiffers(a: Candidate, b: Candidate, x: seq<Candidate>, y: seq<Candidate>)
    requires EraseStatus(a) == EraseStatus(b) && OnlyStatusDiffers(x, y)
    ensures OnlyStatusDiffers([a] + x, [b] + y)
  {
  }

  lemma SameSortKey(a: Candidate, b: Candidate)
    requires EraseStatus(a) == EraseStatus(b)
    ensures SortKey(a) == SortKey(b)
  {
  }

  lemma NotBothLess(a: seq<int>, b: seq<int>)
    ensures !(KeyLess(a, b) && KeyLess(b, a))
  {
    if KeyLess(a, b) && KeyLess(b, a) {
      KeyTransitive(a, b, a);
      KeyIrreflexive(a);
    }
  }

  lemma BestIgnoresStatus(a: seq<Candidate>, b: seq<Candidate>, x: Candidate, y: Candidate)
    requires OnlyStatusDiffers(a, b) && Best(a, x) && Best(b, y)
    ensures EraseStatus(x) == EraseStatus(y)
  {
    var i :| 0 <= i < |a| && a[i] == x;
    var j :| 0 <= j < |b| && b[j] == y;
    assert EraseStatus(x) == EraseStatus(b[i]);
    assert EraseStatus(a[j]) == EraseStatus(y);
    SameSortKey(x, b[i]);
    SameSortKey(a[j], y);
    NotBothLess(SortKey(x), SortKey(y));
    assert b[i] in b && a[j] in a;
  }

  /** Back-fill cannot change the winner: there is one exactly when some candidate is unresolved
      as it was raised, and up to status and reason it is the best of these. */
  lemma BackfillKeepsWinner(env: Env, events: seq<Event>)
    ensures var kept := Unresolved(Raised(env, events, |events|), Run(Reading(env), events, |events|).successes);
            && (Winner(env, events).None? <==> kept == [])
            && (forall best :: Best(kept, best) ==>
                  Winner(env, events).Some? && EraseStatus(Winner(env, events).value) == EraseStatus(best))
  {
    var st := Run(Reading(env), events, |events|);
    var raised := Raised(env, events, |events|);
    var kept, keptRaised := Unresolved(st.candidates, st.successes), Unresolved(raised, st.successes);
    CandidatesAreRaised(env, events, |events|);
    UnresolvedIgnoresStatus(st.candidates, raised, st.successes);
    WinnerIsBest(env, events);
    forall best | Best(keptRaised, best) ensures EraseStatus(Winner(env, events).value) == EraseStatus(best) {
      BestIgnoresStatus(kept, keptRaised, Winner(env, events).value, best);
    }
  }

  function NotNamed(cs: seq<Candidate>, d: string): seq<Candidate> {
    if cs == [] then [] else (if cs[0].dll == d then [] else [cs[0]]) + NotNamed(cs[1..], d)
  }

  lemma {:induction false} UnresolvedAfterLoad(cs: seq<Candidate>, table: map<string, nat>, d: string, n: nat)
    requires forall i :: 0 <= i < |cs| ==> cs[i].eventIdx < n
    ensures Unresolved(cs, RecordSuccess(table, d, n)) == NotNamed(Unresolved(cs, table), d)
  {
    if cs != [] {
      UnresolvedAfterLoad(cs[1..], table, d, n);
      var rest := Unresolved(cs[1..], table);
      if !Resolved(cs[0], table) {
        assert Unresolved(cs, table) == [cs[0]] + rest;
        assert ([cs[0]] + rest)[1..] == rest;
      } else {
        assert Unresolved(cs, table) == [] + rest == rest;
      }
    }
  }

  /** A later load of `d` removes exactly the candidates named `d` from the running: the
      selection after it is the selection among the others. */
  lemma LaterLoadRemovesItsName(env: Env, events: seq<Event>, d: string)
    ensures var st := Run(Reading(env), events, |events|);
            Winner(env, events + [Loaded(d)]) == Head(Sort(NotNamed(Unresolved(st.candidates, st.successes), d)))
  {
    var st := Run(Reading(env), events, |events|);
    RunAfterLoad(Reading(env), events, d);
    EventIndicesSeparate(env, events);
    UnresolvedAfterLoad(st.candidates, st.successes, d, |events|);
  }

  lemma RunAfterLoad(read: Reader, events: seq<Event>, d: string)
    ensures var st, longer := Run(read, events, |events|), events + [Loaded(d)];
            Run(read, longer, |longer|) == st.(successes := RecordSuccess(st.successes, d, |events|))
  {
    RunPrefix(read, events, [Loaded(d)], |events|);
  }

  lemma {:induction false} RunPrefix(read: Reader, events: seq<Event>, more: seq<Event>, n: nat)
    requires n <= |events|
    ensures Run(read, events + more, n) == Run(read, events, n)
  {
    if n > 0 { RunPrefix(read, events, more, n - 1); }
  }
}
