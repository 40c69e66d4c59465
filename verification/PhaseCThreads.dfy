/**
 Threads do not interfere in the dynamic-failure inference: what a thread's debug strings
 raise is what they would raise on their own.
 */
module PhaseCThreads {
  import opened Wrappers
  import opened LoaderLine
  import opened PhaseC

  // ---------- what one event can touch ----------

  /** A candidate raised by an event belongs to that event. */
  ghost predicate Owned(e: Effect, idx: nat, tid: Tid) {
    e.candidate.Some? ==> e.candidate.value.tid == tid && e.candidate.value.eventIdx == idx
  }

  function Reindexed(c: Candidate, idx: nat): Candidate {
    c.(eventIdx := idx)
  }

  /** The same effect at another index. */
  function EffectAt(e: Effect, idx: nat): Effect {
    if e.candidate.Some? then e.(candidate := Some(Reindexed(e.candidate.value, idx))) else e
  }

  /** All that the fold needs to know of a line reader: candidates carry the index and the
      thread of their line, and nothing else depends on the index. */
  ghost predicate Lawful(read: Reader) {
    && (forall idx: nat, tid: Tid, line: Line, ctx: Option<LoadContext> :: Owned(read(idx, tid, line, ctx), idx, tid))
    && (forall idx: nat, tid: Tid, line: Line, ctx: Option<LoadContext> ::
          read(idx, tid, line, ctx) == EffectAt(read(0, tid, line, ctx), idx))
  }

  lemma ReadingMoves(env: Env, idx: nat, tid: Tid, line: Line, ctx: Option<LoadContext>)
    ensures Owned(EffectOf(env, idx, tid, line, ctx), idx, tid)
    ensures EffectOf(env, idx, tid, line, ctx) == EffectAt(EffectOf(env, 0, tid, line, ctx), idx)
  {
  }

  lemma ReadingIsLawful(env: Env)
    ensures Lawful(Reading(env))
  {
    forall idx: nat, tid: Tid, line: Line, ctx: Option<LoadContext>
      ensures Owned(Reading(env)(idx, tid, line, ctx), idx, tid)
      ensures Reading(env)(idx, tid, line, ctx) == EffectAt(Reading(env)(0, tid, line, ctx), idx)
    {
      ReadingMoves(env, idx, tid, line, ctx);
    }
  }

  lemma EffectMoves(read: Reader, idx: nat, idx': nat, tid: Tid, line: Line, ctx: Option<LoadContext>)
    requires Lawful(read)
    ensures read(idx', tid, line, ctx) == EffectAt(read(idx, tid, line, ctx), idx')
  {
  }

  /** A remembered candidate belongs to the thread that remembers it. */
  ghost predicate Wf(st: Fold) {
    forall u :: u in st.lastFailure ==>
      st.lastFailure[u] < |st.candidates| && st.candidates[st.lastFailure[u]].tid == u
  }

  lemma ApplyWf(st: Fold, idx: nat, tid: Tid, e: Effect)
    requires Wf(st) && Owned(e, idx, tid)
    ensures Wf(Apply(st, idx, tid, e))
  {
  }

  lemma StepWf(read: Reader, st: Fold, idx: nat, event: Event)
    requires Lawful(read)
    requires Wf(st)
    ensures Wf(Step(read, st, idx, event))
  {
    match event
    case Loaded(_) =>
    case Debug(tid, line) =>
      var e := read(idx, tid, line, Lookup(st.lastLoad, tid));
      ApplyWf(st, idx, tid, e);
  }

  lemma NextWf(read: Reader, events: seq<Event>, n: nat)
    requires Lawful(read)
    requires n < |events| && Wf(Run(read, events, n))
    ensures Wf(Run(read, events, n + 1))
  {
    StepWf(read, Run(read, events, n), n, events[n]);
  }

  lemma {:induction false} RunWf(read: Reader, events: seq<Event>, n: nat)
    requires Lawful(read)
    requires n <= |events|
    ensures Wf(Run(read, events, n))
  {
    if n > 0 {
      RunWf(read, events, n - 1);
      NextWf(read, events, n - 1);
    }
  }

  // ---------- one thread's candidates ----------

  function OnThread(cs: seq<Candidate>, t: Tid): seq<Candidate> {
    if cs == [] then []
    else OnThread(cs[..|cs| - 1], t) + (if cs[|cs| - 1].tid == t then [cs[|cs| - 1]] else [])
  }

  lemma OnThreadPush(cs: seq<Candidate>, c: Candidate, t: Tid)
    ensures OnThread(cs + [c], t) == OnThread(cs, t) + (if c.tid == t then [c] else [])
  {
    assert (cs + [c])[..|cs + [c]| - 1] == cs;
  }

  /** Where candidate `i` sits among those of its thread. */
  function Rank(cs: seq<Candidate>, i: nat, t: Tid): nat
    requires i <= |cs|
  {
    |OnThread(cs[..i], t)|
  }

  lemma {:induction false} RankInRange(cs: seq<Candidate>, i: nat, t: Tid)
    requires i < |cs| && cs[i].tid == t
    ensures Rank(cs, i, t) < |OnThread(cs, t)| && OnThread(cs, t)[Rank(cs, i, t)] == cs[i]
  {
    var init := cs[..|cs| - 1];
    if i < |cs| - 1 {
      RankInRange(init, i, t);
      assert init[..i] == cs[..i];
    }
  }

  lemma {:induction false} OnThreadUpdate(cs: seq<Candidate>, i: nat, c: Candidate, t: Tid)
    requires i < |cs| && c.tid == cs[i].tid
    ensures c.tid != t ==> OnThread(cs[i := c], t) == OnThread(cs, t)
    ensures c.tid == t ==> Rank(cs, i, t) < |OnThread(cs, t)|
                           && OnThread(cs[i := c], t) == OnThread(cs, t)[Rank(cs, i, t) := c]
    decreases |cs|
  {
    var init := cs[..|cs| - 1];
    if i < |cs| - 1 {
      OnThreadUpdate(init, i, c, t);
      assert init[..i] == cs[..i];
      assert cs[i := c][..|cs| - 1] == init[i := c];
    } else {
      assert cs[i := c][..|cs| - 1] == init;
    }
  }

  // ---------- what a thread sees ----------

  /** One thread's share of the tables: its pending load, its candidates, and which of those
      its next failing return would complete. */
  datatype Local = Local(ctx: Option<LoadContext>, candidates: seq<Candidate>, last: Option<nat>)

  function Project(st: Fold, t: Tid): Local {
    Local(Lookup(st.lastLoad, t), OnThread(st.candidates, t),
          if t in st.lastFailure && st.lastFailure[t] < |st.candidates|
          then Some(Rank(st.candidates, st.lastFailure[t], t)) else None)
  }

  function LocalApply(l: Local, e: Effect): Local {
    var filled := Backfill(l.candidates, l.last, e.backfill);
    Local(e.ctx,
          if e.candidate.Some? then filled + [e.candidate.value] else filled,
          if e.candidate.Some? && !e.candidate.value.threadCorrelated then Some(|filled|)
          else if e.ended then None else l.last)
  }

  lemma BackfillOther(cs: seq<Candidate>, at: Option<nat>, fill: Option<(nat, Reason)>, t: Tid)
    requires at.Some? ==> at.value < |cs| && cs[at.value].tid != t
    ensures |Backfill(cs, at, fill)| == |cs|
    ensures OnThread(Backfill(cs, at, fill), t) == OnThread(cs, t)
    ensures forall i :: 0 <= i <= |cs| ==> OnThread(Backfill(cs, at, fill)[..i], t) == OnThread(cs[..i], t)
  {
    var r := Backfill(cs, at, fill);
    if r != cs {
      OnThreadUpdate(cs, at.value, r[at.value], t);
      forall i | 0 <= i <= |cs| ensures OnThread(r[..i], t) == OnThread(cs[..i], t) {
        if at.value < i {
          assert r[..i] == cs[..i][at.value := r[at.value]];
          OnThreadUpdate(cs[..i], at.value, r[at.value], t);
        } else {
          assert r[..i] == cs[..i];
        }
      }
    }
  }

  lemma OtherThreadAddsNothing(st: Fold, t: Tid, idx: nat, u: Tid, e: Effect)
    requires Wf(st) && u != t && Owned(e, idx, u)
    ensures var r := Apply(st, idx, u, e).candidates;
            && |st.candidates| <= |r|
            && OnThread(r, t) == OnThread(st.candidates, t)
            && forall i :: 0 <= i <= |st.candidates| ==> OnThread(r[..i], t) == OnThread(st.candidates[..i], t)
  {
    var r := Apply(st, idx, u, e).candidates;
    var filled := Backfill(st.candidates, Lookup(st.lastFailure, u), e.backfill);
    BackfillOther(st.candidates, Lookup(st.lastFailure, u), e.backfill, t);
    if e.candidate.Some? { OnThreadPush(filled, e.candidate.value, t); }
    forall i | 0 <= i <= |st.candidates| ensures r[..i] == filled[..i] {}
  }

  /** Another thread's line changes nothing a thread can see. */
  lemma OtherThreadInvisible(st: Fold, t: Tid, idx: nat, u: Tid, e: Effect)
    requires Wf(st) && u != t && Owned(e, idx, u)
    ensures Project(Apply(st, idx, u, e), t) == Project(st, t)
  {
    OtherThreadAddsNothing(st, t, idx, u, e);
  }

  lemma BackfillOwn(cs: seq<Candidate>, at: Option<nat>, fill: Option<(nat, Reason)>, t: Tid)
    requires at.Some? ==> at.value < |cs| && cs[at.value].tid == t
    ensures |Backfill(cs, at, fill)| == |cs|
    ensures OnThread(Backfill(cs, at, fill), t)
         == Backfill(OnThread(cs, t), if at.Some? then Some(Rank(cs, at.value, t)) else None, fill)
    ensures at.Some? ==> Backfill(cs, at, fill)[..at.value] == cs[..at.value]
  {
    if at.Some? {
      RankInRange(cs, at.value, t);
      var r := Backfill(cs, at, fill);
      if r != cs { OnThreadUpdate(cs, at.value, r[at.value], t); }
    }
  }

  /** Its own line changes its share as it would change the share alone. */
  lemma OwnLineIsLocal(st: Fold, t: Tid, idx: nat, e: Effect)
    requires Wf(st) && Owned(e, idx, t)
    ensures Project(Apply(st, idx, t, e), t) == LocalApply(Project(st, t), e)
  {
    var at := Lookup(st.lastFailure, t);
    var filled := Backfill(st.candidates, at, e.backfill);
    var r := Apply(st, idx, t, e);
    BackfillOwn(st.candidates, at, e.backfill, t);
    if e.candidate.Some? {
      OnThreadPush(filled, e.candidate.value, t);
      assert r.candidates[..|filled|] == filled;
      if at.Some? { assert r.candidates[..at.value] == filled[..at.value]; }
    }
    BackfillLength(OnThread(st.candidates, t), Project(st, t).last, e.backfill);
  }

  lemma BackfillLength(cs: seq<Candidate>, at: Option<nat>, fill: Option<(nat, Reason)>)
    ensures |Backfill(cs, at, fill)| == |cs|
  {
  }

  // ---------- the thread's own trace ----------

  predicate IsOwn(e: Event, t: Tid) {
    e.Debug? && e.tid == t
  }

  /** The positions of the thread's debug strings among the first `n` events. */
  function OwnPositions(events: seq<Event>, n: nat, t: Tid): seq<nat>
    requires n <= |events|
  {
    if n == 0 then []
    else if IsOwn(events[n - 1], t) then OwnPositions(events, n - 1, t) + [n - 1]
    else OwnPositions(events, n - 1, t)
  }

  /** Those debug strings, as lines. */
  function OwnLines(events: seq<Event>, n: nat, t: Tid): seq<Line>
    requires n <= |events|
  {
    if n == 0 then []
    else if IsOwn(events[n - 1], t) then OwnLines(events, n - 1, t) + [events[n - 1].line]
    else OwnLines(events, n - 1, t)
  }

  lemma {:induction false} OwnPositionsMeaning(events: seq<Event>, n: nat, t: Tid)
    requires n <= |events|
    ensures var pos, lines := OwnPositions(events, n, t), OwnLines(events, n, t);
            && |pos| == |lines|
            && (forall j :: 0 <= j < |pos| ==> pos[j] < n && events[pos[j]] == Debug(t, lines[j]))
            && (forall i, j :: 0 <= i < j < |pos| ==> pos[i] < pos[j])
            && (forall i :: 0 <= i < n && IsOwn(events[i], t) ==> i in pos)
  {
    if n > 0 {
      OwnPositionsMeaning(events, n - 1, t);
      var pos := OwnPositions(events, n - 1, t);
      if IsOwn(events[n - 1], t) { assert (pos + [n - 1])[|pos|] == n - 1; }
    }
  }

  /** Running one thread's lines, the `j`-th of which carries the index `pos[j]`. */
  function LocalRun(read: Reader, t: Tid, lines: seq<Line>, pos: seq<nat>): Local
    requires |lines| == |pos|
  {
    if lines == [] then Local(None, [], None)
    else
      var n := |lines| - 1;
      var l := LocalRun(read, t, lines[..n], pos[..n]);
      LocalApply(l, read(pos[n], t, lines[n], l.ctx))
  }

  lemma LocalRunPush(read: Reader, t: Tid, lines: seq<Line>, pos: seq<nat>, line: Line, p: nat)
    requires |lines| == |pos|
    ensures var l := LocalRun(read, t, lines, pos);
            LocalRun(read, t, lines + [line], pos + [p]) == LocalApply(l, read(p, t, line, l.ctx))
  {
    assert (lines + [line])[..|lines|] == lines && (pos + [p])[..|lines|] == pos;
  }

  /** A sequence of shares that changes at the thread's own events only, as they say. */
  ghost predicate Follows(read: Reader, share: nat -> Local, events: seq<Event>, m: nat, t: Tid)
    requires m < |events|
  {
    share(m + 1) == if IsOwn(events[m], t)
                    then LocalApply(share(m), read(m, t, events[m].line, share(m).ctx)) else share(m)
  }

  lemma {:induction false} SharesAreLocalRuns(read: Reader, share: nat -> Local, events: seq<Event>, n: nat, t: Tid)
    requires n <= |events| && share(0) == Local(None, [], None)
    requires forall m :: 0 <= m < n ==> Follows(read, share, events, m, t)
    ensures |OwnPositions(events, n, t)| == |OwnLines(events, n, t)|
    ensures share(n) == LocalRun(read, t, OwnLines(events, n, t), OwnPositions(events, n, t))
  {
    if n > 0 {
      SharesAreLocalRuns(read, share, events, n - 1, t);
      assert Follows(read, share, events, n - 1, t);
      if IsOwn(events[n - 1], t) {
        LocalRunPush(read, t, OwnLines(events, n - 1, t), OwnPositions(events, n - 1, t), events[n - 1].line, n - 1);
      }
    }
  }

  lemma StepFollows(read: Reader, events: seq<Event>, m: nat, t: Tid)
    requires Lawful(read)
    requires m < |events|
    ensures Project(Run(read, events, m + 1), t)
         == if IsOwn(events[m], t)
            then LocalApply(Project(Run(read, events, m), t),
                            read(m, t, events[m].line, Project(Run(read, events, m), t).ctx))
            else Project(Run(read, events, m), t)
  {
    RunWf(read, events, m);
    StepIsLocal(read, Run(read, events, m), m, events[m], t);
  }

  function ShareAt(read: Reader, events: seq<Event>, t: Tid): nat -> Local {
    (m: nat) => if m <= |events| then Project(Run(read, events, m), t) else Local(None, [], None)
  }

  lemma ShareFollows(read: Reader, events: seq<Event>, m: nat, t: Tid)
    requires Lawful(read)
    requires m < |events|
    ensures Follows(read, ShareAt(read, events, t), events, m, t)
  {
    StepFollows(read, events, m, t);
    assert ShareAt(read, events, t)(m) == Project(Run(read, events, m), t);
    assert ShareAt(read, events, t)(m + 1) == Project(Run(read, events, m + 1), t);
  }

  /** The share of thread `t` in the whole run is the run of its own lines. */
  lemma RunIsLocal(read: Reader, events: seq<Event>, n: nat, t: Tid)
    requires Lawful(read)
    requires n <= |events|
    ensures |OwnPositions(events, n, t)| == |OwnLines(events, n, t)|
    ensures Project(Run(read, events, n), t) == LocalRun(read, t, OwnLines(events, n, t), OwnPositions(events, n, t))
  {
    forall m | 0 <= m < n ensures Follows(read, ShareAt(read, events, t), events, m, t) {
      ShareFollows(read, events, m, t);
    }
    SharesAreLocalRuns(read, ShareAt(read, events, t), events, n, t);
  }

  lemma StepIsLocal(read: Reader, st: Fold, idx: nat, event: Event, t: Tid)
    requires Lawful(read)
    requires Wf(st)
    ensures Project(Step(read, st, idx, event), t)
         == if IsOwn(event, t) then LocalApply(Project(st, t), read(idx, t, event.line, Project(st, t).ctx))
            else Project(st, t)
  {
    match event
    case Loaded(_) =>
    case Debug(u, line) =>
      var e := read(idx, u, line, Lookup(st.lastLoad, u));
      if u == t { OwnLineIsLocal(st, t, idx, e); } else { OtherThreadInvisible(st, t, idx, u, e); }
  }

  // ---------- event indices ----------

  ghost predicate InRange(cs: seq<Candidate>, n: nat) {
    forall i :: 0 <= i < |cs| ==> cs[i].eventIdx < n
  }

  /** The candidates with their event indices read through `pos`. */
  ghost predicate IsRelabelled(relabelled: seq<Candidate>, cs: seq<Candidate>, pos: seq<nat>) {
    && |relabelled| == |cs|
    && InRange(cs, |pos|)
    && forall i :: 0 <= i < |cs| ==> relabelled[i] == Reindexed(cs[i], pos[cs[i].eventIdx])
  }

  function Counting(n: nat): seq<nat> {
    if n == 0 then [] else Counting(n - 1) + [n - 1]
  }

  lemma {:induction false} CountingMeaning(n: nat)
    ensures |Counting(n)| == n && forall i :: 0 <= i < n ==> Counting(n)[i] == i
  {
    if n > 0 { CountingMeaning(n - 1); }
  }

  lemma BackfillRelabelled(a: seq<Candidate>, b: seq<Candidate>, at: Option<nat>, fill: Option<(nat, Reason)>,
                           pos: seq<nat>)
    requires IsRelabelled(b, a, pos)
    ensures IsRelabelled(Backfill(b, at, fill), Backfill(a, at, fill), pos)
  {
  }

  lemma PushRelabelled(a: seq<Candidate>, b: seq<Candidate>, c: Candidate, idx: nat, pos: seq<nat>)
    requires IsRelabelled(b, a, pos) && c.eventIdx == |pos|
    ensures IsRelabelled(b + [Reindexed(c, idx)], a + [c], pos + [idx])
  {
  }

  lemma ApplyRelabelled(a: Local, b: Local, e: Effect, idx: nat, pos: seq<nat>)
    requires a.ctx == b.ctx && a.last == b.last && IsRelabelled(b.candidates, a.candidates, pos)
    requires e.candidate.Some? ==> e.candidate.value.eventIdx == |pos|
    ensures var a', b' := LocalApply(a, e), LocalApply(b, EffectAt(e, idx));
            a'.ctx == b'.ctx && a'.last == b'.last && IsRelabelled(b'.candidates, a'.candidates, pos + [idx])
  {
    BackfillRelabelled(a.candidates, b.candidates, a.last, e.backfill, pos);
    if e.candidate.Some? {
      PushRelabelled(Backfill(a.candidates, a.last, e.backfill), Backfill(b.candidates, b.last, e.backfill),
                     e.candidate.value, idx, pos);
    }
  }

  lemma {:induction false} LocalRunRelabelled(read: Reader, t: Tid, lines: seq<Line>, pos: seq<nat>)
    requires Lawful(read)
    requires |lines| == |pos|
    ensures |Counting(|lines|)| == |lines|
    ensures var a, b := LocalRun(read, t, lines, Counting(|lines|)), LocalRun(read, t, lines, pos);
            a.ctx == b.ctx && a.last == b.last && IsRelabelled(b.candidates, a.candidates, pos)
    decreases |lines|
  {
    CountingMeaning(|lines|);
    if lines != [] {
      var n := |lines| - 1;
      CountingMeaning(n);
      LocalRunRelabelled(read, t, lines[..n], pos[..n]);
      assert Counting(|lines|)[..n] == Counting(n);
      var a := LocalRun(read, t, lines[..n], Counting(n));
      var b := LocalRun(read, t, lines[..n], pos[..n]);
      EffectMoves(read, n, pos[n], t, lines[n], a.ctx);
      ApplyRelabelled(a, b, read(n, t, lines[n], a.ctx), pos[n], pos[..n]);
      assert pos[..n] + [pos[n]] == pos;
    }
  }

  // ---------- the theorem ----------

  /** The trace of one thread's lines and nothing else. */
  function Alone(t: Tid, lines: seq<Line>): seq<Event> {
    if lines == [] then [] else Alone(t, lines[..|lines| - 1]) + [Debug(t, lines[|lines| - 1])]
  }

  lemma {:induction false} AloneIsOwn(t: Tid, lines: seq<Line>)
    ensures |Alone(t, lines)| == |lines|
    ensures forall i :: 0 <= i < |lines| ==> Alone(t, lines)[i] == Debug(t, lines[i])
  {
    if lines != [] { AloneIsOwn(t, lines[..|lines| - 1]); }
  }

  lemma {:induction false} AloneOwnLines(events: seq<Event>, t: Tid, lines: seq<Line>, n: nat)
    requires n <= |events| == |lines| && forall i :: 0 <= i < |lines| ==> events[i] == Debug(t, lines[i])
    ensures OwnLines(events, n, t) == lines[..n] && OwnPositions(events, n, t) == Counting(n)
  {
    if n > 0 {
      AloneOwnLines(events, t, lines, n - 1);
      assert lines[..n] == lines[..n - 1] + [lines[n - 1]];
    }
  }

  ghost predicate AllOf(cs: seq<Candidate>, t: Tid) {
    forall i :: 0 <= i < |cs| ==> cs[i].tid == t
  }

  /** A trace of one thread raises candidates of that thread only. */
  lemma {:induction false} AllOnThread(read: Reader, events: seq<Event>, n: nat, t: Tid)
    requires Lawful(read)
    requires n <= |events| && forall i :: 0 <= i < |events| ==> IsOwn(events[i], t)
    ensures AllOf(Run(read, events, n).candidates, t)
  {
    if n > 0 {
      AllOnThread(read, events, n - 1, t);
      StepOnThread(read, Run(read, events, n - 1), n - 1, events[n - 1], t);
    }
  }

  lemma StepOnThread(read: Reader, st: Fold, idx: nat, event: Event, t: Tid)
    requires Lawful(read)
    requires IsOwn(event, t) && AllOf(st.candidates, t)
    ensures AllOf(Step(read, st, idx, event).candidates, t)
  {
    var e := read(idx, t, event.line, Lookup(st.lastLoad, t));
    ApplyOnThread(st, idx, t, e);
  }

  lemma ApplyOnThread(st: Fold, idx: nat, t: Tid, e: Effect)
    requires Owned(e, idx, t) && AllOf(st.candidates, t)
    ensures AllOf(Apply(st, idx, t, e).candidates, t)
  {
  }

  lemma {:induction false} OnThreadAll(cs: seq<Candidate>, t: Tid)
    requires AllOf(cs, t)
    ensures OnThread(cs, t) == cs
  {
    if cs != [] {
      var init, last := cs[..|cs| - 1], cs[|cs| - 1];
      OnThreadAll(init, t);
      OnThreadPush(init, last, t);
      assert cs == init + [last];
    }
  }

  /** Threads do not interfere. The candidates of thread `t` in the interleaved trace, status
      and reason after back-fill included, are those of a run on t's debug strings alone,
      with event indices mapped through the strictly increasing list of t's positions. */
  lemma ThreadsAreIsolated(env: Env, events: seq<Event>, t: Tid)
    ensures var lines, pos := OwnLines(events, |events|, t), OwnPositions(events, |events|, t);
            var own := Alone(t, lines);
            && |own| == |pos| == |lines|
            && (forall i, j :: 0 <= i < j < |pos| ==> pos[i] < pos[j])
            && (forall j :: 0 <= j < |pos| ==> pos[j] < |events| && events[pos[j]] == own[j])
            && (forall i :: 0 <= i < |events| && IsOwn(events[i], t) ==> i in pos)
            && IsRelabelled(OnThread(Run(Reading(env), events, |events|).candidates, t),
                         Run(Reading(env), own, |own|).candidates, pos)
  {
    var lines, pos := OwnLines(events, |events|, t), OwnPositions(events, |events|, t);
    var own := Alone(t, lines);
    OwnPositionsMeaning(events, |events|, t);
    AloneIsOwn(t, lines);
    var read := Reading(env);
    ReadingIsLawful(env);
    RunIsLocal(read, events, |events|, t);
    RunIsLocal(read, own, |own|, t);
    AloneOwnLines(own, t, lines, |lines|);
    assert lines[..|lines|] == lines;
    LocalRunRelabelled(read, t, lines, pos);
    AllOnThread(read, own, |own|, t);
    OnThreadAll(Run(read, own, |own|).candidates, t);
  }
}
