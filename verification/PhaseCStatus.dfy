/**
 The status of a candidate, stated offline: what the line that raised it says, or else what the
 next return of its thread says, unless the thread raised another one before.
 */
module PhaseCStatus {
  import opened Wrappers
  import opened LoaderLine
  import opened PhaseC
  import opened PhaseCSelection

  // ---------- the candidate that a return would fill ----------

  /** Event `i` raises a candidate of thread `t` that is not inferred from its pending load. */
  predicate RaisesOwn(env: Env, events: seq<Event>, i: nat, t: Tid)
    requires i < |events|
  {
    var c := RaisedAt(env, events, i);
    c.Some? && c.value.tid == t && !c.value.threadCorrelated
  }

  /** The event of the thread's last such candidate that no return has closed. */
  function OpenCandidate(env: Env, events: seq<Event>, t: Tid, n: nat): Option<nat>
    requires n <= |events|
  {
    if n == 0 then None
    else if RaisesOwn(env, events, n - 1, t) then Some(n - 1)
    else if ClosesLoad(events[n - 1], t) then None
    else OpenCandidate(env, events, t, n - 1)
  }

  /** The candidate raised at `i` is open before event `n`: since then the thread has neither raised
      another one nor returned from a load. */
  ghost predicate OpenBefore(env: Env, events: seq<Event>, t: Tid, i: nat, n: nat)
    requires n <= |events|
  {
    && i < n && RaisesOwn(env, events, i, t)
    && forall j :: i < j < n ==> !RaisesOwn(env, events, j, t) && !ClosesLoad(events[j], t)
  }

  lemma {:induction false} OpenCandidateMeaning(env: Env, events: seq<Event>, t: Tid, n: nat, i: nat)
    requires n <= |events|
    ensures OpenCandidate(env, events, t, n) == Some(i) <==> OpenBefore(env, events, t, i, n)
  {
    if n > 0 { OpenCandidateMeaning(env, events, t, n - 1, i); }
  }

  // ---------- what a return fills in ----------

  /** The status and reason that event `j` offers to the open candidate of its thread. */
  function Offer(events: seq<Event>, j: nat, t: Tid): Option<(nat, Reason)>
    requires j < |events|
  {
    if !ClosesLoad(events[j], t) then None
    else
      var status := ReturnStatus(events[j].line).value;
      if status != 0 && IsLoaderRelatedCode(status) then Some((status, events[j].line.reason)) else None
  }

  function FilledWith(c: Candidate, fill: Option<(nat, Reason)>): Candidate {
    if c.status.None? && fill.Some? then c.(status := Some(fill.value.0), reason := fill.value.1) else c
  }

  /** The candidate raised at `i` as it stands before event `n`. */
  function Standing(env: Env, events: seq<Event>, i: nat, n: nat): Candidate
    requires i < n <= |events| && RaisedAt(env, events, i).Some?
  {
    if n == i + 1 then RaisedAt(env, events, i).value
    else
      var before, t := Standing(env, events, i, n - 1), RaisedAt(env, events, i).value.tid;
      if OpenCandidate(env, events, t, n - 1) == Some(i) then FilledWith(before, Offer(events, n - 1, t)) else before
  }

  ghost predicate Stands(env: Env, events: seq<Event>, c: Candidate, n: nat)
    requires n <= |events|
  {
    c.eventIdx < n && RaisedAt(env, events, c.eventIdx).Some? && c == Standing(env, events, c.eventIdx, n)
  }

  /** The table of last failures points at the open candidates. */
  ghost predicate PointsAtOpen(env: Env, events: seq<Event>, st: Fold, t: Tid, n: nat)
    requires n <= |events|
  {
    match OpenCandidate(env, events, t, n)
    case None => t !in st.lastFailure
    case Some(i) =>
      t in st.lastFailure && st.lastFailure[t] < |st.candidates| && st.candidates[st.lastFailure[t]].eventIdx == i
  }

  lemma EffectParts(env: Env, events: seq<Event>, n: nat)
    requires n < |events| && events[n].Debug?
    ensures var e, t := EffectAtEvent(env, events, n), events[n].tid;
            && (e.ended <==> ClosesLoad(events[n], t))
            && e.backfill == Offer(events, n, t)
            && e.candidate == RaisedAt(env, events, n)
  {
  }

  lemma OthersKeep(env: Env, events: seq<Event>, n: nat, t: Tid)
    requires n < |events|
    ensures events[n].Loaded? || events[n].tid != t ==> !ClosesLoad(events[n], t) && !RaisesOwn(env, events, n, t)
  {
    if RaisedAt(env, events, n).Some? { RaisedOwned(env, events, n); }
  }

  /** What one debug string does to the candidates and the table. */
  lemma DebugStep(env: Env, events: seq<Event>, n: nat)
    requires n < |events| && events[n].Debug?
    ensures var st, st', t := Run(Reading(env), events, n), Run(Reading(env), events, n + 1), events[n].tid;
            var filled := Backfill(st.candidates, Lookup(st.lastFailure, t), Offer(events, n, t));
            && st'.candidates == Pushed(filled, RaisedAt(env, events, n))
            && (forall u :: u != t ==> Lookup(st'.lastFailure, u) == Lookup(st.lastFailure, u))
            && Lookup(st'.lastFailure, t) ==
                 if RaisesOwn(env, events, n, t) then Some(|filled|)
                 else if ClosesLoad(events[n], t) then None else Lookup(st.lastFailure, t)
  {
    var st, t := Run(Reading(env), events, n), events[n].tid;
    LastLoadIsPending(env, events, t, n);
    StepIsApply(env, st, n, t, events[n].line, EffectAtEvent(env, events, n));
    EffectParts(env, events, n);
    if RaisedAt(env, events, n).Some? { RaisedOwned(env, events, n); }
  }

  /** A raised candidate after one more event, when the table says which one is open. */
  lemma StandingStep(env: Env, events: seq<Event>, c: Candidate, n: nat)
    requires n < |events| && Stands(env, events, c, n)
    ensures var t := RaisedAt(env, events, c.eventIdx).value.tid;
            var open := OpenCandidate(env, events, t, n) == Some(c.eventIdx);
            var c' := if open then FilledWith(c, Offer(events, n, t)) else c;
            Stands(env, events, c', n + 1)
  {
  }

  lemma FilledStands(env: Env, events: seq<Event>, n: nat, at: Option<nat>, p: nat)
    requires n < |events| && events[n].Debug?
    requires var cs := Run(Reading(env), events, n).candidates;
             && p < |cs| && Stands(env, events, cs[p], n) && Increasing(cs, n)
             && PointsAtOpen(env, events, Run(Reading(env), events, n), events[n].tid, n)
             && at == Lookup(Run(Reading(env), events, n).lastFailure, events[n].tid)
    ensures var cs := Run(Reading(env), events, n).candidates;
            Stands(env, events, Backfill(cs, at, Offer(events, n, events[n].tid))[p], n + 1)
  {
    var cs, t := Run(Reading(env), events, n).candidates, events[n].tid;
    StandingStep(env, events, cs[p], n);
    OthersKeep(env, events, n, RaisedAt(env, events, cs[p].eventIdx).value.tid);
    OpenIsOwn(env, events, t, n);
  }

  lemma {:induction false} OpenIsOwn(env: Env, events: seq<Event>, t: Tid, n: nat)
    requires n <= |events|
    ensures var i := OpenCandidate(env, events, t, n); i.Some? ==> i.value < n && RaisesOwn(env, events, i.value, t)
  {
    if n > 0 { OpenIsOwn(env, events, t, n - 1); }
  }

  /** Every candidate stands as it should, and every thread's entry points at its open one. */
  ghost predicate Kept(env: Env, events: seq<Event>, n: nat)
    requires n <= |events|
  {
    var st := Run(Reading(env), events, n);
    && (forall p :: 0 <= p < |st.candidates| ==> Stands(env, events, st.candidates[p], n))
    && (forall t :: PointsAtOpen(env, events, st, t, n))
  }

  lemma IncreasingAt(env: Env, events: seq<Event>, n: nat)
    requires n <= |events|
    ensures Increasing(Run(Reading(env), events, n).candidates, n)
  {
    CandidatesAreRaised(env, events, n);
    RaisedIncreasing(env, events, n);
    SameIndices(Run(Reading(env), events, n).candidates, Raised(env, events, n), n);
  }

  lemma LoadedKeepsCandidate(env: Env, events: seq<Event>, c: Candidate, n: nat)
    requires n < |events| && events[n].Loaded? && Stands(env, events, c, n)
    ensures Stands(env, events, c, n + 1)
  {
    StandingStep(env, events, c, n);
    OthersKeep(env, events, n, RaisedAt(env, events, c.eventIdx).value.tid);
  }

  lemma LoadedKeepsTable(
    env: Env, events: seq<Event>, st: Fold, successes: map<string, nat>, t: Tid, n: nat)
    requires n < |events| && events[n].Loaded? && PointsAtOpen(env, events, st, t, n)
    ensures PointsAtOpen(env, events, st.(successes := successes), t, n + 1)
  {
    OthersKeep(env, events, n, t);
  }

  lemma LoadedKeeps(env: Env, events: seq<Event>, n: nat)
    requires n < |events| && events[n].Loaded? && Kept(env, events, n)
    ensures Kept(env, events, n + 1)
  {
    var st, st' := Run(Reading(env), events, n), Run(Reading(env), events, n + 1);
    forall p | 0 <= p < |st.candidates| ensures Stands(env, events, st.candidates[p], n + 1) {
      LoadedKeepsCandidate(env, events, st.candidates[p], n);
    }
    var m := n + 1;
    forall t: Tid ensures PointsAtOpen(env, events, st', t, m) {
      LoadedKeepsTable(env, events, st, st'.successes, t, n);
    }
  }

  lemma DebugKeepsStanding(env: Env, events: seq<Event>, n: nat, p: nat)
    requires n < |events| && events[n].Debug? && Kept(env, events, n)
    requires p < |Run(Reading(env), events, n + 1).candidates|
    ensures Stands(env, events, Run(Reading(env), events, n + 1).candidates[p], n + 1)
  {
    var st, t := Run(Reading(env), events, n), events[n].tid;
    DebugStep(env, events, n);
    IncreasingAt(env, events, n);
    assert PointsAtOpen(env, events, st, t, n);
    if p < |st.candidates| {
      FilledStands(env, events, n, Lookup(st.lastFailure, t), p);
    } else {
      RaisedOwned(env, events, n);
    }
  }

  lemma DebugKeepsTable(env: Env, events: seq<Event>, n: nat, t: Tid)
    requires n < |events| && events[n].Debug? && Kept(env, events, n)
    ensures PointsAtOpen(env, events, Run(Reading(env), events, n + 1), t, n + 1)
  {
    var st := Run(Reading(env), events, n);
    DebugStep(env, events, n);
    assert PointsAtOpen(env, events, st, t, n);
    OthersKeep(env, events, n, t);
    if RaisedAt(env, events, n).Some? { RaisedOwned(env, events, n); }
  }

  lemma DebugKeeps(env: Env, events: seq<Event>, n: nat)
    requires n < |events| && events[n].Debug? && Kept(env, events, n)
    ensures Kept(env, events, n + 1)
  {
    var st' := Run(Reading(env), events, n + 1);
    forall p: nat | p < |st'.candidates| ensures Stands(env, events, st'.candidates[p], n + 1) {
      DebugKeepsStanding(env, events, n, p);
    }
    var m := n + 1;
    forall t: Tid ensures PointsAtOpen(env, events, st', t, m) {
      DebugKeepsTable(env, events, n, t);
    }
  }

  lemma {:induction false} RunKeeps(env: Env, events: seq<Event>, n: nat)
    requires n <= |events|
    ensures Kept(env, events, n)
  {
    if n > 0 {
      RunKeeps(env, events, n - 1);
      if events[n - 1].Loaded? {
        LoadedKeeps(env, events, n - 1);
      } else {
        DebugKeeps(env, events, n - 1);
      }
    }
  }

  // ---------- the theorems ----------

  /** The table of last failures holds exactly the open candidates: the thread's last uncorrelated
      one that no return has closed. */
  lemma LastFailureIsOpen(env: Env, events: seq<Event>, t: Tid, n: nat, i: nat)
    requires n <= |events|
    ensures var st := Run(Reading(env), events, n);
            OpenBefore(env, events, t, i, n) <==>
              && t in st.lastFailure && st.lastFailure[t] < |st.candidates|
              && st.candidates[st.lastFailure[t]].eventIdx == i
  {
    RunKeeps(env, events, n);
    OpenCandidateMeaning(env, events, t, n, i);
    assert PointsAtOpen(env, events, Run(Reading(env), events, n), t, n);
  }

  /** Event `j` fills in the candidate raised at `i`: it is the first return of the thread since,
      before the thread raised another one, and it reports a loader status. */
  ghost predicate Fills(env: Env, events: seq<Event>, i: nat, j: nat)
    requires i < |events|
  {
    var c := RaisedAt(env, events, i);
    && c.Some? && c.value.status.None? && j < |events|
    && OpenBefore(env, events, c.value.tid, i, j) && Offer(events, j, c.value.tid).Some?
  }

  lemma FillsOnce(env: Env, events: seq<Event>, i: nat, j: nat, k: nat)
    requires i < |events| && Fills(env, events, i, j) && Fills(env, events, i, k)
    ensures j == k
  {
  }

  lemma {:induction false} StandingMeaning(env: Env, events: seq<Event>, i: nat, n: nat)
    requires i < n <= |events| && RaisedAt(env, events, i).Some?
    ensures var raised, c := RaisedAt(env, events, i).value, Standing(env, events, i, n);
            && ((forall j: nat :: j < n ==> !Fills(env, events, i, j)) ==> c == raised)
            && (forall j: nat :: j < n && Fills(env, events, i, j) ==>
                  c == FilledWith(raised, Offer(events, j, raised.tid)))
  {
    if n > i + 1 {
      var raised := RaisedAt(env, events, i).value;
      StandingMeaning(env, events, i, n - 1);
      OpenCandidateMeaning(env, events, raised.tid, n - 1, i);
      if Fills(env, events, i, n - 1) {
        forall j: nat | Fills(env, events, i, j) ensures j == n - 1 { FillsOnce(env, events, i, j, n - 1); }
        assert Standing(env, events, i, n - 1) == raised;
      } else {
        assert Standing(env, events, i, n) == Standing(env, events, i, n - 1) by {
          StandingUnfilled(env, events, i, n);
        }
      }
    }
  }

  lemma {:induction false} StandingKeepsStatus(env: Env, events: seq<Event>, i: nat, n: nat)
    requires i < n <= |events| && RaisedAt(env, events, i).Some?
    requires RaisedAt(env, events, i).value.status.Some?
    ensures Standing(env, events, i, n) == RaisedAt(env, events, i).value
  {
    if n > i + 1 { StandingKeepsStatus(env, events, i, n - 1); }
  }

  lemma StandingUnfilled(env: Env, events: seq<Event>, i: nat, n: nat)
    requires i + 1 < n <= |events| && RaisedAt(env, events, i).Some? && !Fills(env, events, i, n - 1)
    ensures Standing(env, events, i, n) == Standing(env, events, i, n - 1)
  {
    OpenCandidateMeaning(env, events, RaisedAt(env, events, i).value.tid, n - 1, i);
    if RaisedAt(env, events, i).value.status.Some? {
      StandingKeepsStatus(env, events, i, n);
      StandingKeepsStatus(env, events, i, n - 1);
    }
  }

  /** The status of a candidate at the end: that of the line that raised it, unless a return fills
      it in; then the status and reason of that return. Nothing else of a candidate ever changes. */
  lemma FinalStatus(env: Env, events: seq<Event>, c: Candidate)
    requires c in Run(Reading(env), events, |events|).candidates
    ensures c.eventIdx < |events| && RaisedAt(env, events, c.eventIdx).Some?
    ensures var raised := RaisedAt(env, events, c.eventIdx).value;
            && ((forall j: nat :: !Fills(env, events, c.eventIdx, j)) ==> c == raised)
            && (forall j: nat :: Fills(env, events, c.eventIdx, j) ==>
                  c == raised.(status := ReturnStatus(events[j].line), reason := events[j].line.reason))
  {
    RunKeeps(env, events, |events|);
    StandingMeaning(env, events, c.eventIdx, |events|);
  }
}
