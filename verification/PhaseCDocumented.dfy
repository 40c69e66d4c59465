/**
 The selection of the dynamic-failure inference against its documentation
 (docs/loadwhat_spec_v1.md:173-180): where the two pick different candidates, and traces on
 which they do.
 */
module PhaseCDocumented {
  import opened Wrappers
  import opened PhaseC
  import opened PhaseCSelection

  // ---------- rule 1: what is discarded ----------

  /** The documented filter: the name is observed to load later in the run. */
  ghost predicate LaterLoaded(env: Env, events: seq<Event>, c: Candidate) {
    exists i :: c.eventIdx < i < |events| && LoadsAt(env, events, i) == Some(c.dll)
  }

  /** The code discards more than that: exactly the full-path probes whose name loaded earlier. */
  lemma DiscardDiffersExactlyWhen(env: Env, events: seq<Event>, c: Candidate)
    ensures LaterLoaded(env, events, c) ==> ResolvedOffline(env, events, c)
    ensures ResolvedOffline(env, events, c) != LaterLoaded(env, events, c) <==>
            c.fullPathProbe && EverLoads(env, events, |events|, c.dll) && !LaterLoaded(env, events, c)
  {
  }

  // ---------- rules 3 to 6: the order ----------

  /** The documented order: relevance, then the earlier candidate, then correlation. */
  predicate DocumentedBefore(a: Candidate, b: Candidate) {
    if Relevance(a, b).Some? then Relevance(a, b).value
    else if a.eventIdx != b.eventIdx then a.eventIdx < b.eventIdx
    else a.threadCorrelated && !b.threadCorrelated
  }

  /** Two candidates of different events are ranked differently exactly when only correlation
      and age are left to tell them apart and the correlated one is the later. */
  lemma OrderDiffersExactlyWhen(a: Candidate, b: Candidate)
    requires a.eventIdx != b.eventIdx
    ensures KeyLess(SortKey(a), SortKey(b)) != DocumentedBefore(a, b) <==>
            && Relevance(a, b).None?
            && a.threadCorrelated != b.threadCorrelated
            && (a.threadCorrelated <==> a.eventIdx > b.eventIdx)
  {
    RankingMeaning(a, b);
  }

  ghost predicate DocumentedBest(cs: seq<Candidate>, d: Candidate) {
    d in cs && forall c :: c in cs && c != d ==> DocumentedBefore(d, c)
  }

  lemma RelevanceSwaps(a: Candidate, b: Candidate)
    ensures Relevance(a, b).None? <==> Relevance(b, a).None?
    ensures Relevance(a, b).Some? ==> Relevance(b, a) == Some(!Relevance(a, b).value)
  {
    KindRanksDiffer(a.kind, b.kind);
  }

  lemma RelevanceTransitive(a: Candidate, b: Candidate, c: Candidate)
    requires Relevance(a, b) != Some(false) && Relevance(b, c) != Some(false)
    ensures Relevance(a, c) != Some(false)
    ensures Relevance(a, c).None? ==> Relevance(a, b).None? && Relevance(b, c).None?
  {
  }

  lemma DocumentedTransitive(a: Candidate, b: Candidate, c: Candidate)
    requires DocumentedBefore(a, b) && DocumentedBefore(b, c)
    ensures DocumentedBefore(a, c)
  {
    RelevanceTransitive(a, b, c);
  }

  lemma DocumentedTotal(a: Candidate, b: Candidate)
    requires a.eventIdx != b.eventIdx
    ensures DocumentedBefore(a, b) <==> !DocumentedBefore(b, a)
  {
    RelevanceSwaps(a, b);
  }

  /** Among candidates of separate events there is a documented best. */
  lemma {:induction false} DocumentedBestExists(cs: seq<Candidate>) returns (d: Candidate)
    requires Separate(cs) && cs != []
    ensures DocumentedBest(cs, d)
  {
    if |cs| == 1 {
      d := cs[0];
    } else {
      var rest := cs[1..];
      assert cs == [cs[0]] + rest;
      assert forall c :: c in rest ==> c in cs;
      var e := DocumentedBestExists(rest);
      if e == cs[0] || DocumentedBefore(e, cs[0]) {
        d := e;
      } else {
        d := cs[0];
        DocumentedTotal(d, e);
        forall c | c in cs && c != d ensures DocumentedBefore(d, c) {
          if c != e { DocumentedTransitive(d, e, c); }
        }
      }
    }
  }

  lemma DocumentedBestUnique(cs: seq<Candidate>, d: Candidate, e: Candidate)
    requires Separate(cs) && DocumentedBest(cs, d) && DocumentedBest(cs, e)
    ensures d == e
  {
    if d != e { DocumentedTotal(d, e); }
  }

  /** Over the same candidates, the code's order and the documented one pick different ones
      exactly when the code's pick is correlated and an equally relevant uncorrelated candidate
      is earlier. */
  lemma OrdersPickDifferently(cs: seq<Candidate>, w: Candidate, d: Candidate)
    requires Separate(cs) && Best(cs, w) && DocumentedBest(cs, d)
    ensures w != d <==>
            exists c :: c in cs && Relevance(c, w).None? && !c.threadCorrelated && w.threadCorrelated
                        && c.eventIdx < w.eventIdx
  {
    if w != d {
      RankingMeaning(w, d);
      RelevanceSwaps(w, d);
    }
    if c :| c in cs && Relevance(c, w).None? && !c.threadCorrelated && w.threadCorrelated && c.eventIdx < w.eventIdx {
      DocumentedTotal(w, c);
    }
  }

  // ---------- the documented selection ----------

  /** Only the candidates that the documented filter keeps. */
  ghost predicate IsDocumentedPick(env: Env, events: seq<Event>, d: Candidate) {
    var cs := Run(Reading(env), events, |events|).candidates;
    && d in cs && !LaterLoaded(env, events, d)
    && forall c :: c in cs && !LaterLoaded(env, events, c) && c != d ==> DocumentedBefore(d, c)
  }

  /** The selected candidate is the documented one, but in two cases: the documented one is a
      full-path probe whose name loaded earlier, or it is uncorrelated and a correlated
      candidate that is unresolved and as relevant came later. */
  lemma SelectionDiffersExactlyWhen(env: Env, events: seq<Event>, d: Candidate)
    requires IsDocumentedPick(env, events, d)
    ensures var cs := Run(Reading(env), events, |events|).candidates;
            Winner(env, events) != Some(d) <==>
              || (d.fullPathProbe && EverLoads(env, events, |events|, d.dll))
              || (!d.threadCorrelated
                  && exists c :: c in cs && c.threadCorrelated && Relevance(c, d).None?
                                 && !ResolvedOffline(env, events, c))
  {
    var cs := Run(Reading(env), events, |events|).candidates;
    SelectionMeetsSpec(env, events);
    DiscardDiffersExactlyWhen(env, events, d);
    EventIndicesSeparate(env, events);
    IncreasingSeparate(cs, |events|);
    if Winner(env, events).Some? && Winner(env, events).value != d {
      var w := Winner(env, events).value;
      DiscardDiffersExactlyWhen(env, events, w);
      RankingMeaning(w, d);
      RelevanceSwaps(w, d);
      if !ResolvedOffline(env, events, d) { assert w.threadCorrelated && Relevance(w, d).None?; }
    }
    if c :| c in cs && c.threadCorrelated && !d.threadCorrelated && Relevance(c, d).None?
            && !ResolvedOffline(env, events, c) {
      RankingMeaning(c, d);
      RankingMeaning(d, c);
      RelevanceSwaps(c, d);
      NotBothLess(SortKey(c), SortKey(d));
    }
  }

  /** And where the documentation keeps no candidate, the code selects none. */
  lemma NoPickNoWinner(env: Env, events: seq<Event>)
    ensures (forall d :: !IsDocumentedPick(env, events, d)) ==> Winner(env, events).None?
  {
    var cs := Run(Reading(env), events, |events|).candidates;
    SelectionMeetsSpec(env, events);
    EventIndicesSeparate(env, events);
    IncreasingSeparate(cs, |events|);
    var kept := Remaining(env, events, cs);
    if kept != [] {
      var d := DocumentedBestExists(kept);
      assert IsDocumentedPick(env, events, d);
    } else {
      forall c | c in cs ensures ResolvedOffline(env, events, c) {
        DiscardDiffersExactlyWhen(env, events, c);
        assert c !in kept;
      }
    }
  }

  lemma {:induction false} Remaining(env: Env, events: seq<Event>, cs: seq<Candidate>) returns (kept: seq<Candidate>)
    ensures forall c :: c in kept <==> c in cs && !LaterLoaded(env, events, c)
  {
    if cs == [] {
      kept := [];
    } else {
      kept := Remaining(env, events, cs[1..]);
      if !LaterLoaded(env, events, cs[0]) { kept := [cs[0]] + kept; }
      assert cs == [cs[0]] + cs[1..];
    }
  }
}
