/**
 Following a chain of redirects with cycle detection and a hop bound: the loop that
 `resolve_clsid` runs over TreatAs and `resolve_progid` over CurVer (src/com/resolver.rs).
 */
module Chains {
  import opened Text

  /** What one key says: go on, stop here, or why neither is possible. */
  datatype Step = Redirect(next: string) | Terminal | Blocked | Gone | Malformed

  /** The redirect targets taken, the name arrived at, and what its key says. An `end` that is
      still a redirect was not taken: it leads back, or the hops are used up. */
  datatype Trail = Trail(chain: seq<string>, last: string, end: Step)

  function Follow(step: string -> Step, current: string, visited: set<string>, chain: seq<string>, room: nat): Trail
    decreases room
  {
    match step(current)
    case Redirect(next) =>
      if Upper(next) in visited || room == 0 then Trail(chain, current, Redirect(next))
      else Follow(step, next, visited + {Upper(next)}, chain + [next], room - 1)
    case end => Trail(chain, current, end)
  }

  function Chase(step: string -> Step, start: string, limit: nat): Trail {
    Follow(step, start, {Upper(start)}, [], limit)
  }

  /** The loop of both resolutions: reads one key per turn until the chain ends. */
  method FollowChain(step: string -> Step, start: string, limit: nat) returns (t: Trail)
    ensures t == Chase(step, start, limit)
  {
    var current := start;
    var visited := {Upper(start)};
    var chain: seq<string> := [];
    while true
      invariant |chain| <= limit
      invariant Follow(step, current, visited, chain, limit - |chain|) == Chase(step, start, limit)
      decreases limit - |chain|
    {
      var read := step(current);
      if !read.Redirect? {
        return Trail(chain, current, read);
      }
      var next := read.next;
      if Upper(next) in visited || |chain| >= limit {
        return Trail(chain, current, read);
      }
      visited := visited + {Upper(next)};
      chain := chain + [next];
      current := next;
    }
  }

  // ---------- the chain as a path ----------

  function LastOf(start: string, chain: seq<string>): string {
    if chain == [] then start else chain[|chain| - 1]
  }

  /** Every element of the chain is where its predecessor redirects to. */
  ghost predicate IsTrail(step: string -> Step, start: string, chain: seq<string>) {
    chain != [] ==>
      IsTrail(step, start, chain[..|chain| - 1])
      && step(LastOf(start, chain[..|chain| - 1])) == Redirect(chain[|chain| - 1])
  }

  function Names(start: string, chain: seq<string>): set<string> {
    if chain == [] then {Upper(start)} else Names(start, chain[..|chain| - 1]) + {Upper(chain[|chain| - 1])}
  }

  /** No two names on the way agree up to ASCII case. */
  predicate NoRepeats(start: string, chain: seq<string>) {
    chain == []
    || (NoRepeats(start, chain[..|chain| - 1]) && Upper(chain[|chain| - 1]) !in Names(start, chain[..|chain| - 1]))
  }

  lemma {:induction false} TrailsNest(step: string -> Step, start: string, a: seq<string>, b: seq<string>)
    requires IsTrail(step, start, a) && IsTrail(step, start, b) && |a| <= |b|
    ensures a == b[..|a|]
    decreases |b|
  {
    if |a| < |b| {
      TrailsNest(step, start, a, b[..|b| - 1]);
      assert b[..|b| - 1][..|a|] == b[..|a|];
    } else if b != [] {
      TrailsNest(step, start, a[..|a| - 1], b[..|b| - 1]);
      assert a == a[..|a| - 1] + [a[|a| - 1]] && b == b[..|b| - 1] + [b[|b| - 1]];
    } else {
      assert b[..|a|] == [];
    }
  }

  /** A prefix of a trail is a trail, and its end redirects to the next name. */
  lemma {:induction false} TrailPrefix(step: string -> Step, start: string, chain: seq<string>, n: nat)
    requires IsTrail(step, start, chain) && n < |chain|
    ensures IsTrail(step, start, chain[..n]) && step(LastOf(start, chain[..n])) == Redirect(chain[n])
    decreases |chain|
  {
    if n < |chain| - 1 {
      TrailPrefix(step, start, chain[..|chain| - 1], n);
      assert chain[..|chain| - 1][..n] == chain[..n];
    }
  }

  lemma {:induction false} NoRepeatsPrefix(start: string, chain: seq<string>, n: nat)
    requires NoRepeats(start, chain) && n < |chain|
    ensures NoRepeats(start, chain[..n]) && Upper(chain[n]) !in Names(start, chain[..n])
    decreases |chain|
  {
    if n < |chain| - 1 {
      NoRepeatsPrefix(start, chain[..|chain| - 1], n);
      assert chain[..|chain| - 1][..n] == chain[..n];
    }
  }

  // ---------- what the loop computes ----------

  /** The walk stopped at the end of a proper chain: within the bound, no repeats, and it went
      no further only because it could not. */
  ghost predicate Stopped(step: string -> Step, start: string, limit: nat, t: Trail) {
    && IsTrail(step, start, t.chain) && NoRepeats(start, t.chain) && |t.chain| <= limit
    && t.last == LastOf(start, t.chain)
    && t.end == step(t.last)
    && (t.end.Redirect? ==> |t.chain| == limit || Upper(t.end.next) in Names(start, t.chain))
  }

  lemma {:induction false} FollowStops(step: string -> Step, start: string, limit: nat,
                                       current: string, visited: set<string>, chain: seq<string>, room: nat)
    requires IsTrail(step, start, chain) && NoRepeats(start, chain)
    requires current == LastOf(start, chain) && visited == Names(start, chain) && room + |chain| == limit
    ensures Stopped(step, start, limit, Follow(step, current, visited, chain, room))
    decreases room
  {
    if step(current).Redirect? {
      var next := step(current).next;
      if Upper(next) !in visited && room > 0 {
        assert (chain + [next])[..|chain + [next]| - 1] == chain;
        FollowStops(step, start, limit, next, visited + {Upper(next)}, chain + [next], room - 1);
      }
    }
  }

  lemma ChaseStops(step: string -> Step, start: string, limit: nat)
    ensures Stopped(step, start, limit, Chase(step, start, limit))
  {
    FollowStops(step, start, limit, start, {Upper(start)}, [], limit);
  }

  /** Chain following is exact. Take any chain of redirects from `start`. If it keeps within
      the limit and never repeats a name, and its end does not redirect, it is the chain that
      is returned, with that end. If it exceeds the limit or repeats a name, what is returned
      ends in an untaken redirect. */
  lemma ChaseIsExact(step: string -> Step, start: string, limit: nat, chain: seq<string>)
    requires IsTrail(step, start, chain)
    ensures var t := Chase(step, start, limit);
            && (|chain| <= limit && NoRepeats(start, chain) && !step(LastOf(start, chain)).Redirect? ==>
                  t == Trail(chain, LastOf(start, chain), step(LastOf(start, chain))))
            && (|chain| > limit || !NoRepeats(start, chain) ==> t.end.Redirect?)
  {
    var t := Chase(step, start, limit);
    ChaseStops(step, start, limit);
    if |t.chain| < |chain| {
      TrailsNest(step, start, t.chain, chain);
      TrailPrefix(step, start, chain, |t.chain|);
      if NoRepeats(start, chain) { NoRepeatsPrefix(start, chain, |t.chain|); }
    } else {
      TrailsNest(step, start, chain, t.chain);
      assert t.chain[..|t.chain|] == t.chain;
      if |chain| < |t.chain| {
        NoRepeatsPrefix(start, t.chain, |chain|);
        TrailPrefix(step, start, t.chain, |chain|);
      }
    }
  }
}
