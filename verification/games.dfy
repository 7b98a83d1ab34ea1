/**
  The game interface the searches consume, and the round-robin turn cycle
  they share.

  The engine's GameState is an opaque type `S`; its queries become function
  fields of `Game`.  Agent 0 (Pacman) maximises, agents 1 .. numAgents-1
  (the ghosts) minimise or are averaged.  `maxDepth` is the agent's
  `self.depth`, the number of full rounds searched.
 */
module Games {
  import opened Scores

  datatype Game<!S, !A> = Game(
    numAgents: nat,
    maxDepth: nat,
    legal: (nat, S) -> seq<A>,
    succ: (nat, A, S) -> S,
    isWin: S -> bool,
    isLose: S -> bool,
    eval: S -> Score)
  {
    /** The searches need Pacman and at least one ghost. */
    predicate Valid() {
      numAgents >= 2
    }

    /** Where every search call stands: a real agent, a depth within the limit. */
    predicate InRange(agent: nat, depth: nat) {
      agent < numAgents && depth <= maxDepth
    }

    /** The leaf test that opens every search: won, lost or out of depth. */
    predicate Cutoff(depth: nat, s: S) {
      isWin(s) || isLose(s) || maxDepth == depth
    }
  }

  /** The agent and depth of the next call down the tree. */
  datatype Turn = Turn(agent: nat, depth: nat)

  /**
    The move to the next ply: the next agent is `(agent + 1) % numAgents`
    and the depth counter goes up by one exactly when the turn wraps back to
    agent 0.
   */
  function Next<S, A>(g: Game<S, A>, agent: nat, depth: nat): (t: Turn)
    requires g.Valid() && g.InRange(agent, depth) && depth < g.maxDepth
    ensures g.InRange(t.agent, t.depth)
    ensures t.agent == 0 <==> agent == g.numAgents - 1
    ensures t.agent != 0 ==> t.agent == agent + 1 && t.depth == depth
    ensures t.agent == 0 ==> t.depth == depth + 1
  {
    var next := (agent + 1) % g.numAgents;
    var count := if next == 0 then 1 else 0;
    Turn(next, depth + count)
  }

  /** Pacman's successors are always searched at agent 1, depth unchanged. */
  lemma NextAfterPacman<S, A>(g: Game<S, A>, depth: nat)
    requires g.Valid() && depth < g.maxDepth
    ensures Next(g, 0, depth) == Turn(1, depth)
  {
  }

  /**
    The termination measure of every search: the number of plies left
    before the depth limit, counted from the current agent.
   */
  function Measure<S, A>(g: Game<S, A>, agent: nat, depth: nat): (r: nat)
    requires g.InRange(agent, depth)
  {
    (g.maxDepth - depth) * g.numAgents + (g.numAgents - agent)
  }

  /** Each ply uses up exactly one unit of the measure. */
  lemma MeasureStep<S, A>(g: Game<S, A>, agent: nat, depth: nat)
    requires g.Valid() && g.InRange(agent, depth) && depth < g.maxDepth
    ensures Measure(g, Next(g, agent, depth).agent, Next(g, agent, depth).depth)
            == Measure(g, agent, depth) - 1
  {
    var t := Next(g, agent, depth);
    var n := g.numAgents;
    if t.agent == 0 {
      calc {
        Measure(g, t.agent, t.depth);
        (g.maxDepth - depth - 1) * n + n;
        { assert (g.maxDepth - depth - 1) * n + n == (g.maxDepth - depth) * n; }
        (g.maxDepth - depth) * n;
        (g.maxDepth - depth) * n + (n - agent) - 1;
      }
    }
  }
}

/**
  What an agent's `getAction` hands back.  The source's root loops start
  from a default that is not always an action: the minimax and expectimax
  roots start from the game state itself, and the alpha-beta root can in
  principle return its running score instead of an action.
 */
module Decisions {
  import opened Scores

  datatype Decision<S, A> = Move(action: A) | StateReturned(state: S) | ScoreReturned(value: Score)

  /** `k` is the first index holding the largest of `vals[..n]`. */
  ghost predicate IsFirstMax(vals: seq<Score>, n: nat, k: int) {
    && 0 <= k < n <= |vals|
    && (forall j :: 0 <= j < n ==> Le(vals[j], vals[k]))
    && (forall j :: 0 <= j < k ==> Lt(vals[j], vals[k]))
  }

  /**
    The decision a "replace on strictly greater" root loop makes, started
    from `-inf` and the default `StateReturned(s)`: the default survives
    exactly when no action scores above `-inf`; otherwise the first action
    of largest value is chosen.
   */
  ghost predicate PicksFirstMax<S, A>(acts: seq<A>, vals: seq<Score>, s: S, d: Decision<S, A>)
    requires |vals| == |acts|
  {
    if forall j :: 0 <= j < |vals| ==> vals[j] == NegInf then d == StateReturned(s)
    else exists k :: IsFirstMax(vals, |vals|, k) && vals[k] != NegInf && d == Move(acts[k])
  }

  /**
    The state of such a root loop after its first `i` iterations, with `k`
    the index of the action chosen so far, negative while none is.
   */
  ghost predicate RootInvariant<S, A>(acts: seq<A>, vals: seq<Score>, s: S, i: nat, best: Score, d: Decision<S, A>, k: int)
    requires |vals| == |acts| && i <= |acts|
  {
    if k < 0 then (forall j :: 0 <= j < i ==> vals[j] == NegInf) && best == NegInf && d == StateReturned(s)
    else IsFirstMax(vals, i, k) && best == vals[k] && best != NegInf && d == Move(acts[k])
  }

  /** One iteration of the root loop keeps the invariant. */
  lemma RootInvariantStep<S, A>(acts: seq<A>, vals: seq<Score>, s: S, i: nat, best: Score, d: Decision<S, A>, k: int)
    requires |vals| == |acts| && i < |acts|
    requires RootInvariant(acts, vals, s, i, best, d, k)
    ensures Lt(best, vals[i]) ==> RootInvariant(acts, vals, s, i + 1, vals[i], Move(acts[i]), i)
    ensures !Lt(best, vals[i]) ==> RootInvariant(acts, vals, s, i + 1, best, d, k)
  {
    if Lt(best, vals[i]) {
      forall j | 0 <= j < i
        ensures Lt(vals[j], vals[i])
      {
        if k >= 0 {
          LeTransitive(vals[j], vals[k], vals[i]);
        }
      }
    }
  }

  /** At the end of the loop the invariant is the first-maximum choice. */
  lemma RootInvariantDone<S, A>(acts: seq<A>, vals: seq<Score>, s: S, best: Score, d: Decision<S, A>, k: int)
    requires |vals| == |acts|
    requires RootInvariant(acts, vals, s, |acts|, best, d, k)
    ensures PicksFirstMax(acts, vals, s, d)
  {
    if k >= 0 {
      assert vals[k] != NegInf;
    }
  }

  /**
    A "replace on strictly greater" root loop over values already computed:
    `vals[i]` is the value of `acts[i]`, `best` the running maximum and `d`
    the decision so far.
   */
  function PickLoop<S, A>(acts: seq<A>, vals: seq<Score>, i: nat, best: Score, d: Decision<S, A>): (r: Decision<S, A>)
    requires |vals| == |acts| && i <= |acts|
    decreases |acts| - i
  {
    if i == |acts| then d
    else if Lt(best, vals[i]) then PickLoop(acts, vals, i + 1, vals[i], Move(acts[i]))
    else PickLoop(acts, vals, i + 1, best, d)
  }

  /** Run from a state satisfying the invariant, the loop ends in a state satisfying it. */
  lemma {:induction false} PickLoopKeeps<S, A>(acts: seq<A>, vals: seq<Score>, s: S, i: nat, best: Score, d: Decision<S, A>, k: int)
    returns (best': Score, k': int)
    requires |vals| == |acts| && i <= |acts|
    requires RootInvariant(acts, vals, s, i, best, d, k)
    ensures RootInvariant(acts, vals, s, |acts|, best', PickLoop(acts, vals, i, best, d), k')
    decreases |acts| - i
  {
    if i == |acts| {
      best', k' := best, k;
    } else {
      RootInvariantStep(acts, vals, s, i, best, d, k);
      if Lt(best, vals[i]) {
        best', k' := PickLoopKeeps(acts, vals, s, i + 1, vals[i], Move(acts[i]), i);
      } else {
        best', k' := PickLoopKeeps(acts, vals, s, i + 1, best, d, k);
      }
    }
  }

  /**
    Started from `-inf` and the default `StateReturned(s)`, the loop keeps
    the default exactly when every value is `-inf`, and otherwise chooses
    the first action of largest value.
   */
  lemma PickLoopPicks<S, A>(acts: seq<A>, vals: seq<Score>, s: S)
    requires |vals| == |acts|
    ensures PicksFirstMax(acts, vals, s, PickLoop(acts, vals, 0, NegInf, StateReturned(s)))
  {
    var best, k := PickLoopKeeps(acts, vals, s, 0, NegInf, StateReturned(s), -1);
    RootInvariantDone(acts, vals, s, best, PickLoop(acts, vals, 0, NegInf, StateReturned(s)), k);
  }
}
