/**
  Minimax with alpha-beta pruning (`AlphaBetaAgent.getAction`).

  The pruning is "fail-soft": a node returns its running maximum (minimum)
  as soon as it exceeds `b` (falls below `a`), and both tests are strict.
  The main results are that a call whose window holds the true minimax
  value returns exactly that value, a call whose window misses it returns
  a bound on the same side of the window, and the root picks the same
  action as plain minimax.
 */
module AlphaBetaSearch {
  import opened Scores
  import opened Games
  import opened Decisions
  import opened MinimaxSearch

  /** The nested `alphabetaprune(agent, depth, gameState, a, b)`. */
  function AlphaBeta<S, A>(g: Game<S, A>, agent: nat, depth: nat, s: S, a: Score, b: Score): (r: Score)
    requires g.Valid() && g.InRange(agent, depth)
    decreases g.maxDepth - depth, g.numAgents - agent, 1, 0
  {
    if g.isWin(s) || g.isLose(s) || g.maxDepth == depth then g.eval(s)
    else if agent == 0 then Maximizer(g, agent, depth, s, g.legal(agent, s), 0, a, b, NegInf)
    else Minimizer(g, agent, depth, s, g.legal(agent, s), 0, a, b, PosInf)
  }

  /** `maximizer`, from the `i`-th legal action on, with running maximum `maximum`. */
  function Maximizer<S, A>(g: Game<S, A>, agent: nat, depth: nat, s: S, acts: seq<A>, i: nat,
                           a: Score, b: Score, maximum: Score): (r: Score)
    requires g.Valid() && agent == 0 && depth < g.maxDepth && i <= |acts|
    decreases g.maxDepth - depth, g.numAgents - agent, 0, |acts| - i
  {
    if i == |acts| then maximum
    else
      var maximum' := Max(maximum, AlphaBeta(g, 1, depth, g.succ(agent, acts[i], s), a, b));
      if Lt(b, maximum') then maximum'
      else Maximizer(g, agent, depth, s, acts, i + 1, Max(a, maximum'), b, maximum')
  }

  /** `minimizer`, from the `i`-th legal action on, with running minimum `minimum`. */
  function Minimizer<S, A>(g: Game<S, A>, agent: nat, depth: nat, s: S, acts: seq<A>, i: nat,
                           a: Score, b: Score, minimum: Score): (r: Score)
    requires g.Valid() && 0 < agent < g.numAgents && depth < g.maxDepth && i <= |acts|
    decreases g.maxDepth - depth, g.numAgents - agent, 0, |acts| - i
  {
    if i == |acts| then minimum
    else
      var t := Next(g, agent, depth);
      var minimum' := Min(minimum, AlphaBeta(g, t.agent, t.depth, g.succ(agent, acts[i], s), a, b));
      if Lt(minimum', a) then minimum'
      else Minimizer(g, agent, depth, s, acts, i + 1, a, Min(b, minimum'), minimum')
  }

  /**
    How a fail-soft result `r` relates to the true value `v` for the window
    `[a, b]`: exact inside the window, and on the same side of it outside.
   */
  ghost predicate Within(a: Score, b: Score, r: Score, v: Score) {
    && (Lt(v, a) ==> Le(v, r) && Lt(r, a))
    && (Le(a, v) && Le(v, b) ==> r == v)
    && (Lt(b, v) ==> Lt(b, r) && Le(r, v))
  }

  /**
    Alpha-beta against minimax, for any window with `a <= b` (every window
    the source builds has this shape).  A value returned above `b` is a
    lower bound of the true value and happens exactly when the true value
    is above `b`; symmetrically below `a`.
   */
  lemma AlphaBetaSound<S, A>(g: Game<S, A>, agent: nat, depth: nat, s: S, a: Score, b: Score)
    requires g.Valid() && g.InRange(agent, depth) && Le(a, b)
    ensures Within(a, b, AlphaBeta(g, agent, depth, s, a, b), Minimax(g, agent, depth, s))
    ensures Lt(b, AlphaBeta(g, agent, depth, s, a, b)) <==> Lt(b, Minimax(g, agent, depth, s))
    ensures Lt(AlphaBeta(g, agent, depth, s, a, b), a) <==> Lt(Minimax(g, agent, depth, s), a)
    decreases g.maxDepth - depth, g.numAgents - agent, 1, 0
  {
    if !g.Cutoff(depth, s) {
      if agent == 0 {
        MaximizerSound(g, depth, s, g.legal(0, s), 0, a, a, b, NegInf, NegInf);
      } else {
        MinimizerSound(g, agent, depth, s, g.legal(agent, s), 0, a, b, b, PosInf, PosInf);
      }
    }
  }

  /**
    The maximizer loop against minimax's loop.  `a0` is the window's lower
    end on entry, `m` and `M` the running maxima of the pruned and the plain
    loop.  Either everything seen so far is below `a0` (and `m` is a bound
    below `a0`), or the two running maxima agree.
   */
  lemma {:induction false} MaximizerSound<S, A>(g: Game<S, A>, depth: nat, s: S, acts: seq<A>, i: nat,
                                                a0: Score, a: Score, b: Score, m: Score, M: Score)
    requires g.Valid() && depth < g.maxDepth && i <= |acts| && Le(a0, b)
    requires a == Max(a0, m) && Le(m, b)
    requires (Lt(M, a0) && Le(M, m) && Lt(m, a0)) || (Le(a0, M) && m == M)
    ensures Within(a0, b, Maximizer(g, 0, depth, s, acts, i, a, b, m), MaxLoop(g, 0, depth, s, acts, i, M))
    decreases g.maxDepth - depth, g.numAgents, 0, |acts| - i
  {
    if i < |acts| {
      var child := g.succ(0, acts[i], s);
      var c := Minimax(g, 1, depth, child);
      var r := AlphaBeta(g, 1, depth, child, a, b);
      AlphaBetaSound(g, 1, depth, child, a, b);
      var m' := Max(m, r);
      var M' := if Lt(M, c) then c else M;
      assert MaxLoop(g, 0, depth, s, acts, i, M) == MaxLoop(g, 0, depth, s, acts, i + 1, M');
      assert Maximizer(g, 0, depth, s, acts, i, a, b, m)
          == if Lt(b, m') then m' else Maximizer(g, 0, depth, s, acts, i + 1, Max(a, m'), b, m');
      MaxLoopIsMax(g, depth, s, acts, i + 1, M');
      if !Lt(b, m') {
        MaximizerSound(g, depth, s, acts, i + 1, a0, Max(a, m'), b, m', M');
      }
    }
  }

  /** The minimizer loop against minimax's loop; the mirror image of `MaximizerSound`. */
  lemma {:induction false} MinimizerSound<S, A>(g: Game<S, A>, agent: nat, depth: nat, s: S, acts: seq<A>, i: nat,
                                                a: Score, b0: Score, b: Score, m: Score, M: Score)
    requires g.Valid() && 0 < agent < g.numAgents && depth < g.maxDepth && i <= |acts| && Le(a, b0)
    requires b == Min(b0, m) && Le(a, m)
    requires (Lt(b0, M) && Le(m, M) && Lt(b0, m)) || (Le(M, b0) && m == M)
    ensures Within(a, b0, Minimizer(g, agent, depth, s, acts, i, a, b, m), MinLoop(g, agent, depth, s, acts, i, M))
    decreases g.maxDepth - depth, g.numAgents - agent, 0, |acts| - i
  {
    if i < |acts| {
      var t := Next(g, agent, depth);
      var child := g.succ(agent, acts[i], s);
      var c := Minimax(g, t.agent, t.depth, child);
      var r := AlphaBeta(g, t.agent, t.depth, child, a, b);
      AlphaBetaSound(g, t.agent, t.depth, child, a, b);
      var m' := Min(m, r);
      var M' := if Lt(c, M) then c else M;
      assert MinLoop(g, agent, depth, s, acts, i, M) == MinLoop(g, agent, depth, s, acts, i + 1, M');
      assert Minimizer(g, agent, depth, s, acts, i, a, b, m)
          == if Lt(m', a) then m' else Minimizer(g, agent, depth, s, acts, i + 1, a, Min(b, m'), m');
      MinLoopIsMin(g, agent, depth, s, acts, i + 1, M');
      if !Lt(m', a) {
        MinimizerSound(g, agent, depth, s, acts, i + 1, a, b0, Min(b, m'), m', M');
      }
    }
  }

  /**
    The `a` that `maximizer` hands to each child it explores, from the
    `i`-th action on.  It follows `Maximizer` step for step: the same
    `maximum'`, the same cut-off `b < maximum'` and the same update of `a`.
   */
  ghost function MaximizerAlphas<S, A>(g: Game<S, A>, agent: nat, depth: nat, s: S, acts: seq<A>, i: nat,
                                       a: Score, b: Score, maximum: Score): (r: seq<Score>)
    requires g.Valid() && agent == 0 && depth < g.maxDepth && i <= |acts|
    decreases |acts| - i
  {
    if i == |acts| then []
    else
      var maximum' := Max(maximum, AlphaBeta(g, 1, depth, g.succ(agent, acts[i], s), a, b));
      [a] + if Lt(b, maximum') then [] else MaximizerAlphas(g, agent, depth, s, acts, i + 1, Max(a, maximum'), b, maximum')
  }

  /**
    Along the maximizer's loop the window only narrows: the lower ends
    handed to the children never decrease, start at `a`, and stay within
    `[a, b]`; at most one child per remaining action is explored.
   */
  lemma {:induction false} MaximizerWindowNarrows<S, A>(g: Game<S, A>, depth: nat, s: S, acts: seq<A>, i: nat,
                                                        a: Score, b: Score, maximum: Score)
    requires g.Valid() && depth < g.maxDepth && i <= |acts| && Le(a, b)
    ensures var t := MaximizerAlphas(g, 0, depth, s, acts, i, a, b, maximum);
      && |t| <= |acts| - i
      && (|t| > 0 ==> t[0] == a)
      && (forall k :: 0 <= k < |t| ==> Le(a, t[k]) && Le(t[k], b))
      && (forall k :: 0 < k < |t| ==> Le(t[k - 1], t[k]))
    decreases |acts| - i
  {
    if i < |acts| {
      var maximum' := Max(maximum, AlphaBeta(g, 1, depth, g.succ(0, acts[i], s), a, b));
      if !Lt(b, maximum') {
        var a' := Max(a, maximum');
        MaximizerWindowNarrows(g, depth, s, acts, i + 1, a', b, maximum');
        var rest := MaximizerAlphas(g, 0, depth, s, acts, i + 1, a', b, maximum');
        assert MaximizerAlphas(g, 0, depth, s, acts, i, a, b, maximum) == [a] + rest;
        forall k | 0 <= k < |rest|
          ensures Le(a, rest[k])
        {
          LeTransitive(a, a', rest[k]);
        }
      }
    }
  }

  /**
    The `b` that `minimizer` hands to each child it explores, from the
    `i`-th action on.  It follows `Minimizer` step for step: the same
    `minimum'`, the same cut-off `minimum' < a` and the same update of `b`.
   */
  ghost function MinimizerBetas<S, A>(g: Game<S, A>, agent: nat, depth: nat, s: S, acts: seq<A>, i: nat,
                                      a: Score, b: Score, minimum: Score): (r: seq<Score>)
    requires g.Valid() && 0 < agent < g.numAgents && depth < g.maxDepth && i <= |acts|
    decreases |acts| - i
  {
    if i == |acts| then []
    else
      var t := Next(g, agent, depth);
      var minimum' := Min(minimum, AlphaBeta(g, t.agent, t.depth, g.succ(agent, acts[i], s), a, b));
      [b] + if Lt(minimum', a) then [] else MinimizerBetas(g, agent, depth, s, acts, i + 1, a, Min(b, minimum'), minimum')
  }

  /** Along the minimizer's loop the upper ends handed to the children never increase. */
  lemma {:induction false} MinimizerWindowNarrows<S, A>(g: Game<S, A>, agent: nat, depth: nat, s: S, acts: seq<A>, i: nat,
                                                        a: Score, b: Score, minimum: Score)
    requires g.Valid() && 0 < agent < g.numAgents && depth < g.maxDepth && i <= |acts| && Le(a, b)
    ensures var t := MinimizerBetas(g, agent, depth, s, acts, i, a, b, minimum);
      && |t| <= |acts| - i
      && (|t| > 0 ==> t[0] == b)
      && (forall k :: 0 <= k < |t| ==> Le(a, t[k]) && Le(t[k], b))
      && (forall k :: 0 < k < |t| ==> Le(t[k], t[k - 1]))
    decreases |acts| - i
  {
    if i < |acts| {
      var tn := Next(g, agent, depth);
      var minimum' := Min(minimum, AlphaBeta(g, tn.agent, tn.depth, g.succ(agent, acts[i], s), a, b));
      if !Lt(minimum', a) {
        var b' := Min(b, minimum');
        MinimizerWindowNarrows(g, agent, depth, s, acts, i + 1, a, b', minimum');
        var rest := MinimizerBetas(g, agent, depth, s, acts, i + 1, a, b', minimum');
        assert MinimizerBetas(g, agent, depth, s, acts, i, a, b, minimum) == [b] + rest;
        forall k | 0 <= k < |rest|
          ensures Le(rest[k], b)
        {
          LeTransitive(rest[k], b', b);
        }
      }
    }
  }

  /** At a win, a loss or the depth limit, alpha-beta returns the evaluation, whatever the window. */
  lemma AlphaBetaCutoff<S, A>(g: Game<S, A>, agent: nat, depth: nat, s: S, a: Score, b: Score)
    requires g.Valid() && g.InRange(agent, depth) && g.Cutoff(depth, s)
    ensures AlphaBeta(g, agent, depth, s, a, b) == g.eval(s)
  {
  }

  /** Called with the full window `(-inf, +inf)`, alpha-beta is minimax. */
  lemma AlphaBetaFullWindow<S, A>(g: Game<S, A>, agent: nat, depth: nat, s: S)
    requires g.Valid() && g.InRange(agent, depth)
    ensures AlphaBeta(g, agent, depth, s, NegInf, PosInf) == Minimax(g, agent, depth, s)
  {
    AlphaBetaSound(g, agent, depth, s, NegInf, PosInf);
  }

  /** The root loop of `AlphaBetaAgent.getAction` from the `i`-th action on. */
  function RootPrune<S, A>(g: Game<S, A>, s: S, acts: seq<A>, i: nat,
                           utility: Score, alpha: Score, beta: Score, action: Decision<S, A>): (r: Decision<S, A>)
    requires g.Valid() && i <= |acts|
    decreases |acts| - i
  {
    if i == |acts| then action
    else
      var value := AlphaBeta(g, 1, 0, g.succ(0, acts[i], s), alpha, beta);
      var utility' := if Lt(utility, value) then value else utility;
      var action' := if Lt(utility, value) then Move(acts[i]) else action;
      if Lt(beta, utility') then ScoreReturned(utility')
      else RootPrune(g, s, acts, i + 1, utility', Max(alpha, utility'), beta, action')
  }

  /** `AlphaBetaAgent.getAction`: the action is initialised to `west` (`Directions.WEST`). */
  function AlphaBetaAction<S, A>(g: Game<S, A>, s: S, west: A): (r: Decision<S, A>)
    requires g.Valid()
  {
    RootPrune(g, s, g.legal(0, s), 0, NegInf, NegInf, PosInf, Move(west))
  }

  /** The minimax decision with its state default replaced by the alpha-beta default. */
  function WithDefault<S, A>(d: Decision<S, A>, west: A): (r: Decision<S, A>) {
    if d.StateReturned? then Move(west) else d
  }

  /**
    Step by step, the two root loops make the same choices: the alpha-beta
    root keeps `alpha` equal to its running best and `beta` at `+inf`.
   */
  lemma {:induction false} RootLoopsAgree<S, A>(g: Game<S, A>, s: S, acts: seq<A>, i: nat,
                                                utility: Score, action: Decision<S, A>, west: A)
    requires g.Valid() && i <= |acts|
    ensures RootPrune(g, s, acts, i, utility, utility, PosInf, WithDefault(action, west))
            == WithDefault(RootLoop(g, s, acts, i, utility, action), west)
    decreases |acts| - i
  {
    if i < |acts| {
      var child := g.succ(0, acts[i], s);
      AlphaBetaSound(g, 1, 0, child, utility, PosInf);
      var v := Minimax(g, 1, 0, child);
      if Lt(utility, v) {
        RootLoopsAgree(g, s, acts, i + 1, v, Move(acts[i]), west);
      } else {
        RootLoopsAgree(g, s, acts, i + 1, utility, action, west);
      }
    }
  }

  /**
    The alpha-beta root returns the same action as the minimax root whenever
    minimax returns an action; where minimax falls back to returning the
    game state (no action worth more than `-inf`), alpha-beta returns its
    own default `west`.  The early `return utility` of the root is never
    taken.
   */
  lemma AlphaBetaAgreesWithMinimax<S, A>(g: Game<S, A>, s: S, west: A)
    requires g.Valid()
    ensures MinimaxAction(g, s).Move? ==> AlphaBetaAction(g, s, west) == MinimaxAction(g, s)
    ensures MinimaxAction(g, s).StateReturned? ==> AlphaBetaAction(g, s, west) == Move(west)
    ensures AlphaBetaAction(g, s, west).Move?
  {
    RootLoopsAgree(g, s, g.legal(0, s), 0, NegInf, StateReturned(s), west);
    MinimaxActionPicksFirstMax(g, s);
  }
}
