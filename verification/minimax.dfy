/**
  Depth-limited minimax (`MinimaxAgent.getAction`): Pacman takes the
  largest child value, every ghost the smallest, and the recursion stops at
  a win, a loss or the depth limit with the evaluation function.
 */
module MinimaxSearch {
  import opened Scores
  import opened Games
  import opened Decisions

  /** The nested `minimax(agent, depth, gameState)`. */
  function Minimax<S, A>(g: Game<S, A>, agent: nat, depth: nat, s: S): (r: Score)
    requires g.Valid() && g.InRange(agent, depth)
    decreases g.maxDepth - depth, g.numAgents - agent, 1, 0
  {
    if g.isWin(s) || g.isLose(s) || g.maxDepth == depth then g.eval(s)
    else if agent == 0 then MaxLoop(g, agent, depth, s, g.legal(0, s), 0, NegInf)
    else MinLoop(g, agent, depth, s, g.legal(agent, s), 0, PosInf)
  }

  /** Pacman's loop from the `i`-th legal action on, with running maximum `m`. */
  function MaxLoop<S, A>(g: Game<S, A>, agent: nat, depth: nat, s: S, acts: seq<A>, i: nat, m: Score): (r: Score)
    requires g.Valid() && agent == 0 && depth < g.maxDepth && i <= |acts|
    decreases g.maxDepth - depth, g.numAgents - agent, 0, |acts| - i
  {
    if i == |acts| then m
    else
      var utility := Minimax(g, 1, depth, g.succ(agent, acts[i], s));
      MaxLoop(g, agent, depth, s, acts, i + 1, if Lt(m, utility) then utility else m)
  }

  /** A ghost's loop from the `i`-th legal action on, with running minimum `m`. */
  function MinLoop<S, A>(g: Game<S, A>, agent: nat, depth: nat, s: S, acts: seq<A>, i: nat, m: Score): (r: Score)
    requires g.Valid() && 0 < agent < g.numAgents && depth < g.maxDepth && i <= |acts|
    decreases g.maxDepth - depth, g.numAgents - agent, 0, |acts| - i
  {
    if i == |acts| then m
    else
      var t := Next(g, agent, depth);
      var utility := Minimax(g, t.agent, t.depth, g.succ(agent, acts[i], s));
      MinLoop(g, agent, depth, s, acts, i + 1, if Lt(utility, m) then utility else m)
  }

  /** The minimax value of the state reached when `agent` plays `a`. */
  function Child<S, A>(g: Game<S, A>, agent: nat, depth: nat, s: S, a: A): (r: Score)
    requires g.Valid() && g.InRange(agent, depth) && depth < g.maxDepth
  {
    var t := Next(g, agent, depth);
    Minimax(g, t.agent, t.depth, g.succ(agent, a, s))
  }

  /** `v` is the largest child value of `s` over `acts`, `-inf` when there is none. */
  ghost predicate IsMaxChild<S, A>(g: Game<S, A>, agent: nat, depth: nat, s: S, acts: seq<A>, v: Score)
    requires g.Valid() && g.InRange(agent, depth) && depth < g.maxDepth
  {
    && (forall j :: 0 <= j < |acts| ==> Le(Child(g, agent, depth, s, acts[j]), v))
    && (v == NegInf || exists j :: 0 <= j < |acts| && v == Child(g, agent, depth, s, acts[j]))
  }

  /** `v` is the smallest child value of `s` over `acts`, `+inf` when there is none. */
  ghost predicate IsMinChild<S, A>(g: Game<S, A>, agent: nat, depth: nat, s: S, acts: seq<A>, v: Score)
    requires g.Valid() && g.InRange(agent, depth) && depth < g.maxDepth
  {
    && (forall j :: 0 <= j < |acts| ==> Le(v, Child(g, agent, depth, s, acts[j])))
    && (v == PosInf || exists j :: 0 <= j < |acts| && v == Child(g, agent, depth, s, acts[j]))
  }

  lemma {:induction false} MaxLoopIsMax<S, A>(g: Game<S, A>, depth: nat, s: S, acts: seq<A>, i: nat, m: Score)
    requires g.Valid() && depth < g.maxDepth && i <= |acts|
    ensures var r := MaxLoop(g, 0, depth, s, acts, i, m);
      && Le(m, r)
      && (forall j :: i <= j < |acts| ==> Le(Child(g, 0, depth, s, acts[j]), r))
      && (r == m || exists j :: i <= j < |acts| && r == Child(g, 0, depth, s, acts[j]))
    decreases |acts| - i
  {
    if i < |acts| {
      NextAfterPacman(g, depth);
      var u := Child(g, 0, depth, s, acts[i]);
      var m' := if Lt(m, u) then u else m;
      MaxLoopIsMax(g, depth, s, acts, i + 1, m');
      var r := MaxLoop(g, 0, depth, s, acts, i, m);
      assert r == MaxLoop(g, 0, depth, s, acts, i + 1, m');
      forall j | i <= j < |acts|
        ensures Le(Child(g, 0, depth, s, acts[j]), r)
      {
        if j == i {
          LeTransitive(u, m', r);
        }
      }
      LeTransitive(m, m', r);
    }
  }

  lemma {:induction false} MinLoopIsMin<S, A>(g: Game<S, A>, agent: nat, depth: nat, s: S, acts: seq<A>, i: nat, m: Score)
    requires g.Valid() && 0 < agent < g.numAgents && depth < g.maxDepth && i <= |acts|
    ensures var r := MinLoop(g, agent, depth, s, acts, i, m);
      && Le(r, m)
      && (forall j :: i <= j < |acts| ==> Le(r, Child(g, agent, depth, s, acts[j])))
      && (r == m || exists j :: i <= j < |acts| && r == Child(g, agent, depth, s, acts[j]))
    decreases |acts| - i
  {
    if i < |acts| {
      var u := Child(g, agent, depth, s, acts[i]);
      var m' := if Lt(u, m) then u else m;
      MinLoopIsMin(g, agent, depth, s, acts, i + 1, m');
      var r := MinLoop(g, agent, depth, s, acts, i, m);
      assert r == MinLoop(g, agent, depth, s, acts, i + 1, m');
      forall j | i <= j < |acts|
        ensures Le(r, Child(g, agent, depth, s, acts[j]))
      {
        if j == i {
          LeTransitive(r, m', u);
        }
      }
      LeTransitive(r, m', m);
    }
  }

  /**
    What minimax computes: the evaluation at a cutoff, otherwise the
    maximum (Pacman) or minimum (ghost) of the child values over the
    agent's legal actions, `-inf` / `+inf` when there are none.
   */
  lemma MinimaxValue<S, A>(g: Game<S, A>, agent: nat, depth: nat, s: S)
    requires g.Valid() && g.InRange(agent, depth)
    ensures g.Cutoff(depth, s) ==> Minimax(g, agent, depth, s) == g.eval(s)
    ensures !g.Cutoff(depth, s) && agent == 0 ==>
      IsMaxChild(g, agent, depth, s, g.legal(agent, s), Minimax(g, agent, depth, s))
    ensures !g.Cutoff(depth, s) && agent != 0 ==>
      IsMinChild(g, agent, depth, s, g.legal(agent, s), Minimax(g, agent, depth, s))
  {
    if !g.Cutoff(depth, s) {
      if agent == 0 {
        MaxLoopIsMax(g, depth, s, g.legal(0, s), 0, NegInf);
      } else {
        MinLoopIsMin(g, agent, depth, s, g.legal(agent, s), 0, PosInf);
      }
    }
  }

  /** The value of the root action `a`: `minimax(1, 0, successor)`. */
  function RootValue<S, A>(g: Game<S, A>, s: S, a: A): (r: Score)
    requires g.Valid()
  {
    Minimax(g, 1, 0, g.succ(0, a, s))
  }

  /** The root values of `acts`, in order. */
  function RootValues<S, A>(g: Game<S, A>, s: S, acts: seq<A>): (vals: seq<Score>)
    requires g.Valid()
    ensures |vals| == |acts|
    ensures forall j :: 0 <= j < |acts| ==> vals[j] == RootValue(g, s, acts[j])
  {
    if acts == [] then [] else [RootValue(g, s, acts[0])] + RootValues(g, s, acts[1..])
  }

  /** The root loop of `MinimaxAgent.getAction` from the `i`-th action on. */
  function RootLoop<S, A>(g: Game<S, A>, s: S, acts: seq<A>, i: nat, maximum: Score, action: Decision<S, A>): (r: Decision<S, A>)
    requires g.Valid() && i <= |acts|
    decreases |acts| - i
  {
    if i == |acts| then action
    else
      var utility := RootValue(g, s, acts[i]);
      if Lt(maximum, utility) then RootLoop(g, s, acts, i + 1, utility, Move(acts[i]))
      else RootLoop(g, s, acts, i + 1, maximum, action)
  }

  /** `MinimaxAgent.getAction`: the action is initialised to the game state itself. */
  function MinimaxAction<S, A>(g: Game<S, A>, s: S): (r: Decision<S, A>)
    requires g.Valid()
  {
    RootLoop(g, s, g.legal(0, s), 0, NegInf, StateReturned(s))
  }

  /** The root loop is the generic first-maximum loop over the root values. */
  lemma {:induction false} RootLoopIsPickLoop<S, A>(g: Game<S, A>, s: S, acts: seq<A>, i: nat, maximum: Score, action: Decision<S, A>)
    requires g.Valid() && i <= |acts|
    ensures RootLoop(g, s, acts, i, maximum, action) == PickLoop(acts, RootValues(g, s, acts), i, maximum, action)
    decreases |acts| - i
  {
    if i < |acts| {
      var u := RootValue(g, s, acts[i]);
      assert RootValues(g, s, acts)[i] == u;
      if Lt(maximum, u) {
        RootLoopIsPickLoop(g, s, acts, i + 1, u, Move(acts[i]));
      } else {
        RootLoopIsPickLoop(g, s, acts, i + 1, maximum, action);
      }
    }
  }

  /**
    The minimax root chooses the first legal action of largest value, and
    returns the game state itself when every action is worth `-inf` or
    there is none.
   */
  lemma MinimaxActionPicksFirstMax<S, A>(g: Game<S, A>, s: S)
    requires g.Valid()
    ensures PicksFirstMax(g.legal(0, s), RootValues(g, s, g.legal(0, s)), s, MinimaxAction(g, s))
  {
    RootLoopIsPickLoop(g, s, g.legal(0, s), 0, NegInf, StateReturned(s));
    PickLoopPicks(g.legal(0, s), RootValues(g, s, g.legal(0, s)), s);
  }
}
