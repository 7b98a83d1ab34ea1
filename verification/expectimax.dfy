/**
  Expectimax (`ExpectimaxAgent.getAction`): Pacman maximises as in
  minimax, and every ghost is a chance node that averages its children,
  each legal ghost action being taken as equally likely.

  A chance node divides by the number of legal actions, so a ghost with
  none raises Python's `ZeroDivisionError`, which aborts the whole search;
  that is the `DivisionByZero` outcome here.  Adding `+inf` to `-inf` would
  give NaN, which is not modelled: the searches require an evaluation
  function that never returns `+inf` (both of the source's evaluation
  functions satisfy this).
 */
module ExpectimaxSearch {
  import opened Scores
  import opened Games
  import opened Decisions
  import MinimaxSearch

  /** A value, or the `ZeroDivisionError` raised somewhere below. */
  datatype Outcome<T> = Done(value: T) | DivisionByZero

  /** The evaluation function never returns `+inf`. */
  ghost predicate NoPosInfEval<S(!new), A>(g: Game<S, A>) {
    forall s :: !g.eval(s).PosInf?
  }

  /** The nested `expectimax(agent, depth, gameState)`. */
  function Expectimax<S(!new), A>(g: Game<S, A>, agent: nat, depth: nat, s: S): (r: Outcome<Score>)
    requires g.Valid() && g.InRange(agent, depth) && NoPosInfEval(g)
    ensures r.Done? ==> !r.value.PosInf?
    decreases g.maxDepth - depth, g.numAgents - agent, 1, 0
  {
    if g.isWin(s) then Done(g.eval(s))
    else if g.isLose(s) then Done(g.eval(s))
    else if g.maxDepth == depth then Done(g.eval(s))
    else if agent == 0 then MaxLoop(g, agent, depth, s, g.legal(0, s), 0, NegInf)
    else
      var acts := g.legal(agent, s);
      match ChanceLoop(g, agent, depth, s, acts, 0, Fin(0.0))
      case DivisionByZero => DivisionByZero
      case Done(total) => if |acts| == 0 then DivisionByZero else Done(DivBy(total, |acts|))
  }

  /** Pacman's loop from the `i`-th legal action on, with running maximum `m`. */
  function MaxLoop<S(!new), A>(g: Game<S, A>, agent: nat, depth: nat, s: S, acts: seq<A>, i: nat, m: Score): (r: Outcome<Score>)
    requires g.Valid() && agent == 0 && depth < g.maxDepth && i <= |acts| && NoPosInfEval(g)
    requires !m.PosInf?
    ensures r.Done? ==> !r.value.PosInf?
    decreases g.maxDepth - depth, g.numAgents - agent, 0, |acts| - i
  {
    if i == |acts| then Done(m)
    else
      match Expectimax(g, 1, depth, g.succ(agent, acts[i], s))
      case DivisionByZero => DivisionByZero
      case Done(utility) => MaxLoop(g, agent, depth, s, acts, i + 1, if Lt(m, utility) then utility else m)
  }

  /** A ghost's loop from the `i`-th legal action on, adding the children into `total`. */
  function ChanceLoop<S(!new), A>(g: Game<S, A>, agent: nat, depth: nat, s: S, acts: seq<A>, i: nat, total: Score): (r: Outcome<Score>)
    requires g.Valid() && 0 < agent < g.numAgents && depth < g.maxDepth && i <= |acts| && NoPosInfEval(g)
    requires !total.PosInf?
    ensures r.Done? ==> !r.value.PosInf?
    decreases g.maxDepth - depth, g.numAgents - agent, 0, |acts| - i
  {
    if i == |acts| then Done(total)
    else
      var t := Next(g, agent, depth);
      match Expectimax(g, t.agent, t.depth, g.succ(agent, acts[i], s))
      case DivisionByZero => DivisionByZero
      case Done(utility) => ChanceLoop(g, agent, depth, s, acts, i + 1, Add(total, utility))
  }

  /** The expectimax outcome of the state reached when `agent` plays `a`. */
  function Child<S(!new), A>(g: Game<S, A>, agent: nat, depth: nat, s: S, a: A): (r: Outcome<Score>)
    requires g.Valid() && g.InRange(agent, depth) && depth < g.maxDepth && NoPosInfEval(g)
  {
    var t := Next(g, agent, depth);
    Expectimax(g, t.agent, t.depth, g.succ(agent, a, s))
  }

  /** The sum of the finite child values over `acts[i..]`. */
  ghost function ChildSum<S(!new), A>(g: Game<S, A>, agent: nat, depth: nat, s: S, acts: seq<A>, i: nat): (r: real)
    requires g.Valid() && g.InRange(agent, depth) && depth < g.maxDepth && NoPosInfEval(g) && i <= |acts|
    decreases |acts| - i
  {
    if i == |acts| then 0.0
    else
      (match Child(g, agent, depth, s, acts[i]) case Done(Fin(x)) => x case _ => 0.0)
      + ChildSum(g, agent, depth, s, acts, i + 1)
  }

  /** Some child over `acts[i..]` is worth `-inf`. */
  ghost predicate SomeChildNegInf<S(!new), A>(g: Game<S, A>, agent: nat, depth: nat, s: S, acts: seq<A>, i: nat)
    requires g.Valid() && g.InRange(agent, depth) && depth < g.maxDepth && NoPosInfEval(g)
  {
    exists j :: i <= j < |acts| && Child(g, agent, depth, s, acts[j]) == Done(NegInf)
  }

  /** Every child over `acts[i..]` has a value. */
  ghost predicate AllChildrenDone<S(!new), A>(g: Game<S, A>, agent: nat, depth: nat, s: S, acts: seq<A>, i: nat)
    requires g.Valid() && g.InRange(agent, depth) && depth < g.maxDepth && NoPosInfEval(g)
  {
    forall j :: i <= j < |acts| ==> Child(g, agent, depth, s, acts[j]).Done?
  }

  /**
    The arithmetic mean of the children of a chance node with at least one
    action: `-inf` if some child is worth `-inf`, the average of the finite
    values otherwise.
   */
  ghost function Mean<S(!new), A>(g: Game<S, A>, agent: nat, depth: nat, s: S, acts: seq<A>): (r: Score)
    requires g.Valid() && g.InRange(agent, depth) && depth < g.maxDepth && NoPosInfEval(g) && |acts| > 0
  {
    if SomeChildNegInf(g, agent, depth, s, acts, 0) then NegInf
    else Fin(ChildSum(g, agent, depth, s, acts, 0) / |acts| as real)
  }

  lemma {:induction false} MaxLoopIsMax<S(!new), A>(g: Game<S, A>, depth: nat, s: S, acts: seq<A>, i: nat, m: Score)
    requires g.Valid() && depth < g.maxDepth && i <= |acts| && NoPosInfEval(g) && !m.PosInf?
    ensures var r := MaxLoop(g, 0, depth, s, acts, i, m);
      && (r.Done? <==> AllChildrenDone(g, 0, depth, s, acts, i))
      && (r.Done? ==>
            && Le(m, r.value)
            && (forall j :: i <= j < |acts| ==> Le(Child(g, 0, depth, s, acts[j]).value, r.value))
            && (r.value == m || exists j :: i <= j < |acts| && Child(g, 0, depth, s, acts[j]) == r))
    decreases |acts| - i
  {
    if i < |acts| {
      NextAfterPacman(g, depth);
      var u := Child(g, 0, depth, s, acts[i]);
      if u.Done? {
        var m' := if Lt(m, u.value) then u.value else m;
        MaxLoopIsMax(g, depth, s, acts, i + 1, m');
        var r := MaxLoop(g, 0, depth, s, acts, i, m);
        assert r == MaxLoop(g, 0, depth, s, acts, i + 1, m');
        if r.Done? {
          forall j | i <= j < |acts|
            ensures Le(Child(g, 0, depth, s, acts[j]).value, r.value)
          {
            if j == i {
              LeTransitive(u.value, m', r.value);
            }
          }
          LeTransitive(m, m', r.value);
        }
      }
    }
  }

  lemma {:induction false} ChanceLoopAdds<S(!new), A>(g: Game<S, A>, agent: nat, depth: nat, s: S, acts: seq<A>, i: nat, total: Score)
    requires g.Valid() && 0 < agent < g.numAgents && depth < g.maxDepth && i <= |acts| && NoPosInfEval(g)
    requires !total.PosInf?
    ensures var r := ChanceLoop(g, agent, depth, s, acts, i, total);
      && (r.Done? <==> AllChildrenDone(g, agent, depth, s, acts, i))
      && (r.Done? ==> r.value == if total.NegInf? || SomeChildNegInf(g, agent, depth, s, acts, i) then NegInf
                                 else Fin(total.r + ChildSum(g, agent, depth, s, acts, i)))
    decreases |acts| - i
  {
    if i < |acts| {
      var u := Child(g, agent, depth, s, acts[i]);
      if u.Done? {
        var total' := Add(total, u.value);
        ChanceLoopAdds(g, agent, depth, s, acts, i + 1, total');
        assert ChanceLoop(g, agent, depth, s, acts, i, total) == ChanceLoop(g, agent, depth, s, acts, i + 1, total');
        if SomeChildNegInf(g, agent, depth, s, acts, i + 1) {
          var j :| i + 1 <= j < |acts| && Child(g, agent, depth, s, acts[j]) == Done(NegInf);
          assert i <= j;
        }
        if u.value.NegInf? {
          assert SomeChildNegInf(g, agent, depth, s, acts, i);
        }
        if SomeChildNegInf(g, agent, depth, s, acts, i) && !u.value.NegInf? {
          var j :| i <= j < |acts| && Child(g, agent, depth, s, acts[j]) == Done(NegInf);
          assert j != i;
          assert SomeChildNegInf(g, agent, depth, s, acts, i + 1);
        }
      }
    }
  }

  /**
    What expectimax computes: the evaluation at a win, a loss or the depth
    limit; at Pacman the largest child value; at a ghost with legal actions
    the mean of its children.  The search fails with a division by zero
    exactly when some child fails or a ghost to be expanded has no legal
    action.
   */
  lemma ExpectimaxValue<S(!new), A>(g: Game<S, A>, agent: nat, depth: nat, s: S)
    requires g.Valid() && g.InRange(agent, depth) && NoPosInfEval(g)
    ensures g.Cutoff(depth, s) ==> Expectimax(g, agent, depth, s) == Done(g.eval(s))
    ensures !g.Cutoff(depth, s) && agent == 0 ==>
      var acts := g.legal(agent, s);
      var r := Expectimax(g, agent, depth, s);
      && (r.Done? <==> AllChildrenDone(g, agent, depth, s, acts, 0))
      && (r.Done? ==>
            && (forall j :: 0 <= j < |acts| ==> Le(Child(g, agent, depth, s, acts[j]).value, r.value))
            && (r.value == NegInf || exists j :: 0 <= j < |acts| && Child(g, agent, depth, s, acts[j]) == r))
    ensures !g.Cutoff(depth, s) && agent != 0 ==>
      var acts := g.legal(agent, s);
      var r := Expectimax(g, agent, depth, s);
      && (r.Done? <==> |acts| > 0 && AllChildrenDone(g, agent, depth, s, acts, 0))
      && (r.Done? ==> r.value == Mean(g, agent, depth, s, acts))
  {
    if !g.Cutoff(depth, s) {
      var acts := g.legal(agent, s);
      if agent == 0 {
        MaxLoopIsMax(g, depth, s, acts, 0, NegInf);
      } else {
        ChanceLoopAdds(g, agent, depth, s, acts, 0, Fin(0.0));
      }
    }
  }

  /** Every ghost has a legal action in every state. */
  ghost predicate GhostsCanMove<S(!new), A>(g: Game<S, A>) {
    forall agent: nat, s :: 0 < agent < g.numAgents ==> |g.legal(agent, s)| > 0
  }

  /** When every ghost can always move, expectimax never divides by zero. */
  lemma ExpectimaxDefined<S(!new), A>(g: Game<S, A>, agent: nat, depth: nat, s: S)
    requires g.Valid() && g.InRange(agent, depth) && NoPosInfEval(g) && GhostsCanMove(g)
    ensures Expectimax(g, agent, depth, s).Done?
    decreases g.maxDepth - depth, g.numAgents - agent
  {
    ExpectimaxValue(g, agent, depth, s);
    if !g.Cutoff(depth, s) {
      var acts := g.legal(agent, s);
      forall j | 0 <= j < |acts|
        ensures Child(g, agent, depth, s, acts[j]).Done?
      {
        var t := Next(g, agent, depth);
        ExpectimaxDefined(g, t.agent, t.depth, g.succ(agent, acts[j], s));
      }
    }
  }

  /** If every value is at least `x`, their sum is at least `x` times their number. */
  lemma {:induction false} ChildSumAtLeast<S(!new), A>(g: Game<S, A>, agent: nat, depth: nat, s: S, acts: seq<A>, i: nat, x: real)
    requires g.Valid() && g.InRange(agent, depth) && depth < g.maxDepth && NoPosInfEval(g) && i <= |acts|
    requires forall j :: i <= j < |acts| ==>
      Child(g, agent, depth, s, acts[j]).Done? && Le(Fin(x), Child(g, agent, depth, s, acts[j]).value)
    ensures ChildSum(g, agent, depth, s, acts, i) >= (|acts| - i) as real * x
    decreases |acts| - i
  {
    if i < |acts| {
      ChildSumAtLeast(g, agent, depth, s, acts, i + 1, x);
    }
  }

  lemma QuotientAtLeast(sum: real, n: real, x: real)
    requires n > 0.0 && sum >= n * x
    ensures sum / n >= x
  {
    var q := sum / n;
    assert q * n == sum;
    if q < x {
      assert (x - q) * n > 0.0;
    }
  }

  /** A lower bound of every child is a lower bound of their mean. */
  lemma MeanAtLeast<S(!new), A>(g: Game<S, A>, agent: nat, depth: nat, s: S, acts: seq<A>, x: Score)
    requires g.Valid() && g.InRange(agent, depth) && depth < g.maxDepth && NoPosInfEval(g) && |acts| > 0
    requires forall j :: 0 <= j < |acts| ==>
      Child(g, agent, depth, s, acts[j]).Done? && Le(x, Child(g, agent, depth, s, acts[j]).value)
    ensures Le(x, Mean(g, agent, depth, s, acts))
  {
    if !x.NegInf? {
      assert !x.PosInf? by {
        assert Le(x, Child(g, agent, depth, s, acts[0]).value);
      }
      forall j | 0 <= j < |acts|
        ensures Child(g, agent, depth, s, acts[j]) != Done(NegInf)
      {
        assert Le(x, Child(g, agent, depth, s, acts[j]).value);
      }
      assert !SomeChildNegInf(g, agent, depth, s, acts, 0);
      ChildSumAtLeast(g, agent, depth, s, acts, 0, x.r);
      var n := |acts| as real;
      var sum := ChildSum(g, agent, depth, s, acts, 0);
      assert sum >= n * x.r;
      QuotientAtLeast(sum, n, x.r);
    }
  }

  /**
    Averaging never does worse for Pacman than minimising: whenever
    expectimax has a value, the minimax value of the same node is at most
    that value.
   */
  lemma MinimaxBelowExpectimax<S(!new), A>(g: Game<S, A>, agent: nat, depth: nat, s: S)
    requires g.Valid() && g.InRange(agent, depth) && NoPosInfEval(g)
    requires Expectimax(g, agent, depth, s).Done?
    ensures Le(MinimaxSearch.Minimax(g, agent, depth, s), Expectimax(g, agent, depth, s).value)
    decreases g.maxDepth - depth, g.numAgents - agent
  {
    ExpectimaxValue(g, agent, depth, s);
    MinimaxSearch.MinimaxValue(g, agent, depth, s);
    if !g.Cutoff(depth, s) {
      var acts := g.legal(agent, s);
      var e := Expectimax(g, agent, depth, s).value;
      var v := MinimaxSearch.Minimax(g, agent, depth, s);
      forall j | 0 <= j < |acts|
        ensures Le(MinimaxSearch.Child(g, agent, depth, s, acts[j]), Child(g, agent, depth, s, acts[j]).value)
      {
        var t := Next(g, agent, depth);
        MinimaxBelowExpectimax(g, t.agent, t.depth, g.succ(agent, acts[j], s));
      }
      if agent == 0 {
        if v != NegInf {
          var j :| 0 <= j < |acts| && v == MinimaxSearch.Child(g, agent, depth, s, acts[j]);
          LeTransitive(v, Child(g, agent, depth, s, acts[j]).value, e);
        }
      } else {
        forall j | 0 <= j < |acts|
          ensures Le(v, Child(g, agent, depth, s, acts[j]).value)
        {
          LeTransitive(v, MinimaxSearch.Child(g, agent, depth, s, acts[j]), Child(g, agent, depth, s, acts[j]).value);
        }
        MeanAtLeast(g, agent, depth, s, acts, v);
      }
    }
  }

  /** The value of the root action `a`: `expectimax(1, 0, successor)`. */
  function RootValue<S(!new), A>(g: Game<S, A>, s: S, a: A): (r: Outcome<Score>)
    requires g.Valid() && NoPosInfEval(g)
  {
    Expectimax(g, 1, 0, g.succ(0, a, s))
  }

  /** The root values of `acts`, in order, where they exist. */
  ghost function RootValues<S(!new), A>(g: Game<S, A>, s: S, acts: seq<A>): (vals: seq<Score>)
    requires g.Valid() && NoPosInfEval(g)
    ensures |vals| == |acts|
    ensures forall j :: 0 <= j < |acts| && RootValue(g, s, acts[j]).Done? ==> vals[j] == RootValue(g, s, acts[j]).value
  {
    if acts == [] then []
    else
      [match RootValue(g, s, acts[0]) case Done(v) => v case DivisionByZero => NegInf]
      + RootValues(g, s, acts[1..])
  }

  /** The root loop of `ExpectimaxAgent.getAction` from the `i`-th action on. */
  function RootLoop<S(!new), A>(g: Game<S, A>, s: S, acts: seq<A>, i: nat, maximum: Score, action: Decision<S, A>)
    : (r: Outcome<Decision<S, A>>)
    requires g.Valid() && NoPosInfEval(g) && i <= |acts|
    decreases |acts| - i
  {
    if i == |acts| then Done(action)
    else
      match Expectimax(g, 1, 0, g.succ(0, acts[i], s))
      case DivisionByZero => DivisionByZero
      case Done(utility) =>
        if Lt(maximum, utility) then RootLoop(g, s, acts, i + 1, utility, Move(acts[i]))
        else RootLoop(g, s, acts, i + 1, maximum, action)
  }

  /** `ExpectimaxAgent.getAction`: the action is initialised to the game state itself. */
  function ExpectimaxAction<S(!new), A>(g: Game<S, A>, s: S): (r: Outcome<Decision<S, A>>)
    requires g.Valid() && NoPosInfEval(g)
  {
    RootLoop(g, s, g.legal(0, s), 0, NegInf, StateReturned(s))
  }

  lemma {:induction false} RootLoopFails<S(!new), A>(g: Game<S, A>, s: S, acts: seq<A>, i: nat, maximum: Score, action: Decision<S, A>)
    requires g.Valid() && NoPosInfEval(g) && i <= |acts|
    ensures RootLoop(g, s, acts, i, maximum, action).Done? <==> forall j :: i <= j < |acts| ==> RootValue(g, s, acts[j]).Done?
    decreases |acts| - i
  {
    if i < |acts| {
      var u := RootValue(g, s, acts[i]);
      if u.Done? {
        var maximum', action' := if Lt(maximum, u.value) then u.value else maximum,
                                 if Lt(maximum, u.value) then Move(acts[i]) else action;
        assert RootLoop(g, s, acts, i, maximum, action) == RootLoop(g, s, acts, i + 1, maximum', action');
        RootLoopFails(g, s, acts, i + 1, maximum', action');
      }
    }
  }

  /** When it succeeds, the root loop is the generic first-maximum loop over the root values. */
  lemma {:induction false} RootLoopIsPickLoop<S(!new), A>(g: Game<S, A>, s: S, acts: seq<A>, i: nat, maximum: Score, action: Decision<S, A>)
    requires g.Valid() && NoPosInfEval(g) && i <= |acts|
    ensures var r := RootLoop(g, s, acts, i, maximum, action);
      r.Done? ==> r.value == PickLoop(acts, RootValues(g, s, acts), i, maximum, action)
    decreases |acts| - i
  {
    if i < |acts| {
      var u := RootValue(g, s, acts[i]);
      if u.Done? {
        assert RootValues(g, s, acts)[i] == u.value;
        if Lt(maximum, u.value) {
          RootLoopIsPickLoop(g, s, acts, i + 1, u.value, Move(acts[i]));
        } else {
          RootLoopIsPickLoop(g, s, acts, i + 1, maximum, action);
        }
      }
    }
  }

  /**
    The expectimax root fails exactly when some root action's search fails,
    and otherwise chooses the first legal action of largest expected value,
    returning the game state itself when none is worth more than `-inf`.
   */
  lemma ExpectimaxActionPicksFirstMax<S(!new), A>(g: Game<S, A>, s: S)
    requires g.Valid() && NoPosInfEval(g)
    ensures var acts := g.legal(0, s);
      var r := ExpectimaxAction(g, s);
      && (r.Done? <==> forall j :: 0 <= j < |acts| ==> RootValue(g, s, acts[j]).Done?)
      && (r.Done? ==> PicksFirstMax(acts, RootValues(g, s, acts), s, r.value))
  {
    RootLoopFails(g, s, g.legal(0, s), 0, NegInf, StateReturned(s));
    if ExpectimaxAction(g, s).Done? {
      RootLoopIsPickLoop(g, s, g.legal(0, s), 0, NegInf, StateReturned(s));
      PickLoopPicks(g.legal(0, s), RootValues(g, s, g.legal(0, s)), s);
    }
  }
}
