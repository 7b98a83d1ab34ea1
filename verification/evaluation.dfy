/**
  The leaf evaluation functions: `scoreEvaluationFunction` (the state's
  score) and `betterEvaluationFunction` (score plus closeness to the
  nearest food, capsule and ghost, with `-inf` when a dangerous ghost is
  close).

  The engine's GameState is seen here through the queries the heuristic
  makes: Pacman's position, the food and capsule positions, every ghost's
  position and scared timer, and the score.  Positions are real, as ghost
  positions can be fractional while they move slowly.
 */
module Evaluation {
  import opened Scores
  import opened Games
  import ExpectimaxSearch

  datatype Pos = Pos(x: real, y: real)

  datatype Ghost = Ghost(pos: Pos, scaredTimer: int)

  datatype PacmanView = PacmanView(pacman: Pos, food: seq<Pos>, capsules: seq<Pos>, ghosts: seq<Ghost>, score: real)

  function Abs(x: real): (r: real) {
    if x < 0.0 then -x else x
  }

  /** `util.manhattanDistance`. */
  function Manhattan(p: Pos, q: Pos): (d: real)
    ensures d >= 0.0
    ensures d == 0.0 <==> p == q
  {
    Abs(p.x - q.x) + Abs(p.y - q.y)
  }

  /** `scoreEvaluationFunction`: the state's score, always a finite value. */
  function ScoreEvaluation(v: PacmanView): (r: Score)
    ensures r.Fin?
  {
    Fin(v.score)
  }

  /**
    A loop `m = min(m, manhattanDistance(p, q))` over `ps[i..]`: the
    result is the smallest of `m` and the distances, and is one of them.
   */
  function MinDistanceLoop(p: Pos, ps: seq<Pos>, i: nat, m: Score): (r: Score)
    requires i <= |ps|
    ensures Le(r, m)
    ensures forall j :: i <= j < |ps| ==> Le(r, Fin(Manhattan(p, ps[j])))
    ensures r == m || exists j :: i <= j < |ps| && r == Fin(Manhattan(p, ps[j]))
    decreases |ps| - i
  {
    if i == |ps| then m
    else MinDistanceLoop(p, ps, i + 1, Min(m, Fin(Manhattan(p, ps[i]))))
  }

  /** The distance from `p` to the nearest of `ps`, `+inf` when `ps` is empty. */
  function MinDistance(p: Pos, ps: seq<Pos>): (r: Score)
    ensures r.PosInf? <==> |ps| == 0
    ensures r.Fin? ==> r.r >= 0.0
    ensures forall j :: 0 <= j < |ps| ==> Le(r, Fin(Manhattan(p, ps[j])))
    ensures |ps| > 0 ==> exists j :: 0 <= j < |ps| && r == Fin(Manhattan(p, ps[j]))
  {
    MinDistanceLoop(p, ps, 0, PosInf)
  }

  /** Python's `k / (d + 1)` for a distance `d >= 0` or `d = +inf`. */
  function Closeness(k: real, d: Score): (c: real)
    requires !d.NegInf? && (d.Fin? ==> d.r >= 0.0)
    ensures d.PosInf? ==> c == 0.0
    ensures d.Fin? && k > 0.0 ==> 0.0 < c <= k
  {
    if d.PosInf? then 0.0 else k / (d.r + 1.0)
  }

  /**
    Some scared ghost of `gs[i..]` is, in list order, no farther than `m`
    and than every ghost of `gs[i..]` before it.
   */
  ghost predicate ScaredAtRunningMinFrom(p: Pos, gs: seq<Ghost>, i: nat, m: Score) {
    exists k :: i <= k < |gs| && gs[k].scaredTimer != 0 && Le(Fin(Manhattan(p, gs[k].pos)), m) &&
      forall j :: i <= j < k ==> Manhattan(p, gs[k].pos) <= Manhattan(p, gs[j].pos)
  }

  /** Where the ghost loop ends: a nearest distance and the sign flag, or the early `-inf`. */
  datatype GhostScan = Scanned(minGhost: Score, sign: int) | Catastrophe

  /**
    The ghost loop of `betterEvaluationFunction` over `gs[i..]`, with
    running minimum `m` and flag `sign` (`ghoststateclose`).  Each ghost
    first lowers the running minimum; the flag turns to -1 for good when a
    scared ghost is at the running minimum; the loop stops with `-inf` as
    soon as the running minimum is below 2 while the CURRENT ghost is not
    scared.
   */
  function GhostLoop(p: Pos, gs: seq<Ghost>, i: nat, m: Score, sign: int): (r: GhostScan)
    requires i <= |gs|
    ensures r.Catastrophe? <==>
      exists k :: i <= k < |gs| && gs[k].scaredTimer == 0 &&
        (Lt(m, Fin(2.0)) || exists j :: i <= j <= k && Manhattan(p, gs[j].pos) < 2.0)
    ensures r.Scanned? ==>
      && Le(r.minGhost, m)
      && (forall j :: i <= j < |gs| ==> Le(r.minGhost, Fin(Manhattan(p, gs[j].pos))))
      && (r.minGhost == m || exists j :: i <= j < |gs| && r.minGhost == Fin(Manhattan(p, gs[j].pos)))
    decreases |gs| - i
  {
    if i == |gs| then Scanned(m, sign)
    else
      var d := Manhattan(p, gs[i].pos);
      var minGhost := Min(m, Fin(d));
      var sign' := if Fin(d) == minGhost && gs[i].scaredTimer != 0 then -1 else sign;
      if Lt(minGhost, Fin(2.0)) && gs[i].scaredTimer == 0 then Catastrophe
      else GhostLoop(p, gs, i + 1, minGhost, sign')
  }

  /**
    The sign flag after the ghost loop: -1 exactly when it already was, or
    some scared ghost sits at the running minimum when its turn comes.
   */
  lemma {:induction false} GhostLoopSign(p: Pos, gs: seq<Ghost>, i: nat, m: Score, sign: int)
    requires i <= |gs|
    ensures var r := GhostLoop(p, gs, i, m, sign);
      r.Scanned? ==>
        && (r.sign == -1 <==> (sign == -1 || ScaredAtRunningMinFrom(p, gs, i, m)))
        && (r.sign == -1 || r.sign == sign)
    decreases |gs| - i
  {
    if i < |gs| {
      var d := Manhattan(p, gs[i].pos);
      var minGhost := Min(m, Fin(d));
      var sign' := if Fin(d) == minGhost && gs[i].scaredTimer != 0 then -1 else sign;
      if !(Lt(minGhost, Fin(2.0)) && gs[i].scaredTimer == 0) {
        assert GhostLoop(p, gs, i, m, sign) == GhostLoop(p, gs, i + 1, minGhost, sign');
        GhostLoopSign(p, gs, i + 1, minGhost, sign');
        ScaredStep(p, gs, i, m);
      }
    }
  }

  /** Unrolling `ScaredAtRunningMinFrom` by one ghost. */
  lemma ScaredStep(p: Pos, gs: seq<Ghost>, i: nat, m: Score)
    requires i < |gs|
    ensures var d := Manhattan(p, gs[i].pos);
      ScaredAtRunningMinFrom(p, gs, i, m) <==>
        (gs[i].scaredTimer != 0 && Fin(d) == Min(m, Fin(d))) || ScaredAtRunningMinFrom(p, gs, i + 1, Min(m, Fin(d)))
  {
    var d := Manhattan(p, gs[i].pos);
    var minGhost := Min(m, Fin(d));
    if ScaredAtRunningMinFrom(p, gs, i + 1, minGhost) {
      var k :| i + 1 <= k < |gs| && gs[k].scaredTimer != 0 && Le(Fin(Manhattan(p, gs[k].pos)), minGhost) &&
        forall j :: i + 1 <= j < k ==> Manhattan(p, gs[k].pos) <= Manhattan(p, gs[j].pos);
      LeTransitive(Fin(Manhattan(p, gs[k].pos)), minGhost, m);
      LeTransitive(Fin(Manhattan(p, gs[k].pos)), minGhost, Fin(d));
      assert ScaredAtRunningMinFrom(p, gs, i, m);
    }
    if gs[i].scaredTimer != 0 && Fin(d) == minGhost {
      assert ScaredAtRunningMinFrom(p, gs, i, m);
    }
    if ScaredAtRunningMinFrom(p, gs, i, m) {
      var k :| i <= k < |gs| && gs[k].scaredTimer != 0 && Le(Fin(Manhattan(p, gs[k].pos)), m) &&
        forall j :: i <= j < k ==> Manhattan(p, gs[k].pos) <= Manhattan(p, gs[j].pos);
      if k != i {
        assert Manhattan(p, gs[k].pos) <= d;
        assert Le(Fin(Manhattan(p, gs[k].pos)), minGhost);
        assert ScaredAtRunningMinFrom(p, gs, i + 1, minGhost);
      }
    }
  }

  /** `betterEvaluationFunction`, as written. */
  function BetterEvaluation(v: PacmanView): (r: Score)
    ensures !r.PosInf?
  {
    var minFood := MinDistance(v.pacman, v.food);
    var minCapsules := MinDistance(v.pacman, v.capsules);
    match GhostLoop(v.pacman, v.ghosts, 0, PosInf, 1)
    case Catastrophe => NegInf
    case Scanned(minGhost, sign) =>
      Fin(v.score + Closeness(1.0, minFood) - Closeness(sign as real * 2.0, minGhost) + Closeness(1.0, minCapsules))
  }

  /** The positions of the ghosts, in order. */
  function GhostPositions(gs: seq<Ghost>): (ps: seq<Pos>)
    ensures |ps| == |gs| && forall j :: 0 <= j < |gs| ==> ps[j] == gs[j].pos
  {
    seq(|gs|, j requires 0 <= j < |gs| => gs[j].pos)
  }

  /** Some ghost that is not scared is within distance 2 of Pacman. */
  ghost predicate UnscaredGhostNear(v: PacmanView) {
    exists k :: 0 <= k < |v.ghosts| && v.ghosts[k].scaredTimer == 0 && Manhattan(v.pacman, v.ghosts[k].pos) < 2.0
  }

  /**
    The condition under which the source actually returns `-inf`: some
    unscared ghost comes, in list order, at or after a ghost (of any kind)
    within distance 2.
   */
  ghost predicate GuardFires(v: PacmanView) {
    exists k :: 0 <= k < |v.ghosts| && v.ghosts[k].scaredTimer == 0 &&
      exists j :: 0 <= j <= k && Manhattan(v.pacman, v.ghosts[j].pos) < 2.0
  }

  /**
    The source's sign flag ends at -1 exactly when some scared ghost is, in
    list order, no farther than every ghost before it.
   */
  ghost predicate ScaredAtRunningMin(v: PacmanView) {
    ScaredAtRunningMinFrom(v.pacman, v.ghosts, 0, PosInf)
  }

  /** Two minima of the same distances agree. */
  lemma MinUnique(p: Pos, ps: seq<Pos>, x: Score, y: Score)
    requires |ps| > 0
    requires forall j :: 0 <= j < |ps| ==> Le(x, Fin(Manhattan(p, ps[j]))) && Le(y, Fin(Manhattan(p, ps[j])))
    requires exists j :: 0 <= j < |ps| && x == Fin(Manhattan(p, ps[j]))
    requires exists j :: 0 <= j < |ps| && y == Fin(Manhattan(p, ps[j]))
    ensures x == y
  {
    var jx :| 0 <= jx < |ps| && x == Fin(Manhattan(p, ps[jx]));
    var jy :| 0 <= jy < |ps| && y == Fin(Manhattan(p, ps[jy]));
    LeAntisymmetric(x, y);
  }

  /** An unscared ghost within distance 2 always fires the source's guard. */
  lemma UnscaredNearFiresGuard(v: PacmanView)
    requires UnscaredGhostNear(v)
    ensures GuardFires(v)
  {
    var k :| 0 <= k < |v.ghosts| && v.ghosts[k].scaredTimer == 0 && Manhattan(v.pacman, v.ghosts[k].pos) < 2.0;
    assert 0 <= k <= k && Manhattan(v.pacman, v.ghosts[k].pos) < 2.0;
  }

  /** The ghost loop, started as the source starts it, stops early exactly when the guard fires. */
  lemma GhostLoopStopsIffGuard(v: PacmanView)
    ensures GhostLoop(v.pacman, v.ghosts, 0, PosInf, 1).Catastrophe? <==> GuardFires(v)
  {
    assert !Lt(PosInf, Fin(2.0));
  }

  /** Where the ghost loop runs to the end, its minimum is the nearest ghost's distance. */
  lemma GhostLoopNearest(v: PacmanView)
    ensures var scan := GhostLoop(v.pacman, v.ghosts, 0, PosInf, 1);
      scan.Scanned? ==> scan.minGhost == MinDistance(v.pacman, GhostPositions(v.ghosts))
  {
    var scan := GhostLoop(v.pacman, v.ghosts, 0, PosInf, 1);
    if scan.Scanned? && |v.ghosts| > 0 {
      var ps := GhostPositions(v.ghosts);
      assert forall j :: 0 <= j < |ps| ==> Le(scan.minGhost, Fin(Manhattan(v.pacman, ps[j])));
      var j :| 0 <= j < |v.ghosts| && scan.minGhost == Fin(Manhattan(v.pacman, v.ghosts[j].pos));
      assert scan.minGhost == Fin(Manhattan(v.pacman, ps[j]));
      MinUnique(v.pacman, ps, scan.minGhost, MinDistance(v.pacman, ps));
    }
  }

  /**
    When `betterEvaluationFunction` returns `-inf`: exactly when the guard
    fires, in particular whenever an unscared ghost is within distance 2.
   */
  lemma BetterEvaluationCatastrophe(v: PacmanView)
    ensures BetterEvaluation(v) == NegInf <==> GuardFires(v)
    ensures UnscaredGhostNear(v) ==> BetterEvaluation(v) == NegInf
  {
    GhostLoopStopsIffGuard(v);
    if UnscaredGhostNear(v) {
      UnscaredNearFiresGuard(v);
    }
  }

  /**
    What `betterEvaluationFunction` returns when the guard does not fire:
    the score plus `1/(d+1)` for the nearest food and capsule and
    `-sign * 2/(d+1)` for the nearest ghost, a missing kind of item
    contributing 0.
   */
  lemma BetterEvaluationFormula(v: PacmanView)
    requires !GuardFires(v)
    ensures var sign := if ScaredAtRunningMin(v) then -1.0 else 1.0;
      BetterEvaluation(v) == Fin(v.score
                                 + Closeness(1.0, MinDistance(v.pacman, v.food))
                                 - Closeness(sign * 2.0, MinDistance(v.pacman, GhostPositions(v.ghosts)))
                                 + Closeness(1.0, MinDistance(v.pacman, v.capsules)))
  {
    GhostLoopStopsIffGuard(v);
    GhostLoopNearest(v);
    GhostLoopSign(v.pacman, v.ghosts, 0, PosInf, 1);
  }

  /**
    The ghost loop with the guard tested per ghost, as the comment "if ghost
    gets too close, avoid" and the per-ghost test of the reflex agent's
    heuristic suggest: `-inf` when the current ghost itself is within
    distance 2 and not scared.
   */
  function GhostLoopIntended(p: Pos, gs: seq<Ghost>, i: nat, m: Score, sign: int): (r: GhostScan)
    requires i <= |gs|
    ensures r.Catastrophe? <==>
      exists k :: i <= k < |gs| && gs[k].scaredTimer == 0 && Manhattan(p, gs[k].pos) < 2.0
    ensures r.Scanned? ==> r.minGhost == m || (r.minGhost.Fin? && r.minGhost.r >= 0.0)
    decreases |gs| - i
  {
    if i == |gs| then Scanned(m, sign)
    else
      var d := Manhattan(p, gs[i].pos);
      var minGhost := Min(m, Fin(d));
      var sign' := if Fin(d) == minGhost && gs[i].scaredTimer != 0 then -1 else sign;
      if d < 2.0 && gs[i].scaredTimer == 0 then Catastrophe
      else GhostLoopIntended(p, gs, i + 1, minGhost, sign')
  }

  /** `betterEvaluationFunction` with the guard on the ghost's own distance. */
  function BetterEvaluationIntended(v: PacmanView): (r: Score)
    ensures r == NegInf <==> UnscaredGhostNear(v)
    ensures !r.PosInf?
  {
    var minFood := MinDistance(v.pacman, v.food);
    var minCapsules := MinDistance(v.pacman, v.capsules);
    match GhostLoopIntended(v.pacman, v.ghosts, 0, PosInf, 1)
    case Catastrophe => NegInf
    case Scanned(minGhost, sign) =>
      Fin(v.score + Closeness(1.0, minFood) - Closeness(sign as real * 2.0, minGhost) + Closeness(1.0, minCapsules))
  }

  /** Where neither guard fires, the two ghost loops end in the same place. */
  lemma {:induction false} GhostLoopsAgree(p: Pos, gs: seq<Ghost>, i: nat, m: Score, sign: int)
    requires i <= |gs|
    requires GhostLoopIntended(p, gs, i, m, sign).Scanned? || GhostLoop(p, gs, i, m, sign).Scanned?
    ensures GhostLoop(p, gs, i, m, sign).Scanned? ==> GhostLoopIntended(p, gs, i, m, sign) == GhostLoop(p, gs, i, m, sign)
    ensures GhostLoopIntended(p, gs, i, m, sign).Scanned?
    decreases |gs| - i
  {
    if i < |gs| {
      var d := Manhattan(p, gs[i].pos);
      var minGhost := Min(m, Fin(d));
      var sign' := if Fin(d) == minGhost && gs[i].scaredTimer != 0 then -1 else sign;
      if !(d < 2.0 && gs[i].scaredTimer == 0) {
        if GhostLoop(p, gs, i, m, sign).Scanned? {
          GhostLoopsAgree(p, gs, i + 1, minGhost, sign');
        } else if GhostLoopIntended(p, gs, i + 1, minGhost, sign').Scanned? {
          GhostLoopsAgree(p, gs, i + 1, minGhost, sign');
        }
      }
    }
  }

  /**
    The correction only removes spurious `-inf` results: it returns `-inf`
    only where the source does, and elsewhere agrees with it.
   */
  lemma IntendedRefinesAsWritten(v: PacmanView)
    ensures BetterEvaluationIntended(v) == NegInf ==> BetterEvaluation(v) == NegInf
    ensures BetterEvaluation(v) != NegInf ==> BetterEvaluationIntended(v) == BetterEvaluation(v)
  {
    if UnscaredGhostNear(v) {
      UnscaredNearFiresGuard(v);
      GhostLoopStopsIffGuard(v);
    }
    if GhostLoop(v.pacman, v.ghosts, 0, PosInf, 1).Scanned? {
      GhostLoopsAgree(v.pacman, v.ghosts, 0, PosInf, 1);
    }
  }

  /**
    A scared ghost at distance 1 followed by an unscared ghost at distance
    5: no dangerous ghost is near, yet the source returns `-inf`; the
    corrected heuristic rewards the nearby scared ghost instead.
   */
  lemma GuardFiresOnFarGhost()
    ensures var v := PacmanView(Pos(0.0, 0.0), [], [], [Ghost(Pos(1.0, 0.0), 5), Ghost(Pos(5.0, 0.0), 0)], 0.0);
      && !UnscaredGhostNear(v)
      && BetterEvaluation(v) == NegInf
      && BetterEvaluationIntended(v) == Fin(1.0)
  {
    var v := PacmanView(Pos(0.0, 0.0), [], [], [Ghost(Pos(1.0, 0.0), 5), Ghost(Pos(5.0, 0.0), 0)], 0.0);
    assert Manhattan(v.pacman, v.ghosts[0].pos) == 1.0;
    assert Manhattan(v.pacman, v.ghosts[1].pos) == 5.0;
    assert GuardFires(v);
    BetterEvaluationCatastrophe(v);
  }

  /**
    The sign flag is never reset: a scared ghost at distance 3 followed by
    an unscared ghost at distance 2 leaves the flag at -1, so the nearest
    ghost, which is not scared, is rewarded with `+2/3` instead of being
    penalised.
   */
  lemma StickySignRewardsUnscaredGhost()
    ensures var v := PacmanView(Pos(0.0, 0.0), [], [], [Ghost(Pos(3.0, 0.0), 5), Ghost(Pos(2.0, 0.0), 0)], 0.0);
      && MinDistance(v.pacman, GhostPositions(v.ghosts)) == Fin(Manhattan(v.pacman, v.ghosts[1].pos))
      && v.ghosts[1].scaredTimer == 0
      && BetterEvaluation(v) == Fin(2.0 / 3.0)
  {
    var v := PacmanView(Pos(0.0, 0.0), [], [], [Ghost(Pos(3.0, 0.0), 5), Ghost(Pos(2.0, 0.0), 0)], 0.0);
    assert Manhattan(v.pacman, v.ghosts[0].pos) == 3.0;
    assert Manhattan(v.pacman, v.ghosts[1].pos) == 2.0;
    assert GhostLoop(v.pacman, v.ghosts, 0, PosInf, 1) == GhostLoop(v.pacman, v.ghosts, 1, Fin(3.0), -1);
    assert GhostLoop(v.pacman, v.ghosts, 1, Fin(3.0), -1) == Scanned(Fin(2.0), -1);
    GhostLoopNearest(v);
  }

  /** Both shipped heuristics plug into expectimax: neither ever returns `+inf`. */
  lemma HeuristicsFitExpectimax<S(!new), A>(g: Game<S, A>, view: S -> PacmanView)
    requires (forall s :: g.eval(s) == ScoreEvaluation(view(s))) || (forall s :: g.eval(s) == BetterEvaluation(view(s)))
    ensures ExpectimaxSearch.NoPosInfEval(g)
  {
  }
}
