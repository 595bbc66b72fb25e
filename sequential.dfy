/** `QLearning`, the sequential learner: the engine of `Learning` on the
    fixed 6 x 6 grid with its own constants, a step-counted budget and a
    table that is zero from construction on. `run()` trains and then shows
    the greedy road to the target. */
module Sequential {
  import opened GridWorld
  import opened Rollout
  import opened Learning

  const Alpha: real := 0.1
  const Gamma: real := 0.9
  const Eps: real := 0.4
  const MaxEpoch: int := 200000
  const GridSize: int := 6

  /** `new QLearning()`: the actions and the 6 x 6 grid, an all-zero
      table and the agent at (0, 0). Training counts steps and keeps the
      table it was built with. */
  method NewQLearning() returns (l: Learner)
    ensures fresh(l) && fresh(l.qTable) && l.Valid()
    ensures l.n == GridSize && l.grid == SixBySix
    ensures l.alpha == Alpha && l.gamma == Gamma && l.epsilon == Eps && l.maxEpoch == MaxEpoch
    ensures l.countSteps && !l.resetsTable
    ensures l.rows == l.ZeroTable() && l.stateI == 0 && l.stateJ == 0
  {
    SixBySixShape();
    l := new Learner(GridSize, SixBySix, Alpha, Gamma, Eps, MaxEpoch, true, false);
  }

  /** `run()`: the step-counted training loop, then `showResult`'s greedy
      rollout from (0, 0). Since (0, 0) is not a goal of the grid, every
      epoch takes at least one step, so training stops short only when
      the draws run out; when it completes, it has stopped on the first
      epoch end at or past the budget. The rollout reports what the run on the greedy graph of the
      trained table reports, and ends on the one goal cell, (3, 2). */
  method Run(l: Learner, draws: seq<Draw>, fuel: nat)
    returns (completed: bool, it: int, steps: nat, reached: bool, moves: nat)
    requires l.Valid() && AreDraws(draws)
    requires l.n == GridSize && l.grid == SixBySix && l.maxEpoch == MaxEpoch
    requires l.countSteps && !l.resetsTable
    modifies l, l.qTable
    ensures l.Valid() && l.qTable == old(l.qTable)
    ensures it == steps && steps <= |draws|
    ensures l.rows == l.Learn(Learned(old(l.rows), 0, 0), draws, steps).rows
    ensures completed ==> it >= MaxEpoch && l.GoalAt(Learned(old(l.rows), 0, 0), draws, steps)
    ensures forall t | 0 < t < steps && l.GoalAt(Learned(old(l.rows), 0, 0), draws, t) :: t < MaxEpoch
    ensures !completed ==> !(l.GoalAt(Learned(old(l.rows), 0, 0), draws, steps) && steps >= MaxEpoch)
    ensures !completed ==> steps == |draws|
    ensures (reached, moves) == RunFrom(GreedyGraph(l.rows, SixBySix, GridSize), 0, fuel)
    ensures reached <==> l.stateI == 3 && l.stateJ == 2
  {
    SixBySixShape();
    completed, it, steps := l.Train(draws);
    reached, moves := l.ShowResult(fuel);
  }
}
