/** `QLAppGUI`: the engine of `Learning` on a grid and parameters the user
    types in; training counts epochs and starts from a fresh all-zero
    table, and `showRoadToTarget` walks the greedy road from (0, 0). The
    dialogs, the buttons and the console output are not part of the
    model: the answers to the dialogs are the inputs of `NewApp`. */
module AppGui {
  import opened GridWorld
  import opened Policy
  import opened Rollout
  import opened Learning

  /** The grid of the two-by-two example: the goal right of the start,
      a penalty below it. */
  const Corner: seq<seq<int>> := [[0, 1], [-1, 0]]

  /** The fields as `start` leaves them once `readUserInput` and
      `initializeActions` have run: the user's grid and parameters and the
      agent at (0, 0). In the source `qTable` is still null here; the
      model's placeholder zero table stands for that unallocated table, and
      no operation reads it, because training allocates a fresh one first. */
  method NewApp(gridSize: int, grid: seq<seq<int>>, alpha: real, gamma: real, epsilon: real,
                maxEpoch: int) returns (l: Learner)
    requires IsGrid(grid, gridSize)
    ensures fresh(l) && l.Valid()
    ensures l.n == gridSize && l.grid == grid
    ensures l.alpha == alpha && l.gamma == gamma && l.epsilon == epsilon && l.maxEpoch == maxEpoch
    ensures !l.countSteps && l.resetsTable
    ensures l.stateI == 0 && l.stateJ == 0
  {
    l := new Learner(gridSize, grid, alpha, gamma, epsilon, maxEpoch, false, true);
  }

  /** `trainAgent()` then `showRoadToTarget()`. Training runs on a fresh
      all-zero table and counts epochs, each ending on its first goal,
      so a completed run stops on the goal that completes epoch
      `maxEpoch` (at once when the start is a goal, or when `maxEpoch`
      is not positive); a run stops short only when the draws run out. The rollout reports what
      the run on the greedy graph of the trained table reports: the
      number of greedy moves from (0, 0) to the first goal on the way. */
  method Start(l: Learner, draws: seq<Draw>, fuel: nat)
    returns (completed: bool, epochs: int, steps: nat, reached: bool, moves: nat)
    requires l.Valid() && AreDraws(draws) && !l.countSteps && l.resetsTable
    modifies l, l.qTable
    ensures l.Valid() && fresh(l.qTable)
    ensures steps <= |draws|
    ensures l.rows == l.Learn(Learned(l.ZeroTable(), 0, 0), draws, steps).rows
    ensures completed ==> epochs == Max(0, l.maxEpoch)
    ensures completed && l.maxEpoch > 0 ==> l.GoalAt(Learned(l.ZeroTable(), 0, 0), draws, steps)
    ensures !IsGoal(l.grid, l.n, 0, 0) ==> l.Epochs(Learned(l.ZeroTable(), 0, 0), draws, steps) == epochs
    ensures IsGoal(l.grid, l.n, 0, 0) ==> steps == 0 && completed
    ensures !completed ==> epochs < l.maxEpoch
    ensures l.maxEpoch <= 0 ==> completed && steps == 0
    ensures !completed ==> steps == |draws|
    ensures (reached, moves) == RunFrom(GreedyGraph(l.rows, l.grid, l.n), 0, fuel)
    ensures reached <==> FirstGoal(GreedyGraph(l.rows, l.grid, l.n), moves)
    ensures reached <==> l.Finished()
  {
    completed, epochs, steps := l.Train(draws);
    reached, moves := l.ShowResult(fuel);
    RunSucceeds(GreedyGraph(l.rows, l.grid, l.n), fuel, moves);
  }

  /** The first step of training on a fresh table, when the draw explores
      RIGHT: from (0, 0) the agent moves to (0, 1), and the update writes
      `alpha * (reward + gamma * 0 - 0)`, with the code of (0, 1) as the
      reward, into Q(0, RIGHT); every other cell stays 0. */
  lemma FreshStepRight(l: Learner)
    requires l.n >= 2 && IsGrid(l.grid, l.n) && l.epsilon > 0.0
    ensures var zero := l.ZeroTable();
      l.Step(Learned(zero, 0, 0), Draw(0.0, 1))
        == Learned(zero[0 := [0.0, l.alpha * (l.grid[0][1] as real), 0.0, 0.0]], 0, 1)
  {
    var zero := l.ZeroTable();
    assert zero[0] == [0.0, 0.0, 0.0, 0.0] && zero[1] == [0.0, 0.0, 0.0, 0.0];
    ZeroRowYieldsFirst();
    assert Index(l.n, 0, 0) == 0 && Index(l.n, 0, 1) == 1;
    assert l.StepAction(zero, 0, 0, Draw(0.0, 1)) == 1;
    assert Move(l.n, 0, 0, 1) == (0, 1);
    var q := Update(0.0, l.alpha, Target(l.grid[0][1] as real, l.gamma, 0.0));
    assert q == l.alpha * (l.grid[0][1] as real);
    assert [0.0, 0.0, 0.0, 0.0][1 := q] == [0.0, q, 0.0, 0.0];
  }

  /** On the two-by-two grid, a table whose row 0 favours RIGHT makes
      RIGHT the greedy action of (0, 0), and that move lands on the goal
      at (0, 1), state 1; (0, 0) is not a goal. */
  lemma CornerRoad(rows: seq<seq<real>>)
    requires IsTable(rows, 2) && rows[0] == [0.0, 0.5, 0.0, 0.0]
    ensures GreedyAction(rows[0]) == 1 && GreedyNext(rows, 2, 0) == 1
    ensures Move(2, 0, 0, 1) == (0, 1) && IsGoal(Corner, 2, 0, 1) && !IsGoal(Corner, 2, 0, 0)
  {
    SinglePositiveRow();
    assert StateCell(2, 0) == (0, 0);
    assert Move(2, 0, 0, 1) == (0, 1);
  }

  /** One epoch of `trainAgent` on the two-by-two grid with `alpha` 0.5,
      `gamma` 0.9 and an exploring draw of RIGHT: the agent steps onto the
      goal, the Bellman update raises Q(0, RIGHT) from 0 to 0.5 and leaves
      every other row at 0, and greedy action of (0, 0) is then RIGHT,
      straight onto the goal. */
  lemma OneEpochOnCorner(l: Learner)
    requires l.n == 2 && l.grid == Corner && l.alpha == 0.5 && l.gamma == 0.9 && l.epsilon == 1.0
    ensures var r := l.Learn(Learned(l.ZeroTable(), 0, 0), [Draw(0.0, 1)], 1);
      && r.rows == l.ZeroTable()[0 := [0.0, 0.5, 0.0, 0.0]]
      && r.i == 0 && r.j == 1
      && GreedyAction(r.rows[0]) == 1 && GreedyNext(r.rows, 2, 0) == 1
  {
    var start := Learned(l.ZeroTable(), 0, 0);
    assert l.Restart(start) == start;
    FreshStepRight(l);
    var r := l.Learn(start, [Draw(0.0, 1)], 1);
    assert r == l.Step(start, Draw(0.0, 1));
    CornerRoad(r.rows);
  }

  /** The rollout after that epoch: one greedy move from (0, 0) onto the
      goal, whatever fuel of at least one move `showRoadToTarget` has. */
  lemma RoadAfterOneEpoch(rows: seq<seq<real>>, fuel: nat)
    requires IsTable(rows, 2) && rows[0] == [0.0, 0.5, 0.0, 0.0] && fuel >= 1
    ensures RunFrom(GreedyGraph(rows, Corner, 2), 0, fuel) == (true, 1)
  {
    CornerRoad(rows);
    GreedyRoadOneMove(rows, Corner, 2, fuel);
  }
}
