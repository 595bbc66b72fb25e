/** `QLearningAgentGUI`: the engine of `Learning` on the fixed 6 x 6 grid,
    step-counted, its table zero from construction on; `start` trains and
    then `showResult` walks the greedy road from (0, 0) and reports how
    many moves it took. The buttons and the console output are not part
    of the model. */
module AgentGui {
  import opened GridWorld
  import opened Rollout
  import opened Learning

  const GridSize: int := 6
  const Alpha: real := 0.1
  const Gamma: real := 0.9
  const Eps: real := 0.4
  const MaxEpoch: int := 200000

  /** The fields as `start` leaves them before training: the grid of
      `initializeGrid`, the actions of `initializeActions`, the all-zero
      table of the field initialiser and the agent at (0, 0). */
  method NewAgentGui() returns (l: Learner)
    ensures fresh(l) && fresh(l.qTable) && l.Valid()
    ensures l.n == GridSize && l.grid == SixBySix
    ensures l.alpha == Alpha && l.gamma == Gamma && l.epsilon == Eps && l.maxEpoch == MaxEpoch
    ensures l.countSteps && !l.resetsTable
    ensures l.rows == l.ZeroTable() && l.stateI == 0 && l.stateJ == 0
  {
    SixBySixShape();
    l := new Learner(GridSize, SixBySix, Alpha, Gamma, Eps, MaxEpoch, true, false);
  }

  /** `trainAgent()` then `showResult()`. Training counts steps and checks
      the budget between epochs only, so a completed run stops on the
      first epoch end at or past step `MAX_EPOCH`; (0, 0) is not a goal,
      so a run stops short only when the draws run out. The count the
      rollout prints, `transactions number`, is the number of greedy moves
      from (0, 0) to the first goal cell on the way. */
  method Start(l: Learner, draws: seq<Draw>, fuel: nat)
    returns (completed: bool, it: int, reached: bool, transactions: nat)
    requires l.Valid() && AreDraws(draws)
    requires l.n == GridSize && l.grid == SixBySix && l.maxEpoch == MaxEpoch
    requires l.countSteps && !l.resetsTable
    modifies l, l.qTable
    ensures l.Valid() && l.qTable == old(l.qTable)
    ensures 0 <= it <= |draws|
    ensures l.rows == l.Learn(Learned(old(l.rows), 0, 0), draws, it).rows
    ensures completed ==> it >= MaxEpoch && l.GoalAt(Learned(old(l.rows), 0, 0), draws, it)
    ensures forall t | 0 < t < it && l.GoalAt(Learned(old(l.rows), 0, 0), draws, t) :: t < MaxEpoch
    ensures !completed ==> !(l.GoalAt(Learned(old(l.rows), 0, 0), draws, it) && it >= MaxEpoch)
    ensures !completed ==> it == |draws|
    ensures (reached, transactions) == RunFrom(GreedyGraph(l.rows, SixBySix, GridSize), 0, fuel)
    ensures reached <==> FirstGoal(GreedyGraph(l.rows, SixBySix, GridSize), transactions)
    ensures reached <==> l.stateI == 3 && l.stateJ == 2
  {
    SixBySixShape();
    var steps;
    completed, it, steps := l.Train(draws);
    ghost var trained := l.rows;
    reached, transactions := l.ShowResult(fuel);
    ghost var gr := GreedyGraph(trained, SixBySix, GridSize);
    RunSucceeds(gr, fuel, transactions);
  }
}
