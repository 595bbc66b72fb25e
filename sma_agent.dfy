/** `QLearningAgent`, the JADE learner: `setup` builds the engine of
    `Learning` on the fixed 6 x 6 grid and adds a one-shot behaviour whose
    `action()` trains, step-counted, and then shows the greedy road from
    (0, 0). The agent platform (scheduling, directory) is not part of the
    model; the scheduler is modelled by its contract with a behaviour:
    call `action()`, then `done()`, until `done()` holds. */
module SmaAgent {
  import opened GridWorld
  import opened Rollout
  import opened Learning

  const Alpha: real := 0.1
  const Gamma: real := 0.9
  const Eps: real := 0.4
  const MaxEpoch: int := 200000
  const GridSize: int := 6

  /** `setup()`: the actions, the 6 x 6 grid and the all-zero table of the
      field initialiser, with the agent at (0, 0). */
  method Setup() returns (l: Learner)
    ensures fresh(l) && fresh(l.qTable) && l.Valid()
    ensures l.n == GridSize && l.grid == SixBySix
    ensures l.alpha == Alpha && l.gamma == Gamma && l.epsilon == Eps && l.maxEpoch == MaxEpoch
    ensures l.countSteps && !l.resetsTable
    ensures l.rows == l.ZeroTable() && l.stateI == 0 && l.stateJ == 0
  {
    SixBySixShape();
    l := new Learner(GridSize, SixBySix, Alpha, Gamma, Eps, MaxEpoch, true, false);
  }

  /** The behaviour's `done()`: the behaviour is finished after any run of
      `action()`. */
  function Done(): (d: bool)
    ensures d
  {
    true
  }

  /** The behaviour's `action()`: the step-counted training loop, then
      `showResult()`. A completed loop stops on the first epoch end at or
      past the budget; the rollout reports what the run on
      the greedy graph of the trained table reports, its count being the
      number of greedy moves to the first goal. */
  method Action(l: Learner, draws: seq<Draw>, fuel: nat)
    returns (completed: bool, it: int, reached: bool, moves: nat)
    requires l.Valid() && AreDraws(draws)
    requires l.n == GridSize && l.grid == SixBySix && l.maxEpoch == MaxEpoch
    requires l.countSteps && !l.resetsTable
    modifies l, l.qTable
    ensures l.Valid() && l.qTable == old(l.qTable)
    ensures 0 <= it <= |draws|
    ensures l.rows == l.Learn(Learned(old(l.rows), 0, 0), draws, it).rows
    ensures completed ==> it >= MaxEpoch && l.GoalAt(Learned(old(l.rows), 0, 0), draws, it)
    ensures forall t | 0 < t < it && l.GoalAt(Learned(old(l.rows), 0, 0), draws, t) :: t < MaxEpoch
    ensures !completed ==> !(l.GoalAt(Learned(old(l.rows), 0, 0), draws, it) && it >= MaxEpoch)
    ensures !completed ==> it == |draws|
    ensures (reached, moves) == RunFrom(GreedyGraph(l.rows, SixBySix, GridSize), 0, fuel)
    ensures reached <==> FirstGoal(GreedyGraph(l.rows, SixBySix, GridSize), moves)
  {
    SixBySixShape();
    var steps;
    completed, it, steps := l.Train(draws);
    reached, moves := l.ShowResult(fuel);
    ghost var gr := GreedyGraph(l.rows, SixBySix, GridSize);
    RunSucceeds(gr, fuel, moves);
  }

  /** The platform running the behaviour: `action()`, then `done()`,
      again until `done()` holds. Since `done()` always holds, `action()`
      runs exactly once, and what the agent holds afterwards is what that
      one run leaves. */
  method RunBehaviour(l: Learner, draws: seq<Draw>, fuel: nat)
    returns (runs: nat, completed: bool, it: int)
    requires l.Valid() && AreDraws(draws)
    requires l.n == GridSize && l.grid == SixBySix && l.maxEpoch == MaxEpoch
    requires l.countSteps && !l.resetsTable
    modifies l, l.qTable
    ensures l.Valid() && l.qTable == old(l.qTable) && runs == 1
    ensures 0 <= it <= |draws|
    ensures l.rows == l.Learn(Learned(old(l.rows), 0, 0), draws, it).rows
    ensures completed ==> it >= MaxEpoch && l.GoalAt(Learned(old(l.rows), 0, 0), draws, it)
    ensures forall t | 0 < t < it && l.GoalAt(Learned(old(l.rows), 0, 0), draws, t) :: t < MaxEpoch
    ensures !completed ==> !(l.GoalAt(Learned(old(l.rows), 0, 0), draws, it) && it >= MaxEpoch)
    ensures !completed ==> it == |draws|
  {
    runs, completed, it := 0, false, 0;
    ghost var start := Learned(l.rows, 0, 0);
    var finished := false;
    while !finished
      invariant l.Valid() && l.qTable == old(l.qTable)
      invariant l.n == GridSize && l.grid == SixBySix && l.maxEpoch == MaxEpoch
      invariant runs == if finished then 1 else 0
      invariant !finished ==> l.rows == old(l.rows)
      invariant finished ==> 0 <= it <= |draws|
      invariant finished ==> l.rows == l.Learn(start, draws, it).rows
      invariant finished ==> (completed ==> it >= MaxEpoch && l.GoalAt(start, draws, it))
      invariant finished ==> forall t | 0 < t < it && l.GoalAt(start, draws, t) :: t < MaxEpoch
      invariant finished ==> (!completed ==> it == |draws|)
      invariant finished ==> (!completed ==> !(l.GoalAt(start, draws, it) && it >= MaxEpoch))
      decreases if finished then 0 else 1
    {
      var done, steps, _, _ := Action(l, draws, fuel);
      completed, it := done, steps;
      runs := runs + 1;
      finished := Done();
    }
  }
}
