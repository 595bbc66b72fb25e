/** The tabular Q-learning engine that each of the four learners carries a
    copy of: the agent's position, the gridSize^2 x 4 Q-table, the
    epsilon-greedy selector, the clamped move, the training loop and the
    greedy rollout. The copies differ in their constants and in two points
    of the training loop, which the class takes as parameters. */
module Learning {
  import opened GridWorld
  import opened Policy
  import opened Rollout

  /** What one `new Random()` yields inside `chooseAction`: `u` is the
      result of `nextDouble()`, `k` that of `nextInt(ACTIONS_SIZE)`, which
      is only read when the learner explores. */
  datatype Draw = Draw(u: real, k: int)

  predicate IsDraw(d: Draw) {
    0.0 <= d.u < 1.0 && IsAction(d.k)
  }

  /** The draws of a training run are well formed. */
  predicate AreDraws(draws: seq<Draw>) {
    forall t | 0 <= t < |draws| :: IsDraw(draws[t])
  }

  /** A Q-table as values: a row of ActionsSize values per state index. */
  predicate IsTable(rows: seq<seq<real>>, n: int) {
    n >= 1 && |rows| == n * n && forall s | 0 <= s < |rows| :: |rows[s]| == ActionsSize
  }

  /** The learner's state as values: the Q-table and the agent's position. */
  datatype Learned = Learned(rows: seq<seq<real>>, i: int, j: int)

  /** The state the greedy rollout moves to from state s on table `rows`
      of an n x n grid: the clamped move by the state's greedy action. */
  function GreedyNext(rows: seq<seq<real>>, n: int, s: int): (next: int)
    requires IsTable(rows, n) && 0 <= s < n * n
    ensures 0 <= next < n * n
  {
    var c := StateCell(n, s);
    var p := Move(n, c.0, c.1, GreedyAction(rows[s]));
    Index(n, p.0, p.1)
  }

  /** The successors of states 0 .. k - 1. */
  function NextStates(rows: seq<seq<real>>, n: int, k: nat): (next: seq<int>)
    requires IsTable(rows, n) && k <= n * n
    ensures |next| == k && forall s | 0 <= s < k :: 0 <= next[s] < n * n
    decreases k
  {
    if k == 0 then [] else NextStates(rows, n, k - 1) + [GreedyNext(rows, n, k - 1)]
  }

  lemma {:induction false} NextStatesAt(rows: seq<seq<real>>, n: int, k: nat, s: int)
    requires IsTable(rows, n) && k <= n * n && 0 <= s < k
    ensures NextStates(rows, n, k)[s] == GreedyNext(rows, n, s)
    decreases k
  {
    if s < k - 1 {
      NextStatesAt(rows, n, k - 1, s);
    }
  }

  /** Which of states 0 .. k - 1 are goal cells of g. */
  function GoalStates(g: seq<seq<int>>, n: int, k: nat): (goal: seq<bool>)
    requires IsGrid(g, n) && k <= n * n
    ensures |goal| == k
    decreases k
  {
    if k == 0 then []
    else
      var c := StateCell(n, k - 1);
      GoalStates(g, n, k - 1) + [IsGoal(g, n, c.0, c.1)]
  }

  lemma {:induction false} GoalStatesAt(g: seq<seq<int>>, n: int, k: nat, s: int)
    requires IsGrid(g, n) && k <= n * n && 0 <= s < k
    ensures GoalStates(g, n, k)[s] == IsGoal(g, n, StateCell(n, s).0, StateCell(n, s).1)
    decreases k
  {
    if s < k - 1 {
      GoalStatesAt(g, n, k - 1, s);
    }
  }

  /** The state graph of the greedy rollout on table `rows` and grid g. */
  function GreedyGraph(rows: seq<seq<real>>, g: seq<seq<int>>, n: int): (gr: StateGraph)
    requires IsTable(rows, n) && IsGrid(g, n)
    ensures IsGraph(gr) && |gr.next| == n * n
  {
    StateGraph(NextStates(rows, n, n * n), GoalStates(g, n, n * n))
  }

  /** At the state of cell (i, j) the graph moves by the cell's greedy
      action and knows whether the cell is a goal. */
  lemma GreedyGraphAt(rows: seq<seq<real>>, g: seq<seq<int>>, n: int, i: int, j: int)
    requires IsTable(rows, n) && IsGrid(g, n) && InBounds(n, i, j)
    ensures var gr := GreedyGraph(rows, g, n); var s := Index(n, i, j);
      var p := Move(n, i, j, GreedyAction(rows[s]));
      gr.next[s] == Index(n, p.0, p.1) && (gr.goal[s] <==> IsGoal(g, n, i, j))
  {
    var s := Index(n, i, j);
    IndexInjective(n, i, j, StateCell(n, s).0, StateCell(n, s).1);
    NextStatesAt(rows, n, n * n, s);
    GoalStatesAt(g, n, n * n, s);
  }

  /** When (0, 0) is not a goal and its greedy action moves onto a goal,
      the greedy road reaches a goal in exactly one move, whatever fuel of
      at least one move it is given. */
  lemma GreedyRoadOneMove(rows: seq<seq<real>>, g: seq<seq<int>>, n: int, fuel: nat)
    requires IsTable(rows, n) && IsGrid(g, n) && fuel >= 1 && !IsGoal(g, n, 0, 0)
    requires var p := Move(n, 0, 0, GreedyAction(rows[0])); IsGoal(g, n, p.0, p.1)
    ensures RunFrom(GreedyGraph(rows, g, n), 0, fuel) == (true, 1)
  {
    var gr := GreedyGraph(rows, g, n);
    var p := Move(n, 0, 0, GreedyAction(rows[0]));
    var next := Index(n, p.0, p.1);
    GreedyGraphAt(rows, g, n, 0, 0);
    assert Index(n, 0, 0) == 0;
    assert gr.next[0] == next && !gr.goal[0];
    GreedyGraphAt(rows, g, n, p.0, p.1);
    assert gr.goal[next];
    OneMoveToGoal(gr, fuel);
  }

  class Learner {
    /** gridSize (GRID_SIZE in the learners with a fixed grid) */
    const n: int
    const grid: seq<seq<int>>
    const alpha: real
    const gamma: real
    const epsilon: real
    /** MAX_EPOCH: an epoch budget or, when `countSteps`, a step budget */
    const maxEpoch: int
    /** The training counter advances once per step instead of once per epoch. */
    const countSteps: bool
    /** Training allocates a fresh all-zero Q-table before the first epoch. */
    const resetsTable: bool

    var qTable: array2<real>
    var stateI: int
    var stateJ: int
    /** The contents of `qTable`, row by row. */
    ghost var rows: seq<seq<real>>

    /** The agent stands on a cell of the grid. */
    ghost predicate Placed()
      reads this
    {
      IsGrid(grid, n) && InBounds(n, stateI, stateJ)
    }

    /** The table has a row of ActionsSize values per cell of the grid, and
        `rows` is what it holds. */
    ghost predicate Valid()
      reads this, qTable
    {
      Placed() && qTable.Length0 == n * n && qTable.Length1 == ActionsSize && IsTable(rows, n) &&
      forall s, a | 0 <= s < n * n && 0 <= a < ActionsSize :: qTable[s, a] == rows[s][a]
    }

    /** The table `new double[gridSize * gridSize][ACTIONS_SIZE]` holds. */
    function ZeroTable(): (zero: seq<seq<real>>)
      requires IsGrid(grid, n)
      ensures IsTable(zero, n)
      ensures forall s, a | 0 <= s < n * n && 0 <= a < ActionsSize :: zero[s][a] == 0.0
    {
      seq(n * n, s => [0.0, 0.0, 0.0, 0.0])
    }

    /** The learner as its fields are initialised: an all-zero table and the
        agent at (0, 0). */
    constructor (n: int, grid: seq<seq<int>>, alpha: real, gamma: real, epsilon: real,
                 maxEpoch: int, countSteps: bool, resetsTable: bool)
      requires IsGrid(grid, n)
      ensures Valid() && fresh(qTable) && rows == ZeroTable()
      ensures stateI == 0 && stateJ == 0
      ensures this.n == n && this.grid == grid
      ensures this.alpha == alpha && this.gamma == gamma && this.epsilon == epsilon
      ensures this.maxEpoch == maxEpoch
      ensures this.countSteps == countSteps && this.resetsTable == resetsTable
    {
      this.n := n;
      this.grid := grid;
      this.alpha := alpha;
      this.gamma := gamma;
      this.epsilon := epsilon;
      this.maxEpoch := maxEpoch;
      this.countSteps := countSteps;
      this.resetsTable := resetsTable;
      qTable := new real[n * n, ActionsSize]((s, a) => 0.0);
      stateI, stateJ := 0, 0;
      rows := seq(n * n, s => [0.0, 0.0, 0.0, 0.0]);
    }

    /** `finished()`: the agent stands on a goal cell, one coded 1. */
    predicate Finished()
      reads this
      requires Placed()
      ensures Finished() <==> Cell(grid, n, stateI, stateJ) == 1
    {
      IsGoal(grid, n, stateI, stateJ)
    }

    /** The goal test of training is the one the rollout's state graph
        carries: the agent is finished exactly when its state is a goal
        state of the graph, whatever the table. */
    lemma FinishedIsGoalState()
      requires Valid()
      ensures Finished() <==> GreedyGraph(rows, grid, n).goal[Index(n, stateI, stateJ)]
    {
      GreedyGraphAt(rows, grid, n, stateI, stateJ);
    }

    method ResetState()
      requires Valid()
      modifies this`stateI, this`stateJ
      ensures Valid()
      ensures stateI == 0 && stateJ == 0
    {
      stateI := 0;
      stateJ := 0;
    }

    function GetGrid(): (g: seq<seq<int>>)
      reads this
      requires Placed()
      ensures IsGrid(g, n) && g == grid
    {
      grid
    }

    function GetStateI(): (i: int)
      reads this
      requires Placed()
      ensures 0 <= i < n && i == stateI
    {
      stateI
    }

    function GetStateJ(): (j: int)
      reads this
      requires Placed()
      ensures 0 <= j < n && j == stateJ
    {
      stateJ
    }

    /** `chooseAction(eps)` given what its `Random` yields: explore with the
        drawn action when `u < eps`, otherwise scan the current row for the
        greedy action. It reads the table and the position and changes
        neither. */
    method ChooseAction(eps: real, u: real, k: int) returns (act: int)
      requires Valid() && 0.0 <= u < 1.0 && IsAction(k)
      ensures IsAction(act)
      ensures u < eps ==> act == k
      ensures u >= eps ==> act == GreedyAction(rows[Index(n, stateI, stateJ)])
      ensures eps <= 0.0 ==> IsGreedyChoice(rows[Index(n, stateI, stateJ)], act)
      ensures eps >= 1.0 ==> act == k
    {
      var bestQ := 0.0;
      act := 0;
      if u < eps {
        act := k;
      } else {
        var st := stateI * n + stateJ;
        ghost var row := rows[Index(n, stateI, stateJ)];
        for i := 0 to ActionsSize
          invariant bestQ == BestValue(row[..i])
          invariant act == GreedyAction(row[..i])
        {
          assert row[..i + 1][..i] == row[..i];
          if qTable[st, i] > bestQ {
            bestQ := qTable[st, i];
            act := i;
          }
        }
        assert row[..ActionsSize] == row;
        GreedyActionIsGreedy(row);
      }
    }

    /** `executeAction(act)`: move by the action's delta, clamping each
        coordinate to the grid, and return the new state index. */
    method ExecuteAction(act: int) returns (s: int)
      requires Valid() && IsAction(act)
      modifies this`stateI, this`stateJ
      ensures Valid()
      ensures (stateI, stateJ) == Move(n, old(stateI), old(stateJ), act)
      ensures s == Index(n, stateI, stateJ) && 0 <= s < n * n
    {
      stateI := Max(0, Min(Actions[act].0 + stateI, n - 1));
      stateJ := Max(0, Min(Actions[act].1 + stateJ, n - 1));
      s := stateI * n + stateJ;
    }

    /** The table and the position, as values. */
    ghost function Snapshot(): (st: Learned)
      reads this
    {
      Learned(rows, stateI, stateJ)
    }

    predicate IsLearned(st: Learned) {
      IsGrid(grid, n) && IsTable(st.rows, n) && InBounds(n, st.i, st.j)
    }

    /** The action a training step takes from (i, j) with draw d: the drawn
        action when exploring, the greedy choice of the row otherwise. */
    function StepAction(rows: seq<seq<real>>, i: int, j: int, d: Draw): (act: int)
      requires IsGrid(grid, n) && IsTable(rows, n) && InBounds(n, i, j) && IsDraw(d)
      ensures IsAction(act)
      ensures d.u < epsilon ==> act == d.k
      ensures d.u >= epsilon ==> IsGreedyChoice(rows[Index(n, i, j)], act)
    {
      if d.u < epsilon then d.k
      else
        GreedyActionIsGreedy(rows[Index(n, i, j)]);
        GreedyAction(rows[Index(n, i, j)])
    }

    /** One step of the inner training loop on values: choose an action
        with `epsilon`, move, and apply the TD(0) update to the one cell of
        the state left and the action taken, with the code of the cell
        reached as the reward and the greedy value of the state reached as
        the estimate of what follows. */
    function Step(st: Learned, d: Draw): (r: Learned)
      requires IsLearned(st) && IsDraw(d)
      ensures IsLearned(r)
      ensures (r.i, r.j) == Move(n, st.i, st.j, StepAction(st.rows, st.i, st.j, d))
    {
      var cur := Index(n, st.i, st.j);
      var act := StepAction(st.rows, st.i, st.j, d);
      var p := Move(n, st.i, st.j, act);
      var next := Index(n, p.0, p.1);
      var nextQ := st.rows[next][GreedyAction(st.rows[next])];
      var q := Update(st.rows[cur][act], alpha, Target(grid[p.0][p.1] as real, gamma, nextQ));
      Learned(st.rows[cur := st.rows[cur][act := q]], p.0, p.1)
    }

    /** A step changes exactly one cell, the one of the state left and the
        action taken; with a learning rate in (0, 1] the new value lies
        between the old one and the target `reward + gamma * Q(next, best)`,
        and moves strictly toward it. */
    lemma StepChangesOneCell(st: Learned, d: Draw)
      requires IsLearned(st) && IsDraw(d)
      ensures var r := Step(st, d);
        var cur := Index(n, st.i, st.j);
        var act := StepAction(st.rows, st.i, st.j, d);
        var next := Index(n, r.i, r.j);
        var target := Target(grid[r.i][r.j] as real, gamma, st.rows[next][GreedyAction(st.rows[next])]);
        && (forall s, a | 0 <= s < n * n && 0 <= a < ActionsSize && (s != cur || a != act) ::
              r.rows[s][a] == st.rows[s][a])
        && (0.0 < alpha <= 1.0 && st.rows[cur][act] < target ==>
              st.rows[cur][act] < r.rows[cur][act] <= target)
        && (0.0 < alpha <= 1.0 && target < st.rows[cur][act] ==>
              target <= r.rows[cur][act] < st.rows[cur][act])
        && (alpha == 1.0 ==> r.rows[cur][act] == target)
    {
      var r := Step(st, d);
      var cur := Index(n, st.i, st.j);
      var act := StepAction(st.rows, st.i, st.j, d);
      var next := Index(n, r.i, r.j);
      var target := Target(grid[r.i][r.j] as real, gamma, st.rows[next][GreedyAction(st.rows[next])]);
      assert r.rows[cur][act] == Update(st.rows[cur][act], alpha, target);
      if 0.0 < alpha <= 1.0 {
        UpdateMovesTowardTarget(st.rows[cur][act], alpha, target);
      }
    }

    /** A step leaves every row but that of the state it starts from. */
    lemma StepKeepsOtherRows(st: Learned, d: Draw, s: int)
      requires IsLearned(st) && IsDraw(d) && 0 <= s < n * n && s != Index(n, st.i, st.j)
      ensures Step(st, d).rows[s] == st.rows[s]
    {
    }

    /** Where the next training step starts: the epoch that ended on a goal
        is followed by `resetState()`, so the step starts at (0, 0). */
    function Restart(st: Learned): (r: Learned)
      requires IsLearned(st)
      ensures IsLearned(r) && r.rows == st.rows
      ensures !IsGoal(grid, n, r.i, r.j) || (r.i == 0 && r.j == 0)
      ensures IsGoal(grid, n, st.i, st.j) ==> r.i == 0 && r.j == 0
      ensures !IsGoal(grid, n, st.i, st.j) ==> r == st
    {
      if IsGoal(grid, n, st.i, st.j) then Learned(st.rows, 0, 0) else st
    }

    /** The training run on values: the steps made with the first k of
        `draws`, in order,
        each from where the last one ended, or from (0, 0) when it ended on
        a goal. */
    function Learn(start: Learned, draws: seq<Draw>, k: nat): (r: Learned)
      requires IsLearned(start) && AreDraws(draws)
      requires k <= |draws|
      ensures IsLearned(r)
      decreases k
    {
      if k == 0 then start
      else Step(Restart(Learn(start, draws, k - 1)), draws[k - 1])
    }

    /** The state index step t of the run with `draws` starts from. */
    function Origin(start: Learned, draws: seq<Draw>, t: nat): (s: int)
      requires IsLearned(start) && AreDraws(draws)
      requires t <= |draws|
      ensures 0 <= s < n * n
    {
      var from := Restart(Learn(start, draws, t));
      Index(n, from.i, from.j)
    }

    /** Step t of the run with `draws` ends on a goal cell; for t = 0, the
        run starts on one. */
    ghost predicate GoalAt(start: Learned, draws: seq<Draw>, t: nat)
      requires IsLearned(start) && AreDraws(draws) && t <= |draws|
    {
      var L := Learn(start, draws, t);
      IsGoal(grid, n, L.i, L.j)
    }

    /** The number of epochs the first k steps of the run complete: the
        steps among 1 .. k that end on a goal cell. */
    ghost function Epochs(start: Learned, draws: seq<Draw>, k: nat): (e: nat)
      requires IsLearned(start) && AreDraws(draws) && k <= |draws|
      ensures e <= k
      decreases k
    {
      if k == 0 then 0
      else Epochs(start, draws, k - 1) + (if GoalAt(start, draws, k) then 1 else 0)
    }

    /** Steps a + 1 .. b complete no epoch when none of them ends on a goal. */
    lemma EpochsSkip(start: Learned, draws: seq<Draw>, a: nat, b: nat)
      requires IsLearned(start) && AreDraws(draws) && a <= b <= |draws|
      requires forall t | a < t <= b :: !GoalAt(start, draws, t)
      ensures Epochs(start, draws, b) == Epochs(start, draws, a)
    {
      var k := a;
      while k < b
        invariant a <= k <= b && Epochs(start, draws, k) == Epochs(start, draws, a)
      {
        k := k + 1;
        assert !GoalAt(start, draws, k);
        EpochsLast(start, draws, k);
      }
    }

    /** Completed epochs never decrease, and a step that ends on a goal
        completes one more epoch than any earlier point of the run. */
    lemma EpochsGrow(start: Learned, draws: seq<Draw>, a: nat, b: nat)
      requires IsLearned(start) && AreDraws(draws) && a <= b <= |draws|
      ensures Epochs(start, draws, a) <= Epochs(start, draws, b)
      ensures a < b && GoalAt(start, draws, b) ==> Epochs(start, draws, a) < Epochs(start, draws, b)
    {
      var k := a;
      while k < b
        invariant a <= k <= b && Epochs(start, draws, a) <= Epochs(start, draws, k)
      {
        k := k + 1;
      }
      if a < b && GoalAt(start, draws, b) {
        EpochsGrow(start, draws, a, b - 1);
      }
    }

    /** Epoch-counted training stops on the goal that completes its
        `maxEpoch`-th epoch, and only one step of the run does that: the
        table it leaves is determined by the draws. */
    lemma EpochBudgetStopUnique(start: Learned, draws: seq<Draw>, s1: nat, s2: nat)
      requires IsLearned(start) && AreDraws(draws) && s1 <= |draws| && s2 <= |draws|
      requires GoalAt(start, draws, s1) && Epochs(start, draws, s1) == maxEpoch
      requires GoalAt(start, draws, s2) && Epochs(start, draws, s2) == maxEpoch
      requires maxEpoch > 0
      ensures s1 == s2
    {
      if s1 < s2 {
        EpochsGrow(start, draws, s1, s2);
      } else if s2 < s1 {
        EpochsGrow(start, draws, s2, s1);
      }
    }

    /** A run with a step that completes epoch `maxEpoch` has completed at
        least `maxEpoch` epochs once its draws are used up, so it cannot
        also be an incomplete epoch-counted run, whose counter stays below
        the budget: completed or not, the stop is determined by the draws. */
    lemma EpochStopExcludesRunOut(start: Learned, draws: seq<Draw>, s: nat)
      requires IsLearned(start) && AreDraws(draws) && s <= |draws| && maxEpoch > 0
      requires GoalAt(start, draws, s) && Epochs(start, draws, s) == maxEpoch
      ensures Epochs(start, draws, |draws|) >= maxEpoch
    {
      EpochsGrow(start, draws, s, |draws|);
    }

    /** A run with an epoch end at or past step `maxEpoch` is not an
        incomplete step-counted run: either an earlier epoch end than the
        last draw is already past the budget, or the last draw is one. */
    lemma StepStopExcludesRunOut(start: Learned, draws: seq<Draw>, s: nat)
      requires IsLearned(start) && AreDraws(draws) && s <= |draws|
      requires GoalAt(start, draws, s) && s >= maxEpoch && s > 0
      ensures (exists t | 0 < t < |draws| :: GoalAt(start, draws, t) && t >= maxEpoch) ||
              (GoalAt(start, draws, |draws|) && |draws| >= maxEpoch)
    {
      if s < |draws| {
        assert GoalAt(start, draws, s) && s >= maxEpoch;
      }
    }

    /** Step-counted training stops at the first epoch end at or past the
        budget `maxEpoch`, and only one step of the run is that: the table
        it leaves is determined by the draws. */
    lemma StepBudgetStopUnique(start: Learned, draws: seq<Draw>, s1: nat, s2: nat)
      requires IsLearned(start) && AreDraws(draws) && s1 <= |draws| && s2 <= |draws|
      requires GoalAt(start, draws, s1) && s1 >= maxEpoch
      requires forall t | 0 < t < s1 && GoalAt(start, draws, t) :: t < maxEpoch
      requires GoalAt(start, draws, s2) && s2 >= maxEpoch
      requires forall t | 0 < t < s2 && GoalAt(start, draws, t) :: t < maxEpoch
      requires maxEpoch > 0
      ensures s1 == s2
    {
    }

    /** Training only ever writes the cells of states it leaves: a state
        from which none of the first k steps of the run starts keeps its
        row. */
    lemma LearnKeepsUnvisitedRows(start: Learned, draws: seq<Draw>, k: nat, s: int)
      requires IsLearned(start) && AreDraws(draws)
      requires k <= |draws| && 0 <= s < n * n
      requires forall t | 0 <= t < k :: Origin(start, draws, t) != s
      ensures Learn(start, draws, k).rows[s] == start.rows[s]
    {
      var j := 0;
      while j < k
        invariant j <= k
        invariant Learn(start, draws, j).rows[s] == start.rows[s]
      {
        j := j + 1;
        LearnStepKeepsRow(start, draws, j, s);
      }
    }

    /** Step k of the run keeps the row of every state it does not start
        from. */
    lemma LearnStepKeepsRow(start: Learned, draws: seq<Draw>, k: nat, s: int)
      requires IsLearned(start) && AreDraws(draws)
      requires 0 < k <= |draws| && 0 <= s < n * n && Origin(start, draws, k - 1) != s
      ensures Learn(start, draws, k).rows[s] == Learn(start, draws, k - 1).rows[s]
    {
      StepKeepsOtherRows(Restart(Learn(start, draws, k - 1)), draws[k - 1], s);
    }

    /** One step of the inner training loop: choose with `epsilon`, move,
        look up the greedy action of the state reached, and apply the TD(0)
        update to the one cell `qTable[cur][act]`, with the code of the cell
        reached as the reward. The table and position it leaves are those
        of `Step`. */
    method TrainStep(d: Draw)
      requires Valid() && IsDraw(d)
      modifies this`stateI, this`stateJ, this`rows, qTable
      ensures Valid()
      ensures Snapshot() == Step(old(Snapshot()), d)
    {
      ghost var st := Snapshot();
      var currentState := Index(n, stateI, stateJ);
      var act := ChooseAction(epsilon, d.u, d.k);
      assert act == StepAction(st.rows, st.i, st.j, d);
      var nextState := ExecuteAction(act);
      var nextBestAct := ChooseAction(0.0, 0.0, 0);
      var q := Update(qTable[currentState, act], alpha,
                      Target(grid[stateI][stateJ] as real, gamma, qTable[nextState, nextBestAct]));
      qTable[currentState, act] := q;
      rows := rows[currentState := rows[currentState][act := q]];
      forall s, a | 0 <= s < n * n && 0 <= a < ActionsSize
        ensures qTable[s, a] == rows[s][a]
      {
        if s != currentState || a != act {
          assert qTable[s, a] == old(qTable[s, a]) == st.rows[s][a];
        }
      }
      assert rows == Step(st, d).rows;
    }

    /** A learner in state `st` holds the table of run `L` and stands where
        that run ended, or at (0, 0) after `resetState()`. */
    predicate Tracks(st: Learned, L: Learned)
      requires IsLearned(L)
    {
      st == L || st == Restart(L)
    }

    /** State `st` holds the table of the run with the first k draws and
        stands where that run ended, or at (0, 0) after `resetState()`. */
    predicate Follows(st: Learned, start: Learned, draws: seq<Draw>, k: nat)
    {
      IsLearned(start) && AreDraws(draws) && k <= |draws| &&
      Tracks(st, Learn(start, draws, k))
    }

    /** A step from a state off the goal that tracks the first k steps of
        the run makes the learner stand where the first k + 1 end. */
    lemma TracksStep(start: Learned, draws: seq<Draw>, k: nat, before: Learned, after: Learned)
      requires IsLearned(start) && AreDraws(draws)
      requires k < |draws| && IsLearned(before)
      requires Tracks(before, Learn(start, draws, k)) && !IsGoal(grid, n, before.i, before.j)
      requires after == Step(before, draws[k])
      ensures after == Learn(start, draws, k + 1)
    {
    }

    /** A learner that tracks a run and stands on a goal: the run ends on
        that goal. */
    lemma TracksGoal(st: Learned, L: Learned)
      requires IsLearned(st) && IsLearned(L) && Tracks(st, L) && IsGoal(grid, n, st.i, st.j)
      ensures IsGoal(grid, n, L.i, L.j)
    {
    }

    /** A training step with the next draw of the run, from a cell off the
        goal: the learner then tracks the run one step further. */
    method StepRun(ghost start: Learned, draws: seq<Draw>, k: nat) returns (next: nat)
      requires Valid() && Follows(Snapshot(), start, draws, k) && k < |draws| && !Finished()
      modifies this`stateI, this`stateJ, this`rows, qTable
      ensures Valid() && next == k + 1 && Follows(Snapshot(), start, draws, next)
      ensures Snapshot() == Learn(start, draws, next)
    {
      next := k + 1;
      ghost var before := Snapshot();
      TrainStep(draws[k]);
      TracksStep(start, draws, k, before, Snapshot());
    }

    /** The inner loop of training, one epoch: from (0, 0), step until the
        first goal cell, advancing the counter per step when `countSteps`.
        When `draws` run out first, it stops off the goal. */
    method TrainEpoch(ghost start: Learned, draws: seq<Draw>, steps0: nat, it0: int)
      returns (steps: nat, it: int)
      requires Valid() && Follows(Snapshot(), start, draws, steps0) && stateI == 0 && stateJ == 0
      modifies this`stateI, this`stateJ, this`rows, qTable
      ensures Valid() && Follows(Snapshot(), start, draws, steps) && steps0 <= steps
      ensures steps0 < steps ==> Snapshot() == Learn(start, draws, steps)
      ensures forall t | steps0 < t < steps :: !GoalAt(start, draws, t)
      ensures it == if countSteps then it0 + (steps - steps0) else it0
      ensures Finished() || steps == |draws|
      ensures steps == steps0 ==> stateI == 0 && stateJ == 0
      ensures IsGoal(grid, n, 0, 0) ==> steps == steps0
    {
      steps, it := steps0, it0;
      while !Finished() && steps < |draws|
        invariant Valid() && Follows(Snapshot(), start, draws, steps) && steps0 <= steps
        invariant steps0 < steps ==> Snapshot() == Learn(start, draws, steps)
        invariant forall t | steps0 < t < steps :: !GoalAt(start, draws, t)
        invariant it == if countSteps then it0 + (steps - steps0) else it0
        invariant steps == steps0 ==> stateI == 0 && stateJ == 0
        invariant IsGoal(grid, n, 0, 0) ==> steps == steps0
        decreases |draws| - steps
      {
        ghost var left := steps;
        assert steps0 < left ==> !GoalAt(start, draws, left);
        steps := StepRun(start, draws, steps);
        NoGoalUpTo(start, draws, steps0, left);
        if countSteps {
          it := it + 1;
        }
      }
    }

    /** No step in steps0 + 1 .. k ends on a goal, given that none before k
        does and step k does not. */
    lemma NoGoalUpTo(start: Learned, draws: seq<Draw>, steps0: nat, k: nat)
      requires IsLearned(start) && AreDraws(draws) && k < |draws|
      requires forall t | steps0 < t < k :: !GoalAt(start, draws, t)
      requires steps0 < k ==> !GoalAt(start, draws, k)
      ensures forall t | steps0 < t < k + 1 :: !GoalAt(start, draws, t)
    {
    }

    /** The epochs of training: while the counter is below `maxEpoch`,
        reset to (0, 0) and step until the first goal cell. The counter
        advances per epoch, or per step when `countSteps`, and is checked
        only between epochs. Each step takes the next of `draws`; when they
        run out, or when a step-counted epoch takes no step at all (the
        start is a goal, so the source would repeat that epoch for ever),
        the method stops with `completed` false.

        Where it stops is pinned down by the run: epoch-counted, on the goal
        that completes epoch `maxEpoch` (or at once when the start is a
        goal, since every epoch is then empty); step-counted, on the first
        epoch end at or past step `maxEpoch`. */
    method TrainEpochs(ghost start: Learned, draws: seq<Draw>) returns (completed: bool, it: int, steps: nat)
      requires Valid() && Follows(Snapshot(), start, draws, 0) && stateI == 0 && stateJ == 0
      modifies this`stateI, this`stateJ, this`rows, qTable
      ensures Valid() && Follows(Snapshot(), start, draws, steps)
      ensures countSteps ==> it == steps
      ensures completed && countSteps ==> it >= maxEpoch
      ensures completed && !countSteps ==> it == Max(0, maxEpoch)
      ensures completed && maxEpoch > 0 ==> Finished() && GoalAt(start, draws, steps)
      ensures !countSteps && !IsGoal(grid, n, 0, 0) ==> Epochs(start, draws, steps) == it
      ensures !countSteps && IsGoal(grid, n, 0, 0) ==> steps == 0
      ensures countSteps ==> forall t | 0 < t < steps && GoalAt(start, draws, t) :: t < maxEpoch
      ensures !completed ==> steps == |draws| || (countSteps && IsGoal(grid, n, 0, 0))
      ensures !completed && !countSteps ==> it < maxEpoch
      ensures !completed && countSteps && !IsGoal(grid, n, 0, 0) ==>
                !(GoalAt(start, draws, steps) && steps >= maxEpoch)
      ensures maxEpoch <= 0 ==> completed && steps == 0
      ensures !countSteps && IsGoal(grid, n, 0, 0) ==> completed
    {
      it, steps := 0, 0;
      while it < maxEpoch
        invariant Valid() && Follows(Snapshot(), start, draws, steps)
        invariant maxEpoch <= 0 ==> steps == 0
        invariant Counted(start, draws, it, steps)
        invariant it > 0 ==> Finished()
        invariant it == 0 ==> stateI == 0 && stateJ == 0
        decreases if countSteps then |draws| - steps else maxEpoch - it
      {
        ResetState();
        var before, it0 := steps, it;
        steps, it := TrainEpoch(start, draws, steps, it);
        CountedEpoch(start, draws, it0, before, it, steps, Finished());
        if !Finished() {
          return false, it, steps;
        }
        if !countSteps {
          it := it + 1;
        } else if steps == before {
          return false, it, steps;
        }
      }
      completed := true;
      if maxEpoch > 0 {
        TracksGoal(Snapshot(), Learn(start, draws, steps));
      }
    }

    /** The counters of training once its epochs have reached step `steps`:
        step-counted, the counter is the number of steps, and every epoch
        end so far came before the budget; epoch-counted, the counter is
        within the budget and is the number of epochs the steps complete,
        none of them taking a step when the start is a goal. */
    ghost predicate Counted(start: Learned, draws: seq<Draw>, it: int, steps: nat)
      requires IsLearned(start) && AreDraws(draws) && steps <= |draws|
    {
      if countSteps then
        it == steps && forall t | 0 < t < steps && GoalAt(start, draws, t) :: t < maxEpoch
      else
        0 <= it <= Max(0, maxEpoch) &&
        (if IsGoal(grid, n, 0, 0) then steps == 0 else Epochs(start, draws, steps) == it)
    }

    /** An epoch that starts below the budget, from step `before` with
        counter `it0`, to step `steps` with counter `it`, keeps the counters
        in step with the run, the epoch counter advancing when it ends on
        a goal. */
    lemma CountedEpoch(start: Learned, draws: seq<Draw>, it0: int, before: nat, it: int,
                       steps: nat, goal: bool)
      requires IsLearned(start) && AreDraws(draws) && before <= steps <= |draws|
      requires Counted(start, draws, it0, before) && it0 < maxEpoch
      requires forall t | before < t < steps :: !GoalAt(start, draws, t)
      requires before < steps ==> goal == GoalAt(start, draws, steps)
      requires it == if countSteps then it0 + (steps - before) else it0
      requires IsGoal(grid, n, 0, 0) ==> steps == before
      requires goal && steps == before ==> IsGoal(grid, n, 0, 0)
      ensures Counted(start, draws, if goal && !countSteps then it + 1 else it, steps)
    {
      EpochEnd(start, draws, before, steps, goal);
    }

    /** What one epoch from step `before` to step `after` adds to the count
        of completed epochs: one when it ends on a goal after at least one
        step, none otherwise. */
    lemma EpochEnd(start: Learned, draws: seq<Draw>, before: nat, after: nat, goal: bool)
      requires IsLearned(start) && AreDraws(draws) && before <= after <= |draws|
      requires forall t | before < t < after :: !GoalAt(start, draws, t)
      requires before < after ==> goal == GoalAt(start, draws, after)
      ensures before < after && goal ==> Epochs(start, draws, after) == Epochs(start, draws, before) + 1
      ensures !(before < after && goal) ==> Epochs(start, draws, after) == Epochs(start, draws, before)
    {
      if before < after {
        EpochsSkip(start, draws, before, after - 1);
        EpochsLast(start, draws, after);
      }
    }

    /** Step k completes an epoch exactly when it ends on a goal. */
    lemma EpochsLast(start: Learned, draws: seq<Draw>, k: nat)
      requires IsLearned(start) && AreDraws(draws) && 0 < k <= |draws|
      ensures GoalAt(start, draws, k) ==> Epochs(start, draws, k) == Epochs(start, draws, k - 1) + 1
      ensures !GoalAt(start, draws, k) ==> Epochs(start, draws, k) == Epochs(start, draws, k - 1)
    {
    }

    /** `train()`: the epochs of `TrainEpochs`, on a fresh all-zero table
        when `resetsTable` and on the current one otherwise, starting at
        (0, 0). The table it leaves is the one `Learn` computes from the
        steps it made, and those are where `TrainEpochs` stops. */
    method Train(draws: seq<Draw>) returns (completed: bool, it: int, steps: nat)
      requires Valid() && AreDraws(draws)
      modifies this, qTable
      ensures Valid()
      ensures resetsTable ==> fresh(qTable)
      ensures !resetsTable ==> qTable == old(qTable)
      ensures steps <= |draws|
      ensures var start := Learned(if resetsTable then ZeroTable() else old(rows), 0, 0);
        && Follows(Snapshot(), start, draws, steps)
        && rows == Learn(start, draws, steps).rows
        && (completed && maxEpoch > 0 ==> GoalAt(start, draws, steps))
        && (!countSteps && !IsGoal(grid, n, 0, 0) ==> Epochs(start, draws, steps) == it)
        && (countSteps ==> forall t | 0 < t < steps && GoalAt(start, draws, t) :: t < maxEpoch)
      ensures !countSteps && IsGoal(grid, n, 0, 0) ==> steps == 0
      ensures countSteps ==> it == steps
      ensures completed && countSteps ==> it >= maxEpoch
      ensures completed && !countSteps ==> it == Max(0, maxEpoch)
      ensures completed && maxEpoch > 0 ==> Finished()
      ensures !completed ==> steps == |draws| || (countSteps && IsGoal(grid, n, 0, 0))
      ensures !completed && !countSteps ==> it < maxEpoch
      ensures !completed && countSteps && !IsGoal(grid, n, 0, 0) ==>
                !(GoalAt(Learned(if resetsTable then ZeroTable() else old(rows), 0, 0), draws, steps) &&
                  steps >= maxEpoch)
      ensures maxEpoch <= 0 ==> completed && steps == 0
      ensures !countSteps && IsGoal(grid, n, 0, 0) ==> completed
    {
      if resetsTable {
        qTable := new real[n * n, ActionsSize]((s, a) => 0.0);
        rows := ZeroTable();
      }
      ghost var start := Learned(rows, 0, 0);
      stateI, stateJ := 0, 0;
      completed, it, steps := TrainEpochs(start, draws);
    }

    /** One move of the rollout: the greedy action of the current cell,
        which takes the agent to the greedy successor of its state. */
    method GreedyMove(ghost gr: StateGraph)
      requires Valid() && gr == GreedyGraph(rows, grid, n)
      modifies this`stateI, this`stateJ
      ensures Valid()
      ensures Index(n, stateI, stateJ) == gr.next[Index(n, old(stateI), old(stateJ))]
    {
      GreedyGraphAt(rows, grid, n, stateI, stateJ);
      var act := ChooseAction(0.0, 0.0, 0);
      var _ := ExecuteAction(act);
    }

    /** The rollout of `showResult` / `showRoadToTarget`: reset to (0, 0),
        then apply greedy actions, counting one per move, until a goal
        cell. `fuel` bounds the number of moves. The outcome and the count
        are those of the run from state 0 on the greedy graph of the
        current table, which is not changed. */
    method ShowResult(fuel: nat) returns (reached: bool, i: nat)
      requires Valid()
      modifies this`stateI, this`stateJ
      ensures Valid()
      ensures (reached, i) == RunFrom(GreedyGraph(rows, grid, n), 0, fuel)
      ensures reached == Finished()
    {
      ResetState();
      ghost var gr := GreedyGraph(rows, grid, n);
      ghost var cur, left := 0, fuel;
      i := 0;
      reached := Finished();
      while !reached && i < fuel
        invariant Valid() && i <= fuel && left == fuel - i
        invariant gr == GreedyGraph(rows, grid, n)
        invariant cur == Index(n, stateI, stateJ) && reached == Finished()
        invariant Resumes(gr, fuel, cur, left, i)
        decreases left
      {
        FinishedIsGoalState();
        ResumesNext(gr, fuel, cur, left, i);
        GreedyMove(gr);
        cur, left, i := gr.next[cur], left - 1, i + 1;
        reached := Finished();
      }
      FinishedIsGoalState();
      ResumesEnd(gr, fuel, cur, left, i);
    }
  }
}
