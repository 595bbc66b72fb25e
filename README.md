# Tabular Q-learning on a grid, with a multi-agent leaderboard

The system trains an agent to walk from the top-left cell (0, 0) of a
square grid to a goal cell, coded `1`. Other cells are neutral (`0`) or
penalties (`-1`). The cell code is the reward for entering it.

The agent keeps a Q-table with one row per cell (`stateI * gridSize +
stateJ`) and one column per action: LEFT, RIGHT, BOTTOM, TOP. Each
training step works as follows:

- It picks an action epsilon-greedily.
- It moves by the action's delta, each coordinate clamped to the grid on
  its own.
- It applies the TD(0) update `Q += alpha * (reward + gamma * Q(next,
  greedy(next)) - Q)` to the one cell of the state left and the action
  taken.

Epochs start at (0, 0) and end on a goal. After training, the greedy road
from (0, 0) is walked and its moves are counted.

The same engine appears in four learners:

| learner | grid and parameters | counter advances per |
|---|---|---|
| `QLAppGUI` | typed in by the user; a fresh table when training starts | epoch |
| `QLearningAgentGUI`, `QLearning`, the JADE `QLearningAgent` | fixed 6 x 6 grid, alpha 0.1, gamma 0.9, epsilon 0.4, budget 200000 | step (checked only between epochs) |

A separate `CentralAgent` collects one `(name, steps)` report per
learner. After `AGENTS_NUMBER` = 4 reports it stable-sorts them by step
count (`QLEntity.compareTo`) and names the head as the best performance.

The Dafny modules follow this structure:

- `GridWorld` (`gridworld.dfy`): actions, clamped moves, the state index,
  the goal test, `directions` and the fixed 6 x 6 grid.
- `Policy` (`policy.dfy`): the greedy scan with its tie-break, and the
  update rule.
- `Rollout` (`rollout.dfy`): the greedy road as a walk on a state graph.
- `Learning` (`learner.dfy`): the engine as one class, `Learner`. It has
  the position fields, an `array2<real>` Q-table that training updates
  in place, and two flags for the points where the copies differ:
  - `countSteps`: the counter advances per step instead of per epoch.
  - `resetsTable`: training allocates a fresh zero table.

  Every method is proved against value-level functions: `Step`, `Learn`
  and `RunFrom` on `GreedyGraph`.
- One module per learner instantiates the engine: `AppGui`, `AgentGui`,
  `Sequential` and `SmaAgent`.
- `Entities` (`entities.dfy`) and `Central` (`central.dfy`): the report
  class and the leaderboard.

The random generator is an input. Each training step takes one `Draw(u,
k)`, where `u` is what `nextDouble()` returned and `k` what
`nextInt(4)` returned. The sequence of draws is also the fuel of
training. The rollout takes a `fuel` bound on its number of moves.

## Model

| member | source | states |
|---|---|---|
| GridWorld.Clamp | src/ma/enset/qlearning/gui/QLAppGUI.java:245-246 | `max(0, min(v, n-1))` lies in [0, n); it is v inside the grid, 0 below it and n-1 above it |
| GridWorld.Move | src/ma/enset/qlearning/sma/agents/QLearningAgent.java:135-137 | the position after any action stays inside the grid |
| GridWorld.MoveEffect | src/ma/enset/qlearning/gui/QLAppGUI.java:135-142 | each coordinate moves by the action's delta when that stays inside, otherwise it is unchanged; at most one coordinate changes, by at most one |
| GridWorld.Index | src/ma/enset/qlearning/sequential/QLearning.java:123 | `stateI * n + stateJ` of an in-grid cell is a row of the n*n-row table |
| GridWorld.IndexDecode | src/ma/enset/qlearning/gui/QLAppGUI.java:153 | the index decodes back to the cell: row `s / n`, column `s % n` |
| GridWorld.StateCell | src/ma/enset/qlearning/gui/QLAppGUI.java:145 | every index below n*n decodes to an in-grid cell whose index it is |
| GridWorld.IndexOnto | src/ma/enset/qlearning/gui/QLAppGUI.java:145 | every index below n*n is the index of an in-grid cell |
| GridWorld.IndexInjective | src/ma/enset/qlearning/gui/QLAppGUI.java:153 | two cells share a table row only if they are the same cell |
| GridWorld.Directions | src/ma/enset/qlearning/gui/QLAppGUI.java:204-217 | 0..3 map to LEFT, RIGHT, BOTTOM, TOP, each in both directions, and anything else maps to a blank |
| GridWorld.SixBySixShape | src/ma/enset/qlearning/gui/QLearningAgentGUI.java:69-78 | the fixed grid is 6 x 6, (0, 0) is neutral, and a cell is a goal iff it is (3, 2) |
| Policy.BestValue | src/ma/enset/qlearning/gui/QLAppGUI.java:226-239 | the running best `bestQ` after the scan is at least 0, at least every entry, and is 0 or one of the entries |
| Policy.GreedyAction | src/ma/enset/qlearning/gui/QLAppGUI.java:233-239 | the greedy scan ends on a column of the row, or on 0 for an empty row |
| Policy.GreedyActionIsGreedy | src/ma/enset/qlearning/gui/QLAppGUI.java:226-239 | the scan returns the lowest index of the largest entry when some entry is positive, and 0 otherwise; its `bestQ` is that entry's value, or 0 |
| Policy.GreedyChoiceUnique | src/ma/enset/qlearning/gui/QLAppGUI.java:234-239 | that greedy choice is determined by the row |
| Policy.GreedyValue | src/ma/enset/qlearning/gui/QLAppGUI.java:156-159 | `qTable[next][nextBestAct]` is the row's maximum when some entry is positive, and otherwise the first entry, whatever its sign |
| Policy.NonPositiveRowYieldsFirst | src/ma/enset/qlearning/sma/agents/QLearningAgent.java:117-130 | a row with no positive entry yields action 0 |
| Policy.ZeroRowYieldsFirst | src/ma/enset/qlearning/gui/QLAppGUI.java:226-239 | the all-zero row of a fresh table yields LEFT |
| Policy.SinglePositiveRow | src/ma/enset/qlearning/gui/QLAppGUI.java:235-238 | a row whose only positive entry is in column 1 yields RIGHT |
| Policy.NegativeRowIsNotArgmax | src/ma/enset/qlearning/sequential/QLearning.java:100-117 | the tie-break is not an argmax: on [-1, -0.5, -0.5, -0.5] the choice is LEFT, the worst column |
| Policy.UpdateMovesTowardTarget | src/ma/enset/qlearning/gui/QLAppGUI.java:159 | with alpha in (0, 1] the updated value lies between the old value and the target, strictly closer to the target |
| Policy.Target | src/ma/enset/qlearning/gui/QLAppGUI.java:159 | the Bellman target `reward + gamma * Q(next, nextBest)`; its contract only records corner cases (the reward alone with no discount or a zero estimate), and what a step does with it is stated by `Learning.Learner.StepChangesOneCell` |
| Policy.Update | src/ma/enset/qlearning/gui/QLAppGUI.java:159 | the update `Q + alpha * (target - Q)`; its contract only records corner cases (rate 1, rate 0, a fixed point), and its promise, a move toward the target, is `Policy.UpdateMovesTowardTarget` |
| Rollout.Walk | src/ma/enset/qlearning/gui/QLAppGUI.java:177-185 | the state after k greedy moves is a state of the grid |
| Rollout.WalkCompose | src/ma/enset/qlearning/gui/QLAppGUI.java:177-185 | a + b moves are a moves followed by b moves from where they ended |
| Rollout.NoGoalBeforeMeans | src/ma/enset/qlearning/gui/QLAppGUI.java:177 | "no goal in the first k positions" means no goal after any of 0 .. k-1 moves |
| Rollout.FirstGoalUnique | src/ma/enset/qlearning/gui/QLearningAgentGUI.java:119-131 | the move count of a rollout that reaches the goal is unique for the table |
| Rollout.CycleNeverReachesGoal | src/ma/enset/qlearning/gui/QLAppGUI.java:177-185 | once the greedy walk revisits a state without meeting a goal, no later position is a goal, so the source loop never ends |
| Rollout.RunFrom | src/ma/enset/qlearning/gui/QLAppGUI.java:176-185 | the count never exceeds the fuel, and a run that does not reach a goal used all of it |
| Rollout.RunFromWalk | src/ma/enset/qlearning/gui/QLAppGUI.java:176-185 | no position before the count is a goal; the position at the count is a goal iff the run succeeded |
| Rollout.RunSucceeds | src/ma/enset/qlearning/gui/QLearningAgentGUI.java:119-131 | the run reaches the goal with count c iff c is within the fuel and c is the first time the walk is on a goal |
| Rollout.RunFails | src/ma/enset/qlearning/gui/QLAppGUI.java:177-185 | the run fails iff none of the first fuel + 1 positions is a goal |
| Learning.GreedyNext | src/ma/enset/qlearning/gui/QLAppGUI.java:178-183 | the greedy successor of a state is a state of the grid |
| Learning.GreedyGraph | src/ma/enset/qlearning/gui/QLAppGUI.java:177-185 | the greedy road is a well-formed graph on the n*n states |
| Learning.GreedyGraphAt | src/ma/enset/qlearning/gui/QLAppGUI.java:177-183 | at cell (i, j) the graph moves by the cell's greedy action, and the cell is a goal node iff its code is 1 |
| Learning.GreedyRoadOneMove | src/ma/enset/qlearning/gui/QLAppGUI.java:172-185 | when (0, 0) is not a goal and its greedy move lands on one, the road takes exactly one move |
| Learning.Learner.ZeroTable | src/ma/enset/qlearning/gui/QLAppGUI.java:145 | `new double[gridSize*gridSize][4]` is a table of n*n rows of 4 zeros |
| Learning.Learner.constructor | src/ma/enset/qlearning/sequential/QLearning.java:17-38 | the fields are as given, the table is fresh and all zero, and the agent is at (0, 0) |
| Learning.Learner.Finished | src/ma/enset/qlearning/gui/QLAppGUI.java:200-202 | the agent is finished exactly when its cell's code is 1 |
| Learning.Learner.FinishedIsGoalState | src/ma/enset/qlearning/gui/QLAppGUI.java:200-202 | the goal test of training is the goal flag of the agent's state in the rollout's greedy graph, whatever the table |
| Learning.Learner.ResetState | src/ma/enset/qlearning/gui/QLAppGUI.java:219-222 | the position becomes (0, 0) and nothing else changes |
| Learning.Learner.GetGrid | src/ma/enset/qlearning/sma/agents/QLearningAgent.java:141-143 | returns the grid, a square grid of size n |
| Learning.Learner.GetStateI | src/ma/enset/qlearning/sma/agents/QLearningAgent.java:145-147 | returns the current row, which lies in [0, n) |
| Learning.Learner.GetStateJ | src/ma/enset/qlearning/sma/agents/QLearningAgent.java:149-151 | returns the current column, which lies in [0, n) |
| Learning.Learner.ChooseAction | src/ma/enset/qlearning/gui/QLAppGUI.java:224-242 | an action in [0, 4): the drawn one when `u < eps`, otherwise the greedy scan of the current row; with eps <= 0 always the greedy choice, with eps >= 1 always the drawn one; it changes nothing |
| Learning.Learner.ExecuteAction | src/ma/enset/qlearning/gui/QLAppGUI.java:244-256 | the new position is the clamped move, and the result is its index, in [0, n*n) |
| Learning.Learner.StepAction | src/ma/enset/qlearning/gui/QLAppGUI.java:154 | a training step explores with the drawn action when `u < epsilon`, and otherwise takes the greedy choice |
| Learning.Learner.Step | src/ma/enset/qlearning/gui/QLAppGUI.java:153-159 | a step moves to the clamped move of the chosen action |
| Learning.Learner.StepChangesOneCell | src/ma/enset/qlearning/gui/QLAppGUI.java:159 | a step changes only Q(current state, chosen action), which moves toward `reward + gamma * Q(next, greedy(next))` and reaches it when alpha = 1 |
| Learning.Learner.StepKeepsOtherRows | src/ma/enset/qlearning/sma/agents/QLearningAgent.java:53-60 | a step leaves every row but the current state's |
| Learning.Learner.Restart | src/ma/enset/qlearning/gui/QLAppGUI.java:150-152 | the table is kept; a run that ended on a goal resumes from (0, 0), and one that ended elsewhere resumes where it is |
| Learning.Learner.Learn | src/ma/enset/qlearning/gui/QLAppGUI.java:150-162 | the steps of a training run, in order, stay well-formed tables and positions |
| Learning.Learner.LearnKeepsUnvisitedRows | src/ma/enset/qlearning/gui/QLAppGUI.java:150-162 | training never changes the row of a state that no step starts from |
| Learning.Learner.LearnStepKeepsRow | src/ma/enset/qlearning/gui/QLAppGUI.java:159 | step k of a run keeps every row but that of the state it starts from |
| Learning.Learner.TrainStep | src/ma/enset/qlearning/gui/QLAppGUI.java:153-159 | the array and the position after one in-place step are exactly those of `Step` |
| Learning.Learner.StepRun | src/ma/enset/qlearning/sequential/QLearning.java:49-58 | a step off the goal leaves the learner exactly where the run's next step ends, with its table |
| Learning.Learner.TrainEpoch | src/ma/enset/qlearning/sequential/QLearning.java:47-59 | the inner loop stops at the first step of the epoch that ends on a goal: no step before it does, and it stops elsewhere only when the draws run out; it takes no step when the start is a goal. The counter grows by the number of steps when step-counted and is unchanged otherwise |
| Learning.Learner.TrainEpochs | src/ma/enset/qlearning/gui/QLAppGUI.java:150-162 | no training at all when maxEpoch <= 0. Epoch-counted: the counter is the number of epochs the steps complete; a completed run stops on the goal that completes epoch maxEpoch, or at once when the start is a goal, and an incomplete one has used every draw with the counter still below the budget. Step-counted: every epoch end before the stop came before step maxEpoch; a completed run stops on an epoch end at or past it, and an incomplete one has used every draw without its last step being such an epoch end (or starts on a goal) |
| Learning.Learner.Train | src/ma/enset/qlearning/gui/QLAppGUI.java:144-163 | as `TrainEpochs`, from a fresh zero table when `resetsTable`; the array then holds `Learn` of the steps made, and those end where `TrainEpochs` stops |
| Learning.Learner.EpochsGrow | src/ma/enset/qlearning/gui/QLAppGUI.java:150-162 | the number of completed epochs never decreases along the run, and grows at every step that ends on a goal |
| Learning.Learner.EpochsSkip | src/ma/enset/qlearning/gui/QLAppGUI.java:151-160 | steps that end off the goal complete no epoch |
| Learning.Learner.EpochBudgetStopUnique | src/ma/enset/qlearning/gui/QLAppGUI.java:150-162 | only one step of a run ends on the goal that completes epoch maxEpoch, so a completed epoch-counted run has one possible stop |
| Learning.Learner.StepBudgetStopUnique | src/ma/enset/qlearning/sequential/QLearning.java:46-60 | only one step of a run is an epoch end at or past step maxEpoch with every earlier epoch end before it, so a completed step-counted run has one possible stop |
| Learning.Learner.EpochStopExcludesRunOut | src/ma/enset/qlearning/gui/QLAppGUI.java:150-162 | a run that has the goal completing epoch maxEpoch has at least maxEpoch epochs when its draws are used up, so it is never an incomplete run; with `EpochBudgetStopUnique`, the stop and the table left are determined by the draws |
| Learning.Learner.StepStopExcludesRunOut | src/ma/enset/qlearning/sequential/QLearning.java:46-60 | a run that has an epoch end at or past step maxEpoch has one before its last draw or at it, so it is never an incomplete run; with `StepBudgetStopUnique`, the stop and the table left are determined by the draws |
| Learning.Learner.CountedEpoch | src/ma/enset/qlearning/gui/QLAppGUI.java:150-162 | an epoch started below the budget keeps the counter equal to the steps made (step-counted) or to the epochs completed (epoch-counted), and every epoch end before the budget |
| Learning.Learner.GreedyMove | src/ma/enset/qlearning/gui/QLAppGUI.java:178-183 | one greedy move takes the agent to its state's successor in the greedy graph |
| Learning.Learner.ShowResult | src/ma/enset/qlearning/sma/agents/QLearningAgent.java:82-94 | the rollout from (0, 0) returns what `RunFrom` on the greedy graph returns; it ends on a goal iff it reports success, and leaves the table alone |
| Sequential.NewQLearning | src/ma/enset/qlearning/sequential/QLearning.java:9-38 | a learner on the fixed grid with the class constants, step-counted, with a zero table, at (0, 0) |
| Sequential.Run | src/ma/enset/qlearning/sequential/QLearning.java:40-80 | training in place (the same array) to the `Learn` table of the steps made; every epoch end before the stop came before step 200000; a completed run stops on an epoch end at or past it, and an incomplete one has used every draw without its last step being one. Then the rollout's `RunFrom` result, which ends on (3, 2) iff it succeeds |
| AgentGui.NewAgentGui | src/ma/enset/qlearning/gui/QLearningAgentGUI.java:17-32 | a learner on the fixed grid with the class constants, step-counted, with a zero table, at (0, 0) |
| AgentGui.Start | src/ma/enset/qlearning/gui/QLearningAgentGUI.java:89-132 | as `Sequential.Run`; `transactions number` is the first time the greedy walk from (0, 0) is on a goal |
| SmaAgent.Setup | src/ma/enset/qlearning/sma/agents/QLearningAgent.java:12-41 | a learner on the fixed grid with the class constants, step-counted, with a zero table, at (0, 0) |
| SmaAgent.Done | src/ma/enset/qlearning/sma/agents/QLearningAgent.java:68-70 | the behaviour is always done |
| SmaAgent.Action | src/ma/enset/qlearning/sma/agents/QLearningAgent.java:44-66 | the behaviour's training and rollout, with the same guarantees as `AgentGui.Start` |
| SmaAgent.RunBehaviour | src/ma/enset/qlearning/sma/agents/QLearningAgent.java:42-71 | scheduled until done, the one-shot behaviour runs exactly once and leaves the `Learn` table of that run, which stops as `Sequential.Run` does |
| AppGui.NewApp | src/ma/enset/qlearning/gui/QLAppGUI.java:32-34 | a learner on the user's grid and parameters, epoch-counted, which allocates its table when training starts |
| AppGui.Start | src/ma/enset/qlearning/gui/QLAppGUI.java:50-54 | training on a fresh zero table to the `Learn` table of the steps made; no step when maxEpoch <= 0 or the start is a goal; the counter is the number of epochs those steps complete; a completed run stops on the goal that completes epoch maxEpoch, and an incomplete one has used every draw below the budget. The road's count is the first time the greedy walk is on a goal, and the road ends on a goal iff it reports success |
| AppGui.FreshStepRight | src/ma/enset/qlearning/gui/QLAppGUI.java:153-159 | on a fresh table, an exploring RIGHT from (0, 0) moves to (0, 1) and writes `alpha * reward` into Q(0, RIGHT) alone |
| AppGui.CornerRoad | src/ma/enset/qlearning/gui/QLAppGUI.java:178-183 | on the 2 x 2 example, a row 0 of [0, 0.5, 0, 0] makes RIGHT greedy, and that move lands on the goal |
| AppGui.OneEpochOnCorner | src/ma/enset/qlearning/gui/QLAppGUI.java:144-163 | one epoch on the 2 x 2 example (alpha 0.5, gamma 0.9) sets Q(0, RIGHT) to 0.5, leaves the other cells 0, ends on the goal, and makes RIGHT the greedy action of (0, 0) |
| AppGui.RoadAfterOneEpoch | src/ma/enset/qlearning/gui/QLAppGUI.java:172-188 | after that epoch the road from (0, 0) reaches the goal in one move |
| Entities.QLEntity.constructor | src/ma/enset/qlearning/sma/entites/QLEntity.java:7-10 | both fields are stored as given |
| Entities.QLEntity.GetName | src/ma/enset/qlearning/sma/entites/QLEntity.java:12-14 | returns the current name |
| Entities.QLEntity.SetName | src/ma/enset/qlearning/sma/entites/QLEntity.java:16-18 | changes the name and leaves the step count alone |
| Entities.QLEntity.GetStepsNb | src/ma/enset/qlearning/sma/entites/QLEntity.java:20-22 | returns the current step count |
| Entities.QLEntity.SetStepsNb | src/ma/enset/qlearning/sma/entites/QLEntity.java:24-26 | changes the step count and leaves the name alone |
| Entities.QLEntity.CompareTo | src/ma/enset/qlearning/sma/entites/QLEntity.java:28-37 | 1, -1 or 0 exactly when this step count is greater than, less than or equal to the other's |
| Entities.CompareAntisymmetric | src/ma/enset/qlearning/sma/entites/QLEntity.java:31-36 | swapping the operands negates the result |
| Entities.CompareReflexive | src/ma/enset/qlearning/sma/entites/QLEntity.java:31-36 | a report compares equal to itself |
| Entities.CompareTransitive | src/ma/enset/qlearning/sma/entites/QLEntity.java:29-36 | "not after" is transitive |
| Entities.CompareIgnoresName | src/ma/enset/qlearning/sma/entites/QLEntity.java:29-36 | reports with equal step counts compare alike with every report, whatever their names |
| Central.Insert | src/ma/enset/qlearning/sma/agents/CentralAgent.java:49 | one insertion step adds exactly the new report: a permutation of the old list plus it |
| Central.StableSort | src/ma/enset/qlearning/sma/agents/CentralAgent.java:49 | `Collections.sort` returns a permutation of the reports |
| Central.InsertSorted | src/ma/enset/qlearning/sma/agents/CentralAgent.java:49 | inserting into a sorted list keeps it sorted by step count |
| Central.InsertFilter | src/ma/enset/qlearning/sma/agents/CentralAgent.java:49 | inserting a report puts it after the reports with its step count and keeps the order of all the others |
| Central.StableSortSorted | src/ma/enset/qlearning/sma/agents/CentralAgent.java:49 | the sorted reports are non-decreasing by step count |
| Central.StableSortStable | src/ma/enset/qlearning/sma/agents/CentralAgent.java:49 | the sort is stable: the reports with each step count keep their arrival order |
| Central.WinnerIsFirstMinimum | src/ma/enset/qlearning/sma/agents/CentralAgent.java:49-51 | the head of the sort is a report with the least step count, and every report received before it took more steps |
| Central.StepsOf | src/ma/enset/qlearning/sma/entites/QLEntity.java:28-37 | the sort key of each report is its `stepsNb`, the one field `compareTo` reads |
| Central.LeaderboardOrder | src/ma/enset/qlearning/sma/agents/CentralAgent.java:49-51 | read through `stepsNb`: the sorted reports are ordered, and the head is the earliest report with the least step count |
| Central.TieGoesToEarliest | src/ma/enset/qlearning/sma/agents/CentralAgent.java:35-58 | the leaderboard example: after four reports, two tied on the least count, the central agent is done and names the earlier of the two |
| Central.CentralAgent.constructor | src/ma/enset/qlearning/sma/agents/CentralAgent.java:18-33 | no reports yet, and the counter at 0 |
| Central.CentralAgent.Action | src/ma/enset/qlearning/sma/agents/CentralAgent.java:35-44 | appends exactly one new `QLEntity(sender, steps)`, keeps the earlier reports, and advances the counter by one, so the list length equals the counter |
| Central.CentralAgent.Done | src/ma/enset/qlearning/sma/agents/CentralAgent.java:46-58 | false, with nothing changed, until the counter is AGENTS_NUMBER. Then the list becomes the stable sort of the reports and the answer is the head's name and steps: the least count, the earliest of any ties |

## Left out

- The JavaFX interface: buttons, grid pane, scene, button colours and texts, the input dialogs, alerts and `System.exit`. The answers to the dialogs are the inputs of `AppGui.NewApp`.
- Console output (`println`, `showQTable`, `showParameters`): it has no effect on the state.
- `java.util.Random`: each training step takes the values its generator would yield as a `Draw`. The greedy calls `chooseAction(0)` ignore their draw, because `nextDouble() < 0` never holds.
- `double` arithmetic: Q-values are exact reals, so rounding is not modelled. The `int` counters are unbounded; the budgets here (200000) are far from overflow.
- Learning.Learner.Train: the source's inner loop `while (!finished())` runs until a goal is reached, which may never happen. The model consumes one draw per step and stops with `completed` false when the draws run out.
- Learning.Learner.TrainEpochs: in the step-counted learners, a grid whose start (0, 0) is a goal makes the source repeat empty epochs for ever. The model stops there with `completed` false. The fixed 6 x 6 grid does not have this case.
- Learning.Learner.ShowResult: the rollout is bounded by `fuel` moves. The source loops for ever when the greedy road cycles without meeting a goal (`Rollout.CycleNeverReachesGoal`).
- Convergence of training and the length of the road after training are not claimed: they depend on the random draws and on floating point.
- `AppGui.NewApp` requires a grid size of at least 1 and a square grid. With size 0 the source's `finished()` would index an empty array.
- The JADE platform: directory registration and deregistration, `blockingReceive`, message senders, `Integer.valueOf` parsing and behaviour scheduling. `CentralAgent.Action` takes the sender's name and the parsed count as inputs. `SmaAgent.RunBehaviour` models only the scheduler's contract with a one-shot behaviour.
- In this version of `QLearningAgent`, the learner sends no report to the central agent. The leaderboard is fed only through `CentralAgent.Action`.
- `CentralContainer.java` and `SimpleContainer.java` only launch the platform and are not part of this model. Of `QLUtils.java` only `AGENTS_NUMBER` is used; its other constants are read by no modelled code.
