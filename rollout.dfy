/** The greedy rollout as a walk on a state graph: every state index has
    one successor, the state the greedy move leads to, and some states are
    goals. The walk starts at state 0, the cell (0, 0), and the rollout
    stops at the first goal it meets. */
module Rollout {

  /** `next[s]` is the successor of state s; `goal[s]` whether s is a goal. */
  datatype StateGraph = StateGraph(next: seq<int>, goal: seq<bool>)

  predicate IsGraph(gr: StateGraph) {
    |gr.next| == |gr.goal| && forall s | 0 <= s < |gr.next| :: 0 <= gr.next[s] < |gr.next|
  }

  /** The state reached from s after k moves. */
  function Walk(gr: StateGraph, s: int, k: nat): (r: int)
    requires IsGraph(gr) && 0 <= s < |gr.next|
    ensures 0 <= r < |gr.next|
    decreases k
  {
    if k == 0 then s else gr.next[Walk(gr, s, k - 1)]
  }

  /** The walk has no memory: a + b moves are a moves and then b more from
      where the first a ended. */
  lemma {:induction false} WalkCompose(gr: StateGraph, s: int, a: nat, b: nat)
    requires IsGraph(gr) && 0 <= s < |gr.next|
    ensures Walk(gr, s, a + b) == Walk(gr, Walk(gr, s, a), b)
    decreases b
  {
    if b > 0 {
      WalkCompose(gr, s, a, b - 1);
    }
  }

  /** The walk from state 0 stands on a goal after k moves. */
  predicate GoalAfter(gr: StateGraph, k: nat)
    requires IsGraph(gr) && |gr.next| > 0
  {
    gr.goal[Walk(gr, 0, k)]
  }

  /** The walk from state 0 meets no goal in its first k positions. */
  predicate NoGoalBefore(gr: StateGraph, k: nat)
    requires IsGraph(gr) && |gr.next| > 0
    decreases k
  {
    k == 0 || (NoGoalBefore(gr, k - 1) && !GoalAfter(gr, k - 1))
  }

  lemma {:induction false} NoGoalBeforeMeans(gr: StateGraph, k: nat)
    requires IsGraph(gr) && |gr.next| > 0
    ensures NoGoalBefore(gr, k) <==> forall m | 0 <= m < k :: !GoalAfter(gr, m)
    decreases k
  {
    if k > 0 {
      NoGoalBeforeMeans(gr, k - 1);
    }
  }

  /** k is the number of moves the rollout makes: the walk is on a goal
      after k moves and after no fewer. */
  predicate FirstGoal(gr: StateGraph, k: nat)
    requires IsGraph(gr) && |gr.next| > 0
  {
    GoalAfter(gr, k) && NoGoalBefore(gr, k)
  }

  /** The rollout count is a function of the graph: repeated rollouts on
      the same table make the same number of moves. */
  lemma FirstGoalUnique(gr: StateGraph, k1: nat, k2: nat)
    requires IsGraph(gr) && |gr.next| > 0
    requires FirstGoal(gr, k1) && FirstGoal(gr, k2)
    ensures k1 == k2
  {
    NoGoalBeforeMeans(gr, k1);
    NoGoalBeforeMeans(gr, k2);
  }

  /** Once the walk revisits a state without having met a goal, it cycles
      for ever and the rollout never ends: no goal at any later time. */
  lemma {:induction false} CycleNeverReachesGoal(gr: StateGraph, a: nat, b: nat, k: nat)
    requires IsGraph(gr) && |gr.next| > 0
    requires a < b && Walk(gr, 0, a) == Walk(gr, 0, b)
    requires NoGoalBefore(gr, b)
    ensures !GoalAfter(gr, k)
    decreases k
  {
    NoGoalBeforeMeans(gr, b);
    if k >= b {
      WalkCompose(gr, 0, a, k - b);
      WalkCompose(gr, 0, b, k - b);
      CycleNeverReachesGoal(gr, a, b, a + (k - b));
    }
  }

  /** The rollout as it runs: from s, stop on a goal, otherwise move on, at
      most `fuel` moves in all. The result says whether a goal was reached
      and how many moves were made. */
  function RunFrom(gr: StateGraph, s: int, fuel: nat): (r: (bool, nat))
    requires IsGraph(gr) && 0 <= s < |gr.next|
    ensures r.1 <= fuel
    ensures !r.0 ==> r.1 == fuel
    decreases fuel
  {
    if gr.goal[s] then (true, 0)
    else if fuel == 0 then (false, 0)
    else
      var r := RunFrom(gr, gr.next[s], fuel - 1);
      (r.0, r.1 + 1)
  }

  /** A run that is not on a goal and has fuel left makes one move and
      goes on from the successor. */
  lemma RunFromNext(gr: StateGraph, s: int, fuel: nat)
    requires IsGraph(gr) && 0 <= s < |gr.next|
    requires !gr.goal[s] && fuel > 0
    ensures var r := RunFrom(gr, gr.next[s], fuel - 1); RunFrom(gr, s, fuel) == (r.0, r.1 + 1)
  {
  }

  /** A run whose start is not a goal but whose first move lands on one
      reaches it in one move. */
  lemma OneMoveToGoal(gr: StateGraph, fuel: nat)
    requires IsGraph(gr) && |gr.next| > 0 && fuel >= 1
    requires !gr.goal[0] && gr.goal[gr.next[0]]
    ensures RunFrom(gr, 0, fuel) == (true, 1)
  {
    RunFromNext(gr, 0, fuel);
  }

  /** A run from 0 with `fuel` that has made i moves and stands on `cur`
      with `left` moves to go reports what the run from `cur` reports,
      with i more moves. */
  predicate Resumes(gr: StateGraph, fuel: nat, cur: int, left: nat, i: nat)
    requires IsGraph(gr) && |gr.next| > 0 && 0 <= cur < |gr.next|
  {
    var r := RunFrom(gr, cur, left);
    RunFrom(gr, 0, fuel) == (r.0, r.1 + i)
  }

  /** A move off a goal with fuel left keeps the run resumable from the
      successor. */
  lemma ResumesNext(gr: StateGraph, fuel: nat, cur: int, left: nat, i: nat)
    requires IsGraph(gr) && |gr.next| > 0 && 0 <= cur < |gr.next|
    requires Resumes(gr, fuel, cur, left, i) && !gr.goal[cur] && left > 0
    ensures Resumes(gr, fuel, gr.next[cur], left - 1, i + 1)
  {
    RunFromNext(gr, cur, left);
  }

  /** A resumable run that stands on a goal, or has no fuel left, is over:
      it reports the goal test and the moves made. */
  lemma ResumesEnd(gr: StateGraph, fuel: nat, cur: int, left: nat, i: nat)
    requires IsGraph(gr) && |gr.next| > 0 && 0 <= cur < |gr.next|
    requires Resumes(gr, fuel, cur, left, i) && (gr.goal[cur] || left == 0)
    ensures RunFrom(gr, 0, fuel) == (gr.goal[cur], i)
  {
  }

  /** What the run from s reports, read off the walk from s: no goal
      before the count; a goal at the count when the run succeeds, and
      none at the last position either when it runs out of fuel. */
  lemma {:induction false} RunFromWalk(gr: StateGraph, s: int, fuel: nat)
    requires IsGraph(gr) && 0 <= s < |gr.next|
    ensures var r := RunFrom(gr, s, fuel);
      (forall t | 0 <= t <= r.1 :: t < r.1 || !r.0 ==> !gr.goal[Walk(gr, s, t)]) &&
      (r.0 ==> gr.goal[Walk(gr, s, r.1)])
    decreases fuel
  {
    var r := RunFrom(gr, s, fuel);
    if !gr.goal[s] && fuel > 0 {
      RunFromWalk(gr, gr.next[s], fuel - 1);
      forall t | 1 <= t <= r.1
        ensures Walk(gr, s, t) == Walk(gr, gr.next[s], t - 1)
      {
        WalkCompose(gr, s, 1, t - 1);
      }
    }
  }

  /** The rollout from state 0 reaches a goal after c moves exactly when c
      is within the fuel and c is the first time the walk is on a goal. */
  lemma RunSucceeds(gr: StateGraph, fuel: nat, c: nat)
    requires IsGraph(gr) && |gr.next| > 0
    ensures RunFrom(gr, 0, fuel) == (true, c) <==> c <= fuel && FirstGoal(gr, c)
  {
    var r := RunFrom(gr, 0, fuel);
    RunFromWalk(gr, 0, fuel);
    NoGoalBeforeMeans(gr, c);
    if c <= fuel && FirstGoal(gr, c) {
      NoGoalBeforeMeans(gr, r.1);
      NoGoalBeforeMeans(gr, r.1 + 1);
    }
  }

  /** The rollout from state 0 runs out of fuel exactly when none of the
      first fuel + 1 positions of the walk is a goal. */
  lemma RunFails(gr: StateGraph, fuel: nat)
    requires IsGraph(gr) && |gr.next| > 0
    ensures !RunFrom(gr, 0, fuel).0 <==> NoGoalBefore(gr, fuel + 1)
  {
    var r := RunFrom(gr, 0, fuel);
    RunFromWalk(gr, 0, fuel);
    NoGoalBeforeMeans(gr, fuel + 1);
    if r.0 {
      assert GoalAfter(gr, r.1);
    }
  }
}
