/** The greedy half of the epsilon-greedy selector and the one-cell TD(0)
    update, as functions of a Q-table row and of plain values. */
module Policy {

  /** The running best `bestQ` once the greedy scan has read the whole of
      `row`: it starts at 0 and is raised only by a strictly larger entry,
      so it is the largest entry when one is positive and 0 otherwise. */
  function BestValue(row: seq<real>): (b: real)
    ensures b >= 0.0
    ensures forall k | 0 <= k < |row| :: row[k] <= b
    ensures b == 0.0 || exists k | 0 <= k < |row| :: row[k] == b
    decreases |row|
  {
    if |row| == 0 then 0.0
    else
      var prev := BestValue(row[..|row| - 1]);
      if row[|row| - 1] > prev then row[|row| - 1] else prev
  }

  /** What the greedy branch of `chooseAction` must return for `row`: the
      lowest index of the largest entry when some entry is strictly
      positive, and action 0 when none is. */
  predicate IsGreedyChoice(row: seq<real>, act: int) {
    0 <= act && (act < |row| || act == 0) &&
    if forall k | 0 <= k < |row| :: row[k] <= 0.0 then act == 0
    else
      act < |row| && row[act] > 0.0 &&
      (forall k | 0 <= k < |row| :: row[k] <= row[act]) &&
      (forall k | 0 <= k < act :: row[k] < row[act])
  }

  /** The greedy choice is determined by the row. */
  lemma GreedyChoiceUnique(row: seq<real>, a: int, b: int)
    requires IsGreedyChoice(row, a) && IsGreedyChoice(row, b)
    ensures a == b
  {
  }

  /** The action the greedy scan ends on: it moves to index k only when
      `row[k]` is strictly greater than the running best. */
  function GreedyAction(row: seq<real>): (act: nat)
    ensures act < |row| || act == 0
    decreases |row|
  {
    if |row| == 0 then 0
    else
      var prefix := row[..|row| - 1];
      if row[|row| - 1] > BestValue(prefix) then |row| - 1 else GreedyAction(prefix)
  }

  /** The scan's result is the greedy choice, and the running best it ends
      with is the value of that choice when positive, 0 otherwise. */
  lemma {:induction false} GreedyActionIsGreedy(row: seq<real>)
    ensures IsGreedyChoice(row, GreedyAction(row))
    ensures BestValue(row) == var act := GreedyAction(row);
      if act < |row| && row[act] > 0.0 then row[act] else 0.0
    decreases |row|
  {
    if |row| > 0 {
      var prefix := row[..|row| - 1];
      assert forall k | 0 <= k < |prefix| :: prefix[k] == row[k];
      GreedyActionIsGreedy(prefix);
    }
  }

  /** The value the greedy choice reads: the largest entry when one is
      positive, otherwise the FIRST entry, whatever its sign. */
  lemma {:induction false} GreedyValue(row: seq<real>)
    requires |row| > 0
    ensures GreedyAction(row) < |row|
    ensures (exists k | 0 <= k < |row| :: row[k] > 0.0) ==> row[GreedyAction(row)] == BestValue(row)
    ensures (forall k | 0 <= k < |row| :: row[k] <= 0.0) ==> row[GreedyAction(row)] == row[0]
  {
    var act := GreedyAction(row);
    GreedyActionIsGreedy(row);
    if exists k | 0 <= k < |row| :: row[k] > 0.0 {
      var k :| 0 <= k < |row| && row[k] > 0.0;
      assert row[act] >= row[k];
    }
  }

  /** A row with no positive entry, such as the all-zero row every state has
      before training, always yields action 0 (LEFT). */
  lemma {:induction false} NonPositiveRowYieldsFirst(row: seq<real>)
    requires forall k | 0 <= k < |row| :: row[k] <= 0.0
    ensures GreedyAction(row) == 0
  {
    GreedyActionIsGreedy(row);
  }

  /** On an all-zero row, as every row of a fresh table, the greedy
      choice is LEFT. */
  lemma ZeroRowYieldsFirst()
    ensures GreedyAction([0.0, 0.0, 0.0, 0.0]) == 0
  {
    NonPositiveRowYieldsFirst([0.0, 0.0, 0.0, 0.0]);
  }

  /** A row with a single positive value picks that value's action. */
  lemma SinglePositiveRow()
    ensures GreedyAction([0.0, 0.5, 0.0, 0.0]) == 1
  {
    var row := [0.0, 0.5, 0.0, 0.0];
    GreedyActionIsGreedy(row);
    assert IsGreedyChoice(row, 1);
    GreedyChoiceUnique(row, 1, GreedyAction(row));
  }

  /** The tie-break ignores negative values: on this row every action but
      LEFT is better, yet the greedy choice is LEFT. */
  lemma NegativeRowIsNotArgmax()
    ensures GreedyAction([-1.0, -0.5, -0.5, -0.5]) == 0
    ensures [-1.0, -0.5, -0.5, -0.5][0] < [-1.0, -0.5, -0.5, -0.5][1]
  {
    NonPositiveRowYieldsFirst([-1.0, -0.5, -0.5, -0.5]);
  }

  /** The Bellman target `reward + gamma * Q(next, nextBest)`: the reward
      alone when there is no discount or the state reached has no value
      yet, and never below the reward when neither is negative. */
  function Target(reward: real, gamma: real, nextQ: real): (t: real)
    ensures gamma == 0.0 || nextQ == 0.0 ==> t == reward
    ensures gamma >= 0.0 && nextQ >= 0.0 ==> t >= reward
  {
    reward + gamma * nextQ
  }

  /** The update `Q + alpha * (target - Q)` applied to one cell: with rate
      1 the cell takes the target, with rate 0 it keeps its value, and a
      cell already at its target stays there. */
  function Update(q: real, alpha: real, target: real): (r: real)
    ensures alpha == 1.0 ==> r == target
    ensures alpha == 0.0 ==> r == q
    ensures q == target ==> r == q
  {
    q + alpha * (target - q)
  }

  /** With a learning rate in (0, 1] the new value lies between the old
      value and the target, and strictly moves toward the target. */
  lemma {:induction false} UpdateMovesTowardTarget(q: real, alpha: real, target: real)
    requires 0.0 < alpha <= 1.0
    ensures q < target ==> q < Update(q, alpha, target) <= target
    ensures target < q ==> target <= Update(q, alpha, target) < q
  {
    var d := target - q;
    var step := alpha * d;
    assert Update(q, alpha, target) == q + step;
    if d > 0.0 {
      ScaledStep(alpha, d, step);
    } else if d < 0.0 {
      ScaledStep(alpha, -d, -step);
    }
  }

  /** A step of `alpha * d` toward a target d > 0 away stays in (0, d]. */
  lemma ScaledStep(alpha: real, d: real, step: real)
    requires 0.0 < alpha <= 1.0 && d > 0.0 && step == alpha * d
    ensures 0.0 < step <= d
  {
    assert d - step == (1.0 - alpha) * d;
  }
}
