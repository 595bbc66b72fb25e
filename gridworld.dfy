/** The grid world shared by every learner: the four moves and their deltas,
    the clamped transition, the state index, the goal test, the names the
    rollout prints for each move, and the fixed 6x6 grid of the learners
    that do not ask the user for one. */
module GridWorld {

  /** The `actions` table, indexed by action: (row delta, column delta),
      in the order LEFT, RIGHT, BOTTOM, TOP. */
  const Actions: seq<(int, int)> := [(0, -1), (0, 1), (1, 0), (-1, 0)]

  /** ACTIONS_SIZE: the number of actions and of columns of the Q-table. */
  const ActionsSize: int := 4

  predicate IsAction(act: int) {
    0 <= act < ActionsSize
  }

  /** A square grid of n rows of n cell codes. */
  predicate IsGrid(g: seq<seq<int>>, n: int) {
    n >= 1 && |g| == n && forall r | 0 <= r < n :: |g[r]| == n
  }

  predicate InBounds(n: int, i: int, j: int) {
    0 <= i < n && 0 <= j < n
  }

  /** The cell code at (i, j), which is also the reward for entering it. */
  function Cell(g: seq<seq<int>>, n: int, i: int, j: int): int
    requires IsGrid(g, n) && InBounds(n, i, j)
  {
    g[i][j]
  }

  /** `finished()`: the cell at (i, j) is the goal, coded 1. */
  predicate IsGoal(g: seq<seq<int>>, n: int, i: int, j: int)
    requires IsGrid(g, n) && InBounds(n, i, j)
  {
    g[i][j] == 1
  }

  function Min(a: int, b: int): int { if a <= b then a else b }

  function Max(a: int, b: int): int { if a >= b then a else b }

  /** `Math.max(0, Math.min(v, n - 1))`: a coordinate forced into the grid. */
  function Clamp(v: int, n: int): (r: int)
    requires n >= 1
    ensures 0 <= r < n
    ensures 0 <= v < n ==> r == v
    ensures v < 0 ==> r == 0
    ensures v >= n ==> r == n - 1
  {
    Max(0, Min(v, n - 1))
  }

  /** `executeAction`'s new position: each coordinate moves by the action's
      delta and is clamped on its own, so a move into a wall leaves that
      coordinate where it was, and at most one coordinate changes. */
  function Move(n: int, i: int, j: int, act: int): (p: (int, int))
    requires n >= 1 && InBounds(n, i, j) && IsAction(act)
    ensures InBounds(n, p.0, p.1)
  {
    (Clamp(Actions[act].0 + i, n), Clamp(Actions[act].1 + j, n))
  }

  /** A move into a wall leaves that coordinate where it was, and at most
      one coordinate changes, by one. */
  lemma MoveEffect(n: int, i: int, j: int, act: int)
    requires n >= 1 && InBounds(n, i, j) && IsAction(act)
    ensures var p := Move(n, i, j, act);
      && p.0 == (if 0 <= i + Actions[act].0 < n then i + Actions[act].0 else i)
      && p.1 == (if 0 <= j + Actions[act].1 < n then j + Actions[act].1 else j)
      && ((p.0 == i && -1 <= p.1 - j <= 1) || (p.1 == j && -1 <= p.0 - i <= 1))
  {
  }

  /** The row-major state index `stateI * gridSize + stateJ`; it names a
      row of the Q-table and decodes back to the position. */
  function Index(n: int, i: int, j: int): (s: int)
    requires n >= 1 && InBounds(n, i, j)
    ensures 0 <= s < n * n
  {
    IndexDecode(n, i, j);
    i * n + j
  }

  /** The index decodes back to the position: row `s / n`, column `s % n`. */
  lemma IndexDecode(n: int, i: int, j: int)
    requires n >= 1 && InBounds(n, i, j)
    ensures 0 <= i * n + j < n * n
    ensures (i * n + j) / n == i && (i * n + j) % n == j
  {
    var s := i * n + j;
    assert i * n <= (n - 1) * n by { MulLeq(i, n - 1, n); }
    assert (n - 1) * n + j < n * n;
    var q, r := s / n, s % n;
    assert (q - i) * n == j - r;
    MulSmall(q - i, n);
  }

  lemma MulLeq(a: int, b: int, n: int)
    requires 0 <= n && a <= b
    ensures a * n <= b * n
  {
    assert b * n - a * n == (b - a) * n;
  }

  lemma MulSmall(x: int, n: int)
    requires n >= 1 && -n < x * n < n
    ensures x == 0
  {
    if x >= 1 {
      MulLeq(1, x, n);
    } else if x <= -1 {
      MulLeq(x, -1, n);
    }
  }

  /** The cell a state index stands for: row `s / n`, column `s % n`. */
  function StateCell(n: int, s: int): (p: (int, int))
    requires n >= 1 && 0 <= s < n * n
    ensures InBounds(n, p.0, p.1) && Index(n, p.0, p.1) == s
  {
    IndexOnto(n, s);
    (s / n, s % n)
  }

  /** Every state index below n * n is the index of a cell. */
  lemma IndexOnto(n: int, s: int)
    requires n >= 1 && 0 <= s < n * n
    ensures InBounds(n, s / n, s % n) && (s / n) * n + s % n == s
  {
    var q, r := s / n, s % n;
    assert q * n + r == s;
    if q >= n {
      MulLeq(n, q, n);
    }
  }

  /** Two positions share a Q-table row only if they are the same cell. */
  lemma {:induction false} IndexInjective(n: int, i: int, j: int, i2: int, j2: int)
    requires n >= 1 && InBounds(n, i, j) && InBounds(n, i2, j2)
    requires Index(n, i, j) == Index(n, i2, j2)
    ensures i == i2 && j == j2
  {
    IndexDecode(n, i, j);
    IndexDecode(n, i2, j2);
  }

  /** `directions` (spelt `derections` in two of the learners): the name
      printed for an action, a blank for anything else. */
  function Directions(act: int): (name: string)
    ensures IsAction(act) <==> name != " "
    ensures act == 0 <==> name == "LEFT"
    ensures act == 1 <==> name == "RIGHT"
    ensures act == 2 <==> name == "BOTTOM"
    ensures act == 3 <==> name == "TOP"
  {
    match act
    case 0 => "LEFT"
    case 1 => "RIGHT"
    case 2 => "BOTTOM"
    case 3 => "TOP"
    case _ => " "
  }

  /** The fixed grid of the learners that do not read one from the user. */
  const SixBySix: seq<seq<int>> := [
    [ 0,  0,  0, -1,  0,  0],
    [-1,  0,  0,  0, -1,  0],
    [ 0,  0, -1,  0,  0, -1],
    [ 0, -1,  1, -1,  0,  0],
    [ 0,  0,  0,  0, -1,  0],
    [-1,  0, -1,  0,  0,  0]
  ]

  /** The fixed grid is 6x6, has exactly one goal cell, at (3, 2), and the
      start cell (0, 0) is neutral, so every epoch takes at least one step. */
  lemma {:induction false} SixBySixShape()
    ensures IsGrid(SixBySix, 6)
    ensures Cell(SixBySix, 6, 0, 0) == 0
    ensures forall i, j | InBounds(6, i, j) :: IsGoal(SixBySix, 6, i, j) <==> (i == 3 && j == 2)
  {
    assert IsGrid(SixBySix, 6);
    forall i, j | InBounds(6, i, j)
      ensures IsGoal(SixBySix, 6, i, j) <==> (i == 3 && j == 2)
    {
      assert j == 0 || j == 1 || j == 2 || j == 3 || j == 4 || j == 5;
    }
  }
}
