/** The flat row-major board of lab6/astar.py: nine integers, 0 the blank;
    the moves of the blank on it and the two estimates the search uses. */
module FlatBoard {

  import opened Wrappers
  import opened Directions

  /** A board in row-major order; 0 is the blank. */
  type Board = b: seq<int> | |b| == 9 witness [1, 2, 3, 4, 5, 6, 7, 8, 0]

  /** The two estimates the solver is run with. */
  datatype Heuristic = MisplacedTilesCount | ManhattanSum

  // ---------------------------------------------------------------------------
  // Board operations

  /** The first index holding `v`, as `list.index` finds it; `None` where
      `list.index` raises. */
  function IndexOf(s: seq<int>, v: int): (r: Option<nat>)
    ensures r.Some? ==> r.value < |s| && s[r.value] == v
    ensures r.Some? ==> forall j :: 0 <= j < r.value ==> s[j] != v
    ensures r.None? <==> v !in s
  {
    if |s| == 0 then None
    else if s[0] == v then Some(0)
    else match IndexOf(s[1..], v)
      case None => None
      case Some(k) => Some(k + 1)
  }

  /** The position of the blank. */
  function BlankPos(b: Board): (r: Option<nat>)
    ensures r.Some? ==> r.value < 9 && b[r.value] == 0 && forall j :: 0 <= j < r.value ==> b[j] != 0
    ensures r.None? <==> 0 !in b
  {
    IndexOf(b, 0)
  }

  /** The board after the blank travels one step in direction `m`, or `None`
      when the board has no blank or the step leaves the grid. */
  function ApplyMove(b: Board, m: Move): Option<Board>
  {
    match BlankPos(b)
    case None => None
    case Some(k) =>
      match Neighbour(k, m)
      case None => None
      case Some(t) => Some(SwapAt(b, k, t))
  }

  /** The index the blank at index `k` moves to, as `expand` computes it
      with `divmod`, or `None` when that cell lies outside the grid. */
  function Neighbour(k: nat, m: Move): (r: Option<nat>)
    requires k < 9
    ensures r.Some? ==> r.value < 9 && r.value != k
  {
    if CanMove(k / 3, k % 3, m) then Some(Target(k / 3, k % 3, m).0 * 3 + Target(k / 3, k % 3, m).1) else None
  }

  /** A move rearranges the tiles and never adds, loses or duplicates one. */
  lemma ApplyMovePermutes(b: Board, m: Move)
    requires ApplyMove(b, m).Some?
    ensures multiset(ApplyMove(b, m).value) == multiset(b)
  {
    SwapIsPermutation(b, BlankPos(b).value, Neighbour(BlankPos(b).value, m).value);
  }

  /** At most one entry of `b` is the blank. */
  predicate SingleBlank(b: Board)
  {
    forall i, j :: 0 <= i < j < 9 && b[i] == 0 ==> b[j] != 0
  }

  /** On a board with a single blank the opposite move undoes a move. */
  lemma ApplyMoveRoundTrip(b: Board, m: Move)
    requires ApplyMove(b, m).Some?
    requires SingleBlank(b)
    ensures ApplyMove(ApplyMove(b, m).value, Opposite(m)) == Some(b)
  {
    var k := BlankPos(b).value;
    var t := Neighbour(k, m).value;
    var b' := ApplyMove(b, m).value;
    assert b'[t] == 0;
    assert forall j :: 0 <= j < 9 && j != t ==> b'[j] != 0;
    assert BlankPos(b') == Some(t);
    NeighbourOpposite(k, m);
    SwapTwiceRestores(b, k, t);
  }

  /** Moving back in the opposite direction returns to the starting index. */
  lemma NeighbourOpposite(k: nat, m: Move)
    requires k < 9 && Neighbour(k, m).Some?
    ensures Neighbour(Neighbour(k, m).value, Opposite(m)) == Some(k)
  {
    var t := Neighbour(k, m).value;
    NeighbourCell(k, m);
    StepBack(k, t, m);
  }

  /** For the blank at index `x * 3 + y`, the target index is that of the
      cell one step of `m` away, when that cell is in the grid. */
  lemma NeighbourOfCell(x: int, y: int, m: Move)
    requires InGrid(x, y)
    ensures Neighbour(x * 3 + y, m)
            == if CanMove(x, y, m) then Some(Target(x, y, m).0 * 3 + Target(x, y, m).1) else None
  {
    CellOfIndex(x * 3 + y, x, y);
  }

  /** The target index lies one step of `m` away, cell by cell. */
  lemma NeighbourCell(k: nat, m: Move)
    requires k < 9 && Neighbour(k, m).Some?
    ensures Neighbour(k, m).value / 3 == k / 3 + Delta(m).0
    ensures Neighbour(k, m).value % 3 == k % 3 + Delta(m).1
  {
    var (r, c) := Target(k / 3, k % 3, m);
    CellOfIndex(r * 3 + c, r, c);
  }

  /** From the cell one step of `m` away from index `k`, the opposite move
      leads back to `k`. */
  lemma StepBack(k: nat, t: nat, m: Move)
    requires k < 9 && t < 9
    requires t / 3 == k / 3 + Delta(m).0 && t % 3 == k % 3 + Delta(m).1
    ensures Neighbour(t, Opposite(m)) == Some(k)
  {
    assert Target(t / 3, t % 3, Opposite(m)) == (k / 3, k % 3);
    assert CanMove(t / 3, t % 3, Opposite(m));
  }

  /** Row-major index arithmetic: `divmod` by 3 recovers the cell of index
      `row * 3 + col`. */
  lemma CellOfIndex(t: int, row: int, col: int)
    requires t == row * 3 + col && 0 <= col < 3
    ensures t / 3 == row && t % 3 == col
  {
  }

  // ---------------------------------------------------------------------------
  // Heuristics

  /** The positions that `misplaced_tiles` counts. */
  ghost function MisplacedSet(b: Board, goal: Board, i: nat): set<nat>
  {
    set j: nat | i <= j < 9 && b[j] != 0 && b[j] != goal[j]
  }

  /** The number of non-blank tiles at positions `i..8` that differ from
      the goal. */
  function MisplacedFrom(b: Board, goal: Board, i: nat): (r: nat)
    requires i <= 9
    ensures r <= 9 - i
    ensures (exists j :: i <= j < 9 && b[j] == 0) ==> r <= 8 - i
    ensures (forall j :: i <= j < 9 ==> b[j] == goal[j]) ==> r == 0
    decreases 9 - i
  {
    if i == 9 then 0
    else (if b[i] != 0 && b[i] != goal[i] then 1 else 0) + MisplacedFrom(b, goal, i + 1)
  }

  /** The misplaced-tiles estimate: at most nine, at most eight when the
      board has a blank (the blank is never counted), zero on the goal. */
  function MisplacedTiles(b: Board, goal: Board): (r: nat)
    ensures r <= 9
    ensures 0 in b ==> r <= 8
    ensures b == goal ==> r == 0
  {
    MisplacedFrom(b, goal, 0)
  }

  /** The count is the number of positions holding a tile other than the
      blank and other than the goal's. */
  lemma {:induction false} MisplacedCountsSet(b: Board, goal: Board, i: nat)
    requires i <= 9
    ensures MisplacedFrom(b, goal, i) == |MisplacedSet(b, goal, i)|
    decreases 9 - i
  {
    if i == 9 {
      assert MisplacedSet(b, goal, i) == {};
    } else {
      MisplacedCountsSet(b, goal, i + 1);
      if b[i] != 0 && b[i] != goal[i] {
        assert MisplacedSet(b, goal, i) == {i} + MisplacedSet(b, goal, i + 1);
      } else {
        assert MisplacedSet(b, goal, i) == MisplacedSet(b, goal, i + 1);
      }
    }
  }

  /** The absolute value `abs`. */
  function Abs(x: int): nat
  {
    if x < 0 then -x else x
  }

  /** Grid distance between positions `i` and `j`. */
  function TileDistance(i: nat, j: nat): (r: nat)
    ensures i < 9 && j < 9 && i != j ==> r >= 1
  {
    Abs(i / 3 - j / 3) + Abs(i % 3 - j % 3)
  }

  /** The Manhattan sum over positions `i..8`; `None` where the goal lacks a
      tile of the board, where `list.index` raises. */
  function ManhattanFrom(b: Board, goal: Board, i: nat): (r: Option<nat>)
    requires i <= 9
    ensures r.Some? <==> forall j :: i <= j < 9 && b[j] != 0 ==> b[j] in goal
    decreases 9 - i
  {
    if i == 9 then Some(0)
    else if b[i] == 0 then ManhattanFrom(b, goal, i + 1)
    else match IndexOf(goal, b[i])
      case None => None
      case Some(g) =>
        match ManhattanFrom(b, goal, i + 1)
        case None => None
        case Some(d) => Some(TileDistance(i, g) + d)
  }

  /** The Manhattan-distance estimate. It is defined exactly when every tile
      of the board occurs in the goal. */
  function ManhattanDistance(b: Board, goal: Board): (r: Option<nat>)
    ensures r.Some? <==> forall j :: 0 <= j < 9 && b[j] != 0 ==> b[j] in goal
  {
    ManhattanFrom(b, goal, 0)
  }

  /** Where it is defined the Manhattan sum is never below the
      misplaced-tiles count: each misplaced tile is at least one step away
      from where the goal has it. */
  lemma {:induction false} ManhattanDominatesMisplaced(b: Board, goal: Board, i: nat)
    requires i <= 9 && ManhattanFrom(b, goal, i).Some?
    ensures ManhattanFrom(b, goal, i).value >= MisplacedFrom(b, goal, i)
    decreases 9 - i
  {
    if i < 9 {
      ManhattanDominatesMisplaced(b, goal, i + 1);
      if b[i] != 0 {
        var g := IndexOf(goal, b[i]).value;
        assert ManhattanFrom(b, goal, i).value == TileDistance(i, g) + ManhattanFrom(b, goal, i + 1).value;
        if b[i] != goal[i] {
          assert g != i;
        }
      }
    }
  }

  /** No tile other than the blank occurs twice. */
  predicate DistinctTiles(s: Board)
  {
    forall i, j :: 0 <= i < j < 9 && s[i] != 0 ==> s[i] != s[j]
  }

  /** On the goal itself the Manhattan distance is zero. */
  lemma {:induction false} ManhattanZeroAtGoal(goal: Board, i: nat)
    requires DistinctTiles(goal) && i <= 9
    ensures ManhattanFrom(goal, goal, i) == Some(0)
    decreases 9 - i
  {
    if i < 9 {
      ManhattanZeroAtGoal(goal, i + 1);
      if goal[i] != 0 {
        IndexOfDistinct(goal, i);
        assert ManhattanFrom(goal, goal, i) == Some(TileDistance(i, i) + 0);
      }
    }
  }

  /** A tile that occurs once is found at its own position. */
  lemma IndexOfDistinct(goal: Board, i: nat)
    requires DistinctTiles(goal) && i < 9 && goal[i] != 0
    ensures IndexOf(goal, goal[i]) == Some(i)
  {
    forall j | 0 <= j < i
      ensures goal[j] != goal[i]
    {
      if goal[j] != 0 {
        assert goal[j] != goal[i];
      }
    }
    IndexOfAt(goal, goal[i], i);
  }

  /** `list.index` finds the first occurrence. */
  lemma IndexOfAt(s: seq<int>, v: int, i: nat)
    requires i < |s| && s[i] == v && forall j :: 0 <= j < i ==> s[j] != v
    ensures IndexOf(s, v) == Some(i)
  {
    assert v in s;
  }

  /** Some tile of `b` other than the blank is missing from `goal`: the
      Manhattan estimate's `goal.index` raises on it. */
  predicate ForeignTile(b: Board, goal: Board)
  {
    exists j :: 0 <= j < 9 && b[j] != 0 && b[j] !in goal
  }

  /** Boards holding the same tiles have the same foreign tiles. */
  lemma ForeignTilePermutes(b: Board, c: Board, goal: Board)
    requires multiset(b) == multiset(c)
    ensures ForeignTile(b, goal) <==> ForeignTile(c, goal)
  {
    if ForeignTile(b, goal) {
      var j :| 0 <= j < 9 && b[j] != 0 && b[j] !in goal;
      assert b[j] in multiset(c);
      var k :| 0 <= k < 9 && c[k] == b[j];
    }
    if ForeignTile(c, goal) {
      var j :| 0 <= j < 9 && c[j] != 0 && c[j] !in goal;
      assert c[j] in multiset(b);
      var k :| 0 <= k < 9 && b[k] == c[j];
    }
  }

  /** The estimate `h` in use. It fails exactly where the source raises:
      under the Manhattan distance, on a board with a tile the goal lacks.
      Where it is defined it is never below the misplaced-tiles count, and on
      a goal with distinct tiles the goal itself is estimated at zero. */
  function Estimate(h: Heuristic, b: Board, goal: Board): (r: Option<nat>)
    ensures h == MisplacedTilesCount ==> r == Some(MisplacedTiles(b, goal))
    ensures h == ManhattanSum ==> r == ManhattanDistance(b, goal)
    ensures r.None? <==> h == ManhattanSum && ForeignTile(b, goal)
    ensures r.Some? ==> MisplacedTiles(b, goal) <= r.value
    ensures b == goal && DistinctTiles(goal) ==> r == Some(0)
  {
    match h
    case MisplacedTilesCount => Some(MisplacedTiles(b, goal))
    case ManhattanSum =>
      ManhattanFacts(b, goal);
      ManhattanDistance(b, goal)
  }

  /** The Manhattan distance dominates the misplaced-tiles count and is zero
      on a goal with distinct tiles. */
  lemma ManhattanFacts(b: Board, goal: Board)
    ensures ManhattanDistance(b, goal).Some? ==> MisplacedTiles(b, goal) <= ManhattanDistance(b, goal).value
    ensures b == goal && DistinctTiles(goal) ==> ManhattanDistance(b, goal) == Some(0)
  {
    if ManhattanDistance(b, goal).Some? {
      ManhattanDominatesMisplaced(b, goal, 0);
    }
    if b == goal && DistinctTiles(goal) {
      ManhattanZeroAtGoal(goal, 0);
    }
  }
}
