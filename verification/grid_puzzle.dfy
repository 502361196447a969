/** The nested-list board of lab2/8puzzle.py: three rows of three integers,
    0 the blank, and the moves of the blank on it. Each operation is tied to
    its counterpart on the flat row-major board of the A* solver, so the two
    solvers are shown to move tiles identically. */
module GridPuzzle {

  import opened Wrappers
  import opened Directions
  import FlatBoard

  /** Three rows of three cells. */
  type Grid = g: seq<seq<int>> | |g| == 3 && forall i :: 0 <= i < 3 ==> |g[i]| == 3
    witness [[1, 2, 3], [4, 5, 6], [7, 8, 0]]

  /** `GOAL_STATE`. */
  const Goal: Grid := [[1, 2, 3], [4, 5, 6], [7, 8, 0]]

  /** Cell (a, b) comes before cell (c, d) in row-major order. */
  predicate Before(a: int, b: int, c: int, d: int)
  {
    a < c || (a == c && b < d)
  }

  // ---------------------------------------------------------------------------
  // Finding the blank

  /** The nested loops of `find_blank`, resumed at cell (i, j): the first cell
      from there on, in row-major order, that holds 0. */
  function FindBlankFrom(g: Grid, i: nat, j: nat): (r: Option<(nat, nat)>)
    requires i <= 3 && j <= 3
    ensures r.Some? ==> InGrid(r.value.0, r.value.1) && g[r.value.0][r.value.1] == 0
    ensures r.Some? ==> !Before(r.value.0, r.value.1, i, j)
    ensures r.Some? ==> forall a, b :: InGrid(a, b) && !Before(a, b, i, j) && Before(a, b, r.value.0, r.value.1) ==>
              g[a][b] != 0
    ensures r.None? <==> forall a, b :: InGrid(a, b) && !Before(a, b, i, j) ==> g[a][b] != 0
    decreases 3 - i, 3 - j
  {
    if i == 3 then None
    else if j == 3 then FindBlankFrom(g, i + 1, 0)
    else if g[i][j] == 0 then Some((i, j))
    else FindBlankFrom(g, i, j + 1)
  }

  /** `find_blank`: the first cell in row-major order holding 0; `None` where
      the loops fall through without returning. */
  function FindBlank(g: Grid): (r: Option<(nat, nat)>)
    ensures r.Some? ==> InGrid(r.value.0, r.value.1) && g[r.value.0][r.value.1] == 0
    ensures r.Some? ==> forall a, b :: InGrid(a, b) && Before(a, b, r.value.0, r.value.1) ==> g[a][b] != 0
    ensures r.None? <==> forall a, b :: InGrid(a, b) ==> g[a][b] != 0
  {
    FindBlankFrom(g, 0, 0)
  }

  // ---------------------------------------------------------------------------
  // The grid as a flat board

  /** The cells in row-major order. */
  function Flatten(g: Grid): (r: FlatBoard.Board)
    ensures forall a, b :: InGrid(a, b) ==> r[a * 3 + b] == g[a][b]
  {
    g[0] + g[1] + g[2]
  }

  /** Index `k` of the flat board is cell (k / 3, k % 3) of the grid. */
  lemma FlattenAt(g: Grid, k: int)
    requires 0 <= k < 9
    ensures Flatten(g)[k] == g[k / 3][k % 3]
  {
    FlatBoard.CellOfIndex(k, k / 3, k % 3);
  }

  /** Distinct grids have distinct flat boards. */
  lemma FlattenInjective(g: Grid, h: Grid)
    requires Flatten(g) == Flatten(h)
    ensures g == h
  {
    forall i | 0 <= i < 3
      ensures g[i] == h[i]
    {
      forall j | 0 <= j < 3
        ensures g[i][j] == h[i][j]
      {
        assert Flatten(g)[i * 3 + j] == Flatten(h)[i * 3 + j];
      }
    }
  }

  /** The blank found on the grid is the blank found on the flat board. */
  lemma BlankAgrees(g: Grid)
    ensures FindBlank(g).None? <==> FlatBoard.BlankPos(Flatten(g)).None?
    ensures FindBlank(g).Some? ==>
              FlatBoard.BlankPos(Flatten(g)) == Some(FindBlank(g).value.0 * 3 + FindBlank(g).value.1)
  {
    if FindBlank(g).None? {
      NoBlankAgrees(g);
    } else {
      BlankAtAgrees(g, FindBlank(g).value.0, FindBlank(g).value.1);
    }
  }

  /** A grid without a blank flattens to a board without one. */
  lemma NoBlankAgrees(g: Grid)
    requires FindBlank(g).None?
    ensures FlatBoard.BlankPos(Flatten(g)).None?
  {
    var f := Flatten(g);
    forall k | 0 <= k < 9
      ensures f[k] != 0
    {
      FlattenAt(g, k);
    }
  }

  /** The grid's first blank at (x, y) is the flat board's first 0, at
      index `x * 3 + y`. */
  lemma BlankAtAgrees(g: Grid, x: nat, y: nat)
    requires FindBlank(g) == Some((x, y))
    ensures FlatBoard.BlankPos(Flatten(g)) == Some(x * 3 + y)
  {
    var f := Flatten(g);
    forall k | 0 <= k < x * 3 + y
      ensures f[k] != 0
    {
      FlattenAt(g, k);
      assert Before(k / 3, k % 3, x, y);
    }
    FlatBoard.IndexOfAt(f, 0, x * 3 + y);
  }

  // ---------------------------------------------------------------------------
  // Moves

  /** The tuple swap of `get_neighbors`: cells (x, y) and (nx, ny) trade
      contents. */
  function Swap(g: Grid, x: int, y: int, nx: int, ny: int): (r: Grid)
    requires InGrid(x, y) && InGrid(nx, ny)
    ensures r[x][y] == g[nx][ny] && r[nx][ny] == g[x][y]
    ensures forall a, b :: InGrid(a, b) && !(a == x && b == y) && !(a == nx && b == ny) ==> r[a][b] == g[a][b]
  {
    var t := g[x := g[x][y := g[nx][ny]]];
    t[nx := t[nx][ny := g[x][y]]]
  }

  /** Swapping two cells of the grid swaps the two entries of the flat
      board. */
  lemma FlattenSwap(g: Grid, x: int, y: int, nx: int, ny: int)
    requires InGrid(x, y) && InGrid(nx, ny)
    ensures Flatten(Swap(g, x, y, nx, ny)) == SwapAt(Flatten(g), x * 3 + y, nx * 3 + ny)
  {
    var l, r := Flatten(Swap(g, x, y, nx, ny)), SwapAt(Flatten(g), x * 3 + y, nx * 3 + ny);
    forall k | 0 <= k < 9
      ensures l[k] == r[k]
    {
      FlattenAt(Swap(g, x, y, nx, ny), k);
      FlattenAt(g, k);
    }
  }

  /** The board after the blank travels one step in direction `m`, as one
      entry of `get_neighbors` builds it; `None` when there is no blank or the
      step leaves the grid. */
  function ApplyMove(g: Grid, m: Move): Option<Grid>
  {
    match FindBlank(g)
    case None => None
    case Some((x, y)) =>
      if CanMove(x, y, m) then Some(Swap(g, x, y, Target(x, y, m).0, Target(x, y, m).1)) else None
  }

  /** A move on the grid is the same move on the flat board. */
  lemma ApplyMoveAgrees(g: Grid, m: Move)
    ensures ApplyMove(g, m).None? <==> FlatBoard.ApplyMove(Flatten(g), m).None?
    ensures ApplyMove(g, m).Some? ==> FlatBoard.ApplyMove(Flatten(g), m) == Some(Flatten(ApplyMove(g, m).value))
  {
    BlankAgrees(g);
    if FindBlank(g).Some? {
      var (x, y) := FindBlank(g).value;
      MoveAtAgrees(g, x, y, m);
    }
  }

  /** The blank at cell `(x, y)` of the grid is at index `x * 3 + y` of the
      flat board, and the move agrees there. */
  lemma MoveAtAgrees(g: Grid, x: nat, y: nat, m: Move)
    requires InGrid(x, y) && FlatBoard.BlankPos(Flatten(g)) == Some(x * 3 + y)
    ensures CanMove(x, y, m) ==>
              FlatBoard.ApplyMove(Flatten(g), m) == Some(Flatten(Swap(g, x, y, Target(x, y, m).0, Target(x, y, m).1)))
    ensures !CanMove(x, y, m) ==> FlatBoard.ApplyMove(Flatten(g), m).None?
  {
    FlatBoard.NeighbourOfCell(x, y, m);
    if CanMove(x, y, m) {
      var (nx, ny) := Target(x, y, m);
      FlattenSwap(g, x, y, nx, ny);
    }
  }

  /** A move rearranges the nine cells and never adds, loses or duplicates
      a tile. */
  lemma ApplyMovePermutes(g: Grid, m: Move)
    requires ApplyMove(g, m).Some?
    ensures multiset(Flatten(ApplyMove(g, m).value)) == multiset(Flatten(g))
  {
    ApplyMoveAgrees(g, m);
    FlatBoard.ApplyMovePermutes(Flatten(g), m);
  }

  /** With at most one blank on the grid, the opposite move undoes a move. */
  lemma ApplyMoveRoundTrip(g: Grid, m: Move)
    requires ApplyMove(g, m).Some?
    requires FlatBoard.SingleBlank(Flatten(g))
    ensures ApplyMove(ApplyMove(g, m).value, Opposite(m)) == Some(g)
  {
    var h := ApplyMove(g, m).value;
    ApplyMoveAgrees(g, m);
    FlatBoard.ApplyMoveRoundTrip(Flatten(g), m);
    ApplyMoveAgrees(h, Opposite(m));
    FlattenInjective(ApplyMove(h, Opposite(m)).value, g);
  }

  /** After a move the blank sits on the target cell, so the board still has
      a blank. */
  lemma MovedHasBlank(g: Grid, m: Move)
    requires ApplyMove(g, m).Some?
    ensures FindBlank(ApplyMove(g, m).value).Some?
  {
    var (x, y) := FindBlank(g).value;
    var (nx, ny) := Target(x, y, m);
    assert ApplyMove(g, m).value[nx][ny] == 0;
  }

  // ---------------------------------------------------------------------------
  // Neighbours

  /** The loop of `get_neighbors` over the directions `AllMoves[i..]`, blank
      at (x, y): one entry per direction whose target passes `is_valid`. */
  function NeighborsFrom(g: Grid, x: nat, y: nat, i: nat): (r: seq<(Move, Grid)>)
    requires FindBlank(g) == Some((x, y)) && i <= 4
    ensures forall k :: 0 <= k < |r| ==> ApplyMove(g, r[k].0) == Some(r[k].1)
    decreases 4 - i
  {
    if i == 4 then []
    else
      var m := AllMoves[i];
      var rest := NeighborsFrom(g, x, y, i + 1);
      if CanMove(x, y, m) then
        GridMoveApplies(g, x, y, m);
        [(m, Swap(g, x, y, Target(x, y, m).0, Target(x, y, m).1))] + rest
      else rest
  }

  /** With the blank at (x, y), an in-grid move swaps it with the target
      cell. */
  lemma GridMoveApplies(g: Grid, x: nat, y: nat, m: Move)
    requires FindBlank(g) == Some((x, y)) && CanMove(x, y, m)
    ensures ApplyMove(g, m) == Some(Swap(g, x, y, Target(x, y, m).0, Target(x, y, m).1))
  {
  }

  /** `get_neighbors`: the successor boards, each tagged with its move;
      `None` when the board has no blank, where unpacking the result of
      `find_blank` raises. */
  function Neighbors(g: Grid): (r: Option<seq<(Move, Grid)>>)
    ensures r.None? <==> FindBlank(g).None?
    ensures r.Some? ==> forall k :: 0 <= k < |r.value| ==> ApplyMove(g, r.value[k].0) == Some(r.value[k].1)
  {
    match FindBlank(g)
    case None => None
    case Some((x, y)) => Some(NeighborsFrom(g, x, y, 0))
  }

  /** The entries follow the in-grid directions one for one, in enumeration
      order. */
  lemma {:induction false} NeighborsFollowGrid(g: Grid, x: nat, y: nat, i: nat)
    requires FindBlank(g) == Some((x, y)) && i <= 4
    ensures |NeighborsFrom(g, x, y, i)| == |MovesInGrid(x, y, i)|
    ensures forall k :: 0 <= k < |NeighborsFrom(g, x, y, i)| ==> NeighborsFrom(g, x, y, i)[k].0 == MovesInGrid(x, y, i)[k]
    decreases 4 - i
  {
    if i < 4 {
      NeighborsFollowGrid(g, x, y, i + 1);
      NeighborsFromStep(g, x, y, i);
      MovesInGridStep(x, y, i);
    }
  }

  /** One step of the loop: the entry for `AllMoves[i]`, when it applies,
      comes before the entries of the later directions. */
  lemma NeighborsFromStep(g: Grid, x: nat, y: nat, i: nat)
    requires FindBlank(g) == Some((x, y)) && i < 4
    ensures CanMove(x, y, AllMoves[i]) ==>
              |NeighborsFrom(g, x, y, i)| == |NeighborsFrom(g, x, y, i + 1)| + 1 &&
              NeighborsFrom(g, x, y, i)[0].0 == AllMoves[i] &&
              NeighborsFrom(g, x, y, i)[1..] == NeighborsFrom(g, x, y, i + 1)
    ensures !CanMove(x, y, AllMoves[i]) ==> NeighborsFrom(g, x, y, i) == NeighborsFrom(g, x, y, i + 1)
  {
  }

  /** Every move that applies appears among the neighbours. */
  lemma NeighborsComplete(g: Grid, m: Move)
    requires ApplyMove(g, m).Some?
    ensures Neighbors(g).Some?
    ensures exists k :: 0 <= k < |Neighbors(g).value| && Neighbors(g).value[k].0 == m
  {
    var (x, y) := FindBlank(g).value;
    MovesInGridComplete(x, y, 0, m);
    var grid := MovesInGrid(x, y, 0);
    var k :| 0 <= k < |grid| && grid[k] == m;
    NeighborsFollowGrid(g, x, y, 0);
    assert NeighborsFrom(g, x, y, 0)[k].0 == m;
  }

  /** The neighbours come in the order Up, Down, Left, Right. */
  lemma NeighborsOrdered(g: Grid)
    requires Neighbors(g).Some?
    ensures forall k, l :: 0 <= k < l < |Neighbors(g).value| ==>
              Rank(Neighbors(g).value[k].0) < Rank(Neighbors(g).value[l].0)
  {
    var (x, y) := FindBlank(g).value;
    NeighborsFollowGrid(g, x, y, 0);
    MovesInGridOrdered(x, y, 0);
  }

  /** A board with a blank has two to four neighbours: two from a corner,
      three from an edge, four from the centre. */
  lemma NeighborsCount(g: Grid)
    requires FindBlank(g).Some?
    ensures 2 <= |Neighbors(g).value| <= 4
    ensures |Neighbors(g).value| == 4 <==> FindBlank(g) == Some((1, 1))
  {
    var (x, y) := FindBlank(g).value;
    NeighborsFollowGrid(g, x, y, 0);
    InGridMoveCount(x, y);
  }

  // ---------------------------------------------------------------------------
  // Paths

  /** The board reached from `s` by the moves of `p` in order; `None` as
      soon as one of them does not apply. */
  function ApplyPath(s: Grid, p: seq<Move>): Option<Grid>
    decreases |p|
  {
    if p == [] then Some(s)
    else match ApplyPath(s, p[..|p| - 1])
      case None => None
      case Some(t) => ApplyMove(t, p[|p| - 1])
  }

  /** Extending a path by one move applies that move to where the path
      ends. */
  lemma ApplyPathSnoc(s: Grid, p: seq<Move>, m: Move)
    requires ApplyPath(s, p).Some?
    ensures ApplyPath(s, p + [m]) == ApplyMove(ApplyPath(s, p).value, m)
  {
    assert (p + [m])[..|p|] == p;
  }

  /** A board reached by at least one move has a blank. */
  lemma ReachedHasBlank(s: Grid, p: seq<Move>)
    requires ApplyPath(s, p).Some? && p != []
    ensures FindBlank(ApplyPath(s, p).value).Some?
  {
    MovedHasBlank(ApplyPath(s, p[..|p| - 1]).value, p[|p| - 1]);
  }

  /** The entry `e` of the queue is a board together with a path that
      leads to it from `start`. */
  predicate Reached(start: Grid, e: (Grid, seq<Move>))
  {
    ApplyPath(start, e.1) == Some(e.0)
  }
}
