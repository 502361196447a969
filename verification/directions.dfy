/** The direction table shared by both sliding-puzzle solvers: each move names
    the direction in which the blank travels, in the fixed order Up, Down,
    Left, Right that both solvers enumerate. */
module Directions {

  datatype Move = Up | Down | Left | Right

  /** The enumeration order of the direction table. */
  const AllMoves: seq<Move> := [Up, Down, Left, Right]

  /** Position of a move in `AllMoves`. */
  function Rank(m: Move): (r: nat)
    ensures r < 4
  {
    match m
    case Up => 0
    case Down => 1
    case Left => 2
    case Right => 3
  }

  /** The (row, column) offset the blank travels by. */
  function Delta(m: Move): (int, int)
  {
    match m
    case Up => (-1, 0)
    case Down => (1, 0)
    case Left => (0, -1)
    case Right => (0, 1)
  }

  /** The cell the blank at (row, col) would move to. */
  function Target(row: int, col: int, m: Move): (int, int)
  {
    (row + Delta(m).0, col + Delta(m).1)
  }

  /** The bounds test of the 3x3 grid. */
  predicate InGrid(row: int, col: int)
  {
    0 <= row < 3 && 0 <= col < 3
  }

  /** The move that undoes `m`. */
  function Opposite(m: Move): (r: Move)
    ensures Delta(r) == (-Delta(m).0, -Delta(m).1)
  {
    match m
    case Up => Down
    case Down => Up
    case Left => Right
    case Right => Left
  }

  /** `AllMoves` lists every move exactly once, in rank order. */
  lemma AllMovesInRankOrder()
    ensures forall k :: 0 <= k < |AllMoves| ==> Rank(AllMoves[k]) == k
    ensures forall m: Move :: AllMoves[Rank(m)] == m
  {
  }

  /** The blank at (row, col) can travel in direction `m`. */
  predicate CanMove(row: int, col: int, m: Move)
  {
    InGrid(Target(row, col, m).0, Target(row, col, m).1)
  }

  /** The moves of `AllMoves[i..]` that keep the blank inside the grid, in
      enumeration order. */
  function MovesInGrid(row: int, col: int, i: nat): seq<Move>
    requires i <= |AllMoves|
    decreases |AllMoves| - i
  {
    if i == |AllMoves| then []
    else (if CanMove(row, col, AllMoves[i]) then [AllMoves[i]] else []) + MovesInGrid(row, col, i + 1)
  }

  /** A move is kept exactly when its target lies inside the grid. */
  lemma {:induction false} MovesInGridComplete(row: int, col: int, i: nat, m: Move)
    requires i <= |AllMoves|
    ensures m in MovesInGrid(row, col, i) <==> Rank(m) >= i && CanMove(row, col, m)
    decreases |AllMoves| - i
  {
    if i < |AllMoves| {
      MovesInGridComplete(row, col, i + 1, m);
      AllMovesInRankOrder();
    }
  }

  /** One step of the filter: `AllMoves[i]` is kept exactly when it stays in
      the grid. */
  lemma MovesInGridStep(row: int, col: int, i: nat)
    requires i < |AllMoves|
    ensures CanMove(row, col, AllMoves[i]) ==>
              MovesInGrid(row, col, i) == [AllMoves[i]] + MovesInGrid(row, col, i + 1)
    ensures !CanMove(row, col, AllMoves[i]) ==> MovesInGrid(row, col, i) == MovesInGrid(row, col, i + 1)
  {
  }

  /** The in-grid moves come in strictly increasing rank, none below `i`. */
  lemma {:induction false} MovesInGridOrdered(row: int, col: int, i: nat)
    requires i <= |AllMoves|
    ensures forall k :: 0 <= k < |MovesInGrid(row, col, i)| ==> Rank(MovesInGrid(row, col, i)[k]) >= i
    ensures forall k, l :: 0 <= k < l < |MovesInGrid(row, col, i)| ==>
              Rank(MovesInGrid(row, col, i)[k]) < Rank(MovesInGrid(row, col, i)[l])
    decreases |AllMoves| - i
  {
    if i < |AllMoves| {
      MovesInGridOrdered(row, col, i + 1);
      RankOfIndex(i);
    }
  }

  /** The move at position `i` of the enumeration has rank `i`. */
  lemma RankOfIndex(i: nat)
    requires i < |AllMoves|
    ensures Rank(AllMoves[i]) == i
  {
    if i == 0 {} else if i == 1 {} else if i == 2 {} else {}
  }

  /** The moves available from each cell of the top row. */
  lemma TopRowMoves(col: int)
    requires 0 <= col < 3
    ensures |MovesInGrid(0, col, 0)| == if col == 1 then 3 else 2
  {
    if col == 0 { assert |MovesInGrid(0, 0, 0)| == 2; }
    else if col == 1 { assert |MovesInGrid(0, 1, 0)| == 3; }
    else { assert |MovesInGrid(0, 2, 0)| == 2; }
  }

  /** The moves available from each cell of the middle row. */
  lemma MiddleRowMoves(col: int)
    requires 0 <= col < 3
    ensures |MovesInGrid(1, col, 0)| == if col == 1 then 4 else 3
  {
    if col == 0 { assert |MovesInGrid(1, 0, 0)| == 3; }
    else if col == 1 { assert |MovesInGrid(1, 1, 0)| == 4; }
    else { assert |MovesInGrid(1, 2, 0)| == 3; }
  }

  /** The moves available from each cell of the bottom row. */
  lemma BottomRowMoves(col: int)
    requires 0 <= col < 3
    ensures |MovesInGrid(2, col, 0)| == if col == 1 then 3 else 2
  {
    if col == 0 { assert |MovesInGrid(2, 0, 0)| == 2; }
    else if col == 1 { assert |MovesInGrid(2, 1, 0)| == 3; }
    else { assert |MovesInGrid(2, 2, 0)| == 2; }
  }

  /** From every cell of the grid the blank has at least two and at most four
      moves: two in a corner, three on an edge, four in the centre. */
  lemma InGridMoveCount(row: int, col: int)
    requires InGrid(row, col)
    ensures 2 <= |MovesInGrid(row, col, 0)| <= 4
    ensures (row == 1 && col == 1) <==> |MovesInGrid(row, col, 0)| == 4
  {
    if row == 0 {
      TopRowMoves(col);
    } else if row == 1 {
      MiddleRowMoves(col);
    } else {
      BottomRowMoves(col);
    }
  }

  /** Exchanging the entries at `i` and `j`; the right-hand sides are read
      before either entry is written, like Python's tuple assignment. */
  function SwapAt<T>(s: seq<T>, i: nat, j: nat): (r: seq<T>)
    requires i < |s| && j < |s|
    ensures |r| == |s| && r[i] == s[j] && r[j] == s[i]
    ensures forall k :: 0 <= k < |s| && k != i && k != j ==> r[k] == s[k]
  {
    s[i := s[j]][j := s[i]]
  }

  /** A swap rearranges the entries and neither adds nor loses one. */
  lemma SwapIsPermutation<T>(s: seq<T>, i: nat, j: nat)
    requires i < |s| && j < |s|
    ensures multiset(SwapAt(s, i, j)) == multiset(s)
  {
  }

  /** Swapping the same two entries again restores the sequence. */
  lemma SwapTwiceRestores<T>(s: seq<T>, i: nat, j: nat)
    requires i < |s| && j < |s|
    ensures SwapAt(SwapAt(s, i, j), j, i) == s
  {
  }
}
