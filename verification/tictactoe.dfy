/** The game logic of tictactoe.py: free squares, the winning test over the
    eight lines, and the minimax search that picks the computer's move. The
    board is a list of nine one-character strings, here nine characters. */
module TicTacToe {

  import opened Wrappers

  /** Nine squares, row by row. */
  type Board = b: seq<char> | |b| == 9
    witness "         "

  /** The empty square. */
  const Blank: char := ' '
  /** The computer, `ai_player`. */
  const Ai: char := 'X'
  /** The human, `human_player`. */
  const Human: char := 'O'

  // ---------------------------------------------------------------------------
  // Free squares

  /** The comprehension of `available_moves`, from index `i` on. */
  function AvailableFrom(b: Board, i: nat): (r: seq<nat>)
    requires i <= 9
    ensures forall k :: 0 <= k < |r| ==> i <= r[k] < 9 && b[r[k]] == Blank
    ensures forall j :: i <= j < 9 && b[j] == Blank ==> j in r
    ensures forall k, l :: 0 <= k < l < |r| ==> r[k] < r[l]
    decreases 9 - i
  {
    if i == 9 then []
    else if b[i] == Blank then [i] + AvailableFrom(b, i + 1)
    else AvailableFrom(b, i + 1)
  }

  /** `available_moves`: the indices of the free squares, ascending. */
  function AvailableMoves(b: Board): (r: seq<nat>)
    ensures forall j :: j in r <==> 0 <= j < 9 && b[j] == Blank
    ensures forall k, l :: 0 <= k < l < |r| ==> r[k] < r[l]
  {
    AvailableFrom(b, 0)
  }

  /** Number of free squares. */
  function CountBlanks(s: seq<char>): nat
  {
    if s == [] then 0 else (if s[0] == Blank then 1 else 0) + CountBlanks(s[1..])
  }

  /** Filling a free square leaves one free square fewer. */
  lemma {:induction false} FillCountsDown(s: seq<char>, m: nat, c: char)
    requires m < |s| && s[m] == Blank && c != Blank
    ensures CountBlanks(s[m := c]) + 1 == CountBlanks(s)
  {
    if m > 0 {
      FillCountsDown(s[1..], m - 1, c);
      assert s[m := c][1..] == s[1..][m - 1 := c];
    }
  }

  // ---------------------------------------------------------------------------
  // Winning

  /** The eight lines: three rows, three columns, two diagonals. */
  const Lines: seq<(nat, nat, nat)> :=
    [(0, 1, 2), (3, 4, 5), (6, 7, 8), (0, 3, 6), (1, 4, 7), (2, 5, 8), (0, 4, 8), (2, 4, 6)]

  /** Player `p` holds all three squares of line `l`. */
  predicate Owns(b: Board, p: char, l: (nat, nat, nat))
    requires l.0 < 9 && l.1 < 9 && l.2 < 9
  {
    b[l.0] == p && b[l.1] == p && b[l.2] == p
  }

  /** `all(s == player for s in cells)`. */
  function AllAre(cells: seq<char>, p: char): (r: bool)
    ensures r <==> forall k :: 0 <= k < |cells| ==> cells[k] == p
  {
    cells == [] || (cells[0] == p && AllAre(cells[1..], p))
  }

  /** The row loop of `check_winner`, from the row starting at square `i`
      on: true exactly when `p` holds one of those rows. */
  function RowsFrom(b: Board, p: char, i: nat): (r: bool)
    requires i <= 9 && i % 3 == 0
    ensures r <==> exists l :: i / 3 <= l < 3 && Owns(b, p, Lines[l])
    decreases 9 - i
  {
    if i == 9 then false
    else
      assert Lines[i / 3] == (i, i + 1, i + 2);
      assert AllAre(b[i..i + 3], p) <==> Owns(b, p, Lines[i / 3]) by {
        assert b[i..i + 3] == [b[i], b[i + 1], b[i + 2]];
      }
      AllAre(b[i..i + 3], p) || RowsFrom(b, p, i + 3)
  }

  /** The column loop of `check_winner`, from column `i` on: true exactly
      when `p` holds one of those columns. */
  function ColumnsFrom(b: Board, p: char, i: nat): (r: bool)
    requires i <= 3
    ensures r <==> exists l :: 3 + i <= l < 6 && Owns(b, p, Lines[l])
    decreases 3 - i
  {
    if i == 3 then false
    else
      assert Lines[3 + i] == (i, i + 3, i + 6);
      (b[i] == b[i + 3] && b[i + 3] == b[i + 6] && b[i + 6] == p) || ColumnsFrom(b, p, i + 1)
  }

  /** `check_winner`: rows, then columns, then the two diagonals; true
      exactly when `p` holds one of the eight lines. */
  function CheckWinner(b: Board, p: char): (r: bool)
    ensures r <==> exists l :: 0 <= l < |Lines| && Owns(b, p, Lines[l])
  {
    assert Lines[6] == (0, 4, 8) && Lines[7] == (2, 4, 6);
    RowsFrom(b, p, 0) || ColumnsFrom(b, p, 0)
    || (b[0] == b[4] && b[4] == b[8] && b[8] == p)
    || (b[2] == b[4] && b[4] == b[6] && b[6] == p)
  }

  // ---------------------------------------------------------------------------
  // Minimax

  /** The game is over: a player has a line or no square is free. */
  predicate Terminal(b: Board)
  {
    CheckWinner(b, Ai) || CheckWinner(b, Human) || AvailableMoves(b) == []
  }

  /** What one call of `minimax` gives back: the score, the move (`None`
      on a finished game), and the board as the call leaves it. */
  datatype Outcome = Outcome(score: int, move: Option<nat>, board: Board)

  /** The mark of the side to move. */
  function Mark(maximizing: bool): char
  {
    if maximizing then Ai else Human
  }

  /** The starting `best_score`: `-math.inf` for the maximiser, `math.inf`
      for the minimiser, here one step outside the scores. */
  function Sentinel(maximizing: bool): int
  {
    if maximizing then -2 else 2
  }

  /** `x` beats `y` for the side to move: the strict comparisons of the
      loops. */
  predicate Better(maximizing: bool, x: int, y: int)
  {
    if maximizing then x > y else x < y
  }

  /** A score of a decided position. */
  predicate IsScore(s: int)
  {
    s == -1 || s == 0 || s == 1
  }

  /** `minimax`: 1 if the computer has a line, -1 if the human has one, 0
      on a full board, otherwise the best score over the free squares for
      the side to move and the first square achieving it. Every mark put
      down is taken back, so the board comes back unchanged. */
  function Minimax(b: Board, maximizing: bool): (r: Outcome)
    ensures r.board == b
    ensures IsScore(r.score)
    ensures CheckWinner(b, Ai) ==> r.score == 1 && r.move.None?
    ensures !CheckWinner(b, Ai) && CheckWinner(b, Human) ==> r.score == -1 && r.move.None?
    ensures !CheckWinner(b, Ai) && !CheckWinner(b, Human) && AvailableMoves(b) == [] ==> r.score == 0 && r.move.None?
    ensures !Terminal(b) ==> r.move.Some? && r.move.value < 9 && b[r.move.value] == Blank
    decreases CountBlanks(b), 1
  {
    if CheckWinner(b, Ai) then Outcome(1, None, b)
    else if CheckWinner(b, Human) then Outcome(-1, None, b)
    else
      var moves := AvailableMoves(b);
      if moves == [] then Outcome(0, None, b)
      else BestOf(b, moves, maximizing, Sentinel(maximizing), None)
  }

  /** The `for move in available_moves(board)` loop over the remaining
      `moves`, with the best score and move so far: place the mark, search
      the reply, take the mark back, keep the score if it beats the best. */
  function BestOf(b: Board, moves: seq<nat>, maximizing: bool, best: int, bestMove: Option<nat>): (r: Outcome)
    requires forall k :: 0 <= k < |moves| ==> moves[k] < 9 && b[moves[k]] == Blank
    requires (bestMove.None? && best == Sentinel(maximizing)) || (bestMove.Some? && IsScore(best))
    ensures r.board == b
    ensures moves != [] || bestMove.Some? ==> IsScore(r.score) && r.move.Some?
    ensures r.move.Some? ==> r.move == bestMove || r.move.value in moves
    decreases CountBlanks(b), 0, |moves|
  {
    if moves == [] then Outcome(best, bestMove, b)
    else
      var move := moves[0];
      var placed := b[move := Mark(maximizing)];
      FillCountsDown(b, move, Mark(maximizing));
      var reply := Minimax(placed, !maximizing);
      var undone := reply.board[move := Blank];
      assert undone == b;
      if Better(maximizing, reply.score, best) then BestOf(undone, moves[1..], maximizing, reply.score, Some(move))
      else BestOf(undone, moves[1..], maximizing, best, bestMove)
  }

  /** `get_computer_move`: the computer's move, `None` on a finished
      game. */
  function GetComputerMove(b: Board): (r: Option<nat>)
    ensures r.None? <==> Terminal(b)
    ensures r.Some? ==> r.value in AvailableMoves(b)
  {
    Minimax(b, true).move
  }

  // ---------------------------------------------------------------------------
  // What minimax computes

  /** The score the side to move gets by playing `m`: the score of the
      position after `m`, with the other side to move. */
  function Value(b: Board, m: nat, maximizing: bool): int
    requires m < 9
  {
    Minimax(b[m := Mark(maximizing)], !maximizing).score
  }

  /** The moves are free squares and the best so far is a score or the
      sentinel with no move. */
  predicate LoopState(b: Board, moves: seq<nat>, maximizing: bool, best: int, bestMove: Option<nat>)
  {
    (forall k :: 0 <= k < |moves| ==> moves[k] < 9 && b[moves[k]] == Blank)
    && ((bestMove.None? && best == Sentinel(maximizing)) || (bestMove.Some? && IsScore(best)))
  }

  /** One turn of the loop: the placed mark is taken back, and the value
      of the first move replaces the best so far when it beats it. */
  lemma BestOfStep(b: Board, moves: seq<nat>, maximizing: bool, best: int, bestMove: Option<nat>)
    requires LoopState(b, moves, maximizing, best, bestMove) && moves != []
    ensures Better(maximizing, Value(b, moves[0], maximizing), best) ==>
              LoopState(b, moves[1..], maximizing, Value(b, moves[0], maximizing), Some(moves[0]))
              && BestOf(b, moves, maximizing, best, bestMove)
                 == BestOf(b, moves[1..], maximizing, Value(b, moves[0], maximizing), Some(moves[0]))
    ensures !Better(maximizing, Value(b, moves[0], maximizing), best) ==>
              LoopState(b, moves[1..], maximizing, best, bestMove)
              && BestOf(b, moves, maximizing, best, bestMove) == BestOf(b, moves[1..], maximizing, best, bestMove)
  {
    var move := moves[0];
    var undone := Minimax(b[move := Mark(maximizing)], !maximizing).board[move := Blank];
    assert undone == b;
  }

  /** The loop keeps the best value: the result is at least as good as the
      best so far and as every remaining move. */
  lemma {:induction false} BestOfBound(b: Board, moves: seq<nat>, maximizing: bool, best: int, bestMove: Option<nat>)
    requires LoopState(b, moves, maximizing, best, bestMove)
    ensures !Better(maximizing, best, BestOf(b, moves, maximizing, best, bestMove).score)
    ensures forall k :: 0 <= k < |moves| ==>
              !Better(maximizing, Value(b, moves[k], maximizing), BestOf(b, moves, maximizing, best, bestMove).score)
    decreases |moves|
  {
    if moves != [] {
      var v := Value(b, moves[0], maximizing);
      BestOfStep(b, moves, maximizing, best, bestMove);
      if Better(maximizing, v, best) {
        BestOfBound(b, moves[1..], maximizing, v, Some(moves[0]));
      } else {
        BestOfBound(b, moves[1..], maximizing, best, bestMove);
      }
      var r := BestOf(b, moves, maximizing, best, bestMove);
      forall k | 0 <= k < |moves|
        ensures !Better(maximizing, Value(b, moves[k], maximizing), r.score)
      {
        if k > 0 {
          assert moves[k] == moves[1..][k - 1];
        }
      }
    }
  }

  /** The values of the moves, in order. */
  function Values(b: Board, moves: seq<nat>, maximizing: bool): (r: seq<int>)
    requires forall k :: 0 <= k < |moves| ==> moves[k] < 9
    ensures |r| == |moves| && forall k :: 0 <= k < |moves| ==> r[k] == Value(b, moves[k], maximizing)
  {
    seq(|moves|, k requires 0 <= k < |moves| => Value(b, moves[k], maximizing))
  }

  /** The loop's choice: either the best so far survives, or the result is
      the value of the first remaining move that beats the best so far and
      every move before it. */
  lemma {:induction false} BestOfChoice(b: Board, moves: seq<nat>, maximizing: bool, best: int, bestMove: Option<nat>)
    requires LoopState(b, moves, maximizing, best, bestMove)
    ensures var r := BestOf(b, moves, maximizing, best, bestMove);
            (r.score == best && r.move == bestMove)
            || (exists j :: 0 <= j < |moves| && r.move == Some(moves[j])
                  && FirstBest(Values(b, moves, maximizing), maximizing, best, j, r.score))
    decreases |moves|
  {
    if moves != [] {
      var vals := Values(b, moves, maximizing);
      var v := vals[0];
      var r := BestOf(b, moves, maximizing, best, bestMove);
      BestOfStep(b, moves, maximizing, best, bestMove);
      var (best', bestMove') := if Better(maximizing, v, best) then (v, Some(moves[0])) else (best, bestMove);
      BestOfChoice(b, moves[1..], maximizing, best', bestMove');
      if r.score == best' && r.move == bestMove' {
        if Better(maximizing, v, best) {
          assert FirstBest(vals, maximizing, best, 0, r.score);
        }
      } else {
        var tail := Values(b, moves[1..], maximizing);
        ValuesTail(b, moves, maximizing);
        var j :| 0 <= j < |moves[1..]| && r.move == Some(moves[1..][j])
                 && FirstBest(tail, maximizing, best', j, r.score);
        FirstBestShift(vals, tail, maximizing, best, best', j, r.score);
      }
    }
  }

  /** Entry `j` of `vals` is `s`, which beats `best` and every earlier
      entry. */
  predicate FirstBest(vals: seq<int>, maximizing: bool, best: int, j: nat, s: int)
  {
    j < |vals| && s == vals[j] && Better(maximizing, s, best)
    && forall k :: 0 <= k < j ==> Better(maximizing, s, vals[k])
  }

  /** A first best among the later entries is a first best among all of
      them, when the best so far passed over the first entry. */
  lemma FirstBestShift(vals: seq<int>, tail: seq<int>, maximizing: bool, best: int, best': int, j: nat, s: int)
    requires vals != [] && |tail| == |vals| - 1 && forall k :: 0 <= k < |tail| ==> tail[k] == vals[k + 1]
    requires FirstBest(tail, maximizing, best', j, s)
    requires (best' == vals[0] && Better(maximizing, best', best))
             || (best' == best && !Better(maximizing, vals[0], best))
    ensures FirstBest(vals, maximizing, best, j + 1, s)
  {
    forall k | 0 <= k < j + 1
      ensures Better(maximizing, s, vals[k])
    {
      if k > 0 {
        assert vals[k] == tail[k - 1];
      }
    }
  }

  /** The values of the later moves are the later values. */
  lemma ValuesTail(b: Board, moves: seq<nat>, maximizing: bool)
    requires moves != [] && forall k :: 0 <= k < |moves| ==> moves[k] < 9
    ensures forall k :: 0 <= k < |moves| - 1 ==>
              Values(b, moves[1..], maximizing)[k] == Values(b, moves, maximizing)[k + 1]
  {
    forall k | 0 <= k < |moves| - 1
      ensures Values(b, moves[1..], maximizing)[k] == Values(b, moves, maximizing)[k + 1]
    {
      assert moves[1..][k] == moves[k + 1];
    }
  }

  /** On a game still in progress, `minimax` returns the best value over
      the free squares for the side to move, and the first free square that
      achieves it. */
  lemma MinimaxOptimal(b: Board, maximizing: bool)
    requires !Terminal(b)
    ensures var r := Minimax(b, maximizing);
            r.move.Some? && r.move.value in AvailableMoves(b)
            && r.score == Value(b, r.move.value, maximizing)
            && (forall m :: m in AvailableMoves(b) ==> !Better(maximizing, Value(b, m, maximizing), r.score))
            && (forall m :: m in AvailableMoves(b) && m < r.move.value ==> Better(maximizing, r.score, Value(b, m, maximizing)))
  {
    var moves := AvailableMoves(b);
    var r := Minimax(b, maximizing);
    var vals := Values(b, moves, maximizing);
    var j := MinimaxChoice(b, maximizing);
    forall m | m in moves
      ensures !Better(maximizing, Value(b, m, maximizing), r.score)
      ensures m < r.move.value ==> Better(maximizing, r.score, Value(b, m, maximizing))
    {
      var k :| 0 <= k < |moves| && moves[k] == m;
      assert vals[k] == Value(b, m, maximizing);
    }
  }

  /** The index in `available_moves` of the square `minimax` picks: its
      value is the result, no value beats the result, and every earlier
      square's value is beaten by it. */
  lemma MinimaxChoice(b: Board, maximizing: bool) returns (j: nat)
    requires !Terminal(b)
    ensures var moves, r := AvailableMoves(b), Minimax(b, maximizing);
            j < |moves| && r.move == Some(moves[j]) && r.score == Values(b, moves, maximizing)[j]
            && (forall k :: 0 <= k < |moves| ==> !Better(maximizing, Values(b, moves, maximizing)[k], r.score))
            && (forall k :: 0 <= k < |moves| && moves[k] < moves[j] ==> Better(maximizing, r.score, Values(b, moves, maximizing)[k]))
  {
    var moves := AvailableMoves(b);
    var r := Minimax(b, maximizing);
    assert r == BestOf(b, moves, maximizing, Sentinel(maximizing), None);
    BestOfBound(b, moves, maximizing, Sentinel(maximizing), None);
    BestOfChoice(b, moves, maximizing, Sentinel(maximizing), None);
    var vals := Values(b, moves, maximizing);
    j :| 0 <= j < |moves| && r.move == Some(moves[j]) && FirstBest(vals, maximizing, Sentinel(maximizing), j, r.score);
    forall k | 0 <= k < |moves| && moves[k] < moves[j]
      ensures Better(maximizing, r.score, vals[k])
    {
      assert k < j;
    }
  }
}
