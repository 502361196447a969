/** What every round of the A* search of lab6/astar.py keeps about its
    closed set: the boards one move away from a closed board are closed or
    waiting on the frontier, the start has been met, and the goal was never
    closed. Once the frontier is empty this shows the goal unreachable. */
module AStarClosure {

  import opened Wrappers
  import opened FlatBoard
  import opened SearchTree

  /** Some frontier entry is an arena node holding board `v`. */
  predicate OnFrontier(v: Board, tree: seq<Node>, open: seq<nat>)
  {
    exists i :: i in open && i < |tree| && tree[i].board == v
  }

  /** Every board one move away from a closed board is closed or on the
      frontier. */
  predicate ClosedUnderMoves(tree: seq<Node>, open: seq<nat>, closed: set<Board>)
  {
    forall b, m :: b in closed && ApplyMove(b, m).Some? ==>
      ApplyMove(b, m).value in closed || OnFrontier(ApplyMove(b, m).value, tree, open)
  }

  /** What holds between two rounds of the search. */
  predicate Invariant(tree: seq<Node>, open: seq<nat>, closed: set<Board>, start: Board, goal: Board)
  {
    && ClosedUnderMoves(tree, open, closed)
    && (start in closed || OnFrontier(start, tree, open))
    && goal !in closed
  }

  /** The root alone on the frontier and nothing closed. */
  lemma InitialInvariant(root: Node, start: Board, goal: Board)
    requires root.board == start
    ensures Invariant([root], [0], {}, start, goal)
  {
    assert 0 in [0];
  }

  /** A frontier entry other than the popped one, or a newly stored node,
      is still on the frontier after a round. */
  lemma FrontierKept(v: Board, tree: seq<Node>, open: seq<nat>, cur: nat, tree': seq<Node>, open': seq<nat>)
    requires OnFrontier(v, tree, open) && cur < |tree| && tree[cur].board != v
    requires |tree| <= |tree'| && tree'[..|tree|] == tree
    requires forall i :: i in open && i != cur ==> i in open'
    ensures OnFrontier(v, tree', open')
  {
    var i :| i in open && i < |tree| && tree[i].board == v;
    assert tree'[i] == tree'[..|tree|][i];
  }

  /** A round that pops `cur`, closes its board, and stores and pushes every
      successor whose board is not closed keeps the invariant. */
  lemma RoundKeeps(tree: seq<Node>, open: seq<nat>, closed: set<Board>, start: Board, goal: Board,
                   cur: nat, tree': seq<Node>, open': seq<nat>)
    requires Invariant(tree, open, closed, start, goal)
    requires cur < |tree| && tree[cur].board != goal
    requires |tree| <= |tree'| && tree'[..|tree|] == tree
    requires forall i :: i in open && i != cur ==> i in open'
    requires forall j :: |tree| <= j < |tree'| ==> j in open'
    requires forall m :: ApplyMove(tree[cur].board, m).Some? &&
                         ApplyMove(tree[cur].board, m).value !in closed + {tree[cur].board} ==>
               exists j :: |tree| <= j < |tree'| && tree'[j].board == ApplyMove(tree[cur].board, m).value
    ensures Invariant(tree', open', closed + {tree[cur].board}, start, goal)
  {
    var closed' := closed + {tree[cur].board};
    forall b, m | b in closed' && ApplyMove(b, m).Some?
      ensures ApplyMove(b, m).value in closed' || OnFrontier(ApplyMove(b, m).value, tree', open')
    {
      var v := ApplyMove(b, m).value;
      if v !in closed' {
        if b in closed {
          FrontierKept(v, tree, open, cur, tree', open');
        } else {
          var j :| |tree| <= j < |tree'| && tree'[j].board == v;
          assert j in open';
        }
      }
    }
    if start !in closed' {
      FrontierKept(start, tree, open, cur, tree', open');
    }
  }

  /** With an empty frontier every board on a valid path from the start is
      closed. */
  lemma {:induction false} PathClosed(tree: seq<Node>, closed: set<Board>, start: Board, goal: Board,
                                      path: seq<Step>, k: nat)
    requires Invariant(tree, [], closed, start, goal)
    requires ValidPath(path, start) && k < |path|
    ensures path[k].board in closed
    decreases k
  {
    if k == 0 {
      assert !OnFrontier(start, tree, []);
    } else {
      PathClosed(tree, closed, start, goal, path, k - 1);
      assert LegalStep(path, k - 1);
      var b, m := path[k - 1].board, path[k].move.m;
      assert b in closed && ApplyMove(b, m).Some?;
      assert !OnFrontier(ApplyMove(b, m).value, tree, []);
    }
  }

  /** An empty frontier means no sequence of moves leads from the start to
      the goal. */
  lemma ExhaustedUnreachable(tree: seq<Node>, closed: set<Board>, start: Board, goal: Board)
    requires Invariant(tree, [], closed, start, goal)
    ensures forall path :: !Reaches(path, start, goal)
  {
    forall path: seq<Step> | ValidPath(path, start)
      ensures path[|path| - 1].board != goal
    {
      PathClosed(tree, closed, start, goal, path, |path| - 1);
    }
  }
}
