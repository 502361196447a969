/** The search nodes of lab6/astar.py. Nodes live in an arena: a node's
    parent link is the arena index of the node it was expanded from, and a
    path is rebuilt by following those links back to the root. */
module SearchTree {

  import opened Wrappers
  import opened Directions
  import opened FlatBoard

  /** The move that produced a node; `Start` is the empty move label of the
      root. */
  datatype Label = Start | Moved(m: Move)

  /** The position of a move label in the enumeration order. */
  function Order(l: Label): int
  {
    match l
    case Start => -1
    case Moved(m) => Rank(m)
  }

  /** The nodes' moves come in strictly increasing enumeration order, so no
      move appears twice. */
  predicate InMoveOrder(ns: seq<Node>)
  {
    forall k, l :: 0 <= k < l < |ns| ==> Order(ns[k].move) < Order(ns[l].move)
  }

  /** A search node: its board, the arena index of its parent, the move that
      produced it, its depth and its priority. */
  datatype Node = Node(board: Board, parent: Option<nat>, move: Label, depth: nat, cost: nat)

  /** One entry of a reconstructed path. */
  datatype Step = Step(move: Label, board: Board, depth: nat)

  // ---------------------------------------------------------------------------
  // Expansion

  /** `c` is a child of the node `parent` stored at arena index `self`: one
      move away from it, linked to it, one level deeper. */
  predicate ChildOf(parent: Node, self: nat, c: Node)
  {
    && c.move.Moved?
    && ApplyMove(parent.board, c.move.m) == Some(c.board)
    && c.parent == Some(self)
    && c.depth == parent.depth + 1
  }

  /** The successors for the moves `AllMoves[i..]`, blank at `blank`. */
  function Successors(n: Node, self: nat, blank: nat, i: nat): (r: seq<Node>)
    requires BlankPos(n.board) == Some(blank) && i <= 4
    ensures forall k :: 0 <= k < |r| ==> ChildOf(n, self, r[k]) && r[k].cost == 0
    decreases 4 - i
  {
    if i == 4 then []
    else
      var mv := AllMoves[i];
      var rest := Successors(n, self, blank, i + 1);
      match Neighbour(blank, mv)
      case None => rest
      case Some(t) =>
        var c := Node(SwapAt(n.board, blank, t), Some(self), Moved(mv), n.depth + 1, 0);
        MoveChild(n, self, blank, mv, t);
        [c] + rest
  }

  /** The node made by moving the blank of `n` to index `t` is a child. */
  lemma MoveChild(n: Node, self: nat, blank: nat, mv: Move, t: nat)
    requires BlankPos(n.board) == Some(blank) && Neighbour(blank, mv) == Some(t)
    ensures ChildOf(n, self, Node(SwapAt(n.board, blank, t), Some(self), Moved(mv), n.depth + 1, 0))
  {
  }

  /** The children of the node at arena index `self`: one per move that keeps
      the blank inside the grid, in the order Up, Down, Left, Right, each one
      deeper than its parent and linked to it; `None` when the board has no
      blank, where `list.index` raises. */
  function Expand(n: Node, self: nat): (r: Option<seq<Node>>)
    ensures r.None? <==> 0 !in n.board
    ensures r.Some? ==> forall k :: 0 <= k < |r.value| ==> ChildOf(n, self, r.value[k])
    ensures r.Some? ==> InMoveOrder(r.value)
  {
    match BlankPos(n.board)
    case None => None
    case Some(k) =>
      SuccessorsFollowGrid(n, self, k, 0);
      MovesInGridOrdered(k / 3, k % 3, 0);
      Some(Successors(n, self, k, 0))
  }

  /** The successors follow the in-grid moves of the blank one for one. */
  lemma {:induction false} SuccessorsFollowGrid(n: Node, self: nat, blank: nat, i: nat)
    requires BlankPos(n.board) == Some(blank) && i <= 4
    ensures |Successors(n, self, blank, i)| == |MovesInGrid(blank / 3, blank % 3, i)|
    ensures forall k :: 0 <= k < |Successors(n, self, blank, i)| ==>
              Successors(n, self, blank, i)[k].move == Moved(MovesInGrid(blank / 3, blank % 3, i)[k])
    decreases 4 - i
  {
    if i < 4 {
      SuccessorsFollowGrid(n, self, blank, i + 1);
      var r, rest := Successors(n, self, blank, i), Successors(n, self, blank, i + 1);
      var grid, later := MovesInGrid(blank / 3, blank % 3, i), MovesInGrid(blank / 3, blank % 3, i + 1);
      if CanMove(blank / 3, blank % 3, AllMoves[i]) {
        assert Neighbour(blank, AllMoves[i]).Some?;
        assert r[1..] == rest && r[0].move == Moved(AllMoves[i]);
        assert grid == [AllMoves[i]] + later;
      } else {
        assert Neighbour(blank, AllMoves[i]).None?;
        assert r == rest && grid == later;
      }
    }
  }

  /** Every move the blank can make yields a child. */
  lemma ExpandComplete(n: Node, self: nat, m: Move)
    requires ApplyMove(n.board, m).Some?
    ensures Expand(n, self).Some?
    ensures exists k :: 0 <= k < |Expand(n, self).value| && Expand(n, self).value[k].move == Moved(m)
  {
    var blank := BlankPos(n.board).value;
    var grid := MovesInGrid(blank / 3, blank % 3, 0);
    LegalMoveInGrid(n.board, m);
    var k :| 0 <= k < |grid| && grid[k] == m;
    SuccessorsFollowGrid(n, self, blank, 0);
    assert Successors(n, self, blank, 0)[k].move == Moved(m);
  }

  /** A move that applies is one of the in-grid moves of the blank. */
  lemma LegalMoveInGrid(b: Board, m: Move)
    requires ApplyMove(b, m).Some?
    ensures m in MovesInGrid(BlankPos(b).value / 3, BlankPos(b).value % 3, 0)
  {
    var blank := BlankPos(b).value;
    assert Neighbour(blank, m).Some?;
    MovesInGridComplete(blank / 3, blank % 3, 0, m);
  }

  /** A board with a blank has two to four successors: two when the blank
      is in a corner, four when it is in the centre. */
  lemma ExpandCount(n: Node, self: nat)
    requires 0 in n.board
    ensures 2 <= |Expand(n, self).value| <= 4
  {
    var blank := BlankPos(n.board).value;
    assert Expand(n, self).value == Successors(n, self, blank, 0);
    SuccessorsFollowGrid(n, self, blank, 0);
    InGridMoveCount(blank / 3, blank % 3);
  }

  /** Every successor is a rearrangement of its parent's tiles. */
  lemma ExpandPermutes(n: Node, self: nat)
    requires 0 in n.board
    ensures forall k :: 0 <= k < |Expand(n, self).value| ==>
              multiset(Expand(n, self).value[k].board) == multiset(n.board)
  {
    var r := Expand(n, self).value;
    forall k | 0 <= k < |r|
      ensures multiset(r[k].board) == multiset(n.board)
    {
      assert ChildOf(n, self, r[k]);
      ApplyMovePermutes(n.board, r[k].move.m);
    }
  }

  // ---------------------------------------------------------------------------
  // The node arena and path reconstruction

  /** Every parent link points to an earlier node of the arena. */
  predicate ParentsPrecede(tree: seq<Node>)
  {
    forall i :: 0 <= i < |tree| && tree[i].parent.Some? ==> tree[i].parent.value < i
  }

  /** The node at index `i` is one move away from its parent, one level
      deeper, and labelled with that move. */
  predicate LinkedToParent(tree: seq<Node>, i: nat)
    requires i < |tree|
  {
    && tree[i].parent.Some?
    && tree[i].parent.value < i
    && ChildOf(tree[tree[i].parent.value], tree[i].parent.value, tree[i])
  }

  /** The arena the search builds from `start`: the root at index 0, every
      other node expanded from an earlier one. */
  predicate WellFormed(tree: seq<Node>, start: Board)
  {
    && |tree| >= 1
    && tree[0].board == start && tree[0].parent.None? && tree[0].move == Start && tree[0].depth == 0
    && forall i :: 1 <= i < |tree| ==> LinkedToParent(tree, i)
  }

  /** The entry `(node.move, node.board, node.depth)` of a path. */
  function StepOf(n: Node): Step
  {
    Step(n.move, n.board, n.depth)
  }

  /** The steps met walking the parent links from node `i` to the root. */
  function Chain(tree: seq<Node>, i: nat): (r: seq<Step>)
    requires i < |tree| && ParentsPrecede(tree)
    ensures |r| >= 1 && r[0] == StepOf(tree[i])
    decreases i
  {
    match tree[i].parent
    case None => [StepOf(tree[i])]
    case Some(p) => [StepOf(tree[i])] + Chain(tree, p)
  }

  /** `reversed`: the entries in the opposite order. */
  function Reverse<T>(s: seq<T>): (r: seq<T>)
    ensures |r| == |s|
    ensures forall k :: 0 <= k < |s| ==> r[k] == s[|s| - 1 - k]
  {
    if s == [] then [] else Reverse(s[1..]) + [s[0]]
  }

  /** `build_path`: the parent chain of node `i`, reversed so that it runs
      from the root to the node itself. */
  function BuildPath(tree: seq<Node>, i: nat): (r: seq<Step>)
    requires i < |tree| && ParentsPrecede(tree)
    ensures |r| == |Chain(tree, i)|
    ensures r[|r| - 1] == StepOf(tree[i])
  {
    Reverse(Chain(tree, i))
  }

  /** In a well-formed arena every parent link points backwards. */
  lemma WellFormedParentsPrecede(tree: seq<Node>, start: Board)
    requires WellFormed(tree, start)
    ensures ParentsPrecede(tree)
  {
    forall i | 0 <= i < |tree| && tree[i].parent.Some?
      ensures tree[i].parent.value < i
    {
      if i > 0 {
        assert LinkedToParent(tree, i);
      }
    }
  }

  /** Every board of an arena built from `start` holds the same tiles as
      `start`: each node is one move away from its parent. */
  lemma {:induction false} ArenaPermutes(tree: seq<Node>, start: Board, i: nat)
    requires WellFormed(tree, start) && i < |tree|
    ensures multiset(tree[i].board) == multiset(start)
    decreases i
  {
    if i > 0 {
      assert LinkedToParent(tree, i);
      var p := tree[i].parent.value;
      ArenaPermutes(tree, start, p);
      ApplyMovePermutes(tree[p].board, tree[i].move.m);
    }
  }

  /** `path` is a solution from `start`: it opens with the root step, every
      later step applies its move to the board before it, and the depths
      count the steps. */
  predicate ValidPath(path: seq<Step>, start: Board)
  {
    && |path| >= 1
    && path[0] == Step(Start, start, 0)
    && (forall k :: 0 <= k < |path| ==> path[k].depth == k)
    && (forall k :: 0 <= k < |path| - 1 ==> LegalStep(path, k))
  }

  /** `path` is a valid path from `start` that ends on the board `goal`. */
  predicate Reaches(path: seq<Step>, start: Board, goal: Board)
  {
    ValidPath(path, start) && path[|path| - 1].board == goal
  }

  /** Entry `k + 1` of `path` applies its move to the board of entry `k`. */
  predicate LegalStep(path: seq<Step>, k: nat)
    requires k + 1 < |path|
  {
    path[k + 1].move.Moved? && ApplyMove(path[k].board, path[k + 1].move.m) == Some(path[k + 1].board)
  }

  /** In a well-formed arena the path to any node starts at the root, ends
      at the node, has one entry per level of depth, and every step is a
      legal move. */
  lemma {:induction false} BuildPathIsValid(tree: seq<Node>, start: Board, i: nat)
    requires WellFormed(tree, start) && i < |tree|
    ensures ParentsPrecede(tree)
    ensures ValidPath(BuildPath(tree, i), start)
    ensures |BuildPath(tree, i)| == tree[i].depth + 1
    decreases i
  {
    WellFormedParentsPrecede(tree, start);
    if i == 0 {
      assert BuildPath(tree, 0) == [StepOf(tree[0])];
    } else {
      assert LinkedToParent(tree, i);
      var p := tree[i].parent.value;
      BuildPathIsValid(tree, start, p);
      ReverseCons(StepOf(tree[i]), Chain(tree, p));
      assert BuildPath(tree, i) == BuildPath(tree, p) + [StepOf(tree[i])];
      assert ChildOf(tree[p], p, tree[i]);
      ValidPathExtends(BuildPath(tree, p), StepOf(tree[i]), start);
    }
  }

  /** A valid path stays valid when a legal step one level deeper is
      appended. */
  lemma ValidPathExtends(prefix: seq<Step>, s: Step, start: Board)
    requires ValidPath(prefix, start)
    requires s.move.Moved? && ApplyMove(prefix[|prefix| - 1].board, s.move.m) == Some(s.board)
    requires s.depth == |prefix|
    ensures ValidPath(prefix + [s], start)
  {
    var path := prefix + [s];
    assert LegalStep(path, |prefix| - 1);
    forall k | 0 <= k < |path| - 1
      ensures LegalStep(path, k)
    {
      if k < |prefix| - 1 {
        assert LegalStep(prefix, k);
      }
    }
  }

  /** Reversing `[x] + s` puts `x` last. */
  lemma ReverseCons<T>(x: T, s: seq<T>)
    ensures Reverse([x] + s) == Reverse(s) + [x]
  {
    assert ([x] + s)[1..] == s;
  }
}
