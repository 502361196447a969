/** The A* search of lab6/astar.py: a frontier of arena indices ordered by
    depth plus estimate, a closed set of boards, and a bound on the number of
    pops. */
module AStar {

  import opened Wrappers
  import opened FlatBoard
  import opened SearchTree
  import AStarClosure

  /** The outcome of a search: a path, an exhausted frontier, the end of the
      fuel, or a board the source cannot handle (no blank, or a tile the goal
      does not contain), where the source raises. */
  datatype SearchResult = Solved(path: seq<Step>) | NoSolution | OutOfFuel | Malformed

  // ---------------------------------------------------------------------------
  // The frontier

  /** Position `k` of the frontier holds a node of least cost. */
  predicate IsCheapest(tree: seq<Node>, open: seq<nat>, k: nat)
    requires forall j :: 0 <= j < |open| ==> open[j] < |tree|
  {
    k < |open| && forall j :: 0 <= j < |open| ==> tree[open[k]].cost <= tree[open[j]].cost
  }

  /** The first frontier position of least cost; it shows a cheapest entry
      exists, whichever one the heap hands out. */
  function CheapestIndex(tree: seq<Node>, open: seq<nat>): (k: nat)
    requires |open| > 0 && forall j :: 0 <= j < |open| ==> open[j] < |tree|
    ensures IsCheapest(tree, open, k)
    decreases |open|
  {
    if |open| == 1 then 0
    else
      var k := CheapestIndex(tree, open[1..]);
      if tree[open[0]].cost <= tree[open[k + 1]].cost then 0 else k + 1
  }

  /** The successors whose board is not in the closed set, in order. */
  function Unclosed(succs: seq<Node>, closed: set<Board>): (r: seq<Node>)
    ensures forall k :: 0 <= k < |r| ==> r[k] in succs && r[k].board !in closed
    ensures forall s :: s in succs && s.board !in closed ==> s in r
  {
    if succs == [] then []
    else (if succs[0].board in closed then [] else [succs[0]]) + Unclosed(succs[1..], closed)
  }

  /** Each successor whose board is not closed is kept as often as it
      occurs, and no other node is kept. */
  lemma {:induction false} UnclosedCounts(succs: seq<Node>, closed: set<Board>)
    ensures forall s :: multiset(Unclosed(succs, closed))[s] ==
              if s.board in closed then 0 else multiset(succs)[s]
    decreases |succs|
  {
    if succs != [] {
      UnclosedCounts(succs[1..], closed);
      assert succs == [succs[0]] + succs[1..];
      assert multiset(succs) == multiset{succs[0]} + multiset(succs[1..]);
    }
  }

  /** Keeping some of the successors keeps their move order. */
  lemma {:induction false} UnclosedInMoveOrder(succs: seq<Node>, closed: set<Board>)
    requires InMoveOrder(succs)
    ensures InMoveOrder(Unclosed(succs, closed))
    decreases |succs|
  {
    if succs != [] {
      var rest := Unclosed(succs[1..], closed);
      assert InMoveOrder(succs[1..]) by {
        forall k, l | 0 <= k < l < |succs[1..]|
          ensures Order(succs[1..][k].move) < Order(succs[1..][l].move)
        {
          assert succs[1..][k] == succs[k + 1] && succs[1..][l] == succs[l + 1];
        }
      }
      UnclosedInMoveOrder(succs[1..], closed);
      if succs[0].board !in closed {
        HeadBeforeRest(succs, rest);
      }
    }
  }

  /** The head of successors in move order comes before any in-order
      selection from the rest. */
  lemma HeadBeforeRest(succs: seq<Node>, rest: seq<Node>)
    requires succs != [] && InMoveOrder(succs) && InMoveOrder(rest)
    requires forall k :: 0 <= k < |rest| ==> rest[k] in succs[1..]
    ensures InMoveOrder([succs[0]] + rest)
  {
    var r := [succs[0]] + rest;
    forall k, l | 0 <= k < l < |r|
      ensures Order(r[k].move) < Order(r[l].move)
    {
      assert r[l] == rest[l - 1];
      var j :| 0 <= j < |succs[1..]| && succs[1..][j] == rest[l - 1];
      assert succs[j + 1] == rest[l - 1];
      if k > 0 {
        assert r[k] == rest[k - 1];
      }
    }
  }

  /** The arena indices `lo..hi-1`. */
  function Range(lo: nat, hi: nat): (r: seq<nat>)
    requires lo <= hi
    ensures |r| == hi - lo && forall k :: 0 <= k < |r| ==> r[k] == lo + k
  {
    seq(hi - lo, k requires 0 <= k < hi - lo => lo + k)
  }

  /** Each node priced at its depth plus the estimate of its board; `None`
      where an estimate raises. */
  function PriceAll(ns: seq<Node>, h: Heuristic, goal: Board): (r: Option<seq<Node>>)
    ensures r.Some? <==> forall k :: 0 <= k < |ns| ==> Estimate(h, ns[k].board, goal).Some?
    ensures r.Some? ==> |r.value| == |ns|
    ensures r.Some? ==> forall k :: 0 <= k < |ns| ==>
              Estimate(h, ns[k].board, goal).Some? &&
              r.value[k] == ns[k].(cost := ns[k].depth + Estimate(h, ns[k].board, goal).value)
  {
    if ns == [] then Some([])
    else match Estimate(h, ns[0].board, goal)
      case None => None
      case Some(e) =>
        match PriceAll(ns[1..], h, goal)
        case None => None
        case Some(rest) =>
          PricedCons(ns, h, goal, e, rest);
          Some([ns[0].(cost := ns[0].depth + e)] + rest)
  }

  /** The first node priced, followed by the rest priced, is every node
      priced. */
  lemma PricedCons(ns: seq<Node>, h: Heuristic, goal: Board, e: nat, rest: seq<Node>)
    requires ns != [] && Estimate(h, ns[0].board, goal) == Some(e)
    requires |rest| == |ns| - 1
    requires forall k :: 1 <= k < |ns| ==>
               Estimate(h, ns[k].board, goal).Some? &&
               rest[k - 1] == ns[k].(cost := ns[k].depth + Estimate(h, ns[k].board, goal).value)
    ensures forall k :: 0 <= k < |ns| ==>
              Estimate(h, ns[k].board, goal).Some? &&
              ([ns[0].(cost := ns[0].depth + e)] + rest)[k] ==
              ns[k].(cost := ns[k].depth + Estimate(h, ns[k].board, goal).value)
  {
    var r := [ns[0].(cost := ns[0].depth + e)] + rest;
    forall k | 0 <= k < |ns|
      ensures Estimate(h, ns[k].board, goal).Some? &&
              r[k] == ns[k].(cost := ns[k].depth + Estimate(h, ns[k].board, goal).value)
    {
      if k == 0 {
        assert ns[k].board == ns[0].board;
      } else {
        ConsIndex(ns[0].(cost := ns[0].depth + e), rest, k);
      }
    }
  }

  /** Past the head, index `k` of `[x] + rest` is index `k - 1` of `rest`. */
  lemma ConsIndex<T>(x: T, rest: seq<T>, k: nat)
    requires 0 < k <= |rest|
    ensures ([x] + rest)[k] == rest[k - 1]
  {
  }

  /** The inner loop of `a_star`: the successors whose board is closed are
      skipped; every other one is priced at depth plus estimate, stored in
      the arena and pushed. `None` where an estimate raises; the search is
      then abandoned, so the order of pricing and pushing is not observable. */
  function PushSuccessors(tree: seq<Node>, open: seq<nat>, closed: set<Board>, succs: seq<Node>,
                          h: Heuristic, goal: Board): (r: Option<(seq<Node>, seq<nat>)>)
    ensures r.None? <==> exists s :: s in succs && s.board !in closed && Estimate(h, s.board, goal).None?
    ensures r.Some? ==> |tree| <= |r.value.0| && r.value.0[..|tree|] == tree
    ensures r.Some? ==> r.value.1 == open + Range(|tree|, |r.value.0|)
    ensures r.Some? ==> Pushed(r.value.0[|tree|..], succs, closed, h, goal)
  {
    var kept := Unclosed(succs, closed);
    match PriceAll(kept, h, goal)
    case None =>
      var k :| 0 <= k < |kept| && Estimate(h, kept[k].board, goal).None?;
      assert kept[k] in succs;
      None
    case Some(priced) =>
      PricedUnclosed(succs, closed, h, goal);
      var t := tree + priced;
      assert t[|tree|..] == priced;
      Some((t, open + Range(|tree|, |t|)))
  }

  /** The nodes `added` are the successors not in `closed`, each priced at
      its depth plus its estimate, none left out, and in the successors'
      move order, so none is added twice. */
  predicate Pushed(added: seq<Node>, succs: seq<Node>, closed: set<Board>, h: Heuristic, goal: Board)
  {
    && FromSuccs(added, succs)
    && (InMoveOrder(succs) ==> InMoveOrder(added))
    && (forall k :: 0 <= k < |added| ==>
          && added[k].board !in closed
          && Estimate(h, added[k].board, goal).Some?
          && added[k].cost == added[k].depth + Estimate(h, added[k].board, goal).value)
    && (forall s :: s in succs && s.board !in closed ==> s.(cost := 0) in Uncosted(added))
  }

  /** Every node of `added` is one of `succs` up to its priority. */
  predicate FromSuccs(added: seq<Node>, succs: seq<Node>)
  {
    forall k :: 0 <= k < |added| ==> added[k].(cost := 0) in Uncosted(succs)
  }

  /** Pricing the unclosed successors gives nodes that meet `Pushed`. */
  lemma PricedUnclosed(succs: seq<Node>, closed: set<Board>, h: Heuristic, goal: Board)
    requires PriceAll(Unclosed(succs, closed), h, goal).Some?
    ensures Pushed(PriceAll(Unclosed(succs, closed), h, goal).value, succs, closed, h, goal)
  {
    var kept := Unclosed(succs, closed);
    var priced := PriceAll(kept, h, goal).value;
    PricedFromSuccs(succs, kept, priced, h, goal);
    PricedCovers(succs, closed, kept, priced, h, goal);
    if InMoveOrder(succs) {
      UnclosedInMoveOrder(succs, closed);
      PricedInMoveOrder(kept, priced, h, goal);
    }
    PricedUnclosedCosts(kept, priced, closed, h, goal);
  }

  /** The priced nodes keep the kept boards, none of them closed, each
      priced at its depth plus its estimate. */
  lemma PricedUnclosedCosts(kept: seq<Node>, priced: seq<Node>, closed: set<Board>, h: Heuristic, goal: Board)
    requires forall k :: 0 <= k < |kept| ==> kept[k].board !in closed
    requires PriceAll(kept, h, goal) == Some(priced)
    ensures forall k :: 0 <= k < |priced| ==>
              && priced[k].board !in closed
              && Estimate(h, priced[k].board, goal).Some?
              && priced[k].cost == priced[k].depth + Estimate(h, priced[k].board, goal).value
  {
    forall k | 0 <= k < |priced|
      ensures priced[k].board !in closed && Estimate(h, priced[k].board, goal).Some?
      ensures priced[k].cost == priced[k].depth + Estimate(h, priced[k].board, goal).value
    {
      assert priced[k] == kept[k].(cost := kept[k].depth + Estimate(h, kept[k].board, goal).value);
    }
  }

  /** Pricing changes no move, so it keeps the move order. */
  lemma PricedInMoveOrder(kept: seq<Node>, priced: seq<Node>, h: Heuristic, goal: Board)
    requires PriceAll(kept, h, goal) == Some(priced)
    ensures InMoveOrder(kept) ==> InMoveOrder(priced)
  {
    if InMoveOrder(kept) {
      forall k, l | 0 <= k < l < |priced|
        ensures Order(priced[k].move) < Order(priced[l].move)
      {
        assert priced[k].move == kept[k].move && priced[l].move == kept[l].move;
      }
    }
  }

  /** Every priced node is one of the successors up to its priority. */
  lemma PricedFromSuccs(succs: seq<Node>, kept: seq<Node>, priced: seq<Node>, h: Heuristic, goal: Board)
    requires forall k :: 0 <= k < |kept| ==> kept[k] in succs
    requires PriceAll(kept, h, goal) == Some(priced)
    ensures FromSuccs(priced, succs)
  {
    forall k | 0 <= k < |priced|
      ensures priced[k].(cost := 0) in Uncosted(succs)
    {
      assert priced[k].(cost := 0) == kept[k].(cost := 0);
      var j :| 0 <= j < |succs| && succs[j] == kept[k];
      assert Uncosted(succs)[j] == kept[k].(cost := 0);
    }
  }

  /** Every unclosed successor appears among the priced nodes up to its
      priority. */
  lemma PricedCovers(succs: seq<Node>, closed: set<Board>, kept: seq<Node>, priced: seq<Node>,
                     h: Heuristic, goal: Board)
    requires forall s :: s in succs && s.board !in closed ==> s in kept
    requires PriceAll(kept, h, goal) == Some(priced)
    ensures forall s :: s in succs && s.board !in closed ==> s.(cost := 0) in Uncosted(priced)
  {
    forall s | s in succs && s.board !in closed
      ensures s.(cost := 0) in Uncosted(priced)
    {
      var k :| 0 <= k < |kept| && kept[k] == s;
      assert Uncosted(priced)[k] == s.(cost := 0);
    }
  }

  /** The nodes with their priority cleared. */
  function Uncosted(ns: seq<Node>): (r: seq<Node>)
    ensures |r| == |ns| && forall k :: 0 <= k < |ns| ==> r[k] == ns[k].(cost := 0)
  {
    seq(|ns|, k requires 0 <= k < |ns| => ns[k].(cost := 0))
  }

  /** Storing children of an arena node keeps the arena well formed. */
  lemma PushKeepsWellFormed(tree: seq<Node>, start: Board, cur: nat, succs: seq<Node>, t: seq<Node>)
    requires WellFormed(tree, start) && cur < |tree|
    requires forall k :: 0 <= k < |succs| ==> ChildOf(tree[cur], cur, succs[k])
    requires |tree| <= |t| && t[..|tree|] == tree
    requires FromSuccs(t[|tree|..], succs)
    ensures WellFormed(t, start)
  {
    forall j | 1 <= j < |t|
      ensures LinkedToParent(t, j)
    {
      if j < |tree| {
        assert t[j] == tree[j];
        assert LinkedToParent(tree, j);
        assert t[tree[j].parent.value] == tree[tree[j].parent.value];
      } else {
        var u := Uncosted(succs);
        assert t[|tree|..][j - |tree|] == t[j];
        var k :| 0 <= k < |u| && u[k] == t[j].(cost := 0);
        assert ChildOf(tree[cur], cur, succs[k]);
        assert t[cur] == tree[cur];
      }
    }
    assert t[0] == tree[0];
  }

  /** `heappop`: takes out a frontier entry of least cost; which of several
      equally cheap entries is taken is left open. */
  method PopCheapest(tree: seq<Node>, open: seq<nat>) returns (cur: nat, rest: seq<nat>)
    requires |open| > 0 && forall j :: 0 <= j < |open| ==> open[j] < |tree|
    ensures cur < |tree| && cur in open
    ensures forall j :: 0 <= j < |open| ==> tree[cur].cost <= tree[open[j]].cost
    ensures |rest| == |open| - 1 && forall j :: 0 <= j < |rest| ==> rest[j] < |tree|
    ensures multiset(rest) + multiset{cur} == multiset(open)
    ensures open == [0] ==> cur == 0
  {
    assert IsCheapest(tree, open, CheapestIndex(tree, open));
    var k: nat :| k < |open| && IsCheapest(tree, open, k);
    cur := open[k];
    forall j | 0 <= j < |open|
      ensures tree[cur].cost <= tree[open[j]].cost
    {
      assert IsCheapest(tree, open, k);
    }
    rest := RemoveAt(open, k);
    assert open == open[..k] + [cur] + open[k + 1..];
    forall j | 0 <= j < |rest|
      ensures rest[j] < |tree|
    {
      if j < k {
        assert rest[j] == open[j];
      } else {
        assert rest[j] == open[j + 1];
      }
    }
  }

  /** The frontier without position `k`. */
  function RemoveAt(open: seq<nat>, k: nat): (r: seq<nat>)
    requires k < |open|
    ensures |r| == |open| - 1
    ensures forall j :: 0 <= j < |r| ==> r[j] == if j < k then open[j] else open[j + 1]
  {
    open[..k] + open[k + 1..]
  }

  /** One expansion of the node at arena index `cur`, whose board has been
      closed: its children whose boards are not in `closed` are stored and
      pushed. `None` where the source raises (no blank, or an estimate that
      fails). The arena stays well formed. */
  method ExpandStep(tree: seq<Node>, start: Board, open: seq<nat>, closed: set<Board>, cur: nat,
                    h: Heuristic, goal: Board)
    returns (r: Option<(seq<Node>, seq<nat>)>)
    requires WellFormed(tree, start) && cur < |tree|
    requires forall j :: 0 <= j < |open| ==> open[j] < |tree|
    ensures r.Some? ==> 0 in tree[cur].board
    ensures h == MisplacedTilesCount ==> (r.Some? <==> 0 in tree[cur].board)
    ensures r.None? ==> 0 !in tree[cur].board || (h == ManhattanSum && ForeignTile(tree[cur].board, goal))
    ensures r.Some? ==> WellFormed(r.value.0, start)
    ensures r.Some? ==> |tree| <= |r.value.0| && r.value.0[..|tree|] == tree
    ensures r.Some? ==> r.value.1 == open + Range(|tree|, |r.value.0|)
    ensures r.Some? ==> Expand(tree[cur], cur).Some?
                        && Pushed(r.value.0[|tree|..], Expand(tree[cur], cur).value, closed, h, goal)
    ensures r.Some? ==> InMoveOrder(r.value.0[|tree|..])
    ensures r.Some? ==> |r.value.1| == |open| + |r.value.0| - |tree|
    ensures r.Some? ==> forall j :: 0 <= j < |r.value.1| ==> r.value.1[j] < |r.value.0|
  {
    var succs := Expand(tree[cur], cur);
    if succs.None? {
      return None;
    }
    r := PushSuccessors(tree, open, closed, succs.value, h, goal);
    if r.Some? {
      PushKeepsWellFormed(tree, start, cur, succs.value, r.value.0);
    } else {
      EstimateFailsOnParent(tree[cur], cur, closed, h, goal);
    }
  }

  /** An estimate fails on a successor only when the Manhattan sum meets a
      tile the goal lacks, and a successor holds its parent's tiles. */
  lemma EstimateFailsOnParent(n: Node, self: nat, closed: set<Board>, h: Heuristic, goal: Board)
    requires Expand(n, self).Some?
    requires exists s :: s in Expand(n, self).value && s.board !in closed && Estimate(h, s.board, goal).None?
    ensures h == ManhattanSum && ForeignTile(n.board, goal)
  {
    var succs := Expand(n, self).value;
    var s :| s in succs && s.board !in closed && Estimate(h, s.board, goal).None?;
    var k :| 0 <= k < |succs| && succs[k] == s;
    assert ChildOf(n, self, s);
    ApplyMovePermutes(n.board, s.move.m);
    ForeignTilePermutes(s.board, n.board, goal);
  }

  /** Every arena board holds the start's tiles, so a board on which the
      search has to give up shows that the start already lacked a blank or
      held a tile the goal lacks. */
  lemma MalformedAtStart(tree: seq<Node>, start: Board, cur: nat, h: Heuristic, goal: Board)
    requires WellFormed(tree, start) && cur < |tree|
    requires 0 !in tree[cur].board || (h == ManhattanSum && ForeignTile(tree[cur].board, goal))
    ensures 0 !in start || (h == ManhattanSum && ForeignTile(start, goal))
  {
    ArenaPermutes(tree, start, cur);
    if 0 in start {
      assert 0 in multiset(tree[cur].board);
      ForeignTilePermutes(tree[cur].board, start, goal);
    }
  }

  /** The search's answer once node `cur` holds the goal: the path from the
      root to it, which for the root alone is the single starting step. */
  method Solution(tree: seq<Node>, start: Board, cur: nat) returns (r: SearchResult)
    requires WellFormed(tree, start) && cur < |tree|
    ensures r.Solved? && Reaches(r.path, start, tree[cur].board)
    ensures cur == 0 ==> r == Solved([Step(Start, start, 0)])
  {
    BuildPathIsValid(tree, start, cur);
    r := Solved(BuildPath(tree, cur));
    if cur == 0 {
      assert Chain(tree, 0) == [Step(Start, start, 0)];
    }
  }

  // ---------------------------------------------------------------------------
  // The search

  /** One pass of the loop of `a_star`: pop a cheapest node `cur`; stop
      with its path exactly when it holds the goal; otherwise close its board
      and store and push its children whose boards are not closed. Stops
      with `Malformed` where the source raises, leaving the arena as it
      was. */
  method Round(tree: seq<Node>, open: seq<nat>, closed: set<Board>, start: Board, goal: Board, h: Heuristic)
    returns (stop: Option<SearchResult>, cur: nat, tree': seq<Node>, open': seq<nat>, closed': set<Board>)
    requires WellFormed(tree, start) && |open| > 0
    requires forall j :: 0 <= j < |open| ==> open[j] < |tree|
    ensures cur < |tree| && cur in open
    ensures forall j :: 0 <= j < |open| ==> tree[cur].cost <= tree[open[j]].cost
    ensures open == [0] ==> cur == 0
    ensures tree[cur].board == goal <==> stop.Some? && stop.value.Solved?
    ensures stop.Some? && stop.value.Solved? ==> Reaches(stop.value.path, start, goal)
    ensures stop.Some? ==> tree' == tree && (stop.value.Malformed? || stop.value.Solved?)
    ensures stop == Some(Malformed) ==>
              0 !in tree[cur].board || (h == ManhattanSum && ForeignTile(tree[cur].board, goal))
    ensures tree[cur].board != goal && 0 !in tree[cur].board ==> stop == Some(Malformed)
    ensures open == [0] && start == goal ==> stop == Some(Solved([Step(Start, start, 0)]))
    ensures stop.None? ==> WellFormed(tree', start) && |tree| <= |tree'| && tree'[..|tree|] == tree
    ensures stop.None? ==> closed' == closed + {tree[cur].board}
    ensures stop.None? ==> multiset(open') + multiset{cur} == multiset(open) + multiset(Range(|tree|, |tree'|))
    ensures stop.None? ==> Expand(tree[cur], cur).Some?
                           && Pushed(tree'[|tree|..], Expand(tree[cur], cur).value, closed', h, goal)
    ensures stop.None? ==> InMoveOrder(tree'[|tree|..])
    ensures stop.None? ==> |open'| + 1 + |tree| == |open| + |tree'|
    ensures stop.None? ==> forall j :: 0 <= j < |open'| ==> open'[j] < |tree'|
    ensures stop.None? ==> forall m :: ApplyMove(tree[cur].board, m).Some? &&
                                       ApplyMove(tree[cur].board, m).value !in closed' ==>
              exists j :: |tree| <= j < |tree'| && tree'[j].board == ApplyMove(tree[cur].board, m).value
  {
    var rest;
    cur, rest := PopCheapest(tree, open);
    if tree[cur].board == goal {
      var r := Solution(tree, start, cur);
      return Some(r), cur, tree, rest, closed;
    }
    closed' := closed + {tree[cur].board};
    var grown := ExpandStep(tree, start, rest, closed', cur, h, goal);
    if grown.None? {
      return Some(Malformed), cur, tree, rest, closed';
    }
    stop, tree', open' := None, grown.value.0, grown.value.1;
    PushedStores(tree, cur, tree', closed', h, goal);
  }

  /** Every successor of node `cur` whose board is not closed was stored
      in the arena past its old end. */
  lemma PushedStores(tree: seq<Node>, cur: nat, t: seq<Node>, closed: set<Board>, h: Heuristic, goal: Board)
    requires cur < |tree| && |tree| <= |t|
    requires Expand(tree[cur], cur).Some?
    requires Pushed(t[|tree|..], Expand(tree[cur], cur).value, closed, h, goal)
    ensures forall m :: ApplyMove(tree[cur].board, m).Some? && ApplyMove(tree[cur].board, m).value !in closed ==>
              exists j :: |tree| <= j < |t| && t[j].board == ApplyMove(tree[cur].board, m).value
  {
    CoveredStored(tree, cur, t, closed);
  }

  /** The same, from the part of `Pushed` that says no successor was left
      out. */
  lemma CoveredStored(tree: seq<Node>, cur: nat, t: seq<Node>, closed: set<Board>)
    requires cur < |tree| && |tree| <= |t|
    requires Expand(tree[cur], cur).Some?
    requires forall s :: s in Expand(tree[cur], cur).value && s.board !in closed ==>
               s.(cost := 0) in Uncosted(t[|tree|..])
    ensures forall m :: ApplyMove(tree[cur].board, m).Some? && ApplyMove(tree[cur].board, m).value !in closed ==>
              exists j :: |tree| <= j < |t| && t[j].board == ApplyMove(tree[cur].board, m).value
  {
    var succs, added := Expand(tree[cur], cur).value, t[|tree|..];
    forall m | ApplyMove(tree[cur].board, m).Some? && ApplyMove(tree[cur].board, m).value !in closed
      ensures exists j :: |tree| <= j < |t| && t[j].board == ApplyMove(tree[cur].board, m).value
    {
      ExpandComplete(tree[cur], cur, m);
      var k :| 0 <= k < |succs| && succs[k].move == Moved(m);
      assert ChildOf(tree[cur], cur, succs[k]);
      assert succs[k] in succs;
      var i :| 0 <= i < |added| && Uncosted(added)[i] == succs[k].(cost := 0);
      assert t[|tree| + i] == added[i];
    }
  }

  /** After a round the frontier still holds every old entry but the popped
      one, and holds every newly stored index. */
  lemma RoundFrontier(open: seq<nat>, open': seq<nat>, cur: nat, lo: nat, hi: nat)
    requires cur < lo <= hi
    requires multiset(open') + multiset{cur} == multiset(open) + multiset(Range(lo, hi))
    ensures forall i :: i in open && i != cur ==> i in open'
    ensures forall j :: lo <= j < hi ==> j in open'
  {
    forall i | i in open && i != cur
      ensures i in open'
    {
      assert i in multiset(open);
      assert (multiset(open') + multiset{cur})[i] == multiset(open')[i] + multiset{cur}[i];
      assert i in multiset(open');
    }
    forall j | lo <= j < hi
      ensures j in open'
    {
      assert Range(lo, hi)[j - lo] == j;
      assert j in multiset(Range(lo, hi));
      assert (multiset(open') + multiset{cur})[j] == multiset(open')[j] + multiset{cur}[j];
      assert j in multiset(open');
    }
  }

  /** `a_star`: pop a cheapest node (ties in any order), count the pop, stop
      with its path if it holds the goal, otherwise close its board and push
      its children whose boards are not closed. `fuel` bounds the number of
      pops. On success the path runs from the start to the goal by legal
      moves; `NoSolution` comes only from an empty frontier, by which point
      every node created has been popped once. */
  method Search(start: Board, goal: Board, h: Heuristic, fuel: nat)
    returns (r: SearchResult, nodes: nat, tree: seq<Node>)
    ensures nodes <= fuel
    ensures r.Solved? ==> Reaches(r.path, start, goal)
    ensures r.Solved? ==> 1 <= nodes <= |tree|
    ensures r.NoSolution? ==> nodes == |tree|
    ensures r.OutOfFuel? ==> nodes == fuel
    ensures |tree| == 0 <==> Estimate(h, start, goal).None?
    ensures |tree| > 0 ==> WellFormed(tree, start)
    ensures start == goal && fuel > 0 && Estimate(h, start, goal).Some? ==>
              r == Solved([Step(Start, start, 0)]) && nodes == 1
    ensures r.Malformed? <==>
              (h == ManhattanSum && ForeignTile(start, goal)) || (0 !in start && start != goal && fuel > 0)
    ensures r.NoSolution? ==> forall path :: !Reaches(path, start, goal)
  {
    var est := Estimate(h, start, goal);
    if est.None? {
      return Malformed, 0, [];
    }
    tree := [Node(start, None, Start, 0, est.value)];
    AStarClosure.InitialInvariant(tree[0], start, goal);
    r, nodes, tree := Run(tree, [0], {}, 0, start, goal, h, fuel);
  }

  /** The loop of `a_star` from a frontier `open` of arena indices, `nodes`
      pops having been made already. */
  method Run(tree0: seq<Node>, open0: seq<nat>, closed0: set<Board>, nodes0: nat,
             start: Board, goal: Board, h: Heuristic, fuel: nat)
    returns (r: SearchResult, nodes: nat, tree: seq<Node>)
    requires WellFormed(tree0, start)
    requires forall j :: 0 <= j < |open0| ==> open0[j] < |tree0|
    requires nodes0 + |open0| == |tree0| && nodes0 <= fuel
    requires AStarClosure.Invariant(tree0, open0, closed0, start, goal)
    ensures nodes0 <= nodes <= fuel
    ensures r.Solved? ==> Reaches(r.path, start, goal)
    ensures r.Solved? ==> 1 <= nodes <= |tree|
    ensures r.NoSolution? ==> nodes == |tree|
    ensures r.OutOfFuel? ==> nodes == fuel
    ensures |tree0| <= |tree| && WellFormed(tree, start)
    ensures open0 == [0] && start == goal && nodes0 < fuel ==>
              r == Solved([Step(Start, start, 0)]) && nodes == nodes0 + 1
    ensures r.Malformed? ==> nodes0 < nodes && (0 !in start || (h == ManhattanSum && ForeignTile(start, goal)))
    ensures open0 == [0] && start != goal && 0 !in start && nodes0 < fuel ==> r.Malformed?
    ensures r.NoSolution? ==> forall path :: !Reaches(path, start, goal)
  {
    tree, nodes := tree0, nodes0;
    var open: seq<nat>, closed: set<Board> := open0, closed0;
    while |open| > 0 && nodes < fuel
      invariant WellFormed(tree, start)
      invariant forall j :: 0 <= j < |open| ==> open[j] < |tree|
      invariant nodes + |open| == |tree| && |tree0| <= |tree|
      invariant nodes0 <= nodes <= fuel
      invariant nodes == nodes0 ==> open == open0
      invariant open0 == [0] && (start == goal || 0 !in start) ==> nodes == nodes0
      invariant AStarClosure.Invariant(tree, open, closed, start, goal)
      decreases fuel - nodes
    {
      var stop, cur;
      var before, openBefore, closedBefore := tree, open, closed;
      stop, cur, tree, open, closed := Round(tree, open, closed, start, goal, h);
      nodes := nodes + 1;
      if stop.Some? {
        if stop.value.Malformed? {
          MalformedAtStart(before, start, cur, h, goal);
        }
        return stop.value, nodes, tree;
      }
      RoundFrontier(openBefore, open, cur, |before|, |tree|);
      AStarClosure.RoundKeeps(before, openBefore, closedBefore, start, goal, cur, tree, open);
    }
    if |open| == 0 {
      AStarClosure.ExhaustedUnreachable(tree, closed, start, goal);
      r := NoSolution;
    } else {
      r := OutOfFuel;
    }
  }
}
