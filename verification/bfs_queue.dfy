/** The bookkeeping of the breadth-first search of lab2/8puzzle.py: the FIFO
    queue of (board, path) entries, the boards already expanded, and the
    facts about them that every round of the search keeps. */
module BfsQueue {

  import opened Wrappers
  import opened Directions
  import opened GridPuzzle

  /** A queue entry: a board and the moves that lead to it from the start. */
  type Entry = (Grid, seq<Move>)

  /** Some entry of the queue holds board `v`. */
  predicate Queued(v: Grid, queue: seq<Entry>)
  {
    exists k :: 0 <= k < |queue| && queue[k].0 == v
  }

  /** Board `v` has been expanded or is waiting in the queue. */
  predicate Seen(v: Grid, queue: seq<Entry>, expanded: seq<Grid>)
  {
    v in expanded || Queued(v, queue)
  }

  /** Every entry's path leads from `start` to the entry's board. */
  predicate AllReached(start: Grid, queue: seq<Entry>)
  {
    forall k :: 0 <= k < |queue| ==> Reached(start, queue[k])
  }

  /** Every board one move away from an expanded board has been seen. */
  predicate Closed(queue: seq<Entry>, expanded: seq<Grid>)
  {
    forall i, m :: 0 <= i < |expanded| && ApplyMove(expanded[i], m).Some? ==>
      Seen(ApplyMove(expanded[i], m).value, queue, expanded)
  }

  /** No board appears twice. */
  predicate Distinct(s: seq<Grid>)
  {
    forall i, j :: 0 <= i < j < |s| ==> s[i] != s[j]
  }

  /** What holds between two rounds of the search: the queue's paths are
      genuine, the expanded boards are closed under moves up to the queue,
      each board was expanded at most once and the goal never was, and the
      start has been seen. */
  predicate Invariant(start: Grid, queue: seq<Entry>, expanded: seq<Grid>)
  {
    AllReached(start, queue) && Closed(queue, expanded) && Distinct(expanded)
    && Goal !in expanded && Seen(start, queue, expanded)
  }

  /** The entries the inner loop of `bfs` appends for the neighbours `ns`
      of a board reached by `path`. */
  function Enqueue(ns: seq<(Move, Grid)>, path: seq<Move>): (r: seq<Entry>)
    ensures |r| == |ns|
    ensures forall k :: 0 <= k < |r| ==> r[k].0 == ns[k].1 && r[k].1 == path + [ns[k].0]
  {
    if ns == [] then [] else [(ns[0].1, path + [ns[0].0])] + Enqueue(ns[1..], path)
  }

  /** The queue `deque([(start_state, [])])` and the empty visited set. */
  lemma InitialInvariant(start: Grid)
    ensures Invariant(start, [(start, [])], [])
  {
    var queue: seq<Entry> := [(start, [])];
    assert queue[0].0 == start;
  }

  /** The head of the queue is reached from the start by its path. */
  lemma HeadReached(start: Grid, queue: seq<Entry>, expanded: seq<Grid>)
    requires Invariant(start, queue, expanded) && queue != []
    ensures ApplyPath(start, queue[0].1) == Some(queue[0].0)
  {
  }

  /** Popping an entry whose board is expanded forgets nothing. */
  lemma SeenAfterSkip(v: Grid, queue: seq<Entry>, expanded: seq<Grid>)
    requires Seen(v, queue, expanded) && queue != [] && queue[0].0 in expanded
    ensures Seen(v, queue[1..], expanded)
  {
    if v !in expanded {
      var k :| 0 <= k < |queue| && queue[k].0 == v;
      assert queue[1..][k - 1].0 == v;
    }
  }

  /** Popping an entry, expanding its board and appending `extra` forgets
      nothing. */
  lemma SeenAfterExpand(v: Grid, queue: seq<Entry>, expanded: seq<Grid>, extra: seq<Entry>)
    requires Seen(v, queue, expanded) && queue != []
    ensures Seen(v, queue[1..] + extra, expanded + [queue[0].0])
  {
    if v !in expanded && v != queue[0].0 {
      var k :| 0 <= k < |queue| && queue[k].0 == v;
      assert (queue[1..] + extra)[k - 1].0 == v;
    }
  }

  /** The `continue` branch: the head's board was expanded before. */
  lemma SkipKeeps(start: Grid, queue: seq<Entry>, expanded: seq<Grid>)
    requires Invariant(start, queue, expanded) && queue != [] && queue[0].0 in expanded
    ensures Invariant(start, queue[1..], expanded)
  {
    forall i, m | 0 <= i < |expanded| && ApplyMove(expanded[i], m).Some?
      ensures Seen(ApplyMove(expanded[i], m).value, queue[1..], expanded)
    {
      SeenAfterSkip(ApplyMove(expanded[i], m).value, queue, expanded);
    }
    SeenAfterSkip(start, queue, expanded);
  }

  /** The entries appended for the neighbours of a reached board are
      reached. */
  lemma EnqueueReached(start: Grid, cur: Grid, path: seq<Move>, ns: seq<(Move, Grid)>)
    requires ApplyPath(start, path) == Some(cur) && Neighbors(cur) == Some(ns)
    ensures AllReached(start, Enqueue(ns, path))
  {
    var e := Enqueue(ns, path);
    forall k | 0 <= k < |e|
      ensures Reached(start, e[k])
    {
      ApplyPathSnoc(start, path, ns[k].0);
    }
  }

  /** Every board one move away from `cur` is among the appended entries. */
  lemma EnqueueCovers(cur: Grid, path: seq<Move>, ns: seq<(Move, Grid)>, m: Move)
    requires Neighbors(cur) == Some(ns) && ApplyMove(cur, m).Some?
    ensures Queued(ApplyMove(cur, m).value, Enqueue(ns, path))
  {
    NeighborsComplete(cur, m);
    var k :| 0 <= k < |ns| && ns[k].0 == m;
    assert Enqueue(ns, path)[k].0 == ApplyMove(cur, m).value;
  }

  /** The expanding branch: the head's board is neither the goal nor
      expanded before; it becomes expanded and its neighbours join the back
      of the queue. */
  lemma ExpandKeeps(start: Grid, queue: seq<Entry>, expanded: seq<Grid>, ns: seq<(Move, Grid)>)
    requires Invariant(start, queue, expanded) && queue != []
    requires queue[0].0 != Goal && queue[0].0 !in expanded
    requires Neighbors(queue[0].0) == Some(ns)
    ensures Invariant(start, queue[1..] + Enqueue(ns, queue[0].1), expanded + [queue[0].0])
  {
    var (cur, path) := queue[0];
    var extra := Enqueue(ns, path);
    EnqueueReached(start, cur, path, ns);
    AppendReached(start, queue, extra);
    ExpandCloses(queue, expanded, ns);
    SeenAfterExpand(start, queue, expanded, extra);
  }

  /** Dropping the head and appending reached entries keeps every entry
      reached. */
  lemma AppendReached(start: Grid, queue: seq<Entry>, extra: seq<Entry>)
    requires AllReached(start, queue) && AllReached(start, extra) && queue != []
    ensures AllReached(start, queue[1..] + extra)
  {
    var queue' := queue[1..] + extra;
    forall k | 0 <= k < |queue'|
      ensures Reached(start, queue'[k])
    {
      if k < |queue| - 1 {
        assert queue'[k] == queue[k + 1];
      } else {
        assert queue'[k] == extra[k - (|queue| - 1)];
      }
    }
  }

  /** Expanding the head and appending its neighbours keeps the expanded
      boards closed. */
  lemma ExpandCloses(queue: seq<Entry>, expanded: seq<Grid>, ns: seq<(Move, Grid)>)
    requires Closed(queue, expanded) && queue != [] && Neighbors(queue[0].0) == Some(ns)
    ensures Closed(queue[1..] + Enqueue(ns, queue[0].1), expanded + [queue[0].0])
  {
    var (cur, path) := queue[0];
    var extra := Enqueue(ns, path);
    var queue', expanded' := queue[1..] + extra, expanded + [cur];
    forall i, m | 0 <= i < |expanded'| && ApplyMove(expanded'[i], m).Some?
      ensures Seen(ApplyMove(expanded'[i], m).value, queue', expanded')
    {
      var v := ApplyMove(expanded'[i], m).value;
      if i < |expanded| {
        assert expanded'[i] == expanded[i];
        SeenAfterExpand(v, queue, expanded, extra);
      } else {
        EnqueueCovers(cur, path, ns, m);
        var k :| 0 <= k < |extra| && extra[k].0 == v;
        assert queue'[|queue| - 1 + k].0 == v;
      }
    }
  }

  /** Once the queue is empty the expanded boards are closed under moves, so
      every board reachable from the start was expanded. */
  lemma {:induction false} ClosedContainsReachable(start: Grid, expanded: seq<Grid>, p: seq<Move>)
    requires Closed([], expanded) && start in expanded
    requires ApplyPath(start, p).Some?
    ensures ApplyPath(start, p).value in expanded
    decreases |p|
  {
    if p != [] {
      var q, m := p[..|p| - 1], p[|p| - 1];
      ClosedContainsReachable(start, expanded, q);
      var t := ApplyPath(start, q).value;
      var i :| 0 <= i < |expanded| && expanded[i] == t;
      assert ApplyMove(expanded[i], m) == ApplyPath(start, p);
    }
  }

  /** An empty queue means no sequence of moves leads from the start to the
      goal. */
  lemma ExhaustedUnreachable(start: Grid, expanded: seq<Grid>)
    requires Invariant(start, [], expanded)
    ensures forall p :: ApplyPath(start, p) != Some(Goal)
  {
    forall p | ApplyPath(start, p).Some?
      ensures ApplyPath(start, p).value != Goal
    {
      ClosedContainsReachable(start, expanded, p);
    }
  }
}
