/** The breadth-first search `bfs` of lab2/8puzzle.py. The source loops
    until it finds the goal or runs out of queue; the model bounds the
    number of dequeues by `fuel`. */
module PuzzleBfs {

  import opened Wrappers
  import opened Directions
  import opened GridPuzzle
  import opened BfsQueue

  /** How the search ends: a path to the goal, an empty queue (the source
      returns `None`), a board without a blank (where the source raises), or
      the fuel spent. */
  datatype BfsResult = Found(path: seq<Move>) | Exhausted | NoBlank | OutOfFuel

  /** `bfs`: dequeue the head, return its path if its board is the goal,
      skip it if its board was expanded before, otherwise expand it and
      append one entry per neighbour. Also returns the boards expanded, in
      order, and the number of entries dequeued; `fuel` bounds that
      number. */
  method Bfs(start: Grid, fuel: nat) returns (r: BfsResult, expanded: seq<Grid>, steps: nat)
    ensures r.Found? ==> ApplyPath(start, r.path) == Some(Goal)
    ensures r.Exhausted? ==> forall p :: ApplyPath(start, p) != Some(Goal)
    ensures r.NoBlank? <==> fuel > 0 && start != Goal && FindBlank(start).None?
    ensures start == Goal && fuel > 0 ==> r == Found([]) && steps == 1
    ensures r.OutOfFuel? ==> steps == fuel
    ensures r.OutOfFuel? ==> fuel == 0 || |expanded| > 0
    ensures r.Found? || r.NoBlank? ==> 1 <= steps
    ensures |expanded| <= steps <= fuel && Distinct(expanded) && Goal !in expanded
  {
    var queue: seq<Entry> := [(start, [])];
    expanded := [];
    steps := 0;
    InitialInvariant(start);
    while steps < fuel && queue != []
      invariant Invariant(start, queue, expanded)
      invariant |expanded| <= steps <= fuel
      invariant steps == 0 ==> queue == [(start, [])] && expanded == []
      invariant steps > 0 ==> |expanded| > 0
      invariant steps > 0 && start != Goal ==> FindBlank(start).Some?
      invariant start == Goal ==> steps == 0
    {
      var (cur, path) := queue[0];
      HeadReached(start, queue, expanded);
      steps := steps + 1;
      if cur == Goal {
        return Found(path), expanded, steps;
      }
      if cur in expanded {
        SkipKeeps(start, queue, expanded);
        queue := queue[1..];
        continue;
      }
      match Neighbors(cur)
      case None =>
        if path != [] {
          ReachedHasBlank(start, path);
        }
        return NoBlank, expanded, steps;
      case Some(ns) =>
        ExpandKeeps(start, queue, expanded, ns);
        queue := queue[1..] + Enqueue(ns, path);
        expanded := expanded + [cur];
    }
    if queue == [] {
      ExhaustedUnreachable(start, expanded);
      r := Exhausted;
    } else {
      r := OutOfFuel;
    }
  }
}
