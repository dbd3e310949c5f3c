/**
 * Greedy best-first search over puzzle configurations: the frontier is a
 * priority queue ordered by the Manhattan-distance heuristic h2 alone; a
 * state is marked visited when it is taken off the queue, and its parent is
 * the first state it was discovered from.
 */
module GreedySearch {
  import opened PuzzleState
  import opened ConfigSpace
  import opened PathReconstruction
  import opened Frontier

  /**
   * The search loop of GreedyBestFirstSearch.main. Each iteration takes an
   * entry of least h2 off the queue. On success the path runs from start to
   * a goal configuration by single moves; on failure every state reachable
   * from start was expanded, so no sequence of moves reaches the goal.
   */
  method Greedy(start: Config) returns (success: bool, path: seq<Config>, explored: nat)
    ensures success ==> |path| >= 1 && path[0] == start && IsGoal(path[|path| - 1]) && IsWalk(path)
    ensures !success ==> path == [] && GoalUnreachable(start)
    ensures IsGoal(start) ==> success && path == [start] && explored == 1
    ensures explored <= WORDS
  {
    ghost var universe := Universe();
    var frontier: seq<Config> := [start];
    var priority: seq<int> := [H2(start)];
    var parent: ParentMap := map[start := None];
    var visited: set<Config> := {};
    ghost var rank: map<Config, nat> := map[start := 0];
    ghost var counter: nat := 1;
    TreeStart(start);
    explored := 0;
    success := false;
    path := [];

    while frontier != []
      invariant SearchTree(parent, rank, counter, start)
      invariant Queued(frontier, priority, parent)
      invariant Explored(visited, frontier, parent)
      invariant start in visited || start in frontier
      invariant |visited| <= |universe|
      invariant explored == |visited|
      invariant IsGoal(start) ==> visited == {} && frontier == [start]
      decreases |universe| - |visited|, |frontier|
    {
      ghost var visited0, frontier0 := visited, frontier;
      var current;
      ghost var least;
      current, frontier, priority, least := Poll(frontier, priority, parent);

      if current in visited {
        Discarded(visited, frontier0, frontier, parent, current);
        continue;
      }
      explored := explored + 1;
      visited := visited + {current};
      assert |visited| == explored;
      Within(visited, universe);

      if IsGoal(current) {
        success := true;
        path := TreePath(parent, current, rank, counter, start);
        UniverseSize(visited);
        return;
      }

      frontier, priority, parent, rank, counter :=
        Expand(current, frontier, priority, visited, visited0, frontier0, parent, rank, counter, start);
    }
    ExploredClosed(visited, parent);
    ExhaustedMeansUnreachable(visited, start);
    UniverseSize(visited);
  }

  /** The queue as parallel sequences of states and their h2 priorities; every queued state is recorded. */
  predicate Queued(frontier: seq<Config>, priority: seq<int>, parent: ParentMap) {
    && |priority| == |frontier|
    && forall j | 0 <= j < |frontier| :: frontier[j] in parent && priority[j] == H2(frontier[j])
  }

  /** Every neighbour of k is visited or waiting in the queue. */
  ghost predicate Surrounded(k: Config, visited: set<Config>, frontier: seq<Config>) {
    forall n | n in Neighbors(k) :: n in visited || n in frontier
  }

  /** Every visited state is recorded, is not the goal, and has all its neighbours visited or queued. */
  ghost predicate Explored(visited: set<Config>, frontier: seq<Config>, parent: ParentMap) {
    forall k {:trigger Surrounded(k, visited, frontier)} | k in visited ::
      k in parent && !IsGoal(k) && Surrounded(k, visited, frontier)
  }

  /**
   * One iteration keeps Explored: the states it newly visits satisfy it,
   * and whatever leaves the queue becomes visited.
   */
  lemma ExploredStep(visited: set<Config>, frontier: seq<Config>, parent: ParentMap,
                     visited': set<Config>, frontier': seq<Config>, parent': ParentMap)
    requires Explored(visited, frontier, parent)
    requires visited <= visited'
    requires forall n | n in frontier :: n in visited' || n in frontier'
    requires forall k | k in parent :: k in parent'
    requires forall k | k in visited' && k !in visited :: k in parent' && !IsGoal(k) && Surrounded(k, visited', frontier')
    ensures Explored(visited', frontier', parent')
  {
    forall k | k in visited' ensures k in parent' && !IsGoal(k) && Surrounded(k, visited', frontier') {
      if k in visited {
        assert Surrounded(k, visited, frontier);
      }
    }
  }

  /** Discarding an already visited entry keeps Explored. */
  lemma Discarded(visited: set<Config>, frontier: seq<Config>, frontier': seq<Config>, parent: ParentMap, current: Config)
    requires Explored(visited, frontier, parent) && current in visited
    requires forall k | k in frontier && k != current :: k in frontier'
    ensures Explored(visited, frontier', parent)
  {
    ExploredStep(visited, frontier, parent, visited, frontier', parent);
  }

  /** Visiting and expanding current keeps Explored. */
  lemma Expanded(visited: set<Config>, frontier: seq<Config>, parent: ParentMap, current: Config,
                 frontier': seq<Config>, parent': ParentMap)
    requires Explored(visited, frontier, parent)
    requires forall k | k in frontier && k != current :: k in frontier'
    requires forall k | k in parent :: k in parent'
    requires current in parent' && !IsGoal(current) && Surrounded(current, visited + {current}, frontier')
    ensures Explored(visited + {current}, frontier', parent')
  {
    ExploredStep(visited, frontier, parent, visited + {current}, frontier', parent');
  }

  /** With the queue empty, the visited states are closed under moves. */
  lemma ExploredClosed(visited: set<Config>, parent: ParentMap)
    requires Explored(visited, [], parent)
    ensures forall k | k in visited :: !IsGoal(k)
    ensures forall k | k in visited :: forall n | n in Neighbors(k) :: n in visited
  {
    forall k | k in visited ensures !IsGoal(k) && forall n | n in Neighbors(k) :: n in visited {
      assert Surrounded(k, visited, []);
    }
  }

  /**
   * PriorityQueue.poll: removes and returns an entry of least priority
   * (ties are broken by the queue's internal order, left open here).
   */
  method Poll(frontier: seq<Config>, priority: seq<int>, ghost parent: ParentMap)
    returns (current: Config, frontier': seq<Config>, priority': seq<int>, ghost i: nat)
    requires frontier != [] && Queued(frontier, priority, parent)
    ensures LeastAt(priority, i) && current == frontier[i]
    ensures frontier' == RemoveAt(frontier, i) && priority' == RemoveAt(priority, i)
    ensures Queued(frontier', priority', parent) && current in parent
    ensures forall k | k in frontier && k != current :: k in frontier'
    ensures forall k | k in frontier' :: k in frontier
    ensures |frontier'| < |frontier|
  {
    LeastExists(priority);
    var m :| LeastAt(priority, m);
    current := frontier[m];
    frontier', priority' := RemoveAt(frontier, m), RemoveAt(priority, m);
    forall k | k in frontier && k != current ensures k in frontier' {
      RemoveAtKeeps(frontier, m, k);
    }
    i := m;
  }

  /**
   * Node.compareTo orders by h alone: the entry poll returns has the least
   * h2 of all queued states.
   */
  lemma PolledIsLeast(frontier: seq<Config>, priority: seq<int>, parent: ParentMap, i: int)
    requires Queued(frontier, priority, parent) && LeastAt(priority, i)
    ensures 0 <= i < |frontier|
    ensures forall j | 0 <= j < |frontier| :: H2(frontier[i]) <= H2(frontier[j])
  {
    forall j | 0 <= j < |frontier| ensures H2(frontier[i]) <= H2(frontier[j]) {
      assert priority[i] <= priority[j];
    }
  }

  /**
   * Expanding current: its neighbours are generated and the unvisited ones
   * queued. Afterwards every neighbour is visited or queued, and nothing
   * that was queued or recorded is lost.
   */
  method Expand(current: Config, frontier: seq<Config>, priority: seq<int>, visited: set<Config>,
                ghost before: set<Config>, ghost polled: seq<Config>, parent: ParentMap, ghost rank: map<Config, nat>, ghost counter: nat,
                ghost start: Config)
    returns (frontier': seq<Config>, priority': seq<int>, parent': ParentMap,
             ghost rank': map<Config, nat>, ghost counter': nat)
    requires SearchTree(parent, rank, counter, start) && current in parent && !IsGoal(current)
    requires Queued(frontier, priority, parent)
    requires visited == before + {current} && Explored(before, polled, parent)
    requires forall k | k in polled && k != current :: k in frontier
    ensures SearchTree(parent', rank', counter', start)
    ensures Queued(frontier', priority', parent')
    ensures Explored(visited, frontier', parent')
    ensures forall k | k in frontier :: k in frontier'
    ensures forall k | k in parent :: k in parent'
  {
    var ns := GetNeighbors(current);
    UnvisitedMembers(ns, visited);
    frontier', priority', parent', rank', counter' :=
      QueueUnvisited(ns, current, frontier, priority, visited, parent, rank, counter, start);
    Expanded(before, polled, parent, current, frontier', parent');
  }

  /**
   * The expansion loop of GreedyBestFirstSearch.main: every neighbour not
   * yet visited is queued, and recorded with current as parent unless it
   * already has an entry in the parent map.
   */
  method QueueUnvisited(ns: seq<Config>, current: Config, frontier: seq<Config>, priority: seq<int>,
                        visited: set<Config>, parent: ParentMap, ghost rank: map<Config, nat>, ghost counter: nat,
                        ghost start: Config)
    returns (frontier': seq<Config>, priority': seq<int>, parent': ParentMap,
             ghost rank': map<Config, nat>, ghost counter': nat)
    requires SearchTree(parent, rank, counter, start) && current in parent
    requires forall n | n in ns :: n in Neighbors(current)
    requires Queued(frontier, priority, parent)
    ensures SearchTree(parent', rank', counter', start)
    ensures frontier' == frontier + Unvisited(ns, visited)
    ensures Queued(frontier', priority', parent')
    ensures forall k :: k in parent' <==> k in parent || k in Unvisited(ns, visited)
    ensures forall k | k in parent :: parent'[k] == parent[k]
    ensures forall n | n in Unvisited(ns, visited) && n !in parent :: parent'[n] == Some(current)
  {
    frontier', priority', parent', rank', counter' := frontier, priority, parent, rank, counter;
    ghost var queued: seq<Config> := [];
    for i := 0 to |ns|
      invariant queued == Unvisited(ns[..i], visited)
      invariant SearchTree(parent', rank', counter', start)
      invariant frontier' == frontier + queued
      invariant Queued(frontier', priority', parent')
      invariant forall k :: k in parent' <==> k in parent || k in queued
      invariant forall k | k in parent :: parent'[k] == parent[k]
      invariant forall n | n in queued && n !in parent :: parent'[n] == Some(current)
    {
      var n := ns[i];
      UnvisitedNext(ns, i, visited);
      if n !in visited {
        if n !in parent' {
          Attach(parent', rank', counter', start, current, n);
          parent' := parent'[n := Some(current)];
          rank' := rank'[n := counter'];
          counter' := counter' + 1;
        }
        Enqueue(frontier, queued, frontier', priority', parent', n);
        frontier', priority' := frontier' + [n], priority' + [H2(n)];
        queued := queued + [n];
      }
    }
    assert ns[..|ns|] == ns;
  }

  /** Offering a recorded state with its h2 keeps the queue well formed and extends the queued sequence. */
  lemma Enqueue(frontier: seq<Config>, queued: seq<Config>, frontier': seq<Config>, priority': seq<int>,
                parent': ParentMap, n: Config)
    requires Queued(frontier', priority', parent') && n in parent'
    ensures frontier + queued + [n] == frontier + (queued + [n])
    ensures Queued(frontier' + [n], priority' + [H2(n)], parent')
  {
  }
}
