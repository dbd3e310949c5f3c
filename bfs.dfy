/**
 * Breadth-first search over puzzle configurations: a FIFO frontier, a
 * visited set that marks a state when it is enqueued, and a parent map
 * from which the solution path is read back.
 */
module BfsSearch {
  import opened PuzzleState
  import opened ConfigSpace
  import opened PathReconstruction

  /**
   * The search loop of BFSSearch.main. On success the path runs from start
   * to a goal configuration by single moves, and no walk from start to the
   * goal is shorter: the minimum number of moves. On failure the frontier
   * ran dry, which proves that no sequence of moves reaches the goal.
   * explored counts the states taken off the frontier.
   */
  method Bfs(start: Config) returns (success: bool, path: seq<Config>, explored: nat)
    ensures success ==> |path| >= 1 && path[0] == start && IsGoal(path[|path| - 1]) && IsWalk(path)
    ensures success ==> forall w: seq<Config> | GoalWalk(w) && w[0] == start :: |path| <= |w|
    ensures !success ==> path == [] && GoalUnreachable(start)
    ensures IsGoal(start) ==> success && path == [start] && explored == 1
  {
    ghost var universe := Universe();
    var frontier: seq<Config> := [start];
    var parent: ParentMap := map[start := None];
    ghost var rank: map<Config, nat> := map[start := 0];
    ghost var depth: map<Config, nat> := map[start := 0];
    ghost var counter: nat := 1;
    ghost var expanded: set<Config> := {};
    TreeStart(start);
    LayeredStart(start);
    explored := 0;
    success := false;
    path := [];

    while frontier != []
      invariant SearchTree(parent, rank, counter, start)
      invariant Layered(parent, depth, start) && Queued(frontier, depth)
      invariant forall k | k in frontier :: k in parent
      invariant forall k | k in parent :: k in expanded || k in frontier
      invariant Expanded(expanded, parent)
      invariant |parent| <= |universe|
      invariant explored + |frontier| == |parent|
      invariant IsGoal(start) ==> frontier == [start] && explored == 0
      decreases 2 * (|universe| - |parent|) + |frontier|
    {
      var current := frontier[0];
      ghost var queued := frontier;
      frontier := frontier[1..];
      explored := explored + 1;

      if IsGoal(current) {
        success := true;
        path := TreePath(parent, current, rank, counter, start);
        ShortestFound(parent, depth, start, path);
        return;
      }

      var ns := GetNeighbors(current);
      ghost var parent0, depth0, added := parent, depth, [];
      LowSettledAtHead(expanded, parent, depth, queued);
      frontier, parent, rank, counter, depth, added :=
        EnqueueNew(ns, current, frontier, parent, rank, counter, start, depth);
      QueuedStep(queued, depth0, depth, added);
      KeysWithin(parent, universe);
      ExpandedStep(expanded, parent0, parent, current);
      expanded := expanded + {current};
    }
    ExpandedClosed(expanded, parent);
    ExhaustedMeansUnreachable(parent.Keys, start);
  }

  /** w is a walk from start that ends at k. */
  ghost predicate WalkTo(w: seq<Config>, start: Config, k: Config) {
    |w| >= 1 && w[0] == start && IsWalk(w) && w[|w| - 1] == k
  }

  /** Every walk from start to k makes at least d moves. */
  ghost predicate AtLeast(start: Config, k: Config, d: int) {
    forall w: seq<Config> | WalkTo(w, start, k) :: d + 1 <= |w|
  }

  /** k's depth is one more than its parent's, and no walk from start reaches k in fewer moves. */
  ghost predicate Layer(parent: ParentMap, depth: map<Config, nat>, start: Config, k: Config)
    requires k in parent
  {
    && k in depth && AtLeast(start, k, depth[k])
    && (parent[k].Some? ==> parent[k].value in depth && depth[k] == depth[parent[k].value] + 1)
  }

  /**
   * The depth of every recorded state is its number of parent links from
   * start, and is the least number of moves that reaches it.
   */
  ghost predicate Layered(parent: ParentMap, depth: map<Config, nat>, start: Config) {
    && start in depth && depth[start] == 0 && depth.Keys <= parent.Keys
    && forall k {:trigger Layer(parent, depth, start, k)} | k in parent :: Layer(parent, depth, start, k)
  }

  /** The queue holds states of two adjacent depths at most, in non-decreasing order of depth. */
  ghost predicate Queued(frontier: seq<Config>, depth: map<Config, nat>) {
    && (forall i | 0 <= i < |frontier| :: frontier[i] in depth)
    && forall i, j | 0 <= i < j < |frontier| ::
         depth[frontier[i]] <= depth[frontier[j]] <= depth[frontier[i]] + 1
  }

  /** Every neighbour of k is recorded. */
  ghost predicate Closes(parent: ParentMap, k: Config) {
    forall n | n in Neighbors(k) :: n in parent
  }

  /** Every recorded state shallower than m has all its neighbours recorded. */
  ghost predicate LowSettled(parent: ParentMap, depth: map<Config, nat>, m: int) {
    forall k {:trigger Closes(parent, k)} | k in parent && k in depth && depth[k] < m :: Closes(parent, k)
  }

  lemma LayeredStart(start: Config)
    ensures Layered(map[start := None], map[start := 0], start)
  {
    var parent: ParentMap, depth: map<Config, nat> := map[start := None], map[start := 0];
    assert AtLeast(start, start, 0);
    assert Layer(parent, depth, start, start);
  }

  /** A walk that starts inside parent and ends outside it leaves parent at some step. */
  lemma {:induction false} FirstExit(w: seq<Config>, parent: ParentMap) returns (j: int)
    requires |w| >= 1 && w[0] in parent && w[|w| - 1] !in parent
    ensures 1 <= j < |w| && w[j - 1] in parent && w[j] !in parent
  {
    if w[|w| - 2] in parent {
      j := |w| - 1;
    } else {
      j := FirstExit(w[..|w| - 1], parent);
    }
  }

  /**
   * The breadth-first argument: when every state shallower than m has all
   * its neighbours recorded, an unrecorded state needs at least m + 1
   * moves, because a walk to it must leave the recorded states from one of
   * depth m or more.
   */
  lemma Deeper(parent: ParentMap, depth: map<Config, nat>, start: Config, m: int, n: Config)
    requires Layered(parent, depth, start) && start in parent && LowSettled(parent, depth, m)
    requires n !in parent
    ensures AtLeast(start, n, m + 1)
  {
    forall w: seq<Config> | WalkTo(w, start, n) ensures m + 2 <= |w| {
      var j := FirstExit(w, parent);
      var k := w[j - 1];
      assert w[j] in Neighbors(k);
      assert !Closes(parent, k);
      assert Layer(parent, depth, start, k);
      var v := w[..j];
      assert WalkTo(v, start, k) by {
        forall i | 1 <= i < |v| ensures v[i] in Neighbors(v[i - 1]) {
          assert v[i] == w[i] && v[i - 1] == w[i - 1];
        }
      }
    }
  }

  /** Recording a new neighbour n of current, one deeper than current, keeps the layering. */
  lemma AttachLayer(parent: ParentMap, depth: map<Config, nat>, start: Config, m: int, current: Config, n: Config)
    requires Layered(parent, depth, start) && start in parent && LowSettled(parent, depth, m)
    requires current in parent && current in depth && depth[current] == m && n !in parent
    ensures Layered(parent[n := Some(current)], depth[n := m + 1], start)
    ensures LowSettled(parent[n := Some(current)], depth[n := m + 1], m)
  {
    var parent', depth' := parent[n := Some(current)], depth[n := m + 1];
    Deeper(parent, depth, start, m, n);
    forall k | k in parent' ensures Layer(parent', depth', start, k) {
      if k != n {
        assert Layer(parent, depth, start, k);
      }
    }
    forall k | k in parent' && k in depth' && depth'[k] < m ensures Closes(parent', k) {
      assert Closes(parent, k);
    }
  }

  /**
   * At the head of the loop, the states shallower than the head of the
   * queue have all been expanded, so all their neighbours are recorded.
   */
  lemma LowSettledAtHead(expanded: set<Config>, parent: ParentMap, depth: map<Config, nat>, queued: seq<Config>)
    requires queued != [] && Queued(queued, depth) && Expanded(expanded, parent)
    requires forall k | k in parent :: k in expanded || k in queued
    ensures LowSettled(parent, depth, depth[queued[0]])
  {
    forall k | k in parent && k in depth && depth[k] < depth[queued[0]] ensures Closes(parent, k) {
      assert k in expanded;
      assert Settled(k, parent);
    }
  }

  /** Popping the head and appending states one deeper than it keeps the queue ordered by depth. */
  lemma QueuedStep(queued: seq<Config>, depth: map<Config, nat>, depth': map<Config, nat>, added: seq<Config>)
    requires queued != [] && Queued(queued, depth)
    requires forall k | k in depth :: k in depth' && depth'[k] == depth[k]
    requires forall k | k in added :: k in depth' && depth'[k] == depth[queued[0]] + 1
    ensures Queued(queued[1..] + added, depth')
  {
    var q := queued[1..] + added;
    forall i | 0 <= i < |q| ensures q[i] in depth' {
      if i < |queued| - 1 {
        assert q[i] == queued[i + 1];
      } else {
        assert q[i] in added;
      }
    }
    forall i, j | 0 <= i < j < |q| ensures depth'[q[i]] <= depth'[q[j]] <= depth'[q[i]] + 1 {
      if j < |queued| - 1 {
        assert q[i] == queued[i + 1] && q[j] == queued[j + 1];
      } else if i < |queued| - 1 {
        assert q[i] == queued[i + 1] && q[j] in added;
        assert depth[queued[0]] <= depth[queued[i + 1]] <= depth[queued[0]] + 1;
      } else {
        assert q[i] in added && q[j] in added;
      }
    }
  }

  /** Following parent links from start, the state at index i of a linked path has depth i. */
  lemma {:induction false} LinkedDepth(parent: ParentMap, depth: map<Config, nat>, start: Config, path: seq<Config>, i: int)
    requires Layered(parent, depth, start) && |path| >= 1 && path[0] == start && Linked(parent, path)
    requires 0 <= i < |path|
    ensures path[i] in depth && depth[path[i]] == i
  {
    if i > 0 {
      LinkedDepth(parent, depth, start, path, i - 1);
      assert Layer(parent, depth, start, path[i]);
    }
  }

  /** The path read back to a goal is as short as any walk from start to the goal. */
  lemma ShortestFound(parent: ParentMap, depth: map<Config, nat>, start: Config, path: seq<Config>)
    requires Layered(parent, depth, start) && |path| >= 1 && path[0] == start && Linked(parent, path)
    requires path[|path| - 1] in parent && IsGoal(path[|path| - 1])
    ensures forall w: seq<Config> | GoalWalk(w) && w[0] == start :: |path| <= |w|
  {
    var goal := path[|path| - 1];
    LinkedDepth(parent, depth, start, path, |path| - 1);
    assert Layer(parent, depth, start, goal);
    forall w: seq<Config> | GoalWalk(w) && w[0] == start ensures |path| <= |w| {
      assert WalkTo(w, start, goal);
    }
  }

  /** k is recorded, is not the goal, and all its neighbours are recorded. */
  ghost predicate Settled(k: Config, parent: ParentMap) {
    k in parent && !IsGoal(k) && forall n | n in Neighbors(k) :: n in parent
  }

  /** Every state taken off the queue is settled. */
  ghost predicate Expanded(expanded: set<Config>, parent: ParentMap) {
    forall k {:trigger Settled(k, parent)} | k in expanded :: Settled(k, parent)
  }

  /** Expanding one more state keeps Expanded, as the parent map only grows. */
  lemma ExpandedStep(expanded: set<Config>, parent: ParentMap, parent': ParentMap, current: Config)
    requires Expanded(expanded, parent)
    requires forall k | k in parent :: k in parent'
    requires Settled(current, parent')
    ensures Expanded(expanded + {current}, parent')
  {
    forall k | k in expanded + {current} ensures Settled(k, parent') {
      if k in expanded {
        assert Settled(k, parent);
      }
    }
  }

  /** The exhaustion argument: once the queue is empty, the recorded states are closed under moves. */
  lemma ExpandedClosed(expanded: set<Config>, parent: ParentMap)
    requires Expanded(expanded, parent)
    requires forall k | k in parent :: k in expanded
    ensures forall k | k in parent.Keys :: !IsGoal(k)
    ensures forall k | k in parent.Keys :: forall n | n in Neighbors(k) :: n in parent.Keys
  {
    forall k | k in parent.Keys ensures !IsGoal(k) && forall n | n in Neighbors(k) :: n in parent.Keys {
      assert Settled(k, parent);
    }
  }

  /**
   * The expansion loop of BFSSearch.main: every neighbour not yet visited
   * is marked visited, given current as parent and appended to the queue.
   * added lists the newly visited states in the order they were queued;
   * each lies one move deeper than current.
   */
  method EnqueueNew(ns: seq<Config>, current: Config, frontier: seq<Config>,
                    parent: ParentMap, ghost rank: map<Config, nat>, ghost counter: nat, ghost start: Config,
                    ghost depth: map<Config, nat>)
    returns (frontier': seq<Config>, parent': ParentMap,
             ghost rank': map<Config, nat>, ghost counter': nat, ghost depth': map<Config, nat>, ghost added: seq<Config>)
    requires SearchTree(parent, rank, counter, start) && current in parent
    requires forall n | n in ns :: n in Neighbors(current)
    requires Layered(parent, depth, start) && current in depth && LowSettled(parent, depth, depth[current])
    ensures SearchTree(parent', rank', counter', start)
    ensures frontier' == frontier + added
    ensures forall k | k in parent :: k in parent' && parent'[k] == parent[k]
    ensures forall k | k in parent' :: k in parent || k in added
    ensures forall k | k in added :: k in parent' && k !in parent && parent'[k] == Some(current)
    ensures forall n | n in ns :: n in parent'
    ensures |parent'| == |parent| + |added|
    ensures Layered(parent', depth', start)
    ensures forall k | k in depth :: k in depth' && depth'[k] == depth[k]
    ensures forall k | k in added :: k in depth' && depth'[k] == depth[current] + 1
  {
    frontier', parent', rank', counter', depth' := frontier, parent, rank, counter, depth;
    added := [];
    ghost var m := depth[current];
    for i := 0 to |ns|
      invariant SearchTree(parent', rank', counter', start)
      invariant frontier' == frontier + added
      invariant forall k | k in parent :: k in parent' && parent'[k] == parent[k]
      invariant forall k | k in parent' :: k in parent || k in added
      invariant forall k | k in added :: k in parent' && k !in parent && parent'[k] == Some(current)
      invariant forall j | 0 <= j < i :: ns[j] in parent'
      invariant |parent'| == |parent| + |added|
      invariant Layered(parent', depth', start) && LowSettled(parent', depth', m)
      invariant forall k | k in depth :: k in depth' && depth'[k] == depth[k]
      invariant forall k | k in added :: k in depth' && depth'[k] == m + 1
    {
      var n := ns[i];
      if n !in parent' {
        Attach(parent', rank', counter', start, current, n);
        AttachLayer(parent', depth', start, m, current, n);
        parent' := parent'[n := Some(current)];
        rank' := rank'[n := counter'];
        depth' := depth'[n := m + 1];
        counter' := counter' + 1;
        frontier' := frontier' + [n];
        added := added + [n];
      }
    }
  }
}
