/**
 * Depth-first search over puzzle configurations: a LIFO frontier with the
 * depth of each entry, a visited set that marks a state when it is popped,
 * a depth limit, and a parent map that a later push may overwrite.
 */
module DfsSearch {
  import opened PuzzleState
  import opened ConfigSpace
  import opened PathReconstruction
  import opened Frontier

  /** DEPTH_LIMIT: states popped at this depth are not expanded. */
  const DEPTH_LIMIT: nat := 50

  /**
   * The search loop of DFSSearch.main. The stack is a sequence whose top is
   * its last element; depths runs beside it. On success the path runs from
   * start to a goal configuration by single moves, and makes at most
   * DEPTH_LIMIT moves: a state is first popped from the entry its parent
   * pushed, one deeper than the parent, so the parent links of visited
   * states run back to start one depth at a time. The search is not
   * complete (the depth limit and the visited set both prune), so failure
   * promises nothing beyond the empty path.
   */
  method Dfs(start: Config) returns (success: bool, path: seq<Config>, explored: nat)
    ensures success ==> |path| >= 1 && path[0] == start && IsGoal(path[|path| - 1]) && IsWalk(path)
    ensures success ==> |path| <= DEPTH_LIMIT + 1
    ensures !success ==> path == []
    ensures IsGoal(start) ==> success && path == [start] && explored == 1
    ensures explored <= WORDS
  {
    ghost var universe := Universe();
    var frontier: seq<Config> := [start];
    var depths: seq<nat> := [0];
    var parent: ParentMap := map[start := None];
    var visited: set<Config> := {};
    ghost var rank: map<Config, nat> := map[start := 0];
    ghost var counter: nat := 1;
    ghost var pushers: seq<Option<Config>> := [None];
    ghost var level: map<Config, nat> := map[];
    TreeStart(start);
    PushedStart(start);
    explored := 0;
    success := false;
    path := [];

    while frontier != []
      invariant SearchTree(parent, rank, counter, start)
      invariant Stacked(frontier, depths, parent)
      invariant Expanded(parent, visited)
      invariant start in visited || frontier == [start]
      invariant |visited| <= |universe|
      invariant explored == |visited|
      invariant Tracked(frontier, depths, pushers, parent, visited, level)
      invariant IsGoal(start) ==> explored == 0 && start !in visited
      decreases |universe| - |visited|, |frontier|
    {
      var current, depth;
      ghost var before := frontier;
      ghost var pusher;
      current, depth, frontier, depths, pusher, pushers := Pop(frontier, depths, parent, pushers, visited, level);
      assert start in visited || current == start by {
        if start !in visited {
          assert before == [start] && current == before[|before| - 1];
        }
      }

      if current in visited {
        continue;
      }
      explored := explored + 1;
      visited := visited + {current};
      level := level[current := depth];
      assert |visited| == explored;
      Within(visited, universe);

      if IsGoal(current) {
        success := true;
        path := TreePath(parent, current, rank, counter, start);
        WithinLimit(parent, visited, level, path);
        UniverseSize(visited);
        return;
      }

      if depth >= DEPTH_LIMIT {
        continue;
      }

      var ns := GetNeighbors(current);
      frontier, depths, parent, rank, counter, pushers :=
        PushUnvisited(ns, current, depth + 1, frontier, depths, visited, parent, rank, counter, start, pushers, level);
    }
    UniverseSize(visited);
  }

  /**
   * The entry at index j is the topmost entry of its state: no later push
   * of the same state lies above it.
   */
  ghost predicate Topmost(frontier: seq<Config>, j: int)
    requires 0 <= j < |frontier|
  {
    forall l | j < l < |frontier| :: frontier[l] != frontier[j]
  }

  /**
   * An entry for state k at depth d pushed by pusher (None for the start
   * entry) agrees with the parent map: k's parent is the pusher, and d is
   * one more than the depth at which the pusher was expanded.
   */
  ghost predicate EntryAgrees(k: Config, d: int, pusher: Option<Config>, parent: ParentMap,
                              visited: set<Config>, level: map<Config, nat>) {
    && k in parent && parent[k] == pusher
    && (pusher.None? ==> d == 0)
    && (pusher.Some? ==> pusher.value in visited && pusher.value in level && d == level[pusher.value] + 1)
  }

  /**
   * pushers records, per stack entry, the state whose expansion pushed it.
   * The topmost entry of each unvisited state agrees with the parent map:
   * the later push overwrote the parent and lies above any earlier one.
   */
  ghost predicate Pushed(frontier: seq<Config>, depths: seq<nat>, pushers: seq<Option<Config>>,
                         parent: ParentMap, visited: set<Config>, level: map<Config, nat>) {
    && |pushers| == |frontier| == |depths|
    && forall j {:trigger Topmost(frontier, j)} | 0 <= j < |frontier| && frontier[j] !in visited && Topmost(frontier, j) ::
         EntryAgrees(frontier[j], depths[j], pushers[j], parent, visited, level)
  }

  /**
   * level holds the depth at which each visited state was expanded, within
   * the limit; a visited state other than start has a visited parent one
   * level up, and start is at level 0.
   */
  ghost predicate Levels(parent: ParentMap, visited: set<Config>, level: map<Config, nat>) {
    && level.Keys == visited
    && forall k {:trigger level[k]} | k in visited ::
         && k in parent && level[k] <= DEPTH_LIMIT
         && (parent[k].None? ==> level[k] == 0)
         && (parent[k].Some? ==> parent[k].value in visited && level[k] == level[parent[k].value] + 1)
  }

  /** The pushers agree with the parent map and the levels climb back to start. */
  ghost predicate Tracked(frontier: seq<Config>, depths: seq<nat>, pushers: seq<Option<Config>>,
                          parent: ParentMap, visited: set<Config>, level: map<Config, nat>) {
    Pushed(frontier, depths, pushers, parent, visited, level) && Levels(parent, visited, level)
  }

  /** Popping an entry of a state already visited. */
  lemma SkipTop(frontier: seq<Config>, depths: seq<nat>, pushers: seq<Option<Config>>, current: Config, depth: nat,
                pusher: Option<Config>, parent: ParentMap, visited: set<Config>, level: map<Config, nat>)
    requires Tracked(frontier + [current], depths + [depth], pushers + [pusher], parent, visited, level)
    requires current in visited
    ensures Tracked(frontier, depths, pushers, parent, visited, level)
  {
    PushedPop(frontier, depths, pushers, current, depth, pusher, parent, visited, level, visited, level);
  }

  /** Popping the first entry of a new state, which is then visited at the entry's depth. */
  lemma VisitTop(frontier: seq<Config>, depths: seq<nat>, pushers: seq<Option<Config>>, current: Config, depth: nat,
                 pusher: Option<Config>, parent: ParentMap, visited: set<Config>, level: map<Config, nat>)
    requires Tracked(frontier + [current], depths + [depth], pushers + [pusher], parent, visited, level)
    requires current !in visited && depth <= DEPTH_LIMIT
    ensures Tracked(frontier, depths, pushers, parent, visited + {current}, level[current := depth])
  {
    PopFirst(frontier, depths, pushers, current, depth, pusher, parent, visited, level);
    PushedPop(frontier, depths, pushers, current, depth, pusher, parent, visited, level,
              visited + {current}, level[current := depth]);
    Visit(parent, visited, level, current, depth, pusher);
  }

  lemma PushedStart(start: Config)
    ensures Pushed([start], [0], [None], map[start := None], {}, map[])
    ensures Levels(map[start := None], {}, map[])
  {
    assert Topmost([start], 0);
  }

  /**
   * The first pop of a state is from its topmost entry: the state's parent
   * is the state that pushed that entry, expanded one level above.
   */
  lemma PopFirst(frontier: seq<Config>, depths: seq<nat>, pushers: seq<Option<Config>>, current: Config, depth: nat,
                 pusher: Option<Config>, parent: ParentMap, visited: set<Config>, level: map<Config, nat>)
    requires Pushed(frontier + [current], depths + [depth], pushers + [pusher], parent, visited, level)
    requires current !in visited
    ensures EntryAgrees(current, depth, pusher, parent, visited, level)
  {
    var f := frontier + [current];
    assert Topmost(f, |frontier|);
    assert f[|frontier|] == current && (depths + [depth])[|frontier|] == depth;
    assert (pushers + [pusher])[|frontier|] == pusher;
  }

  /** After a pop, the remaining entries still agree, whether or not the popped state was new. */
  lemma PushedPop(frontier: seq<Config>, depths: seq<nat>, pushers: seq<Option<Config>>, current: Config, depth: nat,
                  pusher: Option<Config>, parent: ParentMap, visited: set<Config>, level: map<Config, nat>,
                  visited': set<Config>, level': map<Config, nat>)
    requires Pushed(frontier + [current], depths + [depth], pushers + [pusher], parent, visited, level)
    requires visited' == visited + {current}
    requires forall k | k in level :: k in level' && level'[k] == level[k]
    ensures Pushed(frontier, depths, pushers, parent, visited', level')
  {
    var f, ds, ps := frontier + [current], depths + [depth], pushers + [pusher];
    forall j | 0 <= j < |frontier| && frontier[j] !in visited' && Topmost(frontier, j)
      ensures EntryAgrees(frontier[j], depths[j], pushers[j], parent, visited', level')
    {
      assert f[j] == frontier[j] && ds[j] == depths[j] && ps[j] == pushers[j];
      assert Topmost(f, j);
    }
  }

  /** Expanding a newly popped state at its entry's depth keeps the levels. */
  lemma Visit(parent: ParentMap, visited: set<Config>, level: map<Config, nat>, current: Config, depth: nat,
              pusher: Option<Config>)
    requires Levels(parent, visited, level) && current !in visited && depth <= DEPTH_LIMIT
    requires EntryAgrees(current, depth, pusher, parent, visited, level)
    ensures Levels(parent, visited + {current}, level[current := depth])
  {
    var level' := level[current := depth];
    forall k | k in visited + {current}
      ensures k in parent && level'[k] <= DEPTH_LIMIT
      ensures parent[k].None? ==> level'[k] == 0
      ensures parent[k].Some? ==> parent[k].value in visited + {current} && level'[k] == level'[parent[k].value] + 1
    {
      if k != current {
        assert level[k] == level'[k];
        if parent[k].Some? {
          assert level'[parent[k].value] == level[parent[k].value];
        }
      }
    }
  }

  /** An expansion's pushes agree with the re-pointed parent map, and visited states keep their parents. */
  lemma PushedPush(ns: seq<Config>, current: Config, d: nat, frontier: seq<Config>, depths: seq<nat>,
                   pushers: seq<Option<Config>>, parent: ParentMap, parent': ParentMap,
                   visited: set<Config>, level: map<Config, nat>)
    requires current in visited && current in level && d == level[current] + 1
    requires Tracked(frontier, depths, pushers, parent, visited, level)
    requires forall k :: k in parent' <==> k in parent || k in Unvisited(ns, visited)
    requires forall n | n in Unvisited(ns, visited) :: parent'[n] == Some(current)
    requires forall k | k in parent && k !in Unvisited(ns, visited) :: parent'[k] == parent[k]
    ensures Tracked(frontier + Unvisited(ns, visited), depths + Repeat(d, |Unvisited(ns, visited)|),
                    pushers + Repeat(Some(current), |Unvisited(ns, visited)|), parent', visited, level)
  {
    var u := Unvisited(ns, visited);
    var m := |pushers|;
    var f, ds, ps := frontier + u, depths + Repeat(d, |u|), pushers + Repeat(Some(current), |u|);
    UnvisitedMembers(ns, visited);
    forall j | 0 <= j < |f| && f[j] !in visited && Topmost(f, j)
      ensures EntryAgrees(f[j], ds[j], ps[j], parent', visited, level)
    {
      if j < m {
        assert f[j] == frontier[j] && ds[j] == depths[j] && ps[j] == pushers[j];
        assert Topmost(frontier, j) by {
          forall l | j < l < |frontier| ensures frontier[l] != frontier[j] {
            assert f[l] == frontier[l];
          }
        }
        forall i | 0 <= i < |u| ensures u[i] != f[j] {
          assert f[m + i] == u[i];
        }
      } else {
        assert f[j] == u[j - m] && ds[j] == d && ps[j] == Some(current);
      }
    }
    LevelsKept(parent, parent', visited, level, u);
  }

  /** Re-pointing only unvisited states leaves the levels of the visited ones as they were. */
  lemma LevelsKept(parent: ParentMap, parent': ParentMap, visited: set<Config>, level: map<Config, nat>, u: seq<Config>)
    requires Levels(parent, visited, level)
    requires forall k | k in u :: k !in visited
    requires forall k :: k in parent' <==> k in parent || k in u
    requires forall k | k in parent && k !in u :: parent'[k] == parent[k]
    ensures Levels(parent', visited, level)
  {
    forall k | k in visited
      ensures k in parent' && level[k] <= DEPTH_LIMIT
      ensures parent'[k].None? ==> level[k] == 0
      ensures parent'[k].Some? ==> parent'[k].value in visited && level[k] == level[parent'[k].value] + 1
    {
      assert level[k] == level[k];
    }
  }

  /** Walking back along parent links from a visited state climbs one level per link. */
  lemma {:induction false} LinkedLevels(parent: ParentMap, visited: set<Config>, level: map<Config, nat>,
                                        path: seq<Config>, i: int)
    requires Levels(parent, visited, level) && Linked(parent, path) && |path| >= 1
    requires path[|path| - 1] in visited && 0 <= i < |path|
    ensures path[i] in visited && level[path[i]] + (|path| - 1 - i) == level[path[|path| - 1]]
    decreases |path| - i
  {
    if i < |path| - 1 {
      LinkedLevels(parent, visited, level, path, i + 1);
      assert parent[path[i + 1]] == Some(path[i]);
      assert level[path[i + 1]] == level[path[i + 1]];
    }
  }

  /** A path read back from a visited state makes at most DEPTH_LIMIT moves. */
  lemma WithinLimit(parent: ParentMap, visited: set<Config>, level: map<Config, nat>, path: seq<Config>)
    requires Levels(parent, visited, level) && Linked(parent, path) && |path| >= 1
    requires path[|path| - 1] in visited
    ensures |path| <= DEPTH_LIMIT + 1
  {
    LinkedLevels(parent, visited, level, path, 0);
    assert level[path[|path| - 1]] <= DEPTH_LIMIT;
  }

  /** The stack and its depths, as parallel sequences: every entry is recorded and within the limit. */
  predicate Stacked(frontier: seq<Config>, depths: seq<nat>, parent: ParentMap) {
    && |depths| == |frontier|
    && forall j | 0 <= j < |frontier| :: frontier[j] in parent && depths[j] <= DEPTH_LIMIT
  }

  /**
   * Deque.pop on both stacks: the top state and its depth, with the ghost
   * record of who pushed that entry. The first pop of a state is from its
   * topmost entry, so the state's parent is the pusher, expanded one level
   * above the entry's depth.
   */
  method Pop(frontier: seq<Config>, depths: seq<nat>, ghost parent: ParentMap, ghost pushers: seq<Option<Config>>,
             ghost visited: set<Config>, ghost level: map<Config, nat>)
    returns (current: Config, depth: nat, frontier': seq<Config>, depths': seq<nat>,
             ghost pusher: Option<Config>, ghost pushers': seq<Option<Config>>)
    requires frontier != [] && Stacked(frontier, depths, parent)
    requires Tracked(frontier, depths, pushers, parent, visited, level)
    ensures current == frontier[|frontier| - 1]
    ensures frontier == frontier' + [current] && depths == depths' + [depth] && pushers == pushers' + [pusher]
    ensures Stacked(frontier', depths', parent) && current in parent && depth <= DEPTH_LIMIT
    ensures |frontier'| == |frontier| - 1
    ensures current !in visited ==> EntryAgrees(current, depth, pusher, parent, visited, level)
    ensures current in visited ==> Tracked(frontier', depths', pushers', parent, visited, level)
    ensures current !in visited ==>
              Tracked(frontier', depths', pushers', parent, visited + {current}, level[current := depth])
  {
    var top := |frontier| - 1;
    current, depth := frontier[top], depths[top];
    frontier', depths' := frontier[..top], depths[..top];
    pusher, pushers' := pushers[top], pushers[..top];
    assert frontier == frontier' + [current] && depths == depths' + [depth] && pushers == pushers' + [pusher];
    if current in visited {
      SkipTop(frontier', depths', pushers', current, depth, pusher, parent, visited, level);
    } else {
      PopFirst(frontier', depths', pushers', current, depth, pusher, parent, visited, level);
      VisitTop(frontier', depths', pushers', current, depth, pusher, parent, visited, level);
    }
  }

  /** Pushing a recorded state with a depth within the limit keeps the stacks well formed. */
  lemma StackPush(frontier: seq<Config>, depths: seq<nat>, parent: ParentMap, parent': ParentMap, n: Config, d: nat)
    requires Stacked(frontier, depths, parent) && d <= DEPTH_LIMIT
    requires forall k | k in parent :: k in parent'
    requires n in parent'
    ensures Stacked(frontier + [n], depths + [d], parent')
  {
  }

  /** n copies of d: the depths (or pushers) of the n entries pushed in one expansion. */
  function Repeat<T>(d: T, n: nat): (r: seq<T>)
    ensures |r| == n && forall j | 0 <= j < n :: r[j] == d
  {
    if n == 0 then [] else Repeat(d, n - 1) + [d]
  }

  /** Every visited state has a parent entry, and every recorded parent has been visited. */
  predicate Expanded(parent: ParentMap, visited: set<Config>) {
    && (forall k | k in visited :: k in parent)
    && (forall k {:trigger parent[k]} | k in parent && parent[k].Some? :: parent[k].value in visited)
  }

  /**
   * The expansion loop of DFSSearch.main: every neighbour not yet visited is
   * given current as parent (replacing any earlier parent) and pushed with
   * depth d.
   */
  method PushUnvisited(ns: seq<Config>, current: Config, d: nat, frontier: seq<Config>, depths: seq<nat>,
                       visited: set<Config>, parent: ParentMap, ghost rank: map<Config, nat>,
                       ghost counter: nat, ghost start: Config, ghost pushers: seq<Option<Config>>,
                       ghost level: map<Config, nat>)
    returns (frontier': seq<Config>, depths': seq<nat>, parent': ParentMap,
             ghost rank': map<Config, nat>, ghost counter': nat, ghost pushers': seq<Option<Config>>)
    requires SearchTree(parent, rank, counter, start)
    requires current in visited && start in visited
    requires Expanded(parent, visited)
    requires forall n | n in ns :: n in Neighbors(current)
    requires Stacked(frontier, depths, parent) && d <= DEPTH_LIMIT
    requires Tracked(frontier, depths, pushers, parent, visited, level) && current in level && d == level[current] + 1
    ensures SearchTree(parent', rank', counter', start)
    ensures Stacked(frontier', depths', parent')
    ensures frontier' == frontier + Unvisited(ns, visited)
    ensures depths' == depths + Repeat(d, |Unvisited(ns, visited)|)
    ensures forall k :: k in parent' <==> k in parent || k in Unvisited(ns, visited)
    ensures forall n | n in Unvisited(ns, visited) :: parent'[n] == Some(current)
    ensures forall k | k in parent && k !in Unvisited(ns, visited) :: parent'[k] == parent[k]
    ensures pushers' == pushers + Repeat(Some(current), |Unvisited(ns, visited)|)
    ensures Tracked(frontier', depths', pushers', parent', visited, level)
    ensures Expanded(parent', visited)
  {
    frontier', depths', parent', rank', counter' := frontier, depths, parent, rank, counter;
    ghost var pushed: seq<Config> := [];
    for i := 0 to |ns|
      invariant pushed == Unvisited(ns[..i], visited)
      invariant SearchTree(parent', rank', counter', start)
      invariant frontier' == frontier + pushed
      invariant depths' == depths + Repeat(d, |pushed|)
      invariant Stacked(frontier', depths', parent')
      invariant Repointed(parent, parent', pushed, current, visited)
    {
      var n := ns[i];
      UnvisitedNext(ns, i, visited);
      if n !in visited {
        Repoint(parent, parent', rank', counter', start, pushed, current, n, visited);
        StackPush(frontier', depths', parent', parent'[n := Some(current)], n, d);
        parent' := parent'[n := Some(current)];
        rank' := rank'[n := counter'];
        counter' := counter' + 1;
        PushBoth(frontier, depths, pushed, n, d);
        frontier' := frontier' + [n];
        depths' := depths' + [d];
        pushed := pushed + [n];
      }
    }
    assert ns[..|ns|] == ns;
    PushedPush(ns, current, d, frontier, depths, pushers, parent, parent', visited, level);
    pushers' := pushers + Repeat(Some(current), |Unvisited(ns, visited)|);
  }

  /**
   * parent' is parent with every state of pushed re-pointed at current, and
   * every recorded parent is a visited state.
   */
  ghost predicate Repointed(parent: ParentMap, parent': ParentMap, pushed: seq<Config>, current: Config,
                            visited: set<Config>) {
    && (forall k :: k in parent' <==> k in parent || k in pushed)
    && (forall n | n in pushed :: n in parent' && parent'[n] == Some(current))
    && (forall k | k in parent && k !in pushed :: k in parent' && parent'[k] == parent[k])
    && (forall k {:trigger parent'[k]} | k in parent' && parent'[k].Some? :: parent'[k].value in visited)
  }

  /** Pushing one more unvisited neighbour keeps the search tree and the re-pointing. */
  lemma Repoint(parent: ParentMap, parent': ParentMap, rank': map<Config, nat>, counter': nat, start: Config,
                pushed: seq<Config>, current: Config, n: Config, visited: set<Config>)
    requires SearchTree(parent', rank', counter', start)
    requires Repointed(parent, parent', pushed, current, visited)
    requires current in visited && start in visited && current in parent'
    requires n in Neighbors(current) && n !in visited
    ensures SearchTree(parent'[n := Some(current)], rank'[n := counter'], counter' + 1, start)
    ensures Repointed(parent, parent'[n := Some(current)], pushed + [n], current, visited)
  {
    Reattach(parent', rank', counter', start, current, n);
  }

  /** Pushing a state and its depth extends both stacks by one more entry of the expansion. */
  lemma PushBoth(frontier: seq<Config>, depths: seq<nat>, pushed: seq<Config>, n: Config, d: nat)
    ensures frontier + pushed + [n] == frontier + (pushed + [n])
    ensures depths + Repeat(d, |pushed|) + [d] == depths + Repeat(d, |pushed + [n]|)
  {
    assert Repeat(d, |pushed| + 1) == Repeat(d, |pushed|) + [d];
  }
}
