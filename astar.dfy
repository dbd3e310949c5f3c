/**
 * A* search over puzzle configurations. Queue entries carry g (moves from
 * the start), h (h1 or h2) and f = g + h. The search keeps, for each state,
 * the best g found so far (bestG), and relaxes a neighbour whenever a
 * strictly cheaper path to it appears. The parent map is keyed by state;
 * Java's stateMap (key string to array) is the identity here, because a
 * configuration is its own key.
 */
module AStarSearch {
  import opened PuzzleState
  import opened ConfigSpace
  import opened PathReconstruction
  import opened Frontier

  /** AStarSearch.Node: a queued state with its path cost g and estimate h. */
  datatype Node = Node(state: Config, g: int, h: int) {
    /** The total estimated cost f = g + h. */
    function F(): int {
      g + h
    }
  }

  /** Integer.compare: the sign of x - y. */
  function IntCompare(x: int, y: int): (c: int)
    ensures c == -1 || c == 0 || c == 1
    ensures c < 0 <==> x < y
    ensures c == 0 <==> x == y
  {
    if x < y then -1 else if x == y then 0 else 1
  }

  /**
   * Node.compareTo: by f, ties broken in favour of the smaller h. A
   * negative result means a is taken off the queue first.
   */
  function Compare(a: Node, b: Node): (c: int)
    ensures c == -1 || c == 0 || c == 1
    ensures c < 0 <==> a.F() < b.F() || (a.F() == b.F() && a.h < b.h)
    ensures c == 0 <==> a.F() == b.F() && a.h == b.h
  {
    if a.F() != b.F() then IntCompare(a.F(), b.F()) else IntCompare(a.h, b.h)
  }

  /** compareTo is antisymmetric in sign. */
  lemma CompareAntisymmetric(a: Node, b: Node)
    ensures Compare(a, b) == -Compare(b, a)
  {
  }

  /** compareTo is transitive, so it is a total preorder on nodes. */
  lemma CompareTransitive(a: Node, b: Node, c: Node)
    requires Compare(a, b) <= 0 && Compare(b, c) <= 0
    ensures Compare(a, c) <= 0
  {
  }

  // ---------------------------------------------------------------------------
  // The priority queue

  /** Index i holds a node that compareTo puts no later than any other. */
  predicate FirstOut(frontier: seq<Node>, i: int) {
    0 <= i < |frontier| && forall j | 0 <= j < |frontier| :: Compare(frontier[i], frontier[j]) <= 0
  }

  /** A non-empty queue has a node to poll (compareTo is a total preorder). */
  lemma {:induction false} FirstOutExists(frontier: seq<Node>)
    requires frontier != []
    ensures exists i :: FirstOut(frontier, i)
  {
    if |frontier| == 1 {
      assert FirstOut(frontier, 0);
    } else {
      var rest := frontier[..|frontier| - 1];
      var last := frontier[|frontier| - 1];
      FirstOutExists(rest);
      var i :| FirstOut(rest, i);
      if Compare(last, rest[i]) < 0 {
        forall j | 0 <= j < |frontier| ensures Compare(last, frontier[j]) <= 0 {
          if j < |frontier| - 1 {
            CompareTransitive(last, rest[i], frontier[j]);
          }
        }
        assert FirstOut(frontier, |frontier| - 1);
      } else {
        assert FirstOut(frontier, i);
      }
    }
  }

  /** PriorityQueue.poll: removes and returns a node that compareTo puts first. */
  method Poll(frontier: seq<Node>) returns (node: Node, frontier': seq<Node>, ghost i: nat)
    requires frontier != []
    ensures FirstOut(frontier, i) && node == frontier[i]
    ensures frontier' == RemoveAt(frontier, i)
    ensures forall x | x in frontier && x != node :: x in frontier'
    ensures forall x | x in frontier' :: x in frontier
    ensures |frontier'| < |frontier|
  {
    FirstOutExists(frontier);
    var m :| FirstOut(frontier, m);
    node := frontier[m];
    frontier' := RemoveAt(frontier, m);
    forall x | x in frontier && x != node ensures x in frontier' {
      RemoveAtKeeps(frontier, m, x);
    }
    i := m;
  }

  // ---------------------------------------------------------------------------
  // The invariants of runAStar

  /**
   * The parent map and bestG of a search rooted at start: they have the same
   * keys, start has cost 0 and no parent, and every other state's parent is
   * a recorded state one move away with a strictly smaller bestG.
   */
  ghost predicate CostTree(parent: ParentMap, bestG: map<Config, nat>, start: Config) {
    && start in parent && parent[start] == None
    && start in bestG && bestG[start] == 0
    && (forall k :: k in parent <==> k in bestG)
    && forall k {:trigger CostNode(parent, bestG, start, k)} | k in parent :: CostNode(parent, bestG, start, k)
  }

  /** What CostTree asks of one recorded state k. */
  ghost predicate CostNode(parent: ParentMap, bestG: map<Config, nat>, start: Config, k: Config)
    requires k in parent
  {
    && k in bestG
    && (parent[k].None? ==> k == start)
    && (parent[k].Some? ==> parent[k].value in parent && k in Neighbors(parent[k].value)
                            && parent[k].value in bestG && bestG[parent[k].value] < bestG[k])
  }

  /** The search that has only queued start. */
  lemma CostTreeStart(start: Config)
    ensures CostTree(map[start := None], map[start := 0], start)
  {
    var parent: ParentMap, bestG: map<Config, nat> := map[start := None], map[start := 0];
    forall k | k in parent ensures CostNode(parent, bestG, start, k) { }
  }

  /** A state is not its own neighbour. */
  lemma NotOwnNeighbor(s: Config)
    ensures s !in Neighbors(s)
  {
    if s in Neighbors(s) {
      var k :| 0 <= k < |Neighbors(s)| && Neighbors(s)[k] == s;
      NeighborDiffers(s, k);
    }
  }

  /**
   * Recording cur as the parent of its neighbour n, with a cost above cur's
   * and below n's previous best, keeps the tree.
   */
  lemma Relax(parent: ParentMap, bestG: map<Config, nat>, start: Config, cur: Config, n: Config, v: nat)
    requires CostTree(parent, bestG, start)
    requires cur in parent && n in Neighbors(cur) && bestG[cur] < v
    requires n !in bestG || v < bestG[n]
    ensures CostTree(parent[n := Some(cur)], bestG[n := v], start)
  {
    var parent', bestG' := parent[n := Some(cur)], bestG[n := v];
    NotOwnNeighbor(cur);
    assert CostNode(parent, bestG, start, cur);
    forall k | k in parent' ensures CostNode(parent', bestG', start, k) {
      if k != n {
        assert CostNode(parent, bestG, start, k);
      }
    }
  }

  /** A tree with costs can be walked back, and its links are moves. */
  lemma CostTreeParts(parent: ParentMap, bestG: map<Config, nat>, start: Config)
    requires CostTree(parent, bestG, start)
    ensures Closed(parent) && Ranked(parent, bestG) && LinksAreMoves(parent)
    ensures forall k | k in parent && parent[k] == None :: k == start
  {
    forall k | k in parent ensures CostNode(parent, bestG, start, k) { }
  }

  /**
   * reconstructPath on the tree A* built: a walk from start to goal with
   * at most bestG[goal] moves, each one a recorded parent link.
   */
  method CostPath(parent: ParentMap, bestG: map<Config, nat>, goal: Config, ghost start: Config)
    returns (path: seq<Config>)
    requires CostTree(parent, bestG, start) && goal in parent
    ensures |path| >= 1 && path[0] == start && path[|path| - 1] == goal
    ensures Linked(parent, path) && IsWalk(path)
    ensures |path| <= bestG[goal] + 1
    ensures goal == start ==> path == [start]
  {
    CostTreeParts(parent, bestG, start);
    path := ReconstructPath(parent, goal, bestG);
    LinkedWalk(parent, path);
  }

  /** Every queued node's state is recorded, with g no better than bestG and h from the heuristic. */
  predicate Pending(frontier: seq<Node>, bestG: map<Config, nat>, useH1: bool) {
    forall x | x in frontier ::
      x.state in bestG && x.g >= bestG[x.state] && x.h == Heuristic(useH1, x.state)
  }

  /** No recorded cost reaches the number of recorded states. */
  predicate Bounded(bestG: map<Config, nat>) {
    forall k | k in bestG :: bestG[k] < |bestG|
  }

  /** k was expanded: it is not the goal and all its neighbours are recorded. */
  ghost predicate Settled(k: Config, bestG: map<Config, nat>) {
    !IsGoal(k) && forall n | n in Neighbors(k) :: n in bestG
  }

  /**
   * Every recorded state is still queued with its best cost, or has been
   * expanded: nothing reachable is forgotten.
   */
  ghost predicate Covered(frontier: seq<Node>, bestG: map<Config, nat>, useH1: bool) {
    forall k {:trigger Settled(k, bestG)} | k in bestG ::
      Node(k, bestG[k], Heuristic(useH1, k)) in frontier || Settled(k, bestG)
  }

  /** Skipping a stale node (g above bestG) keeps Covered. */
  lemma CoveredSkip(frontier: seq<Node>, frontier': seq<Node>, bestG: map<Config, nat>, useH1: bool, node: Node)
    requires Covered(frontier, bestG, useH1)
    requires forall x | x in frontier && x != node :: x in frontier'
    requires node.state in bestG && node.g > bestG[node.state]
    ensures Covered(frontier', bestG, useH1)
  {
    forall k | k in bestG ensures Node(k, bestG[k], Heuristic(useH1, k)) in frontier' || Settled(k, bestG) {
      assert Settled(k, bestG) || Node(k, bestG[k], Heuristic(useH1, k)) in frontier;
    }
  }

  /** With the queue empty, the recorded states are closed under moves and hold no goal. */
  lemma CoveredClosed(bestG: map<Config, nat>, useH1: bool)
    requires Covered([], bestG, useH1)
    ensures forall k | k in bestG :: !IsGoal(k)
    ensures forall k | k in bestG :: forall n | n in Neighbors(k) :: n in bestG
  {
    forall k | k in bestG ensures Settled(k, bestG) { }
  }

  // ---------------------------------------------------------------------------
  // Termination: relaxations lower a finite potential

  /** Some enumeration of a finite set of configurations. */
  ghost function Enumerate(s: set<Config>): (r: seq<Config>)
    ensures forall x :: x in r <==> x in s
    decreases |s|
  {
    if s == {} then []
    else
      var x :| x in s;
      Enumerate(s - {x}) + [x]
  }

  /** A state's weight: its best cost, or cap while it is unseen. */
  ghost function Weight(bestG: map<Config, nat>, cap: nat, k: Config): nat {
    if k in bestG then bestG[k] else cap
  }

  /** The summed weights of the states of ks. */
  ghost function Potential(ks: seq<Config>, bestG: map<Config, nat>, cap: nat): nat {
    if ks == [] then 0
    else Potential(ks[..|ks| - 1], bestG, cap) + Weight(bestG, cap, ks[|ks| - 1])
  }

  /** Lowering one state's weight lowers the potential, strictly when ks lists that state. */
  lemma {:induction false} LowerWeight(ks: seq<Config>, bestG: map<Config, nat>, cap: nat, n: Config, v: nat)
    requires Weight(map[n := v], cap, n) < Weight(bestG, cap, n)
    ensures Potential(ks, bestG[n := v], cap) <= Potential(ks, bestG, cap)
    ensures n in ks ==> Potential(ks, bestG[n := v], cap) < Potential(ks, bestG, cap)
  {
    if ks != [] {
      var init, last := ks[..|ks| - 1], ks[|ks| - 1];
      LowerWeight(init, bestG, cap, n, v);
      assert ks == init + [last];
      if last != n {
        assert Weight(bestG[n := v], cap, last) == Weight(bestG, cap, last);
      }
    }
  }

  // ---------------------------------------------------------------------------
  // The search

  /** The nodes queued for the states of pushed, each with cost v. */
  function Offer(pushed: seq<Config>, v: int, useH1: bool): (r: seq<Node>)
    ensures |r| == |pushed|
  {
    if pushed == [] then []
    else Offer(pushed[..|pushed| - 1], v, useH1) + [Node(pushed[|pushed| - 1], v, Heuristic(useH1, pushed[|pushed| - 1]))]
  }

  /** Every state of pushed is queued by Offer with cost v. */
  lemma {:induction false} OfferHas(pushed: seq<Config>, v: int, useH1: bool, k: Config)
    requires k in pushed
    ensures Node(k, v, Heuristic(useH1, k)) in Offer(pushed, v, useH1)
  {
    var init, last := pushed[..|pushed| - 1], pushed[|pushed| - 1];
    assert pushed == init + [last];
    if k != last {
      OfferHas(init, v, useH1, k);
    }
  }

  /**
   * After relaxing the neighbours in seen from cur with cost v: the recorded
   * states are the old ones and seen; exactly the states of seen that were
   * unrecorded or dearer than v were pushed, with cost v and parent cur;
   * every other state kept its cost and parent.
   */
  ghost predicate Relaxed(bestG: map<Config, nat>, parent: ParentMap, bestG': map<Config, nat>, parent': ParentMap,
                          seen: seq<Config>, pushed: seq<Config>, cur: Config, v: nat) {
    && (forall k :: k in bestG' <==> k in bestG || k in seen)
    && (forall k :: k in pushed <==> k in seen && (k !in bestG || v < bestG[k]))
    && (forall k | k in pushed :: k in bestG' && bestG'[k] == v && k in parent' && parent'[k] == Some(cur))
    && (forall k | k in bestG && k !in pushed :: k in bestG' && bestG'[k] == bestG[k])
    && (forall k | k in parent && k !in pushed :: k in parent' && parent'[k] == parent[k])
    && (forall k | k in seen :: k in bestG' && bestG'[k] <= v)
  }

  /** Relaxing one more neighbour n that improves on its recorded cost. */
  lemma RelaxStep(bestG: map<Config, nat>, parent: ParentMap, bestG': map<Config, nat>, parent': ParentMap,
                  seen: seq<Config>, pushed: seq<Config>, cur: Config, v: nat, n: Config)
    requires Relaxed(bestG, parent, bestG', parent', seen, pushed, cur, v)
    requires n !in bestG' || v < bestG'[n]
    ensures n !in pushed && (n !in bestG || v < bestG[n])
    ensures Relaxed(bestG, parent, bestG'[n := v], parent'[n := Some(cur)], seen + [n], pushed + [n], cur, v)
  {
  }

  /** Passing over a neighbour n whose recorded cost is already v or less. */
  lemma SkipStep(bestG: map<Config, nat>, parent: ParentMap, bestG': map<Config, nat>, parent': ParentMap,
                 seen: seq<Config>, pushed: seq<Config>, cur: Config, v: nat, n: Config)
    requires Relaxed(bestG, parent, bestG', parent', seen, pushed, cur, v)
    requires n in bestG' && bestG'[n] <= v
    ensures Relaxed(bestG, parent, bestG', parent', seen + [n], pushed, cur, v)
  {
  }

  /**
   * The state of the expansion loop of runAStar after the neighbours in
   * seen: the tree, queue and bound are kept, the queue grew by the nodes
   * of pushed, and each push lowered the potential.
   */
  ghost predicate Expanding(frontier: seq<Node>, bestG: map<Config, nat>, parent: ParentMap,
                            frontier': seq<Node>, bestG': map<Config, nat>, parent': ParentMap,
                            seen: seq<Config>, pushed: seq<Config>, cur: Config, v: nat, useH1: bool,
                            start: Config, ks: seq<Config>, cap: nat) {
    && CostTree(parent', bestG', start) && Pending(frontier', bestG', useH1) && Bounded(bestG')
    && frontier' == frontier + Offer(pushed, v, useH1)
    && Relaxed(bestG, parent, bestG', parent', seen, pushed, cur, v)
    && v <= |bestG'|
    && Potential(ks, bestG', cap) + |pushed| <= Potential(ks, bestG, cap)
  }

  /** Relaxing and queuing one more neighbour n that improves on its recorded cost. */
  lemma ExpandPush(frontier: seq<Node>, bestG: map<Config, nat>, parent: ParentMap,
                   frontier': seq<Node>, bestG': map<Config, nat>, parent': ParentMap,
                   seen: seq<Config>, pushed: seq<Config>, cur: Config, v: nat, useH1: bool,
                   start: Config, ks: seq<Config>, cap: nat, n: Config)
    requires Expanding(frontier, bestG, parent, frontier', bestG', parent', seen, pushed, cur, v, useH1, start, ks, cap)
    requires cur in bestG && v == bestG[cur] + 1 && v < cap && n in ks
    requires n in Neighbors(cur) && forall k | k in seen :: k in Neighbors(cur)
    requires n !in bestG' || v < bestG'[n]
    ensures Expanding(frontier, bestG, parent, frontier' + [Node(n, v, Heuristic(useH1, n))], bestG'[n := v],
                      parent'[n := Some(cur)], seen + [n], pushed + [n], cur, v, useH1, start, ks, cap)
  {
    NotOwnNeighbor(cur);
    RelaxStep(bestG, parent, bestG', parent', seen, pushed, cur, v, n);
    Relax(parent', bestG', start, cur, n, v);
    LowerWeight(ks, bestG', cap, n, v);
    PushStep(frontier, pushed, frontier', bestG', n, v, useH1);
  }

  /** Passing over one more neighbour n that does not improve on its recorded cost. */
  lemma ExpandSkip(frontier: seq<Node>, bestG: map<Config, nat>, parent: ParentMap,
                   frontier': seq<Node>, bestG': map<Config, nat>, parent': ParentMap,
                   seen: seq<Config>, pushed: seq<Config>, cur: Config, v: nat, useH1: bool,
                   start: Config, ks: seq<Config>, cap: nat, n: Config)
    requires Expanding(frontier, bestG, parent, frontier', bestG', parent', seen, pushed, cur, v, useH1, start, ks, cap)
    requires n in bestG' && bestG'[n] <= v
    ensures Expanding(frontier, bestG, parent, frontier', bestG', parent', seen + [n], pushed, cur, v, useH1, start, ks, cap)
  {
    SkipStep(bestG, parent, bestG', parent', seen, pushed, cur, v, n);
  }

  /**
   * The expansion loop of runAStar: each neighbour reached more cheaply
   * than its recorded bestG (or not recorded at all) gets cost g + 1 and
   * parent node.state, and is queued. Each push lowers the potential.
   */
  method Expand(node: Node, useH1: bool, frontier: seq<Node>, bestG: map<Config, nat>, parent: ParentMap,
                ghost start: Config, ghost ks: seq<Config>, ghost cap: nat)
    returns (frontier': seq<Node>, bestG': map<Config, nat>, parent': ParentMap, ghost pushed: seq<Config>)
    requires CostTree(parent, bestG, start) && Pending(frontier, bestG, useH1) && Bounded(bestG)
    requires node.state in bestG && node.g == bestG[node.state]
    requires |bestG| < cap && forall c: Config :: c in ks
    ensures CostTree(parent', bestG', start) && Pending(frontier', bestG', useH1) && Bounded(bestG')
    ensures frontier' == frontier + Offer(pushed, node.g + 1, useH1)
    ensures Relaxed(bestG, parent, bestG', parent', Neighbors(node.state), pushed, node.state, node.g + 1)
    ensures Potential(ks, bestG', cap) + |pushed| <= Potential(ks, bestG, cap)
  {
    var ns := GetNeighbors(node.state);
    var newG := node.g + 1;
    frontier', bestG', parent' := frontier, bestG, parent;
    pushed := [];
    for i := 0 to |ns|
      invariant Expanding(frontier, bestG, parent, frontier', bestG', parent', ns[..i], pushed, node.state, newG,
                          useH1, start, ks, cap)
    {
      var n := ns[i];
      PrefixNext(ns, i);
      if n !in bestG' || newG < bestG'[n] {
        ExpandPush(frontier, bestG, parent, frontier', bestG', parent', ns[..i], pushed, node.state, newG,
                   useH1, start, ks, cap, n);
        bestG' := bestG'[n := newG];
        parent' := parent'[n := Some(node.state)];
        frontier' := frontier' + [Node(n, newG, Heuristic(useH1, n))];
        pushed := pushed + [n];
      } else {
        ExpandSkip(frontier, bestG, parent, frontier', bestG', parent', ns[..i], pushed, node.state, newG,
                   useH1, start, ks, cap, n);
      }
    }
    assert ns[..|ns|] == ns;
  }

  /**
   * Queuing the node of one more relaxed state n with cost v extends Offer
   * by that node and keeps the queue and the cost bound well formed.
   */
  lemma PushStep(frontier: seq<Node>, pushed: seq<Config>, frontier': seq<Node>, bestG': map<Config, nat>,
                 n: Config, v: nat, useH1: bool)
    requires frontier' == frontier + Offer(pushed, v, useH1)
    requires Pending(frontier', bestG', useH1) && Bounded(bestG') && v <= |bestG'|
    requires n !in bestG' || v < bestG'[n]
    ensures frontier' + [Node(n, v, Heuristic(useH1, n))] == frontier + Offer(pushed + [n], v, useH1)
    ensures Pending(frontier' + [Node(n, v, Heuristic(useH1, n))], bestG'[n := v], useH1)
    ensures Bounded(bestG'[n := v]) && v <= |bestG'[n := v]|
  {
    assert (pushed + [n])[..|pushed|] == pushed;
  }

  /** Taking one more element of ns into the prefix. */
  lemma PrefixNext<T>(ns: seq<T>, i: int)
    requires 0 <= i < |ns|
    ensures ns[..i + 1] == ns[..i] + [ns[i]]
  {
  }

  /** Expanding the polled node keeps Covered: it is settled, and every improved neighbour is queued. */
  lemma CoveredStep(frontier0: seq<Node>, polled: seq<Node>, bestG: map<Config, nat>, parent: ParentMap,
                    bestG': map<Config, nat>, parent': ParentMap, pushed: seq<Config>, node: Node, useH1: bool)
    requires Covered(frontier0, bestG, useH1)
    requires forall x | x in frontier0 && x != node :: x in polled
    requires node.state in bestG && node.g == bestG[node.state] && !IsGoal(node.state)
    requires Relaxed(bestG, parent, bestG', parent', Neighbors(node.state), pushed, node.state, node.g + 1)
    ensures Covered(polled + Offer(pushed, node.g + 1, useH1), bestG', useH1)
  {
    var cur, v := node.state, node.g + 1;
    var frontier' := polled + Offer(pushed, v, useH1);
    NotOwnNeighbor(cur);
    forall k | k in bestG' ensures Node(k, bestG'[k], Heuristic(useH1, k)) in frontier' || Settled(k, bestG') {
      if k in pushed {
        OfferHas(pushed, v, useH1, k);
      } else if k == cur {
        assert Settled(k, bestG');
      } else {
        assert k in bestG && bestG'[k] == bestG[k];
        if Settled(k, bestG) {
          assert Settled(k, bestG');
        } else {
          assert Node(k, bestG[k], Heuristic(useH1, k)) in polled;
          assert frontier'[..|polled|] == polled;
        }
      }
    }
  }

  /** The invariant of the runAStar loop. */
  ghost predicate Searching(frontier: seq<Node>, bestG: map<Config, nat>, parent: ParentMap, start: Config,
                            useH1: bool, universe: set<Config>) {
    && CostTree(parent, bestG, start) && Pending(frontier, bestG, useH1) && Bounded(bestG)
    && Covered(frontier, bestG, useH1) && |bestG| <= |universe|
  }

  /** Polling keeps everything but Covered, which the polled node may have been holding up. */
  lemma Polled(frontier0: seq<Node>, frontier: seq<Node>, bestG: map<Config, nat>, parent: ParentMap, start: Config,
               useH1: bool, universe: set<Config>, node: Node)
    requires Searching(frontier0, bestG, parent, start, useH1, universe)
    requires node in frontier0 && forall x | x in frontier :: x in frontier0
    ensures CostTree(parent, bestG, start) && Pending(frontier, bestG, useH1) && Bounded(bestG)
    ensures Covered(frontier0, bestG, useH1) && |bestG| <= |universe|
    ensures node.state in parent && node.state in bestG && node.g >= bestG[node.state]
  {
  }

  /** Expanding a polled node that is current restores the loop invariant. */
  lemma Expanded(frontier0: seq<Node>, polled: seq<Node>, bestG: map<Config, nat>, parent: ParentMap,
                 bestG': map<Config, nat>, parent': ParentMap, pushed: seq<Config>, node: Node, useH1: bool,
                 start: Config, universe: set<Config>)
    requires Covered(frontier0, bestG, useH1)
    requires forall x | x in frontier0 && x != node :: x in polled
    requires node.state in bestG && node.g == bestG[node.state] && !IsGoal(node.state)
    requires Relaxed(bestG, parent, bestG', parent', Neighbors(node.state), pushed, node.state, node.g + 1)
    requires forall c: Config :: c in universe
    requires CostTree(parent', bestG', start) && Bounded(bestG')
    requires Pending(polled + Offer(pushed, node.g + 1, useH1), bestG', useH1)
    ensures Searching(polled + Offer(pushed, node.g + 1, useH1), bestG', parent', start, useH1, universe)
  {
    CoveredStep(frontier0, polled, bestG, parent, bestG', parent', pushed, node, useH1);
    KeysWithin(bestG', universe);
  }

  /**
   * One iteration of the runAStar loop: poll a node; a goal node is
   * returned; a stale node (g above its state's bestG, Integer.MAX_VALUE
   * never being the default here since every queued state is recorded) is
   * dropped; any other node is expanded. Unless the goal was reached, the
   * loop invariant holds again and the potential or the queue shrank.
   */
  method Turn(frontier: seq<Node>, bestG: map<Config, nat>, parent: ParentMap, useH1: bool,
              ghost start: Config, ghost universe: set<Config>, ghost ks: seq<Config>, ghost cap: nat)
    returns (reached: Option<Config>, frontier': seq<Node>, bestG': map<Config, nat>, parent': ParentMap)
    requires frontier != [] && Searching(frontier, bestG, parent, start, useH1, universe)
    requires (forall c: Config :: c in universe) && (forall c: Config :: c in ks) && cap == |universe| + 1
    ensures reached.Some? ==> IsGoal(reached.value) && reached.value in parent' && CostTree(parent', bestG', start)
    ensures reached.None? ==> Searching(frontier', bestG', parent', start, useH1, universe)
    ensures reached.None? ==> Potential(ks, bestG', cap) < Potential(ks, bestG, cap)
                              || (Potential(ks, bestG', cap) == Potential(ks, bestG, cap) && |frontier'| < |frontier|)
    ensures |frontier| == 1 && IsGoal(frontier[0].state) ==> reached == Some(frontier[0].state)
  {
    var node;
    ghost var first;
    node, frontier', first := Poll(frontier);
    bestG', parent' := bestG, parent;
    Polled(frontier, frontier', bestG, parent, start, useH1, universe, node);

    if IsGoal(node.state) {
      return Some(node.state), frontier', bestG', parent';
    }

    reached := None;
    if node.g > bestG[node.state] {
      CoveredSkip(frontier, frontier', bestG, useH1, node);
      return;
    }

    ghost var polled := frontier';
    ghost var pushed;
    frontier', bestG', parent', pushed := Expand(node, useH1, frontier', bestG, parent, start, ks, cap);
    Expanded(frontier, polled, bestG, parent, bestG', parent', pushed, node, useH1, start, universe);
  }

  /**
   * Both heuristics are admissible: along any walk that ends at the goal,
   * h1 of the first state is at most h2 of it, and h2 is at most the number
   * of moves, since each move changes h2 by exactly one and h2 is zero only
   * at the goal.
   */
  lemma {:induction false} Admissible(w: seq<Config>, useH1: bool)
    requires |w| >= 1 && IsWalk(w) && IsGoal(w[|w| - 1])
    ensures H1(w[0]) <= H2(w[0]) <= |w| - 1
    ensures Heuristic(useH1, w[0]) <= |w| - 1
  {
    H1LeH2(w[0]);
    if |w| == 1 {
      H2AtGoal(w[0]);
    } else {
      var w' := w[1..];
      assert IsWalk(w') by {
        forall j | 1 <= j < |w'| ensures w'[j] in Neighbors(w'[j - 1]) {
          assert w'[j] == w[j + 1] && w'[j - 1] == w[j];
        }
      }
      Admissible(w', useH1);
      assert w[1] in Neighbors(w[0]);
      var k :| 0 <= k < |Neighbors(w[0])| && Neighbors(w[0])[k] == w[1];
      H2Neighbor(w[0], k);
    }
  }

  /**
   * runAStar, with the heuristic chosen by useH1. Each iteration polls a
   * node that compareTo puts first and counts it; a goal node ends the
   * search; a stale node (g above its state's bestG) is skipped; otherwise
   * the node is expanded. On success the path runs from start to a goal
   * configuration by single moves; on failure every state reachable from
   * start was recorded and expanded, so the goal is unreachable.
   */
  method AStar(start: Config, useH1: bool) returns (success: bool, path: seq<Config>, explored: nat)
    ensures success ==> |path| >= 1 && path[0] == start && IsGoal(path[|path| - 1]) && IsWalk(path)
    ensures success ==> explored >= 1
    ensures !success ==> path == [] && GoalUnreachable(start)
    ensures IsGoal(start) ==> success && path == [start] && explored == 1
  {
    ghost var universe := Universe();
    ghost var ks := Enumerate(universe);
    ghost var cap := |universe| + 1;
    var frontier: seq<Node> := [Node(start, 0, Heuristic(useH1, start))];
    var bestG: map<Config, nat> := map[start := 0];
    var parent: ParentMap := map[start := None];
    CostTreeStart(start);
    KeysWithin(bestG, universe);
    explored := 0;
    success := false;
    path := [];

    while frontier != []
      invariant Searching(frontier, bestG, parent, start, useH1, universe)
      invariant IsGoal(start) ==> explored == 0 && |frontier| == 1 && frontier[0].state == start
      decreases Potential(ks, bestG, cap), |frontier|
    {
      var reached;
      reached, frontier, bestG, parent := Turn(frontier, bestG, parent, useH1, start, universe, ks, cap);
      explored := explored + 1;
      if reached.Some? {
        success := true;
        path := CostPath(parent, bestG, reached.value, start);
        return;
      }
    }
    Drained(bestG, parent, start, useH1, universe);
  }

  /** A search whose queue ran dry recorded every state reachable from start, and none is the goal. */
  lemma Drained(bestG: map<Config, nat>, parent: ParentMap, start: Config, useH1: bool, universe: set<Config>)
    requires Searching([], bestG, parent, start, useH1, universe)
    ensures GoalUnreachable(start)
  {
    CoveredClosed(bestG, useH1);
    ExhaustedMeansUnreachable(bestG.Keys, start);
  }
}
