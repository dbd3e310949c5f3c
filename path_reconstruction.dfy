/**
 * Parent maps and the path read back from them. Every uninformed and
 * informed search records, for each state it discovers, the state it was
 * discovered from (None for the start state); the solution is the chain of
 * those links from the goal back to the start, reversed.
 */
module PathReconstruction {
  import opened PuzzleState

  type ParentMap = map<Config, Option<Config>>

  /** Every recorded parent is itself recorded. */
  predicate Closed(parent: ParentMap) {
    forall k {:trigger parent[k]} | k in parent && parent[k].Some? :: parent[k].value in parent
  }

  /**
   * A ghost ranking under which parents come strictly before their
   * children: the discovery order of the searches. It is what makes the
   * walk back from the goal finite.
   */
  ghost predicate Ranked(parent: ParentMap, rank: map<Config, nat>) {
    forall k {:trigger parent[k]} | k in parent ::
      k in rank && (parent[k].Some? ==> parent[k].value in rank && rank[parent[k].value] < rank[k])
  }

  /** Each state of path after the first was recorded with its predecessor as parent. */
  predicate Linked(parent: ParentMap, path: seq<Config>) {
    forall j | 1 <= j < |path| :: path[j] in parent && parent[path[j]] == Some(path[j - 1])
  }

  /** Every recorded parent link is a single move of the blank. */
  predicate LinksAreMoves(parent: ParentMap) {
    forall k {:trigger parent[k]} | k in parent && parent[k].Some? :: k in Neighbors(parent[k].value)
  }

  /** Consecutive states of path are one move apart. */
  predicate IsWalk(path: seq<Config>) {
    forall j | 1 <= j < |path| :: path[j] in Neighbors(path[j - 1])
  }

  /** w is a walk that ends at the goal. */
  ghost predicate GoalWalk(w: seq<Config>) {
    |w| >= 1 && IsWalk(w) && IsGoal(w[|w| - 1])
  }

  /** No configuration occurs twice on the path. */
  predicate Simple(path: seq<Config>) {
    forall i, j | 0 <= i < j < |path| :: path[i] != path[j]
  }

  /** Dropping the states between two occurrences of the same state keeps a walk, with the same ends. */
  lemma Splice(w: seq<Config>, i: int, j: int)
    requires IsWalk(w) && 0 <= i < j < |w| && w[i] == w[j]
    ensures IsWalk(w[..i] + w[j..])
    ensures (w[..i] + w[j..])[0] == w[0] && (w[..i] + w[j..])[|w| - (j - i) - 1] == w[|w| - 1]
  {
    var u := w[..i] + w[j..];
    forall k | 1 <= k < |u| ensures u[k] in Neighbors(u[k - 1]) {
      if k < i {
        assert u[k] == w[k] && u[k - 1] == w[k - 1];
      } else if k == i {
        assert u[k] == w[j] && u[k - 1] == w[i - 1];
      } else {
        assert u[k] == w[k - i + j] && u[k - 1] == w[k - 1 - i + j];
      }
    }
  }

  /**
   * Cutting the loops out of a walk leaves a walk without repeats between
   * the same two states, and no longer.
   */
  lemma {:induction false} Shortcut(w: seq<Config>) returns (v: seq<Config>)
    requires |w| >= 1 && IsWalk(w)
    ensures |v| >= 1 && v[0] == w[0] && v[|v| - 1] == w[|w| - 1]
    ensures IsWalk(v) && Simple(v) && |v| <= |w|
    decreases |w|
  {
    if Simple(w) {
      return w;
    }
    var i, j :| 0 <= i < j < |w| && w[i] == w[j];
    var u := w[..i] + w[j..];
    Splice(w, i, j);
    v := Shortcut(u);
  }

  /**
   * reconstructPath: follows the parent links from goal until a state
   * without a parent, then reverses, so the result runs from a root of the
   * parent map to goal. The path has at most rank[goal] + 1 states.
   */
  method ReconstructPath(parent: ParentMap, goal: Config, ghost rank: map<Config, nat>)
    returns (path: seq<Config>)
    requires goal in parent && Closed(parent) && Ranked(parent, rank)
    ensures |path| >= 1 && path[|path| - 1] == goal
    ensures path[0] in parent && parent[path[0]] == None
    ensures Linked(parent, path)
    ensures |path| <= rank[goal] + 1
    ensures parent[goal] == None ==> path == [goal]
  {
    var key := goal;
    path := [goal];
    while parent[key].Some?
      invariant key in parent && |path| >= 1 && path[0] == key && path[|path| - 1] == goal
      invariant Linked(parent, path)
      invariant |path| + rank[key] <= rank[goal] + 1
      invariant parent[goal] == None ==> path == [goal]
      decreases rank[key]
    {
      var p := parent[key].value;
      assert parent[key] == Some(p);
      path := [p] + path;
      key := p;
    }
  }

  /** A chain of parent links whose links are moves is a walk of the puzzle. */
  lemma LinkedWalk(parent: ParentMap, path: seq<Config>)
    requires LinksAreMoves(parent) && Linked(parent, path)
    ensures IsWalk(path)
  {
    forall j | 1 <= j < |path| ensures path[j] in Neighbors(path[j - 1]) {
      assert path[j] in parent && parent[path[j]] == Some(path[j - 1]);
    }
  }

  /**
   * What every search keeps true of a recorded state k: its discovery rank
   * is below counter; it has no parent only if it is start; otherwise its
   * parent is recorded, is one move away and was discovered earlier.
   */
  ghost predicate TreeNode(parent: ParentMap, rank: map<Config, nat>, counter: nat, start: Config, k: Config)
    requires k in parent
  {
    && k in rank && rank[k] < counter
    && (parent[k].None? ==> k == start)
    && (parent[k].Some? ==> parent[k].value in parent && k in Neighbors(parent[k].value)
                            && parent[k].value in rank && rank[parent[k].value] < rank[k])
  }

  /** The parent map of a search rooted at start, with its discovery ranks. */
  ghost predicate SearchTree(parent: ParentMap, rank: map<Config, nat>, counter: nat, start: Config) {
    && start in parent && parent[start] == None
    && forall k {:trigger TreeNode(parent, rank, counter, start, k)} | k in parent ::
         TreeNode(parent, rank, counter, start, k)
  }

  /** The parent map and ranks of a search that has only seen start. */
  lemma TreeStart(start: Config)
    ensures SearchTree(map[start := None], map[start := 0], 1, start)
  {
    var parent, rank := map[start := None], map[start := 0];
    forall k | k in parent ensures TreeNode(parent, rank, 1, start, k) { }
  }

  /** A search tree can be walked back (ReconstructPath) and its links are moves. */
  lemma TreeParts(parent: ParentMap, rank: map<Config, nat>, counter: nat, start: Config)
    requires SearchTree(parent, rank, counter, start)
    ensures Closed(parent) && Ranked(parent, rank) && LinksAreMoves(parent)
  {
    forall k | k in parent ensures TreeNode(parent, rank, counter, start, k) { }
  }

  /** The one state recorded without a parent is start. */
  lemma TreeRoot(parent: ParentMap, rank: map<Config, nat>, counter: nat, start: Config, k: Config)
    requires SearchTree(parent, rank, counter, start) && k in parent && parent[k] == None
    ensures k == start
  {
    assert TreeNode(parent, rank, counter, start, k);
  }

  /**
   * Recording cur as the parent of its neighbour n, with the next discovery
   * rank, keeps the tree, provided n is not the root and is nobody's parent
   * (a state already recorded may be re-parented, as in depth-first search).
   */
  lemma Reattach(parent: ParentMap, rank: map<Config, nat>, counter: nat, start: Config, cur: Config, n: Config)
    requires SearchTree(parent, rank, counter, start)
    requires cur in parent && n in Neighbors(cur) && n != start
    requires forall k {:trigger parent[k]} | k in parent && parent[k].Some? :: parent[k].value != n
    ensures SearchTree(parent[n := Some(cur)], rank[n := counter], counter + 1, start)
  {
    var parent', rank' := parent[n := Some(cur)], rank[n := counter];
    assert cur != n by {
      var i :| 0 <= i < |Neighbors(cur)| && Neighbors(cur)[i] == n;
      NeighborDiffers(cur, i);
    }
    assert TreeNode(parent, rank, counter, start, cur);
    forall k | k in parent' ensures TreeNode(parent', rank', counter + 1, start, k) {
      if k != n {
        assert TreeNode(parent, rank, counter, start, k);
        assert parent'[k] == parent[k];
        if parent[k].Some? {
          assert parent[k].value != n;
        }
      }
    }
  }

  /** Recording a state seen for the first time (breadth-first and best-first search). */
  lemma Attach(parent: ParentMap, rank: map<Config, nat>, counter: nat, start: Config, cur: Config, n: Config)
    requires SearchTree(parent, rank, counter, start)
    requires cur in parent && n in Neighbors(cur) && n !in parent
    ensures SearchTree(parent[n := Some(cur)], rank[n := counter], counter + 1, start)
  {
    forall k | k in parent && parent[k].Some? ensures parent[k].value != n {
      assert TreeNode(parent, rank, counter, start, k);
    }
    Reattach(parent, rank, counter, start, cur, n);
  }

  /**
   * The solution read back from a search tree: a walk from start to goal,
   * each step a recorded parent link.
   */
  method TreePath(parent: ParentMap, goal: Config, ghost rank: map<Config, nat>, ghost counter: nat, ghost start: Config)
    returns (path: seq<Config>)
    requires SearchTree(parent, rank, counter, start) && goal in parent
    ensures |path| >= 1 && path[0] == start && path[|path| - 1] == goal
    ensures Linked(parent, path) && IsWalk(path)
    ensures goal == start ==> path == [start]
  {
    TreeParts(parent, rank, counter, start);
    path := ReconstructPath(parent, goal, rank);
    TreeRoot(parent, rank, counter, start, path[0]);
    LinkedWalk(parent, path);
  }

  /** Every state of a walk that starts inside a set closed under moves stays inside it. */
  lemma {:induction false} WalkStaysInside(inside: set<Config>, w: seq<Config>, j: nat)
    requires |w| >= 1 && w[0] in inside && IsWalk(w)
    requires forall k | k in inside :: forall n | n in Neighbors(k) :: n in inside
    requires j < |w|
    ensures w[j] in inside
  {
    if j > 0 {
      WalkStaysInside(inside, w, j - 1);
      assert w[j] in Neighbors(w[j - 1]);
    }
  }

  /** No sequence of moves leads from start to the goal configuration. */
  ghost predicate GoalUnreachable(start: Config) {
    forall w: seq<Config> | |w| >= 1 && w[0] == start && IsWalk(w) :: !IsGoal(w[|w| - 1])
  }

  /**
   * A set containing start, closed under moves and holding no goal state
   * proves the goal unreachable: the exhaustion argument of the complete
   * searches.
   */
  lemma ExhaustedMeansUnreachable(inside: set<Config>, start: Config)
    requires start in inside
    requires forall k | k in inside :: forall n | n in Neighbors(k) :: n in inside
    requires forall k | k in inside :: !IsGoal(k)
    ensures GoalUnreachable(start)
  {
    forall w: seq<Config> | |w| >= 1 && w[0] == start && IsWalk(w) ensures !IsGoal(w[|w| - 1]) {
      WalkStaysInside(inside, w, |w| - 1);
    }
  }
}
