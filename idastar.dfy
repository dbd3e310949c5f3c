/**
 * Iterative-deepening A* over puzzle configurations: repeated depth-first
 * probes bounded by f = g + h, each probe raising the bound to the least f
 * that exceeded the previous one. Cycles are cut by the current path only;
 * the path and its key set are shared by the whole recursion, extended
 * before each recursive call and restored after it.
 */
module IdaStarSearch {
  import opened PuzzleState
  import opened ConfigSpace
  import opened PathReconstruction
  import opened Frontier
  import AStarSearch

  /** The probe result that signals the goal was found. */
  const FOUND: int := -1

  /** Integer.MAX_VALUE: the probe result when nothing exceeded the bound. */
  const INT_MAX: int := 0x7fff_ffff

  /** The configurations on a path, collected front to back. */
  ghost function Elems(path: seq<Config>): set<Config> {
    if path == [] then {} else Elems(path[..|path| - 1]) + {path[|path| - 1]}
  }

  /** Each state of the path is a single move from the one before it, built up state by state. */
  ghost predicate Walk(path: seq<Config>) {
    |path| <= 1 || (Walk(path[..|path| - 1]) && path[|path| - 1] in Neighbors(path[|path| - 2]))
  }

  /** Each state of the path is absent from the states before it, built up state by state. */
  ghost predicate Distinct(path: seq<Config>) {
    path == [] || (Distinct(path[..|path| - 1]) && path[|path| - 1] !in Elems(path[..|path| - 1]))
  }

  /** The shared path of a probe: non-empty, a walk without repeats, and pathSet holds exactly its states. */
  ghost predicate OnPath(path: seq<Config>, pathSet: set<Config>) {
    |path| >= 1 && Walk(path) && Distinct(path) && pathSet == Elems(path)
  }

  lemma {:induction false} ElemsHas(path: seq<Config>, x: Config)
    ensures x in Elems(path) <==> x in path
  {
    if path != [] {
      var p := path[..|path| - 1];
      ElemsHas(p, x);
      assert path == p + [path[|path| - 1]];
    }
  }

  /** A path without repeats has as many distinct states as it has states. */
  lemma {:induction false} DistinctSize(path: seq<Config>)
    requires Distinct(path)
    ensures |Elems(path)| == |path|
  {
    if path != [] {
      DistinctSize(path[..|path| - 1]);
    }
  }

  /** The recursive notion of a path without repeats is pairwise distinctness. */
  lemma {:induction false} DistinctIsSimple(path: seq<Config>)
    requires Distinct(path)
    ensures Simple(path)
  {
    if path != [] {
      var p := path[..|path| - 1];
      DistinctIsSimple(p);
      forall i, j | 0 <= i < j < |path| ensures path[i] != path[j] {
        if j < |p| {
          assert path[i] == p[i] && path[j] == p[j];
        } else {
          ElemsHas(p, path[j]);
          assert path[i] == p[i];
        }
      }
    }
  }

  /** The recursive notion of a walk is the pairwise one. */
  lemma {:induction false} WalkIsWalk(path: seq<Config>)
    requires Walk(path)
    ensures IsWalk(path)
  {
    if |path| > 1 {
      var p := path[..|path| - 1];
      WalkIsWalk(p);
      forall j | 1 <= j < |path| ensures path[j] in Neighbors(path[j - 1]) {
        if j < |p| {
          assert path[j] == p[j] && path[j - 1] == p[j - 1];
        }
      }
    }
  }

  /** Appending a neighbour of the last state that is not yet on the path keeps OnPath. */
  lemma PathPush(path: seq<Config>, pathSet: set<Config>, n: Config)
    requires OnPath(path, pathSet) && n in Neighbors(path[|path| - 1]) && n !in pathSet
    ensures OnPath(path + [n], pathSet + {n})
  {
    assert (path + [n])[..|path|] == path;
  }

  /** Removing the state just pushed restores the path and its key set. */
  lemma PathPop(path: seq<Config>, pathSet: set<Config>, n: Config)
    requires OnPath(path, pathSet) && n !in pathSet
    ensures (path + [n])[..|path|] == path && (pathSet + {n}) - {n} == pathSet
  {
  }

  /** The one-state path of the first probe. */
  lemma PathStart(initial: Config)
    ensures OnPath([initial], {initial})
  {
    assert [initial][..0] == [];
  }

  /**
   * path extends p0 to a goal configuration, and every state from the last
   * of p0 onwards was within the bound: the state at index j has g = j.
   */
  ghost predicate Extends(p0: seq<Config>, path: seq<Config>, threshold: int, useH1: bool) {
    && 1 <= |p0| <= |path| && path[..|p0|] == p0 && IsGoal(path[|path| - 1])
    && forall j | |p0| - 1 <= j < |path| :: j + Heuristic(useH1, path[j]) <= threshold
  }

  /** A found path that extends path + [n] extends path, when the last state of path was within the bound. */
  lemma ExtendsBack(p0: seq<Config>, g: nat, n: Config, path: seq<Config>, threshold: int, useH1: bool)
    requires g == |p0| - 1 && Extends(p0 + [n], path, threshold, useH1)
    requires g + Heuristic(useH1, p0[g]) <= threshold
    ensures Extends(p0, path, threshold, useH1)
  {
    assert path[..|p0|] == (path[..|p0| + 1])[..|p0|];
    assert path[|p0| - 1] == p0[|p0| - 1];
  }

  /** A simple path has no more states than there are configurations. */
  lemma PathWithin(path: seq<Config>, pathSet: set<Config>, universe: set<Config>)
    requires OnPath(path, pathSet) && forall c: Config :: c in universe
    ensures |pathSet| == |path| <= |universe|
  {
    DistinctSize(path);
    Within(pathSet, universe);
  }

  /**
   * w is a goal-reaching walk that a probe from c could still follow: it
   * starts at c, repeats no state, and never steps into avoid.
   */
  ghost predicate Escape(w: seq<Config>, c: Config, avoid: set<Config>) {
    && |w| >= 1 && w[0] == c && IsWalk(w) && Simple(w) && IsGoal(w[|w| - 1])
    && forall j | 1 <= j < |w| :: w[j] !in avoid
  }

  /** No walk escapes: with avoid on the path, no probe from c can reach the goal at any bound. */
  ghost predicate Trapped(c: Config, avoid: set<Config>) {
    forall w :: !Escape(w, c, avoid)
  }

  /**
   * A state that is not the goal, whose neighbours off the path are each
   * trapped once pushed onto it, is trapped itself.
   */
  lemma TrappedStep(c: Config, avoid: set<Config>)
    requires !IsGoal(c)
    requires forall n | n in Neighbors(c) && n !in avoid :: Trapped(n, avoid + {n})
    ensures Trapped(c, avoid)
  {
    forall w ensures !Escape(w, c, avoid) {
      if Escape(w, c, avoid) {
        assert |w| != 1;
        assert w[1] in Neighbors(c) && w[1] !in avoid;
        EscapeTail(w, c, avoid);
      }
    }
  }

  /** After its first move, an escaping walk escapes from its second state, with that state added to avoid. */
  lemma EscapeTail(w: seq<Config>, c: Config, avoid: set<Config>)
    requires Escape(w, c, avoid) && |w| >= 2
    ensures Escape(w[1..], w[1], avoid + {w[1]})
  {
    var n, w' := w[1], w[1..];
    forall j | 1 <= j < |w'| ensures w'[j] in Neighbors(w'[j - 1]) && w'[j] !in avoid + {n} {
      assert w'[j] == w[j + 1] && w'[j - 1] == w[j];
    }
    forall i, j | 0 <= i < j < |w'| ensures w'[i] != w'[j] {
      assert w'[i] == w[i + 1] && w'[j] == w[j + 1];
    }
  }

  /** Each of the first i states of ns that is off the path is trapped once pushed onto it. */
  ghost predicate ChildrenTrapped(ns: seq<Config>, i: int, pathSet: set<Config>) {
    forall k | 0 <= k < i && k < |ns| && ns[k] !in pathSet :: Trapped(ns[k], pathSet + {ns[k]})
  }

  lemma ChildrenTrappedNext(ns: seq<Config>, i: int, pathSet: set<Config>)
    requires 0 <= i < |ns| && ChildrenTrapped(ns, i, pathSet)
    requires ns[i] !in pathSet ==> Trapped(ns[i], pathSet + {ns[i]})
    ensures ChildrenTrapped(ns, i + 1, pathSet)
  {
  }

  /** Once every neighbour off the path is trapped, a state that is not the goal is trapped. */
  lemma ChildrenTrappedAll(c: Config, ns: seq<Config>, pathSet: set<Config>)
    requires ns == Neighbors(c) && ChildrenTrapped(ns, |ns|, pathSet) && !IsGoal(c)
    ensures Trapped(c, pathSet)
  {
    forall n | n in Neighbors(c) && n !in pathSet ensures Trapped(n, pathSet + {n}) {
      var k :| 0 <= k < |ns| && ns[k] == n;
    }
    TrappedStep(c, pathSet);
  }

  /** A start trapped on the one-state path cannot reach the goal by any walk. */
  lemma TrappedUnreachable(initial: Config)
    requires Trapped(initial, {initial})
    ensures GoalUnreachable(initial)
  {
    forall w: seq<Config> | |w| >= 1 && w[0] == initial && IsWalk(w) ensures !IsGoal(w[|w| - 1]) {
      var v := Shortcut(w);
      forall j | 1 <= j < |v| ensures v[j] !in {initial} {
        assert v[0] != v[j];
      }
      assert !Escape(v, initial, {initial});
    }
  }

  /** The heuristic a run was started with, as a function of the state. */
  ghost function HeuristicOf(useH1: bool): Config -> int {
    (s: Config) => Heuristic(useH1, s)
  }

  /**
   * w is a route a probe from c, reached with cost g and guided by the
   * heuristic h, follows: a walk from c that repeats no state and never
   * steps into avoid, every state of which before the last was within the
   * bound and not the goal, so was expanded.
   */
  ghost predicate Probing(w: seq<Config>, c: Config, avoid: set<Config>, g: int, threshold: int, h: Config -> int) {
    && |w| >= 1 && w[0] == c && IsWalk(w) && Simple(w)
    && (forall j | 1 <= j < |w| :: w[j] !in avoid)
    && (forall j | 0 <= j < |w| - 1 :: g + j + h(w[j]) <= threshold && !IsGoal(w[j]))
  }

  /** f = g + h at the last state of a route followed from cost g. */
  ghost function Cost(w: seq<Config>, g: int, h: Config -> int): int
    requires |w| >= 1
  {
    g + |w| - 1 + h(w[|w| - 1])
  }

  /** A route whose last state exceeds the bound: the probe returns that state's f. */
  ghost predicate Cut(w: seq<Config>, c: Config, avoid: set<Config>, g: int, threshold: int, h: Config -> int) {
    Probing(w, c, avoid, g, threshold, h) && Cost(w, g, h) > threshold
  }

  /** A route whose last state is the goal within the bound: the probe returns FOUND. */
  ghost predicate Hit(w: seq<Config>, c: Config, avoid: set<Config>, g: int, threshold: int, h: Config -> int) {
    Probing(w, c, avoid, g, threshold, h) && Cost(w, g, h) <= threshold && IsGoal(w[|w| - 1])
  }

  /**
   * r is the value of a probe from c that did not find the goal: no route
   * reaches the goal within the bound, and r is the least f among the
   * routes the bound cuts off, Integer.MAX_VALUE when there is none.
   */
  ghost predicate LeastCut(r: int, c: Config, avoid: set<Config>, g: int, threshold: int, h: Config -> int) {
    && (forall w :: !Hit(w, c, avoid, g, threshold, h))
    && (forall w | Cut(w, c, avoid, g, threshold, h) :: r <= Cost(w, g, h))
    && (r == INT_MAX || exists w :: Cut(w, c, avoid, g, threshold, h) && Cost(w, g, h) == r)
  }

  /** A route of two or more states, less its first, is a route from its second state one move deeper. */
  lemma ProbingTail(w: seq<Config>, c: Config, avoid: set<Config>, g: int, threshold: int, h: Config -> int)
    requires Probing(w, c, avoid, g, threshold, h) && |w| >= 2
    ensures w[1] in Neighbors(c) && w[1] !in avoid
    ensures Probing(w[1..], w[1], avoid + {w[1]}, g + 1, threshold, h)
    ensures Cost(w[1..], g + 1, h) == Cost(w, g, h)
  {
    var n, w' := w[1], w[1..];
    forall j | 1 <= j < |w'| ensures w'[j] in Neighbors(w'[j - 1]) && w'[j] !in avoid + {n} {
      assert w'[j] == w[j + 1] && w'[j - 1] == w[j];
    }
    forall i, j | 0 <= i < j < |w'| ensures w'[i] != w'[j] {
      assert w'[i] == w[i + 1] && w'[j] == w[j + 1];
    }
    forall j | 0 <= j < |w'| - 1 ensures g + 1 + j + h(w'[j]) <= threshold && !IsGoal(w'[j]) {
      assert w'[j] == w[j + 1];
    }
  }

  /** The tail of a route that reaches the goal within the bound does so from its second state. */
  lemma HitTail(w: seq<Config>, c: Config, avoid: set<Config>, g: int, threshold: int, h: Config -> int)
    requires Hit(w, c, avoid, g, threshold, h) && |w| >= 2
    ensures Hit(w[1..], w[1], avoid + {w[1]}, g + 1, threshold, h)
  {
    ProbingTail(w, c, avoid, g, threshold, h);
  }

  /** The tail of a route the bound cuts off is cut off, from its second state, at the same f. */
  lemma CutTail(w: seq<Config>, c: Config, avoid: set<Config>, g: int, threshold: int, h: Config -> int)
    requires Cut(w, c, avoid, g, threshold, h) && |w| >= 2
    ensures w[1] in Neighbors(c)
    ensures Cut(w[1..], w[1], avoid + {w[1]}, g + 1, threshold, h) && Cost(w[1..], g + 1, h) == Cost(w, g, h)
  {
    ProbingTail(w, c, avoid, g, threshold, h);
  }

  /** A state followed by a walk from one of its neighbours is a walk. */
  lemma ConsWalk(w: seq<Config>, c: Config)
    requires |w| >= 1 && IsWalk(w) && w[0] in Neighbors(c)
    ensures IsWalk([c] + w)
  {
    var v := [c] + w;
    forall j | 2 <= j < |v| ensures v[j] in Neighbors(v[j - 1]) {
      assert v[j] == w[j - 1] && v[j - 1] == w[j - 2];
    }
  }

  /** A state on the path followed by a simple walk that never steps onto the path is simple. */
  lemma ConsSimple(w: seq<Config>, c: Config, avoid: set<Config>)
    requires Simple(w) && c in avoid && forall j | 0 <= j < |w| :: w[j] !in avoid
    ensures Simple([c] + w)
  {
    var v := [c] + w;
    forall i, j | 0 <= i < j < |v| ensures v[i] != v[j] {
      assert v[j] == w[j - 1];
      if i >= 1 {
        assert v[i] == w[i - 1];
      }
    }
  }

  /** An expanded state on the path, followed by a route from one of its neighbours off the path, is a route. */
  lemma ProbingCons(w: seq<Config>, c: Config, n: Config, avoid: set<Config>, g: int, threshold: int, h: Config -> int)
    requires Probing(w, n, avoid + {n}, g + 1, threshold, h)
    requires n in Neighbors(c) && n !in avoid && c in avoid
    requires g + h(c) <= threshold && !IsGoal(c)
    ensures Probing([c] + w, c, avoid, g, threshold, h)
    ensures Cost([c] + w, g, h) == Cost(w, g + 1, h)
  {
    var v := [c] + w;
    ConsWalk(w, c);
    ConsSimple(w, c, avoid);
    forall j | 1 <= j < |v| ensures v[j] !in avoid {
      assert v[j] == w[j - 1];
    }
    forall j | 1 <= j < |v| - 1 ensures g + j + h(v[j]) <= threshold && !IsGoal(v[j]) {
      assert v[j] == w[j - 1];
    }
  }

  /** A state beyond the bound is a route of its own, and the only one: the probe's value is its f. */
  lemma Exceeded(c: Config, avoid: set<Config>, g: int, threshold: int, h: Config -> int)
    requires g + h(c) > threshold
    ensures LeastCut(g + h(c), c, avoid, g, threshold, h)
  {
    assert Cut([c], c, avoid, g, threshold, h);
    forall w | Probing(w, c, avoid, g, threshold, h) ensures |w| == 1 {
      assert w[0] == c;
    }
  }

  /**
   * What a probe promises, for a probe that started on path with key set
   * pathSet and left path' and pathSet' behind with result r: the shared
   * path is still well formed; FOUND leaves a path to the goal extending the
   * one the probe started on, within the bound from its last state on; any
   * other result exceeds the bound, is at most bound unless it is
   * Integer.MAX_VALUE, and leaves path and key set as they were.
   */
  ghost predicate Outcome(r: int, path: seq<Config>, pathSet: set<Config>, path': seq<Config>, pathSet': set<Config>,
                          threshold: int, useH1: bool, bound: int) {
    && OnPath(path', pathSet')
    && (r == FOUND || threshold < r)
    && (r != FOUND ==> path' == path && pathSet' == pathSet)
    && (r != FOUND && r != INT_MAX ==> r <= bound)
    && (r == FOUND ==> Extends(path, path', threshold, useH1))
  }

  /** A goal within the bound is a found path on its own. */
  lemma GoalReached(path: seq<Config>, pathSet: set<Config>, g: int, threshold: int, useH1: bool, bound: int)
    requires OnPath(path, pathSet) && g == |path| - 1
    requires g + Heuristic(useH1, path[g]) <= threshold && IsGoal(path[g])
    ensures Outcome(FOUND, path, pathSet, path, pathSet, threshold, useH1, bound)
  {
    assert path[..|path|] == path;
  }

  /**
   * idaSearch: a depth-first probe from the last state of path, reached
   * with cost g; explored is the static statesExplored counter. A state
   * whose f exceeds the bound returns its f uncounted; a goal within the
   * bound is counted and returns FOUND, the solution being the path;
   * otherwise the state is counted and its neighbours are probed (Sweep).
   * A result other than FOUND is the least f of a route cut off by the
   * bound; Integer.MAX_VALUE further means no goal lies beyond the state.
   */
  method IdaSearch(path: seq<Config>, pathSet: set<Config>, g: int, threshold: int, useH1: bool, explored: nat,
                   ghost universe: set<Config>)
    returns (r: int, path': seq<Config>, pathSet': set<Config>, explored': nat)
    requires OnPath(path, pathSet) && g == |path| - 1 && threshold < INT_MAX
    requires forall c: Config :: c in universe
    ensures Outcome(r, path, pathSet, path', pathSet', threshold, useH1, |universe| + 36)
    ensures explored' >= explored
    ensures g + Heuristic(useH1, path[g]) > threshold ==> r == g + Heuristic(useH1, path[g]) && explored' == explored
    ensures g + Heuristic(useH1, path[g]) <= threshold && IsGoal(path[g]) ==>
              r == FOUND && path' == path && explored' == explored + 1
    ensures r != FOUND ==> LeastCut(r, path[g], pathSet, g, threshold, HeuristicOf(useH1))
    ensures r == INT_MAX ==> Trapped(path[g], pathSet)
    decreases |universe| - |pathSet|, 3
  {
    var current := path[|path| - 1];
    assert current == path[g];
    var h := Heuristic(useH1, current);
    var f := g + h;
    PathWithin(path, pathSet, universe);
    UniverseSize(universe);
    if f > threshold {
      Exceeded(current, pathSet, g, threshold, HeuristicOf(useH1));
      return f, path, pathSet, explored;
    }
    explored' := explored + 1;
    if IsGoal(current) {
      GoalReached(path, pathSet, g, threshold, useH1, |universe| + 36);
      return FOUND, path, pathSet, explored';
    }
    r, path', pathSet', explored' := Sweep(path, pathSet, g, threshold, useH1, explored', universe);
  }

  /**
   * The state of idaSearch's loop at the expanded state c after the first
   * i neighbours, collected in done: no route through them reaches the goal
   * within the bound; min exceeds the bound, is at most the f of every
   * route through them that the bound cuts off, and is the f of one such
   * route unless it is still Integer.MAX_VALUE, in which case every
   * neighbour probed so far is trapped.
   */
  ghost predicate Swept(c: Config, ns: seq<Config>, i: int, done: set<Config>, pathSet: set<Config>, min: int,
                        g: int, threshold: int, h: Config -> int, bound: int) {
    && 0 <= i <= |ns| && (forall k | 0 <= k < i :: ns[k] in done)
    && threshold < min && (min == INT_MAX || min <= bound)
    && (forall w | Hit(w, c, pathSet, g, threshold, h) :: |w| < 2 || w[1] !in done)
    && (forall w | Cut(w, c, pathSet, g, threshold, h) && |w| >= 2 && w[1] in done :: min <= Cost(w, g, h))
    && (min == INT_MAX || exists w :: Cut(w, c, pathSet, g, threshold, h) && Cost(w, g, h) == min)
    && (min == INT_MAX ==> ChildrenTrapped(ns, i, pathSet))
  }

  /** Before the first neighbour nothing has been accounted for. */
  lemma SweptStart(c: Config, ns: seq<Config>, pathSet: set<Config>, g: int, threshold: int, h: Config -> int, bound: int)
    requires threshold < INT_MAX
    ensures Swept(c, ns, 0, {}, pathSet, INT_MAX, g, threshold, h, bound)
  {
  }

  /** A neighbour on the path is passed over: no route goes through it. */
  lemma SweptSkip(c: Config, ns: seq<Config>, i: int, done: set<Config>, pathSet: set<Config>, min: int,
                  g: int, threshold: int, h: Config -> int, bound: int)
    requires Swept(c, ns, i, done, pathSet, min, g, threshold, h, bound) && i < |ns| && ns[i] in pathSet
    ensures Swept(c, ns, i + 1, done + {ns[i]}, pathSet, min, g, threshold, h, bound)
  {
    forall w | Probing(w, c, pathSet, g, threshold, h) && |w| >= 2 ensures w[1] != ns[i] {
      assert w[1] !in pathSet;
    }
    if min == INT_MAX {
      ChildrenTrappedNext(ns, i, pathSet);
    }
  }

  /** No route through the probed neighbour reaches the goal within the bound. */
  lemma NoHitThrough(c: Config, n: Config, pathSet: set<Config>, g: int, threshold: int, h: Config -> int, result: int)
    requires LeastCut(result, n, pathSet + {n}, g + 1, threshold, h)
    ensures forall w | Hit(w, c, pathSet, g, threshold, h) && |w| >= 2 :: w[1] != n
  {
    forall w | Hit(w, c, pathSet, g, threshold, h) && |w| >= 2 ensures w[1] != n {
      HitTail(w, c, pathSet, g, threshold, h);
    }
  }

  /** Every route through the probed neighbour that the bound cuts off has f at least the probe's value. */
  lemma CutThrough(c: Config, n: Config, pathSet: set<Config>, g: int, threshold: int, h: Config -> int, result: int)
    requires LeastCut(result, n, pathSet + {n}, g + 1, threshold, h)
    ensures forall w | Cut(w, c, pathSet, g, threshold, h) && |w| >= 2 && w[1] == n :: result <= Cost(w, g, h)
  {
    forall w | Cut(w, c, pathSet, g, threshold, h) && |w| >= 2 && w[1] == n ensures result <= Cost(w, g, h) {
      CutTail(w, c, pathSet, g, threshold, h);
    }
  }

  /** The route the probe of a neighbour was cut off at, behind the expanded state, is cut off at the same f. */
  lemma CutWitness(c: Config, n: Config, pathSet: set<Config>, g: int, threshold: int, h: Config -> int, result: int)
    requires LeastCut(result, n, pathSet + {n}, g + 1, threshold, h) && result != INT_MAX
    requires n in Neighbors(c) && n !in pathSet && c in pathSet && g + h(c) <= threshold && !IsGoal(c)
    ensures exists w :: Cut(w, c, pathSet, g, threshold, h) && Cost(w, g, h) == result
  {
    var w :| Cut(w, n, pathSet + {n}, g + 1, threshold, h) && Cost(w, g + 1, h) == result;
    ProbingCons(w, c, n, pathSet, g, threshold, h);
    assert Cut([c] + w, c, pathSet, g, threshold, h);
  }

  /** The value of probing a neighbour off the path is folded into the minimum. */
  lemma SweptProbe(c: Config, ns: seq<Config>, i: int, done: set<Config>, pathSet: set<Config>, min: int,
                   g: int, threshold: int, h: Config -> int, bound: int, result: int)
    requires Swept(c, ns, i, done, pathSet, min, g, threshold, h, bound) && i < |ns| && ns[i] !in pathSet
    requires ns == Neighbors(c) && c in pathSet && g + h(c) <= threshold && !IsGoal(c)
    requires bound < INT_MAX && threshold < result && (result != INT_MAX ==> result <= bound)
    requires LeastCut(result, ns[i], pathSet + {ns[i]}, g + 1, threshold, h)
    requires result == INT_MAX ==> Trapped(ns[i], pathSet + {ns[i]})
    ensures Swept(c, ns, i + 1, done + {ns[i]}, pathSet, if result < min then result else min, g, threshold, h, bound)
  {
    var n := ns[i];
    NoHitThrough(c, n, pathSet, g, threshold, h, result);
    CutThrough(c, n, pathSet, g, threshold, h, result);
    if result < min {
      assert n in Neighbors(c);
      CutWitness(c, n, pathSet, g, threshold, h, result);
    }
    if result == INT_MAX && min == INT_MAX {
      ChildrenTrappedNext(ns, i, pathSet);
    }
  }

  /**
   * After the last neighbour every route of two or more states has been
   * accounted for, and the one-state route is neither cut off nor the goal:
   * min is the probe's value, and Integer.MAX_VALUE means trapped.
   */
  lemma SweptAll(c: Config, ns: seq<Config>, done: set<Config>, pathSet: set<Config>, min: int,
                 g: int, threshold: int, h: Config -> int, bound: int)
    requires ns == Neighbors(c) && !IsGoal(c) && g + h(c) <= threshold
    requires Swept(c, ns, |ns|, done, pathSet, min, g, threshold, h, bound)
    ensures LeastCut(min, c, pathSet, g, threshold, h)
    ensures min == INT_MAX ==> Trapped(c, pathSet)
  {
    forall w | Probing(w, c, pathSet, g, threshold, h) && |w| >= 2 ensures w[1] in done {
      assert w[1] in Neighbors(w[0]);
      var k :| 0 <= k < |ns| && ns[k] == w[1];
    }
    if min == INT_MAX {
      ChildrenTrappedAll(c, ns, pathSet);
    }
  }

  /**
   * The loop of idaSearch over the neighbours of the last state of path,
   * whose f is within the bound: each neighbour not on the path is probed
   * in turn; FOUND is returned at once, and otherwise the least result
   * (Integer.MAX_VALUE when there was none), which is the least f of a
   * route cut off by the bound; Integer.MAX_VALUE means no goal lies beyond
   * the last state.
   */
  method Sweep(path: seq<Config>, pathSet: set<Config>, g: int, threshold: int, useH1: bool, explored: nat,
               ghost universe: set<Config>)
    returns (r: int, path': seq<Config>, pathSet': set<Config>, explored': nat)
    requires OnPath(path, pathSet) && g == |path| - 1 && threshold < INT_MAX
    requires forall c: Config :: c in universe
    requires g + Heuristic(useH1, path[g]) <= threshold && !IsGoal(path[g])
    ensures Outcome(r, path, pathSet, path', pathSet', threshold, useH1, |universe| + 36)
    ensures explored' >= explored
    ensures r != FOUND ==> LeastCut(r, path[g], pathSet, g, threshold, HeuristicOf(useH1))
    ensures r == INT_MAX ==> Trapped(path[g], pathSet)
    decreases |universe| - |pathSet|, 2
  {
    ghost var done := {};
    var min := INT_MAX;
    explored' := explored;
    var ns := GetNeighbors(path[|path| - 1]);
    SweptStart(path[g], ns, pathSet, g, threshold, HeuristicOf(useH1), |universe| + 36);
    for i := 0 to |ns|
      invariant Swept(path[g], ns, i, done, pathSet, min, g, threshold, HeuristicOf(useH1), |universe| + 36)
      invariant explored' >= explored
    {
      var found, p, ps;
      found, p, ps, explored', min, done := Step(path, pathSet, g, threshold, useH1, explored', universe, ns, i, done, min);
      if found {
        r, path', pathSet' := FOUND, p, ps;
        return;
      }
    }
    SweptOutcome(path, pathSet, g, threshold, useH1, ns, done, min, |universe| + 36);
    r, path', pathSet' := min, path, pathSet;
  }

  /** What the loop of Sweep leaves behind, stated as Sweep's own contract. */
  lemma SweptOutcome(path: seq<Config>, pathSet: set<Config>, g: int, threshold: int, useH1: bool,
                     ns: seq<Config>, done: set<Config>, min: int, bound: int)
    requires OnPath(path, pathSet) && g == |path| - 1
    requires ns == Neighbors(path[g]) && !IsGoal(path[g]) && g + Heuristic(useH1, path[g]) <= threshold
    requires Swept(path[g], ns, |ns|, done, pathSet, min, g, threshold, HeuristicOf(useH1), bound)
    ensures Outcome(min, path, pathSet, path, pathSet, threshold, useH1, bound)
    ensures min != FOUND ==> LeastCut(min, path[g], pathSet, g, threshold, HeuristicOf(useH1))
    ensures min == INT_MAX ==> Trapped(path[g], pathSet)
  {
    SweptAll(path[g], ns, done, pathSet, min, g, threshold, HeuristicOf(useH1), bound);
  }

  /**
   * One turn of idaSearch's neighbour loop: ns[i] is passed over when it is
   * on the path and probed otherwise, and min keeps the least value a probe
   * returned. found means the probe reached the goal within the bound.
   */
  method Step(path: seq<Config>, pathSet: set<Config>, g: int, threshold: int, useH1: bool, explored: nat,
              ghost universe: set<Config>, ns: seq<Config>, i: nat, ghost done: set<Config>, min: int)
    returns (found: bool, path': seq<Config>, pathSet': set<Config>, explored': nat, min': int,
             ghost done': set<Config>)
    requires OnPath(path, pathSet) && g == |path| - 1 && threshold < INT_MAX
    requires forall c: Config :: c in universe
    requires g + Heuristic(useH1, path[g]) <= threshold && !IsGoal(path[g])
    requires ns == Neighbors(path[g]) && i < |ns|
    requires Swept(path[g], ns, i, done, pathSet, min, g, threshold, HeuristicOf(useH1), |universe| + 36)
    ensures explored' >= explored
    ensures found ==> Outcome(FOUND, path, pathSet, path', pathSet', threshold, useH1, |universe| + 36)
    ensures !found ==> Swept(path[g], ns, i + 1, done', pathSet, min', g, threshold, HeuristicOf(useH1), |universe| + 36)
    decreases |universe| - |pathSet|, 1
  {
    UniverseSize(universe);
    ElemsHas(path, path[g]);
    ghost var h := HeuristicOf(useH1);
    var n := ns[i];
    found, path', pathSet', explored', min', done' := false, path, pathSet, explored, min, done + {n};
    if n in pathSet {
      SweptSkip(path[g], ns, i, done, pathSet, min, g, threshold, h, |universe| + 36);
    } else {
      var result;
      result, path', pathSet', explored' := Probe(path, pathSet, n, g, threshold, useH1, explored, universe);
      if result == FOUND {
        found := true;
        return;
      }
      SweptProbe(path[g], ns, i, done, pathSet, min, g, threshold, h, |universe| + 36, result);
      if result < min {
        min' := result;
      }
    }
  }

  /**
   * The body of idaSearch's loop for one neighbour n not on the path: n is
   * pushed onto path and pathSet, probed with cost g + 1, and popped again
   * unless the probe found the goal.
   */
  method Probe(path: seq<Config>, pathSet: set<Config>, n: Config, g: int, threshold: int, useH1: bool, explored: nat,
               ghost universe: set<Config>)
    returns (r: int, path': seq<Config>, pathSet': set<Config>, explored': nat)
    requires OnPath(path, pathSet) && g == |path| - 1 && threshold < INT_MAX
    requires forall c: Config :: c in universe
    requires n in Neighbors(path[g]) && n !in pathSet
    requires g + Heuristic(useH1, path[g]) <= threshold
    ensures Outcome(r, path, pathSet, path', pathSet', threshold, useH1, |universe| + 36)
    ensures explored' >= explored
    ensures r != FOUND ==> LeastCut(r, n, pathSet + {n}, g + 1, threshold, HeuristicOf(useH1))
    ensures r == INT_MAX ==> Trapped(n, pathSet + {n})
    decreases |universe| - |pathSet|, 0
  {
    PathPush(path, pathSet, n);
    PathWithin(path + [n], pathSet + {n}, universe);
    r, path', pathSet', explored' := IdaSearch(path + [n], pathSet + {n}, g + 1, threshold, useH1, explored, universe);
    if r == FOUND {
      ExtendsBack(path, g, n, path', threshold, useH1);
      return;
    }
    PathPop(path, pathSet, n);
    path', pathSet' := path'[..|path'| - 1], pathSet' - {n};
  }

  /**
   * One iteration of runIDAStar's loop: a probe from the one-state path
   * [initial] with the given bound. FOUND comes with the solution, a simple
   * walk from initial to a goal configuration; any other result exceeds the
   * bound, and is the least f of a route from initial that the bound cuts
   * off; Integer.MAX_VALUE means no walk from initial reaches the goal.
   */
  method Deepen(initial: Config, threshold: int, useH1: bool, explored: nat, ghost universe: set<Config>)
    returns (r: int, solution: seq<Config>, explored': nat)
    requires threshold < INT_MAX && forall c: Config :: c in universe
    ensures r == FOUND ==> |solution| >= 1 && solution[0] == initial && IsGoal(solution[|solution| - 1])
    ensures r == FOUND ==> IsWalk(solution) && Simple(solution) && |solution| - 1 <= threshold
    ensures r != FOUND ==> threshold < r && (r != INT_MAX ==> r <= |universe| + 36)
    ensures r != FOUND ==> LeastCut(r, initial, {initial}, 0, threshold, HeuristicOf(useH1)) && MovesAtLeast(initial, r)
    ensures Heuristic(useH1, initial) <= threshold && IsGoal(initial) ==> r == FOUND && solution == [initial]
    ensures r == INT_MAX ==> GoalUnreachable(initial)
    ensures explored' >= explored
  {
    var path, pathSet := [initial], {initial};
    PathStart(initial);
    var ps;
    r, solution, ps, explored' := IdaSearch(path, pathSet, 0, threshold, useH1, explored, universe);
    if r == FOUND {
      assert solution[..1] == path;
      WalkIsWalk(solution);
      DistinctIsSimple(solution);
      assert |solution| - 1 + Heuristic(useH1, solution[|solution| - 1]) <= threshold;
    }
    if r != FOUND {
      HeuristicUnderestimates(useH1);
      NextBoundBelow(initial, threshold, r, HeuristicOf(useH1));
    }
    if r == INT_MAX {
      TrappedUnreachable(initial);
    }
  }

  /** Every walk from initial to the goal makes at least t moves. */
  ghost predicate MovesAtLeast(initial: Config, t: int) {
    forall w: seq<Config> | GoalWalk(w) && w[0] == initial :: t <= |w| - 1
  }

  /** The first bound, h(initial), is at most the number of moves of any solution. */
  lemma FirstBoundBelow(initial: Config, useH1: bool)
    ensures MovesAtLeast(initial, Heuristic(useH1, initial))
  {
    forall w: seq<Config> | GoalWalk(w) && w[0] == initial ensures Heuristic(useH1, initial) <= |w| - 1
    {
      AStarSearch.Admissible(w, useH1);
    }
  }

  /** h never overestimates: along any walk that ends at the goal, h of its first state is at most its number of moves. */
  ghost predicate Underestimates(h: Config -> int) {
    forall w: seq<Config> | GoalWalk(w) :: h(w[0]) <= |w| - 1
  }

  /** Both heuristics of the puzzle never overestimate. */
  lemma HeuristicUnderestimates(useH1: bool)
    ensures Underestimates(HeuristicOf(useH1))
  {
    forall w: seq<Config> | GoalWalk(w) ensures HeuristicOf(useH1)(w[0]) <= |w| - 1 {
      AStarSearch.Admissible(w, useH1);
    }
  }

  /**
   * The value of a failed probe from initial is at most the number of moves
   * of any solution: a shortest solution has no repeats, so the probe
   * followed it up to the first state it cut off, and there f is at most the
   * number of moves because h is admissible.
   */
  lemma NextBoundBelow(initial: Config, threshold: int, r: int, h: Config -> int)
    requires LeastCut(r, initial, {initial}, 0, threshold, h) && Underestimates(h)
    ensures MovesAtLeast(initial, r)
  {
    forall w: seq<Config> | GoalWalk(w) && w[0] == initial ensures r <= |w| - 1 {
      var v := Shortcut(w);
      CutOnWalk(initial, threshold, r, h, v);
    }
  }

  /** The case of NextBoundBelow for one simple walk v to the goal. */
  lemma CutOnWalk(initial: Config, threshold: int, r: int, h: Config -> int, v: seq<Config>)
    requires LeastCut(r, initial, {initial}, 0, threshold, h) && Underestimates(h)
    requires |v| >= 1 && v[0] == initial && IsWalk(v) && Simple(v) && IsGoal(v[|v| - 1])
    ensures r <= |v| - 1
  {
    var u := PrefixStops(v, threshold, h);
    assert !Hit(u, initial, {initial}, 0, threshold, h);
  }

  /**
   * A probe from the start of a simple walk to the goal follows it up to a
   * state where the route is either cut off or reaches the goal, and there
   * f is at most the number of moves of the walk, h being admissible.
   */
  lemma PrefixStops(v: seq<Config>, threshold: int, h: Config -> int) returns (u: seq<Config>)
    requires |v| >= 1 && IsWalk(v) && Simple(v) && IsGoal(v[|v| - 1]) && Underestimates(h)
    ensures Cut(u, v[0], {v[0]}, 0, threshold, h) || Hit(u, v[0], {v[0]}, 0, threshold, h)
    ensures |u| >= 1 && Cost(u, 0, h) <= |v| - 1
  {
    var j := FirstOut(v, threshold, h);
    u := v[..j + 1];
    ProbingPrefix(v, j, threshold, h);
    assert u[|u| - 1] == v[j];
    WalkSuffix(v, j);
  }

  /** The rest of a walk from any of its states is a walk. */
  lemma WalkSuffix(v: seq<Config>, j: int)
    requires IsWalk(v) && 0 <= j < |v|
    ensures IsWalk(v[j..]) && v[j..][0] == v[j] && v[j..][|v| - 1 - j] == v[|v| - 1]
  {
    var t := v[j..];
    forall k | 1 <= k < |t| ensures t[k] in Neighbors(t[k - 1]) {
      assert t[k] == v[j + k] && t[k - 1] == v[j + k - 1];
    }
  }

  /** The first state of a walk to the goal that a probe from its start would not expand. */
  lemma FirstOut(v: seq<Config>, threshold: int, h: Config -> int) returns (j: int)
    requires |v| >= 1 && IsGoal(v[|v| - 1])
    ensures 0 <= j < |v| && (j + h(v[j]) > threshold || IsGoal(v[j]))
    ensures forall k | 0 <= k < j :: 0 + k + h(v[k]) <= threshold && !IsGoal(v[k])
  {
    j := 0;
    while j < |v| - 1 && j + h(v[j]) <= threshold && !IsGoal(v[j])
      invariant 0 <= j <= |v| - 1
      invariant forall k | 0 <= k < j :: 0 + k + h(v[k]) <= threshold && !IsGoal(v[k])
    {
      j := j + 1;
    }
  }

  /** A simple walk, up to the first state a probe would not expand, is a route of the probe from its start. */
  lemma ProbingPrefix(v: seq<Config>, j: int, threshold: int, h: Config -> int)
    requires |v| >= 1 && IsWalk(v) && Simple(v) && 0 <= j < |v|
    requires forall k | 0 <= k < j :: 0 + k + h(v[k]) <= threshold && !IsGoal(v[k])
    ensures Probing(v[..j + 1], v[0], {v[0]}, 0, threshold, h)
  {
    var u := v[..j + 1];
    forall k | 1 <= k < |u| ensures u[k] in Neighbors(u[k - 1]) && u[k] !in {v[0]} {
      assert u[k] == v[k] && u[k - 1] == v[k - 1];
      assert v[0] != v[k];
    }
    forall k | 0 <= k < |u| - 1 ensures 0 + k + h(u[k]) <= threshold && !IsGoal(u[k]) {
      assert u[k] == v[k];
    }
  }

  /** Each bound after the first is the value of the failed probe with the bound before it. */
  ghost predicate Raised(initial: Config, h: Config -> int, ts: seq<int>) {
    forall k | 0 <= k < |ts| - 1 :: LeastCut(ts[k + 1], initial, {initial}, 0, ts[k], h)
  }

  lemma RaisedPush(initial: Config, h: Config -> int, ts: seq<int>, t: int)
    requires Raised(initial, h, ts)
    requires ts != [] ==> LeastCut(t, initial, {initial}, 0, ts[|ts| - 1], h)
    ensures Raised(initial, h, ts + [t])
  {
    var us := ts + [t];
    forall k | 0 <= k < |us| - 1 ensures LeastCut(us[k + 1], initial, {initial}, 0, us[k], h) {
      assert us[k] == ts[k];
      if k + 1 < |ts| {
        assert us[k + 1] == ts[k + 1];
      }
    }
  }

  /**
   * The bounds of runIDAStar so far: the first is h(initial), they strictly
   * increase, and each after the first is the value of the failed probe
   * with the bound before it.
   */
  ghost predicate Chain(initial: Config, useH1: bool, ts: seq<int>) {
    |ts| >= 1 && ts[0] == Heuristic(useH1, initial) && Increasing(ts) && Raised(initial, HeuristicOf(useH1), ts)
  }

  lemma ChainPush(initial: Config, useH1: bool, ts: seq<int>, t: int)
    requires Chain(initial, useH1, ts) && ts[|ts| - 1] < t
    requires LeastCut(t, initial, {initial}, 0, ts[|ts| - 1], HeuristicOf(useH1))
    ensures Chain(initial, useH1, ts + [t])
  {
    IncreasingPush(ts, t);
    RaisedPush(initial, HeuristicOf(useH1), ts, t);
  }

  /** The values strictly increase from left to right. */
  predicate Increasing(ts: seq<int>) {
    forall i, j | 0 <= i < j < |ts| :: ts[i] < ts[j]
  }

  /** Appending a value above the last keeps a sequence increasing. */
  lemma IncreasingPush(ts: seq<int>, t: int)
    requires Increasing(ts) && (ts != [] ==> ts[|ts| - 1] < t)
    ensures Increasing(ts + [t])
  {
    var us := ts + [t];
    forall i, j | 0 <= i < j < |us| ensures us[i] < us[j] {
      if j < |ts| {
        assert us[i] == ts[i] && us[j] == ts[j];
      } else {
        assert us[i] == ts[i];
        if i < |ts| - 1 {
          assert ts[i] < ts[|ts| - 1];
        }
      }
    }
  }

  /**
   * runIDAStar: probes from initial with the bound starting at h(initial)
   * and raised to each probe's result, until a probe finds the goal or
   * returns Integer.MAX_VALUE. The bounds tried strictly increase. On
   * success the solution is a simple walk from initial to a goal
   * configuration, and no walk from initial to the goal is shorter; a goal
   * initial state is found by the first probe with a one-state path. Each
   * bound after the first is the least f the previous probe cut off.
   * Failure means no walk from initial reaches the goal.
   */
  method RunIdaStar(initial: Config, useH1: bool)
    returns (success: bool, solution: seq<Config>, explored: nat, iterations: nat, ghost thresholds: seq<int>)
    ensures success ==> |solution| >= 1 && solution[0] == initial && IsGoal(solution[|solution| - 1])
    ensures success ==> IsWalk(solution) && Simple(solution)
    ensures success ==> forall w: seq<Config> | GoalWalk(w) && w[0] == initial :: |solution| <= |w|
    ensures !success ==> solution == [] && GoalUnreachable(initial)
    ensures |thresholds| == iterations >= 1 && thresholds[0] == Heuristic(useH1, initial)
    ensures Increasing(thresholds) && Raised(initial, HeuristicOf(useH1), thresholds)
    ensures IsGoal(initial) ==> success && solution == [initial] && iterations == 1
  {
    ghost var universe := Universe();
    UniverseSize(universe);
    var threshold := Heuristic(useH1, initial);
    iterations := 0;
    thresholds := [];
    success := false;
    solution := [];
    explored := 0;
    FirstBoundBelow(initial, useH1);
    assert Chain(initial, useH1, [threshold]);

    while true
      invariant threshold <= |universe| + 36 && |thresholds| == iterations
      invariant Chain(initial, useH1, thresholds + [threshold])
      invariant MovesAtLeast(initial, threshold)
      invariant iterations > 0 ==> !IsGoal(initial)
      decreases |universe| + 36 - threshold
    {
      iterations := iterations + 1;
      thresholds := thresholds + [threshold];
      var result, found;
      result, found, explored := Deepen(initial, threshold, useH1, explored, universe);
      if result == FOUND {
        success := true;
        solution := found;
        break;
      }
      if result == INT_MAX {
        break;
      }
      ChainPush(initial, useH1, thresholds, result);
      threshold := result;
    }
  }
}
