/**
 * Adversarial search on the puzzle: the MAX player moves the blank towards
 * the goal, the MIN player away from it, and a position is worth its
 * utility, the negated Manhattan distance. Plain minimax and minimax with
 * alpha-beta pruning both search to a fixed depth, skipping states already
 * on the current line of play (the visited set).
 *
 * The value functions below are the specification; the methods further
 * down are the recursive searches with their loops, visited-set updates
 * and call counters, proved to compute them.
 */
module AdversarialSearch {
  import opened PuzzleState
  import opened Frontier

  /** Integer.MIN_VALUE and Integer.MAX_VALUE: the window runAlphaBeta starts each root child with. */
  const INT_MIN: int := -0x8000_0000
  const INT_MAX: int := 0x7fff_ffff

  function Max(a: int, b: int): int { if a >= b then a else b }
  function Min(a: int, b: int): int { if a <= b then a else b }

  /** utility: the negated Manhattan distance, never positive and zero exactly at the goal. */
  function Utility(s: Config): (u: int)
    ensures -36 <= u <= 0
    ensures u == 0 <==> IsGoal(s)
  {
    H2Bounds(s);
    H2ZeroIffGoal(s);
    -H2(s)
  }

  /**
   * Math.max or Math.min (by whose turn it is) of the running value and v;
   * None stands for the Integer.MIN_VALUE / Integer.MAX_VALUE the running
   * value starts at, before any child was evaluated.
   */
  function Better(best: Option<int>, v: int, isMax: bool): int {
    if best.None? then v else if isMax then Max(best.value, v) else Min(best.value, v)
  }

  /** The children of s the searches descend into: its neighbours not on the current line of play, in order. */
  function Children(s: Config, visited: set<Config>): seq<Config> {
    Unvisited(Neighbors(s), visited)
  }

  // ---------------------------------------------------------------------------
  // Minimax

  /**
   * The minimax value of s with depth moves left: a terminal position
   * (depth exhausted, or the goal) is worth its utility; otherwise MAX
   * takes the largest and MIN the smallest value of the children, each
   * searched with itself added to visited; a position without children is
   * worth its utility.
   */
  function Minimax(s: Config, depth: nat, isMax: bool, visited: set<Config>): (v: int)
    ensures -36 <= v <= 0
    decreases depth, 1, 0
  {
    if depth == 0 || IsGoal(s) then Utility(s)
    else
      var best := Extreme(Children(s, visited), depth - 1, isMax, visited);
      if best.None? then Utility(s) else best.value
  }

  /** The running value after evaluating the children ns with depth d left: None for no children. */
  function Extreme(ns: seq<Config>, d: nat, isMax: bool, visited: set<Config>): (r: Option<int>)
    ensures r.None? <==> ns == []
    ensures r.Some? ==> -36 <= r.value <= 0
    decreases d + 1, 0, |ns|
  {
    if ns == [] then None
    else
      var last := ns[|ns| - 1];
      Some(Better(Extreme(ns[..|ns| - 1], d, isMax, visited), Minimax(last, d, !isMax, visited + {last}), isMax))
  }

  /** The number of minimax calls the search of s makes, itself included. */
  function MinimaxCalls(s: Config, depth: nat, isMax: bool, visited: set<Config>): (n: nat)
    ensures n >= 1
    decreases depth, 1, 0
  {
    if depth == 0 || IsGoal(s) then 1
    else 1 + ExtremeCalls(Children(s, visited), depth - 1, isMax, visited)
  }

  /** The number of minimax calls made for the children ns. */
  function ExtremeCalls(ns: seq<Config>, d: nat, isMax: bool, visited: set<Config>): nat
    decreases d + 1, 0, |ns|
  {
    if ns == [] then 0
    else
      var last := ns[|ns| - 1];
      ExtremeCalls(ns[..|ns| - 1], d, isMax, visited) + MinimaxCalls(last, d, !isMax, visited + {last})
  }

  // ---------------------------------------------------------------------------
  // Alpha-beta

  /**
   * The state of alphaBeta's loop: the running value, the window, and
   * whether the window has closed (beta <= alpha), which ends the loop.
   */
  datatype Window = Window(best: Option<int>, alpha: int, beta: int, cut: bool)

  /**
   * One evaluated child with value v: the running value is updated, then
   * MAX raises alpha to it (MIN lowers beta), and the loop is cut once
   * beta <= alpha.
   */
  function Absorb(w: Window, v: int, isMax: bool): (w': Window)
    ensures w'.best.Some?
  {
    var best := Better(w.best, v, isMax);
    if isMax then
      var alpha := Max(w.alpha, best);
      Window(Some(best), alpha, w.beta, w.beta <= alpha)
    else
      var beta := Min(w.beta, best);
      Window(Some(best), w.alpha, beta, beta <= w.alpha)
  }

  /**
   * The alpha-beta value of s in the window (alpha, beta): terminal
   * positions and positions without children are worth their utility as in
   * minimax; otherwise the children are evaluated in order, each in the
   * current window, until the window closes.
   */
  function AlphaBeta(s: Config, depth: nat, alpha: int, beta: int, isMax: bool, visited: set<Config>): int
    decreases depth, 1, 0
  {
    if depth == 0 || IsGoal(s) then Utility(s)
    else
      var w := Scan(Children(s, visited), depth - 1, alpha, beta, isMax, visited);
      if w.best.None? then Utility(s) else w.best.value
  }

  /** The loop state after the children ns, starting from the window (alpha, beta); children after a cut are skipped. */
  function Scan(ns: seq<Config>, d: nat, alpha: int, beta: int, isMax: bool, visited: set<Config>): Window
    decreases d + 1, 0, |ns|
  {
    if ns == [] then Window(None, alpha, beta, false)
    else
      var w := Scan(ns[..|ns| - 1], d, alpha, beta, isMax, visited);
      if w.cut then w
      else
        var last := ns[|ns| - 1];
        Absorb(w, AlphaBeta(last, d, w.alpha, w.beta, !isMax, visited + {last}), isMax)
  }

  /** The number of alphaBeta calls the search of s makes, itself included. */
  function AlphaBetaCalls(s: Config, depth: nat, alpha: int, beta: int, isMax: bool, visited: set<Config>): (n: nat)
    ensures n >= 1
    decreases depth, 1, 0
  {
    if depth == 0 || IsGoal(s) then 1
    else 1 + ScanCalls(Children(s, visited), depth - 1, alpha, beta, isMax, visited)
  }

  /** The number of alphaBeta calls made for the children ns: none for the children after a cut. */
  function ScanCalls(ns: seq<Config>, d: nat, alpha: int, beta: int, isMax: bool, visited: set<Config>): nat
    decreases d + 1, 0, |ns|
  {
    if ns == [] then 0
    else
      var init := ns[..|ns| - 1];
      var w := Scan(init, d, alpha, beta, isMax, visited);
      var last := ns[|ns| - 1];
      ScanCalls(init, d, alpha, beta, isMax, visited)
        + (if w.cut then 0 else AlphaBetaCalls(last, d, w.alpha, w.beta, !isMax, visited + {last}))
  }

  // ---------------------------------------------------------------------------
  // Alpha-beta computes minimax

  /**
   * ab is a fail-soft alpha-beta value for the minimax value mm in the
   * window (alpha, beta): exact inside the window, and on the same side of
   * the window as mm, between mm and the window, outside it.
   */
  predicate FailSoft(ab: int, mm: int, alpha: int, beta: int) {
    && (mm <= alpha ==> mm <= ab <= alpha)
    && (alpha < mm < beta ==> ab == mm)
    && (beta <= mm ==> beta <= ab <= mm)
  }

  /**
   * What the loop has established after the children ns, in terms of the
   * minimax running value m of the same children: MAX has not cut while
   * its running value stays below beta, and then either every child so far
   * is at most alpha (and so is the running value, which bounds m from
   * above) or the running value is m; after a cut the running value is
   * between beta and m. MIN is the mirror image.
   */
  predicate ScanRelates(w: Window, m: Option<int>, alpha: int, beta: int, isMax: bool) {
    && (w.best.None? <==> m.None?)
    && (w.best.Some? ==>
          var b, v := w.best.value, m.value;
          if isMax then
            && w.beta == beta
            && (w.cut ==> beta <= b <= v)
            && (!w.cut ==> w.alpha == Max(alpha, b) && w.alpha < beta
                           && ((v <= alpha && v <= b <= alpha) || (alpha < v && b == v)))
          else
            && w.alpha == alpha
            && (w.cut ==> v <= b <= alpha)
            && (!w.cut ==> w.beta == Min(beta, b) && alpha < w.beta
                           && ((beta <= v && beta <= b <= v) || (v < beta && b == v))))
    && (w.best.None? ==> w == Window(None, alpha, beta, false))
  }

  /** Alpha-beta is fail-soft with respect to minimax, in every window that is open. */
  lemma {:induction false} AlphaBetaSound(s: Config, depth: nat, alpha: int, beta: int, isMax: bool, visited: set<Config>)
    requires alpha < beta
    ensures FailSoft(AlphaBeta(s, depth, alpha, beta, isMax, visited), Minimax(s, depth, isMax, visited), alpha, beta)
    decreases depth, 1, 0
  {
    if depth > 0 && !IsGoal(s) {
      ScanSound(Children(s, visited), depth - 1, alpha, beta, isMax, visited);
    }
  }

  /** The loop over the children keeps ScanRelates. */
  lemma {:induction false} ScanSound(ns: seq<Config>, d: nat, alpha: int, beta: int, isMax: bool, visited: set<Config>)
    requires alpha < beta
    ensures ScanRelates(Scan(ns, d, alpha, beta, isMax, visited), Extreme(ns, d, isMax, visited), alpha, beta, isMax)
    decreases d + 1, 0, |ns|
  {
    if ns != [] {
      var init, last := ns[..|ns| - 1], ns[|ns| - 1];
      ScanSound(init, d, alpha, beta, isMax, visited);
      var w := Scan(init, d, alpha, beta, isMax, visited);
      if !w.cut {
        AlphaBetaSound(last, d, w.alpha, w.beta, !isMax, visited + {last});
      }
    }
  }

  /** With the window Integer.MIN_VALUE..Integer.MAX_VALUE alpha-beta returns the minimax value itself. */
  lemma AlphaBetaExact(s: Config, depth: nat, isMax: bool, visited: set<Config>)
    ensures AlphaBeta(s, depth, INT_MIN, INT_MAX, isMax, visited) == Minimax(s, depth, isMax, visited)
  {
    AlphaBetaSound(s, depth, INT_MIN, INT_MAX, isMax, visited);
  }

  /** Pruning never makes more calls than plain minimax, whatever the window. */
  lemma {:induction false} FewerCalls(s: Config, depth: nat, alpha: int, beta: int, isMax: bool, visited: set<Config>)
    ensures AlphaBetaCalls(s, depth, alpha, beta, isMax, visited) <= MinimaxCalls(s, depth, isMax, visited)
    decreases depth, 1, 0
  {
    if depth == 0 || IsGoal(s) {
      assert AlphaBetaCalls(s, depth, alpha, beta, isMax, visited) == 1;
    } else {
      FewerScanCalls(Children(s, visited), depth - 1, alpha, beta, isMax, visited);
    }
  }

  /** The children's part of FewerCalls. */
  lemma {:induction false} FewerScanCalls(ns: seq<Config>, d: nat, alpha: int, beta: int, isMax: bool, visited: set<Config>)
    ensures ScanCalls(ns, d, alpha, beta, isMax, visited) <= ExtremeCalls(ns, d, isMax, visited)
    decreases d + 1, 0, |ns|
  {
    if ns != [] {
      var init, last := ns[..|ns| - 1], ns[|ns| - 1];
      FewerScanCalls(init, d, alpha, beta, isMax, visited);
      var w := Scan(init, d, alpha, beta, isMax, visited);
      FewerCalls(last, d, w.alpha, w.beta, !isMax, visited + {last});
    }
  }

  // ---------------------------------------------------------------------------
  // Growing the children one at a time

  /** Filtering a concatenation filters each part. */
  lemma {:induction false} UnvisitedAppend(a: seq<Config>, b: seq<Config>, visited: set<Config>)
    ensures Unvisited(a + b, visited) == Unvisited(a, visited) + Unvisited(b, visited)
    decreases |b|
  {
    if b == [] {
      assert a + b == a;
    } else {
      var init, last := b[..|b| - 1], b[|b| - 1];
      assert (a + b)[..|a + b| - 1] == a + init;
      UnvisitedAppend(a, init, visited);
    }
  }

  /** One more child: minimax's running value and call count. */
  lemma ExtremePush(ns: seq<Config>, n: Config, d: nat, isMax: bool, visited: set<Config>)
    ensures Extreme(ns + [n], d, isMax, visited)
            == Some(Better(Extreme(ns, d, isMax, visited), Minimax(n, d, !isMax, visited + {n}), isMax))
    ensures ExtremeCalls(ns + [n], d, isMax, visited)
            == ExtremeCalls(ns, d, isMax, visited) + MinimaxCalls(n, d, !isMax, visited + {n})
  {
    assert (ns + [n])[..|ns|] == ns;
  }

  /** One more child before any cut: alpha-beta's loop state and call count. */
  lemma ScanPush(ns: seq<Config>, n: Config, d: nat, alpha: int, beta: int, isMax: bool, visited: set<Config>)
    requires !Scan(ns, d, alpha, beta, isMax, visited).cut
    ensures var w := Scan(ns, d, alpha, beta, isMax, visited);
            && Scan(ns + [n], d, alpha, beta, isMax, visited)
               == Absorb(w, AlphaBeta(n, d, w.alpha, w.beta, !isMax, visited + {n}), isMax)
            && ScanCalls(ns + [n], d, alpha, beta, isMax, visited)
               == ScanCalls(ns, d, alpha, beta, isMax, visited) + AlphaBetaCalls(n, d, w.alpha, w.beta, !isMax, visited + {n})
  {
    assert (ns + [n])[..|ns|] == ns;
  }

  /** Once the window has closed, further children change neither the loop state nor the call count. */
  lemma {:induction false} ScanAfterCut(ns: seq<Config>, rest: seq<Config>, d: nat, alpha: int, beta: int, isMax: bool,
                                        visited: set<Config>)
    requires Scan(ns, d, alpha, beta, isMax, visited).cut
    ensures Scan(ns + rest, d, alpha, beta, isMax, visited) == Scan(ns, d, alpha, beta, isMax, visited)
    ensures ScanCalls(ns + rest, d, alpha, beta, isMax, visited) == ScanCalls(ns, d, alpha, beta, isMax, visited)
    decreases |rest|
  {
    if rest == [] {
      assert ns + rest == ns;
    } else {
      var init := rest[..|rest| - 1];
      assert (ns + rest)[..|ns + rest| - 1] == ns + init;
      ScanAfterCut(ns, init, d, alpha, beta, isMax, visited);
    }
  }

  // ---------------------------------------------------------------------------
  // The searches

  /**
   * minimax: evaluates s as Minimax does. visited is the shared set of
   * states on the current line; each child is added before its search and
   * removed after it, so the set comes back as it went in. calls is the
   * minimaxCalls counter, raised once per call.
   */
  method MinimaxSearch(s: Config, depth: nat, isMax: bool, visited: set<Config>, calls: nat)
    returns (v: int, visited': set<Config>, calls': nat)
    ensures v == Minimax(s, depth, isMax, visited)
    ensures visited' == visited
    ensures calls' == calls + MinimaxCalls(s, depth, isMax, visited)
    decreases depth, 2
  {
    if depth == 0 || IsGoal(s) {
      return Utility(s), visited, calls + 1;
    }
    var ns := GetNeighbors(s);
    var best;
    best, visited', calls' := MinimaxLoop(ns, depth - 1, isMax, visited, calls + 1);
    v := if best.None? then Utility(s) else best.value;
  }

  /** The loop of minimax over the neighbours ns: the running value is that of Extreme over the unvisited ones. */
  method MinimaxLoop(ns: seq<Config>, d: nat, isMax: bool, visited: set<Config>, calls: nat)
    returns (best: Option<int>, visited': set<Config>, calls': nat)
    ensures best == Extreme(Unvisited(ns, visited), d, isMax, visited)
    ensures visited' == visited
    ensures calls' == calls + ExtremeCalls(Unvisited(ns, visited), d, isMax, visited)
    decreases d + 1, 1
  {
    best := None;
    visited' := visited;
    calls' := calls;
    ghost var done: seq<Config> := [];
    for i := 0 to |ns|
      invariant done == Unvisited(ns[..i], visited)
      invariant visited' == visited
      invariant best == Extreme(done, d, isMax, visited)
      invariant calls' == calls + ExtremeCalls(done, d, isMax, visited)
    {
      var next := ns[i];
      UnvisitedNext(ns, i, visited);
      if next !in visited' {
        ExtremePush(done, next, d, isMax, visited);
        best, visited', calls' := MinimaxChild(next, d, isMax, visited', best, calls');
        done := done + [next];
        assert best == Extreme(done, d, isMax, visited);
      }
    }
    assert ns[..|ns|] == ns;
  }

  /** One pass of minimax's loop: next goes onto visited, is searched, comes off again, and its value is folded in. */
  method MinimaxChild(next: Config, d: nat, isMax: bool, visited: set<Config>, best: Option<int>, calls: nat)
    returns (best': Option<int>, visited': set<Config>, calls': nat)
    requires next !in visited
    ensures best' == Some(Better(best, Minimax(next, d, !isMax, visited + {next}), isMax))
    ensures visited' == visited
    ensures calls' == calls + MinimaxCalls(next, d, !isMax, visited + {next})
    decreases d + 1, 0
  {
    visited' := visited + {next};
    var val;
    val, visited', calls' := MinimaxSearch(next, d, !isMax, visited', calls);
    best' := Some(Better(best, val, isMax));
    visited' := visited' - {next};
  }

  /**
   * alphaBeta: evaluates s as AlphaBeta does. The loop raises alpha (MAX)
   * or lowers beta (MIN) to the running value after each child and breaks
   * once beta <= alpha; the visited set comes back as it went in, also
   * after a break. calls is the alphaBetaCalls counter.
   */
  method AlphaBetaSearch(s: Config, depth: nat, alpha: int, beta: int, isMax: bool, visited: set<Config>, calls: nat)
    returns (v: int, visited': set<Config>, calls': nat)
    ensures v == AlphaBeta(s, depth, alpha, beta, isMax, visited)
    ensures visited' == visited
    ensures calls' == calls + AlphaBetaCalls(s, depth, alpha, beta, isMax, visited)
    decreases depth, 2
  {
    if depth == 0 || IsGoal(s) {
      return Utility(s), visited, calls + 1;
    }
    var ns := GetNeighbors(s);
    var w;
    w, visited', calls' := AlphaBetaLoop(ns, depth - 1, alpha, beta, isMax, visited, calls + 1);
    v := if w.best.None? then Utility(s) else w.best.value;
  }

  /**
   * The loop of alphaBeta over the neighbours ns: children are taken in
   * order until they run out or the window closes, and the loop state is
   * that of Scan over the unvisited ones.
   */
  method AlphaBetaLoop(ns: seq<Config>, d: nat, alpha: int, beta: int, isMax: bool, visited: set<Config>, calls: nat)
    returns (w: Window, visited': set<Config>, calls': nat)
    ensures w == Scan(Unvisited(ns, visited), d, alpha, beta, isMax, visited)
    ensures visited' == visited
    ensures calls' == calls + ScanCalls(Unvisited(ns, visited), d, alpha, beta, isMax, visited)
    decreases d + 1, 1
  {
    w := Window(None, alpha, beta, false);
    visited' := visited;
    calls' := calls;
    ghost var done: seq<Config> := [];
    var i := 0;
    while i < |ns| && !w.cut
      invariant 0 <= i <= |ns|
      invariant done == Unvisited(ns[..i], visited)
      invariant visited' == visited
      invariant w == Scan(done, d, alpha, beta, isMax, visited)
      invariant calls' == calls + ScanCalls(done, d, alpha, beta, isMax, visited)
    {
      w, visited', calls', done := AlphaBetaTurn(ns, i, d, isMax, visited', w, calls', done, alpha, beta, calls);
      i := i + 1;
    }
    ScanFinished(ns, i, done, d, alpha, beta, isMax, visited);
  }

  /**
   * One pass of alphaBeta's loop, before any cut: an unvisited child ns[i]
   * goes onto visited, is searched within the current window and comes off
   * again, and the running value and the window are updated; a visited
   * child is skipped. The loop state moves from the children of ns[..i] to
   * those of ns[..i + 1].
   */
  method AlphaBetaTurn(ns: seq<Config>, i: int, d: nat, isMax: bool, visited: set<Config>, w: Window, calls: nat,
                       ghost done: seq<Config>, ghost alpha: int, ghost beta: int, ghost base: nat)
    returns (w': Window, visited': set<Config>, calls': nat, ghost done': seq<Config>)
    requires 0 <= i < |ns| && done == Unvisited(ns[..i], visited)
    requires w == Scan(done, d, alpha, beta, isMax, visited) && !w.cut
    requires calls == base + ScanCalls(done, d, alpha, beta, isMax, visited)
    ensures done' == Unvisited(ns[..i + 1], visited)
    ensures w' == Scan(done', d, alpha, beta, isMax, visited)
    ensures visited' == visited
    ensures calls' == base + ScanCalls(done', d, alpha, beta, isMax, visited)
    decreases d + 1, 0
  {
    var next := ns[i];
    UnvisitedNext(ns, i, visited);
    if next in visited {
      return w, visited, calls, done;
    }
    ScanPush(done, next, d, alpha, beta, isMax, visited);
    done' := done + [next];
    visited' := visited + {next};
    var val;
    val, visited', calls' := AlphaBetaSearch(next, d, w.alpha, w.beta, !isMax, visited', calls);
    var best := Better(w.best, val, isMax);
    var a, b := w.alpha, w.beta;
    if isMax {
      a := Max(a, best);
    } else {
      b := Min(b, best);
    }
    w' := Window(Some(best), a, b, b <= a);
    visited' := visited' - {next};
  }

  /** When alphaBeta's loop ends, by running out of children or by a cut, its state is that of all the children. */
  lemma ScanFinished(ns: seq<Config>, i: int, done: seq<Config>, d: nat, alpha: int, beta: int, isMax: bool,
                     visited: set<Config>)
    requires 0 <= i <= |ns| && done == Unvisited(ns[..i], visited)
    requires i == |ns| || Scan(done, d, alpha, beta, isMax, visited).cut
    ensures Scan(Unvisited(ns, visited), d, alpha, beta, isMax, visited) == Scan(done, d, alpha, beta, isMax, visited)
    ensures ScanCalls(Unvisited(ns, visited), d, alpha, beta, isMax, visited) == ScanCalls(done, d, alpha, beta, isMax, visited)
  {
    if i == |ns| {
      assert ns[..i] == ns;
    } else {
      assert ns[..i] + ns[i..] == ns;
      UnvisitedAppend(ns[..i], ns[i..], visited);
      ScanAfterCut(done, Unvisited(ns[i..], visited), d, alpha, beta, isMax, visited);
    }
  }

  // ---------------------------------------------------------------------------
  // The root: choosing MAX's move

  /** The value the root gives the move n: n searched with MIN to move and d moves left, with initial and n on the line of play. */
  function MoveValue(initial: Config, n: Config, d: nat): int {
    Minimax(n, d, false, {initial, n})
  }

  /** The values of the moves ns, in the order they are generated. */
  function RootValues(initial: Config, ns: seq<Config>, d: nat): seq<int> {
    seq(|ns|, j requires 0 <= j < |ns| => MoveValue(initial, ns[j], d))
  }

  /**
   * The root's choice among the values vals, scanned in order: the position
   * of the best value and the value itself. A later value replaces the best
   * so far only when it is strictly larger.
   */
  function Choice(vals: seq<int>): (r: (nat, int))
    requires vals != []
    ensures r.0 < |vals|
  {
    var v := vals[|vals| - 1];
    if |vals| == 1 then (0, v)
    else
      var r := Choice(vals[..|vals| - 1]);
      if v > r.1 then (|vals| - 1, v) else r
  }

  /** The first position holding a largest value. */
  predicate FirstBest(vals: seq<int>, k: int) {
    && 0 <= k < |vals|
    && (forall j | 0 <= j < |vals| :: vals[j] <= vals[k])
    && (forall j | 0 <= j < k :: vals[j] < vals[k])
  }

  /** The root chooses the first position of a largest value, and reports that value. */
  lemma {:induction false} ChoiceIsFirstBest(vals: seq<int>)
    requires vals != []
    ensures FirstBest(vals, Choice(vals).0) && Choice(vals).1 == vals[Choice(vals).0]
  {
    if |vals| > 1 {
      var init := vals[..|vals| - 1];
      ChoiceIsFirstBest(init);
      assert forall j | 0 <= j < |init| :: init[j] == vals[j];
    }
  }

  /** Conversely, the first position of a largest value is the one the root chooses. */
  lemma FirstBestIsChoice(vals: seq<int>, k: int)
    requires FirstBest(vals, k)
    ensures Choice(vals) == (k, vals[k])
  {
    ChoiceIsFirstBest(vals);
  }

  /** The choice after one more value: it takes over exactly when it is strictly larger than the best so far. */
  lemma ChoicePush(vals: seq<int>, v: int)
    ensures Choice(vals + [v]) == if vals == [] then (0, v)
                                  else if v > Choice(vals).1 then (|vals|, v) else Choice(vals)
  {
    assert (vals + [v])[..|vals|] == vals;
  }

  /** The value the root reports is the largest of the moves' values: MAX's running value over them. */
  lemma {:induction false} ChoiceIsExtreme(initial: Config, ns: seq<Config>, d: nat)
    requires ns != []
    ensures Extreme(ns, d, true, {initial}) == Some(Choice(RootValues(initial, ns, d)).1)
  {
    var last := ns[|ns| - 1];
    var init := ns[..|ns| - 1];
    var vals := RootValues(initial, ns, d);
    var v := MoveValue(initial, last, d);
    assert {initial} + {last} == {initial, last};
    assert vals[|ns| - 1] == v;
    assert Extreme(ns, d, true, {initial}) == Some(Better(Extreme(init, d, true, {initial}), v, true));
    if |ns| > 1 {
      ChoiceIsExtreme(initial, init, d);
      assert vals[..|ns| - 1] == RootValues(initial, init, d);
    } else {
      assert init == [];
    }
  }

  /** Unvisited leaves a sequence none of whose members is visited as it is. */
  lemma {:induction false} UnvisitedNone(ns: seq<Config>, visited: set<Config>)
    requires forall n | n in ns :: n !in visited
    ensures Unvisited(ns, visited) == ns
  {
    if ns != [] {
      var init := ns[..|ns| - 1];
      assert forall n | n in init :: n in ns;
      UnvisitedNone(init, visited);
      assert init + [ns[|ns| - 1]] == ns;
    }
  }

  /** The root always has a move, and none of its moves leads back to initial. */
  lemma RootMoves(initial: Config)
    ensures Neighbors(initial) != [] && initial !in Neighbors(initial)
  {
    NeighborCount(initial);
    NeighborsExclude(initial);
  }

  /** At the root, with only initial on the line of play, every neighbour is a child. */
  lemma RootChildren(initial: Config)
    ensures Neighbors(initial) != [] && Children(initial, {initial}) == Neighbors(initial)
  {
    RootMoves(initial);
    UnvisitedNone(Neighbors(initial), {initial});
  }

  /** A position that is not the goal and has children ns: with d + 1 moves left, its minimax value is the running value over ns. */
  lemma MinimaxOfChildren(s: Config, d: nat, isMax: bool, visited: set<Config>, ns: seq<Config>)
    requires !IsGoal(s) && ns == Children(s, visited) && ns != []
    ensures Extreme(ns, d, isMax, visited).Some?
    ensures Minimax(s, d + 1, isMax, visited) == Extreme(ns, d, isMax, visited).value
  {
  }

  /**
   * Unless initial is already the goal, the value the root reports with d
   * moves left below it is the minimax value of initial with MAX to move,
   * d + 1 moves left and initial on the line of play: the root loop is one
   * more level of minimax.
   */
  lemma RootIsMinimax(initial: Config, d: nat)
    requires !IsGoal(initial)
    ensures Neighbors(initial) != []
    ensures Choice(RootValues(initial, Neighbors(initial), d)).1 == Minimax(initial, d + 1, true, {initial})
  {
    RootChildren(initial);
    ChoiceIsExtreme(initial, Neighbors(initial), d);
    MinimaxOfChildren(initial, d, true, {initial}, Neighbors(initial));
  }

  /** The minimax calls the root makes for the moves ns: one full search per move. */
  function MinimaxRootCalls(initial: Config, ns: seq<Config>, d: nat): nat {
    if ns == [] then 0
    else
      var last := ns[|ns| - 1];
      MinimaxRootCalls(initial, ns[..|ns| - 1], d) + MinimaxCalls(last, d, false, {initial, last})
  }

  /** The alphaBeta calls the root makes for the moves ns: each move is searched with the full window. */
  function AlphaBetaRootCalls(initial: Config, ns: seq<Config>, d: nat): nat {
    if ns == [] then 0
    else
      var last := ns[|ns| - 1];
      AlphaBetaRootCalls(initial, ns[..|ns| - 1], d) + AlphaBetaCalls(last, d, INT_MIN, INT_MAX, false, {initial, last})
  }

  /** Over a whole root search, pruning never evaluates more states than plain minimax. */
  lemma {:induction false} FewerRootCalls(initial: Config, ns: seq<Config>, d: nat)
    ensures AlphaBetaRootCalls(initial, ns, d) <= MinimaxRootCalls(initial, ns, d)
  {
    if ns != [] {
      var last := ns[|ns| - 1];
      FewerRootCalls(initial, ns[..|ns| - 1], d);
      FewerCalls(last, d, INT_MIN, INT_MAX, false, {initial, last});
    }
  }

  /** The root's values after one more move. */
  lemma RootValuesNext(initial: Config, ns: seq<Config>, i: nat, d: nat)
    requires i < |ns|
    ensures RootValues(initial, ns[..i + 1], d) == RootValues(initial, ns[..i], d) + [MoveValue(initial, ns[i], d)]
  {
    var vs, us := RootValues(initial, ns[..i + 1], d), RootValues(initial, ns[..i], d);
    assert |vs| == |us| + 1;
    forall j | 0 <= j < |vs| ensures vs[j] == (us + [MoveValue(initial, ns[i], d)])[j] {
      assert ns[..i + 1][j] == ns[j];
    }
  }

  /** The root's minimax calls after one more move. */
  lemma MinimaxRootCallsNext(initial: Config, ns: seq<Config>, i: nat, d: nat)
    requires i < |ns|
    ensures MinimaxRootCalls(initial, ns[..i + 1], d)
            == MinimaxRootCalls(initial, ns[..i], d) + MinimaxCalls(ns[i], d, false, {initial, ns[i]})
  {
    assert ns[..i + 1][..i] == ns[..i];
  }

  /** The root's alphaBeta calls after one more move. */
  lemma AlphaBetaRootCallsNext(initial: Config, ns: seq<Config>, i: nat, d: nat)
    requires i < |ns|
    ensures AlphaBetaRootCalls(initial, ns[..i + 1], d)
            == AlphaBetaRootCalls(initial, ns[..i], d) + AlphaBetaCalls(ns[i], d, INT_MIN, INT_MAX, false, {initial, ns[i]})
  {
    assert ns[..i + 1][..i] == ns[..i];
  }

  /**
   * The root's best so far after the moves whose values are vals: no move
   * and the Integer.MIN_VALUE sentinel before any, then the move at the
   * root's choice and its value.
   */
  predicate RootBest(ns: seq<Config>, vals: seq<int>, move: Option<Config>, bestVal: int, k: int)
    requires |vals| <= |ns|
  {
    if vals == [] then move.None? && bestVal == INT_MIN
    else (k, bestVal) == Choice(vals) && move == Some(ns[k])
  }

  /**
   * The update of the root loop after the move ns[i] had value val: the
   * move becomes the best one when its value is strictly larger than the
   * best so far (always for the first move, whose value exceeds the
   * sentinel).
   */
  method RootUpdate(ns: seq<Config>, i: nat, val: int, move: Option<Config>, bestVal: int, ghost k: int, ghost vals: seq<int>)
    returns (move': Option<Config>, bestVal': int, ghost k': int)
    requires i < |ns| && |vals| == i && -36 <= val
    requires RootBest(ns, vals, move, bestVal, k)
    ensures RootBest(ns, vals + [val], move', bestVal', k')
  {
    ChoicePush(vals, val);
    move', bestVal', k' := move, bestVal, k;
    if val > bestVal {
      move', bestVal', k' := Some(ns[i]), val, i;
    }
  }

  /** The root's result for the moves ns: the move at the root's choice among their values, and that value. */
  predicate RootResult(initial: Config, ns: seq<Config>, d: nat, move: Option<Config>, value: int) {
    && ns != []
    && move == Some(ns[Choice(RootValues(initial, ns, d)).0])
    && value == Choice(RootValues(initial, ns, d)).1
  }
  /** Once every move is searched, the best move kept by the root loop is the root's result. */
  lemma RootBestIsResult(initial: Config, ns: seq<Config>, d: nat, vals: seq<int>, move: Option<Config>, bestVal: int, k: int)
    requires ns != [] && vals == RootValues(initial, ns, d) && RootBest(ns, vals, move, bestVal, k)
    ensures RootResult(initial, ns, d, move, bestVal)
  {
  }


  /**
   * runMinimax: searches every neighbour of initial with minimax to depth
   * - 1 and returns the first neighbour of largest value; calls is
   * minimaxCalls, reset at the start. The root has at least two moves, so
   * a move is always found.
   */
  method RunMinimax(initial: Config, depth: nat) returns (move: Option<Config>, value: int, calls: nat)
    requires depth >= 1
    ensures RootResult(initial, Neighbors(initial), depth - 1, move, value)
    ensures calls == MinimaxRootCalls(initial, Neighbors(initial), depth - 1)
  {
    move, value, calls := MinimaxRoot(initial, depth - 1);
  }

  /**
   * The root of runMinimax with d moves left below it: the moves are the
   * neighbours of initial, in the order they are generated.
   */
  method MinimaxRoot(initial: Config, d: nat) returns (move: Option<Config>, value: int, calls: nat)
    ensures RootResult(initial, Neighbors(initial), d, move, value)
    ensures calls == MinimaxRootCalls(initial, Neighbors(initial), d)
  {
    var ns := Neighbors(initial);
    RootMoves(initial);
    move, value, calls := MinimaxRootLoop(initial, ns, d);
  }

  /**
   * The loop of runMinimax over the moves ns, none of which is initial:
   * each move is searched for MIN and becomes the best move when its
   * value is strictly larger than the best so far.
   */
  method MinimaxRootLoop(initial: Config, ns: seq<Config>, d: nat) returns (move: Option<Config>, bestVal: int, calls: nat)
    requires ns != [] && initial !in ns
    ensures RootResult(initial, ns, d, move, bestVal)
    ensures calls == MinimaxRootCalls(initial, ns, d)
  {
    var visited := {initial};
    bestVal := INT_MIN;
    move := None;
    calls := 0;
    ghost var vals: seq<int> := [];
    ghost var k := 0;
    for i := 0 to |ns|
      invariant visited == {initial}
      invariant vals == RootValues(initial, ns[..i], d)
      invariant calls == MinimaxRootCalls(initial, ns[..i], d)
      invariant RootBest(ns, vals, move, bestVal, k)
    {
      visited, calls, move, bestVal, k, vals := MinimaxRootTurn(initial, ns, i, d, visited, calls, move, bestVal, k, vals);
    }
    assert ns[..|ns|] == ns;
    RootBestIsResult(initial, ns, d, vals, move, bestVal, k);
  }

  /**
   * One turn of the root loop of runMinimax: the move ns[i] is searched; its
   * value extends the root's values and its calls the root's calls, and
   * it becomes the best move when its value beats the best so far.
   */
  method MinimaxRootTurn(initial: Config, ns: seq<Config>, i: nat, d: nat, visited: set<Config>, calls: nat,
                         move: Option<Config>, bestVal: int, ghost k: int, ghost vals: seq<int>)
    returns (visited': set<Config>, calls': nat, move': Option<Config>, bestVal': int, ghost k': int, ghost vals': seq<int>)
    requires i < |ns| && visited == {initial} && ns[i] != initial
    requires vals == RootValues(initial, ns[..i], d) && calls == MinimaxRootCalls(initial, ns[..i], d)
    requires RootBest(ns, vals, move, bestVal, k)
    ensures visited' == visited
    ensures vals' == RootValues(initial, ns[..i + 1], d) && calls' == MinimaxRootCalls(initial, ns[..i + 1], d)
    ensures RootBest(ns, vals', move', bestVal', k')
  {
    var val;
    val, visited', calls' := MinimaxRootMove(initial, ns[i], d, visited, calls);
    RootValuesNext(initial, ns, i, d);
    MinimaxRootCallsNext(initial, ns, i, d);
    move', bestVal', k' := RootUpdate(ns, i, val, move, bestVal, k, vals);
    vals' := vals + [val];
  }


  /**
   * One root move for runMinimax: next goes onto visited, is searched for
   * MIN and comes off again.
   */
  method MinimaxRootMove(initial: Config, next: Config, d: nat, visited: set<Config>, calls: nat)
    returns (val: int, visited': set<Config>, calls': nat)
    requires visited == {initial} && next != initial
    ensures val == MoveValue(initial, next, d) && -36 <= val <= 0
    ensures visited' == visited
    ensures calls' == calls + MinimaxCalls(next, d, false, {initial, next})
  {
    visited' := visited + {next};
    assert visited' == {initial, next};
    val, visited', calls' := MinimaxSearch(next, d, false, visited', calls);
    visited' := visited' - {next};
  }

  /**
   * runAlphaBeta: as runMinimax, with each neighbour searched by alphaBeta
   * in the full window (Integer.MIN_VALUE, Integer.MAX_VALUE); calls is
   * alphaBetaCalls. Since the full window gives exact minimax values, the
   * move and its value are the ones RunMinimax returns.
   */
  method RunAlphaBeta(initial: Config, depth: nat) returns (move: Option<Config>, value: int, calls: nat)
    requires depth >= 1
    ensures RootResult(initial, Neighbors(initial), depth - 1, move, value)
    ensures calls == AlphaBetaRootCalls(initial, Neighbors(initial), depth - 1)
  {
    move, value, calls := AlphaBetaRoot(initial, depth - 1);
  }

  /**
   * The root of runAlphaBeta with d moves left below it: the moves are the
   * neighbours of initial, in the order they are generated.
   */
  method AlphaBetaRoot(initial: Config, d: nat) returns (move: Option<Config>, value: int, calls: nat)
    ensures RootResult(initial, Neighbors(initial), d, move, value)
    ensures calls == AlphaBetaRootCalls(initial, Neighbors(initial), d)
  {
    var ns := Neighbors(initial);
    RootMoves(initial);
    move, value, calls := AlphaBetaRootLoop(initial, ns, d);
  }

  /** The loop of runAlphaBeta over the moves ns, none of which is initial; as for runMinimax. */
  method AlphaBetaRootLoop(initial: Config, ns: seq<Config>, d: nat) returns (move: Option<Config>, bestVal: int, calls: nat)
    requires ns != [] && initial !in ns
    ensures RootResult(initial, ns, d, move, bestVal)
    ensures calls == AlphaBetaRootCalls(initial, ns, d)
  {
    var visited := {initial};
    bestVal := INT_MIN;
    move := None;
    calls := 0;
    ghost var vals: seq<int> := [];
    ghost var k := 0;
    for i := 0 to |ns|
      invariant visited == {initial}
      invariant vals == RootValues(initial, ns[..i], d)
      invariant calls == AlphaBetaRootCalls(initial, ns[..i], d)
      invariant RootBest(ns, vals, move, bestVal, k)
    {
      visited, calls, move, bestVal, k, vals := AlphaBetaRootTurn(initial, ns, i, d, visited, calls, move, bestVal, k, vals);
    }
    assert ns[..|ns|] == ns;
    RootBestIsResult(initial, ns, d, vals, move, bestVal, k);
  }

  /**
   * One turn of the root loop of runAlphaBeta: the move ns[i] is searched; its
   * value extends the root's values and its calls the root's calls, and
   * it becomes the best move when its value beats the best so far.
   */
  method AlphaBetaRootTurn(initial: Config, ns: seq<Config>, i: nat, d: nat, visited: set<Config>, calls: nat,
                         move: Option<Config>, bestVal: int, ghost k: int, ghost vals: seq<int>)
    returns (visited': set<Config>, calls': nat, move': Option<Config>, bestVal': int, ghost k': int, ghost vals': seq<int>)
    requires i < |ns| && visited == {initial} && ns[i] != initial
    requires vals == RootValues(initial, ns[..i], d) && calls == AlphaBetaRootCalls(initial, ns[..i], d)
    requires RootBest(ns, vals, move, bestVal, k)
    ensures visited' == visited
    ensures vals' == RootValues(initial, ns[..i + 1], d) && calls' == AlphaBetaRootCalls(initial, ns[..i + 1], d)
    ensures RootBest(ns, vals', move', bestVal', k')
  {
    var val;
    val, visited', calls' := AlphaBetaRootMove(initial, ns[i], d, visited, calls);
    RootValuesNext(initial, ns, i, d);
    AlphaBetaRootCallsNext(initial, ns, i, d);
    move', bestVal', k' := RootUpdate(ns, i, val, move, bestVal, k, vals);
    vals' := vals + [val];
  }


  /**
   * One root move for runAlphaBeta: next goes onto visited, is searched for
   * MIN in the full window and comes off again.
   */
  method AlphaBetaRootMove(initial: Config, next: Config, d: nat, visited: set<Config>, calls: nat)
    returns (val: int, visited': set<Config>, calls': nat)
    requires visited == {initial} && next != initial
    ensures val == MoveValue(initial, next, d) && -36 <= val <= 0
    ensures visited' == visited
    ensures calls' == calls + AlphaBetaCalls(next, d, INT_MIN, INT_MAX, false, {initial, next})
  {
    visited' := visited + {next};
    assert visited' == {initial, next};
    AlphaBetaExact(next, d, false, visited');
    val, visited', calls' := AlphaBetaSearch(next, d, INT_MIN, INT_MAX, false, visited', calls);
    visited' := visited' - {next};
  }
}
