/**
 * The shared state model of the 3x3 sliding-tile ("manuscript sorting") puzzle:
 * configurations, the blank finder, the swap, neighbour generation in the fixed
 * Up/Down/Left/Right order, the goal test, action names and the two heuristics.
 */
module PuzzleState {

  datatype Option<T> = None | Some(value: T)

  const SIZE: int := 3
  const GOAL: seq<int> := [1, 2, 3, 4, 5, 6, 7, 8, 0]

  /** Direction vectors, indexed 0..3 = Up, Down, Left, Right. */
  const DR: seq<int> := [-1, 1, 0, 0]
  const DC: seq<int> := [0, 0, -1, 1]
  const DIR_NAMES: seq<string> := ["Up", "Down", "Left", "Right"]

  /** Any nine integers, as the parser produces them. */
  type Board = s: seq<int> | |s| == 9 witness [1, 2, 3, 4, 5, 6, 7, 8, 0]

  /** A validated configuration: each of 0..8 exactly once (0 is the blank). */
  predicate IsConfig(s: seq<int>) {
    && |s| == 9
    && (forall i :: 0 <= i < 9 ==> 0 <= s[i] < 9)
    && (forall i, j :: 0 <= i < j < 9 ==> s[i] != s[j])
  }

  type Config = s: seq<int> | IsConfig(s) witness [1, 2, 3, 4, 5, 6, 7, 8, 0]

  predicate InRange(s: Board) {
    forall i :: 0 <= i < 9 ==> 0 <= s[i] < 9
  }

  function Abs(x: int): int { if x < 0 then -x else x }

  function Row(i: int): int requires 0 <= i < 9 { i / 3 }
  function Col(i: int): int requires 0 <= i < 9 { i % 3 }

  /** Index of tile v in GOAL; GOAL_POS[v] is (Row, Col) of this index. */
  function GoalIndex(v: int): (i: int)
    requires 0 <= v < 9
    ensures 0 <= i < 9 && GOAL[i] == v
  {
    if v == 0 then 8 else v - 1
  }

  /** GoalIndex(v) is the only cell of GOAL holding v. */
  lemma GoalIndexUnique(v: int)
    requires 0 <= v < 9
    ensures forall j | 0 <= j < 9 && GOAL[j] == v :: j == GoalIndex(v)
  {
  }

  // ---------------------------------------------------------------------------
  // Pigeonhole: a configuration holds every tile 0..8, in particular a blank.

  lemma {:induction false} DistinctCard(s: seq<int>)
    requires forall i, j :: 0 <= i < j < |s| ==> s[i] != s[j]
    ensures |set x | x in s| == |s|
  {
    if s != [] {
      DistinctCard(s[1..]);
      assert (set x | x in s) == {s[0]} + (set x | x in s[1..]);
      assert s[0] !in (set x | x in s[1..]);
    }
  }

  lemma SubsetCard(a: set<int>, b: set<int>)
    requires a <= b
    ensures |a| <= |b|
  {
    assert b == a + (b - a);
    assert a * (b - a) == {};
  }

  lemma SubsetSameCard(a: set<int>, b: set<int>)
    requires a <= b && |a| == |b|
    ensures a == b
  {
    assert b == a + (b - a);
    assert a * (b - a) == {};
    assert |b - a| == 0;
    forall x | x in b ensures x in a {
      assert x !in b - a;
    }
  }

  /** The nine tile values 0..8. */
  function Tiles(): (t: set<int>)
    ensures |t| == 9
    ensures forall x :: x in t <==> 0 <= x < 9
  {
    {0, 1, 2, 3, 4, 5, 6, 7, 8}
  }

  lemma TilesOfConfig(s: Config)
    ensures (set x | x in s) <= Tiles()
  {
    forall x | x in s ensures x in Tiles() {
      var i :| 0 <= i < 9 && s[i] == x;
    }
  }

  lemma AllTilesPresent(s: Config, v: int)
    requires 0 <= v < 9
    ensures v in s
  {
    DistinctCard(s);
    TilesOfConfig(s);
    SubsetSameCard((set x | x in s), Tiles());
    assert v in Tiles();
  }

  // ---------------------------------------------------------------------------
  // findBlank, isGoal, swap

  function FindBlankFrom(s: Board, i: nat): (r: int)
    requires i <= 9
    decreases |s| - i
    ensures r == -1 || i <= r < 9
    ensures r == -1 <==> (forall k :: i <= k < 9 ==> s[k] != 0)
    ensures r >= 0 ==> s[r] == 0 && forall k :: i <= k < r ==> s[k] != 0
  {
    if i == 9 then -1 else if s[i] == 0 then i else FindBlankFrom(s, i + 1)
  }

  /** The index of the first blank, or -1 when there is none. */
  function FindBlank(s: Board): (r: int)
    ensures -1 <= r < 9
    ensures r == -1 <==> 0 !in s
    ensures r >= 0 ==> s[r] == 0 && forall k :: 0 <= k < r ==> s[k] != 0
  {
    FindBlankFrom(s, 0)
  }

  /** The blank of a configuration: it always exists and is unique. */
  function Blank(s: Config): (b: int)
    ensures 0 <= b < 9 && s[b] == 0
    ensures forall k :: 0 <= k < 9 && s[k] == 0 ==> k == b
  {
    AllTilesPresent(s, 0);
    FindBlank(s)
  }

  /** The goal test: each of the nine cells holds the tile GOAL has there. */
  function IsGoal(s: Board): bool {
    forall i | 0 <= i < 9 :: s[i] == GOAL[i]
  }

  /** A board passes the goal test exactly when it is the board GOAL. */
  lemma GoalBoard(s: Board)
    ensures IsGoal(s) <==> s == GOAL
  {
  }

  /** A copy of s with positions i and j exchanged. */
  function Swap(s: Board, i: int, j: int): (t: Board)
    requires 0 <= i < 9 && 0 <= j < 9
    ensures t[i] == s[j] && t[j] == s[i]
    ensures forall k :: 0 <= k < 9 && k != i && k != j ==> t[k] == s[k]
    ensures multiset(t) == multiset(s)
  {
    s[i := s[j]][j := s[i]]
  }

  lemma SwapIsConfig(s: Config, i: int, j: int)
    requires 0 <= i < 9 && 0 <= j < 9
    ensures IsConfig(Swap(s, i, j))
  {
    var t := Swap(s, i, j);
    forall p, q | 0 <= p < q < 9 ensures t[p] != t[q] {
      var p' := if p == i then j else if p == j then i else p;
      var q' := if q == i then j else if q == j then i else q;
      assert t[p] == s[p'] && t[q] == s[q'];
      assert p' != q';
    }
  }

  // ---------------------------------------------------------------------------
  // getNeighbors

  /** Moving the blank at b in direction d stays on the board. */
  predicate InBounds(b: int, d: int)
    requires 0 <= b < 9 && 0 <= d < 4
  {
    var nr := Row(b) + DR[d];
    var nc := Col(b) + DC[d];
    0 <= nr < 3 && 0 <= nc < 3
  }

  function Target(b: int, d: int): (t: int)
    requires 0 <= b < 9 && 0 <= d < 4 && InBounds(b, d)
    ensures 0 <= t < 9 && t != b
    ensures Row(t) == Row(b) + DR[d] && Col(t) == Col(b) + DC[d]
  {
    (Row(b) + DR[d]) * 3 + (Col(b) + DC[d])
  }

  /** The configuration reached by moving the blank of s in direction d. */
  function Step(s: Config, d: int): (n: Config)
    requires 0 <= d < 4 && InBounds(Blank(s), d)
    ensures n[Target(Blank(s), d)] == 0 && n[Blank(s)] == s[Target(Blank(s), d)]
    ensures forall k :: 0 <= k < 9 && k != Blank(s) && k != Target(Blank(s), d) ==> n[k] == s[k]
  {
    SwapIsConfig(s, Blank(s), Target(Blank(s), d));
    Swap(s, Blank(s), Target(Blank(s), d))
  }

  /** The in-bounds directions below d, in increasing order. */
  function MovesBelow(b: int, d: int): (ms: seq<int>)
    requires 0 <= b < 9 && 0 <= d <= 4
    ensures forall k :: 0 <= k < |ms| ==> 0 <= ms[k] < d && InBounds(b, ms[k])
  {
    if d == 0 then []
    else MovesBelow(b, d - 1) + (if InBounds(b, d - 1) then [d - 1] else [])
  }

  function Moves(b: int): seq<int>
    requires 0 <= b < 9
  {
    MovesBelow(b, 4)
  }

  /** The neighbours produced by the directions below d, in that order. */
  function NeighborsBelow(s: Config, d: int): seq<Config>
    requires 0 <= d <= 4
  {
    if d == 0 then []
    else
      var rest := NeighborsBelow(s, d - 1);
      if InBounds(Blank(s), d - 1) then rest + [Step(s, d - 1)] else rest
  }

  /** Specification of getNeighbors: one neighbour per in-bounds direction, in order. */
  function Neighbors(s: Config): seq<Config> {
    NeighborsBelow(s, 4)
  }

  /** ns lists, in order, the steps of s in the directions ms. */
  predicate StepsMatch(s: Config, ns: seq<Config>, ms: seq<int>) {
    && |ns| == |ms|
    && forall k :: 0 <= k < |ms| ==>
         0 <= ms[k] < 4 && InBounds(Blank(s), ms[k]) && ns[k] == Step(s, ms[k])
  }

  lemma StepsMatchExtend(s: Config, ns: seq<Config>, ms: seq<int>, d: int)
    requires StepsMatch(s, ns, ms) && 0 <= d < 4 && InBounds(Blank(s), d)
    ensures StepsMatch(s, ns + [Step(s, d)], ms + [d])
  {
    var ns', ms' := ns + [Step(s, d)], ms + [d];
    forall k | 0 <= k < |ms'| ensures 0 <= ms'[k] < 4 && InBounds(Blank(s), ms'[k]) && ns'[k] == Step(s, ms'[k]) {
      if k < |ms| {
        assert ns'[k] == ns[k] && ms'[k] == ms[k];
      }
    }
  }

  /** The k-th neighbour below d is the step in the k-th in-bounds direction below d. */
  lemma {:induction false} NeighborsBelowSteps(s: Config, d: int)
    requires 0 <= d <= 4
    ensures StepsMatch(s, NeighborsBelow(s, d), MovesBelow(Blank(s), d))
  {
    if d > 0 {
      var b := Blank(s);
      NeighborsBelowSteps(s, d - 1);
      if InBounds(b, d - 1) {
        StepsMatchExtend(s, NeighborsBelow(s, d - 1), MovesBelow(b, d - 1), d - 1);
      }
    }
  }

  /** getNeighbors yields, in order, one neighbour per in-bounds direction of the blank. */
  lemma NeighborsAreSteps(s: Config)
    ensures |Neighbors(s)| == |Moves(Blank(s))|
    ensures forall k :: 0 <= k < |Neighbors(s)| ==> Neighbors(s)[k] == Step(s, Moves(Blank(s))[k])
  {
    NeighborsBelowSteps(s, 4);
  }

  method GetNeighbors(s: Config) returns (ns: seq<Config>)
    ensures ns == Neighbors(s)
  {
    var blank := FindBlank(s);
    assert blank == Blank(s);
    var r, c := blank / 3, blank % 3;
    ns := [];
    for d := 0 to 4
      invariant ns == NeighborsBelow(s, d)
    {
      var nr, nc := r + DR[d], c + DC[d];
      if nr >= 0 && nr < 3 && nc >= 0 && nc < 3 {
        assert InBounds(blank, d) && nr * 3 + nc == Target(blank, d);
        ns := ns + [Step(s, d)];
      } else {
        assert !InBounds(blank, d);
      }
    }
  }

  /** The in-bounds directions of every blank cell, in Up/Down/Left/Right order. */
  function MoveTable(b: int): seq<int>
    requires 0 <= b < 9
  {
    if b == 0 then [1, 3] else if b == 1 then [1, 2, 3] else if b == 2 then [1, 2]
    else if b == 3 then [0, 1, 3] else if b == 4 then [0, 1, 2, 3] else if b == 5 then [0, 1, 2]
    else if b == 6 then [0, 3] else if b == 7 then [0, 2, 3] else [0, 2]
  }

  // The moves of the blank on each cell, evaluated one cell at a time.
  lemma MovesAt0() ensures Moves(0) == [1, 3] { }
  lemma MovesAt1() ensures Moves(1) == [1, 2, 3] { }
  lemma MovesAt2() ensures Moves(2) == [1, 2] { }
  lemma MovesAt3() ensures Moves(3) == [0, 1, 3] { }
  lemma MovesAt4() ensures Moves(4) == [0, 1, 2, 3] { }
  lemma MovesAt5() ensures Moves(5) == [0, 1, 2] { }
  lemma MovesAt6() ensures Moves(6) == [0, 3] { }
  lemma MovesAt7() ensures Moves(7) == [0, 2, 3] { }
  lemma MovesAt8() ensures Moves(8) == [0, 2] { }

  /** The directions getNeighbors tries successfully, for each cell of the blank. */
  lemma MovesOf(b: int)
    requires 0 <= b < 9
    ensures Moves(b) == MoveTable(b)
  {
    if b == 0 { MovesAt0(); }
    else if b == 1 { MovesAt1(); }
    else if b == 2 { MovesAt2(); }
    else if b == 3 { MovesAt3(); }
    else if b == 4 { MovesAt4(); }
    else if b == 5 { MovesAt5(); }
    else if b == 6 { MovesAt6(); }
    else if b == 7 { MovesAt7(); }
    else { MovesAt8(); }
  }

  lemma TableCount(b: int)
    requires 0 <= b < 9
    ensures |MoveTable(b)| == (if b == 4 then 4 else if b % 2 == 0 then 2 else 3)
  {
  }

  /** A corner blank has 2 moves, an edge blank 3 and the centre 4. */
  lemma MoveCount(b: int)
    requires 0 <= b < 9
    ensures |Moves(b)| == (if b == 4 then 4 else if b % 2 == 0 then 2 else 3)
  {
    MovesOf(b);
    TableCount(b);
  }

  /** A corner has 2 neighbours, an edge cell 3 and the centre 4. */
  lemma NeighborCount(s: Config)
    ensures var b := Blank(s);
      |Neighbors(s)| == (if b == 4 then 4 else if b % 2 == 0 then 2 else 3)
    ensures 2 <= |Neighbors(s)| <= 4
  {
    NeighborsAreSteps(s);
    MoveCount(Blank(s));
  }

  /** Moving the blank never reproduces the configuration it started from. */
  lemma NeighborDiffers(s: Config, k: int)
    requires 0 <= k < |Neighbors(s)|
    ensures Neighbors(s)[k] != s
    ensures multiset(Neighbors(s)[k]) == multiset(s)
  {
    NeighborsAreSteps(s);
    var b := Blank(s);
    var d := Moves(b)[k];
    var n := Neighbors(s)[k];
    assert n[b] == s[Target(b, d)] != 0;
  }

  /** No configuration is its own neighbour. */
  lemma NeighborsExclude(s: Config)
    ensures s !in Neighbors(s)
  {
    forall k | 0 <= k < |Neighbors(s)| ensures Neighbors(s)[k] != s {
      NeighborDiffers(s, k);
    }
  }

  /** The blank of the neighbour in direction d sits on the target cell. */
  lemma StepBlank(s: Config, d: int)
    requires 0 <= d < 4 && InBounds(Blank(s), d)
    ensures Blank(Step(s, d)) == Target(Blank(s), d)
    ensures FindBlank(Step(s, d)) == Target(Blank(s), d)
  {
    var n := Step(s, d);
    assert n[Target(Blank(s), d)] == 0;
  }

  // ---------------------------------------------------------------------------
  // getAction

  /** Java's truncating division and remainder by SIZE (used when findBlank gives -1). */
  function JavaDiv3(x: int): int { if x >= 0 then x / 3 else -((-x) / 3) }
  function JavaRem3(x: int): int { x - 3 * JavaDiv3(x) }

  function ActionFrom(dr: int, dc: int, d: int): (name: string)
    requires 0 <= d <= 4
    decreases 4 - d
    ensures name == "?" <==> forall e :: d <= e < 4 ==> !(DR[e] == dr && DC[e] == dc)
    ensures name != "?" ==> exists e :: d <= e < 4 && DR[e] == dr && DC[e] == dc && name == DIR_NAMES[e]
  {
    if d == 4 then "?"
    else if DR[d] == dr && DC[d] == dc then DIR_NAMES[d]
    else ActionFrom(dr, dc, d + 1)
  }

  /** The name of the move taking `from` to `to`, judged by where the blank went. */
  function GetAction(from: Board, to: Board): (name: string)
    ensures var bf, bt := FindBlank(from), FindBlank(to);
      var dr, dc := JavaDiv3(bt) - JavaDiv3(bf), JavaRem3(bt) - JavaRem3(bf);
      && (name == "?" <==> forall e :: 0 <= e < 4 ==> !(DR[e] == dr && DC[e] == dc))
      && (name != "?" ==> exists e :: 0 <= e < 4 && DR[e] == dr && DC[e] == dc && name == DIR_NAMES[e])
  {
    var blankFrom := FindBlank(from);
    var blankTo := FindBlank(to);
    var dr := JavaDiv3(blankTo) - JavaDiv3(blankFrom);
    var dc := JavaRem3(blankTo) - JavaRem3(blankFrom);
    ActionFrom(dr, dc, 0)
  }

  /** The four direction vectors are pairwise different, so each is named by itself. */
  lemma ActionOfDirection(d: int)
    requires 0 <= d < 4
    ensures ActionFrom(DR[d], DC[d], 0) == DIR_NAMES[d]
  {
    assert ActionFrom(DR[d], DC[d], 4) == "?";
  }

  /** On a cell index, Java's truncating division and remainder give its row and column. */
  lemma JavaRowCol(x: int)
    requires 0 <= x < 9
    ensures JavaDiv3(x) == Row(x) && JavaRem3(x) == Col(x)
  {
  }

  /** The neighbour in direction d is named after d. */
  lemma ActionOfStep(s: Config, d: int)
    requires 0 <= d < 4 && InBounds(Blank(s), d)
    ensures GetAction(s, Step(s, d)) == DIR_NAMES[d]
  {
    var b := Blank(s);
    StepBlank(s, d);
    var t := Target(b, d);
    JavaRowCol(t);
    JavaRowCol(b);
    assert FindBlank(s) == b && FindBlank(Step(s, d)) == t;
    assert JavaDiv3(t) - JavaDiv3(b) == DR[d] && JavaRem3(t) - JavaRem3(b) == DC[d];
    assert GetAction(s, Step(s, d)) == ActionFrom(DR[d], DC[d], 0);
    ActionOfDirection(d);
  }

  /** The k-th neighbour is named after the direction that produced it. */
  lemma ActionOfNeighbor(s: Config, k: int)
    requires 0 <= k < |Moves(Blank(s))|
    ensures k < |Neighbors(s)| && GetAction(s, Neighbors(s)[k]) == DIR_NAMES[Moves(Blank(s))[k]]
  {
    NeighborsAreSteps(s);
    ActionOfStep(s, Moves(Blank(s))[k]);
  }

  /** Two configurations whose blanks are not one orthogonal step apart get "?". */
  lemma ActionOfNonAdjacent(from: Config, to: Config)
    requires Abs(Row(Blank(to)) - Row(Blank(from))) + Abs(Col(Blank(to)) - Col(Blank(from))) != 1
    ensures GetAction(from, to) == "?"
  {
    var bf, bt := Blank(from), Blank(to);
    var dr, dc := JavaDiv3(bt) - JavaDiv3(bf), JavaRem3(bt) - JavaRem3(bf);
    JavaRowCol(bf);
    JavaRowCol(bt);
    forall e | 0 <= e < 4 ensures !(DR[e] == dr && DC[e] == dc) {
      assert Abs(DR[e]) + Abs(DC[e]) == 1;
    }
  }

  // ---------------------------------------------------------------------------
  // Heuristics

  function MisplacedAt(s: Board, i: int): int
    requires 0 <= i < 9
  {
    if s[i] != 0 && s[i] != GOAL[i] then 1 else 0
  }

  /** The number of misplaced non-blank tiles among the first n cells. */
  function H1Upto(s: Board, n: nat): int
    requires n <= 9
  {
    if n == 0 then 0 else H1Upto(s, n - 1) + MisplacedAt(s, n - 1)
  }

  /** h1: the number of non-blank tiles not on their goal cell. */
  function H1(s: Board): int {
    H1Upto(s, 9)
  }

  /** Manhattan distance of tile v at cell i from its goal cell (0 for the blank). */
  function TileDist(i: int, v: int): (r: int)
    requires 0 <= i < 9 && 0 <= v < 9
    ensures 0 <= r <= 4
  {
    if v == 0 then 0
    else Abs(Row(i) - Row(GoalIndex(v))) + Abs(Col(i) - Col(GoalIndex(v)))
  }

  /** The summed Manhattan distances of the tiles in the first n cells. */
  function H2Upto(s: Board, n: nat): int
    requires n <= 9 && InRange(s)
  {
    if n == 0 then 0 else H2Upto(s, n - 1) + TileDist(n - 1, s[n - 1])
  }

  /** h2: the sum of the Manhattan distances of the non-blank tiles. */
  function H2(s: Board): int
    requires InRange(s)
  {
    H2Upto(s, 9)
  }

  /** The heuristic an informed search was started with: h1 when useH1, h2 otherwise. */
  function Heuristic(useH1: bool, s: Config): (h: int)
    ensures 0 <= h <= 36
  {
    if useH1 then H1Bounds(s); H1(s) else H2Bounds(s); H2(s)
  }

  /** h1, as the counting loop of PuzzleState.h1 computes it. */
  method ComputeH1(s: Board) returns (count: int)
    ensures count == H1(s)
  {
    count := 0;
    for i := 0 to 9
      invariant count == H1Upto(s, i)
    {
      if s[i] != 0 && s[i] != GOAL[i] {
        count := count + 1;
      }
    }
  }

  /** h2, as the summing loop of PuzzleState.h2 computes it (GOAL_POS[v] is (Row, Col) of GoalIndex(v)). */
  method ComputeH2(s: Board) returns (dist: int)
    requires InRange(s)
    ensures dist == H2(s)
  {
    dist := 0;
    for i := 0 to 9
      invariant dist == H2Upto(s, i)
    {
      var v := s[i];
      if v != 0 {
        var g := GoalIndex(v);
        dist := dist + Abs(i / 3 - g / 3) + Abs(i % 3 - g % 3);
      }
    }
  }

  lemma {:induction false} H1UptoBounds(s: Board, n: nat)
    requires n <= 9
    ensures 0 <= H1Upto(s, n) <= n
    ensures forall z :: 0 <= z < n && s[z] == 0 ==> H1Upto(s, n) <= n - 1
  {
    if n > 0 { H1UptoBounds(s, n - 1); }
  }

  /** 0 <= h1 <= 8 on a configuration: the blank is never counted. */
  lemma H1Bounds(s: Config)
    ensures 0 <= H1(s) <= 8
  {
    H1UptoBounds(s, 9);
    assert s[Blank(s)] == 0;
  }

  lemma {:induction false} H2UptoBounds(s: Board, n: nat)
    requires n <= 9 && InRange(s)
    ensures 0 <= H2Upto(s, n) <= 4 * n
  {
    if n > 0 { H2UptoBounds(s, n - 1); }
  }

  /** 0 <= h2 <= 36: each of the nine cells contributes at most 4. */
  lemma H2Bounds(s: Board)
    requires InRange(s)
    ensures 0 <= H2(s) <= 36
  {
    H2UptoBounds(s, 9);
  }

  lemma HeuristicsAtGoal()
    ensures InRange(GOAL)
    ensures H1(GOAL) == 0 && H2(GOAL) == 0
  {
    var g: Board := GOAL;
    assert H1Upto(g, 0) == 0 && H2Upto(g, 0) == 0;
    assert H1Upto(g, 4) == 0 && H2Upto(g, 4) == 0;
  }

  lemma {:induction false} H1UptoLeH2Upto(s: Board, n: nat)
    requires n <= 9 && InRange(s)
    ensures H1Upto(s, n) <= H2Upto(s, n)
  {
    if n > 0 {
      var i := n - 1;
      H1UptoLeH2Upto(s, i);
      if s[i] != 0 && s[i] != GOAL[i] {
        var g := GoalIndex(s[i]);
        assert g != i;
        assert Row(g) != Row(i) || Col(g) != Col(i);
      }
    }
  }

  /** h2 dominates h1: every misplaced tile is at least one cell away. */
  lemma H1LeH2(s: Board)
    requires InRange(s)
    ensures H1(s) <= H2(s)
  {
    H1UptoLeH2Upto(s, 9);
  }

  /** A zero sum has only zero terms. */
  lemma {:induction false} H2UptoZeroTerm(s: Board, n: nat, k: int)
    requires n <= 9 && InRange(s) && 0 <= k < n && H2Upto(s, n) == 0
    ensures TileDist(k, s[k]) == 0
  {
    H2UptoBounds(s, n - 1);
    if k < n - 1 {
      H2UptoZeroTerm(s, n - 1, k);
    }
  }

  lemma TileDistZero(i: int, v: int)
    requires 0 <= i < 9 && 0 <= v < 9
    ensures TileDist(i, v) == 0 <==> v == 0 || v == GOAL[i]
  {
    if v != 0 && TileDist(i, v) == 0 {
      var g := GoalIndex(v);
      assert Row(g) == Row(i) && Col(g) == Col(i);
      assert g == Row(g) * 3 + Col(g);
      assert i == Row(i) * 3 + Col(i);
    }
  }

  /** On configurations h2 is zero exactly at the goal. */
  lemma H2ZeroIffGoal(s: Config)
    ensures H2(s) == 0 <==> s == GOAL
  {
    if H2(s) == 0 {
      forall k | 0 <= k < 9 ensures s[k] == 0 || s[k] == GOAL[k] {
        H2UptoZeroTerm(s, 9, k);
        TileDistZero(k, s[k]);
      }
      assert s[8] == 0;
      forall k | 0 <= k < 9 ensures s[k] == GOAL[k] {
      }
    } else {
      HeuristicsAtGoal();
    }
  }

  /** h2 is zero on a configuration that passes the goal test. */
  lemma H2AtGoal(s: Config)
    requires IsGoal(s)
    ensures H2(s) == 0
  {
    GoalBoard(s);
    H2ZeroIffGoal(s);
  }

  lemma UpdateInRange(s: Board, p: int, x: int)
    requires InRange(s) && 0 <= p < 9 && 0 <= x < 9
    ensures InRange(s[p := x])
  {
  }

  /** Changing one cell changes h2 by the difference of that cell's terms. */
  lemma {:induction false} H2UptoUpdate(s: Board, p: int, x: int, n: nat)
    requires n <= 9 && InRange(s) && 0 <= p < 9 && 0 <= x < 9
    ensures InRange(s[p := x])
    ensures H2Upto(s[p := x], n) ==
      H2Upto(s, n) + (if p < n then TileDist(p, x) - TileDist(p, s[p]) else 0)
  {
    UpdateInRange(s, p, x);
    if n > 0 {
      H2UptoUpdate(s, p, x, n - 1);
      var s': Board := s[p := x];
      var i := n - 1;
      assert H2Upto(s', n) == H2Upto(s', i) + TileDist(i, s'[i]);
      assert H2Upto(s, n) == H2Upto(s, i) + TileDist(i, s[i]);
      if p != i {
        assert s'[i] == s[i];
      }
    }
  }

  lemma AdjacentDist(b: int, t: int, v: int)
    requires 0 <= b < 9 && 0 <= t < 9 && 0 < v < 9
    requires Abs(Row(b) - Row(t)) + Abs(Col(b) - Col(t)) == 1
    ensures Abs(TileDist(b, v) - TileDist(t, v)) == 1
  {
  }

  /** Moving tile s[t] onto the blank cell b changes h2 by the change of that tile's term. */
  lemma H2Swap(s: Board, b: int, t: int)
    requires InRange(s) && 0 <= b < 9 && 0 <= t < 9 && b != t && s[b] == 0
    ensures InRange(Swap(s, b, t))
    ensures H2(Swap(s, b, t)) == H2(s) + TileDist(b, s[t]) - TileDist(t, s[t])
  {
    var mid := s[b := s[t]];
    H2UptoUpdate(s, b, s[t], 9);
    assert Swap(s, b, t) == mid[t := 0];
    H2UptoUpdate(mid, t, 0, 9);
  }

  /** The target of a move is one orthogonal step from the blank. */
  lemma TargetAdjacent(b: int, d: int)
    requires 0 <= b < 9 && 0 <= d < 4 && InBounds(b, d)
    ensures Abs(Row(b) - Row(Target(b, d))) + Abs(Col(b) - Col(Target(b, d))) == 1
  {
    assert Abs(DR[d]) + Abs(DC[d]) == 1;
  }

  /** One move changes h2 by exactly one (h2 is consistent). */
  lemma H2Step(s: Config, d: int)
    requires 0 <= d < 4 && InBounds(Blank(s), d)
    ensures Abs(H2(Step(s, d)) - H2(s)) == 1
  {
    var b := Blank(s);
    var t := Target(b, d);
    assert s[t] != 0;
    TargetAdjacent(b, d);
    SwapAdjacent(s, b, t);
    assert Step(s, d) == Swap(s, b, t);
  }

  /** Sliding a tile onto an orthogonally adjacent blank changes h2 by exactly one. */
  lemma SwapAdjacent(s: Board, b: int, t: int)
    requires InRange(s) && 0 <= b < 9 && 0 <= t < 9 && s[b] == 0 && s[t] != 0
    requires Abs(Row(b) - Row(t)) + Abs(Col(b) - Col(t)) == 1
    ensures InRange(Swap(s, b, t))
    ensures Abs(H2(Swap(s, b, t)) - H2(s)) == 1
  {
    H2Swap(s, b, t);
    AdjacentDist(b, t, s[t]);
  }

  lemma H2Neighbor(s: Config, k: int)
    requires 0 <= k < |Neighbors(s)|
    ensures Abs(H2(Neighbors(s)[k]) - H2(s)) == 1
  {
    NeighborsAreSteps(s);
    H2Step(s, Moves(Blank(s))[k]);
  }
}
