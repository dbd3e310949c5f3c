# Sliding-tile search and bot-scheduling CSP, modelled in Dafny

This project models the two algorithm suites of an AI assignment repository.

**The 3x3 sliding-tile ("manuscript sorting") puzzle.**
- `PuzzleState` is the shared transition model:
  - a configuration is nine integers holding each of 0..8 once, with 0 the blank;
  - it provides the blank finder, the swap, neighbour generation in Up/Down/Left/Right order, the goal test and the action name;
  - it provides the misplaced-tile heuristic h1, the Manhattan heuristic h2, the state parser and parent-map path reconstruction.
- Six strategies run over it:
  - breadth-first search (`BfsSearch`);
  - depth-bounded depth-first search with limit 50 (`DfsSearch`);
  - greedy best-first search on h2 (`GreedySearch`);
  - A* with an f = g + h priority and a tie-break on smaller h (`AStarSearch`);
  - iterative-deepening A* (`IdaStarSearch`);
  - minimax and alpha-beta over a visited set, with h2-based utility (`AdversarialSearch`).

**The four-slot security-bot scheduling CSP.**
- Bots A, B and C fill slots 1-4 under three constraints:
  - No Back-to-Back: adjacent slots hold different bots;
  - Maintenance Break: C never works slot 4;
  - Minimum Coverage: every bot works at least once.
- `CspFramework` holds the domains and the constraint checks.
- `BacktrackingSearch` is recursive backtracking with MRV (minimum remaining values) and forward checking with undo.
- `ArcConsistency` is AC-3 followed by a simple MRV backtracking.

**How the Java is represented.**
- Configurations are `seq<int>` values. The `Arrays.toString` keys of the Java maps become the sequences themselves, since that key is injective. The separate `stateMap` therefore disappears.
- Each search loop is a Dafny `method` with a `while` loop.
- `PriorityQueue.poll` becomes "remove some element of least priority".
- Integer sentinels become datatypes or explicit constants.
- Java lists of domains are `array<seq<Bot>>`, updated in place. A `null` slot of the assignment is `Unassigned`.
- Process-wide static counters are passed in and returned as values.

`ConfigSpace` is a proof device with no counterpart in the source. It builds the finite set of all configurations, which bounds the search loops' termination measures.

## Model

| member | source | states |
|---|---|---|
| PuzzleState.GoalIndex | src/main/java/com/iitj/ai/assignment1/problem1/PuzzleState.java:23-30 | The goal position of tile v (the GOAL_POS table) is an index of GOAL holding v |
| PuzzleState.GoalIndexUnique | src/main/java/com/iitj/ai/assignment1/problem1/PuzzleState.java:23-30 | No other index of GOAL holds v, so the table entry is the only one |
| PuzzleState.GoalBoard | src/main/java/com/iitj/ai/assignment1/problem1/PuzzleState.java:93-95 | The cell-by-cell goal test holds exactly when the board equals GOAL |
| PuzzleState.FindBlank | src/main/java/com/iitj/ai/assignment1/problem1/PuzzleState.java:85-90 | -1 exactly when no cell holds 0; otherwise the first index holding 0 |
| PuzzleState.Blank | src/main/java/com/iitj/ai/assignment1/problem1/PuzzleState.java:85-90 | On a configuration the blank exists and is the only cell holding 0 |
| PuzzleState.Swap | src/main/java/com/iitj/ai/assignment1/problem1/PuzzleState.java:98-104 | Cells i and j exchanged, every other cell unchanged, the same multiset of tiles |
| PuzzleState.SwapIsConfig | src/main/java/com/iitj/ai/assignment1/problem1/PuzzleState.java:98-104 | Swapping two cells of a configuration gives a configuration |
| PuzzleState.Target | src/main/java/com/iitj/ai/assignment1/problem1/PuzzleState.java:110-113 | The in-bounds cell one step from the blank in direction d lies at row+DR[d], col+DC[d] and differs from the blank |
| PuzzleState.Step | src/main/java/com/iitj/ai/assignment1/problem1/PuzzleState.java:113-114 | Moving in direction d puts the blank on the target cell and the target's tile on the old blank cell; nothing else moves |
| PuzzleState.StepBlank | src/main/java/com/iitj/ai/assignment1/problem1/PuzzleState.java:107-118 | After a move, findBlank finds the blank on the target cell |
| PuzzleState.GetNeighbors | src/main/java/com/iitj/ai/assignment1/problem1/PuzzleState.java:107-118 | The loop over the four directions returns exactly the neighbour list |
| PuzzleState.NeighborsAreSteps | src/main/java/com/iitj/ai/assignment1/problem1/PuzzleState.java:111-116 | The k-th neighbour is the move in the k-th in-bounds direction, in Up, Down, Left, Right order |
| PuzzleState.MovesOf | src/main/java/com/iitj/ai/assignment1/problem1/PuzzleState.java:111-116 | The in-bounds directions of each blank cell are those of the explicit 3x3 move table |
| PuzzleState.NeighborCount | src/main/java/com/iitj/ai/assignment1/problem1/PuzzleState.java:107-118 | Four neighbours at the centre, two at a corner, three at an edge; always 2 to 4 |
| PuzzleState.NeighborDiffers | src/main/java/com/iitj/ai/assignment1/problem1/PuzzleState.java:107-118 | Every neighbour differs from the state and is a permutation of its tiles |
| PuzzleState.NeighborsExclude | src/main/java/com/iitj/ai/assignment1/problem1/PuzzleState.java:107-118 | A state is never its own neighbour |
| PuzzleState.ActionFrom | src/main/java/com/iitj/ai/assignment1/problem1/PuzzleState.java:126-129 | "?" exactly when no remaining direction has offset (dr, dc); otherwise the name of a direction with that offset |
| PuzzleState.GetAction | src/main/java/com/iitj/ai/assignment1/problem1/PuzzleState.java:121-130 | "?" exactly when the blank offset matches no direction; otherwise the name of the direction with that offset |
| PuzzleState.ActionOfDirection | src/main/java/com/iitj/ai/assignment1/problem1/PuzzleState.java:126-129 | The offset of direction d is named DIR_NAMES[d] |
| PuzzleState.JavaRowCol | src/main/java/com/iitj/ai/assignment1/problem1/PuzzleState.java:124-125 | Java's truncating / and % give the row and column of a board index |
| PuzzleState.ActionOfStep | src/main/java/com/iitj/ai/assignment1/problem1/PuzzleState.java:121-130 | The action from s to its move in direction d is DIR_NAMES[d] |
| PuzzleState.ActionOfNeighbor | src/main/java/com/iitj/ai/assignment1/problem1/PuzzleState.java:107-130 | The action to the k-th neighbour names the k-th in-bounds direction |
| PuzzleState.ActionOfNonAdjacent | src/main/java/com/iitj/ai/assignment1/problem1/PuzzleState.java:121-130 | When the blanks are not one orthogonal step apart, the action is "?" |
| PuzzleState.TileDist | src/main/java/com/iitj/ai/assignment1/problem1/PuzzleState.java:147-152 | One tile's Manhattan distance on the 3x3 board is between 0 and 4 |
| PuzzleState.Heuristic | src/main/java/com/iitj/ai/assignment1/problem1/AStarSearch.java:60 | The selected heuristic (h1 or h2) lies between 0 and 36 |
| PuzzleState.ComputeH1 | src/main/java/com/iitj/ai/assignment1/problem1/PuzzleState.java:135-141 | The counting loop computes h1, the number of non-blank tiles off their goal cell |
| PuzzleState.ComputeH2 | src/main/java/com/iitj/ai/assignment1/problem1/PuzzleState.java:144-155 | The summing loop computes h2, the sum of the tiles' Manhattan distances |
| PuzzleState.H1Bounds | src/main/java/com/iitj/ai/assignment1/problem1/PuzzleState.java:135-141 | On a configuration 0 <= h1 <= 8 |
| PuzzleState.H2Bounds | src/main/java/com/iitj/ai/assignment1/problem1/PuzzleState.java:144-155 | 0 <= h2 <= 36 |
| PuzzleState.HeuristicsAtGoal | src/main/java/com/iitj/ai/assignment1/problem1/PuzzleState.java:135-155 | h1(GOAL) = h2(GOAL) = 0 |
| PuzzleState.H1LeH2 | src/main/java/com/iitj/ai/assignment1/problem1/AStarSearch.java:9 | h2 dominates h1: h1(s) <= h2(s) |
| PuzzleState.TileDistZero | src/main/java/com/iitj/ai/assignment1/problem1/PuzzleState.java:147-152 | A cell contributes 0 to h2 exactly when it holds the blank or its goal tile |
| PuzzleState.H2ZeroIffGoal | src/main/java/com/iitj/ai/assignment1/problem1/PuzzleState.java:144-155 | On a configuration h2 is 0 exactly at GOAL |
| PuzzleState.H2AtGoal | src/main/java/com/iitj/ai/assignment1/problem1/PuzzleState.java:144-155 | A configuration that passes the goal test has h2 = 0 |
| PuzzleState.H2Swap | src/main/java/com/iitj/ai/assignment1/problem1/PuzzleState.java:98-104 | Swapping the blank with a tile changes h2 by that tile's distance difference only |
| PuzzleState.H2Step | src/main/java/com/iitj/ai/assignment1/problem1/AStarSearch.java:10 | One move changes h2 by exactly 1 (the consistency behind admissibility) |
| PuzzleState.H2Neighbor | src/main/java/com/iitj/ai/assignment1/problem1/PuzzleState.java:107-118 | h2 differs by exactly 1 between a state and each of its neighbours |
| StateParsing.RemoveChar | src/main/java/com/iitj/ai/assignment1/problem1/PuzzleState.java:39 | String.replace(c, "") leaves no c and never lengthens the text |
| StateParsing.ReplaceChar | src/main/java/com/iitj/ai/assignment1/problem1/PuzzleState.java:39 | String.replace(x, y) keeps the length and swaps each x for y in place |
| StateParsing.Decode | src/main/java/com/iitj/ai/assignment1/problem1/PuzzleState.java:40-43 | Cell i is the character at i minus '0' |
| StateParsing.ParseState | src/main/java/com/iitj/ai/assignment1/problem1/PuzzleState.java:38-45 | Fails exactly when fewer than nine characters remain after normalising; otherwise cell i is the value of the i-th remaining character |
| StateParsing.ParseEncode | src/main/java/com/iitj/ai/assignment1/problem1/PuzzleState.java:38-45 | Parsing the "abc;dBf;ghi" text of a board gives that board back |
| StateParsing.ParseExample | src/main/java/com/iitj/ai/assignment1/problem1/PuzzleState.java:35-45 | "123;B46;758" decodes to [1,2,3,0,4,6,7,5,8] |
| PathReconstruction.ReconstructPath | src/main/java/com/iitj/ai/assignment1/problem1/PuzzleState.java:164-175 | On an acyclic parent map: ends at the goal, starts at a key with no parent, each entry is the parent of the next, at most rank+1 long; a goal with no parent gives the one-state path |
| PathReconstruction.LinkedWalk | src/main/java/com/iitj/ai/assignment1/problem1/PuzzleState.java:164-175 | When every parent link is a move, the reconstructed path is a walk of legal moves |
| PathReconstruction.TreeStart | src/main/java/com/iitj/ai/assignment1/problem1/BFSSearch.java:45 | The parent map {start -> null} is a search tree rooted at start |
| PathReconstruction.TreeRoot | src/main/java/com/iitj/ai/assignment1/problem1/BFSSearch.java:45 | In a search tree, the only key whose parent is null is the start |
| PathReconstruction.Attach | src/main/java/com/iitj/ai/assignment1/problem1/BFSSearch.java:63-66 | Adding a new neighbour with the current state as parent keeps the map a search tree |
| PathReconstruction.Reattach | src/main/java/com/iitj/ai/assignment1/problem1/DFSSearch.java:75-77 | Overwriting the parent of a state no one points to keeps the map a search tree |
| PathReconstruction.TreePath | src/main/java/com/iitj/ai/assignment1/problem1/PuzzleState.java:164-175 | In a search tree, the reconstructed path runs from start to goal by legal moves; goal = start gives the one-state path |
| PathReconstruction.ExhaustedMeansUnreachable | src/main/java/com/iitj/ai/assignment1/problem1/BFSSearch.java:48 | A set holding start, closed under moves and holding no goal proves the goal unreachable from start |
| PathReconstruction.Splice | src/main/java/com/iitj/ai/assignment1/problem1/IDAStarSearch.java:9 | Cutting a walk between two visits of the same state leaves a walk with the same two ends |
| PathReconstruction.Shortcut | src/main/java/com/iitj/ai/assignment1/problem1/IDAStarSearch.java:9 | Every walk has a repetition-free walk between the same two states that is no longer, so path-based cycle detection loses no goal |
| BfsSearch.Bfs | src/main/java/com/iitj/ai/assignment1/problem1/BFSSearch.java:42-70 | Success yields a walk from start to GOAL that is no longer than any walk from start to GOAL (the minimum number of moves); a goal start gives the one-state path; failure means no walk from start reaches GOAL |
| BfsSearch.EnqueueNew | src/main/java/com/iitj/ai/assignment1/problem1/BFSSearch.java:61-69 | Only unseen neighbours are enqueued, each once, and each gets the current state as parent; every existing entry keeps its parent and its depth; each new state is one level deeper than the current state and its depth is still its least number of moves |
| BfsSearch.FirstExit | src/main/java/com/iitj/ai/assignment1/problem1/BFSSearch.java:63 | A walk that starts on a visited state and ends on an unvisited one steps from a visited state to an unvisited one somewhere |
| BfsSearch.Deeper | src/main/java/com/iitj/ai/assignment1/problem1/BFSSearch.java:61-69 | When every visited state shallower than level m has all its neighbours visited, a state not yet visited needs at least m + 1 moves |
| BfsSearch.AttachLayer | src/main/java/com/iitj/ai/assignment1/problem1/BFSSearch.java:63-67 | Recording an unseen neighbour one level below the current state keeps every depth equal to the parent's depth + 1 and to the least number of moves |
| BfsSearch.LowSettledAtHead | src/main/java/com/iitj/ai/assignment1/problem1/BFSSearch.java:48-49 | At the head of the FIFO queue, every visited state shallower than the head was already expanded, so its neighbours are visited |
| BfsSearch.QueuedStep | src/main/java/com/iitj/ai/assignment1/problem1/BFSSearch.java:49-67 | Polling the head and appending states one level below it keeps the queue in non-decreasing depth order, spanning at most two levels |
| BfsSearch.LinkedDepth | src/main/java/com/iitj/ai/assignment1/problem1/PuzzleState.java:164-175 | On a path read back from the parent map, the state at index i has depth i |
| BfsSearch.ShortestFound | src/main/java/com/iitj/ai/assignment1/problem1/BFSSearch.java:54-57 | The path read back at a polled goal is no longer than any walk from start to the goal |
| BfsSearch.ExpandedClosed | src/main/java/com/iitj/ai/assignment1/problem1/BFSSearch.java:48-70 | When the queue empties, the recorded states are closed under moves and hold no goal |
| DfsSearch.Dfs | src/main/java/com/iitj/ai/assignment1/problem1/DFSSearch.java:33-82 | Success yields a walk from start to GOAL of at most DEPTH_LIMIT (50) moves; failure returns an empty path; a goal start succeeds with the one-state path after exploring one state; the explored count never exceeds the 9^9 configurations |
| ConfigSpace.UniverseSize | src/main/java/com/iitj/ai/assignment1/problem1/DFSSearch.java:60 | Any set of configurations has at most 9^9 elements, so counts of distinct explored states stay bounded |
| DfsSearch.Pop | src/main/java/com/iitj/ai/assignment1/problem1/DFSSearch.java:53-54 | The two stacks pop their tops together and keep equal length, with depths within DEPTH_LIMIT; a state popped for the first time has as parent the state that pushed that entry, and its depth is one more than that state's |
| DfsSearch.PopFirst | src/main/java/com/iitj/ai/assignment1/problem1/DFSSearch.java:53-59 | The first pop of a state is from its topmost entry, which agrees with the parent map: later pushes overwrite the parent and lie above earlier ones |
| DfsSearch.PushedPop | src/main/java/com/iitj/ai/assignment1/problem1/DFSSearch.java:53-59 | After a pop, the topmost entry of every state still unvisited still agrees with the parent map |
| DfsSearch.Visit | src/main/java/com/iitj/ai/assignment1/problem1/DFSSearch.java:58-60 | Visiting a state at its entry's depth keeps every visited state's parent visited, one level up |
| DfsSearch.PushedPush | src/main/java/com/iitj/ai/assignment1/problem1/DFSSearch.java:73-81 | After an expansion, the new entries name the current state as pusher and parent, one level down, and visited states keep their parents |
| DfsSearch.LevelsKept | src/main/java/com/iitj/ai/assignment1/problem1/DFSSearch.java:75-76 | Re-pointing only unvisited states leaves the parents and levels of visited states as they were |
| DfsSearch.LinkedLevels | src/main/java/com/iitj/ai/assignment1/problem1/PuzzleState.java:164-175 | Walking back along the parent links of visited states climbs exactly one level per link |
| DfsSearch.WithinLimit | src/main/java/com/iitj/ai/assignment1/problem1/DFSSearch.java:63-70 | A path read back from a visited state makes at most DEPTH_LIMIT moves |
| DfsSearch.PushUnvisited | src/main/java/com/iitj/ai/assignment1/problem1/DFSSearch.java:73-81 | Exactly the unvisited neighbours are pushed at depth+1, in order, each with the current state as its (overwritten) parent; other parents stay; every visited state keeps a parent entry and every recorded parent stays visited |
| GreedySearch.Greedy | src/main/java/com/iitj/ai/assignment1/problem1/GreedyBestFirstSearch.java:47-86 | Success yields a walk from start to GOAL; failure means no walk from start reaches GOAL; a goal start succeeds with the one-state path after exploring one state; the explored count never exceeds the 9^9 configurations |
| GreedySearch.Poll | src/main/java/com/iitj/ai/assignment1/problem1/GreedyBestFirstSearch.java:31-33 | Removes one entry of least h2 priority and keeps every other entry |
| GreedySearch.PolledIsLeast | src/main/java/com/iitj/ai/assignment1/problem1/GreedyBestFirstSearch.java:62 | The polled state has the least h2 in the queue |
| GreedySearch.QueueUnvisited | src/main/java/com/iitj/ai/assignment1/problem1/GreedyBestFirstSearch.java:76-85 | Unvisited neighbours are queued with priority h2; a parent is set only for states not yet in the map, and no parent is overwritten |
| GreedySearch.Expand | src/main/java/com/iitj/ai/assignment1/problem1/GreedyBestFirstSearch.java:64-85 | Expanding a visited non-goal state keeps the search tree, the queue priorities and the "every visited state's neighbours are visited or queued" invariant |
| GreedySearch.ExploredClosed | src/main/java/com/iitj/ai/assignment1/problem1/GreedyBestFirstSearch.java:61 | When the queue empties, the visited states are closed under moves and hold no goal |
| AStarSearch.IntCompare | src/main/java/com/iitj/ai/assignment1/problem1/AStarSearch.java:38-39 | Integer.compare: negative, zero or positive as x is below, equal to or above y |
| AStarSearch.Compare | src/main/java/com/iitj/ai/assignment1/problem1/AStarSearch.java:37-40 | Orders by f = g + h and breaks ties by smaller h |
| AStarSearch.CompareAntisymmetric | src/main/java/com/iitj/ai/assignment1/problem1/AStarSearch.java:37-40 | compareTo(a, b) = -compareTo(b, a) |
| AStarSearch.CompareTransitive | src/main/java/com/iitj/ai/assignment1/problem1/AStarSearch.java:37-40 | a <= b and b <= c give a <= c |
| AStarSearch.Poll | src/main/java/com/iitj/ai/assignment1/problem1/AStarSearch.java:67 | Removes one node that no other node precedes under compareTo and keeps every other node |
| AStarSearch.Relax | src/main/java/com/iitj/ai/assignment1/problem1/AStarSearch.java:85-90 | Recording a strictly better g for a neighbour keeps the cost tree (bestG(parent(k)) + 1 <= bestG(k), root at g 0) |
| AStarSearch.CostPath | src/main/java/com/iitj/ai/assignment1/problem1/AStarSearch.java:71-74 | The path from the cost tree is a walk from start to goal of at most bestG(goal) + 1 states; goal = start gives the one-state path |
| AStarSearch.CoveredSkip | src/main/java/com/iitj/ai/assignment1/problem1/AStarSearch.java:78-80 | Discarding a stale node (g above bestG) loses no pending state |
| AStarSearch.CoveredClosed | src/main/java/com/iitj/ai/assignment1/problem1/AStarSearch.java:66 | When the queue empties, the recorded states are closed under moves and hold no goal |
| AStarSearch.Expand | src/main/java/com/iitj/ai/assignment1/problem1/AStarSearch.java:83-94 | A neighbour is pushed with g+1 exactly when g+1 beats its recorded g; the cost tree, frontier bounds and key-set equality are kept |
| AStarSearch.Turn | src/main/java/com/iitj/ai/assignment1/problem1/AStarSearch.java:67-94 | One iteration either reaches a goal that is in the tree or keeps the search invariant and decreases the termination measure; a queue holding only a goal node ends the search at that goal |
| AStarSearch.Admissible | src/main/java/com/iitj/ai/assignment1/problem1/AStarSearch.java:9 | Along any walk to GOAL, h1 <= h2 <= the number of moves: both heuristics are admissible |
| AStarSearch.AStar | src/main/java/com/iitj/ai/assignment1/problem1/AStarSearch.java:47-95 | Success yields a walk from start to GOAL after at least one pop; failure means no walk from start reaches GOAL; a goal start succeeds with the one-state path after exploring one state |
| AStarSearch.Drained | src/main/java/com/iitj/ai/assignment1/problem1/AStarSearch.java:66 | An empty open list with the search invariant intact means no walk from start reaches GOAL |
| IdaStarSearch.PathPush | src/main/java/com/iitj/ai/assignment1/problem1/IDAStarSearch.java:39-41 | Pushing an unvisited neighbour keeps pathSet equal to the states of a repetition-free walk |
| IdaStarSearch.PathPop | src/main/java/com/iitj/ai/assignment1/problem1/IDAStarSearch.java:48-49 | Popping the pushed state restores path and pathSet exactly |
| IdaStarSearch.GoalReached | src/main/java/com/iitj/ai/assignment1/problem1/IDAStarSearch.java:32-34 | A goal within the threshold is a FOUND outcome with the path as it is |
| IdaStarSearch.ExtendsBack | src/main/java/com/iitj/ai/assignment1/problem1/IDAStarSearch.java:43-45 | A solution found through a child, with the parent within the threshold, is a solution extending the parent's path |
| IdaStarSearch.IdaSearch | src/main/java/com/iitj/ai/assignment1/problem1/IDAStarSearch.java:26-53 | Returns f when g+h exceeds the threshold, uncounted; FOUND at a goal within the threshold, with the path as it is; FOUND otherwise extends the path to GOAL within the threshold; every other result leaves path and pathSet unchanged and is the least f among the routes the bound cuts off (simple walks from the state, off the path, expanding only states within the bound), with no route reaching GOAL within the bound; MAX_VALUE means no route is cut off and no goal walk from the state avoids the path |
| IdaStarSearch.Sweep | src/main/java/com/iitj/ai/assignment1/problem1/IDAStarSearch.java:36-52 | The child loop returns FOUND with the path extended to GOAL, or else restores path and pathSet and returns the least f among the routes through the children that the bound cuts off (MAX_VALUE if none), no route reaching GOAL within the bound; MAX_VALUE means no goal walk from the state avoids the path |
| IdaStarSearch.Step | src/main/java/com/iitj/ai/assignment1/problem1/IDAStarSearch.java:37-50 | One neighbour: skipped when on the path, probed otherwise; FOUND ends the loop with the extended path, any other result is folded into min, keeping the loop state Swept one neighbour further |
| IdaStarSearch.SweptStart | src/main/java/com/iitj/ai/assignment1/problem1/IDAStarSearch.java:36 | Before the first neighbour, min = MAX_VALUE accounts for no route |
| IdaStarSearch.SweptOutcome | src/main/java/com/iitj/ai/assignment1/problem1/IDAStarSearch.java:52 | After the last neighbour, min is the probe value of the expanded state (LeastCut) and MAX_VALUE means trapped, with path and pathSet as they were |
| IdaStarSearch.Probe | src/main/java/com/iitj/ai/assignment1/problem1/IDAStarSearch.java:39-49 | Push, recurse and pop for one child: FOUND keeps the extended path; any other result restores path and pathSet and is the least f among the routes from the child, with the child on the path, that the bound cuts off; MAX_VALUE means no goal walk from the child avoids the path |
| IdaStarSearch.Deepen | src/main/java/com/iitj/ai/assignment1/problem1/IDAStarSearch.java:67-86 | One iteration: FOUND gives a repetition-free walk from the initial state to GOAL of at most threshold moves; otherwise the result is above the threshold, is the least f among the routes from initial that the bound cuts off, and is at most the number of moves of any solution; MAX_VALUE means no walk from the initial state reaches GOAL |
| IdaStarSearch.RunIdaStar | src/main/java/com/iitj/ai/assignment1/problem1/IDAStarSearch.java:59-92 | Thresholds start at h(initial), strictly increase, and each after the first is the least f cut off by the previous bound; success gives a repetition-free walk to GOAL no longer than any walk from the initial state to GOAL (the minimum number of moves); failure ("No solution exists") means no walk from the initial state reaches GOAL; a goal start succeeds on the first iteration with a one-state path |
| IdaStarSearch.EscapeTail | src/main/java/com/iitj/ai/assignment1/problem1/IDAStarSearch.java:39-43 | A goal walk that avoids the path, minus its first state, avoids the path with the child pushed |
| IdaStarSearch.TrappedStep | src/main/java/com/iitj/ai/assignment1/problem1/IDAStarSearch.java:34-52 | A non-goal state whose neighbours off the path each return MAX_VALUE has no goal walk avoiding the path |
| IdaStarSearch.ChildrenTrappedAll | src/main/java/com/iitj/ai/assignment1/problem1/IDAStarSearch.java:37-52 | Once every neighbour off the path is trapped, a non-goal state is trapped |
| IdaStarSearch.TrappedUnreachable | src/main/java/com/iitj/ai/assignment1/problem1/IDAStarSearch.java:83-85 | MAX_VALUE from the one-state path means no walk at all from the initial state reaches GOAL |
| IdaStarSearch.SweptSkip | src/main/java/com/iitj/ai/assignment1/problem1/IDAStarSearch.java:39 | A neighbour on the path starts no route, so min still accounts for every route through the neighbours seen |
| IdaStarSearch.SweptProbe | src/main/java/com/iitj/ai/assignment1/problem1/IDAStarSearch.java:43-46 | Folding a child's result into min (`if (result < min) min = result`) keeps min the least f of a cut-off route through the neighbours seen, with no route through them reaching GOAL |
| IdaStarSearch.SweptAll | src/main/java/com/iitj/ai/assignment1/problem1/IDAStarSearch.java:52 | After the last neighbour, min is the least f of every cut-off route from the state, no route reaches GOAL, and MAX_VALUE means trapped |
| IdaStarSearch.ProbingTail | src/main/java/com/iitj/ai/assignment1/problem1/IDAStarSearch.java:39-43 | A route of two or more states, less its first, is a route from its second state, a neighbour off the path, one move deeper with the same f |
| IdaStarSearch.HitTail | src/main/java/com/iitj/ai/assignment1/problem1/IDAStarSearch.java:43-45 | A route reaching GOAL within the bound does so from the child that starts its tail |
| IdaStarSearch.CutTail | src/main/java/com/iitj/ai/assignment1/problem1/IDAStarSearch.java:43-46 | A route the bound cuts off is, from its second state, cut off at the same f |
| IdaStarSearch.ConsWalk | src/main/java/com/iitj/ai/assignment1/problem1/IDAStarSearch.java:37 | A state followed by a walk from one of its neighbours is a walk |
| IdaStarSearch.ConsSimple | src/main/java/com/iitj/ai/assignment1/problem1/IDAStarSearch.java:39 | A state on the path followed by a simple walk that avoids the path is simple |
| IdaStarSearch.ProbingCons | src/main/java/com/iitj/ai/assignment1/problem1/IDAStarSearch.java:37-43 | An expanded state followed by a route from a neighbour off the path is a route from the state with the same f |
| IdaStarSearch.Exceeded | src/main/java/com/iitj/ai/assignment1/problem1/IDAStarSearch.java:32 | A state beyond the bound is its only route, so its f is the least cut-off f and no route reaches GOAL |
| IdaStarSearch.NoHitThrough | src/main/java/com/iitj/ai/assignment1/problem1/IDAStarSearch.java:43-45 | If the probe of a child did not return FOUND, no route through that child reaches GOAL within the bound |
| IdaStarSearch.CutThrough | src/main/java/com/iitj/ai/assignment1/problem1/IDAStarSearch.java:43-46 | Every cut-off route through a probed child has f at least the child's result |
| IdaStarSearch.CutWitness | src/main/java/com/iitj/ai/assignment1/problem1/IDAStarSearch.java:43-46 | A child's result other than MAX_VALUE is the f of a cut-off route from the expanded state |
| IdaStarSearch.FirstBoundBelow | src/main/java/com/iitj/ai/assignment1/problem1/IDAStarSearch.java:66 | The first bound h(initial) is at most the number of moves of any solution |
| IdaStarSearch.HeuristicUnderestimates | src/main/java/com/iitj/ai/assignment1/problem1/IDAStarSearch.java:29 | The heuristic in use never exceeds the number of moves of a walk to GOAL |
| IdaStarSearch.NextBoundBelow | src/main/java/com/iitj/ai/assignment1/problem1/IDAStarSearch.java:8-13 | The value of a failed probe from initial is at most the number of moves of every solution, so raising the bound to it never skips past the optimum |
| IdaStarSearch.CutOnWalk | src/main/java/com/iitj/ai/assignment1/problem1/IDAStarSearch.java:8-13 | NextBoundBelow for one simple solution: the failed probe's value is at most its number of moves |
| IdaStarSearch.PrefixStops | src/main/java/com/iitj/ai/assignment1/problem1/IDAStarSearch.java:32-45 | A probe from the start of a simple walk to GOAL follows it to a state that is cut off or is the goal, where f is at most the walk's number of moves |
| IdaStarSearch.WalkSuffix | src/main/java/com/iitj/ai/assignment1/problem1/IDAStarSearch.java:37 | The rest of a walk from any of its states is a walk to the same last state |
| IdaStarSearch.FirstOut | src/main/java/com/iitj/ai/assignment1/problem1/IDAStarSearch.java:32-34 | The first state of a walk to GOAL that the probe would not expand: beyond the bound or the goal, with every earlier state expanded |
| IdaStarSearch.ProbingPrefix | src/main/java/com/iitj/ai/assignment1/problem1/IDAStarSearch.java:37-43 | A simple walk up to its first unexpanded state is a route of the probe from its start |
| IdaStarSearch.RaisedPush | src/main/java/com/iitj/ai/assignment1/problem1/IDAStarSearch.java:91 | Recording one more failed probe keeps each bound the value of the probe with the bound before it |
| IdaStarSearch.ChainPush | src/main/java/com/iitj/ai/assignment1/problem1/IDAStarSearch.java:66-91 | Appending the next bound, above the last and the value of its failed probe, keeps the chain of bounds starting at h(initial), increasing and raised probe by probe |
| IdaStarSearch.IncreasingPush | src/main/java/com/iitj/ai/assignment1/problem1/IDAStarSearch.java:91 | A new bound above the last one keeps the sequence of bounds strictly increasing |
| AdversarialSearch.Utility | src/main/java/com/iitj/ai/assignment1/problem1/AdversarialSearch.java:32-34 | -h2, between -36 and 0, and 0 exactly at the goal |
| AdversarialSearch.Minimax | src/main/java/com/iitj/ai/assignment1/problem1/AdversarialSearch.java:46-83 | The minimax value is always a utility value, between -36 and 0 |
| AdversarialSearch.Extreme | src/main/java/com/iitj/ai/assignment1/problem1/AdversarialSearch.java:58-81 | The max (or min) over the children's values is absent exactly when there are no children |
| AdversarialSearch.MinimaxCalls | src/main/java/com/iitj/ai/assignment1/problem1/AdversarialSearch.java:47 | Every minimax call counts at least itself |
| AdversarialSearch.AlphaBetaSound | src/main/java/com/iitj/ai/assignment1/problem1/AdversarialSearch.java:93-132 | Fail-soft: inside (alpha, beta) alpha-beta returns the minimax value; outside, a bound on the same side |
| AdversarialSearch.ScanSound | src/main/java/com/iitj/ai/assignment1/problem1/AdversarialSearch.java:104-130 | The child loop with cutoffs relates to the full max/min as the fail-soft window requires |
| AdversarialSearch.AlphaBetaExact | src/main/java/com/iitj/ai/assignment1/problem1/AdversarialSearch.java:14-15 | With the full window alpha-beta returns exactly the minimax value |
| AdversarialSearch.FewerCalls | src/main/java/com/iitj/ai/assignment1/problem1/AdversarialSearch.java:14-15 | Alpha-beta makes at most as many calls as minimax on the same state, depth and visited set |
| AdversarialSearch.ScanAfterCut | src/main/java/com/iitj/ai/assignment1/problem1/AdversarialSearch.java:112-113 | After a cutoff, the remaining children change neither the result nor the call count |
| AdversarialSearch.MinimaxSearch | src/main/java/com/iitj/ai/assignment1/problem1/AdversarialSearch.java:46-83 | The recursion returns the minimax value, leaves visited as on entry and adds exactly its calls to the counter |
| AdversarialSearch.MinimaxLoop | src/main/java/com/iitj/ai/assignment1/problem1/AdversarialSearch.java:58-81 | The child loop computes the max (min) over the unvisited children and restores visited |
| AdversarialSearch.MinimaxChild | src/main/java/com/iitj/ai/assignment1/problem1/AdversarialSearch.java:60-65 | Add, recurse, remove: the best so far absorbs the child's value and visited is restored |
| AdversarialSearch.AlphaBetaSearch | src/main/java/com/iitj/ai/assignment1/problem1/AdversarialSearch.java:93-132 | The recursion returns the alpha-beta value, leaves visited as on entry and adds exactly its calls |
| AdversarialSearch.AlphaBetaLoop | src/main/java/com/iitj/ai/assignment1/problem1/AdversarialSearch.java:104-130 | The child loop with window updates and cutoffs, restoring visited, also after a break |
| AdversarialSearch.AlphaBetaTurn | src/main/java/com/iitj/ai/assignment1/problem1/AdversarialSearch.java:105-115 | One child of the loop before any cutoff: the window absorbs its value and visited is restored |
| AdversarialSearch.Choice | src/main/java/com/iitj/ai/assignment1/problem1/AdversarialSearch.java:152-156 | The root's choice is the position of one of the values |
| AdversarialSearch.ChoiceIsFirstBest | src/main/java/com/iitj/ai/assignment1/problem1/AdversarialSearch.java:152-156 | The strict "val > bestVal" update picks the first position of a largest value |
| AdversarialSearch.ChoiceIsExtreme | src/main/java/com/iitj/ai/assignment1/problem1/AdversarialSearch.java:147-157 | The best root value is the max over the root's children |
| AdversarialSearch.RootIsMinimax | src/main/java/com/iitj/ai/assignment1/problem1/AdversarialSearch.java:139-161 | The value of the chosen root move is the minimax value of the initial state one level deeper |
| AdversarialSearch.FewerRootCalls | src/main/java/com/iitj/ai/assignment1/problem1/AdversarialSearch.java:242-243 | The alpha-beta root makes at most as many calls as the minimax root |
| AdversarialSearch.RootUpdate | src/main/java/com/iitj/ai/assignment1/problem1/AdversarialSearch.java:152-156 | The best-move update keeps (move, bestVal) equal to the first best among the values seen |
| AdversarialSearch.RootBestIsResult | src/main/java/com/iitj/ai/assignment1/problem1/AdversarialSearch.java:147-160 | After all moves are seen, the kept move and value are the root's result |
| AdversarialSearch.RunMinimax | src/main/java/com/iitj/ai/assignment1/problem1/AdversarialSearch.java:139-161 | Returns the first neighbour of largest minimax value, that value, and the exact number of minimax calls |
| AdversarialSearch.MinimaxRootLoop | src/main/java/com/iitj/ai/assignment1/problem1/AdversarialSearch.java:147-157 | The root loop evaluates every move and keeps the first best |
| AdversarialSearch.MinimaxRootTurn | src/main/java/com/iitj/ai/assignment1/problem1/AdversarialSearch.java:148-156 | One root move evaluated and folded into the best so far, visited restored |
| AdversarialSearch.RunAlphaBeta | src/main/java/com/iitj/ai/assignment1/problem1/AdversarialSearch.java:166-189 | Returns the same move and value as runMinimax, and the exact number of alpha-beta calls |
| AdversarialSearch.AlphaBetaRootLoop | src/main/java/com/iitj/ai/assignment1/problem1/AdversarialSearch.java:174-185 | The root loop with a full window at each move keeps the first best |
| AdversarialSearch.AlphaBetaRootTurn | src/main/java/com/iitj/ai/assignment1/problem1/AdversarialSearch.java:175-184 | One root move evaluated by alpha-beta and folded into the best so far, visited restored |
| CspFramework.RemoveFirst | src/main/java/com/iitj/ai/assignment1/problem2/CSPFramework.java:75 | List.remove(x) drops one occurrence of x when present and changes nothing otherwise |
| CspFramework.InitDomains | src/main/java/com/iitj/ai/assignment1/problem2/CSPFramework.java:69-80 | A fresh list of the four initial domains |
| CspFramework.InitialDomainsShape | src/main/java/com/iitj/ai/assignment1/problem2/CSPFramework.java:69-80 | Four domains; A and B everywhere; C in every slot but slot 4 |
| CspFramework.CheckNoBackToBack | src/main/java/com/iitj/ai/assignment1/problem2/CSPFramework.java:88-96 | True exactly when no adjacent pair holds the same bot |
| CspFramework.CheckMaintenanceBreak | src/main/java/com/iitj/ai/assignment1/problem2/CSPFramework.java:102-104 | True exactly when slot 4 does not hold C |
| CspFramework.CheckMinimumCoverage | src/main/java/com/iitj/ai/assignment1/problem2/CSPFramework.java:111-117 | True exactly when A, B and C all occur among the assigned entries |
| CspFramework.IsConsistent | src/main/java/com/iitj/ai/assignment1/problem2/CSPFramework.java:123-148 | True exactly when the bot differs from both assigned neighbours and is not C in slot 4; leaves the slot null and the rest unchanged |
| CspFramework.PlacementKeepsValid | src/main/java/com/iitj/ai/assignment1/problem2/CSPFramework.java:123-148 | From a valid assignment, isConsistent accepts exactly the placements that keep both checks true |
| CspFramework.AcceptedPlacementsValid | src/main/java/com/iitj/ai/assignment1/problem2/CSPFramework.java:88-148 | An assignment built only from accepted placements passes checkNoBackToBack and checkMaintenanceBreak |
| CspFramework.DemoScheduleIsSolution | src/main/java/com/iitj/ai/assignment1/problem2/ForwardCheckingDemo.java:84-85 | {A, B, C, A} meets all three constraints |
| CspFramework.CanSatisfyCoverage | src/main/java/com/iitj/ai/assignment1/problem2/CSPFramework.java:154-179 | False exactly when some bot is neither assigned nor in the domain of an unassigned slot |
| CspFramework.CoverageNecessary | src/main/java/com/iitj/ai/assignment1/problem2/CSPFramework.java:154-179 | Any covered completion makes canSatisfyCoverage true, so a false answer prunes no solution |
| CspFramework.CompleteExtendsOnlyItself | src/main/java/com/iitj/ai/assignment1/problem2/BacktrackingSearch.java:97-104 | A complete assignment's only completion is itself |
| BacktrackingSearch.AllAssigned | src/main/java/com/iitj/ai/assignment1/problem2/BacktrackingSearch.java:97-100 | The completeness loop is true exactly when no slot is null |
| BacktrackingSearch.SelectMrv | src/main/java/com/iitj/ai/assignment1/problem2/BacktrackingSearch.java:29-43 | The lowest-index unassigned slot of least domain size, or -1 exactly when every slot is assigned |
| BacktrackingSearch.MrvUnique | src/main/java/com/iitj/ai/assignment1/problem2/BacktrackingSearch.java:29-43 | The MRV choice is determined: two slots meeting it coincide |
| BacktrackingSearch.BotIndex | src/main/java/com/iitj/ai/assignment1/problem2/BacktrackingSearch.java:61 | The index of a bot in BOTS |
| BacktrackingSearch.ForwardCheck | src/main/java/com/iitj/ai/assignment1/problem2/BacktrackingSearch.java:52-77 | Removes bot from the unassigned left neighbour, then the right one, stopping at the first wipeout; the result and new domains are ForwardChecked of the old ones |
| BacktrackingSearch.PruneNeighbour | src/main/java/com/iitj/ai/assignment1/problem2/BacktrackingSearch.java:57-63 | One neighbour's check: removes one occurrence of bot exactly when the neighbour is unassigned and holds it |
| BacktrackingSearch.ForwardCheckNarrows | src/main/java/com/iitj/ai/assignment1/problem2/BacktrackingSearch.java:52-77 | Forward checking only removes bot from unassigned neighbours of the slot; every other domain is untouched |
| BacktrackingSearch.ForwardCheckWipeout | src/main/java/com/iitj/ai/assignment1/problem2/BacktrackingSearch.java:62-72 | A null result means an unassigned neighbour that held bot now has an empty domain |
| BacktrackingSearch.ForwardCheckKeepsNonEmpty | src/main/java/com/iitj/ai/assignment1/problem2/BacktrackingSearch.java:52-77 | A non-null result leaves no domain newly empty |
| BacktrackingSearch.ForwardCheckLogged | src/main/java/com/iitj/ai/assignment1/problem2/BacktrackingSearch.java:61-71 | The pruned list records each removal as (neighbour, index of bot); the domains plus the logged values are the old domains |
| BacktrackingSearch.NarrowedIsNarrower | src/main/java/com/iitj/ai/assignment1/problem2/BacktrackingSearch.java:60-70 | Forward checking only shrinks domains |
| BacktrackingSearch.UndoForwardCheck | src/main/java/com/iitj/ai/assignment1/problem2/BacktrackingSearch.java:82-86 | Appends each logged bot to the end of its slot's domain, in log order |
| BacktrackingSearch.UndoRestores | src/main/java/com/iitj/ai/assignment1/problem2/BacktrackingSearch.java:82-86 | Undoing the log restores every domain to the same values, possibly in a different order |
| BacktrackingSearch.RestoreDomains | src/main/java/com/iitj/ai/assignment1/problem2/BacktrackingSearch.java:168-170 | Copies the saved domains back, slot by slot |
| BacktrackingSearch.FoundIsSolution | src/main/java/com/iitj/ai/assignment1/problem2/BacktrackingSearch.java:97-104 | What a search finds from a valid assignment is a solution |
| BacktrackingSearch.SolutionSurvivesPruning | src/main/java/com/iitj/ai/assignment1/problem2/BacktrackingSearch.java:52-77 | Forward checking removes no value used by a solution extending the assignment |
| BacktrackingSearch.NarrowedNoSolution | src/main/java/com/iitj/ai/assignment1/problem2/BacktrackingSearch.java:143-161 | No solution after forward checking means no solution before it |
| BacktrackingSearch.InfeasibleNoSolution | src/main/java/com/iitj/ai/assignment1/problem2/BacktrackingSearch.java:147 | When canSatisfyCoverage fails, no completion is a solution |
| BacktrackingSearch.EmptyDomainNoSolution | src/main/java/com/iitj/ai/assignment1/problem2/BacktrackingSearch.java:62-72 | An unassigned slot with an empty domain has no completion |
| BacktrackingSearch.UncoveredNoSolution | src/main/java/com/iitj/ai/assignment1/problem2/BacktrackingSearch.java:101-104 | A complete assignment failing coverage has no solution |
| BacktrackingSearch.UnplaceableExcluded | src/main/java/com/iitj/ai/assignment1/problem2/BacktrackingSearch.java:129 | A value isConsistent rejects is used by no solution at that slot |
| BacktrackingSearch.PlacedFound | src/main/java/com/iitj/ai/assignment1/problem2/BacktrackingSearch.java:129-159 | A solution found after a consistent placement and forward checking is a solution of the original problem |
| BacktrackingSearch.AllValuesExcluded | src/main/java/com/iitj/ai/assignment1/problem2/BacktrackingSearch.java:126-178 | When every value of the MRV slot's domain is excluded, no solution exists |
| BacktrackingSearch.Backtrack | src/main/java/com/iitj/ai/assignment1/problem2/BacktrackingSearch.java:94-179 | True: a complete, covered extension within the domains that passes all checks from a valid start. False: assignment as on entry, domains with the same values, and (domain sizes in int range) no solution exists |
| BacktrackingSearch.TryValue | src/main/java/com/iitj/ai/assignment1/problem2/BacktrackingSearch.java:129-175 | One value of the loop: success extends the placement; failure restores the assignment and domain values and excludes the value |
| BacktrackingSearch.SearchPlaced | src/main/java/com/iitj/ai/assignment1/problem2/BacktrackingSearch.java:138-171 | Forward check, recurse, and undo or restore: failure leaves the domains with the same values |
| BacktrackingSearch.SearchPruned | src/main/java/com/iitj/ai/assignment1/problem2/BacktrackingSearch.java:145-162 | After a successful forward check: coverage check, recursion, undo; failure restores the original domain values |
| BacktrackingSearch.Schedule | src/main/java/com/iitj/ai/assignment1/problem2/BacktrackingSearch.java:197-212 | From initDomains and an all-null assignment, backtracking succeeds with a solution |
| BacktrackingSearch.DemoSolvesInitial | src/main/java/com/iitj/ai/assignment1/problem2/BacktrackingSearch.java:197-212 | The initial problem has a solution and its domain sizes fit an int |
| ArcConsistency.Revised | src/main/java/com/iitj/ai/assignment1/problem2/ArcConsistency.java:73-94 | The revised domain keeps exactly the values with a different value in D_xj, and never grows |
| ArcConsistency.RemoveAll | src/main/java/com/iitj/ai/assignment1/problem2/ArcConsistency.java:92 | removeAll keeps exactly the values not in the removal list |
| ArcConsistency.RemoveUnsupported | src/main/java/com/iitj/ai/assignment1/problem2/ArcConsistency.java:77-92 | Removing the collected unsupported values is the revision |
| ArcConsistency.RevisedShorter | src/main/java/com/iitj/ai/assignment1/problem2/ArcConsistency.java:86-92 | An unsupported value makes the revision strictly shrink the domain |
| ArcConsistency.RevisedAllSupported | src/main/java/com/iitj/ai/assignment1/problem2/ArcConsistency.java:73-94 | When every value is supported, revision changes nothing |
| ArcConsistency.Revise | src/main/java/com/iitj/ai/assignment1/problem2/ArcConsistency.java:73-94 | Replaces D_xi by its revision and changes no other domain; true exactly when some value of D_xi had no support |
| ArcConsistency.RevisedConsistent | src/main/java/com/iitj/ai/assignment1/problem2/ArcConsistency.java:73-94 | After revise, the arc (xi, xj) is consistent |
| ArcConsistency.ReviseKeepsArc | src/main/java/com/iitj/ai/assignment1/problem2/ArcConsistency.java:53-58 | Revising xi keeps every consistent arc not pointing at xi, or coming from xj, consistent (so only (xk, xi) need requeueing) |
| ArcConsistency.ReviseKeepsSolutions | src/main/java/com/iitj/ai/assignment1/problem2/ArcConsistency.java:73-94 | Revision removes no value used by a schedule without back-to-back repeats |
| ArcConsistency.RequeuedArcs | src/main/java/com/iitj/ai/assignment1/problem2/ArcConsistency.java:54-58 | The requeued arcs are exactly the arcs (xk, xi) with xk != xj |
| ArcConsistency.InitialArcsAll | src/main/java/com/iitj/ai/assignment1/problem2/ArcConsistency.java:28-32 | The initial queue holds exactly the directed arcs between consecutive slots |
| ArcConsistency.Ac3Step | src/main/java/com/iitj/ai/assignment1/problem2/ArcConsistency.java:36-59 | One iteration keeps "every arc is queued or consistent" |
| ArcConsistency.Ac3Iteration | src/main/java/com/iitj/ai/assignment1/problem2/ArcConsistency.java:36-59 | One iteration keeps the whole AC-3 invariant (arcs queued or consistent, domains narrower, solutions kept) |
| ArcConsistency.Ac3Progress | src/main/java/com/iitj/ai/assignment1/problem2/ArcConsistency.java:36-59 | A revision strictly shrinks the total domain size; otherwise the queue shrinks with the domains unchanged |
| ArcConsistency.Ac3Failure | src/main/java/com/iitj/ai/assignment1/problem2/ArcConsistency.java:47-51 | Returning false follows a domain becoming empty, and then the original problem has no solution |
| ArcConsistency.RequeueArcsInto | src/main/java/com/iitj/ai/assignment1/problem2/ArcConsistency.java:54-58 | The loop appends the requeued arcs in increasing xk order |
| ArcConsistency.Ac3 | src/main/java/com/iitj/ai/assignment1/problem2/ArcConsistency.java:25-64 | True: every arc is consistent. False: a domain became empty and no solution exists. Domains only shrink and keep every solution; already consistent domains stay unchanged |
| ArcConsistency.InitialDomainsArcConsistent | src/main/java/com/iitj/ai/assignment1/problem2/ArcConsistency.java:73-94 | Every domain from initDomains holds A and B, so every arc is already consistent |
| ArcConsistency.TwoBotsSupport | src/main/java/com/iitj/ai/assignment1/problem2/ArcConsistency.java:77-85 | A domain holding two different bots supports every value |
| ArcConsistency.BacktrackSimple | src/main/java/com/iitj/ai/assignment1/problem2/ArcConsistency.java:161-191 | Never modifies the domains. True: a complete, covered extension that passes the checks from a valid start. False: assignment as on entry and no solution exists |
| ArcConsistency.SolveWithAc3 | src/main/java/com/iitj/ai/assignment1/problem2/ArcConsistency.java:112-142 | On initDomains, AC-3 reports consistent with the domains unchanged, and backtracking then finds a solution |

## Left out

- Console output is not modelled: printResult, printAssignment, printConstraintGraph, stateToString, stateToGrid, and the step, revision and progress logging.
- Timing is not modelled: the currentTimeMillis measurements.
- File input is not modelled: PuzzleState.readInput and CSPFramework.readInput. The CSP callers discard the latter's result.
- Simulated annealing is not modelled. It rests on floating-point temperatures, Math.exp and java.util.Random.
- ManuscriptSorter.java, SecurityBotCSP.java and the scripted ForwardCheckingDemo.java are not modelled; they only call other entry points. The one schedule the demo checks is DemoScheduleIsSolution.
- The `stateMap` maps are dropped. Configurations are their own keys, because Arrays.toString is injective on nine-digit boards.
- Static counters (statesExplored, minimaxCalls, alphaBetaCalls, totalAssignments, count[0]) are passed in and returned as values. stepCount only drives printing and is left out. revisionsCount in ac3 is never read and is left out.
- IDA*'s shared path list and pathSet are passed to and returned from each call rather than mutated through an alias. IdaSearch's contract says they come back unchanged whenever the result is not FOUND.
- The adversarial visited set is likewise threaded as a value. The contracts state it is the same set on return.
- Java's PriorityQueue picks an unspecified element among equal priorities. GreedySearch.Poll and AStarSearch.Poll remove some least element, so explored-state counts are not exact for those two searches.
- AStar: the minimum number of moves is not proved, only that the path is a walk from start to GOAL. Both heuristics are proved admissible (Admissible), and IDA* optimality is proved (RunIdaStar). A* optimality would further need an argument about stale queue entries under PriorityQueue's unspecified order among equal keys, which does not fit the verifier's resource limit in this model.
- Dfs: failure promises only an empty path. The depth bound can hide the goal, so no unreachability follows.
- Dfs, Greedy: statesExplored == |visited| is not stated, because the visited set is local to the method and not returned; the contracts bound the count by 9^9 and fix it at 1 for a goal start.
- Backtrack: the counter is only bounded below (count' >= count + remaining holes on success), not given exactly as one per accepted value.
- BacktrackSimple: the same lower bound applies to its counter.
- The NoSolution halves of Backtrack and BacktrackSimple assume every domain size is below Integer.MAX_VALUE. selectMRV would return -1 for an unassigned slot with a larger domain, and domains here hold at most three values.
- SolveWithAc3 does not model the "inconsistent" branch of main. It is unreachable, because AC-3 accepts the initial domains unchanged.
- Integers are unbounded. Integer.MIN_VALUE and Integer.MAX_VALUE appear as explicit constants where the source uses them as sentinels. Other arithmetic stays far below the 32-bit range.
- parseState's StringIndexOutOfBoundsException on a short input becomes a None result. The character-to-digit mapping is not range-checked, as in the source.
- Several helper methods exist only to split one Java method's inline code into verifiable steps; each maps to the Java lines cited in its table row. These are PruneNeighbour, SearchPlaced, SearchPruned, TryValue, RequeueArcsInto, Sweep, Step, Probe, Deepen, the Turn and Move methods, and the Root/Loop/Child methods.
