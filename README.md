# Fugitive AI of the Scotland Yard game, in Dafny

This project models the decision logic of `MyAi`, the AI that plays the fugitive
(MrX) in a Scotland Yard implementation, and proves properties of it. To choose a
move, the AI does the following:

1. It collects the real detective locations.
2. It rebuilds a 200 x 200 distance table with an in-place Floyd-Warshall pass.
3. It scores every legal move by a depth-7 fail-soft alpha-beta search over
   projected ("proxy") boards, adding each move's penalty.
4. It keeps the best move, ties going to the move its heuristic ordering puts
   first, and remembers where that move leads.

The modules follow the structure of the source:

- `Sets`: the one fact about finite sets the others share (a non-empty set has an element).
- `Moves`: tickets, pieces and moves; `getDestination`; the visited locations of a move.
- `Scores`: the search's doubles as an integer extended with -infinity and +infinity.
  - `Math.max` / `Math.min` and the addition of a penalty.
  - The fail-soft contract of alpha-beta.
  - Folds over the children of a ply, and the lexicographic maximum that
    `Stream.max` over the sorted list returns.
- `Distances`: `precomputeShortestPaths`.
  - `Relax` is the Floyd-Warshall recurrence, started from the source's all-zero
    table, and it is the specification.
  - The table methods work in place on an `array2<int>` and are proved to leave
    `Relax` in every cell.
- `Boards`: the board the AI reads and the generation of hypothetical moves
  (`construct*Moves`, `get*Moves`). The two `BoardProxy` overrides
  (`simulateMrXMove`, `simulateDetectiveMove`) are record updates of the wrapped board.
- `Evaluation`: `calculateMinDistance`, `calculateFreedomScore`, `evaluateBoard`,
  `evaluateMove` and the sort key of `pickMove`. They are pure functions of what
  the AI knows: its visited locations, the real detective locations and the table.
- `Search`: the specification of the search.
  - `Value` is plain minimax over the projected boards. MrX maximises; the
    detectives minimise in player order. Each MrX child carries its move penalty.
  - `BestRootMove` is the choice `pickMove` makes.
- `FugitiveAi`: the class `MyAi`, with the fields `visited`, `occupied` and
  `shortestPaths`. Its methods have the source's loops and are proved against the
  functions above:
  - `MiniMax` meets the fail-soft contract against `Value` in every window. It is
    exact in the full window wherever the tree is `PenaltyFree`, and
    `NoPenaltyIsPenaltyFree` gives a sufficient condition for that.
  - `PickMove` returns a `BestRootMove`.

The model follows the code as written, including where it departs from what a reader of the method names would expect:

- The distance table starts at 0, not at an "unreachable" sentinel, and is
  relaxed over the indices 1..199 only. `Distances.Collapse` shows the consequence:
  most entries end at 0, so the table is not the hop distance. Only bounds,
  the zero diagonal and the triangle inequality are claimed.
- The guard of the SECRET and double-move penalties parses as
  `early || (not a reveal round && distance > 2)`, not `(early || not reveal) && distance > 2`.
- `evaluateBoard` returns -infinity only when the *first* detective of the player
  list is among the winners.
- Among root moves of equal score, the one that sorts first wins: `Stream.max` keeps
  the earliest maximum of the sorted list, so that is the move with the highest ordering score.
- With no legal move at all, the source throws (`moves.get(0)` is evaluated
  eagerly), so a non-empty move set is a precondition.

## Model

| member | source | states |
|---|---|---|
| Moves.Destination | src/main/java/uk/ac/bris/cs/scotlandyard/ui/ai/MyAi.java:101-113 | a single move ends on `destination`, a double move on `destination2` |
| Moves.FirstTicket | src/main/java/uk/ac/bris/cs/scotlandyard/ui/ai/MyAi.java:161 | the first ticket a move spends: `ticket` of a single move, `ticket1` of a double move |
| Moves.Visits | src/main/java/uk/ac/bris/cs/scotlandyard/ui/ai/MyAi.java:115-130 | a single move visits `{destination}`, a double move `{destination1, destination2}` |
| Moves.DestinationIsVisited | src/main/java/uk/ac/bris/cs/scotlandyard/ui/ai/MyAi.java:101-130 | the effective destination is always remembered; a move visits one or two locations, a single move exactly one |
| Scores.Max | src/main/java/uk/ac/bris/cs/scotlandyard/ui/ai/MyAi.java:79-80 | `Math.max` is an upper bound of both arguments and one of them |
| Scores.Min | src/main/java/uk/ac/bris/cs/scotlandyard/ui/ai/MyAi.java:91-92 | `Math.min` is a lower bound of both arguments and one of them |
| Scores.Add | src/main/java/uk/ac/bris/cs/scotlandyard/ui/ai/MyAi.java:78 | adding a finite penalty keeps the infinities and adds to a finite score; a zero penalty changes nothing |
| Scores.LeTotalOrder | src/main/java/uk/ac/bris/cs/scotlandyard/ui/ai/MyAi.java:79-93 | the comparison the search uses is a total order on scores |
| Scores.FailSoftFullWindow | src/main/java/uk/ac/bris/cs/scotlandyard/ui/ai/MyAi.java:49 | a fail-soft result in the window (-inf, +inf), the one pickMove opens, is the exact value |
| Scores.MaxPlyStep | src/main/java/uk/ac/bris/cs/scotlandyard/ui/ai/MyAi.java:79-83 | after one child of a max ply, alpha is the max of the old alpha and the max so far; without a cut the running max stays fail-soft, and with one the child alone bounds the value from below |
| Scores.MinPlyStep | src/main/java/uk/ac/bris/cs/scotlandyard/ui/ai/MyAi.java:91-95 | the dual for a min ply |
| Scores.MaxOfSpec | src/main/java/uk/ac/bris/cs/scotlandyard/ui/ai/MyAi.java:75-85 | the max over a ply's children bounds each child, is one of them when there are children, and is -inf for no children |
| Scores.MinOfSpec | src/main/java/uk/ac/bris/cs/scotlandyard/ui/ai/MyAi.java:87-97 | the min over a ply's children bounds each child, is one of them when there are children, and is +inf for no children |
| Scores.MaxPlyAdvance | src/main/java/uk/ac/bris/cs/scotlandyard/ui/ai/MyAi.java:76-84 | one iteration of the max loop keeps the running max fail-soft against the max of the children seen, and on a cut against the max of all children |
| Scores.MinPlyAdvance | src/main/java/uk/ac/bris/cs/scotlandyard/ui/ai/MyAi.java:88-96 | the same for the min loop |
| Scores.LexBestInsert | src/main/java/uk/ac/bris/cs/scotlandyard/ui/ai/MyAi.java:49 | folding one candidate into the lexicographic maximum replaces it exactly when the candidate is strictly greater |
| Scores.LexBestIsMaxOf | src/main/java/uk/ac/bris/cs/scotlandyard/ui/ai/MyAi.java:49 | the score of the lexicographic maximum is the maximum score |
| Scores.LexArgMax | src/main/java/uk/ac/bris/cs/scotlandyard/ui/ai/MyAi.java:49 | the element Stream.max over the sorted list returns: no element has a higher score, or an equal score and a higher sort key |
| Distances.Initial | src/main/java/uk/ac/bris/cs/scotlandyard/ui/ai/MyAi.java:284-295 | a cell starts at 1 exactly for an adjacency from a node 1..199, else at 0 |
| Distances.Relax | src/main/java/uk/ac/bris/cs/scotlandyard/ui/ai/MyAi.java:298-304 | every relaxed value lies between 0 and its initial value |
| Distances.RelaxKeepsPivotLines | src/main/java/uk/ac/bris/cs/scotlandyard/ui/ai/MyAi.java:301 | relaxing through k leaves row k and column k unchanged, so reading them in place is sound |
| Distances.Triangle | src/main/java/uk/ac/bris/cs/scotlandyard/ui/ai/MyAi.java:298-304 | after relaxing the intermediates below k, `d[i][j] <= d[i][m] + d[m][j]` for every such m |
| Distances.TriangleStep | src/main/java/uk/ac/bris/cs/scotlandyard/ui/ai/MyAi.java:301 | one relaxation pass keeps the triangle inequality through an earlier intermediate |
| Distances.TrianglePivot | src/main/java/uk/ac/bris/cs/scotlandyard/ui/ai/MyAi.java:301 | right after the pass through p, the triangle inequality through p holds |
| Distances.DiagonalZero | src/main/java/uk/ac/bris/cs/scotlandyard/ui/ai/MyAi.java:283-305 | a diagonal cell ends at 0 unless the node is its own neighbour |
| Distances.Collapse | src/main/java/uk/ac/bris/cs/scotlandyard/ui/ai/MyAi.java:285 | because the table starts at 0, d[i][j] ends at 0 as soon as some node k is neither a neighbour of i nor has j as a neighbour |
| Distances.AdjacencyTable | src/main/java/uk/ac/bris/cs/scotlandyard/ui/ai/MyAi.java:284-295 | the fresh table, zero diagonal and 1 per adjacency give exactly `Initial` in every cell |
| Distances.RelaxThrough | src/main/java/uk/ac/bris/cs/scotlandyard/ui/ai/MyAi.java:299-303 | one pass of the outer loop turns the table relaxed below k into the one relaxed below k+1 |
| Distances.RelaxRow | src/main/java/uk/ac/bris/cs/scotlandyard/ui/ai/MyAi.java:300-302 | the inner loop relaxes row i through k and no other row |
| Boards.EdgeTickets | src/main/java/uk/ac/bris/cs/scotlandyard/ui/ai/MyAi.java:240 | an edge that is not in the graph offers no transport (edgeValueOrDefault with an empty default) |
| Boards.Count | src/main/java/uk/ac/bris/cs/scotlandyard/ui/ai/MyAi.java:241 | a ticket the board does not list counts 0 |
| Boards.Detectives | src/main/java/uk/ac/bris/cs/scotlandyard/ui/ai/MyAi.java:133-134 | the player list without MrX: exactly its detectives, no longer than the list |
| Boards.DetectivesAppend | src/main/java/uk/ac/bris/cs/scotlandyard/ui/ai/MyAi.java:45-46 | the filter keeps the order of the player list: filtering a concatenation concatenates the filtered parts |
| Boards.DetectivesHead | src/main/java/uk/ac/bris/cs/scotlandyard/ui/ai/MyAi.java:133-134 | the first entry of the filtered list, the one evaluateBoard checks for a win, is the first detective of the player list |
| Boards.HypotheticalMoveIff | src/main/java/uk/ac/bris/cs/scotlandyard/ui/ai/MyAi.java:235-272 | a move is generated iff it is a single move of the piece from its location to an unoccupied neighbour, with the required ticket of a transport on that edge, held at a count > 0 |
| Boards.DetectiveMoves | src/main/java/uk/ac/bris/cs/scotlandyard/ui/ai/MyAi.java:227-233 | no moves once there is a winner; otherwise only single moves of that detective from its location |
| Boards.MrXMoves | src/main/java/uk/ac/bris/cs/scotlandyard/ui/ai/MyAi.java:219-225 | no moves once there is a winner; otherwise only single moves of MrX from the given location |
| Boards.SimulateMrXMove | src/main/java/uk/ac/bris/cs/scotlandyard/ui/ai/MyAi.java:208-217 | the projected board keeps everything but the available moves, which are the first remaining detective's |
| Boards.SimulateDetectiveMove | src/main/java/uk/ac/bris/cs/scotlandyard/ui/ai/MyAi.java:185-205 | only the moved detective's location changes, to the move's destination; the next mover's moves are offered (MrX's from x when no detective remains) |
| Boards.DetectiveLocations | src/main/java/uk/ac/bris/cs/scotlandyard/ui/ai/MyAi.java:34-39 | a location is collected iff some detective of the player list stands on it |
| Boards.ReadyAfterMrXMove | src/main/java/uk/ac/bris/cs/scotlandyard/ui/ai/MyAi.java:214 | after MrX's projected move the first detective exists and is located, so the unguarded lookups below stay defined |
| Boards.ReadyAfterDetectiveMove | src/main/java/uk/ac/bris/cs/scotlandyard/ui/ai/MyAi.java:199-202 | after a detective's projected move the next mover is located, or MrX is on a node |
| Evaluation.MinDistance | src/main/java/uk/ac/bris/cs/scotlandyard/ui/ai/MyAi.java:274-281 | at most every table entry to an occupied location, equal to one of them, or Integer.MAX_VALUE with no detective |
| Evaluation.MinDistanceUnique | src/main/java/uk/ac/bris/cs/scotlandyard/ui/ai/MyAi.java:274-281 | those properties determine the minimum distance |
| Evaluation.FreedomScore | src/main/java/uk/ac/bris/cs/scotlandyard/ui/ai/MyAi.java:169-183 | the number of unoccupied neighbours, at most the degree, and 0 when the lookup fails |
| Evaluation.FreeNeighbourCounted | src/main/java/uk/ac/bris/cs/scotlandyard/ui/ai/MyAi.java:174-178 | counting one more neighbour adds one exactly when it is unoccupied |
| Evaluation.EvaluateBoard | src/main/java/uk/ac/bris/cs/scotlandyard/ui/ai/MyAi.java:132-145 | -infinity exactly when the first detective has won; otherwise 20 * distance + 10 * freedom; never +infinity |
| Evaluation.RiskPenaltyApplies | src/main/java/uk/ac/bris/cs/scotlandyard/ui/ai/MyAi.java:160 | the guard holds throughout the first half of the game; later only outside reveal rounds with the source farther than 2 |
| Evaluation.EvaluateMove | src/main/java/uk/ac/bris/cs/scotlandyard/ui/ai/MyAi.java:147-166 | the penalty lies in [-105, 0]; the -30 applies iff the destination was visited; without the guard only -30 can apply; it is 0 iff there is no repeat and no SECRET or double move under the guard |
| Evaluation.OrderingScore | src/main/java/uk/ac/bris/cs/scotlandyard/ui/ai/MyAi.java:45 | the sort key is -infinity exactly on a detective win, never above the board score, and equal to it iff it is -infinity or no penalty applies |
| Evaluation.NoPenaltyInLateRevealRound | src/main/java/uk/ac/bris/cs/scotlandyard/ui/ai/MyAi.java:156-163 | with nothing visited, in a reveal round of the second half, no move is penalised |
| Evaluation.NoPenaltyProjected | src/main/java/uk/ac/bris/cs/scotlandyard/ui/ai/MyAi.java:185-217 | projected boards keep the setup and the log, hence every penalty |
| Evaluation.SimulatedDetectiveMoveKeepsScore | src/main/java/uk/ac/bris/cs/scotlandyard/ui/ai/MyAi.java:185-205 | a simulated detective move never changes the board score, which reads only the real detective locations and the winner set |
| Search.NoPenaltyIsPenaltyFree | src/main/java/uk/ac/bris/cs/scotlandyard/ui/ai/MyAi.java:78 | where no move of the current log length is penalised, no MrX move anywhere in the tree is |
| Search.NoPenaltyRootSafe | src/main/java/uk/ac/bris/cs/scotlandyard/ui/ai/MyAi.java:49 | then every root search of pickMove is exact |
| Search.BestRootMoveIsValue | src/main/java/uk/ac/bris/cs/scotlandyard/ui/ai/MyAi.java:49 | the chosen move realises the minimax value of MrX's ply |
| Search.RootScoresBest | src/main/java/uk/ac/bris/cs/scotlandyard/ui/ai/MyAi.java:49 | a lexicographic best over the computed scores and keys is a BestRootMove wherever every root search is exact |
| Search.KeysComplete | src/main/java/uk/ac/bris/cs/scotlandyard/ui/ai/MyAi.java:45 | once every move has its key, the keys are the ordering scores |
| Search.ScoresComplete | src/main/java/uk/ac/bris/cs/scotlandyard/ui/ai/MyAi.java:49 | once every move is scored by an exact search, the scores are the children's minimax values |
| FugitiveAi.MyAi.constructor | src/main/java/uk/ac/bris/cs/scotlandyard/ui/ai/MyAi.java:19-21 | a fresh AI remembers no location |
| FugitiveAi.MyAi.PrecomputeShortestPaths | src/main/java/uk/ac/bris/cs/scotlandyard/ui/ai/MyAi.java:283-305 | every cell ends as the relaxation prescribes, between 0 and its initial value; zero diagonal for nodes that are not their own neighbour; triangle inequality over 1..199 |
| FugitiveAi.MyAi.CalculateMinDistance | src/main/java/uk/ac/bris/cs/scotlandyard/ui/ai/MyAi.java:274-281 | the loop computes MinDistance |
| FugitiveAi.MyAi.CalculateFreedomScore | src/main/java/uk/ac/bris/cs/scotlandyard/ui/ai/MyAi.java:169-183 | the loop computes FreedomScore |
| FugitiveAi.MyAi.EvaluateBoard | src/main/java/uk/ac/bris/cs/scotlandyard/ui/ai/MyAi.java:132-145 | computes Evaluation.EvaluateBoard |
| FugitiveAi.MyAi.EvaluateMove | src/main/java/uk/ac/bris/cs/scotlandyard/ui/ai/MyAi.java:147-166 | computes Evaluation.EvaluateMove, asking for the distance only when the guard needs it |
| FugitiveAi.MyAi.UpdateVisitedLocations | src/main/java/uk/ac/bris/cs/scotlandyard/ui/ai/MyAi.java:115-130 | adds exactly the move's visited locations and forgets nothing |
| FugitiveAi.MyAi.CollectMoves | src/main/java/uk/ac/bris/cs/scotlandyard/ui/ai/MyAi.java:238-247 | the nested loops build exactly the hypothetical moves |
| FugitiveAi.MyAi.ConstructDetectiveMoves | src/main/java/uk/ac/bris/cs/scotlandyard/ui/ai/MyAi.java:235-249 | the detective's hypothetical moves from its location, with its ticket board |
| FugitiveAi.MyAi.ConstructMrXMoves | src/main/java/uk/ac/bris/cs/scotlandyard/ui/ai/MyAi.java:251-272 | MrX's hypothetical moves from the simulated location |
| FugitiveAi.MyAi.GetDetectiveMoves | src/main/java/uk/ac/bris/cs/scotlandyard/ui/ai/MyAi.java:227-233 | computes Boards.DetectiveMoves |
| FugitiveAi.MyAi.GetMrXMoves | src/main/java/uk/ac/bris/cs/scotlandyard/ui/ai/MyAi.java:219-225 | computes Boards.MrXMoves |
| FugitiveAi.MyAi.MiniMax | src/main/java/uk/ac/bris/cs/scotlandyard/ui/ai/MyAi.java:55-99 | the board score at depth 0 or on a winner; -inf / +inf for a max / min ply without moves; on a PenaltyFree tree fail-soft against plain minimax in every window, and equal to it in the full window |
| FugitiveAi.MyAi.MaxPly | src/main/java/uk/ac/bris/cs/scotlandyard/ui/ai/MyAi.java:74-85 | -inf without moves; fail-soft against the max of MrX's children |
| FugitiveAi.MyAi.MaxPlyChild | src/main/java/uk/ac/bris/cs/scotlandyard/ui/ai/MyAi.java:77-83 | one loop iteration keeps the running max fail-soft, or ends the ply on a cut with a result fail-soft against all children |
| FugitiveAi.MyAi.MinPly | src/main/java/uk/ac/bris/cs/scotlandyard/ui/ai/MyAi.java:86-98 | +inf without moves; fail-soft against the min of the detective's children |
| FugitiveAi.MyAi.MinPlyChild | src/main/java/uk/ac/bris/cs/scotlandyard/ui/ai/MyAi.java:89-95 | the same for one iteration of the min loop |
| FugitiveAi.MyAi.SearchMrXChild | src/main/java/uk/ac/bris/cs/scotlandyard/ui/ai/MyAi.java:77-78 | the projected board searched one ply shallower plus the penalty is fail-soft against the child's value |
| FugitiveAi.MyAi.SearchDetectiveChild | src/main/java/uk/ac/bris/cs/scotlandyard/ui/ai/MyAi.java:89-90 | the same for a detective's move |
| FugitiveAi.MyAi.ScoreRootMove | src/main/java/uk/ac/bris/cs/scotlandyard/ui/ai/MyAi.java:45-49 | a root move's score is its child's minimax value where its search is exact; its key is the ordering score |
| FugitiveAi.MyAi.ScoreAll | src/main/java/uk/ac/bris/cs/scotlandyard/ui/ai/MyAi.java:49 | the map step of the stream: keys are the ordering scores; with exact searches, scores are the children's values |
| FugitiveAi.MyAi.ScoreNext | src/main/java/uk/ac/bris/cs/scotlandyard/ui/ai/MyAi.java:49 | scoring one more move keeps both maps correct |
| FugitiveAi.MyAi.SelectBest | src/main/java/uk/ac/bris/cs/scotlandyard/ui/ai/MyAi.java:43-49 | for every input: the keys are the ordering scores, every available move is scored, and the returned move is available with no move of higher score nor of equal score and higher key; with exact searches the scores are the children's minimax values |
| FugitiveAi.MyAi.CollectDetectiveLocations | src/main/java/uk/ac/bris/cs/scotlandyard/ui/ai/MyAi.java:32-37 | the loop collects exactly the locations of the detectives the board places, each a node id below 200 |
| FugitiveAi.MyAi.ChooseAndRemember | src/main/java/uk/ac/bris/cs/scotlandyard/ui/ai/MyAi.java:49-51 | the chosen move is available and a BestRootMove for the knowledge it was chosen on, where every root search is exact; visited grows by exactly its locations |
| FugitiveAi.MyAi.PickMove | src/main/java/uk/ac/bris/cs/scotlandyard/ui/ai/MyAi.java:32-53 | occupied becomes the real detective locations and the table the relaxed one; the move is available and a BestRootMove for what the AI knew before it; visited grows by exactly that move's locations |

## Left out

- Concurrency: the parallel stream of pickMove is modelled as a sequential scan. Each root search reads state that nothing writes while the searches run, so their order cannot matter.
- Floating point: scores are exact integers extended with the two infinities. Every finite score is an integer combination of small constants, table entries and `Integer.MAX_VALUE`, and a double holds all of these exactly. No NaN can arise, because only finite penalties are ever added to an infinity.
- The host game model: the Guava graph, `ImmutableSet`, `Board`, `GameSetup`, `TicketBoard` and the travel log are abstracted.
  - The graph is an adjacency map, and an edge's transports are the set of tickets they require.
  - Tickets are counts; the log is its length; the reveal rounds are a sequence of booleans.
  - The winner set is an input: deciding the winner belongs to the game model, which is not part of this model.
- The real moves a board offers are an input (`available`). Their legality is the game model's business.
- The time budget of pickMove and `name()`: neither holds any logic.
- Iteration order of the `PriorityQueue` in miniMax and of the hash sets: candidates are taken in an arbitrary order (`:|`), and the contracts hold for every order. On a `PenaltyFree` tree the order affects only how much is pruned. Elsewhere it can change the result: the penalty of a MrX move is added after the child search returns, so a cut below that child can return a value that differs from plain minimax, and which cut happens depends on the order. That is why the MiniMax, MaxPly and MinPly contracts say nothing about such trees.
- Ties between root moves whose score and sort key are both equal: the source keeps the one that `getAvailableMoves` lists first. The model keeps one of them without saying which.
- The `catch (Exception)` of calculateFreedomScore: modelled as "x is not a node of the graph, so 0".
- The static `players` field: it is passed explicitly as a sequence. MrX is the `MrX` piece, so the search of the player list for MrX is not modelled.
- The constructor: the source leaves the table unset until the first decision; the model starts with an all-zero table.
- Unguarded lookups become preconditions:
  - node ids below 200;
  - detective locations and ticket boards present;
  - at least one detective;
  - a reveal-round entry for the current log length;
  - every id 1..199 is a node of the graph (`adjacentNodes` throws an `IllegalArgumentException` for a missing node);
  - a non-empty move list at the root.
- FugitiveAi.MyAi.MiniMax: the exact-minimax guarantee is stated only where the tree is `PenaltyFree`. The source adds a move's penalty after searching the child in the unshifted window, so with non-zero penalties pruning can differ from plain minimax.
- FugitiveAi.MyAi.MaxPly: fail-soft only on a `PenaltyFree` tree, for the same reason.
- FugitiveAi.MyAi.MinPly: fail-soft only on a `PenaltyFree` tree, for the same reason.
- FugitiveAi.MyAi.SelectBest: the move is proved best by minimax value only where every root search is exact (`Search.RootSafe`, which `Search.NoPenaltyRootSafe` supplies). Elsewhere it is proved the lexicographic best over the scores the searches return, but those scores are not tied to a specification value.
- FugitiveAi.MyAi.ChooseAndRemember: the choice is proved best under the same condition as SelectBest.
- FugitiveAi.MyAi.PickMove: the choice is proved best under the same condition as SelectBest, and it does not expose the computed scores.
