/**
 * The fugitive AI (MyAi): the object keeps the locations it has really moved
 * to, the distance table and the real detective locations of the current
 * decision; it scores boards and moves, generates hypothetical moves, and
 * chooses a move by depth-bounded alpha-beta search over projected boards.
 */
module FugitiveAi {
  import opened Sets
  import opened Moves
  import opened Scores
  import opened Boards
  import Distances
  import Evaluation
  import Search

  /** The search depth of a decision, counted from the fugitive's own move. */
  const MaxDepth: nat := 7

  class MyAi {
    /** alreadyVisitedLocations: where the fugitive really moved in past turns. */
    var visited: set<int>
    /** The distance table of the current decision. */
    var shortestPaths: array2<int>
    /** The real detective locations of the current decision. */
    var occupied: set<int>

    ghost predicate Valid()
      reads this
    {
      && shortestPaths.Length0 == Distances.Size && shortestPaths.Length1 == Distances.Size
      && forall l :: l in occupied ==> 0 <= l < Distances.Size
    }

    /** A fresh agent remembers no location. The source leaves the table unset
        until the first decision; here it starts as an all-zero table. */
    constructor ()
      ensures Valid() && visited == {} && occupied == {}
    {
      visited := {};
      occupied := {};
      shortestPaths := new int[Distances.Size, Distances.Size]((i, j) => 0);
    }

    /** precomputeShortestPaths: a fresh zero table, 1 for each adjacency of
        the nodes 1..199, then Floyd-Warshall relaxation in place over 1..199.
        Every cell ends as the relaxation recurrence prescribes; hence it lies
        between 0 and its initial 0/1 value, the diagonal is 0 for nodes that
        are not their own neighbour, and the triangle inequality holds over
        1..199. */
    method PrecomputeShortestPaths(setup: Setup)
      requires Distances.InTable(setup.graph)
      requires forall i :: 1 <= i < Distances.Size ==> i in setup.graph
      requires Valid()
      modifies this`shortestPaths
      ensures fresh(shortestPaths) && Valid()
      ensures visited == old(visited) && occupied == old(occupied)
      ensures forall i, j :: 0 <= i < Distances.Size && 0 <= j < Distances.Size ==>
        shortestPaths[i, j] == Distances.Relax(setup.graph, Distances.Size, i, j)
      ensures forall i, j :: 0 <= i < Distances.Size && 0 <= j < Distances.Size ==>
        0 <= shortestPaths[i, j] <= Distances.Initial(setup.graph, i, j)
      ensures forall i :: 0 <= i < Distances.Size && (i == 0 || i !in setup.graph[i]) ==>
        shortestPaths[i, i] == 0
      ensures forall i, j, k :: 1 <= i < Distances.Size && 1 <= j < Distances.Size && 1 <= k < Distances.Size ==>
        shortestPaths[i, j] <= shortestPaths[i, k] + shortestPaths[k, j]
    {
      var g := setup.graph;
      var sp := Distances.AdjacencyTable(g);
      for k := 1 to Distances.Size
        invariant Distances.RelaxedUpTo(g, sp, k)
      {
        Distances.RelaxThrough(g, sp, k);
      }
      var n := Distances.Size;
      shortestPaths := sp;
      forall i, j, k | 1 <= i < n && 1 <= j < n && 1 <= k < n
        ensures sp[i, j] <= sp[i, k] + sp[k, j]
      {
        Distances.Triangle(g, n, i, j, k);
      }
    }

    /** What the AI knows right now, as a value: the specification functions
        of Evaluation and Search are stated over it. */
    ghost function K(): (k: Evaluation.Knowledge)
      reads this, shortestPaths
      requires Valid()
      ensures Evaluation.Sized(k) && k.visited == visited && k.occupied == occupied
      ensures forall i, j :: 0 <= i < Distances.Size && 0 <= j < Distances.Size ==>
        k.table[i][j] == shortestPaths[i, j]
    {
      Evaluation.Knowledge(visited, occupied, Distances.Snapshot(shortestPaths))
    }

    /** calculateMinDistance: a running Math.min over the occupied locations,
        starting from Integer.MAX_VALUE. */
    method CalculateMinDistance(x: int) returns (r: int)
      requires Valid() && 0 <= x < Distances.Size
      ensures r == Evaluation.MinDistance(K(), x)
    {
      r := Evaluation.IntMax;
      var todo := occupied;
      while todo != {}
        invariant todo <= occupied
        invariant r <= Evaluation.IntMax
        invariant forall l :: l in occupied && l !in todo ==> r <= shortestPaths[x, l]
        invariant r == Evaluation.IntMax || exists l :: l in occupied && l !in todo && r == shortestPaths[x, l]
        decreases todo
      {
        IntSetHasElement(todo);
        var detectiveLocation :| detectiveLocation in todo;
        var distance := shortestPaths[x, detectiveLocation];
        r := if distance < r then distance else r;
        todo := todo - {detectiveLocation};
      }
      Evaluation.MinDistanceUnique(K(), x, r);
    }

    /** calculateFreedomScore: counts the unoccupied neighbours one by one, or
        gives 0 when x is not a node. */
    method CalculateFreedomScore(b: Board, x: int) returns (r: nat)
      requires Valid()
      ensures r == Evaluation.FreedomScore(K(), b, x)
    {
      if x !in b.setup.graph {
        return 0;
      }
      var neighbours := b.setup.graph[x];
      r := 0;
      var todo := neighbours;
      while todo != {}
        invariant todo <= neighbours
        invariant r == |(neighbours - todo) - occupied|
        decreases todo
      {
        IntSetHasElement(todo);
        var neighbour :| neighbour in todo;
        Evaluation.FreeNeighbourCounted(neighbours, todo, occupied, neighbour);
        if neighbour !in occupied {
          r := r + 1;
        }
        todo := todo - {neighbour};
      }
      assert neighbours - todo == neighbours;
    }

    /** evaluateBoard: -infinity when the first detective has won, otherwise
        20 per unit of distance to the nearest detective plus 10 per free
        neighbour of x. */
    method EvaluateBoard(b: Board, players: seq<Piece>, x: int) returns (r: Score)
      requires Valid() && 0 <= x < Distances.Size && Detectives(players) != []
      ensures r == Evaluation.EvaluateBoard(K(), b, players, x)
    {
      var detectives := Detectives(players);
      if detectives[0] in b.winner {
        return NegInf;
      }
      var minDistance := CalculateMinDistance(x);
      var freedomScore := CalculateFreedomScore(b, x);
      r := Fin(minDistance * 20 + freedomScore * 10);
    }

    /** evaluateMove: the repeated-destination penalty, then the SECRET and
        double-move penalties when the risk guard holds; the distance is only
        computed when the guard needs it. */
    method EvaluateMove(b: Board, m: Move) returns (r: int)
      requires Valid() && 0 <= m.source < Distances.Size && b.logSize < |b.setup.rounds|
      ensures r == Evaluation.EvaluateMove(K(), b, m)
    {
      r := 0;
      if Destination(m) in visited {
        r := r + Evaluation.RepeatedMovePenalty;
      }
      var risky := b.logSize < |b.setup.rounds| / 2;
      if !risky && !b.setup.rounds[b.logSize] {
        var minDistance := CalculateMinDistance(m.source);
        risky := minDistance > 2;
      }
      if risky {
        r := r + if FirstTicket(m) == Secret then Evaluation.SecretMovePenalty else 0;
        r := r + if m.DoubleMove? then Evaluation.DoubleMovePenalty else 0;
      }
    }

    /** updateVisitedLocations: remembers the destination of a single move, or
        both destinations of a double move; nothing is forgotten. */
    method UpdateVisitedLocations(m: Move)
      modifies this`visited
      ensures visited == old(visited) + Visits(m)
    {
      match m
      case SingleMove(_, _, _, d) =>
        visited := visited + {d};
      case DoubleMove(_, _, _, d1, _, d2) =>
        visited := visited + {d1};
        visited := visited + {d2};
    }

    /** The loop shared by constructDetectiveMoves and constructMrXMoves: for
        each unoccupied neighbour, for each transport on the edge, a single move
        when the piece holds the required ticket. */
    method CollectMoves(piece: Piece, src: int, setup: Setup, tb: map<Ticket, int>)
      returns (moves: set<Move>)
      requires src in setup.graph
      ensures moves == HypotheticalMoves(setup, tb, piece, src, occupied)
    {
      moves := {};
      var todo := setup.graph[src];
      while todo != {}
        invariant todo <= setup.graph[src]
        invariant moves == MovesVia(setup, tb, piece, src, occupied, setup.graph[src] - todo)
        decreases todo
      {
        IntSetHasElement(todo);
        var destination :| destination in todo;
        ghost var done := setup.graph[src] - todo;
        MovesViaStep(setup, tb, piece, src, occupied, done, destination);
        if destination !in occupied {
          var transports := EdgeTickets(setup, src, destination);
          var ts := transports;
          while ts != {}
            invariant ts <= transports
            invariant moves == MovesVia(setup, tb, piece, src, occupied, done)
                               + MovesTo(setup, tb, piece, src, destination, transports - ts)
            decreases ts
          {
            SetHasElement(ts);
            var t :| t in ts;
            MovesToStep(setup, tb, piece, src, destination, transports - ts, t);
            if Count(tb, t) > 0 {
              moves := moves + {SingleMove(piece, src, t, destination)};
            }
            assert transports - (ts - {t}) == (transports - ts) + {t};
            ts := ts - {t};
          }
          assert transports - ts == transports;
          assert MovesTo(setup, tb, piece, src, destination, transports)
              == MovesTo(setup, tb, piece, src, destination, EdgeTickets(setup, src, destination));
        }
        assert setup.graph[src] - (todo - {destination}) == done + {destination};
        todo := todo - {destination};
      }
      assert setup.graph[src] - todo == setup.graph[src];
    }

    /** constructDetectiveMoves: the detective's hypothetical moves from its
        current location, with its own ticket board. */
    method ConstructDetectiveMoves(currentLocation: int, detective: Piece, setup: Setup, b: Board)
      returns (moves: set<Move>)
      requires currentLocation in setup.graph && detective in b.tickets
      ensures moves == HypotheticalMoves(setup, b.tickets[detective], detective, currentLocation, occupied)
    {
      moves := CollectMoves(detective, currentLocation, setup, b.tickets[detective]);
    }

    /** constructMrXMoves: MrX's hypothetical moves from the simulated location. */
    method ConstructMrXMoves(currentLocation: int, setup: Setup, b: Board) returns (moves: set<Move>)
      requires currentLocation in setup.graph && MrX in b.tickets
      ensures moves == HypotheticalMoves(setup, b.tickets[MrX], MrX, currentLocation, occupied)
    {
      moves := CollectMoves(MrX, currentLocation, setup, b.tickets[MrX]);
    }

    /** getDetectiveMoves: no moves once there is a winner. */
    method GetDetectiveMoves(b: Board, detective: Piece) returns (moves: set<Move>)
      requires Located(b, detective)
      ensures moves == DetectiveMoves(b, detective, occupied)
    {
      if b.winner != {} {
        return {};
      }
      moves := ConstructDetectiveMoves(b.locations[detective], detective, b.setup, b);
    }

    /** getMrXMoves: no moves once there is a winner. */
    method GetMrXMoves(b: Board, source: int) returns (moves: set<Move>)
      requires MrX in b.tickets && source in b.setup.graph
      ensures moves == MrXMoves(b, source, occupied)
    {
      if b.winner != {} {
        return {};
      }
      moves := ConstructMrXMoves(source, b.setup, b);
    }

    /** miniMax: fail-soft alpha-beta over the projected boards. MrX moves
        when no detective remains in the round, otherwise the first remaining
        detective. Where the tree is PenaltyFree the result meets the
        fail-soft contract against Value in every non-empty window, so it is
        the exact minimax value in the full window. */
    method MiniMax(ghost k: Evaluation.Knowledge, b: Board, players: seq<Piece>, x: int, depth: nat, alpha: Score, beta: Score,
                   remaining: seq<Piece>) returns (r: Score)
      requires Valid() && Ready(b, players, x, remaining)
      requires k == K()
      decreases depth, 3
      ensures depth == 0 || b.winner != {} ==> r == Evaluation.EvaluateBoard(k, b, players, x)
      ensures depth > 0 && b.winner == {} && b.available == {} ==>
        r == if remaining == [] then NegInf else PosInf
      ensures Search.PenaltyFree(k, b, players, x, depth, remaining) && Lt(alpha, beta) ==>
        FailSoft(r, alpha, beta, Search.Value(k, b, players, x, depth, remaining))
      ensures Search.PenaltyFree(k, b, players, x, depth, remaining) && alpha == NegInf && beta == PosInf ==>
        r == Search.Value(k, b, players, x, depth, remaining)
    {
      if depth == 0 || b.winner != {} {
        r := EvaluateBoard(b, players, x);
      } else if remaining == [] {
        r := MaxPly(k, b, players, x, depth, alpha, beta);
      } else {
        r := MinPly(k, b, players, x, depth, alpha, beta, remaining);
      }
      if Search.PenaltyFree(k, b, players, x, depth, remaining) && alpha == NegInf && beta == PosInf {
        FailSoftFullWindow(r, Search.Value(k, b, players, x, depth, remaining));
      }
    }

    /** MrX's ply of miniMax: the largest child, each child being the
        projected board searched one ply shallower plus the move's penalty;
        alpha rises with every child and the ply stops once alpha >= beta. */
    method MaxPly(ghost k: Evaluation.Knowledge, b: Board, players: seq<Piece>, x: int, depth: nat, alpha: Score, beta: Score)
      returns (r: Score)
      requires Valid() && Ready(b, players, x, []) && depth > 0 && b.winner == {}
      requires k == K()
      decreases depth, 2
      ensures b.available == {} ==> r == NegInf
      ensures Search.PenaltyFree(k, b, players, x, depth, []) && Lt(alpha, beta) ==>
        FailSoft(r, alpha, beta, MaxOf(Search.MrXChildren(k, b, players, depth), b.available))
    {
      ghost var sound := Search.PenaltyFree(k, b, players, x, depth, []) && Lt(alpha, beta);
      ghost var children := Search.MrXChildren(k, b, players, depth);
      var nextRemaining := Detectives(players);
      var maxEval := NegInf;
      var a := alpha;
      var todo := b.available;
      ghost var done: set<Move> := {};
      while todo != {}
        invariant todo + done == b.available && todo !! done
        invariant a == Max(alpha, maxEval)
        invariant done == {} ==> maxEval == NegInf
        invariant sound ==> Lt(a, beta) && FailSoft(maxEval, alpha, beta, MaxOf(children, done))
        decreases todo
      {
        SetHasElement(todo);
        var m :| m in todo;
        var eval := MaxPlyChild(k, b, players, x, depth, alpha, beta, a, maxEval, done, nextRemaining, m);
        maxEval := Max(maxEval, eval);
        a := Max(a, eval);
        done := done + {m};
        todo := todo - {m};
        if Le(beta, a) {
          return maxEval;
        }
      }
      r := maxEval;
      assert done == b.available;
    }

    /** One turn of MaxPly's loop: MrX's move m searched in the window
        (a, beta), folded into what the ply has seen of the moves in done. */
    method MaxPlyChild(ghost k: Evaluation.Knowledge, b: Board, players: seq<Piece>, x: int, depth: nat,
                       alpha: Score, beta: Score, a: Score, maxEval: Score, ghost done: set<Move>,
                       nextRemaining: seq<Piece>, m: Move) returns (eval: Score)
      requires Valid() && Ready(b, players, x, []) && depth > 0 && b.winner == {}
      requires k == K()
      requires nextRemaining == Detectives(players)
      requires m in b.available && done <= b.available && m !in done && a == Max(alpha, maxEval)
      requires Search.PenaltyFree(k, b, players, x, depth, []) && Lt(alpha, beta) ==>
        Lt(a, beta) && FailSoft(maxEval, alpha, beta, MaxOf(Search.MrXChildren(k, b, players, depth), done))
      decreases depth, 1
      ensures Search.PenaltyFree(k, b, players, x, depth, []) && Lt(alpha, beta) ==>
        && (!Le(beta, Max(a, eval)) ==>
              FailSoft(Max(maxEval, eval), alpha, beta, MaxOf(Search.MrXChildren(k, b, players, depth), done + {m})))
        && (Le(beta, Max(a, eval)) ==>
              FailSoft(Max(maxEval, eval), alpha, beta, MaxOf(Search.MrXChildren(k, b, players, depth), b.available)))
    {
      eval := SearchMrXChild(k, b, players, x, depth, a, beta, nextRemaining, m);
      if Search.PenaltyFree(k, b, players, x, depth, []) && Lt(alpha, beta) {
        var children := Search.MrXChildren(k, b, players, depth);
        assert children[m] == Search.MrXChild(k, b, players, depth, m);
        MaxPlyAdvance(children, b.available, alpha, beta, maxEval, done, m, eval);
      }
    }

    /** A detective's ply of miniMax: the smallest child; beta falls with
        every child and the ply stops once beta <= alpha. */
    method MinPly(ghost k: Evaluation.Knowledge, b: Board, players: seq<Piece>, x: int, depth: nat, alpha: Score, beta: Score,
                  remaining: seq<Piece>) returns (r: Score)
      requires Valid() && Ready(b, players, x, remaining) && remaining != [] && depth > 0 && b.winner == {}
      requires k == K()
      decreases depth, 2
      ensures b.available == {} ==> r == PosInf
      ensures Search.PenaltyFree(k, b, players, x, depth, remaining) && Lt(alpha, beta) ==>
        FailSoft(r, alpha, beta, MinOf(Search.DetectiveChildren(k, b, players, x, depth, remaining), b.available))
    {
      ghost var sound := Search.PenaltyFree(k, b, players, x, depth, remaining) && Lt(alpha, beta);
      ghost var children := Search.DetectiveChildren(k, b, players, x, depth, remaining);
      var minEval := PosInf;
      var bt := beta;
      var todo := b.available;
      ghost var done: set<Move> := {};
      while todo != {}
        invariant todo + done == b.available && todo !! done
        invariant bt == Min(beta, minEval)
        invariant done == {} ==> minEval == PosInf
        invariant sound ==> Lt(alpha, bt) && FailSoft(minEval, alpha, beta, MinOf(children, done))
        decreases todo
      {
        SetHasElement(todo);
        var m :| m in todo;
        var eval := MinPlyChild(k, b, players, x, depth, remaining, alpha, beta, bt, minEval, done, m);
        minEval := Min(minEval, eval);
        bt := Min(bt, eval);
        done := done + {m};
        todo := todo - {m};
        if Le(bt, alpha) {
          return minEval;
        }
      }
      r := minEval;
      assert done == b.available;
    }

    /** One turn of MinPly's loop: the detective's move m searched in the
        window (alpha, bt), folded into what the ply has seen of the moves in done. */
    method MinPlyChild(ghost k: Evaluation.Knowledge, b: Board, players: seq<Piece>, x: int, depth: nat, remaining: seq<Piece>,
                       alpha: Score, beta: Score, bt: Score, minEval: Score, ghost done: set<Move>, m: Move) returns (eval: Score)
      requires Valid() && Ready(b, players, x, remaining) && remaining != [] && depth > 0 && b.winner == {}
      requires k == K()
      requires m in b.available && done <= b.available && m !in done && bt == Min(beta, minEval)
      requires Search.PenaltyFree(k, b, players, x, depth, remaining) && Lt(alpha, beta) ==>
        Lt(alpha, bt) && FailSoft(minEval, alpha, beta, MinOf(Search.DetectiveChildren(k, b, players, x, depth, remaining), done))
      decreases depth, 1
      ensures Search.PenaltyFree(k, b, players, x, depth, remaining) && Lt(alpha, beta) ==>
        && (!Le(Min(bt, eval), alpha) ==>
              FailSoft(Min(minEval, eval), alpha, beta, MinOf(Search.DetectiveChildren(k, b, players, x, depth, remaining), done + {m})))
        && (Le(Min(bt, eval), alpha) ==>
              FailSoft(Min(minEval, eval), alpha, beta, MinOf(Search.DetectiveChildren(k, b, players, x, depth, remaining), b.available)))
    {
      eval := SearchDetectiveChild(k, b, players, x, depth, remaining, alpha, bt, m);
      if Search.PenaltyFree(k, b, players, x, depth, remaining) && Lt(alpha, beta) {
        var children := Search.DetectiveChildren(k, b, players, x, depth, remaining);
        assert children[m] == Search.DetectiveChild(k, b, players, x, depth, remaining, m);
        MinPlyAdvance(children, b.available, alpha, beta, minEval, done, m, eval);
      }
    }

    /** One child of MrX's ply: the board projected by m searched one ply
        shallower in the window (a, beta), plus the move's penalty. */
    method SearchMrXChild(ghost k: Evaluation.Knowledge, b: Board, players: seq<Piece>, x: int, depth: nat, a: Score, beta: Score,
                          nextRemaining: seq<Piece>, m: Move) returns (eval: Score)
      requires Valid() && Ready(b, players, x, []) && depth > 0 && b.winner == {} && m in b.available
      requires k == K()
      requires nextRemaining == Detectives(players)
      decreases depth, 0
      ensures Search.PenaltyFree(k, b, players, x, depth, []) && Lt(a, beta) ==>
        FailSoft(eval, a, beta, Search.MrXChild(k, b, players, depth, m))
    {
      ReadyAfterMrXMove(b, players, m, occupied);
      var simulated := SimulateMrXMove(nextRemaining, b, occupied);
      var e := MiniMax(k, simulated, players, Destination(m), depth - 1, a, beta, nextRemaining);
      var penalty := EvaluateMove(b, m);
      eval := Add(e, penalty);
      if Search.PenaltyFree(k, b, players, x, depth, []) && Lt(a, beta) {
        assert Evaluation.EvaluateMove(k, b, m) == 0 && Search.MrXMoveSafe(k, b, players, depth, m);
      }
    }

    /** One child of a detective's ply: the board projected by m searched one
        ply shallower in the window (alpha, bt). */
    method SearchDetectiveChild(ghost k: Evaluation.Knowledge, b: Board, players: seq<Piece>, x: int, depth: nat, remaining: seq<Piece>,
                                alpha: Score, bt: Score, m: Move) returns (eval: Score)
      requires Valid() && Ready(b, players, x, remaining) && remaining != [] && depth > 0 && b.winner == {}
      requires k == K()
      requires m in b.available
      decreases depth, 0
      ensures Search.PenaltyFree(k, b, players, x, depth, remaining) && Lt(alpha, bt) ==>
        FailSoft(eval, alpha, bt, Search.DetectiveChild(k, b, players, x, depth, remaining, m))
    {
      ReadyAfterDetectiveMove(b, players, x, remaining, m, occupied);
      var simulated := SimulateDetectiveMove(remaining[0], remaining[1..], x, b, m, occupied);
      eval := MiniMax(k, simulated, players, x, depth - 1, alpha, bt, remaining[1..]);
      if Search.PenaltyFree(k, b, players, x, depth, remaining) && Lt(alpha, bt) {
        assert Search.DetectiveMoveSafe(k, b, players, x, depth, remaining, m);
      }
    }
  
    /** The two numbers pickMove computes for MrX's move m: the board it
        projects searched in the full window one ply shallower, plus the
        move's penalty; and the score the moves are sorted by. */
    method ScoreRootMove(ghost k: Evaluation.Knowledge, b: Board, players: seq<Piece>, depth: nat, m: Move)
      returns (score: Score, key: Score)
      requires Valid() && k == K() && BoardReady(b, players, []) && depth > 0 && m in b.available
      ensures Search.MrXMoveSafe(k, b, players, depth, m) ==> score == Search.MrXChild(k, b, players, depth, m)
      ensures key == Evaluation.OrderingScore(k, b, players, m)
    {
      var pieces := Detectives(players);
      ReadyAfterMrXMove(b, players, m, occupied);
      var simulated := SimulateMrXMove(pieces, b, occupied);
      var destination := Destination(m);
      var e := MiniMax(k, simulated, players, destination, depth - 1, NegInf, PosInf, pieces);
      var penalty := EvaluateMove(b, m);
      score := Add(e, penalty);
      var boardScore := EvaluateBoard(b, players, destination);
      key := Add(boardScore, penalty);
    }

    /** The map step of pickMove's stream: every available move with its
        score and its ordering score. Where every root search is exact, the
        scores are the values of MrX's children. */
    method ScoreAll(ghost k: Evaluation.Knowledge, b: Board, players: seq<Piece>, depth: nat)
      returns (scores: map<Move, Score>, keys: map<Move, Score>)
      requires Valid() && k == K() && BoardReady(b, players, []) && depth > 0
      ensures Search.RootScores(k, b, players, depth, scores, keys)
    {
      scores, keys := map[], map[];
      var todo := b.available;
      while todo != {}
        invariant todo <= b.available && keys.Keys == b.available - todo
        invariant Search.Scored(k, b, players, depth, scores, keys)
        decreases todo
      {
        SetHasElement(todo);
        var m :| m in todo;
        scores, keys := ScoreNext(k, b, players, depth, scores, keys, m);
        todo := todo - {m};
      }
      Search.KeysComplete(k, b, players, keys);
      if Search.RootSafe(k, b, players, depth) {
        Search.ScoresComplete(k, b, players, depth, scores);
      }
    }

    /** One element of the stream: m scored and added to both maps. */
    method ScoreNext(ghost k: Evaluation.Knowledge, b: Board, players: seq<Piece>, depth: nat,
                     scores: map<Move, Score>, keys: map<Move, Score>, m: Move)
      returns (scores': map<Move, Score>, keys': map<Move, Score>)
      requires Valid() && k == K() && BoardReady(b, players, []) && depth > 0 && m in b.available
      requires Search.Scored(k, b, players, depth, scores, keys)
      ensures keys'.Keys == keys.Keys + {m}
      ensures Search.Scored(k, b, players, depth, scores', keys')
    {
      var score, key := ScoreRootMove(k, b, players, depth, m);
      scores', keys' := scores[m := score], keys[m := key];
    }

    /** The choice of pickMove: the move of highest score, ties going to the
        move that sorts first, i.e. of highest ordering score. The scores are
        those the searches return, so the choice is always the lexicographic
        best over them; where every root search is exact, that is a BestRootMove. */
    method SelectBest(ghost k: Evaluation.Knowledge, b: Board, players: seq<Piece>, depth: nat)
      returns (best: Move, ghost scores: map<Move, Score>, ghost keys: map<Move, Score>)
      requires Valid() && k == K() && BoardReady(b, players, []) && depth > 0 && b.available != {}
      ensures Search.RootScores(k, b, players, depth, scores, keys)
      ensures best in b.available && LexBest(scores, keys, b.available, scores[best], keys[best])
    {
      var searched, ordering := ScoreAll(k, b, players, depth);
      best := LexArgMax(searched, ordering, b.available);
      scores, keys := searched, ordering;
    }

    /** The loop at the head of pickMove: the location of every detective of
        the player list that the board places, each a node id below 200. */
    method CollectDetectiveLocations(b: Board, players: seq<Piece>) returns (locations: set<int>)
      requires BoardReady(b, players, [])
      ensures locations == DetectiveLocations(b, players)
      ensures forall l :: l in locations ==> 0 <= l < Distances.Size
    {
      locations := {};
      for i := 0 to |players|
        invariant locations == DetectiveLocations(b, players[..i])
      {
        var piece := players[i];
        if piece.Detective? && piece in b.locations {
          locations := locations + {b.locations[piece]};
        }
        assert players[..i + 1][..i] == players[..i];
      }
      assert players[..|players|] == players;
      forall l | l in locations ensures 0 <= l < Distances.Size {
        var d :| d in players && d.Detective? && d in b.locations && b.locations[d] == l;
        assert Located(b, d);
      }
    }

    /** The end of pickMove: choose the move on what the AI knows now, then
        remember the locations it leads to. */
    method ChooseAndRemember(ghost k: Evaluation.Knowledge, b: Board, players: seq<Piece>) returns (best: Move)
      requires Valid() && k == K() && BoardReady(b, players, []) && b.available != {}
      modifies this`visited
      ensures best in b.available && visited == old(visited) + Visits(best)
      ensures Search.RootSafe(k, b, players, MaxDepth) ==> Search.BestRootMove(k, b, players, MaxDepth, best)
    {
      ghost var scores, keys;
      best, scores, keys := SelectBest(k, b, players, MaxDepth);
      Search.RootScoresBest(k, b, players, MaxDepth, scores, keys, best);
      UpdateVisitedLocations(best);
    }

    /** pickMove: collect the real detective locations, rebuild the distance
        table from the board's graph, choose the move, and remember where it
        leads. The search runs on what the AI knew before this move. */
    method PickMove(b: Board, players: seq<Piece>) returns (best: Move)
      requires Valid() && BoardReady(b, players, []) && b.available != {}
      requires forall i :: 1 <= i < Distances.Size ==> i in b.setup.graph
      modifies this`occupied, this`shortestPaths, this`visited
      ensures Valid() && fresh(shortestPaths)
      ensures occupied == DetectiveLocations(b, players)
      ensures forall i, j :: 0 <= i < Distances.Size && 0 <= j < Distances.Size ==>
        shortestPaths[i, j] == Distances.Relax(b.setup.graph, Distances.Size, i, j)
      ensures best in b.available && visited == old(visited) + Visits(best)
      ensures Search.RootSafe(K().(visited := old(visited)), b, players, MaxDepth) ==>
        Search.BestRootMove(K().(visited := old(visited)), b, players, MaxDepth, best)
    {
      occupied := CollectDetectiveLocations(b, players);
      PrecomputeShortestPaths(b.setup);
      ghost var k := K();
      best := ChooseAndRemember(k, b, players);
      assert K().(visited := old(visited)) == k;
    }
  }
}
