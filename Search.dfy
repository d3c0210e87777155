/**
 * The value the fugitive AI's search computes, as a specification: plain
 * minimax over the projected boards, MrX maximising and each detective in
 * turn minimising, with the move penalty added to every MrX child and the
 * board score at the leaves. The alpha-beta method in FugitiveAi is proved
 * against it; the lemmas here are the steps of that proof.
 */
module Search {
  import opened Moves
  import opened Scores
  import opened Boards
  import opened Evaluation
  import Distances

  /** The minimax value of a board: the board score at depth 0 or once there
      is a winner, otherwise the best child for MrX (no piece left to move
      in this round) or the worst child for the next detective. */
  ghost function Value(k: Knowledge, b: Board, players: seq<Piece>, x: int, depth: nat, remaining: seq<Piece>): Score
    requires Sized(k) && Ready(b, players, x, remaining)
    decreases depth, 2
  {
    if depth == 0 || b.winner != {} then EvaluateBoard(k, b, players, x)
    else if remaining == [] then MaxOf(MrXChildren(k, b, players, depth), b.available)
    else MinOf(DetectiveChildren(k, b, players, x, depth, remaining), b.available)
  }

  /** The value of MrX's move m: the projected board for the detectives,
      searched one ply shallower, plus the move's penalty. */
  ghost function MrXChild(k: Knowledge, b: Board, players: seq<Piece>, depth: nat, m: Move): Score
    requires Sized(k) && BoardReady(b, players, []) && depth > 0 && m in b.available
    decreases depth, 0
  {
    ReadyAfterMrXMove(b, players, m, k.occupied);
    Add(Value(k, SimulateMrXMove(Detectives(players), b, k.occupied), players, Destination(m), depth - 1,
              Detectives(players)),
        EvaluateMove(k, b, m))
  }

  /** The value of the next detective's move m: the projected board for the
      rest of the round, searched one ply shallower. */
  ghost function DetectiveChild(k: Knowledge, b: Board, players: seq<Piece>, x: int, depth: nat,
                                remaining: seq<Piece>, m: Move): Score
    requires Sized(k) && Ready(b, players, x, remaining) && remaining != [] && depth > 0
    requires m in b.available
    decreases depth, 0
  {
    ReadyAfterDetectiveMove(b, players, x, remaining, m, k.occupied);
    Value(k, SimulateDetectiveMove(remaining[0], remaining[1..], x, b, m, k.occupied), players, x, depth - 1,
          remaining[1..])
  }

  /** The value of every move MrX has on b. */
  ghost function MrXChildren(k: Knowledge, b: Board, players: seq<Piece>, depth: nat): (r: map<Move, Score>)
    requires Sized(k) && BoardReady(b, players, []) && depth > 0
    ensures r.Keys == b.available
    decreases depth, 1
  {
    map m | m in b.available :: MrXChild(k, b, players, depth, m)
  }

  /** The value of every move the next detective has on b. */
  ghost function DetectiveChildren(k: Knowledge, b: Board, players: seq<Piece>, x: int, depth: nat,
                                   remaining: seq<Piece>): (r: map<Move, Score>)
    requires Sized(k) && Ready(b, players, x, remaining) && remaining != [] && depth > 0
    ensures r.Keys == b.available
    decreases depth, 1
  {
    map m | m in b.available :: DetectiveChild(k, b, players, x, depth, remaining, m)
  }

  // ---------------------------------------------------------------------
  // The search adds a MrX move's penalty to the child's result after the
  // child was searched in the unshifted window, so pruning is exact only
  // where those penalties are 0. PenaltyFree says so for the whole tree.

  /** Every MrX move below the board is unpenalised. */
  ghost predicate PenaltyFree(k: Knowledge, b: Board, players: seq<Piece>, x: int, depth: nat, remaining: seq<Piece>)
    requires Sized(k) && Ready(b, players, x, remaining)
    decreases depth, 1
  {
    if depth == 0 || b.winner != {} then true
    else if remaining == [] then
      forall m :: m in b.available ==> EvaluateMove(k, b, m) == 0 && MrXMoveSafe(k, b, players, depth, m)
    else
      forall m :: m in b.available ==> DetectiveMoveSafe(k, b, players, x, depth, remaining, m)
  }

  /** The board projected by MrX's move m is PenaltyFree. */
  ghost predicate MrXMoveSafe(k: Knowledge, b: Board, players: seq<Piece>, depth: nat, m: Move)
    requires Sized(k) && BoardReady(b, players, []) && depth > 0 && m in b.available
    decreases depth, 0
  {
    ReadyAfterMrXMove(b, players, m, k.occupied);
    PenaltyFree(k, SimulateMrXMove(Detectives(players), b, k.occupied), players, Destination(m), depth - 1,
                Detectives(players))
  }

  /** The board projected by the next detective's move m is PenaltyFree. */
  ghost predicate DetectiveMoveSafe(k: Knowledge, b: Board, players: seq<Piece>, x: int, depth: nat,
                                    remaining: seq<Piece>, m: Move)
    requires Sized(k) && Ready(b, players, x, remaining) && remaining != [] && depth > 0
    requires m in b.available
    decreases depth, 0
  {
    ReadyAfterDetectiveMove(b, players, x, remaining, m, k.occupied);
    PenaltyFree(k, SimulateDetectiveMove(remaining[0], remaining[1..], x, b, m, k.occupied), players, x,
                depth - 1, remaining[1..])
  }

  /** Where no move of this log length is penalised, the whole tree is
      PenaltyFree: the projections keep the setup and the log. */
  lemma {:induction false} NoPenaltyIsPenaltyFree(k: Knowledge, b: Board, players: seq<Piece>, x: int, depth: nat,
                                                 remaining: seq<Piece>)
    requires Sized(k) && Ready(b, players, x, remaining) && NoPenalty(k, b)
    ensures PenaltyFree(k, b, players, x, depth, remaining)
    decreases depth, 1
  {
    if depth > 0 && b.winner == {} && remaining == [] {
      forall m | m in b.available
        ensures EvaluateMove(k, b, m) == 0 && MrXMoveSafe(k, b, players, depth, m)
      {
        NoPenaltyMrXMoveSafe(k, b, players, depth, m);
      }
    } else if depth > 0 && b.winner == {} {
      forall m | m in b.available
        ensures DetectiveMoveSafe(k, b, players, x, depth, remaining, m)
      {
        NoPenaltyDetectiveMoveSafe(k, b, players, x, depth, remaining, m);
      }
    }
  }

  /** The board projected by MrX's move keeps NoPenalty, hence is PenaltyFree. */
  lemma {:induction false} NoPenaltyMrXMoveSafe(k: Knowledge, b: Board, players: seq<Piece>, depth: nat, m: Move)
    requires Sized(k) && BoardReady(b, players, []) && depth > 0 && m in b.available && NoPenalty(k, b)
    ensures MrXMoveSafe(k, b, players, depth, m)
    decreases depth, 0
  {
    ReadyAfterMrXMove(b, players, m, k.occupied);
    var child := SimulateMrXMove(Detectives(players), b, k.occupied);
    NoPenaltyProjected(k, b, child);
    NoPenaltyIsPenaltyFree(k, child, players, Destination(m), depth - 1, Detectives(players));
  }

  /** The board projected by a detective's move keeps NoPenalty, hence is PenaltyFree. */
  lemma {:induction false} NoPenaltyDetectiveMoveSafe(k: Knowledge, b: Board, players: seq<Piece>, x: int, depth: nat,
                                                     remaining: seq<Piece>, m: Move)
    requires Sized(k) && Ready(b, players, x, remaining) && remaining != [] && depth > 0 && m in b.available
    requires NoPenalty(k, b)
    ensures DetectiveMoveSafe(k, b, players, x, depth, remaining, m)
    decreases depth, 0
  {
    ReadyAfterDetectiveMove(b, players, x, remaining, m, k.occupied);
    var child := SimulateDetectiveMove(remaining[0], remaining[1..], x, b, m, k.occupied);
    NoPenaltyProjected(k, b, child);
    NoPenaltyIsPenaltyFree(k, child, players, x, depth - 1, remaining[1..]);
  }

  // ---------------------------------------------------------------------
  // The root of a decision: pickMove searches every available move of MrX
  // in the full window and keeps the best.

  /** Every root move leads to a PenaltyFree tree, so each root search is exact. */
  ghost predicate RootSafe(k: Knowledge, b: Board, players: seq<Piece>, depth: nat)
    requires Sized(k) && BoardReady(b, players, []) && depth > 0
  {
    forall m :: m in b.available ==> MrXMoveSafe(k, b, players, depth, m)
  }

  /** The ordering score of every move MrX has on b. */
  ghost function OrderingScores(k: Knowledge, b: Board, players: seq<Piece>): (r: map<Move, Score>)
    requires Sized(k) && BoardReady(b, players, [])
    ensures r.Keys == b.available
  {
    map m | m in b.available :: OrderingScore(k, b, players, m)
  }

  /** The maps scores and keys hold, for the moves scored so far, the
      ordering score and, wherever that move's search is exact, its value. */
  ghost predicate Scored(k: Knowledge, b: Board, players: seq<Piece>, depth: nat,
                         scores: map<Move, Score>, keys: map<Move, Score>)
    requires Sized(k) && BoardReady(b, players, []) && depth > 0
  {
    && scores.Keys == keys.Keys && keys.Keys <= b.available
    && (forall m :: m in keys ==> keys[m] == OrderingScore(k, b, players, m))
    && (forall m :: m in scores && MrXMoveSafe(k, b, players, depth, m) ==> scores[m] == MrXChild(k, b, players, depth, m))
  }

  /** Once every move is scored, keys are the ordering scores. */
  lemma KeysComplete(k: Knowledge, b: Board, players: seq<Piece>, keys: map<Move, Score>)
    requires Sized(k) && BoardReady(b, players, []) && keys.Keys == b.available
    requires forall m :: m in keys ==> keys[m] == OrderingScore(k, b, players, m)
    ensures keys == OrderingScores(k, b, players)
  {
    var ordering := OrderingScores(k, b, players);
    forall m | m in keys ensures keys[m] == ordering[m] {
    }
  }

  /** Once every move is scored and every root search is exact, scores are
      the children's values. */
  lemma ScoresComplete(k: Knowledge, b: Board, players: seq<Piece>, depth: nat, scores: map<Move, Score>)
    requires Sized(k) && BoardReady(b, players, []) && depth > 0 && scores.Keys == b.available
    requires forall m :: m in scores && MrXMoveSafe(k, b, players, depth, m) ==> scores[m] == MrXChild(k, b, players, depth, m)
    requires RootSafe(k, b, players, depth)
    ensures scores == MrXChildren(k, b, players, depth)
  {
    var children := MrXChildren(k, b, players, depth);
    forall m | m in scores ensures scores[m] == children[m] {
      assert MrXMoveSafe(k, b, players, depth, m);
    }
  }

  /** scores and keys are what pickMove computes for every available move:
      the ordering score, and the search result, which is the root value
      wherever every root search is exact. */
  ghost predicate RootScores(k: Knowledge, b: Board, players: seq<Piece>, depth: nat,
                             scores: map<Move, Score>, keys: map<Move, Score>)
    requires Sized(k) && BoardReady(b, players, []) && depth > 0
  {
    && keys == OrderingScores(k, b, players)
    && scores.Keys == b.available
    && (RootSafe(k, b, players, depth) ==> scores == MrXChildren(k, b, players, depth))
  }

  /** best is a move pickMove may choose: no available move has a higher root
      value, and none of equal value sorts before it. */
  ghost predicate BestRootMove(k: Knowledge, b: Board, players: seq<Piece>, depth: nat, best: Move)
    requires Sized(k) && BoardReady(b, players, []) && depth > 0 && best in b.available
  {
    LexBest(MrXChildren(k, b, players, depth), OrderingScores(k, b, players), b.available,
            MrXChild(k, b, players, depth, best), OrderingScore(k, b, players, best))
  }

  /** A lexicographic best over the scores pickMove computes is a
      BestRootMove wherever every root search is exact. */
  lemma RootScoresBest(k: Knowledge, b: Board, players: seq<Piece>, depth: nat,
                       scores: map<Move, Score>, keys: map<Move, Score>, best: Move)
    requires Sized(k) && BoardReady(b, players, []) && depth > 0 && best in b.available
    requires RootScores(k, b, players, depth, scores, keys)
    requires LexBest(scores, keys, b.available, scores[best], keys[best])
    ensures RootSafe(k, b, players, depth) ==> BestRootMove(k, b, players, depth, best)
  {
  }

  /** The chosen move realises the minimax value of MrX's ply. */
  lemma BestRootMoveIsValue(k: Knowledge, b: Board, players: seq<Piece>, x: int, depth: nat, best: Move)
    requires Sized(k) && Ready(b, players, x, []) && depth > 0 && b.winner == {} && best in b.available
    requires BestRootMove(k, b, players, depth, best)
    ensures MrXChild(k, b, players, depth, best) == Value(k, b, players, x, depth, [])
  {
    LexBestIsMaxOf(MrXChildren(k, b, players, depth), OrderingScores(k, b, players), b.available, best);
  }

  /** Where no move of this log length is penalised, every root search is exact. */
  lemma NoPenaltyRootSafe(k: Knowledge, b: Board, players: seq<Piece>, depth: nat)
    requires Sized(k) && BoardReady(b, players, []) && depth > 0 && NoPenalty(k, b)
    ensures RootSafe(k, b, players, depth)
  {
    forall m | m in b.available ensures MrXMoveSafe(k, b, players, depth, m) {
      NoPenaltyMrXMoveSafe(k, b, players, depth, m);
    }
  }
}
