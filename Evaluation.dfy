/**
 * The fugitive AI's heuristics as pure functions of what the AI knows: the
 * locations it has really moved to, the real detective locations of the
 * current decision and the distance table. The AI object in FugitiveAi keeps
 * that knowledge in fields and computes the same values with loops.
 */
module Evaluation {
  import opened Sets
  import opened Moves
  import opened Scores
  import opened Boards
  import Distances

  /** Integer.MAX_VALUE, the distance reported when no detective is known. */
  const IntMax: int := 2147483647

  /** The move penalties of evaluateMove. */
  const SecretMovePenalty: int := -25
  const DoubleMovePenalty: int := -50
  const RepeatedMovePenalty: int := -30

  /** What the AI knows while it decides: alreadyVisitedLocations,
      occupiedLocations and the rows of shortestPaths. */
  datatype Knowledge = Knowledge(visited: set<int>, occupied: set<int>, table: seq<seq<int>>)

  /** The table is 200 x 200 and every detective location indexes it. */
  ghost predicate Sized(k: Knowledge)
  {
    && |k.table| == Distances.Size
    && (forall i :: 0 <= i < Distances.Size ==> |k.table[i]| == Distances.Size)
    && (forall l :: l in k.occupied ==> 0 <= l < Distances.Size)
  }

  /** m is the least element of s. */
  predicate IsLeast(m: int, s: set<int>)
  {
    m in s && forall y :: y in s ==> m <= y
  }

  /** A set of integers has a least element once it is non-empty. */
  lemma {:induction false} LeastExists(s: set<int>)
    requires s != {}
    ensures exists m :: IsLeast(m, s)
    decreases |s|
  {
    IntSetHasElement(s);
    var x :| x in s;
    var rest := s - {x};
    if rest == {} {
      forall y | y in s ensures x <= y {
        assert y !in rest;
      }
      assert IsLeast(x, s);
    } else {
      LeastExists(rest);
      var m :| IsLeast(m, rest);
      var least := if x < m then x else m;
      forall y | y in s ensures least <= y {
        if y != x { assert y in rest; }
      }
      assert IsLeast(least, s);
    }
  }

  /** The least element of a non-empty set of integers. */
  function Least(s: set<int>): (m: int)
    requires s != {}
    ensures m in s && forall y :: y in s ==> m <= y
  {
    LeastExists(s);
    var m :| IsLeast(m, s); m
  }

  /** The distance from x to the nearest real detective as calculateMinDistance
      reports it: the least table entry from x to an occupied location, or
      Integer.MAX_VALUE when there are none (and never more). */
  function MinDistance(k: Knowledge, x: int): (r: int)
    requires Sized(k) && 0 <= x < Distances.Size
    ensures r <= IntMax
    ensures forall l :: l in k.occupied ==> r <= k.table[x][l]
    ensures r == IntMax || exists l :: l in k.occupied && r == k.table[x][l]
    ensures k.occupied == {} ==> r == IntMax
  {
    var distances := {IntMax} + set l | l in k.occupied :: k.table[x][l];
    assert forall l :: l in k.occupied ==> k.table[x][l] in distances;
    Least(distances)
  }

  /** The three properties above pin MinDistance down: any value with them is it. */
  lemma MinDistanceUnique(k: Knowledge, x: int, r: int)
    requires Sized(k) && 0 <= x < Distances.Size
    requires r <= IntMax
    requires forall l :: l in k.occupied ==> r <= k.table[x][l]
    requires r == IntMax || exists l :: l in k.occupied && r == k.table[x][l]
    ensures r == MinDistance(k, x)
  {
    var d := MinDistance(k, x);
    if r != IntMax {
      var l :| l in k.occupied && r == k.table[x][l];
      assert d <= r;
    }
    if d != IntMax {
      var l :| l in k.occupied && d == k.table[x][l];
      assert r <= d;
    }
  }

  /** The number of neighbours of x that no real detective occupies, or 0 when
      x is not a node of the graph (the lookup whose failure the source catches). */
  function FreedomScore(k: Knowledge, b: Board, x: int): (r: nat)
    ensures x !in b.setup.graph ==> r == 0
    ensures x in b.setup.graph ==> r == |b.setup.graph[x] - k.occupied| && r <= |b.setup.graph[x]|
  {
    if x in b.setup.graph then |b.setup.graph[x] - k.occupied| else 0
  }

  /** Counting the neighbour n moves it from the unvisited part to the counted
      part, and adds one exactly when no detective occupies it. */
  lemma FreeNeighbourCounted(neighbours: set<int>, todo: set<int>, occupied: set<int>, n: int)
    requires todo <= neighbours && n in todo
    ensures |(neighbours - (todo - {n})) - occupied|
            == |(neighbours - todo) - occupied| + (if n in occupied then 0 else 1)
  {
    if n in occupied {
      assert (neighbours - (todo - {n})) - occupied == (neighbours - todo) - occupied;
    } else {
      assert (neighbours - (todo - {n})) - occupied == ((neighbours - todo) - occupied) + {n};
    }
  }

  /** evaluateBoard: -infinity exactly when the first detective of the player
      list has won; otherwise 20 per unit of distance to the nearest detective
      plus 10 per free neighbour, so never +infinity. */
  function EvaluateBoard(k: Knowledge, b: Board, players: seq<Piece>, x: int): (r: Score)
    requires Sized(k) && 0 <= x < Distances.Size && Detectives(players) != []
    ensures r == NegInf <==> Detectives(players)[0] in b.winner
    ensures r != NegInf ==> r == Fin(20 * MinDistance(k, x) + 10 * FreedomScore(k, b, x))
    ensures r != PosInf
  {
    if Detectives(players)[0] in b.winner then NegInf
    else Fin(20 * MinDistance(k, x) + 10 * FreedomScore(k, b, x))
  }

  /** The guard of the ticket penalties. As written it reads
      early || (not a reveal round && source farther than 2), so in the first
      half of the game it holds whatever the distance. */
  predicate RiskPenaltyApplies(k: Knowledge, b: Board, m: Move)
    requires Sized(k) && 0 <= m.source < Distances.Size && b.logSize < |b.setup.rounds|
    ensures b.logSize < |b.setup.rounds| / 2 ==> RiskPenaltyApplies(k, b, m)
    ensures RiskPenaltyApplies(k, b, m) && b.logSize >= |b.setup.rounds| / 2 ==>
      !b.setup.rounds[b.logSize] && MinDistance(k, m.source) > 2
  {
    b.logSize < |b.setup.rounds| / 2 || (!b.setup.rounds[b.logSize] && MinDistance(k, m.source) > 2)
  }

  /** evaluateMove: -30 for a destination already visited, and when the risk
      guard holds, -25 for a first ticket SECRET and -50 for a double move. */
  function EvaluateMove(k: Knowledge, b: Board, m: Move): (r: int)
    requires Sized(k) && 0 <= m.source < Distances.Size && b.logSize < |b.setup.rounds|
    ensures -105 <= r <= 0
    ensures Destination(m) in k.visited <==> r in {-30, -55, -80, -105}
    ensures !RiskPenaltyApplies(k, b, m) ==> r == 0 || r == -30
    ensures r == 0 <==>
      Destination(m) !in k.visited && (!RiskPenaltyApplies(k, b, m) || (FirstTicket(m) != Secret && m.SingleMove?))
  {
    var repeated := if Destination(m) in k.visited then RepeatedMovePenalty else 0;
    var risky := RiskPenaltyApplies(k, b, m);
    var secret := if risky && FirstTicket(m) == Secret then SecretMovePenalty else 0;
    var double := if risky && m.DoubleMove? then DoubleMovePenalty else 0;
    repeated + secret + double
  }

  /** The key pickMove sorts the moves by, highest first: the board score of
      the move's destination plus the move's penalty. It is -infinity exactly
      when the first detective has won, and otherwise never above the board
      score alone. */
  function OrderingScore(k: Knowledge, b: Board, players: seq<Piece>, m: Move): (r: Score)
    requires Sized(k) && 0 <= m.source < Distances.Size && 0 <= Destination(m) < Distances.Size
    requires b.logSize < |b.setup.rounds| && Detectives(players) != []
    ensures r == NegInf <==> Detectives(players)[0] in b.winner
    ensures r != PosInf && Le(r, EvaluateBoard(k, b, players, Destination(m)))
    ensures r == EvaluateBoard(k, b, players, Destination(m)) <==> r == NegInf || EvaluateMove(k, b, m) == 0
  {
    Add(EvaluateBoard(k, b, players, Destination(m)), EvaluateMove(k, b, m))
  }

  /** No move is penalised on boards with b's setup and log length. */
  ghost predicate NoPenalty(k: Knowledge, b: Board)
    requires Sized(k) && b.logSize < |b.setup.rounds|
  {
    forall m: Move :: 0 <= m.source < Distances.Size ==> EvaluateMove(k, b, m) == 0
  }

  /** No move is penalised, for instance, while nothing has been visited and
      the current round is a reveal round of the second half. */
  lemma NoPenaltyInLateRevealRound(k: Knowledge, b: Board)
    requires Sized(k) && b.logSize < |b.setup.rounds|
    requires k.visited == {} && b.logSize >= |b.setup.rounds| / 2 && b.setup.rounds[b.logSize]
    ensures NoPenalty(k, b)
  {
    forall m: Move | 0 <= m.source < Distances.Size ensures EvaluateMove(k, b, m) == 0 {
      assert !RiskPenaltyApplies(k, b, m);
    }
  }

  /** A projected board keeps the setup and the log, hence every penalty. */
  lemma NoPenaltyProjected(k: Knowledge, b: Board, b': Board)
    requires Sized(k) && b.logSize < |b.setup.rounds|
    requires b'.setup == b.setup && b'.logSize == b.logSize
    requires NoPenalty(k, b)
    ensures NoPenalty(k, b')
  {
    forall m: Move | 0 <= m.source < Distances.Size ensures EvaluateMove(k, b', m) == 0 {
      assert EvaluateMove(k, b, m) == 0;
      assert RiskPenaltyApplies(k, b', m) == RiskPenaltyApplies(k, b, m);
    }
  }

  /** A simulated detective move changes no board score: evaluateBoard reads
      only the real detective locations, the graph and the winner set. */
  lemma SimulatedDetectiveMoveKeepsScore(k: Knowledge, b: Board, players: seq<Piece>, detective: Piece,
                                         remaining: seq<Piece>, x: int, m: Move)
    requires Sized(k) && 0 <= x < Distances.Size && Detectives(players) != []
    requires remaining == [] ==> MrX in b.tickets && x in b.setup.graph
    requires remaining != [] ==> Located(b, remaining[0])
    ensures EvaluateBoard(k, SimulateDetectiveMove(detective, remaining, x, b, m, k.occupied), players, x)
            == EvaluateBoard(k, b, players, x)
  {
    var b' := SimulateDetectiveMove(detective, remaining, x, b, m, k.occupied);
    assert FreedomScore(k, b', x) == FreedomScore(k, b, x);
  }
}
