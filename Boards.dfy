/**
 * The read-only board the fugitive AI consults, the hypothetical single-step
 * moves it generates inside the search, and the projected boards
 * (BoardProxy and its two anonymous subclasses) that stand for one simulated
 * move. A projected board overrides a detective's location and the set of
 * available moves and delegates everything else, so it is modelled as a
 * record update of the wrapped board.
 */
module Boards {
  import opened Moves
  import Distances

  /** The game setup: the graph's adjacency, the transports on each edge
      (each given by the ticket it requires), and for every round whether the
      fugitive's location is revealed in it. */
  datatype Setup = Setup(
    graph: map<int, set<int>>,
    edges: map<(int, int), set<Ticket>>,
    rounds: seq<bool>)

  /** What the AI reads from a board: setup, detective locations, ticket
      boards, the length of the fugitive's travel log, the winner set and the
      moves available to the piece whose turn it is. */
  datatype Board = Board(
    setup: Setup,
    locations: map<Piece, int>,
    tickets: map<Piece, map<Ticket, int>>,
    logSize: nat,
    winner: set<Piece>,
    available: set<Move>)

  /** Every node id indexes the distance table and every neighbour is a node. */
  ghost predicate WellFormedGraph(g: map<int, set<int>>)
  {
    && Distances.InTable(g)
    && forall n, m :: n in g && m in g[n] ==> m in g
  }

  /** The transports on edge u -> v, or none (edgeValueOrDefault with an empty default). */
  function EdgeTickets(s: Setup, u: int, v: int): (r: set<Ticket>)
    ensures (u, v) !in s.edges ==> r == {}
  {
    if (u, v) in s.edges then s.edges[(u, v)] else {}
  }

  /** A ticket board's count of ticket t; a ticket it does not list counts 0. */
  function Count(tb: map<Ticket, int>, t: Ticket): (r: int)
    ensures t !in tb ==> r == 0
  {
    if t in tb then tb[t] else 0
  }

  /** The detectives of the player list, in its order (players minus MrX). */
  function Detectives(players: seq<Piece>): (r: seq<Piece>)
    ensures forall p :: p in r <==> p in players && p.Detective?
    ensures |r| <= |players|
  {
    if players == [] then []
    else (if players[0].Detective? then [players[0]] else []) + Detectives(players[1..])
  }

  /** Detectives keeps the order of the player list: filtering a concatenation
      concatenates the filtered parts. */
  lemma {:induction false} DetectivesAppend(a: seq<Piece>, b: seq<Piece>)
    ensures Detectives(a + b) == Detectives(a) + Detectives(b)
  {
    if a == [] {
      assert a + b == b;
    } else {
      assert (a + b)[1..] == a[1..] + b;
      DetectivesAppend(a[1..], b);
    }
  }

  /** The first detective of the filtered list is the first detective of the
      player list, the one evaluateBoard checks for a win. */
  lemma {:induction false} DetectivesHead(players: seq<Piece>, i: int)
    requires 0 <= i < |players| && players[i].Detective?
    requires forall j :: 0 <= j < i ==> !players[j].Detective?
    ensures |Detectives(players)| > 0 && Detectives(players)[0] == players[i]
  {
    if i > 0 {
      DetectivesHead(players[1..], i - 1);
    }
  }

  /** The single-step moves construct*Moves builds for a piece at src: one per
      neighbour that no real detective occupies and per transport on that edge
      whose required ticket the piece still holds. */
  function HypotheticalMoves(s: Setup, tb: map<Ticket, int>, piece: Piece, src: int,
                             occupied: set<int>): (r: set<Move>)
    requires src in s.graph
  {
    set d, t | d in s.graph[src] && d !in occupied && t in EdgeTickets(s, src, d) && Count(tb, t) > 0
      :: SingleMove(piece, src, t, d)
  }

  /** A move is generated exactly when it is a single move of the piece from
      src to an unoccupied neighbour with a held ticket of a transport on that edge. */
  lemma HypotheticalMoveIff(s: Setup, tb: map<Ticket, int>, piece: Piece, src: int,
                            occupied: set<int>, m: Move)
    requires src in s.graph
    ensures m in HypotheticalMoves(s, tb, piece, src, occupied) <==>
      && m.SingleMove? && m.piece == piece && m.source == src
      && m.destination in s.graph[src] && m.destination !in occupied
      && m.ticket in EdgeTickets(s, src, m.destination) && Count(tb, m.ticket) > 0
  {
    if m.SingleMove? && m.piece == piece && m.source == src
      && m.destination in s.graph[src] && m.destination !in occupied
      && m.ticket in EdgeTickets(s, src, m.destination) && Count(tb, m.ticket) > 0
    {
      assert m == SingleMove(piece, src, m.ticket, m.destination);
    }
  }

  /** A detective whose location and ticket board are present, on a node. */
  ghost predicate Located(b: Board, d: Piece)
  {
    d in b.locations && d in b.tickets && b.locations[d] in b.setup.graph
  }

  /** getDetectiveMoves: nothing once there is a winner, otherwise the
      hypothetical moves from the detective's location. */
  function DetectiveMoves(b: Board, d: Piece, occupied: set<int>): (r: set<Move>)
    requires Located(b, d)
    ensures b.winner != {} ==> r == {}
    ensures forall m :: m in r ==> m.SingleMove? && m.piece == d && m.source == b.locations[d]
  {
    if b.winner != {} then {}
    else HypotheticalMoves(b.setup, b.tickets[d], d, b.locations[d], occupied)
  }

  /** getMrXMoves: nothing once there is a winner, otherwise the hypothetical
      moves of MrX from the simulated location x. */
  function MrXMoves(b: Board, x: int, occupied: set<int>): (r: set<Move>)
    requires MrX in b.tickets && x in b.setup.graph
    ensures b.winner != {} ==> r == {}
    ensures forall m :: m in r ==> m.SingleMove? && m.piece == MrX && m.source == x
  {
    if b.winner != {} then {}
    else HypotheticalMoves(b.setup, b.tickets[MrX], MrX, x, occupied)
  }

  /** simulateMrXMove: the same board, now offering the moves of the first
      detective still to move. */
  function SimulateMrXMove(remaining: seq<Piece>, b: Board, occupied: set<int>): (r: Board)
    requires remaining != [] && Located(b, remaining[0])
    ensures r.setup == b.setup && r.locations == b.locations && r.tickets == b.tickets
    ensures r.logSize == b.logSize && r.winner == b.winner
    ensures r.available == DetectiveMoves(b, remaining[0], occupied)
  {
    b.(available := DetectiveMoves(b, remaining[0], occupied))
  }

  /** simulateDetectiveMove: the detective stands on the move's destination and
      the next mover's moves are offered (MrX's from x once the round is over);
      every other fact is the wrapped board's. */
  function SimulateDetectiveMove(detective: Piece, remaining: seq<Piece>, x: int, b: Board,
                                 m: Move, occupied: set<int>): (r: Board)
    requires remaining == [] ==> MrX in b.tickets && x in b.setup.graph
    requires remaining != [] ==> Located(b, remaining[0])
    ensures r.setup == b.setup && r.tickets == b.tickets
    ensures r.logSize == b.logSize && r.winner == b.winner
    ensures detective in r.locations && r.locations[detective] == Destination(m)
    ensures forall p :: p != detective ==>
      (p in r.locations <==> p in b.locations) && (p in b.locations ==> r.locations[p] == b.locations[p])
    ensures r.available == if remaining == [] then MrXMoves(b, x, occupied)
                           else DetectiveMoves(b, remaining[0], occupied)
  {
    b.(locations := b.locations[detective := Destination(m)],
       available := if remaining == [] then MrXMoves(b, x, occupied)
                    else DetectiveMoves(b, remaining[0], occupied))
  }

  /** occupiedLocations as pickMove collects it: the location of every
      detective of the player list that the board places. */
  function DetectiveLocations(b: Board, players: seq<Piece>): (r: set<int>)
    ensures forall l :: l in r <==>
      exists d :: d in players && d.Detective? && d in b.locations && b.locations[d] == l
    decreases |players|
  {
    if players == [] then {}
    else
      var last := players[|players| - 1];
      var init := players[..|players| - 1];
      assert forall d :: d in players <==> d in init || d == last;
      DetectiveLocations(b, init) + if last.Detective? && last in b.locations then {b.locations[last]} else {}
  }

  /** What the search needs of a board so that none of the unguarded lookups
      fails: node ids below 200, every detective located with a ticket board,
      MrX's ticket board, at least one detective (evaluateBoard's get(0)), a
      reveal-round entry for the current log length, the pieces still to move
      are detectives, and the available moves start and end on nodes. */
  ghost predicate BoardReady(b: Board, players: seq<Piece>, remaining: seq<Piece>)
  {
    && WellFormedGraph(b.setup.graph)
    && b.logSize < |b.setup.rounds|
    && MrX in b.tickets
    && Detectives(players) != []
    && (forall d :: d in players && d.Detective? ==> Located(b, d))
    && (forall p :: p in remaining ==> p in players && p.Detective?)
    && (forall m :: m in b.available ==> m.source in b.setup.graph && Destination(m) in b.setup.graph)
  }

  /** BoardReady, with MrX's simulated location x on a node (getMrXMoves reads
      the adjacency of x without a guard). */
  ghost predicate Ready(b: Board, players: seq<Piece>, x: int, remaining: seq<Piece>)
  {
    BoardReady(b, players, remaining) && x in b.setup.graph
  }

  /** Generated moves start at src and end on a node. */
  lemma HypotheticalMovesOnGraph(s: Setup, tb: map<Ticket, int>, piece: Piece, src: int,
                                 occupied: set<int>)
    requires WellFormedGraph(s.graph) && src in s.graph
    ensures forall m :: m in HypotheticalMoves(s, tb, piece, src, occupied) ==>
      m.source == src && Destination(m) in s.graph
  {
  }

  /** After a fugitive ply the projected board is ready for the detectives. */
  lemma ReadyAfterMrXMove(b: Board, players: seq<Piece>, m: Move, occupied: set<int>)
    requires BoardReady(b, players, []) && m in b.available
    ensures Detectives(players) != [] && Located(b, Detectives(players)[0])
    ensures Ready(SimulateMrXMove(Detectives(players), b, occupied), players, Destination(m),
                  Detectives(players))
  {
    var ds := Detectives(players);
    assert ds[0] in ds;
    HypotheticalMovesOnGraph(b.setup, b.tickets[ds[0]], ds[0], b.locations[ds[0]], occupied);
  }

  /** After a detective ply the projected board is ready for the next mover. */
  lemma ReadyAfterDetectiveMove(b: Board, players: seq<Piece>, x: int, remaining: seq<Piece>,
                                m: Move, occupied: set<int>)
    requires Ready(b, players, x, remaining) && remaining != [] && m in b.available
    ensures remaining[1..] != [] ==> Located(b, remaining[1..][0])
    ensures Ready(SimulateDetectiveMove(remaining[0], remaining[1..], x, b, m, occupied),
                  players, x, remaining[1..])
  {
    var next := remaining[1..];
    assert remaining[0] in remaining;
    if next == [] {
      HypotheticalMovesOnGraph(b.setup, b.tickets[MrX], MrX, x, occupied);
    } else {
      assert next[0] == remaining[1] && remaining[1] in remaining;
      HypotheticalMovesOnGraph(b.setup, b.tickets[next[0]], next[0], b.locations[next[0]], occupied);
    }
  }

  /** The generated moves towards the neighbours in ds only. */
  ghost function MovesVia(s: Setup, tb: map<Ticket, int>, piece: Piece, src: int,
                          occupied: set<int>, ds: set<int>): set<Move>
  {
    set d, t | d in ds && d !in occupied && t in EdgeTickets(s, src, d) && Count(tb, t) > 0
      :: SingleMove(piece, src, t, d)
  }

  /** The generated moves towards one neighbour d, by the tickets in ts only. */
  ghost function MovesTo(s: Setup, tb: map<Ticket, int>, piece: Piece, src: int,
                         d: int, ts: set<Ticket>): set<Move>
  {
    set t | t in ts && t in EdgeTickets(s, src, d) && Count(tb, t) > 0 :: SingleMove(piece, src, t, d)
  }

  /** Taking one more neighbour adds exactly its moves, unless it is occupied. */
  lemma MovesViaStep(s: Setup, tb: map<Ticket, int>, piece: Piece, src: int,
                     occupied: set<int>, ds: set<int>, d: int)
    ensures MovesVia(s, tb, piece, src, occupied, ds + {d}) ==
      MovesVia(s, tb, piece, src, occupied, ds)
        + (if d in occupied then {} else MovesTo(s, tb, piece, src, d, EdgeTickets(s, src, d)))
  {
    var lhs := MovesVia(s, tb, piece, src, occupied, ds + {d});
    var rhs := MovesVia(s, tb, piece, src, occupied, ds)
        + (if d in occupied then {} else MovesTo(s, tb, piece, src, d, EdgeTickets(s, src, d)));
    forall mv | mv in lhs ensures mv in rhs {
      var d', t' :| d' in ds + {d} && d' !in occupied && t' in EdgeTickets(s, src, d')
        && Count(tb, t') > 0 && mv == SingleMove(piece, src, t', d');
      if d' != d {
        assert mv in MovesVia(s, tb, piece, src, occupied, ds);
      }
    }
    forall mv | mv in rhs ensures mv in lhs {
      if mv in MovesVia(s, tb, piece, src, occupied, ds) {
        var d', t' :| d' in ds && d' !in occupied && t' in EdgeTickets(s, src, d')
          && Count(tb, t') > 0 && mv == SingleMove(piece, src, t', d');
        assert d' in ds + {d};
      }
    }
  }

  /** Taking one more ticket of the edge adds its move when the piece holds it. */
  lemma MovesToStep(s: Setup, tb: map<Ticket, int>, piece: Piece, src: int,
                    d: int, ts: set<Ticket>, t: Ticket)
    ensures MovesTo(s, tb, piece, src, d, ts + {t}) ==
      MovesTo(s, tb, piece, src, d, ts)
        + (if t in EdgeTickets(s, src, d) && Count(tb, t) > 0 then {SingleMove(piece, src, t, d)} else {})
  {
  }
}
