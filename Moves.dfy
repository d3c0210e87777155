/**
 * Pieces, tickets and moves of the pursuit game, as the fugitive AI sees them.
 * A move is an immutable value: a single step, or a double move made of two
 * steps whose second destination is where the fugitive ends up.
 */
module Moves {

  /** The ticket kinds of the game; SECRET hides the fugitive's transport. */
  datatype Ticket = Taxi | Bus | Underground | DoubleTicket | Secret

  /** The fugitive (MrX) or one of the detectives, told apart by colour. */
  datatype Piece = MrX | Detective(colour: nat)

  datatype Move =
    | SingleMove(piece: Piece, source: int, ticket: Ticket, destination: int)
    | DoubleMove(piece: Piece, source: int, ticket1: Ticket, destination1: int,
                 ticket2: Ticket, destination2: int)

  /** The location a move ends on: the visitor of getDestination. */
  function Destination(m: Move): (r: int)
    ensures m.SingleMove? ==> r == m.destination
    ensures m.DoubleMove? ==> r == m.destination2
  {
    match m
    case SingleMove(_, _, _, d) => d
    case DoubleMove(_, _, _, _, _, d2) => d2
  }

  /** The first ticket a move spends (the first element of move.tickets()). */
  function FirstTicket(m: Move): (t: Ticket)
    ensures m.SingleMove? ==> t == m.ticket
    ensures m.DoubleMove? ==> t == m.ticket1
  {
    if m.SingleMove? then m.ticket else m.ticket1
  }

  /** The locations a real move visits, remembered by updateVisitedLocations. */
  function Visits(m: Move): (s: set<int>)
    ensures m.SingleMove? ==> s == {m.destination}
    ensures m.DoubleMove? ==> s == {m.destination1, m.destination2}
  {
    match m
    case SingleMove(_, _, _, d) => {d}
    case DoubleMove(_, _, _, d1, _, d2) => {d1, d2}
  }

  /** The effective destination is always among the visited locations, and a
      move visits one location or two. */
  lemma DestinationIsVisited(m: Move)
    ensures Destination(m) in Visits(m)
    ensures 1 <= |Visits(m)| <= 2
    ensures m.SingleMove? ==> |Visits(m)| == 1
  {
    if m.DoubleMove? && m.destination1 != m.destination2 {
      assert Visits(m) == {m.destination1} + {m.destination2};
    }
  }
}
