/**
 * The distance table of the fugitive AI (MyAi.precomputeShortestPaths).
 *
 * The table is a 200 x 200 int matrix that starts all zero (Java's default),
 * gets 1 for every adjacency of a node 1..199, and is then relaxed in place
 * with the Floyd-Warshall step over intermediates and endpoints 1..199.
 * Because non-adjacent pairs start at 0 rather than at infinity, the result is
 * not the hop distance: every entry stays 0 or 1, and most collapse to 0.
 *
 * Relax(g, k, i, j) is the Floyd-Warshall recurrence with the intermediates
 * 1 .. k-1 relaxed; the imperative method in FugitiveAi is proved to leave
 * Relax(g, Size, i, j) in every cell.
 */
module Distances {
  import opened Sets

  /** The fixed side of the table (int size = 200). */
  const Size: int := 200

  /** Adjacency as the graph's adjacentNodes: node id to neighbour ids. */
  type Adjacency = map<int, set<int>>

  /** Every node id, and every neighbour, indexes the table. */
  ghost predicate InTable(g: Adjacency)
  {
    forall n :: n in g ==> 0 <= n < Size && forall m :: m in g[n] ==> 0 <= m < Size
  }

  /** The cell's value before relaxation: 1 for an adjacency i -> j with
      1 <= i (row 0 is never filled), 0 everywhere else. */
  function Initial(g: Adjacency, i: int, j: int): (r: int)
    ensures r == 0 || r == 1
    ensures r == 1 <==> 1 <= i && i in g && j in g[i]
  {
    if 1 <= i && i in g && j in g[i] then 1 else 0
  }

  /** The table after the outer loop has run for the intermediates 1 .. k-1.
      Row 0 and column 0 are never relaxed. Every value lies between 0 and the
      initial one: relaxation only lowers an entry, and nothing goes negative. */
  ghost function Relax(g: Adjacency, k: int, i: int, j: int): (r: int)
    requires 1 <= k <= Size
    decreases k
    ensures 0 <= r <= Initial(g, i, j)
  {
    if k == 1 then Initial(g, i, j)
    else if i == 0 || j == 0 then Relax(g, k - 1, i, j)
    else
      var viaK := Relax(g, k - 1, i, k - 1) + Relax(g, k - 1, k - 1, j);
      if viaK < Relax(g, k - 1, i, j) then viaK else Relax(g, k - 1, i, j)
  }

  /** Relaxing through k leaves the entries of row k and column k unchanged,
      which is what makes the in-place update read the right values. */
  lemma RelaxKeepsPivotLines(g: Adjacency, k: int, i: int, j: int)
    requires 1 <= k < Size
    ensures Relax(g, k + 1, i, k) == Relax(g, k, i, k)
    ensures Relax(g, k + 1, k, j) == Relax(g, k, k, j)
  {
    assert Relax(g, k, k, k) >= 0;
  }

  /** The triangle inequality through every intermediate m already relaxed. */
  lemma {:induction false} Triangle(g: Adjacency, k: int, i: int, j: int, m: int)
    requires 1 <= m < k <= Size
    requires 1 <= i < Size && 1 <= j < Size
    ensures Relax(g, k, i, j) <= Relax(g, k, i, m) + Relax(g, k, m, j)
    decreases k, 1
  {
    var p := k - 1;
    if m < p {
      TriangleStep(g, p, i, j, m);
    } else {
      TrianglePivot(g, p, i, j);
    }
  }

  /** Right after relaxing through p, the triangle inequality through p holds. */
  lemma TrianglePivot(g: Adjacency, p: int, i: int, j: int)
    requires 1 <= p < Size && 1 <= i < Size && 1 <= j < Size
    ensures Relax(g, p + 1, i, j) <= Relax(g, p + 1, i, p) + Relax(g, p + 1, p, j)
  {
    RelaxStep(g, p, i, j);
    RelaxKeepsPivotLines(g, p, i, j);
  }

  /** Relaxing through p keeps the triangle inequality through an earlier m. */
  lemma {:induction false} TriangleStep(g: Adjacency, p: int, i: int, j: int, m: int)
    requires 1 <= m < p < Size
    requires 1 <= i < Size && 1 <= j < Size
    ensures Relax(g, p + 1, i, j) <= Relax(g, p + 1, i, m) + Relax(g, p + 1, m, j)
    decreases p + 1, 0
  {
    Triangle(g, p, i, j, m);
    Triangle(g, p, p, j, m);
    Triangle(g, p, i, p, m);
    RelaxStep(g, p, i, j);
    RelaxStep(g, p, i, m);
    RelaxStep(g, p, m, j);
    MinTriangle(Relax(g, p, i, j), Relax(g, p, i, p), Relax(g, p, p, j), Relax(g, p, i, m), Relax(g, p, m, j),
                Relax(g, p, p, m), Relax(g, p, m, p));
  }

  /** One step of the recurrence for a cell off row 0 and column 0. */
  lemma RelaxStep(g: Adjacency, p: int, i: int, j: int)
    requires 1 <= p < Size && 1 <= i && 1 <= j
    ensures Relax(g, p + 1, i, j) ==
      if Relax(g, p, i, p) + Relax(g, p, p, j) < Relax(g, p, i, j) then Relax(g, p, i, p) + Relax(g, p, p, j)
      else Relax(g, p, i, j)
  {
  }

  /** The arithmetic of one relaxation step: relaxing through p keeps the
      triangle inequality through an earlier intermediate m. */
  lemma MinTriangle(ij: int, ip: int, pj: int, im: int, mj: int, pm: int, mp: int)
    requires 0 <= pm && 0 <= mp
    requires ij <= im + mj && ip <= im + mp && pj <= pm + mj
    ensures (if ip + pj < ij then ip + pj else ij)
            <= (if ip + pm < im then ip + pm else im) + (if mp + pj < mj then mp + pj else mj)
  {
  }

  /** A diagonal cell ends at 0 unless the node is its own neighbour. */
  lemma DiagonalZero(g: Adjacency, i: int)
    requires 0 <= i < Size
    requires i == 0 || i !in g || i !in g[i]
    ensures Relax(g, Size, i, i) == 0
  {
  }

  /** The zero start collapses the table: i and j (both 1..199) read as
      distance 0 as soon as some node k is neither a neighbour of i nor has j
      as a neighbour, even though i and j may be far apart in the graph. */
  lemma Collapse(g: Adjacency, i: int, j: int, k: int)
    requires 1 <= i < Size && 1 <= j < Size && 1 <= k < Size
    requires i !in g || k !in g[i]
    requires k !in g || j !in g[k]
    ensures Relax(g, Size, i, j) == 0
  {
    Triangle(g, Size, i, j, k);
  }

  /** The cells of a 200 x 200 table as rows of values. */
  ghost function Snapshot(sp: array2<int>): (t: seq<seq<int>>)
    requires sp.Length0 == Size && sp.Length1 == Size
    reads sp
    ensures |t| == Size && forall i :: 0 <= i < Size ==> |t[i]| == Size
    ensures forall i, j :: 0 <= i < Size && 0 <= j < Size ==> t[i][j] == sp[i, j]
  {
    seq(Size, i requires 0 <= i < Size reads sp => seq(Size, j requires 0 <= j < Size reads sp => sp[i, j]))
  }

  /** Every cell of sp holds the table after relaxing the intermediates 1 .. k-1. */
  ghost predicate RelaxedUpTo(g: Adjacency, sp: array2<int>, k: int)
    requires 1 <= k <= Size
    reads sp
  {
    && sp.Length0 == Size && sp.Length1 == Size
    && forall a, b :: 0 <= a < Size && 0 <= b < Size ==> sp[a, b] == Relax(g, k, a, b)
  }

  /** The first part of precomputeShortestPaths: a zero-initialised table, a
      zero diagonal, then 1 for every neighbour of each node 1..199. */
  method AdjacencyTable(g: Adjacency) returns (sp: array2<int>)
    requires InTable(g)
    requires forall i :: 1 <= i < Size ==> i in g
    ensures fresh(sp) && RelaxedUpTo(g, sp, 1)
  {
    sp := new int[Size, Size]((i, j) => 0);

    for i := 0 to Size
      invariant forall a, b :: 0 <= a < Size && 0 <= b < Size ==> sp[a, b] == 0
    {
      sp[i, i] := 0;
    }

    for i := 1 to Size
      invariant forall a, b :: 0 <= a < Size && 0 <= b < Size ==>
        sp[a, b] == if a < i then Initial(g, a, b) else 0
    {
      var todo := g[i];
      while todo != {}
        invariant todo <= g[i]
        invariant forall a, b :: 0 <= a < Size && 0 <= b < Size ==>
          sp[a, b] == if a < i || (a == i && b !in todo) then Initial(g, a, b) else 0
        decreases todo
      {
        IntSetHasElement(todo);
        var neighbour :| neighbour in todo;
        sp[i, neighbour] := 1;
        todo := todo - {neighbour};
      }
    }
  }

  /** One pass of the outer Floyd-Warshall loop: relax every cell (i, j) with
      1 <= i, j < 200 through the intermediate k, in place. */
  method RelaxThrough(g: Adjacency, sp: array2<int>, k: int)
    requires 1 <= k < Size && RelaxedUpTo(g, sp, k)
    modifies sp
    ensures RelaxedUpTo(g, sp, k + 1)
  {
    for i := 1 to Size
      invariant forall a, b :: 0 <= a < Size && 0 <= b < Size ==>
        sp[a, b] == if 1 <= a < i then Relax(g, k + 1, a, b) else Relax(g, k, a, b)
    {
      RelaxRow(g, sp, k, i);
    }
  }

  /** The innermost loop: relax row i through k, column by column. Row k and
      column k read the same before and after their own update, so reading
      them in place is sound. */
  method RelaxRow(g: Adjacency, sp: array2<int>, k: int, i: int)
    requires 1 <= k < Size && 1 <= i < Size
    requires sp.Length0 == Size && sp.Length1 == Size
    requires forall a, b :: 0 <= a < Size && 0 <= b < Size ==>
      sp[a, b] == if 1 <= a < i then Relax(g, k + 1, a, b) else Relax(g, k, a, b)
    modifies sp
    ensures forall a, b :: 0 <= a < Size && 0 <= b < Size ==>
      sp[a, b] == if 1 <= a <= i then Relax(g, k + 1, a, b) else Relax(g, k, a, b)
  {
    for j := 1 to Size
      invariant forall a, b :: 0 <= a < Size && 0 <= b < Size ==>
        sp[a, b] == if 1 <= a < i || (a == i && 1 <= b < j) then Relax(g, k + 1, a, b)
                    else Relax(g, k, a, b)
    {
      RelaxKeepsPivotLines(g, k, i, j);
      var via := sp[i, k] + sp[k, j];
      sp[i, j] := if sp[i, j] < via then sp[i, j] else via;
    }
  }
}
