/** The bounded hexagonal lattice of the snowflake automaton: axial coordinates,
    the per-cell record, the hexagon-shaped region, its construction and the
    neighbour topology. */
module HexGrid {

  /** An axial coordinate, used as the lattice key.  The neighbour offsets call
      the first component q and the second r. */
  type Coord = (int, int)

  /** One cell.  `state` is the total mass (the cell is frozen once it reaches 1),
      `u` the diffusing part, `v` the retained part, `meanU` the neighbour mean of
      `u` computed in the last step, `receptive` the flag that is only ever set. */
  datatype Hexagon = Hexagon(u: real, v: real, state: real, meanU: real, receptive: bool)

  /** The automaton: radius `size`, diffusion rate `alpha`, background vapour
      `beta`, growth increment `gamma`, the cells, and the frozen-cell count seen
      by the previous convergence test (0 before the first test). */
  datatype Lattice = Lattice(size: int, alpha: real, beta: real, gamma: real,
                             cells: map<Coord, Hexagon>, lastFrozen: nat)

  /** The cell at the centre, frozen from the start. */
  const Seed: Coord := (0, 0)

  function Abs(x: int): nat
  {
    if x < 0 then -x else x
  }

  predicate Frozen(h: Hexagon)
  {
    h.state >= 1.0
  }

  /** The hexagon of radius n: |q| <= n, |r| <= n and |q + r| <= n. */
  predicate InRegion(n: int, c: Coord)
  {
    -n <= c.0 <= n && -n <= c.1 <= n && -n <= c.0 + c.1 <= n
  }

  function Region(n: int): (s: set<Coord>)
    ensures forall c :: c in s <==> InRegion(n, c)
  {
    set a: int, b: int | -n <= a <= n && -n <= b <= n && -n <= a + b <= n :: (a, b)
  }

  /** A lattice the automaton can work on: at least one ring around the seed,
      and exactly the cells of the hexagon. */
  ghost predicate Valid(l: Lattice)
  {
    l.size >= 1 && IsHexagon(l.size, l.cells.Keys)
  }

  /** `keys` are exactly the cells of the hexagon of radius n. */
  ghost predicate IsHexagon(n: int, keys: set<Coord>)
  {
    forall c :: c in keys <==> InRegion(n, c)
  }

  /** Every cell has at least one lattice neighbour. */
  predicate Surrounded(cells: map<Coord, Hexagon>)
  {
    forall c {:trigger Neighbours(cells.Keys, c)} :: c in cells ==> |Neighbours(cells.Keys, c)| > 0
  }

  /** In a lattice of radius at least 1 every cell has a neighbour. */
  lemma HexagonIsSurrounded(n: int, cells: map<Coord, Hexagon>)
    requires n >= 1 && IsHexagon(n, cells.Keys)
    ensures Surrounded(cells)
  {
    forall c | c in cells
      ensures |Neighbours(cells.Keys, c)| > 0
    {
      AtLeastThreeNeighbours(n, cells.Keys, c);
    }
  }

  /** Two maps with the same keys and the same value at every key are equal. */
  lemma MapsEqual(a: map<Coord, Hexagon>, b: map<Coord, Hexagon>)
    requires a.Keys == b.Keys && forall k :: k in a ==> a[k] == b[k]
    ensures a == b
  {
  }

  // ---------------------------------------------------------------------------
  // Construction

  /** The initial content of a cell: the seed holds one unit of retained mass,
      every other cell holds `beta` of diffusing mass. */
  function InitialCell(c: Coord, beta: real): Hexagon
  {
    if c == Seed then Hexagon(0.0, 1.0, 1.0, 0.0, false)
    else Hexagon(beta, 0.0, beta, 0.0, false)
  }

  function InitialCells(n: int, beta: real): map<Coord, Hexagon>
  {
    map c | c in Region(n) :: InitialCell(c, beta)
  }

  /** The lattice right after construction. */
  function NewLattice(size: int, alpha: real, beta: real, gamma: real): (l: Lattice)
    ensures size >= 1 ==> Valid(l)
    ensures forall c :: c in l.cells <==> InRegion(size, c)
    ensures size >= 0 ==> Seed in l.cells && l.cells[Seed].state == 1.0 && l.cells[Seed].v == 1.0
                          && l.cells[Seed].u == 0.0 && !l.cells[Seed].receptive
    ensures forall c :: c in l.cells && c != Seed ==>
              l.cells[c] == Hexagon(beta, 0.0, beta, 0.0, false)
    ensures l.lastFrozen == 0
  {
    Lattice(size, alpha, beta, gamma, InitialCells(size, beta), 0)
  }

  /** Cells in the rows of the construction loop that come before row q: the
      rows q' with -n <= q' < q. */
  function CellsBefore(n: int, q: int): nat
    decreases q + n
  {
    if q <= -n then 0 else CellsBefore(n, q - 1) + RowPrefix(n, q - 1, n + 1)
  }

  /** Cells of row q that the inner construction loop has placed once it reaches
      r: the r' with -n <= r' < r and |q + r'| <= n. */
  function RowPrefix(n: int, q: int, r: int): nat
    decreases r + n
  {
    if r <= -n then 0
    else RowPrefix(n, q, r - 1) + (if -n <= q + (r - 1) <= n then 1 else 0)
  }

  function Max(a: int, b: int): int { if a < b then b else a }
  function Min(a: int, b: int): int { if a < b then a else b }

  /** Row q holds the r in [Max(-n, -n-q), Min(n, n-q)]; the first r' < r of them
      have been placed. */
  lemma {:induction false} RowPrefixValue(n: int, q: int, r: int)
    requires Abs(q) <= n && -n <= r <= n + 1
    ensures RowPrefix(n, q, r) == Max(0, Min(r, Min(n, n - q) + 1) - Max(-n, -n - q))
    decreases r + n
  {
    if r > -n {
      RowPrefixValue(n, q, r - 1);
    }
  }

  /** A full row q has 2n + 1 - |q| cells. */
  lemma RowLength(n: int, q: int)
    requires Abs(q) <= n
    ensures RowPrefix(n, q, n + 1) == 2 * n + 1 - Abs(q)
  {
    RowPrefixValue(n, q, n + 1);
  }

  /** Closed form of CellsBefore, doubled to stay in the integers. */
  lemma {:induction false} CellsBeforeValue(n: int, q: int)
    requires -n <= q <= n + 1
    ensures 2 * CellsBefore(n, q) == CellsBeforeTwice(n, q)
    decreases q + n
  {
    if q > -n {
      CellsBeforeValue(n, q - 1);
      RowLength(n, q - 1);
      GrowTwice(n, q);
    }
  }

  function CellsBeforeTwice(n: int, q: int): int
  {
    if q <= 0 then (q + n) * (3 * n + 1 + q)
    else n * (3 * n + 1) + 2 * q * (2 * n + 1) - q * (q - 1)
  }

  /** Adding row q - 1 to the closed form at q - 1 gives the closed form at q. */
  lemma GrowTwice(n: int, q: int)
    requires -n < q <= n + 1
    ensures CellsBeforeTwice(n, q - 1) + 2 * (2 * n + 1 - Abs(q - 1)) == CellsBeforeTwice(n, q)
  {
    if q <= 0 {
      assert (q - 1 + n) * (3 * n + q) + 2 * (2 * n + q) == (q + n) * (3 * n + 1 + q);
    } else if q == 1 {
      assert CellsBeforeTwice(n, 0) == n * (3 * n + 1);
    } else {
      assert n * (3 * n + 1) + 2 * (q - 1) * (2 * n + 1) - (q - 1) * (q - 2) + 2 * (2 * n + 2 - q)
             == n * (3 * n + 1) + 2 * q * (2 * n + 1) - q * (q - 1);
    }
  }

  /** The construction has stored, under their final keys and with their
      initial contents, exactly the cells of the rows before q and the cells of
      row q before r (rows are the loop's q, stored as the key's second part). */
  ghost predicate PlacedUpTo(size: int, beta: real, q: int, r: int, cells: map<Coord, Hexagon>)
  {
    && (forall k :: k in cells <==> InRegion(size, k) && (k.1 < q || (k.1 == q && k.0 < r)))
    && (forall k :: k in cells ==> cells[k] == InitialCell(k, beta))
  }

  /** One iteration of the inner construction loop keeps PlacedUpTo. */
  lemma PlaceStep(size: int, beta: real, q: int, r: int, cells: map<Coord, Hexagon>)
    requires PlacedUpTo(size, beta, q, r, cells)
    ensures InRegion(size, (r, q)) ==> (r, q) !in cells
    ensures InRegion(size, (r, q)) ==>
              PlacedUpTo(size, beta, q, r + 1, cells[(r, q) := InitialCell((r, q), beta)])
    ensures !InRegion(size, (r, q)) ==> PlacedUpTo(size, beta, q, r + 1, cells)
  {
  }

  /** A finished row leaves the construction at the start of the next one. */
  lemma NextRow(size: int, beta: real, q: int, cells: map<Coord, Hexagon>)
    requires PlacedUpTo(size, beta, q, size + 1, cells)
    ensures PlacedUpTo(size, beta, q + 1, -size, cells)
  {
  }

  /** The construction loops: q and r both run over [-size, size], pairs with
      |q + r| > size are skipped, and the cell is stored under the flipped key
      (r, q).  The result is the hexagon of radius `size` with its initial
      cells, 3 size^2 + 3 size + 1 of them. */
  method CreateHexagonalLattice(size: int, beta: real) returns (cells: map<Coord, Hexagon>)
    ensures cells == InitialCells(size, beta)
    ensures size >= 0 ==> |cells| == 3 * size * size + 3 * size + 1
  {
    cells := map[];
    var q := -size;
    while q < size + 1
      invariant -size <= q
      invariant size >= 0 ==> q <= size + 1
      invariant size < 0 ==> q == -size
      invariant PlacedUpTo(size, beta, q, -size, cells)
      invariant size >= 0 ==> |cells| == CellsBefore(size, q)
    {
      cells := PlaceRow(size, q, beta, cells);
      NextRow(size, beta, q, cells);
      q := q + 1;
    }
    Finished(size, beta, q, cells);
  }

  /** After the outer loop: the initial cells, as many as the rows hold. */
  lemma Finished(size: int, beta: real, q: int, cells: map<Coord, Hexagon>)
    requires q == if size >= 0 then size + 1 else -size
    requires PlacedUpTo(size, beta, q, -size, cells)
    requires size >= 0 ==> |cells| == CellsBefore(size, q)
    ensures cells == InitialCells(size, beta)
    ensures size >= 0 ==> |cells| == 3 * size * size + 3 * size + 1
  {
    PlacedAll(size, beta, cells);
    if size >= 0 {
      TotalCells(size);
    }
  }

  /** Once every row is placed the construction holds exactly the initial cells. */
  lemma PlacedAll(size: int, beta: real, cells: map<Coord, Hexagon>)
    requires PlacedUpTo(size, beta, if size >= 0 then size + 1 else -size, -size, cells)
    ensures cells == InitialCells(size, beta)
  {
    assert forall k :: k in cells <==> k in Region(size);
  }

  /** The hexagon of radius n has 3 n^2 + 3 n + 1 cells. */
  lemma TotalCells(n: int)
    requires n >= 0
    ensures CellsBefore(n, n + 1) == 3 * n * n + 3 * n + 1
  {
    CellsBeforeValue(n, n + 1);
    TwiceAtEnd(n);
  }

  lemma TwiceAtEnd(n: int)
    requires n >= 0
    ensures CellsBeforeTwice(n, n + 1) == 2 * (3 * n * n + 3 * n + 1)
  {
    var q := n + 1;
    assert CellsBeforeTwice(n, q) == n * (3 * n + 1) + 2 * q * (2 * n + 1) - q * (q - 1);
    assert n * (3 * n + 1) == 3 * n * n + n;
    assert 2 * q * (2 * n + 1) == 4 * n * n + 6 * n + 2;
    assert q * (q - 1) == n * n + n;
  }

  /** The inner construction loop for one value of q. */
  method PlaceRow(size: int, q: int, beta: real, cells0: map<Coord, Hexagon>)
      returns (cells: map<Coord, Hexagon>)
    requires -size <= q <= size
    requires PlacedUpTo(size, beta, q, -size, cells0)
    ensures PlacedUpTo(size, beta, q, size + 1, cells)
    ensures |cells| == |cells0| + RowPrefix(size, q, size + 1)
  {
    cells := cells0;
    var r := -size;
    while r < size + 1
      invariant -size <= r <= size + 1
      invariant PlacedUpTo(size, beta, q, r, cells)
      invariant |cells| == |cells0| + RowPrefix(size, q, r)
    {
      PlaceStep(size, beta, q, r, cells);
      if q + r > size || q + r < -size {
        assert RowPrefix(size, q, r + 1) == RowPrefix(size, q, r);
        r := r + 1;
        continue;
      }
      assert RowPrefix(size, q, r + 1) == RowPrefix(size, q, r) + 1;
      var h := if q != 0 || r != 0 then Hexagon(beta, 0.0, beta, 0.0, false)
               else Hexagon(0.0, 1.0, 1.0, 0.0, false);
      assert h == InitialCell((r, q), beta);
      assert |cells[(r, q) := h]| == |cells| + 1;
      cells := cells[(r, q) := h];
      r := r + 1;
    }
  }

  // ---------------------------------------------------------------------------
  // Topology

  /** The six candidate neighbours, in the order the source lists them. */
  function Candidates(c: Coord): seq<Coord>
  {
    [(c.0, c.1 - 1), (c.0 + 1, c.1 - 1), (c.0 + 1, c.1),
     (c.0, c.1 + 1), (c.0 - 1, c.1 + 1), (c.0 - 1, c.1)]
  }

  /** Two cells are adjacent when their hex distance is 1. */
  predicate Adjacent(a: Coord, b: Coord)
  {
    Abs(b.0 - a.0) + Abs(b.1 - a.1) + Abs((b.0 - a.0) + (b.1 - a.1)) == 2
  }

  /** The six offsets are exactly the cells at hex distance 1. */
  lemma CandidatesAreAdjacent(c: Coord)
    ensures forall x :: x in Candidates(c) <==> Adjacent(c, x)
  {
    forall x
      ensures x in Candidates(c) <==> Adjacent(c, x)
    {
      var dq, dr := x.0 - c.0, x.1 - c.1;
      if Adjacent(c, x) {
        assert (dq, dr) in {(0, -1), (1, -1), (1, 0), (0, 1), (-1, 1), (-1, 0)};
        assert x == (c.0 + dq, c.1 + dr);
      }
    }
  }

  /** The elements of `s` that are lattice keys, in order. */
  function KeepPresent(keys: set<Coord>, s: seq<Coord>): (r: seq<Coord>)
    ensures forall x :: x in r <==> x in s && x in keys
    ensures |r| <= |s|
    ensures |r| == |s| <==> forall i :: 0 <= i < |s| ==> s[i] in keys
  {
    if |s| == 0 then []
    else (if s[0] in keys then [s[0]] else []) + KeepPresent(keys, s[1..])
  }

  lemma KeepPresentUnfold(keys: set<Coord>, s: seq<Coord>, i: int)
    requires 0 <= i < |s|
    ensures |KeepPresent(keys, s[i..])| == (if s[i] in keys then 1 else 0) + |KeepPresent(keys, s[i + 1..])|
  {
    assert s[i..][1..] == s[i + 1..];
  }

  /** get_neighbours: the adjacent cells that are in the lattice. */
  function Neighbours(keys: set<Coord>, c: Coord): (ns: seq<Coord>)
    ensures forall x :: x in ns <==> x in keys && Adjacent(c, x)
    ensures |ns| <= 6
    ensures c !in ns
  {
    CandidatesAreAdjacent(c);
    KeepPresent(keys, Candidates(c))
  }

  /** Adjacency within the lattice is symmetric. */
  lemma NeighboursSymmetric(keys: set<Coord>, a: Coord, b: Coord)
    requires a in keys && b in keys
    ensures b in Neighbours(keys, a) <==> a in Neighbours(keys, b)
  {
  }

  /** Of each pair of opposite offsets at least one stays inside the hexagon. */
  lemma OppositeOffsets(n: int, a: int, b: int)
    requires n >= 1 && InRegion(n, (a, b))
    ensures InRegion(n, (a, b - 1)) || InRegion(n, (a, b + 1))
    ensures InRegion(n, (a + 1, b - 1)) || InRegion(n, (a - 1, b + 1))
    ensures InRegion(n, (a + 1, b)) || InRegion(n, (a - 1, b))
  {
  }

  /** Every cell of a lattice of radius at least 1 has at least three
      neighbours, so the neighbour mean is always defined. */
  lemma AtLeastThreeNeighbours(n: int, keys: set<Coord>, c: Coord)
    requires n >= 1 && IsHexagon(n, keys) && c in keys
    ensures |Neighbours(keys, c)| >= 3
  {
    var s := Candidates(c);
    OppositeOffsets(n, c.0, c.1);
    assert InRegion(n, c);
    assert s[0] in keys || s[3] in keys;
    assert s[1] in keys || s[4] in keys;
    assert s[2] in keys || s[5] in keys;
    OnePerOppositePair(keys, c);
  }

  /** A cell keeping at least one of each pair of opposite candidates keeps at
      least three of them. */
  lemma OnePerOppositePair(keys: set<Coord>, c: Coord)
    requires var s := Candidates(c); s[0] in keys || s[3] in keys
    requires var s := Candidates(c); s[1] in keys || s[4] in keys
    requires var s := Candidates(c); s[2] in keys || s[5] in keys
    ensures |Neighbours(keys, c)| >= 3
  {
    var s := Candidates(c);
    assert s[6..] == [];
    KeepPresentUnfold(keys, s, 5);
    KeepPresentUnfold(keys, s, 4);
    KeepPresentUnfold(keys, s, 3);
    KeepPresentUnfold(keys, s, 2);
    KeepPresentUnfold(keys, s, 1);
    KeepPresentUnfold(keys, s, 0);
    assert s[0..] == s;
  }

  /** A cell has all six neighbours exactly when it lies strictly inside the
      hexagon on all three axes. */
  lemma SixNeighboursIffInterior(n: int, keys: set<Coord>, c: Coord)
    requires IsHexagon(n, keys) && c in keys
    ensures |Neighbours(keys, c)| == 6 <==> Abs(c.0) < n && Abs(c.1) < n && Abs(c.0 + c.1) < n
  {
    var s := Candidates(c);
    if Abs(c.0) < n && Abs(c.1) < n && Abs(c.0 + c.1) < n {
      assert forall i :: 0 <= i < |s| ==> s[i] in keys;
    } else if Abs(c.0) >= n {
      if c.0 >= n { assert s[2] !in keys; } else { assert s[5] !in keys; }
    } else if Abs(c.1) >= n {
      if c.1 >= n { assert s[3] !in keys; } else { assert s[0] !in keys; }
    } else {
      if c.0 + c.1 >= n { assert s[2] !in keys; } else { assert s[5] !in keys; }
    }
  }

  /** is_edge: q or r is at plus or minus the radius.  Only cells of the
      outermost ring pass, and of that ring every cell passes except those
      whose only extreme coordinate is q + r. */
  function IsEdge(size: int, c: Coord): (b: bool)
    ensures b ==> !InRegion(size - 1, c)
    ensures InRegion(size, c) && !InRegion(size - 1, c) ==> (b <==> -size < c.0 + c.1 < size || Abs(c.0) == size || Abs(c.1) == size)
  {
    c.0 == size || c.0 == -size || c.1 == size || c.1 == -size
  }

  /** An edge cell lacks at least one neighbour; the converse fails on the two
      hexagon sides where |q + r| equals the radius, e.g. (1, 1) at radius 2. */
  lemma EdgeCellsLackNeighbours(n: int, keys: set<Coord>, c: Coord)
    requires IsHexagon(n, keys) && c in keys
    ensures IsEdge(n, c) ==> |Neighbours(keys, c)| < 6
    ensures n == 2 && c == (1, 1) ==> !IsEdge(n, c) && |Neighbours(keys, c)| < 6
  {
    SixNeighboursIffInterior(n, keys, c);
  }
}
