/** The step as the source performs it: three loops over the lattice keys, each
    updating the cells one after another in place, so that a cell visited late
    in a loop sees the cells visited earlier already changed.  Each loop is
    proved equal to the simultaneous pass, whatever the order of the keys. */
module InPlace {
  import opened HexGrid
  import opened Termination
  import opened Growth

  /** `order` lists every key of the lattice exactly once, as iterating the
      keys of a dictionary does. */
  ghost predicate Enumerates(order: seq<Coord>, keys: set<Coord>)
  {
    && (forall i, j :: 0 <= i < j < |order| ==> order[i] != order[j])
    && (forall k :: k in keys <==> k in order)
  }

  /** After the loop visited order[..i], the visited keys hold their value in
      `done` and the others their value in `before`. */
  ghost predicate VisitedUpTo(order: seq<Coord>, i: int, out: map<Coord, Hexagon>,
                              before: map<Coord, Hexagon>, done: map<Coord, Hexagon>)
    requires 0 <= i <= |order|
  {
    && out.Keys == before.Keys == done.Keys
    && forall k :: k in out ==> out[k] == (if k in order[..i] then done[k] else before[k])
  }

  /** Visiting order[i] next: the keys visited before are unaffected by the
      write, and the written key moves from `before` to `done`. */
  lemma VisitNext(order: seq<Coord>, i: int, out: map<Coord, Hexagon>,
                  before: map<Coord, Hexagon>, done: map<Coord, Hexagon>)
    requires Enumerates(order, before.Keys) && 0 <= i < |order|
    requires VisitedUpTo(order, i, out, before, done)
    ensures order[i] in out && out[order[i]] == before[order[i]]
    ensures VisitedUpTo(order, i + 1, out[order[i] := done[order[i]]], before, done)
  {
    var c := order[i];
    assert c in before;
    assert forall j :: 0 <= j < i ==> order[..i][j] != c;
    assert order[..i + 1] == order[..i] + [c];
  }

  /** At the end of the loop every key has been visited. */
  lemma VisitedAll(order: seq<Coord>, out: map<Coord, Hexagon>,
                   before: map<Coord, Hexagon>, done: map<Coord, Hexagon>)
    requires Enumerates(order, before.Keys)
    requires VisitedUpTo(order, |order|, out, before, done)
    ensures out == done
  {
    assert order[..|order|] == order;
    MapsEqual(out, done);
  }

  /** Pass 1 in place: every cell's mean is written while later cells are
      still to be visited.  The mean reads only `u`, which the pass never
      writes, so the result is the simultaneous pass. */
  method MeanPassInPlace(cells: map<Coord, Hexagon>, order: seq<Coord>) returns (out: map<Coord, Hexagon>)
    requires Surrounded(cells) && Enumerates(order, cells.Keys)
    ensures out == MeanPass(cells)
  {
    ghost var done := MeanPass(cells);
    out := cells;
    var i := 0;
    while i < |order|
      invariant 0 <= i <= |order|
      invariant VisitedUpTo(order, i, out, cells, done)
    {
      var c := order[i];
      VisitNext(order, i, out, cells, done);
      MeanVisit(cells, out, c);
      out := out[c := out[c].(meanU := UMeanNeighbours(out, c))];
      i := i + 1;
    }
    VisitedAll(order, out, cells, done);
  }

  /** Midway through pass 1 the next cell still holds its value from before the
      pass, and the `u` of every cell is untouched, so its mean is the one the
      simultaneous pass computes. */
  lemma MeanVisit(cells: map<Coord, Hexagon>, out: map<Coord, Hexagon>, c: Coord)
    requires Surrounded(cells) && c in cells && out.Keys == cells.Keys && out[c] == cells[c]
    requires forall k :: k in out ==> out[k] == cells[k] || out[k] == MeanPass(cells)[k]
    ensures |Neighbours(out.Keys, c)| > 0
    ensures out[c].(meanU := UMeanNeighbours(out, c)) == MeanPass(cells)[c]
  {
    assert |Neighbours(cells.Keys, c)| > 0;
    MeanReadsOnlyU(cells, out, c);
  }

  /** Midway through pass 2 the next cell still holds its value from before the
      pass, and the `state` of every cell is untouched, so its receptivity is
      the one the simultaneous pass computes. */
  lemma RedistributeVisit(cells: map<Coord, Hexagon>, out: map<Coord, Hexagon>, c: Coord)
    requires c in cells && out.Keys == cells.Keys && out[c] == cells[c]
    requires forall k :: k in out ==> out[k] == cells[k] || out[k] == RedistributePass(cells)[k]
    ensures Redistribute(out[c], IfReceptive(out, c)) == RedistributePass(cells)[c]
  {
    ReceptiveReadsOnlyState(cells, out, c);
  }

  /** Pass 2 in place: receptivity reads only `state`, which the pass never
      writes, so visiting the cells one by one gives the simultaneous pass. */
  method RedistributeInPlace(cells: map<Coord, Hexagon>, order: seq<Coord>) returns (out: map<Coord, Hexagon>)
    requires Enumerates(order, cells.Keys)
    ensures out == RedistributePass(cells)
  {
    ghost var done := RedistributePass(cells);
    out := cells;
    var i := 0;
    while i < |order|
      invariant 0 <= i <= |order|
      invariant VisitedUpTo(order, i, out, cells, done)
    {
      var c := order[i];
      VisitNext(order, i, out, cells, done);
      RedistributeVisit(cells, out, c);
      out := out[c := Redistribute(out[c], IfReceptive(out, c))];
      i := i + 1;
    }
    VisitedAll(order, out, cells, done);
  }

  /** Pass 3 in place: each cell reads only its own fields. */
  method RelaxInPlace(cells: map<Coord, Hexagon>, order: seq<Coord>, alpha: real, gamma: real)
    returns (out: map<Coord, Hexagon>)
    requires Enumerates(order, cells.Keys)
    ensures out == RelaxPass(cells, alpha, gamma)
  {
    ghost var done := RelaxPass(cells, alpha, gamma);
    out := cells;
    var i := 0;
    while i < |order|
      invariant 0 <= i <= |order|
      invariant VisitedUpTo(order, i, out, cells, done)
    {
      var c := order[i];
      VisitNext(order, i, out, cells, done);
      out := out[c := Relax(out[c], alpha, gamma)];
      i := i + 1;
    }
    VisitedAll(order, out, cells, done);
  }

  /** diffusion as the source runs it, with the corrected convergence test:
      whatever order the keys are visited in, it computes Diffusion. */
  method DiffusionInPlace(l: Lattice, order: seq<Coord>) returns (r: Lattice)
    requires Valid(l) && Enumerates(order, l.cells.Keys)
    ensures r == Diffusion(l)
  {
    if HasConverged(l) {
      return l;
    }
    HexagonIsSurrounded(l.size, l.cells);
    var c1 := MeanPassInPlace(l.cells, order);
    var c2 := RedistributeInPlace(c1, order);
    var c3 := RelaxInPlace(c2, order, l.alpha, l.gamma);
    StepIsThreePasses(l.cells, l.alpha, l.gamma);
    r := l.(cells := c3, lastFrozen := FrozenCount(l));
  }
}
