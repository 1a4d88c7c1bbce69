/** One step of the growth rule and what it preserves: the neighbour mean of
    the diffusing mass, the receptivity test, the three passes of a step, the
    guarded step the driver calls, and the invariants of repeated stepping. */
module Growth {
  import opened HexGrid
  import opened Termination

  // ---------------------------------------------------------------------------
  // Neighbour mean and receptivity

  /** The sum of `u` over the cells named in `ns`. */
  function SumU(cells: map<Coord, Hexagon>, ns: seq<Coord>): real
    requires forall i :: 0 <= i < |ns| ==> ns[i] in cells
  {
    if |ns| == 0 then 0.0 else cells[ns[0]].u + SumU(cells, ns[1..])
  }

  /** A sum of values that are all at least lo is at least |ns| lo. */
  lemma {:induction false} SumUAtLeast(cells: map<Coord, Hexagon>, ns: seq<Coord>, lo: real)
    requires forall i :: 0 <= i < |ns| ==> ns[i] in cells && cells[ns[i]].u >= lo
    ensures SumU(cells, ns) >= |ns| as real * lo
  {
    if |ns| > 0 {
      SumUAtLeast(cells, ns[1..], lo);
      OneMore((|ns| - 1) as real, lo);
    }
  }

  /** A sum of values that are all at most hi is at most |ns| hi. */
  lemma {:induction false} SumUAtMost(cells: map<Coord, Hexagon>, ns: seq<Coord>, hi: real)
    requires forall i :: 0 <= i < |ns| ==> ns[i] in cells && cells[ns[i]].u <= hi
    ensures SumU(cells, ns) <= |ns| as real * hi
  {
    if |ns| > 0 {
      SumUAtMost(cells, ns[1..], hi);
      OneMore((|ns| - 1) as real, hi);
    }
  }

  lemma OneMore(k: real, x: real)
    ensures (k + 1.0) * x == k * x + x
  {
  }

  /** The sum reads nothing but the `u` of the cells it names. */
  lemma {:induction false} SumUReadsOnlyU(a: map<Coord, Hexagon>, b: map<Coord, Hexagon>, ns: seq<Coord>)
    requires forall i :: 0 <= i < |ns| ==> ns[i] in a && ns[i] in b && a[ns[i]].u == b[ns[i]].u
    ensures SumU(a, ns) == SumU(b, ns)
  {
    if |ns| > 0 {
      SumUReadsOnlyU(a, b, ns[1..]);
    }
  }

  /** The mean of `u` over the cells named in `ns`. */
  function Mean(cells: map<Coord, Hexagon>, ns: seq<Coord>): real
    requires |ns| > 0 && forall i :: 0 <= i < |ns| ==> ns[i] in cells
  {
    SumU(cells, ns) / |ns| as real
  }

  /** umean_neighbours: the mean of `u` over the lattice neighbours of c,
      the value that times the neighbour count gives their sum. */
  function UMeanNeighbours(cells: map<Coord, Hexagon>, c: Coord): (m: real)
    requires |Neighbours(cells.Keys, c)| > 0
    ensures m * |Neighbours(cells.Keys, c)| as real == SumU(cells, Neighbours(cells.Keys, c))
  {
    var ns := Neighbours(cells.Keys, c);
    NeighboursInCells(cells, c);
    MeanOfTimesCount(cells, ns);
    Mean(cells, ns)
  }

  /** Every neighbour is a cell of the lattice. */
  lemma NeighboursInCells(cells: map<Coord, Hexagon>, c: Coord)
    ensures var ns := Neighbours(cells.Keys, c);
            forall i :: 0 <= i < |ns| ==> ns[i] in cells
  {
    var ns := Neighbours(cells.Keys, c);
    forall i | 0 <= i < |ns|
      ensures ns[i] in cells
    {
      assert ns[i] in ns;
    }
  }

  lemma MeanOfAtLeast(cells: map<Coord, Hexagon>, ns: seq<Coord>, lo: real)
    requires |ns| > 0 && forall i :: 0 <= i < |ns| ==> ns[i] in cells && cells[ns[i]].u >= lo
    ensures Mean(cells, ns) >= lo
  {
    SumUAtLeast(cells, ns, lo);
    DivideLower(SumU(cells, ns), |ns| as real, lo);
  }

  lemma MeanOfAtMost(cells: map<Coord, Hexagon>, ns: seq<Coord>, hi: real)
    requires |ns| > 0 && forall i :: 0 <= i < |ns| ==> ns[i] in cells && cells[ns[i]].u <= hi
    ensures Mean(cells, ns) <= hi
  {
    SumUAtMost(cells, ns, hi);
    DivideUpper(SumU(cells, ns), |ns| as real, hi);
  }

  /** The mean is at least the smallest `u` of the neighbours. */
  lemma MeanAtLeast(cells: map<Coord, Hexagon>, c: Coord, lo: real)
    requires |Neighbours(cells.Keys, c)| > 0
    requires forall x :: x in cells && Adjacent(c, x) ==> cells[x].u >= lo
    ensures UMeanNeighbours(cells, c) >= lo
  {
    var ns := Neighbours(cells.Keys, c);
    forall i | 0 <= i < |ns|
      ensures ns[i] in cells && cells[ns[i]].u >= lo
    {
      assert ns[i] in ns;
    }
    MeanOfAtLeast(cells, ns, lo);
  }

  /** The mean is at most the largest `u` of the neighbours. */
  lemma MeanAtMost(cells: map<Coord, Hexagon>, c: Coord, hi: real)
    requires |Neighbours(cells.Keys, c)| > 0
    requires forall x :: x in cells && Adjacent(c, x) ==> cells[x].u <= hi
    ensures UMeanNeighbours(cells, c) <= hi
  {
    var ns := Neighbours(cells.Keys, c);
    forall i | 0 <= i < |ns|
      ensures ns[i] in cells && cells[ns[i]].u <= hi
    {
      assert ns[i] in ns;
    }
    MeanOfAtMost(cells, ns, hi);
  }

  lemma DivideLower(s: real, k: real, lo: real)
    requires k > 0.0 && s >= k * lo
    ensures s / k >= lo
  {
    assert s / k * k == s;
  }

  lemma DivideUpper(s: real, k: real, hi: real)
    requires k > 0.0 && s <= k * hi
    ensures s / k <= hi
  {
    assert s / k * k == s;
  }

  /** The mean reads nothing but the lattice keys and the `u` of the cells. */
  lemma MeanReadsOnlyU(a: map<Coord, Hexagon>, b: map<Coord, Hexagon>, c: Coord)
    requires a.Keys == b.Keys && |Neighbours(a.Keys, c)| > 0
    requires forall k :: k in a ==> a[k].u == b[k].u
    ensures UMeanNeighbours(a, c) == UMeanNeighbours(b, c)
  {
    SumUReadsOnlyU(a, b, Neighbours(a.Keys, c));
  }

  /** Some cell named in `ns` is frozen; the early-return loop of the source. */
  function AnyFrozen(cells: map<Coord, Hexagon>, ns: seq<Coord>): (b: bool)
    requires forall i :: 0 <= i < |ns| ==> ns[i] in cells
    ensures b <==> exists i :: 0 <= i < |ns| && Frozen(cells[ns[i]])
  {
    if |ns| == 0 then false
    else if Frozen(cells[ns[0]]) then true
    else
      var rest := AnyFrozen(cells, ns[1..]);
      assert rest <==> exists i :: 1 <= i < |ns| && Frozen(cells[ns[i]]) by {
        if rest {
          var j :| 0 <= j < |ns| - 1 && Frozen(cells[ns[1..][j]]);
          assert Frozen(cells[ns[j + 1]]);
        }
        if exists i :: 1 <= i < |ns| && Frozen(cells[ns[i]]) {
          var i :| 1 <= i < |ns| && Frozen(cells[ns[i]]);
          assert ns[1..][i - 1] == ns[i];
        }
      }
      rest
  }

  /** if_receptive: the cell itself or one of its lattice neighbours is frozen. */
  function IfReceptive(cells: map<Coord, Hexagon>, c: Coord): (b: bool)
    requires c in cells
    ensures b <==> Frozen(cells[c]) || exists x :: x in cells && Adjacent(c, x) && Frozen(cells[x])
  {
    var ns := Neighbours(cells.Keys, c);
    var any := AnyFrozen(cells, ns);
    assert any <==> exists x :: x in cells && Adjacent(c, x) && Frozen(cells[x]) by {
      if any {
        var i :| 0 <= i < |ns| && Frozen(cells[ns[i]]);
        assert ns[i] in ns;
      }
      if exists x :: x in cells && Adjacent(c, x) && Frozen(cells[x]) {
        var x :| x in cells && Adjacent(c, x) && Frozen(cells[x]);
        assert x in ns;
        var i :| 0 <= i < |ns| && ns[i] == x;
      }
    }
    Frozen(cells[c]) || any
  }

  /** Receptivity reads nothing but the lattice keys and the `state` of the cells. */
  lemma ReceptiveReadsOnlyState(a: map<Coord, Hexagon>, b: map<Coord, Hexagon>, c: Coord)
    requires a.Keys == b.Keys && c in a
    requires forall k :: k in a ==> a[k].state == b[k].state
    ensures IfReceptive(a, c) == IfReceptive(b, c)
  {
    if IfReceptive(a, c) && !Frozen(a[c]) {
      var x :| x in a && Adjacent(c, x) && Frozen(a[x]);
      assert Frozen(b[x]);
    }
    if IfReceptive(b, c) && !Frozen(b[c]) {
      var x :| x in b && Adjacent(c, x) && Frozen(b[x]);
      assert Frozen(a[x]);
    }
  }

  // ---------------------------------------------------------------------------
  // The three passes of a step

  /** Pass 2 on one cell: a receptive cell keeps all its mass as retained mass
      and raises its flag; any other cell turns all its mass into diffusing
      mass and keeps its flag. */
  function Redistribute(h: Hexagon, receptiveNow: bool): (r: Hexagon)
    ensures r.u + r.v == h.state && r.state == h.state && r.meanU == h.meanU
    ensures receptiveNow ==> r.u == 0.0 && r.receptive
    ensures !receptiveNow ==> r.v == 0.0 && r.receptive == h.receptive
  {
    if receptiveNow then h.(u := 0.0, v := h.state, receptive := true)
    else h.(u := h.state, v := 0.0)
  }

  /** Pass 3 on one cell: relax `u` towards the neighbour mean, add `gamma` to
      the retained mass of a flagged cell, and total the two.  With alpha in
      [0, 2] the new `u` lies between the old one and the mean. */
  function Relax(h: Hexagon, alpha: real, gamma: real): (r: Hexagon)
    ensures r.state == r.u + r.v && r.meanU == h.meanU && r.receptive == h.receptive
    ensures r.v == (if h.receptive then h.v + gamma else h.v)
    ensures 0.0 <= alpha <= 2.0 ==> h.u <= r.u <= h.meanU || h.meanU <= r.u <= h.u
  {
    var u := h.u + alpha / 2.0 * (h.meanU - h.u);
    var v := if h.receptive then h.v + gamma else h.v;
    RelaxStaysBetween(alpha, h.u, h.meanU, u);
    h.(u := u, v := v, state := u + v)
  }

  /** A relaxation step of rate alpha / 2 with alpha in [0, 2] does not
      overshoot its target. */
  lemma RelaxStaysBetween(alpha: real, u: real, m: real, u': real)
    requires u' == u + alpha / 2.0 * (m - u)
    ensures 0.0 <= alpha <= 2.0 ==> u <= u' <= m || m <= u' <= u
  {
    if 0.0 <= alpha <= 2.0 {
      FractionBetween(alpha / 2.0, m - u);
    }
  }

  lemma FractionBetween(a: real, d: real)
    requires 0.0 <= a <= 1.0
    ensures 0.0 <= d ==> 0.0 <= a * d <= d
    ensures d <= 0.0 ==> d <= a * d <= 0.0
  {
    assert a * d + (1.0 - a) * d == d;
    if 0.0 <= d {
      assert (1.0 - a) * d >= 0.0;
    } else {
      assert (1.0 - a) * d <= 0.0;
    }
  }

  /** Pass 1 over all cells, each reading the values before the pass: every
      cell records the mean of its neighbours and keeps everything else. */
  function MeanPass(cells: map<Coord, Hexagon>): (r: map<Coord, Hexagon>)
    requires Surrounded(cells)
    ensures r.Keys == cells.Keys
    ensures forall c :: c in cells ==> r[c].(meanU := cells[c].meanU) == cells[c]
    ensures forall c :: c in cells ==> r[c].meanU == UMeanNeighbours(cells, c)
  {
    map c | c in cells :: cells[c].(meanU := UMeanNeighbours(cells, c))
  }

  /** Pass 2 over all cells, each reading the values before the pass: every
      cell keeps its mass, split by whether it is receptive now, and the cells
      flagged afterwards are those flagged before plus those receptive now. */
  function RedistributePass(cells: map<Coord, Hexagon>): (r: map<Coord, Hexagon>)
    ensures r.Keys == cells.Keys
    ensures forall c :: c in cells ==> r[c].state == cells[c].state && r[c].u + r[c].v == cells[c].state
    ensures forall c :: c in cells ==> (r[c].receptive <==> cells[c].receptive || IfReceptive(cells, c))
  {
    map c | c in cells :: Redistribute(cells[c], IfReceptive(cells, c))
  }

  /** Pass 3 over all cells: afterwards every cell is balanced and no flag
      has changed. */
  function RelaxPass(cells: map<Coord, Hexagon>, alpha: real, gamma: real): (r: map<Coord, Hexagon>)
    ensures r.Keys == cells.Keys
    ensures forall c :: c in cells ==> r[c].state == r[c].u + r[c].v && r[c].receptive == cells[c].receptive
  {
    map c | c in cells :: Relax(cells[c], alpha, gamma)
  }

  /** Every cell holds exactly its diffusing plus its retained mass. */
  ghost predicate Balanced(l: Lattice)
  {
    forall c :: c in l.cells ==> l.cells[c].state == l.cells[c].u + l.cells[c].v
  }

  /** The three passes on one hexagon, given its neighbour mean m and whether
      it is receptive now: the hexagon ends balanced, records m, and is
      flagged exactly when it was already or is receptive now. */
  function Update(h: Hexagon, m: real, receptiveNow: bool, alpha: real, gamma: real): (r: Hexagon)
    ensures r.meanU == m && r.state == r.u + r.v
    ensures r.receptive <==> h.receptive || receptiveNow
  {
    Relax(Redistribute(h.(meanU := m), receptiveNow), alpha, gamma)
  }

  /** One cell after a step: the three passes applied to it, each reading the
      values from before the step. */
  function NextCell(cells: map<Coord, Hexagon>, alpha: real, gamma: real, c: Coord): (r: Hexagon)
    requires c in cells && |Neighbours(cells.Keys, c)| > 0
    ensures r.state == r.u + r.v && r.meanU == UMeanNeighbours(cells, c)
    ensures r.receptive <==> cells[c].receptive || IfReceptive(cells, c)
  {
    Update(cells[c], UMeanNeighbours(cells, c), IfReceptive(cells, c), alpha, gamma)
  }

  /** Every cell moves to NextCell at once.  The update keeps the cells,
      leaves every cell balanced, and never clears a receptive flag. */
  function StepCells(cells: map<Coord, Hexagon>, alpha: real, gamma: real): (r: map<Coord, Hexagon>)
    requires Surrounded(cells)
    ensures r.Keys == cells.Keys
    ensures forall c :: c in r ==> r[c].state == r[c].u + r[c].v
    ensures forall c :: c in cells && cells[c].receptive ==> r[c].receptive
  {
    map c | c in cells :: NextCell(cells, alpha, gamma, c)
  }

  /** One step of the growth rule on the lattice: the cells and the parameters
      stay as they are. */
  function Step(l: Lattice): (r: Lattice)
    requires Valid(l)
    ensures Valid(r) && r.cells.Keys == l.cells.Keys
    ensures r.size == l.size && r.alpha == l.alpha && r.beta == l.beta && r.gamma == l.gamma
    ensures r.lastFrozen == l.lastFrozen
    ensures Balanced(r)
    ensures forall c :: c in l.cells && l.cells[c].receptive ==> r.cells[c].receptive
  {
    HexagonIsSurrounded(l.size, l.cells);
    l.(cells := StepCells(l.cells, l.alpha, l.gamma))
  }

  /** The step is the three source passes one after the other, each pass a
      simultaneous update: pass 2 reads only the `state` pass 1 leaves alone,
      pass 3 only the cell's own fields. */
  lemma StepIsThreePasses(cells: map<Coord, Hexagon>, alpha: real, gamma: real)
    requires Surrounded(cells)
    ensures StepCells(cells, alpha, gamma) == RelaxPass(RedistributePass(MeanPass(cells)), alpha, gamma)
  {
    var p3 := RelaxPass(RedistributePass(MeanPass(cells)), alpha, gamma);
    forall c | c in cells
      ensures StepCells(cells, alpha, gamma)[c] == p3[c]
    {
      PassesAt(cells, alpha, gamma, c);
    }
    MapsEqual(StepCells(cells, alpha, gamma), p3);
  }

  lemma PassesAt(cells: map<Coord, Hexagon>, alpha: real, gamma: real, c: Coord)
    requires Surrounded(cells) && c in cells
    ensures RelaxPass(RedistributePass(MeanPass(cells)), alpha, gamma)[c] == NextCell(cells, alpha, gamma, c)
  {
    var p1 := MeanPass(cells);
    var p2 := RedistributePass(p1);
    var m, rec := UMeanNeighbours(cells, c), IfReceptive(cells, c);
    assert p1[c] == cells[c].(meanU := m);
    MeanPassKeepsState(cells);
    ReceptiveReadsOnlyState(cells, p1, c);
    assert p2[c] == Redistribute(p1[c], rec);
    assert RelaxPass(p2, alpha, gamma)[c] == Relax(p2[c], alpha, gamma);
    assert NextCell(cells, alpha, gamma, c) == Update(cells[c], m, rec, alpha, gamma);
  }

  /** Pass 1 writes only the mean: the keys and every `state` stay. */
  lemma MeanPassKeepsState(cells: map<Coord, Hexagon>)
    requires Surrounded(cells)
    ensures MeanPass(cells).Keys == cells.Keys
    ensures forall k :: k in cells ==> MeanPass(cells)[k].state == cells[k].state
  {
  }

  /** In a step every cell has at least three neighbours and moves to NextCell. */
  lemma StepAt(l: Lattice, c: Coord)
    requires Valid(l) && c in l.cells
    ensures |Neighbours(l.cells.Keys, c)| >= 3
    ensures Step(l).cells[c] == NextCell(l.cells, l.alpha, l.gamma, c)
  {
    AtLeastThreeNeighbours(l.size, l.cells.Keys, c);
  }

  /** The result of the update of one hexagon, from its values before the step
      only: a hexagon receptive now gets u = alpha/2 m and v = state + gamma
      and raises its flag; any other gets u = state + alpha/2 (m - state), and
      v = gamma if its flag was already raised, else 0, keeping the flag.  In
      both cases the new state is u + v. */
  lemma UpdateValues(h: Hexagon, m: real, receptiveNow: bool, alpha: real, gamma: real)
    ensures var h' := Update(h, m, receptiveNow, alpha, gamma);
            h'.meanU == m && h'.state == h'.u + h'.v
    ensures var h' := Update(h, m, receptiveNow, alpha, gamma);
            receptiveNow ==> h'.u == alpha / 2.0 * m && h'.v == h.state + gamma && h'.receptive
    ensures var h' := Update(h, m, receptiveNow, alpha, gamma);
            !receptiveNow ==>
              && h'.u == h.state + alpha / 2.0 * (m - h.state)
              && h'.v == (if h.receptive then gamma else 0.0)
              && h'.receptive == h.receptive
  {
    if receptiveNow {
      HalfRateFromZero(alpha, m);
    }
  }

  lemma HalfRateFromZero(alpha: real, m: real)
    ensures 0.0 + alpha / 2.0 * (m - 0.0) == alpha / 2.0 * m
  {
  }

  lemma MeanOfTimesCount(cells: map<Coord, Hexagon>, ns: seq<Coord>)
    requires |ns| > 0 && forall i :: 0 <= i < |ns| ==> ns[i] in cells
    ensures Mean(cells, ns) * |ns| as real == SumU(cells, ns)
  {
    DivideThenMultiply(SumU(cells, ns), |ns| as real);
  }

  lemma DivideThenMultiply(s: real, k: real)
    requires k != 0.0
    ensures s / k * k == s
  {
  }

  // ---------------------------------------------------------------------------
  // Invariants of a step

  /** The physically meaningful parameters: 0 <= alpha <= 2, beta >= 0,
      gamma >= 0. */
  predicate ParametersInRange(l: Lattice)
  {
    0.0 <= l.alpha <= 2.0 && l.beta >= 0.0 && l.gamma >= 0.0
  }

  /** No cell holds a negative amount of anything. */
  ghost predicate AllNonNegative(cells: map<Coord, Hexagon>)
  {
    forall c :: c in cells ==>
      cells[c].u >= 0.0 && cells[c].v >= 0.0 && cells[c].state >= 0.0 && cells[c].meanU >= 0.0
  }

  ghost predicate NonNegative(l: Lattice)
  {
    AllNonNegative(l.cells)
  }

  /** Relaxing a non-negative value towards a non-negative mean at a rate in
      [0, 2] stays non-negative. */
  lemma RelaxNonNegative(alpha: real, s: real, m: real)
    requires 0.0 <= alpha <= 2.0 && s >= 0.0 && m >= 0.0
    ensures s + alpha / 2.0 * (m - s) >= 0.0
  {
    assert s + alpha / 2.0 * (m - s) == (1.0 - alpha / 2.0) * s + alpha / 2.0 * m;
    assert (1.0 - alpha / 2.0) * s >= 0.0;
    assert alpha / 2.0 * m >= 0.0;
  }

  lemma HalfRateNonNegative(alpha: real, m: real)
    requires alpha >= 0.0 && m >= 0.0
    ensures alpha / 2.0 * m >= 0.0
  {
  }

  /** With the parameters in range the update of a hexagon holding no negative
      mass, towards a non-negative mean, leaves no amount negative. */
  lemma UpdateNonNegative(h: Hexagon, m: real, receptiveNow: bool, alpha: real, gamma: real)
    requires h.state >= 0.0 && m >= 0.0 && 0.0 <= alpha <= 2.0 && gamma >= 0.0
    ensures var h' := Update(h, m, receptiveNow, alpha, gamma);
            h'.u >= 0.0 && h'.v >= 0.0 && h'.state >= 0.0 && h'.meanU >= 0.0
  {
    UpdateValues(h, m, receptiveNow, alpha, gamma);
    if receptiveNow {
      HalfRateNonNegative(alpha, m);
    } else {
      RelaxNonNegative(alpha, h.state, m);
    }
  }

  /** A hexagon receptive in an update does not lose mass in it. */
  lemma UpdateReceptiveGrows(h: Hexagon, m: real, alpha: real, gamma: real)
    requires m >= 0.0 && alpha >= 0.0 && gamma >= 0.0
    ensures Update(h, m, true, alpha, gamma).state >= h.state
  {
    UpdateValues(h, m, true, alpha, gamma);
    HalfRateNonNegative(alpha, m);
  }

  /** With the parameters in range one cell's update keeps every amount
      non-negative. */
  lemma NextCellNonNegative(cells: map<Coord, Hexagon>, alpha: real, gamma: real, c: Coord)
    requires c in cells && |Neighbours(cells.Keys, c)| > 0 && AllNonNegative(cells)
    requires 0.0 <= alpha <= 2.0 && gamma >= 0.0
    ensures var h' := NextCell(cells, alpha, gamma, c);
            h'.u >= 0.0 && h'.v >= 0.0 && h'.state >= 0.0 && h'.meanU >= 0.0
  {
    MeanAtLeast(cells, c, 0.0);
    UpdateNonNegative(cells[c], UMeanNeighbours(cells, c), IfReceptive(cells, c), alpha, gamma);
  }

  /** A cell receptive in an update does not lose mass in it. */
  lemma NextCellReceptiveGrows(cells: map<Coord, Hexagon>, alpha: real, gamma: real, c: Coord)
    requires c in cells && |Neighbours(cells.Keys, c)| > 0 && AllNonNegative(cells)
    requires alpha >= 0.0 && gamma >= 0.0 && IfReceptive(cells, c)
    ensures NextCell(cells, alpha, gamma, c).state >= cells[c].state
  {
    MeanAtLeast(cells, c, 0.0);
    UpdateReceptiveGrows(cells[c], UMeanNeighbours(cells, c), alpha, gamma);
  }

  /** With the parameters in range a step keeps every amount non-negative. */
  lemma StepKeepsNonNegative(l: Lattice)
    requires Valid(l) && ParametersInRange(l) && NonNegative(l)
    ensures NonNegative(Step(l))
  {
    var r := Step(l);
    forall c | c in r.cells
      ensures r.cells[c].u >= 0.0 && r.cells[c].v >= 0.0 && r.cells[c].state >= 0.0 && r.cells[c].meanU >= 0.0
    {
      StepAt(l, c);
      NextCellNonNegative(l.cells, l.alpha, l.gamma, c);
    }
  }

  /** A cell receptive in a step does not lose mass in it. */
  lemma ReceptiveStateGrows(l: Lattice, c: Coord)
    requires Valid(l) && NonNegative(l) && l.alpha >= 0.0 && l.gamma >= 0.0
    requires c in l.cells && IfReceptive(l.cells, c)
    ensures Step(l).cells[c].state >= l.cells[c].state
  {
    StepAt(l, c);
    NextCellReceptiveGrows(l.cells, l.alpha, l.gamma, c);
  }

  /** A frozen cell stays frozen: the frozen cells before a step are among the
      frozen cells after it. */
  lemma FrozenStaysFrozen(l: Lattice)
    requires Valid(l) && NonNegative(l) && l.alpha >= 0.0 && l.gamma >= 0.0
    ensures FrozenSet(l) <= FrozenSet(Step(l))
  {
    forall c | c in FrozenSet(l)
      ensures c in FrozenSet(Step(l))
    {
      ReceptiveStateGrows(l, c);
    }
  }

  /** At radius 1 a single step from construction makes every cell receptive:
      each of the six outer cells touches the frozen seed. */
  lemma SizeOneFirstStep(alpha: real, beta: real, gamma: real)
    ensures var r := Step(NewLattice(1, alpha, beta, gamma));
            forall c :: c in r.cells ==> r.cells[c].receptive
  {
    var l := NewLattice(1, alpha, beta, gamma);
    assert forall c :: c in l.cells ==> c == Seed || Adjacent(c, Seed);
    HexagonIsSurrounded(l.size, l.cells);
    TouchingFrozenSeedTurnsReceptive(l.cells, l.alpha, l.gamma);
  }

  /** When the seed is frozen and every cell is the seed or touches it, one
      update makes every cell receptive. */
  lemma TouchingFrozenSeedTurnsReceptive(cells: map<Coord, Hexagon>, alpha: real, gamma: real)
    requires Surrounded(cells) && Seed in cells && Frozen(cells[Seed])
    requires forall c :: c in cells ==> c == Seed || Adjacent(c, Seed)
    ensures forall c :: c in cells ==> StepCells(cells, alpha, gamma)[c].receptive
  {
    forall c | c in cells
      ensures StepCells(cells, alpha, gamma)[c].receptive
    {
      UpdateValues(cells[c], UMeanNeighbours(cells, c), IfReceptive(cells, c), alpha, gamma);
      if c != Seed {
        assert Adjacent(c, Seed);
      }
    }
  }

  // ---------------------------------------------------------------------------
  // The guarded step and repeated stepping

  /** diffusion: stop (leave the lattice as it is) once the convergence test
      holds, otherwise remember the frozen count for the next test and step. */
  function Diffusion(l: Lattice): (r: Lattice)
    requires Valid(l)
    ensures Valid(r)
  {
    if HasConverged(l) then l else Step(l).(lastFrozen := FrozenCount(l))
  }

  /** diffusion as the source writes it, guarded by the test as written. */
  function DiffusionAsWritten(l: Lattice): (r: Lattice)
    requires Valid(l)
    ensures Valid(r)
  {
    if AllEndsFrozenAsWritten(l) then l else Step(l)
  }

  /** Once the test holds the guarded step changes nothing. */
  lemma ConvergedIsFixedPoint(l: Lattice)
    requires Valid(l) && HasConverged(l)
    ensures Diffusion(l) == l
  {
  }

  /** What every lattice reachable from construction satisfies. */
  ghost predicate Inv(l: Lattice)
  {
    && Valid(l)
    && ParametersInRange(l)
    && NonNegative(l)
    && Balanced(l)
    && Frozen(l.cells[Seed])
  }

  /** A freshly built lattice with parameters in range satisfies Inv: the seed
      is frozen, every other cell holds beta, and all of it is balanced. */
  lemma NewLatticeInv(size: int, alpha: real, beta: real, gamma: real)
    requires size >= 1 && 0.0 <= alpha <= 2.0 && beta >= 0.0 && gamma >= 0.0
    ensures Inv(NewLattice(size, alpha, beta, gamma))
  {
  }

  /** The guarded step keeps Inv. */
  lemma DiffusionKeepsInv(l: Lattice)
    requires Inv(l)
    ensures Inv(Diffusion(l))
    ensures FrozenSet(l) <= FrozenSet(Diffusion(l))
  {
    if !HasConverged(l) {
      StepKeepsInv(l);
      SameCellsSameIce(Diffusion(l), Step(l));
    }
  }

  /** The lattice after k calls of diffusion. */
  function Run(l: Lattice, k: nat): (r: Lattice)
    requires Inv(l)
    ensures Inv(r)
    ensures FrozenSet(l) <= FrozenSet(r)
    decreases k
  {
    if k == 0 then l
    else
      DiffusionKeepsInv(l);
      Run(Diffusion(l), k - 1)
  }

  /** A step keeps Inv and every frozen cell frozen. */
  lemma StepKeepsInv(l: Lattice)
    requires Inv(l)
    ensures Inv(Step(l))
    ensures FrozenSet(l) <= FrozenSet(Step(l))
  {
    StepKeepsNonNegative(l);
    FrozenStaysFrozen(l);
    assert Seed in FrozenSet(l);
  }

  /** Calling diffusion as written keeps Inv. */
  lemma DiffusionAsWrittenKeepsInv(l: Lattice)
    requires Inv(l)
    ensures Inv(DiffusionAsWritten(l))
    ensures FrozenSet(l) <= FrozenSet(DiffusionAsWritten(l))
  {
    if !AllEndsFrozenAsWritten(l) {
      assert DiffusionAsWritten(l) == Step(l);
      StepKeepsInv(l);
    }
  }

  /** The lattice after k calls of diffusion as the source writes it. */
  function RunAsWritten(l: Lattice, k: nat): (r: Lattice)
    requires Inv(l)
    ensures Inv(r) && r.size == l.size
    ensures FrozenSet(l) <= FrozenSet(r)
    decreases k
  {
    if k == 0 then l
    else
      DiffusionAsWrittenKeepsInv(l);
      RunAsWritten(DiffusionAsWritten(l), k - 1)
  }

  /** However many times diffusion as written has been called since
      construction, its stall branch cannot fire: the seed stays frozen, so the
      frozen count is never 0.  At radius 1 the next call therefore steps
      again. */
  lemma StallAsWrittenNeverFiresOnRun(size: int, alpha: real, beta: real, gamma: real, k: nat)
    requires size >= 1 && 0.0 <= alpha <= 2.0 && beta >= 0.0 && gamma >= 0.0
    ensures var r := RunAsWritten(NewLattice(size, alpha, beta, gamma), k);
            FrozenCount(r) >= 1 && (AllEndsFrozenAsWritten(r) <==> FrozenEndsAsWritten(r) == 6)
    ensures var r := RunAsWritten(NewLattice(size, alpha, beta, gamma), k);
            size == 1 ==> DiffusionAsWritten(r) == Step(r)
  {
    NewLatticeInv(size, alpha, beta, gamma);
    var r := RunAsWritten(NewLattice(size, alpha, beta, gamma), k);
    StallAsWrittenNeverFires(r);
    if size == 1 {
      SizeOneAsWrittenNeverStops(r);
    }
  }

  /** The corrected stall test fires exactly when the last step froze no new
      cell. */
  lemma StallMeansNoNewIce(l: Lattice)
    requires Inv(l) && !HasConverged(l)
    ensures Stalled(Diffusion(l)) <==> FrozenSet(Diffusion(l)) == FrozenSet(l)
  {
    FrozenStaysFrozen(l);
    var r := Diffusion(l);
    assert r.cells == Step(l).cells && r.lastFrozen == FrozenCount(l);
    SameCellsSameIce(r, Step(l));
    SubsetSameSizeIff(FrozenSet(l), FrozenSet(r));
  }

  /** The frozen cells depend on the cells alone. */
  lemma SameCellsSameIce(a: Lattice, b: Lattice)
    requires a.cells == b.cells
    ensures FrozenSet(a) == FrozenSet(b)
  {
  }

  /** A subset has the size of its superset exactly when the two are equal. */
  lemma SubsetSameSizeIff(a: set<Coord>, b: set<Coord>)
    requires a <= b
    ensures |a| == |b| <==> a == b
  {
    if |a| == |b| {
      SubsetSameSize(a, b);
    }
  }

  /** At radius 1 the guarded step as written never stops, while the corrected
      one stops at once: every tip is the frozen seed. */
  lemma SizeOneAsWrittenNeverStops(l: Lattice)
    requires Inv(l) && l.size == 1
    ensures DiffusionAsWritten(l) == Step(l)
    ensures Diffusion(l) == l
  {
    SizeOneTipsNeverCountSix(l);
    FrozenEndsSixIffTipsFrozen(l);
  }
}
