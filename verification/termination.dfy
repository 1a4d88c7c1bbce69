/** The convergence test of the automaton: the six branch tips and the count of
    frozen cells, both as the source writes the test and as it evidently means it. */
module Termination {
  import opened HexGrid

  /** The branch tips at distance size - 1 along the six principal directions,
      in the order the source lists them. */
  function Tips(n: int): (ts: seq<Coord>)
    ensures |ts| == 6
    ensures forall t :: t in ts ==> t.0 == 0 || t.1 == 0 || t.0 + t.1 == 0
    ensures forall t :: t in ts ==> Abs(t.0) + Abs(t.1) + Abs(t.0 + t.1) == 2 * Abs(n - 1)
  {
    [(-(n - 1), n - 1), (n - 1, -(n - 1)), (0, n - 1), (0, -(n - 1)), (n - 1, 0), (-(n - 1), 0)]
  }

  /** For a radius of at least 1 every tip is a lattice cell, so looking a tip
      up never fails. */
  lemma TipsInLattice(n: int)
    requires n >= 1
    ensures forall t :: t in Tips(n) ==> InRegion(n, t)
  {
  }

  /** The cells that have frozen. */
  function FrozenSet(l: Lattice): (s: set<Coord>)
    ensures forall c :: c in s <==> c in l.cells && Frozen(l.cells[c])
  {
    set c | c in l.cells && Frozen(l.cells[c])
  }

  function FrozenCount(l: Lattice): nat
  {
    |FrozenSet(l)|
  }

  /** The source's frozen_ends: it walks a set of tip coordinates, so tips
      that coincide are counted once.  The count is at most 6 and reaches 6
      only when every tip is frozen. */
  function FrozenEndsAsWritten(l: Lattice): (k: nat)
    requires Valid(l)
    ensures k <= 6
    ensures k == 6 ==> TipsFrozen(l)
  {
    DistinctFrozenTips(l);
    |FrozenTips(l)|
  }

  /** The tips that are frozen, each counted once. */
  function FrozenTips(l: Lattice): set<Coord>
    requires Valid(l)
  {
    TipsInLattice(l.size);
    set t | t in Tips(l.size) && Frozen(l.cells[t])
  }

  /** The distinct frozen tips number at most 6, and 6 of them means all. */
  lemma DistinctFrozenTips(l: Lattice)
    requires Valid(l)
    ensures |FrozenTips(l)| <= 6
    ensures |FrozenTips(l)| == 6 ==> TipsFrozen(l)
  {
    TipsInLattice(l.size);
    var m := l.size - 1;
    var all := set t | t in Tips(l.size);
    var frozen := set t | t in Tips(l.size) && Frozen(l.cells[t]);
    assert all == {(-m, m), (m, -m), (0, m), (0, -m), (m, 0), (-m, 0)};
    SetOfSixAtMostSix((-m, m), (m, -m), (0, m), (0, -m), (m, 0), (-m, 0));
    assert frozen <= all;
    SubsetNoLarger(frozen, all);
    if |frozen| == 6 {
      SubsetSameSize(frozen, all);
      forall t | t in Tips(l.size)
        ensures Frozen(l.cells[t])
      {
        assert t in all;
      }
    }
  }

  lemma SetOfSixAtMostSix(a: Coord, b: Coord, c: Coord, d: Coord, e: Coord, f: Coord)
    ensures |{a, b, c, d, e, f}| <= 6
  {
  }

  lemma SubsetNoLarger(a: set<Coord>, b: set<Coord>)
    requires a <= b
    ensures |a| <= |b|
  {
    assert b == a + (b - a);
  }

  /** all_ends_frozen as written, with its print, image save and exit replaced
      by the result: six frozen tips counted through the set, or a frozen count
      equal to the list entry before it, which is always the 0 the list was
      created with in the same call. */
  function AllEndsFrozenAsWritten(l: Lattice): (b: bool)
    requires Valid(l)
    ensures b <==> FrozenEndsAsWritten(l) == 6 || forall c :: c in l.cells ==> !Frozen(l.cells[c])
  {
    NoneFrozenIffCountZero(l);
    FrozenEndsAsWritten(l) == 6 || FrozenCount(l) == 0
  }

  /** No cell is frozen exactly when the frozen count is 0. */
  lemma NoneFrozenIffCountZero(l: Lattice)
    ensures FrozenCount(l) == 0 <==> forall c :: c in l.cells ==> !Frozen(l.cells[c])
  {
    if FrozenCount(l) != 0 {
      var c :| c in FrozenSet(l);
    }
  }

  /** Every branch tip has frozen. */
  predicate TipsFrozen(l: Lattice)
    requires Valid(l)
  {
    TipsInLattice(l.size);
    forall t :: t in Tips(l.size) ==> Frozen(l.cells[t])
  }

  /** The number of entries of `ts` that name a frozen cell, counting an entry
      as often as it occurs. */
  function CountFrozen(cells: map<Coord, Hexagon>, ts: seq<Coord>): (k: nat)
    requires forall t :: t in ts ==> t in cells
    ensures k <= |ts|
  {
    if |ts| == 0 then 0
    else (if Frozen(cells[ts[0]]) then 1 else 0) + CountFrozen(cells, ts[1..])
  }

  /** Every entry counts exactly when every entry names a frozen cell. */
  lemma {:induction false} CountFrozenFull(cells: map<Coord, Hexagon>, ts: seq<Coord>)
    requires forall t :: t in ts ==> t in cells
    ensures CountFrozen(cells, ts) == |ts| <==> forall t :: t in ts ==> Frozen(cells[t])
  {
    if |ts| > 0 {
      CountFrozenFull(cells, ts[1..]);
      assert forall t :: t in ts <==> t == ts[0] || t in ts[1..];
    }
  }

  /** frozen_ends with the tips walked as a list: each of the six entries
      counts, also where tips coincide. */
  function FrozenEnds(l: Lattice): nat
    requires Valid(l)
  {
    TipsInLattice(l.size);
    CountFrozen(l.cells, Tips(l.size))
  }

  /** The list count reaches 6 exactly when every tip is frozen, at every
      radius. */
  lemma FrozenEndsSixIffTipsFrozen(l: Lattice)
    requires Valid(l)
    ensures FrozenEnds(l) == 6 <==> TipsFrozen(l)
  {
    TipsInLattice(l.size);
    CountFrozenFull(l.cells, Tips(l.size));
  }

  /** No cell froze since the previous test. */
  predicate Stalled(l: Lattice)
  {
    FrozenCount(l) == l.lastFrozen
  }

  /** The convergence test the source evidently intends: every tip frozen, or
      no cell frozen since the previous test. */
  function HasConverged(l: Lattice): (b: bool)
    requires Valid(l)
    ensures b <==> TipsFrozen(l) || Stalled(l)
  {
    FrozenEndsSixIffTipsFrozen(l);
    FrozenEnds(l) == 6 || Stalled(l)
  }

  /** A subset as large as its superset is the superset. */
  lemma SubsetSameSize(a: set<Coord>, b: set<Coord>)
    requires a <= b && |a| == |b|
    ensures a == b
  {
    var d := b - a;
    assert b == a + d;
    assert a !! d;
    assert |b| == |a| + |d|;
    assert d == {};
  }

  /** At radius 1 the six tips all are the seed.  With the seed frozen every
      tip is frozen, yet the tip count as written is 1, and the frozen count is
      not 0, so the test as written is false: a size-1 lattice never stops. */
  lemma SizeOneTipsNeverCountSix(l: Lattice)
    requires Valid(l) && l.size == 1 && Frozen(l.cells[Seed])
    ensures forall t :: t in Tips(l.size) ==> t == Seed
    ensures TipsFrozen(l)
    ensures FrozenEndsAsWritten(l) == 1
    ensures !AllEndsFrozenAsWritten(l)
  {
    assert Seed in l.cells;
    assert (set t | t in Tips(1) && Frozen(l.cells[t])) == {Seed};
    assert Seed in FrozenSet(l);
  }

  /** The six tips of a lattice of radius at least 2 are distinct. */
  lemma TipsDistinct(n: int)
    requires n >= 2
    ensures |set t | t in Tips(n)| == 6
  {
    var m := n - 1;
    assert (set t | t in Tips(n)) == {(-m, m), (m, -m), (0, m), (0, -m), (m, 0), (-m, 0)};
  }

  /** From radius 2 on the tip count as written reaches 6 exactly when every
      tip is frozen. */
  lemma TipBranchAgreesFromSizeTwo(l: Lattice)
    requires Valid(l) && l.size >= 2
    ensures FrozenEndsAsWritten(l) == 6 <==> TipsFrozen(l)
  {
    TipsInLattice(l.size);
    var all := set t | t in Tips(l.size);
    var frozen := set t | t in Tips(l.size) && Frozen(l.cells[t]);
    TipsDistinct(l.size);
    if TipsFrozen(l) {
      assert frozen == all;
    }
    if FrozenEndsAsWritten(l) == 6 {
      SubsetSameSize(frozen, all);
      forall t | t in Tips(l.size)
        ensures Frozen(l.cells[t])
      {
        assert t in all;
      }
    }
  }

  /** With the seed frozen the frozen count is positive, so the stall branch as
      written, which compares the count with 0, never fires. */
  lemma StallAsWrittenNeverFires(l: Lattice)
    requires Valid(l) && Frozen(l.cells[Seed])
    ensures FrozenCount(l) >= 1
    ensures AllEndsFrozenAsWritten(l) <==> FrozenEndsAsWritten(l) == 6
  {
    assert Seed in l.cells;
    assert Seed in FrozenSet(l);
  }
}
