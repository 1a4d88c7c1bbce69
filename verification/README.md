# Reiter snowflake lattice, modelled in Dafny

This project models `CrystalLattice` from `hexagonal_grid.py`. It is a cellular
automaton of Reiter's type that grows a snow crystal on a bounded hexagonal
lattice.

The lattice is a dictionary from axial coordinates to `Hexagon` records. Each
record holds:
- the diffusing mass `u`;
- the retained mass `v`;
- the total `state`;
- the last neighbour mean `mean_u`;
- a `receptive` flag.

A cell is frozen once its state reaches 1. Construction fills the hexagon of
radius `size`. The centre cell is frozen, and every other cell holds `beta` of
vapour.

Each call of `diffusion` first tests whether the crystal has stopped growing.
If it has not, it makes three passes over the keys:
1. It stores each cell's neighbour mean of `u`.
2. It sorts the cells into receptive ones (the cell or a neighbour is frozen) and the rest. A receptive cell keeps all its mass as `v` and raises its flag. Any other cell turns all its mass into `u`.
3. It relaxes `u` towards the mean at rate `alpha/2`. It adds `gamma` to `v` of flagged cells and stores `state = u + v`.

Modules:
- `HexGrid` (`hex_grid.dfy`): coordinates, records, the hexagon region, the construction, and the neighbour topology. The construction appears twice: as a map comprehension (`NewLattice`) and as the source's double loop with flipped keys (`CreateHexagonalLattice`).
- `Termination` (`termination.dfy`): the convergence test `all_ends_frozen`, both as written and corrected.
- `Growth` (`growth.dfy`):
  - the neighbour mean and the receptivity test;
  - the three passes as simultaneous map updates, and one step (`Step`);
  - the guarded step (`Diffusion`, with the corrected test; `DiffusionAsWritten`, with the test as written);
  - repeated stepping (`Run`, and `RunAsWritten` with the test as written) and the invariants it keeps.
- `InPlace` (`in_place.dfy`): the three passes as the source runs them. Each loop mutates the cells one after another in some key order. Each loop is proved equal to the simultaneous pass for every order.

Masses are Dafny `real`s, that is, exact rationals. `np.mean` becomes the exact sum divided by the count.

## Model

| member | source | states |
|---|---|---|
| HexGrid.NewLattice | hexagonal_grid.py:43-52 | The lattice holds exactly the cells with \|q\|, \|r\|, \|q+r\| at most `size`. The seed holds u=0, v=1, state=1 and is not flagged. Every other cell holds u=state=beta, v=0, and is not flagged. For size at least 1 the lattice is valid. No frozen count has been seen yet. |
| HexGrid.CreateHexagonalLattice | hexagonal_grid.py:43-52 | The double loop stores each kept (q, r) under the flipped key (r, q). It skips the corners. It builds exactly the cells of `NewLattice`, and for a non-negative radius n it holds 3n²+3n+1 of them. |
| HexGrid.PlaceRow | hexagonal_grid.py:44-52 | The inner loop over r adds exactly the cells of row q that lie inside the hexagon. The map grows by the length of that row. |
| HexGrid.RowLength | hexagonal_grid.py:44-47 | Row q of the construction keeps 2n+1-\|q\| cells. |
| HexGrid.TotalCells | hexagonal_grid.py:43-47 | All rows together hold 3n²+3n+1 cells. |
| HexGrid.CandidatesAreAdjacent | hexagonal_grid.py:89-90 | The six neighbour offsets are exactly the cells at hex distance 1. |
| HexGrid.KeepPresent | hexagonal_grid.py:92 | The filter keeps exactly the candidates that are lattice keys and drops the rest. It keeps all of them exactly when every one is a key. |
| HexGrid.Neighbours | hexagonal_grid.py:79-92 | get_neighbours returns exactly the lattice cells adjacent to c. There are at most six, and c is never among them. |
| HexGrid.NeighboursSymmetric | hexagonal_grid.py:79-92 | b is a neighbour of a exactly when a is a neighbour of b. |
| HexGrid.AtLeastThreeNeighbours | hexagonal_grid.py:79-92 | In a hexagon of radius at least 1 every cell has at least three neighbours. |
| HexGrid.HexagonIsSurrounded | hexagonal_grid.py:141 | No cell of a valid lattice has an empty neighbour list, so the neighbour mean is always defined. |
| HexGrid.SixNeighboursIffInterior | hexagonal_grid.py:79-92 | A cell has all six neighbours exactly when \|q\|, \|r\| and \|q+r\| are all below the radius. |
| HexGrid.IsEdge | hexagonal_grid.py:94-103 | is_edge reports only cells of the outermost ring. Within that ring it reports every cell except those whose only extreme coordinate is q+r. |
| HexGrid.EdgeCellsLackNeighbours | hexagonal_grid.py:94-103 | A cell that is_edge reports lacks a neighbour. The converse fails: at radius 2, (1, 1) lacks neighbours but is not reported. |
| Termination.Tips | hexagonal_grid.py:111-113 | There are six tips. Each lies on one of the three principal axes, at hex distance \|size-1\| from the seed. |
| Termination.TipsInLattice | hexagonal_grid.py:112-116 | For a radius of at least 1 the six branch tips are lattice cells, so looking a tip up never fails. |
| Termination.FrozenEndsAsWritten | hexagonal_grid.py:109-117 | The set-based tip count is at most 6. It reaches 6 only when every tip is frozen. |
| Termination.DistinctFrozenTips | hexagonal_grid.py:112-117 | The distinct frozen tips number at most 6, and six of them means every tip is frozen. |
| Termination.AllEndsFrozenAsWritten | hexagonal_grid.py:105-133 | The test as written holds exactly when the set-based tip count is 6 or no cell is frozen at all. |
| Termination.HasConverged | hexagonal_grid.py:105-133 | The corrected test holds exactly when every tip is frozen or the frozen count equals the one seen by the previous test. |
| Termination.SizeOneTipsNeverCountSix | hexagonal_grid.py:110-126 | At radius 1 all six tips are the seed. With the seed frozen every tip is frozen. Yet the set-based tip count is 1, and the test as written is false. |
| Termination.TipsDistinct | hexagonal_grid.py:112-113 | From radius 2 on the six tips are distinct. |
| Termination.TipBranchAgreesFromSizeTwo | hexagonal_grid.py:110-117 | From radius 2 on, the set-based tip count reaches 6 exactly when every tip is frozen. |
| Termination.CountFrozen | hexagonal_grid.py:114-117 | The tip count never exceeds the number of tips walked. |
| Termination.CountFrozenFull | hexagonal_grid.py:114-117 | Counting a list of tips reaches its length exactly when every listed tip is frozen. |
| Termination.FrozenEndsSixIffTipsFrozen | hexagonal_grid.py:110-126 | The list-based tip count is 6 exactly when every tip is frozen, at every radius including 1. |
| Termination.StallAsWrittenNeverFires | hexagonal_grid.py:119-126 | With the seed frozen the frozen count is at least 1. The stall comparison as written is with 0, so the test as written holds exactly when the tip count is 6. |
| Growth.MeanAtLeast | hexagonal_grid.py:136-141 | The neighbour mean of u is at least any lower bound of the neighbours' u. |
| Growth.MeanAtMost | hexagonal_grid.py:136-141 | The neighbour mean of u is at most any upper bound of the neighbours' u. |
| Growth.UMeanNeighbours | hexagonal_grid.py:136-141 | The neighbour mean of u times the neighbour count is the neighbours' sum of u. |
| Growth.MeanReadsOnlyU | hexagonal_grid.py:136-141 | Two lattices with the same keys and the same u everywhere give the same mean. |
| Growth.AnyFrozen | hexagonal_grid.py:153-155 | The early-return loop answers true exactly when some listed neighbour is frozen. |
| Growth.IfReceptive | hexagonal_grid.py:143-158 | A cell is receptive exactly when it is frozen or some adjacent lattice cell is frozen. |
| Growth.ReceptiveReadsOnlyState | hexagonal_grid.py:143-158 | Two lattices with the same keys and the same state everywhere agree on receptivity. |
| Growth.MeanPass | hexagonal_grid.py:165-166 | Pass 1 keeps the keys. Each cell records its neighbour mean and keeps every other field. |
| Growth.Redistribute | hexagonal_grid.py:172-186 | Pass 2 on one cell keeps its state and splits it as u + v. A receptive cell holds it all as v and is flagged. Any other cell holds it all as u and keeps its flag. |
| Growth.RedistributePass | hexagonal_grid.py:170-186 | Pass 2 keeps the keys and every state, and leaves each cell with u + v equal to its state. Afterwards a cell is flagged exactly when it was flagged before or is receptive now. |
| Growth.Relax | hexagonal_grid.py:202-210 | Pass 3 on one cell leaves it balanced and keeps its mean and flag. v grows by gamma exactly when the cell is flagged. With 0 ≤ alpha ≤ 2 the new u lies between the old u and the mean. |
| Growth.RelaxPass | hexagonal_grid.py:193-210 | Pass 3 keeps the keys and every flag, and leaves every cell balanced. |
| Growth.Update | hexagonal_grid.py:165-210 | The three passes on one cell leave it balanced and recording the given mean. The cell is flagged exactly when it was flagged before or is receptive now. |
| Growth.NextCell | hexagonal_grid.py:165-210 | A cell after a step is balanced and records its neighbour mean. It is flagged exactly when it was flagged before or was receptive at the start of the step. |
| Growth.UpdateValues | hexagonal_grid.py:165-210 | The closed form of one cell after a step, with m its neighbour mean. A cell receptive now gets u = alpha/2·m and v = state + gamma, and is flagged. Any other cell gets u = state + alpha/2·(m - state). Its v is gamma if it was already flagged and 0 otherwise, and its flag is unchanged. In both cases state = u + v. |
| Growth.StepCells | hexagonal_grid.py:165-210 | A step keeps the set of cells. It leaves every cell with state = u + v and never clears a receptive flag. |
| Growth.Step | hexagonal_grid.py:165-210 | A step of a valid lattice gives a valid lattice with the same cells and parameters. The count seen by the previous test is unchanged. Every cell is balanced, and the flags only rise. |
| Growth.StepAt | hexagonal_grid.py:165-210 | During a step every cell has at least three neighbours and moves to its one-cell update. |
| Growth.StepIsThreePasses | hexagonal_grid.py:165-210 | The one-cell update applied everywhere equals pass 1, then pass 2, then pass 3, each applied to the whole lattice. |
| Growth.PassesAt | hexagonal_grid.py:165-210 | At each cell the three whole-lattice passes give that cell's one-step update. |
| Growth.MeanPassKeepsState | hexagonal_grid.py:165-166 | Pass 1 keeps the keys and every state. |
| Growth.UpdateNonNegative | hexagonal_grid.py:170-210 | Assume 0 ≤ alpha ≤ 2 and gamma ≥ 0. A cell with non-negative state, updated towards a non-negative mean, keeps u, v, state and the mean non-negative. |
| Growth.UpdateReceptiveGrows | hexagonal_grid.py:173-210 | Assume alpha and gamma are non-negative. A cell receptive in an update, with a non-negative mean, does not lose mass. |
| Growth.NextCellNonNegative | hexagonal_grid.py:160-210 | Assume the parameters are in range. Every cell's update over a non-negative lattice is non-negative. |
| Growth.NextCellReceptiveGrows | hexagonal_grid.py:173-210 | In a non-negative lattice a receptive cell's update does not lower its state. |
| Growth.StepKeepsNonNegative | hexagonal_grid.py:160-210 | With the parameters in range a step keeps every amount of every cell non-negative. |
| Growth.ReceptiveStateGrows | hexagonal_grid.py:173-210 | A cell receptive in a step ends it with at least the state it had. |
| Growth.FrozenStaysFrozen | hexagonal_grid.py:149-210 | Every cell frozen before a step is frozen after it. |
| Growth.SizeOneFirstStep | hexagonal_grid.py:43-52 | At radius 1 one step from construction makes every cell receptive. |
| Growth.TouchingFrozenSeedTurnsReceptive | hexagonal_grid.py:152-179 | Suppose the seed is frozen and every cell is the seed or touches it. Then one step flags every cell. |
| Growth.Diffusion | hexagonal_grid.py:160-210 | The guarded step with the corrected test keeps the lattice valid. |
| Growth.DiffusionAsWritten | hexagonal_grid.py:160-210 | The guarded step with the test as written keeps the lattice valid. |
| Growth.ConvergedIsFixedPoint | hexagonal_grid.py:161-163 | Once the test holds, diffusion leaves the lattice unchanged. |
| Growth.NewLatticeInv | hexagonal_grid.py:25-52 | A freshly built lattice with 0 ≤ alpha ≤ 2, beta ≥ 0 and gamma ≥ 0 is valid and non-negative. Every cell is balanced and the seed is frozen. |
| Growth.DiffusionKeepsInv | hexagonal_grid.py:160-210 | The guarded step keeps that invariant. The set of frozen cells only grows. |
| Growth.Run | hexagonal_grid.py:160-210 | Any number of diffusion calls keeps the invariant. The frozen set only grows. |
| Growth.StepKeepsInv | hexagonal_grid.py:160-210 | A step keeps the invariant, and every frozen cell stays frozen. |
| Growth.DiffusionAsWrittenKeepsInv | hexagonal_grid.py:160-210 | Diffusion with the test as written keeps the invariant. The set of frozen cells only grows. |
| Growth.RunAsWritten | hexagonal_grid.py:160-210 | Any number of calls of diffusion as written keeps the invariant and the radius. The frozen set only grows. |
| Growth.StallAsWrittenNeverFiresOnRun | hexagonal_grid.py:119-127 | However many calls of diffusion as written have been made since construction, at least one cell is frozen. The test as written therefore reduces to its tip branch. At radius 1 the next call always steps again. |
| Growth.StallMeansNoNewIce | hexagonal_grid.py:119-126 | The corrected stall test compares with the count seen by the previous call. It fires exactly when the last step froze no new cell. |
| Growth.SizeOneAsWrittenNeverStops | hexagonal_grid.py:110-163 | Take any reachable lattice of radius 1. The guarded step as written always steps. The corrected one leaves the lattice unchanged. |
| InPlace.MeanPassInPlace | hexagonal_grid.py:165-166 | Writing each mean in place, in any order of the keys, gives the simultaneous pass 1. |
| InPlace.MeanVisit | hexagonal_grid.py:165-166 | Midway through pass 1, the next cell's mean equals the one the simultaneous pass gives it. |
| InPlace.RedistributeInPlace | hexagonal_grid.py:170-186 | Redistributing each cell in place, in any order, gives the simultaneous pass 2. |
| InPlace.RedistributeVisit | hexagonal_grid.py:170-186 | Midway through pass 2, the next cell's receptivity and new value equal those of the simultaneous pass. |
| InPlace.RelaxInPlace | hexagonal_grid.py:193-210 | Relaxing each cell in place, in any order, gives the simultaneous pass 3. |
| InPlace.DiffusionInPlace | hexagonal_grid.py:160-210 | Take a valid lattice and any order that lists every key once. The in-place diffusion with the corrected test computes exactly `Growth.Diffusion`. |

## Left out

- `eq_neighbours` and `mean_s` (hexagonal_grid.py:54-77): nothing else in the class calls `mean_s`, and only `mean_s` calls `eq_neighbours`, so neither affects a step.
- The print, image save and `sys.exit()` of `all_ends_frozen` (hexagonal_grid.py:128-130): output and process exit. When the test holds, the model returns the lattice unchanged, which is what a caller would see if the process went on.
- The commented-out edge rule (hexagonal_grid.py:196-201) and the commented `delta` field (hexagonal_grid.py:22): they are dead code.
- Floating-point rounding: masses are exact rationals. `np.mean` is the exact sum over the count, and `state >= 1` compares exactly.
- Dictionary iteration order: the in-place passes are proved for every order that lists each key once, which includes the insertion order the source uses.
- Growth.Step: it requires a valid lattice of radius at least 1. At radius 0 the seed has no neighbour and `np.mean` of an empty list gives NaN. At a negative radius the lattice is empty and the tip lookup raises KeyError.
- Growth.Diffusion: its own contract only keeps validity. What it computes is stated by ConvergedIsFixedPoint, DiffusionKeepsInv, StallMeansNoNewIce and InPlace.DiffusionInPlace.
- Growth.DiffusionAsWritten: its own contract only keeps validity. What it computes is stated by SizeOneAsWrittenNeverStops, DiffusionAsWrittenKeepsInv, and StallAsWrittenNeverFiresOnRun over RunAsWritten.
- pyglet drawing and the driver script: they are not part of this model.

## Findings

| source | as written | input that shows it | evidently intended | confidence | as-written member | corrected member |
|---|---|---|---|---|---|---|
| hexagonal_grid.py:112-126 | The six tips are walked as a set literal, so coinciding tips count once. | Size 1: all six tips are (0, 0). With the seed frozen the count is 1, never 6, so the tip branch cannot fire at radius 1. | Stop once each of the six tips is frozen. Count the tips as a list, one count per entry. | high, not executed | Termination.SizeOneTipsNeverCountSix | Termination.FrozenEndsSixIffTipsFrozen |
| hexagonal_grid.py:119-126 | `frozen_list = [0]` is rebuilt inside every call, so the count is compared with 0 rather than with the previous call's count. | Any lattice reached from construction by calls of diffusion as written: the seed is frozen, the count is at least 1, and the stall branch never fires. | Stop when a step froze no new cell. Keep the last count across calls (`Lattice.lastFrozen`). | high, not executed | Growth.StallAsWrittenNeverFiresOnRun | Growth.StallMeansNoNewIce |
