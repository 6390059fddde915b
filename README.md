# Lattice Monte Carlo: cerium nanoparticle growth and the 1D Ising chain

This project models two small Metropolis Monte Carlo programs in Dafny.

- **Nanoparticle growth** (`nanoparticle.dfy`, module `Nanoparticle`). A cubic occupancy grid of side `grid_size` starts with one seed atom at the centre. Each growth step does the following:
  - It collects every empty cell among the 26 periodic neighbours of an occupied cell.
  - It proposes one of those cells, or a uniformly drawn cell when there is none.
  - It rejects a proposal whose distance from the centre exceeds the radius.
  - Otherwise it sums the Lennard-Jones potential over the occupied neighbours of the proposed cell and runs the Metropolis test.
  - At the end, the occupied cells are exported in `np.where` scan order as PDB `ATOM` records and as XYZ lines.
- **One-dimensional Ising chain** (`ising.dfy`, module `Ising`). This covers one Metropolis sweep `mcmove` over a periodic spin chain, the energy `calcEnergy` and the magnetisation `calcMag`.

The grid is an `array3<bool>` and the spin chain an `array<int>`. Both are updated in place, as the source does.

The random generators become parameters:
- `Ising.McMove` takes `sites` (one `randint(0, N)` per iteration) and `us`, the stream of `rand()` values. A value is consumed only when the source calls `rand()`, and the method returns how many it consumed.
- `Nanoparticle.Draw` bundles one step's draws: the index chosen by `randint(0, len)`, the fallback cell and `uniform(0, 1)`.

The floating-point functions become abstract parameters:
- `pot` is the Lennard-Jones potential, given the squared pair distance.
- `boltz` stands for the Boltzmann factor `exp(...)`.

The grid side is the parameter `n` (100 in the source) and the envelope radius is the parameter `radius` (4.5479 in the source).

## Model

| member | source | states |
|---|---|---|
| Ising.Right | 09032023_1D_ising_solution.py:37 | the periodic right neighbour `(a+1) % N` lies on the chain and wraps from N-1 back to 0 |
| Ising.Left | 09032023_1D_ising_solution.py:37 | the periodic left neighbour `(a-1) % N` lies on the chain and wraps from 0 to N-1 (Python's non-negative modulo) |
| Ising.CostValues | 09032023_1D_ising_solution.py:37-38 | because `nb` counts the site twice, the flip cost on a spin chain is `2*s*(left+right)+4`, so it is 0, 4 or 8 and never negative |
| Ising.Move | 09032023_1D_ising_solution.py:31-46 | one iteration changes only site `a`, leaves it or negates it, and consumes a uniform draw exactly when `cost >= 0` |
| Ising.MoveOnSpins | 09032023_1D_ising_solution.py:42-46 | on a spin chain the `cost < 0` branch never fires: one `rand()` is drawn and the spin is negated exactly when the draw is below the Boltzmann factor; the result is still a spin chain |
| Ising.SweepOnSpins | 09032023_1D_ising_solution.py:29-46 | after any number of iterations the chain holds only spins, and exactly one uniform draw has been consumed per iteration |
| Ising.FlipStep | 09032023_1D_ising_solution.py:31-46 | one iteration on the array leaves it, with the draw count, in the state `Move` describes |
| Ising.McMove | 09032023_1D_ising_solution.py:27-48 | the array after the in-place sweep is the N-fold `Move` sequence over the drawn sites; on a spin chain the result is a spin chain and exactly N draws were consumed |
| Ising.InitialChain | 09032023_1D_ising_solution.py:120 | the initial condition `2*randint(2)-1` is a spin chain of length N with +1 exactly where the drawn bit is 1 |
| Ising.RunsOnSpins | 09032023_1D_ising_solution.py:147-149 | from a spin chain, any number of sweeps keeps a spin chain and consumes exactly N uniform draws per sweep |
| Ising.Run | 09032023_1D_ising_solution.py:147-149 | the driver loop's in-place sweeps leave the chain in the state `Runs` describes, each sweep continuing the single stream of uniform draws; from a spin chain it keeps a spin chain and consumes `msrmnt*N` draws |
| Ising.CalcEnergy | 09032023_1D_ising_solution.py:81-88 | the loop's result is the sum of `-nb*S` divided by 4; on a spin chain it lies in `[-N, 0]` |
| Ising.EnergySumRange | 09032023_1D_ising_solution.py:84-87 | after k sites the accumulated energy of a spin chain lies in `[-4k, 0]` |
| Ising.EnergyNegated | 09032023_1D_ising_solution.py:81-88 | the energy is unchanged when every spin is reversed |
| Ising.CalcMag | 09032023_1D_ising_solution.py:93-96 | the sum of the spins of a spin chain lies in `[-N, N]` and has the parity of N |
| Ising.MagNegated | 09032023_1D_ising_solution.py:93-96 | reversing every spin negates the magnetisation |
| Nanoparticle.WrapIsMod | 20230618_Final_project/nanoparticle_ensembler.py:53 | the wrapped coordinate equals Python's `(x + dx) % grid_size` |
| Nanoparticle.GetNeighbors | 20230618_Final_project/nanoparticle_ensembler.py:46-54 | the triple loop builds exactly the 26 wrapped offsets, in the loop's `dx, dy, dz` order, skipping `(0, 0, 0)` |
| Nanoparticle.NeighborsMembers | 20230618_Final_project/nanoparticle_ensembler.py:49-53 | a cell is listed if and only if it is the wrapped shift of the point by a non-zero offset in `{-1,0,1}^3` |
| Nanoparticle.NeighborsInGrid | 20230618_Final_project/nanoparticle_ensembler.py:53 | the list has 26 entries, all inside the grid |
| Nanoparticle.NeighborsDistinct | 20230618_Final_project/nanoparticle_ensembler.py:49-53 | for a grid side of at least 3 the 26 entries are pairwise different |
| Nanoparticle.NeighborsExcludeSelf | 20230618_Final_project/nanoparticle_ensembler.py:52 | for a grid side of at least 3 the point is not its own neighbour |
| Nanoparticle.NeighborsSymmetric | 20230618_Final_project/nanoparticle_ensembler.py:46-54 | if q is listed as a neighbour of p, then p is listed as a neighbour of q |
| Nanoparticle.AdjacentPoints | 20230618_Final_project/nanoparticle_ensembler.py:65-73 | the candidate list holds each cell at most once, and a cell is in it if and only if it is empty and a neighbour of an occupied cell |
| Nanoparticle.OutsideIsDistance | 20230618_Final_project/nanoparticle_ensembler.py:82-84 | the squared-distance test used by the model holds exactly when the Euclidean distance to the centre exceeds the radius |
| Nanoparticle.EnergyChange | 20230618_Final_project/nanoparticle_ensembler.py:87-91 | the loop's `delta_E` is the potential summed, in neighbour-list order, over the squared distances of the occupied neighbours (`DeltaE`) |
| Nanoparticle.PairSqDistsMembers | 20230618_Final_project/nanoparticle_ensembler.py:88-91 | a distance is summed if and only if it belongs to an occupied listed neighbour |
| Nanoparticle.PairSqDistsPositive | 20230618_Final_project/nanoparticle_ensembler.py:88-91 | every summed pair lies at a positive distance, so the potential is never evaluated at r = 0, when the site is empty or the side is at least 3 |
| Nanoparticle.AcceptRule | 20230618_Final_project/nanoparticle_ensembler.py:95-101 | a negative energy change is accepted whatever the draw; otherwise acceptance is exactly `u < boltz(dE)` |
| Nanoparticle.GrowthStep | 20230618_Final_project/nanoparticle_ensembler.py:63-101 | the proposed site is a candidate when one exists and the fallback cell otherwise; an atom is added exactly when the site is inside the envelope and passes the Metropolis test on the energy before the step; no other cell changes, no atom is removed, and the envelope invariant is kept |
| Nanoparticle.Accepted | 20230618_Final_project/nanoparticle_ensembler.py:97-101 | a cell is among the accepted sites if and only if some step proposed it and added an atom |
| Nanoparticle.OccupiedSetMembers | 20230618_Final_project/nanoparticle_ensembler.py:69 | a cell is in the occupied set exactly when it lies in the grid and holds an atom (`grid[x, y, z] == 1`) |
| Nanoparticle.GridAgrees | 20230618_Final_project/nanoparticle_ensembler.py:65-91 | on any grid, the candidate test, the existence of a candidate and `delta_E` depend only on the set of occupied cells: each equals its set-level counterpart |
| Nanoparticle.PairSqDistsAgree | 20230618_Final_project/nanoparticle_ensembler.py:88-91 | the distances summed into `delta_E` for a grid are those for its occupied set |
| Nanoparticle.SetAfterStep | 20230618_Final_project/nanoparticle_ensembler.py:97-101 | a grid that differs from an occupied set at most at the proposed cell, where it holds an atom exactly when the cell was occupied or the step added one, has that set plus the cell (when added) as its occupied set |
| Nanoparticle.StepOnGrid | 20230618_Final_project/nanoparticle_ensembler.py:63-101 | one growth step on the grid: the proposed site and added flag obey GrowthStep's proposal and Metropolis conditions, and the occupied set gains exactly the proposed site when an atom was added |
| Nanoparticle.RecordedStep | 20230618_Final_project/nanoparticle_ensembler.py:63-101 | one growth step on the grid follows StepSpec from the occupied set before the step to the one after: proposal rule, envelope and Metropolis test on the set's `delta_E`, and the set grows by exactly the added site |
| Nanoparticle.TraceExtend | 20230618_Final_project/nanoparticle_ensembler.py:63 | a trace of steps that each follow StepSpec, extended by one more such step, is still such a trace |
| Nanoparticle.TraceAccepted | 20230618_Final_project/nanoparticle_ensembler.py:63-101 | along a trace whose every step follows StepSpec, the occupied set after k steps is the initial set plus the sites of the first k steps that added an atom |
| Nanoparticle.TraceInEnvelope | 20230618_Final_project/nanoparticle_ensembler.py:82-84 | along such a trace, a start inside the envelope stays inside the envelope after every step |
| Nanoparticle.AcceptedInEnvelope | 20230618_Final_project/nanoparticle_ensembler.py:82-84 | every site that a step of such a trace added lies within the radius of the centre |
| Nanoparticle.TraceOutcome | 20230618_Final_project/nanoparticle_ensembler.py:63-101 | at the end of such a trace, a cell is occupied exactly when it was occupied at the start or is an accepted site, and every accepted site lies inside the envelope |
| Nanoparticle.EnvelopeSet | 20230618_Final_project/nanoparticle_ensembler.py:82-84 | the grid lies inside the envelope exactly when every cell of its occupied set does |
| Nanoparticle.Grow | 20230618_Final_project/nanoparticle_ensembler.py:63-101 | the occupied sets before each step form a trace in which step s, with draw s, proposes a candidate of the set before it when one exists and the fallback cell otherwise, and adds an atom exactly when the site is inside the envelope and passes the Metropolis test on that set's `delta_E`, the set growing by exactly that site; the trace starts at the grid's set and ends at its final set; the grid afterwards holds exactly the atoms it held before plus the accepted sites, each inside the envelope, so the envelope invariant is kept |
| Nanoparticle.Seed | 20230618_Final_project/nanoparticle_ensembler.py:21-24 | a fresh cube whose only occupied cell is the centre `(grid_size//2, ...)` |
| Nanoparticle.SeedInEnvelope | 20230618_Final_project/nanoparticle_ensembler.py:23-25 | the seed grid lies inside the envelope of any non-negative radius |
| Nanoparticle.Simulate | 20230618_Final_project/nanoparticle_ensembler.py:20-101 | the whole run is a trace from the seed set `{centre}` in which every step follows StepSpec with its own draw (candidate or fallback proposal, envelope and Metropolis test on that step's `delta_E`, exactly the added site joining the set); afterwards the occupied cells are exactly the centre and the accepted sites, the centre stays occupied and every atom lies within the radius of the centre |
| Nanoparticle.OccupiedCells | 20230618_Final_project/nanoparticle_ensembler.py:126 | the nested scan returns `np.where(grid == 1)` as cells, in row-major (x, y, z) order |
| Nanoparticle.WhereMembers | 20230618_Final_project/nanoparticle_ensembler.py:126 | a cell is exported if and only if it is occupied |
| Nanoparticle.WhereSorted | 20230618_Final_project/nanoparticle_ensembler.py:126 | the export is strictly increasing in lexicographic (x, y, z) order, so no cell appears twice |
| Nanoparticle.WhereCount | 20230618_Final_project/nanoparticle_ensembler.py:126-128 | the number of exported cells equals the number of occupied cells |
| Nanoparticle.SumGrid | 20230618_Final_project/nanoparticle_ensembler.py:127 | `np.sum(grid)` equals the number of occupied cells |
| Nanoparticle.WritePdb | 20230618_Final_project/nanoparticle_ensembler.py:124-139 | there is one `ATOM` record per occupied cell, in scan order; record i has atom serial and residue number i+1; the `TER` serial is the atom count plus one |
| Nanoparticle.WriteXyz | 20230618_Final_project/nanoparticle_ensembler.py:143-152 | the count line equals the number of occupied cells and of `Ce` lines, which list the occupied cells in scan order |
| Nanoparticle.SeedExport | 20230618_Final_project/nanoparticle_ensembler.py:21-24 | with only the seed occupied, the export is the single centre cell |

## Left out

- Plotting: the PNG snapshots every 50 steps and the GIF assembly (nanoparticle lines 103-118), and `configPlot` and its calls in the Ising file. These are output only and change no state.
- The Ising driver (lines 105-175) is modelled only in part. `Ising.InitialChain` models the initial condition of line 120; it is what makes the spin precondition of `Ising.CostValues`, `Ising.MoveOnSpins`, `Ising.SweepOnSpins` and the range part of `Ising.CalcEnergy` hold. `Ising.Run` models the loop of lines 147-149. The other lemmas start from an arbitrary chain. The energy and magnetisation averages of lines 123-124 and 152-153 and the lists that collect them are observations and are not modelled.
- The source keeps the chain as an `(N, 1)` column array; the model uses a flat `array<int>`. Every index reads the same value.
- Ising.Run: `msrmnt` is a `nat`; a negative count read from `input()` makes the source's `range` empty, which is the model's `msrmnt = 0`.
- The `input()` prompts and all other interactive I/O.
- File writing and number formatting in the exports. The PDB and XYZ records are modelled as structured values (serial numbers, residue numbers, cells), not as text. This leaves out the `{:8.3f}` formatting and the way `num_atoms` is printed as a float.
- The multiplication of coordinates by `grid_spacing` = 3.65: it is a floating-point scaling of the exported cell.
- The two floating-point parts of the Lennard-Jones sum:
  - the numeric value of the potential and of `exp`: `pot` and `boltz` are abstract parameters;
  - `np.sqrt`: `pot` receives the squared distance.
- `np.linalg.norm` in the envelope test is replaced by an exact comparison on the squared distance. `Nanoparticle.OutsideIsDistance` shows the two agree.
- `calculate_temperature_factor` (lines 36-43) and the PDB temperature-factor column: this is floating-point arithmetic with no effect on the state.
- The random generators are not modelled as a stream with a distribution. Each draw is an explicit parameter and the model holds for every draw.
- Nanoparticle.AdjacentPoints: the source builds the list from Python sets, whose iteration order is unspecified. The model keeps the order in which candidates are first reached. It states membership and absence of duplicates, not an order.
- The distance to the centre and the pair distance of lines 82 and 90 subtract coordinates as given, with no periodic correction. As in the source, a neighbour reached across a face of the grid therefore lies at a large distance.
- Nanoparticle.GrowthStep: the fallback cell drawn when there is no candidate may already be occupied. The model keeps this, as the source does: setting an occupied cell again changes nothing.
- Ising.CalcEnergy: the source's `calcEnergy` reduces indices modulo the global `N`; the model uses the length of the configuration passed in. The two agree whenever the function is called, as in the source, on a configuration of length `N`.
- Nanoparticle.Simulate: it requires a non-negative radius. The source fixes the radius at 4.5479.
- Nanoparticle.Grow: the per-step conditions are stated on the occupied sets that the ghost `trace` records, not on the grid of each step; `Nanoparticle.GridAgrees` and `Nanoparticle.OccupiedSetMembers` show that the two carry the same information. They say that the proposed site is some candidate, not which one: the source indexes a list built from Python sets, whose order it leaves open.
- The 2D Ising model mentioned in the comments is not part of the source and is not modelled.
- `solution.py` and `16022023.py` are not part of this model.
