// Lattice growth of a spherical cerium nanoparticle by Metropolis Monte
// Carlo: the periodic neighbour function, candidate enumeration, the
// spherical envelope check, the pair-potential energy, the acceptance rule
// and the record structure of the PDB and XYZ exports.
//
// The occupancy grid is a cube `array3<bool>` of side `n` (the source keeps
// 0.0/1.0 floats), updated in place. The Lennard-Jones potential is the
// abstract function `pot` of the squared distance, `exp(-dE/(k_B*T))` is the
// abstract function `boltz`, and the random draws of one growth step are
// passed in as a `Draw`.
module Nanoparticle {

  datatype Cell = Cell(x: int, y: int, z: int)

  /** An offset (dx, dy, dz) of the 3x3x3 block around a cell. */
  type Offset = (int, int, int)

  predicate InGrid(n: int, c: Cell) {
    0 <= c.x < n && 0 <= c.y < n && 0 <= c.z < n
  }

  /** Python's `v % n` for a positive `n`. The cases a coordinate moved by at
      most one cell can reach are written out first only so that the verifier
      can settle them without reasoning about `%`; WrapIsMod shows the whole
      definition is `v % n`. */
  function Wrap(n: int, v: int): (r: int)
    requires n > 0
    ensures 0 <= r < n
  {
    if 0 <= v < n then v
    else if v == -1 then n - 1
    else if v == n then 0
    else v % n
  }

  /** Wrap is the remainder: Python's `%` and Dafny's `%` agree for a
      positive divisor (both return a value in [0, n)). */
  lemma WrapIsMod(n: int, v: int)
    requires n > 0
    ensures Wrap(n, v) == v % n
  {
  }

  /** Wrapping a coordinate moved by at most one cell. */
  lemma WrapNear(n: int, v: int)
    requires n > 0 && -1 <= v <= n
    ensures Wrap(n, v) == if v < 0 then v + n else if v == n then 0 else v
  {
  }

  // ---------------------------------------------------------------------
  // Neighbours (get_neighbors)
  // ---------------------------------------------------------------------

  /** The offset visited at position `k` of the nested `dx`, `dy`, `dz` loops
      over [-1, 0, 1]. */
  function OffsetAt(k: int): Offset
    requires 0 <= k < 27
  {
    ((k / 3) / 3 - 1, (k / 3) % 3 - 1, k % 3 - 1)
  }

  /** The loop position of an offset of the block. */
  function Position(o: Offset): int {
    9 * (o.0 + 1) + 3 * (o.1 + 1) + (o.2 + 1)
  }

  /** An offset of the 26-neighbourhood: each component in {-1, 0, 1}, not all zero. */
  predicate IsOffset(o: Offset) {
    -1 <= o.0 <= 1 && -1 <= o.1 <= 1 && -1 <= o.2 <= 1 && o != (0, 0, 0)
  }

  lemma PositionOffsetAt(k: int)
    requires 0 <= k < 27
    ensures Position(OffsetAt(k)) == k
  {
  }

  lemma OffsetAtPosition(o: Offset)
    requires -1 <= o.0 <= 1 && -1 <= o.1 <= 1 && -1 <= o.2 <= 1
    ensures 0 <= Position(o) < 27 && OffsetAt(Position(o)) == o
  {
  }

  /** How many neighbours the loops have appended before reaching position `k`
      (position 13, the offset (0, 0, 0), appends nothing). */
  function Appended(k: int): int {
    if k <= 13 then k else k - 1
  }

  /** The loop position of the `i`-th appended neighbour. */
  function Slot(i: int): int {
    if i < 13 then i else i + 1
  }

  /** The cell at offset `o` from `c`, wrapped on every axis. */
  function Shift(n: int, c: Cell, o: Offset): Cell
    requires n > 0
  {
    Cell(Wrap(n, c.x + o.0), Wrap(n, c.y + o.1), Wrap(n, c.z + o.2))
  }

  /** The list `get_neighbors(x, y, z)` returns, in its loop order. */
  function Neighbors(n: int, c: Cell): seq<Cell>
    requires n > 0
  {
    seq(26, i requires 0 <= i < 26 => Shift(n, c, OffsetAt(Slot(i))))
  }

  /** One pass of the innermost loop extends the list by the wrapped offset,
      or by nothing at the offset (0, 0, 0). */
  lemma NeighborsStep(n: int, c: Cell, o: Offset)
    requires n > 0 && -1 <= o.0 <= 1 && -1 <= o.1 <= 1 && -1 <= o.2 <= 1
    ensures Neighbors(n, c)[..Appended(Position(o) + 1)] ==
      Neighbors(n, c)[..Appended(Position(o))] + (if o != (0, 0, 0) then [Shift(n, c, o)] else [])
  {
    OffsetAtPosition(o);
    assert (Position(o) != 13) == (o != (0, 0, 0));
    if o != (0, 0, 0) {
      OffsetListed(n, c, o);
    }
    PrefixStep(Neighbors(n, c), Position(o), Shift(n, c, o));
  }

  /** The prefix of the list the loops have built grows by one cell at every
      position except 13. */
  lemma PrefixStep(all: seq<Cell>, k: int, q: Cell)
    requires 0 <= k < 27 && |all| == 26
    requires k != 13 ==> all[Appended(k)] == q
    ensures all[..Appended(k + 1)] == all[..Appended(k)] + (if k != 13 then [q] else [])
  {
    if k != 13 {
      assert all[..Appended(k) + 1] == all[..Appended(k)] + [all[Appended(k)]];
    }
  }

  /** `get_neighbors(x, y, z)`: the nested loops appending every wrapped
      offset except (0, 0, 0). */
  method GetNeighbors(n: int, c: Cell) returns (nbs: seq<Cell>)
    requires n > 0
    ensures nbs == Neighbors(n, c)
  {
    nbs := [];
    for dx := -1 to 2
      invariant nbs == Neighbors(n, c)[..Appended(9 * (dx + 1))]
    {
      for dy := -1 to 2
        invariant nbs == Neighbors(n, c)[..Appended(9 * (dx + 1) + 3 * (dy + 1))]
      {
        for dz := -1 to 2
          invariant nbs == Neighbors(n, c)[..Appended(9 * (dx + 1) + 3 * (dy + 1) + (dz + 1))]
        {
          ghost var k := Position((dx, dy, dz));
          assert k == 9 * (dx + 1) + 3 * (dy + 1) + (dz + 1);
          NeighborsStep(n, c, (dx, dy, dz));
          if dx != 0 || dy != 0 || dz != 0 {
            var q := Cell((c.x + dx) % n, (c.y + dy) % n, (c.z + dz) % n);
            assert q == Shift(n, c, (dx, dy, dz)) by {
              WrapIsMod(n, c.x + dx);
              WrapIsMod(n, c.y + dy);
              WrapIsMod(n, c.z + dz);
            }
            nbs := nbs + [q];
          }
        }
      }
    }
  }

  /** Every listed neighbour is `c` moved by a non-zero offset and wrapped. */
  lemma NeighborOffset(n: int, c: Cell, i: int)
    requires n > 0 && 0 <= i < 26
    ensures IsOffset(OffsetAt(Slot(i))) && Neighbors(n, c)[i] == Shift(n, c, OffsetAt(Slot(i)))
  {
    PositionOffsetAt(Slot(i));
  }

  /** Every non-zero offset is listed, at the position the loops reach it. */
  lemma OffsetListed(n: int, c: Cell, o: Offset)
    requires n > 0 && IsOffset(o)
    ensures 0 <= Appended(Position(o)) < 26 && Neighbors(n, c)[Appended(Position(o))] == Shift(n, c, o)
  {
    OffsetAtPosition(o);
    assert Slot(Appended(Position(o))) == Position(o);
  }

  /** The list is the set definition of the periodic 26-neighbourhood: `q` is
      listed exactly when it is `c` moved by a non-zero offset and wrapped. */
  lemma NeighborsMembers(n: int, c: Cell, q: Cell)
    requires n > 0
    ensures q in Neighbors(n, c) <==> exists o :: IsOffset(o) && q == Shift(n, c, o)
  {
    if q in Neighbors(n, c) {
      var i :| 0 <= i < 26 && Neighbors(n, c)[i] == q;
      NeighborOffset(n, c, i);
    }
    if o :| IsOffset(o) && q == Shift(n, c, o) {
      OffsetListed(n, c, o);
    }
  }

  /** Every neighbour lies in the grid, and there are 26 of them. */
  lemma NeighborsInGrid(n: int, c: Cell)
    requires n > 0
    ensures |Neighbors(n, c)| == 26
    ensures forall q :: q in Neighbors(n, c) ==> InGrid(n, q)
  {
  }

  /** On a grid of side at least 3 a coordinate moved by different amounts in
      {-1, 0, 1} wraps to different values. */
  lemma WrapInjective(n: int, v: int, d1: int, d2: int)
    requires n >= 3 && 0 <= v < n && -1 <= d1 <= 1 && -1 <= d2 <= 1
    requires Wrap(n, v + d1) == Wrap(n, v + d2)
    ensures d1 == d2
  {
    WrapNear(n, v + d1);
    WrapNear(n, v + d2);
  }

  /** On a grid of side at least 3 different offsets lead to different cells. */
  lemma ShiftInjective(n: int, c: Cell, o1: Offset, o2: Offset)
    requires n >= 3 && InGrid(n, c)
    requires -1 <= o1.0 <= 1 && -1 <= o1.1 <= 1 && -1 <= o1.2 <= 1
    requires -1 <= o2.0 <= 1 && -1 <= o2.1 <= 1 && -1 <= o2.2 <= 1
    requires Shift(n, c, o1) == Shift(n, c, o2)
    ensures o1 == o2
  {
    WrapInjective(n, c.x, o1.0, o2.0);
    WrapInjective(n, c.y, o1.1, o2.1);
    WrapInjective(n, c.z, o1.2, o2.2);
  }

  /** For a grid side of at least 3 the 26 neighbours are pairwise distinct. */
  lemma NeighborsDistinct(n: int, c: Cell)
    requires n >= 3 && InGrid(n, c)
    ensures forall i, j :: 0 <= i < j < 26 ==> Neighbors(n, c)[i] != Neighbors(n, c)[j]
  {
    forall i, j | 0 <= i < j < 26
      ensures Neighbors(n, c)[i] != Neighbors(n, c)[j]
    {
      var oi, oj := OffsetAt(Slot(i)), OffsetAt(Slot(j));
      PositionOffsetAt(Slot(i));
      PositionOffsetAt(Slot(j));
      assert oi != oj;
      if Shift(n, c, oi) == Shift(n, c, oj) {
        ShiftInjective(n, c, oi, oj);
      }
    }
  }

  /** On a grid of side at least 3 a one-cell move changes the coordinate. */
  lemma WrapMoves(n: int, v: int, d: int)
    requires n >= 3 && 0 <= v < n && (d == -1 || d == 1)
    ensures Wrap(n, v + d) != v
  {
    WrapNear(n, v + d);
  }

  /** For a grid side of at least 3 a cell is not its own neighbour. */
  lemma NeighborsExcludeSelf(n: int, c: Cell)
    requires n >= 3 && InGrid(n, c)
    ensures c !in Neighbors(n, c)
  {
    forall i | 0 <= i < 26 ensures Neighbors(n, c)[i] != c {
      NeighborOffset(n, c, i);
      var o := OffsetAt(Slot(i));
      if o.0 != 0 {
        WrapMoves(n, c.x, o.0);
      } else if o.1 != 0 {
        WrapMoves(n, c.y, o.1);
      } else {
        WrapMoves(n, c.z, o.2);
      }
    }
  }

  /** Undoing a one-cell move recovers the coordinate. */
  lemma WrapBack(n: int, v: int, d: int)
    requires n > 0 && 0 <= v < n && -1 <= d <= 1
    ensures Wrap(n, Wrap(n, v + d) + -d) == v
  {
    WrapNear(n, v + d);
    WrapNear(n, Wrap(n, v + d) + -d);
  }

  /** Moving by the opposite offset returns to the starting cell. */
  lemma ShiftBack(n: int, p: Cell, o: Offset)
    requires n > 0 && InGrid(n, p) && -1 <= o.0 <= 1 && -1 <= o.1 <= 1 && -1 <= o.2 <= 1
    ensures Shift(n, Shift(n, p, o), (-o.0, -o.1, -o.2)) == p
  {
    var wx, wy, wz := Wrap(n, p.x + o.0), Wrap(n, p.y + o.1), Wrap(n, p.z + o.2);
    WrapBack(n, p.x, o.0);
    WrapBack(n, p.y, o.1);
    WrapBack(n, p.z, o.2);
    assert Shift(n, p, o) == Cell(wx, wy, wz);
    assert Shift(n, Cell(wx, wy, wz), (-o.0, -o.1, -o.2)) ==
      Cell(Wrap(n, wx + -o.0), Wrap(n, wy + -o.1), Wrap(n, wz + -o.2));
  }

  /** Periodic adjacency is symmetric. */
  lemma NeighborsSymmetric(n: int, p: Cell, q: Cell)
    requires n > 0 && InGrid(n, p)
    requires q in Neighbors(n, p)
    ensures p in Neighbors(n, q)
  {
    NeighborsMembers(n, p, q);
    var o :| IsOffset(o) && q == Shift(n, p, o);
    ShiftBack(n, p, o);
    assert IsOffset((-o.0, -o.1, -o.2));
    NeighborsMembers(n, q, p);
  }

  // ---------------------------------------------------------------------
  // The occupancy grid and the `adjacent_points` candidate list
  // ---------------------------------------------------------------------

  /** The grid is a cube of side `n` (`np.zeros((grid_size,)*3)`). */
  predicate IsCube(grid: array3<bool>, n: int) {
    grid.Length0 == n && grid.Length1 == n && grid.Length2 == n
  }

  /** `grid[c] == 1`: `c` lies in the grid and holds an atom. */
  predicate Occupied(grid: array3<bool>, c: Cell)
    reads grid
  {
    0 <= c.x < grid.Length0 && 0 <= c.y < grid.Length1 && 0 <= c.z < grid.Length2 &&
    grid[c.x, c.y, c.z]
  }

  /** A growth candidate: an empty cell of the grid that is a periodic
      neighbour of some occupied cell. */
  ghost predicate IsCandidate(grid: array3<bool>, n: int, q: Cell)
    requires n > 0
    reads grid
  {
    InGrid(n, q) && !Occupied(grid, q) && exists p :: Occupied(grid, p) && q in Neighbors(n, p)
  }

  predicate NoDuplicates<T(==)>(s: seq<T>) {
    forall i, j :: 0 <= i < j < |s| ==> s[i] != s[j]
  }

  /** Cell `p` comes before (x, y, z) in the order of the nested x, y, z scan. */
  predicate ScannedBefore(p: Cell, x: int, y: int, z: int) {
    p.x < x || (p.x == x && (p.y < y || (p.y == y && p.z < z)))
  }

  /** `q` is a neighbour of an occupied cell the scan has passed before (x, y, z). */
  ghost predicate Reached(grid: array3<bool>, n: int, q: Cell, x: int, y: int, z: int)
    requires n > 0
    reads grid
  {
    exists p :: Occupied(grid, p) && ScannedBefore(p, x, y, z) && q in Neighbors(n, p)
  }

  /** Two scan positions that no occupied cell separates have reached the same cells. */
  lemma ReachedSame(grid: array3<bool>, n: int, x: int, y: int, z: int, x': int, y': int, z': int)
    requires n > 0 && IsCube(grid, n)
    requires forall p :: InGrid(n, p) ==> (ScannedBefore(p, x, y, z) <==> ScannedBefore(p, x', y', z'))
    ensures forall q :: Reached(grid, n, q, x, y, z) <==> Reached(grid, n, q, x', y', z')
  {
    forall q ensures Reached(grid, n, q, x, y, z) <==> Reached(grid, n, q, x', y', z') {
      if Reached(grid, n, q, x, y, z) {
        var p :| Occupied(grid, p) && ScannedBefore(p, x, y, z) && q in Neighbors(n, p);
        assert InGrid(n, p);
      }
      if Reached(grid, n, q, x', y', z') {
        var p :| Occupied(grid, p) && ScannedBefore(p, x', y', z') && q in Neighbors(n, p);
        assert InGrid(n, p);
      }
    }
  }

  /** Passing cell (x, y, z) adds its neighbours when it is occupied. */
  lemma ReachedNext(grid: array3<bool>, n: int, x: int, y: int, z: int)
    requires n > 0 && IsCube(grid, n)
    ensures forall q :: Reached(grid, n, q, x, y, z + 1) <==>
      Reached(grid, n, q, x, y, z) || (Occupied(grid, Cell(x, y, z)) && q in Neighbors(n, Cell(x, y, z)))
  {
    forall q ensures Reached(grid, n, q, x, y, z + 1) <==>
      Reached(grid, n, q, x, y, z) || (Occupied(grid, Cell(x, y, z)) && q in Neighbors(n, Cell(x, y, z)))
    {
      if Reached(grid, n, q, x, y, z + 1) {
        var p :| Occupied(grid, p) && ScannedBefore(p, x, y, z + 1) && q in Neighbors(n, p);
        if !ScannedBefore(p, x, y, z) {
          assert p == Cell(x, y, z);
        }
      }
      if Occupied(grid, Cell(x, y, z)) && q in Neighbors(n, Cell(x, y, z)) {
        assert ScannedBefore(Cell(x, y, z), x, y, z + 1);
      }
    }
  }

  /** The `adjacent_points` scan of the step loop: collect the neighbours of every occupied cell,
      then drop duplicates and occupied cells. The result lists each candidate
      exactly once. */
  method AdjacentPoints(grid: array3<bool>, n: int) returns (cands: seq<Cell>)
    requires n > 0 && IsCube(grid, n)
    ensures NoDuplicates(cands)
    ensures forall q :: q in cands <==> IsCandidate(grid, n, q)
  {
    var adjacent: seq<Cell> := [];
    for x := 0 to n
      invariant forall q :: q in adjacent ==> InGrid(n, q)
      invariant forall q :: q in adjacent <==> Reached(grid, n, q, x, 0, 0)
    {
      for y := 0 to n
        invariant forall q :: q in adjacent ==> InGrid(n, q)
        invariant forall q :: q in adjacent <==> Reached(grid, n, q, x, y, 0)
      {
        for z := 0 to n
          invariant forall q :: q in adjacent ==> InGrid(n, q)
          invariant forall q :: q in adjacent <==> Reached(grid, n, q, x, y, z)
        {
          ReachedNext(grid, n, x, y, z);
          if grid[x, y, z] {
            var nbs := GetNeighbors(n, Cell(x, y, z));
            NeighborsInGrid(n, Cell(x, y, z));
            adjacent := adjacent + nbs;
          }
        }
        ReachedSame(grid, n, x, y, n, x, y + 1, 0);
      }
      ReachedSame(grid, n, x, n, 0, x + 1, 0, 0);
    }
    ReachedSame(grid, n, n, 0, 0, n + 1, 0, 0);
    cands := [];
    for i := 0 to |adjacent|
      invariant NoDuplicates(cands)
      invariant forall q :: q in cands <==> q in adjacent[..i] && !Occupied(grid, q)
    {
      var q := adjacent[i];
      assert q in adjacent;
      assert adjacent[..i + 1] == adjacent[..i] + [q];
      if !grid[q.x, q.y, q.z] && q !in cands {
        cands := cands + [q];
      }
    }
    assert adjacent[..|adjacent|] == adjacent;
    forall q | IsCandidate(grid, n, q) ensures q in cands {
      var p :| Occupied(grid, p) && q in Neighbors(n, p);
      assert ScannedBefore(p, n + 1, 0, 0);
    }
  }

  /** The site the step picks with `np.random.randint`: the candidate at the drawn index, or
      the fallback cell when there is no candidate. */
  function Propose(cands: seq<Cell>, pick: nat -> nat, fallback: Cell): Cell
    requires forall len: nat :: len > 0 ==> pick(len) < len
  {
    if |cands| > 0 then cands[pick(|cands|)] else fallback
  }

  // ---------------------------------------------------------------------
  // Envelope, energy and Metropolis acceptance
  // ---------------------------------------------------------------------

  /** `center = [grid_size // 2] * 3`, also the seed cell. */
  function Center(n: int): Cell {
    Cell(n / 2, n / 2, n / 2)
  }

  /** The squared Euclidean distance of two cells, coordinates subtracted as
      given (no periodic correction). */
  function SqDist(a: Cell, b: Cell): int {
    (a.x - b.x) * (a.x - b.x) + (a.y - b.y) * (a.y - b.y) + (a.z - b.z) * (a.z - b.z)
  }

  /** The envelope test `distance_to_center > radius`, on the squared distance. */
  predicate Outside(d2: int, radius: real) {
    radius < 0.0 || d2 as real > radius * radius
  }

  lemma ProductPositive(a: real, b: real)
    requires a > 0.0 && b > 0.0
    ensures a * b > 0.0
  {
  }

  lemma ProductNonNegative(a: real, b: real)
    requires a >= 0.0 && b >= 0.0
    ensures a * b >= 0.0
  {
  }

  /** Outside is the distance test: for the non-negative `dist` with
      `dist * dist == d2` (`np.linalg.norm` of the offset from `center`), `Outside(d2, radius)` holds
      exactly when `dist > radius`. */
  lemma OutsideIsDistance(d2: int, dist: real, radius: real)
    requires dist >= 0.0 && dist * dist == d2 as real
    ensures Outside(d2, radius) <==> dist > radius
  {
    if radius >= 0.0 {
      if dist > radius {
        assert dist * dist - radius * radius == (dist - radius) * (dist + radius);
        ProductPositive(dist - radius, dist + radius);
      } else {
        assert radius * radius - dist * dist == (radius - dist) * (radius + dist);
        ProductNonNegative(radius - dist, radius + dist);
      }
    }
  }

  /** Every occupied cell lies within `radius` of the centre. */
  ghost predicate InEnvelope(grid: array3<bool>, n: int, radius: real)
    reads grid
  {
    forall x, y, z ::
      0 <= x < grid.Length0 && 0 <= y < grid.Length1 && 0 <= z < grid.Length2 && grid[x, y, z] ==>
        !Outside(SqDist(Cell(x, y, z), Center(n)), radius)
  }

  /** The squared distances passed to `lennard_jones_potential` by the
      `delta_E` loop over the neighbour list `nbs`: one per occupied neighbour, in
      list order. */
  function PairSqDists(grid: array3<bool>, site: Cell, nbs: seq<Cell>): seq<int>
    reads grid
  {
    if nbs == [] then []
    else
      var rest := PairSqDists(grid, site, nbs[..|nbs| - 1]);
      var q := nbs[|nbs| - 1];
      if Occupied(grid, q) then rest + [SqDist(site, q)] else rest
  }

  /** The sum of the potential over a list of squared distances, left to right. */
  function SumPot(pot: int -> real, ds: seq<int>): real {
    if ds == [] then 0.0 else SumPot(pot, ds[..|ds| - 1]) + pot(ds[|ds| - 1])
  }

  /** Extending the neighbour list by one cell adds its distance when it is occupied. */
  lemma PairSqDistsNext(grid: array3<bool>, site: Cell, nbs: seq<Cell>, t: int)
    requires 0 <= t < |nbs|
    ensures PairSqDists(grid, site, nbs[..t + 1]) ==
      PairSqDists(grid, site, nbs[..t]) + (if Occupied(grid, nbs[t]) then [SqDist(site, nbs[t])] else [])
  {
    assert nbs[..t + 1][..t] == nbs[..t];
  }

  lemma SumPotAppend(pot: int -> real, ds: seq<int>, d: int)
    ensures SumPot(pot, ds + [d]) == SumPot(pot, ds) + pot(d)
  {
    assert (ds + [d])[..|ds|] == ds;
  }

  /** `delta_E` of a proposed site. */
  function DeltaE(grid: array3<bool>, n: int, site: Cell, pot: int -> real): real
    requires n > 0
    reads grid
  {
    SumPot(pot, PairSqDists(grid, site, Neighbors(n, site)))
  }

  /** The `delta_E` loop accumulating the pair potential over the
      occupied neighbours of `site`. */
  method EnergyChange(grid: array3<bool>, n: int, site: Cell, pot: int -> real) returns (dE: real)
    requires n > 0 && IsCube(grid, n)
    ensures dE == DeltaE(grid, n, site, pot)
  {
    var nbs := GetNeighbors(n, site);
    NeighborsInGrid(n, site);
    dE := 0.0;
    for t := 0 to |nbs|
      invariant dE == SumPot(pot, PairSqDists(grid, site, nbs[..t]))
    {
      var q := nbs[t];
      assert q in nbs;
      PairSqDistsNext(grid, site, nbs, t);
      ghost var before := PairSqDists(grid, site, nbs[..t]);
      assert InGrid(n, q);
      if grid[q.x, q.y, q.z] {
        var r2 := SqDist(site, q);
        assert Occupied(grid, q);
        assert PairSqDists(grid, site, nbs[..t + 1]) == before + [r2];
        SumPotAppend(pot, before, r2);
        dE := dE + pot(r2);
      } else {
        assert PairSqDists(grid, site, nbs[..t + 1]) == before;
      }
    }
    assert nbs[..|nbs|] == nbs;
  }

  /** The summed distances are exactly those of the occupied listed cells. */
  lemma {:induction false} PairSqDistsMembers(grid: array3<bool>, site: Cell, nbs: seq<Cell>)
    ensures forall d :: d in PairSqDists(grid, site, nbs) ==>
      exists q :: q in nbs && Occupied(grid, q) && d == SqDist(site, q)
    ensures forall q :: q in nbs && Occupied(grid, q) ==> SqDist(site, q) in PairSqDists(grid, site, nbs)
  {
    if nbs != [] {
      var init := nbs[..|nbs| - 1];
      PairSqDistsMembers(grid, site, init);
      assert nbs == init + [nbs[|nbs| - 1]];
    }
  }

  /** Only a cell coincides with itself. */
  lemma SqDistZero(a: Cell, b: Cell)
    ensures SqDist(a, b) >= 0
    ensures SqDist(a, b) == 0 <==> a == b
  {
    var dx, dy, dz := a.x - b.x, a.y - b.y, a.z - b.z;
    assert dx * dx >= 0 && dy * dy >= 0 && dz * dz >= 0;
    if dx != 0 { assert dx * dx > 0; }
    if dy != 0 { assert dy * dy > 0; }
    if dz != 0 { assert dz * dz > 0; }
  }

  /** The potential is never evaluated at r = 0: every summed pair is at a
      positive squared distance, whenever the site is empty (as every
      candidate is) or the grid side is at least 3. */
  lemma PairSqDistsPositive(grid: array3<bool>, n: int, site: Cell)
    requires n > 0 && InGrid(n, site)
    requires n >= 3 || !Occupied(grid, site)
    ensures forall d :: d in PairSqDists(grid, site, Neighbors(n, site)) ==> d > 0
  {
    PairSqDistsMembers(grid, site, Neighbors(n, site));
    if n >= 3 {
      NeighborsExcludeSelf(n, site);
    }
    forall q | q in Neighbors(n, site) && Occupied(grid, q) ensures SqDist(site, q) > 0 {
      SqDistZero(site, q);
    }
  }

  /** The Metropolis-Hastings acceptance test, with `boltz(dE)` standing for
      `exp(-dE / (k_B * T))` and `u` for `np.random.uniform(0, 1)`. */
  predicate Accept(dE: real, u: real, boltz: real -> real) {
    dE < 0.0 || u < boltz(dE)
  }

  /** A lowered energy is accepted whatever the draw; otherwise the draw
      decides, against the Boltzmann factor. */
  lemma AcceptRule(dE: real, u: real, boltz: real -> real)
    ensures dE < 0.0 ==> forall v :: Accept(dE, v, boltz)
    ensures dE >= 0.0 ==> (Accept(dE, u, boltz) <==> u < boltz(dE))
  {
  }

  // ---------------------------------------------------------------------
  // The seeded grid, one growth step and the `for step in range(n_steps)` loop
  // ---------------------------------------------------------------------

  /** The random draws one step may consult: `np.random.randint(0, len)` as a
      function of `len`, the fallback cell `np.random.randint(0, grid_size,
      size=3)` and `np.random.uniform(0, 1)`. */
  datatype Draw = Draw(pick: nat -> nat, fallback: Cell, u: real)

  ghost predicate ValidDraw(n: int, d: Draw) {
    (forall len: nat :: len > 0 ==> d.pick(len) < len) && InGrid(n, d.fallback)
  }

  /** Whether the grid holds any candidate at all. */
  ghost predicate HasCandidate(grid: array3<bool>, n: int)
    requires n > 0
    reads grid
  {
    exists q :: IsCandidate(grid, n, q)
  }

  /** One iteration of the `for step` loop: propose a site, reject it outside
      the envelope, otherwise compute `delta_E` and set the cell when the
      Metropolis test accepts. Only the proposed cell can change, and only
      from empty to occupied. */
  method GrowthStep(grid: array3<bool>, n: int, radius: real, pot: int -> real, boltz: real -> real, d: Draw)
    returns (site: Cell, added: bool)
    requires n > 0 && IsCube(grid, n) && ValidDraw(n, d)
    modifies grid
    ensures InGrid(n, site)
    ensures old(HasCandidate(grid, n)) ==> old(IsCandidate(grid, n, site))
    ensures !old(HasCandidate(grid, n)) ==> site == d.fallback
    ensures added <==>
      !Outside(SqDist(site, Center(n)), radius) && Accept(old(DeltaE(grid, n, site, pot)), d.u, boltz)
    ensures grid[site.x, site.y, site.z] == (old(grid[site.x, site.y, site.z]) || added)
    ensures forall x, y, z :: 0 <= x < n && 0 <= y < n && 0 <= z < n && Cell(x, y, z) != site ==>
      grid[x, y, z] == old(grid[x, y, z])
    ensures forall x, y, z :: 0 <= x < n && 0 <= y < n && 0 <= z < n && old(grid[x, y, z]) ==> grid[x, y, z]
    ensures old(InEnvelope(grid, n, radius)) ==> InEnvelope(grid, n, radius)
  {
    var cands := AdjacentPoints(grid, n);
    site := Propose(cands, d.pick, d.fallback);
    if |cands| > 0 {
      assert site in cands;
    } else {
      assert !HasCandidate(grid, n);
    }
    added := false;
    if Outside(SqDist(site, Center(n)), radius) {
      return;
    }
    var dE := EnergyChange(grid, n, site, pot);
    if dE < 0.0 {
      grid[site.x, site.y, site.z] := true;
      added := true;
    } else if d.u < boltz(dE) {
      grid[site.x, site.y, site.z] := true;
      added := true;
    }
  }

  /** The sites of the steps that added an atom, in step order. */
  function Accepted(sites: seq<Cell>, added: seq<bool>): (r: seq<Cell>)
    requires |sites| == |added|
    ensures forall c :: c in r <==> exists s :: 0 <= s < |sites| && added[s] && sites[s] == c
  {
    if sites == [] then []
    else
      var k := |sites| - 1;
      var prev := Accepted(sites[..k], added[..k]);
      assert forall s :: 0 <= s < k ==> sites[..k][s] == sites[s] && added[..k][s] == added[s];
      prev + (if added[k] then [sites[k]] else [])
  }

  /** One more step extends the accepted sites by its own site when it added an atom. */
  lemma AcceptedNext(sites: seq<Cell>, added: seq<bool>, site: Cell, a: bool)
    requires |sites| == |added|
    ensures Accepted(sites + [site], added + [a]) == Accepted(sites, added) + (if a then [site] else [])
  {
    assert (sites + [site])[..|sites|] == sites;
    assert (added + [a])[..|added|] == added;
  }

  // ---------------------------------------------------------------------
  // The growth loop on the set of occupied cells
  // ---------------------------------------------------------------------

  /** Membership in the occupied set is occupancy. */
  lemma OccupiedSetMembers(grid: array3<bool>)
    ensures forall c :: c in OccupiedSet(grid) <==> Occupied(grid, c)
  {
    forall c | Occupied(grid, c) ensures c in OccupiedSet(grid) {
      assert Cell(c.x, c.y, c.z) == c;
    }
  }

  /** A cell of the grid holds an atom exactly when it is in the occupied set. */
  lemma OccupiedSetCells(grid: array3<bool>)
    ensures forall x, y, z :: 0 <= x < grid.Length0 && 0 <= y < grid.Length1 && 0 <= z < grid.Length2 ==>
      (grid[x, y, z] <==> Cell(x, y, z) in OccupiedSet(grid))
  {
  }

  /** InEnvelope on the occupied set: every occupied cell lies inside. */
  lemma EnvelopeSet(grid: array3<bool>, n: int, radius: real)
    ensures InEnvelope(grid, n, radius) <==> forall c :: c in OccupiedSet(grid) ==> !Outside(SqDist(c, Center(n)), radius)
  {
    OccupiedSetMembers(grid);
    if InEnvelope(grid, n, radius) {
      forall c | c in OccupiedSet(grid) ensures !Outside(SqDist(c, Center(n)), radius) {
        assert Cell(c.x, c.y, c.z) == c;
      }
    }
  }

  /** IsCandidate stated on a set `occ` of occupied cells. */
  ghost predicate CandidateIn(occ: set<Cell>, n: int, q: Cell)
    requires n > 0
  {
    InGrid(n, q) && q !in occ && exists p :: p in occ && q in Neighbors(n, p)
  }

  /** PairSqDists stated on a set `occ` of occupied cells. */
  function PairSqDistsIn(occ: set<Cell>, site: Cell, nbs: seq<Cell>): seq<int> {
    if nbs == [] then []
    else
      var rest := PairSqDistsIn(occ, site, nbs[..|nbs| - 1]);
      var q := nbs[|nbs| - 1];
      if q in occ then rest + [SqDist(site, q)] else rest
  }

  /** On the grid's own occupied set the two sums see the same distances. */
  lemma {:induction false} PairSqDistsAgree(grid: array3<bool>, occ: set<Cell>, site: Cell, nbs: seq<Cell>)
    requires forall c :: c in occ <==> Occupied(grid, c)
    ensures PairSqDists(grid, site, nbs) == PairSqDistsIn(occ, site, nbs)
  {
    if nbs != [] {
      PairSqDistsAgree(grid, occ, site, nbs[..|nbs| - 1]);
    }
  }

  /** DeltaE stated on a set `occ` of occupied cells. */
  function DeltaEIn(occ: set<Cell>, n: int, site: Cell, pot: int -> real): real
    requires n > 0
  {
    SumPot(pot, PairSqDistsIn(occ, site, Neighbors(n, site)))
  }

  /** On the grid's own occupied set, candidates and energy changes are the
      ones of the grid. */
  lemma GridAgrees(grid: array3<bool>, n: int, pot: int -> real)
    requires n > 0 && IsCube(grid, n)
    ensures forall q :: IsCandidate(grid, n, q) <==> CandidateIn(OccupiedSet(grid), n, q)
    ensures HasCandidate(grid, n) <==> exists q :: CandidateIn(OccupiedSet(grid), n, q)
    ensures forall q :: DeltaE(grid, n, q, pot) == DeltaEIn(OccupiedSet(grid), n, q, pot)
  {
    OccupiedSetMembers(grid);
    forall q ensures DeltaE(grid, n, q, pot) == DeltaEIn(OccupiedSet(grid), n, q, pot) {
      PairSqDistsAgree(grid, OccupiedSet(grid), q, Neighbors(n, q));
    }
  }

  /** A grid that differs from `occ` at most at `site`, where it holds
      `site in occ || added`, has the occupied set StepSpec requires. */
  lemma SetAfterStep(grid: array3<bool>, n: int, occ: set<Cell>, site: Cell, added: bool)
    requires n > 0 && IsCube(grid, n) && InGrid(n, site)
    requires forall c :: c in occ ==> InGrid(n, c)
    requires grid[site.x, site.y, site.z] == (site in occ || added)
    requires forall x, y, z :: 0 <= x < n && 0 <= y < n && 0 <= z < n && Cell(x, y, z) != site ==>
      (grid[x, y, z] <==> Cell(x, y, z) in occ)
    ensures OccupiedSet(grid) == if added then occ + {site} else occ
  {
    OccupiedSetMembers(grid);
    forall c ensures c in OccupiedSet(grid) <==> c in (if added then occ + {site} else occ) {
      assert Cell(c.x, c.y, c.z) == c;
    }
  }

  /** The site a growth step proposes on the occupied set `occ`: a
      candidate when there is one, and the fallback cell otherwise. */
  ghost predicate ProposeSpec(occ: set<Cell>, n: int, d: Draw, site: Cell)
    requires n > 0
  {
    && InGrid(n, site)
    && ((exists q :: CandidateIn(occ, n, q)) ==> CandidateIn(occ, n, site))
    && ((forall q :: !CandidateIn(occ, n, q)) ==> site == d.fallback)
  }

  /** The outcome of a growth step at `site`: an atom is added exactly when
      the site is inside the envelope and passes the Metropolis test on
      `delta_E`, and that atom is the only change to the occupied set. */
  ghost predicate AddSpec(occ: set<Cell>, n: int, radius: real, pot: int -> real, boltz: real -> real,
                          d: Draw, site: Cell, added: bool, occ': set<Cell>)
    requires n > 0
  {
    && (added <==> (!Outside(SqDist(site, Center(n)), radius) && Accept(DeltaEIn(occ, n, site, pot), d.u, boltz)))
    && occ' == (if added then occ + {site} else occ)
  }

  /** One growth step taking the occupied set `occ` to `occ'` with draw `d`. */
  ghost predicate StepSpec(occ: set<Cell>, n: int, radius: real, pot: int -> real, boltz: real -> real,
                           d: Draw, site: Cell, added: bool, occ': set<Cell>)
    requires n > 0
  {
    ProposeSpec(occ, n, d, site) && AddSpec(occ, n, radius, pot, boltz, d, site, added, occ')
  }

  /** StepSpec from its parts. */
  lemma FoldStep(occ: set<Cell>, n: int, radius: real, pot: int -> real, boltz: real -> real,
                 d: Draw, site: Cell, added: bool, occ': set<Cell>)
    requires n > 0 && InGrid(n, site)
    requires (exists q :: CandidateIn(occ, n, q)) ==> CandidateIn(occ, n, site)
    requires (forall q :: !CandidateIn(occ, n, q)) ==> site == d.fallback
    requires added <==> (!Outside(SqDist(site, Center(n)), radius) && Accept(DeltaEIn(occ, n, site, pot), d.u, boltz))
    requires occ' == (if added then occ + {site} else occ)
    ensures StepSpec(occ, n, radius, pot, boltz, d, site, added, occ')
  {
  }

  /** `trace[s]` is the occupied set before step `s`, and every step follows
      StepSpec with its own draw, proposed site and added flag. */
  ghost predicate GrowthTrace(trace: seq<set<Cell>>, n: int, radius: real, pot: int -> real, boltz: real -> real,
                              draws: seq<Draw>, sites: seq<Cell>, added: seq<bool>)
    requires n > 0
  {
    |trace| == |draws| + 1 && |sites| == |draws| && |added| == |draws| &&
    forall s :: 0 <= s < |draws| ==>
      StepSpec(trace[s], n, radius, pot, boltz, draws[s], sites[s], added[s], trace[s + 1])
  }

  /** A trace extended by one more step that follows StepSpec. */
  lemma TraceExtend(trace: seq<set<Cell>>, n: int, radius: real, pot: int -> real, boltz: real -> real,
                    draws: seq<Draw>, sites: seq<Cell>, added: seq<bool>,
                    d: Draw, site: Cell, a: bool, occ': set<Cell>)
    requires n > 0 && GrowthTrace(trace, n, radius, pot, boltz, draws, sites, added)
    requires StepSpec(trace[|draws|], n, radius, pot, boltz, d, site, a, occ')
    ensures GrowthTrace(trace + [occ'], n, radius, pot, boltz, draws + [d], sites + [site], added + [a])
  {
    var tr, ds, ss, ad := trace + [occ'], draws + [d], sites + [site], added + [a];
    forall s | 0 <= s < |ds|
      ensures StepSpec(tr[s], n, radius, pot, boltz, ds[s], ss[s], ad[s], tr[s + 1])
    {
      if s < |draws| {
        assert tr[s] == trace[s] && tr[s + 1] == trace[s + 1];
        assert ds[s] == draws[s] && ss[s] == sites[s] && ad[s] == added[s];
      }
    }
  }

  /** After `k` steps the occupied set is the initial one plus the sites of
      the steps that added an atom. */
  lemma {:induction false} TraceAccepted(trace: seq<set<Cell>>, n: int, radius: real, pot: int -> real,
                                         boltz: real -> real, draws: seq<Draw>, sites: seq<Cell>,
                                         added: seq<bool>, k: nat)
    requires n > 0 && GrowthTrace(trace, n, radius, pot, boltz, draws, sites, added) && k <= |draws|
    ensures forall c :: c in trace[k] <==> c in trace[0] || c in Accepted(sites[..k], added[..k])
  {
    if k > 0 {
      TraceAccepted(trace, n, radius, pot, boltz, draws, sites, added, k - 1);
      var ps, pa, site, a := sites[..k - 1], added[..k - 1], sites[k - 1], added[k - 1];
      assert sites[..k] == ps + [site] && added[..k] == pa + [a];
      AcceptedNext(ps, pa, site, a);
      assert StepSpec(trace[k - 1], n, radius, pot, boltz, draws[k - 1], site, a, trace[k]);
      assert trace[k] == if a then trace[k - 1] + {site} else trace[k - 1];
    }
  }

  /** Every step keeps every occupied cell within `radius` of the centre. */
  lemma {:induction false} TraceInEnvelope(trace: seq<set<Cell>>, n: int, radius: real, pot: int -> real,
                                           boltz: real -> real, draws: seq<Draw>, sites: seq<Cell>,
                                           added: seq<bool>, k: nat)
    requires n > 0 && GrowthTrace(trace, n, radius, pot, boltz, draws, sites, added) && k <= |draws|
    requires forall c :: c in trace[0] ==> !Outside(SqDist(c, Center(n)), radius)
    ensures forall c :: c in trace[k] ==> !Outside(SqDist(c, Center(n)), radius)
  {
    if k > 0 {
      TraceInEnvelope(trace, n, radius, pot, boltz, draws, sites, added, k - 1);
      assert StepSpec(trace[k - 1], n, radius, pot, boltz, draws[k - 1], sites[k - 1], added[k - 1], trace[k]);
    }
  }

  /** Every site a step added lies inside the envelope. */
  lemma AcceptedInEnvelope(trace: seq<set<Cell>>, n: int, radius: real, pot: int -> real,
                           boltz: real -> real, draws: seq<Draw>, sites: seq<Cell>, added: seq<bool>)
    requires n > 0 && GrowthTrace(trace, n, radius, pot, boltz, draws, sites, added)
    ensures forall c :: c in Accepted(sites, added) ==> !Outside(SqDist(c, Center(n)), radius)
  {
    forall c | c in Accepted(sites, added) ensures !Outside(SqDist(c, Center(n)), radius) {
      var s :| 0 <= s < |sites| && added[s] && sites[s] == c;
      assert StepSpec(trace[s], n, radius, pot, boltz, draws[s], sites[s], added[s], trace[s + 1]);
    }
  }

  /** The end of a trace: the cells added along it are the accepted sites,
      and all of them lie inside the envelope. */
  lemma TraceOutcome(trace: seq<set<Cell>>, n: int, radius: real, pot: int -> real,
                     boltz: real -> real, draws: seq<Draw>, sites: seq<Cell>, added: seq<bool>)
    requires n > 0 && GrowthTrace(trace, n, radius, pot, boltz, draws, sites, added)
    ensures forall c :: c in trace[|draws|] <==> c in trace[0] || c in Accepted(sites, added)
    ensures forall c :: c in Accepted(sites, added) ==> !Outside(SqDist(c, Center(n)), radius)
  {
    TraceAccepted(trace, n, radius, pot, boltz, draws, sites, added, |draws|);
    assert sites[..|draws|] == sites && added[..|draws|] == added;
    AcceptedInEnvelope(trace, n, radius, pot, boltz, draws, sites, added);
  }

  /** GrowthStep with the change to the occupied set stated as a whole:
      the set gains the proposed site exactly when the step added an atom.
      A proof-only layer of RecordedStep, with no behaviour of its own. */
  method StepOnGrid(grid: array3<bool>, n: int, radius: real, pot: int -> real, boltz: real -> real, d: Draw)
    returns (site: Cell, added: bool)
    requires n > 0 && IsCube(grid, n) && ValidDraw(n, d)
    modifies grid
    ensures InGrid(n, site)
    ensures old(HasCandidate(grid, n)) ==> old(IsCandidate(grid, n, site))
    ensures !old(HasCandidate(grid, n)) ==> site == d.fallback
    ensures added <==>
      !Outside(SqDist(site, Center(n)), radius) && Accept(old(DeltaE(grid, n, site, pot)), d.u, boltz)
    ensures OccupiedSet(grid) == if added then old(OccupiedSet(grid)) + {site} else old(OccupiedSet(grid))
  {
    ghost var occ := OccupiedSet(grid);
    OccupiedSetMembers(grid);
    site, added := GrowthStep(grid, n, radius, pot, boltz, d);
    SetAfterStep(grid, n, occ, site, added);
  }

  /** A proof-only wrapper around GrowthStep, with no behaviour of its own:
      it restates GrowthStep's contract, which speaks of the grid before and
      after, as StepSpec on the occupied sets before (`occ`) and after. The
      step loop of Grow calls it so that its invariant only needs the sets in
      `trace`, never earlier states of the grid; carrying GrowthStep's
      grid-level clauses for every earlier step through the loop puts Grow
      past the resource limit, and so does proving the whole conversion in
      one method, hence the two layers. This is why Grow states its per-step
      conditions through GrowthTrace rather than on the grid. */
  method RecordedStep(grid: array3<bool>, ghost occ: set<Cell>, n: int, radius: real, pot: int -> real,
                      boltz: real -> real, d: Draw)
    returns (site: Cell, added: bool)
    requires n > 0 && IsCube(grid, n) && ValidDraw(n, d) && occ == OccupiedSet(grid)
    modifies grid
    ensures StepSpec(occ, n, radius, pot, boltz, d, site, added, OccupiedSet(grid))
  {
    GridAgrees(grid, n, pot);
    site, added := StepOnGrid(grid, n, radius, pot, boltz, d);
    FoldStep(occ, n, radius, pot, boltz, d, site, added, OccupiedSet(grid));
  }

  /** The `for step in range(n_steps)` loop, one draw record per step.
      Returns the site each step proposed, whether it added an atom, and the
      occupied set before each step: the steps follow StepSpec, and the grid
      afterwards holds exactly the atoms it held before and the added sites,
      each of them inside the envelope. */
  method Grow(grid: array3<bool>, n: int, radius: real, pot: int -> real, boltz: real -> real, draws: seq<Draw>)
    returns (sites: seq<Cell>, added: seq<bool>, ghost trace: seq<set<Cell>>)
    requires n > 0 && IsCube(grid, n)
    requires forall s :: 0 <= s < |draws| ==> ValidDraw(n, draws[s])
    modifies grid
    ensures GrowthTrace(trace, n, radius, pot, boltz, draws, sites, added)
    ensures trace[0] == old(OccupiedSet(grid)) && trace[|draws|] == OccupiedSet(grid)
    ensures forall x, y, z :: 0 <= x < n && 0 <= y < n && 0 <= z < n ==>
      (grid[x, y, z] <==> old(grid[x, y, z]) || Cell(x, y, z) in Accepted(sites, added))
    ensures forall c :: c in Accepted(sites, added) ==> !Outside(SqDist(c, Center(n)), radius)
    ensures old(InEnvelope(grid, n, radius)) ==> InEnvelope(grid, n, radius)
  {
    OccupiedSetCells(grid);
    EnvelopeSet(grid, n, radius);
    ghost var occ0 := OccupiedSet(grid);
    sites, added, trace := [], [], [occ0];
    for step := 0 to |draws|
      invariant GrowthTrace(trace, n, radius, pot, boltz, draws[..step], sites, added)
      invariant trace[0] == occ0 && trace[step] == OccupiedSet(grid)
    {
      var site, a := RecordedStep(grid, trace[step], n, radius, pot, boltz, draws[step]);
      TraceExtend(trace, n, radius, pot, boltz, draws[..step], sites, added, draws[step], site, a, OccupiedSet(grid));
      assert draws[..step] + [draws[step]] == draws[..step + 1];
      sites, added, trace := sites + [site], added + [a], trace + [OccupiedSet(grid)];
    }
    assert draws[..|draws|] == draws;
    TraceOutcome(trace, n, radius, pot, boltz, draws, sites, added);
    OccupiedSetCells(grid);
    EnvelopeSet(grid, n, radius);
  }

  /** `np.zeros` and the initiator atom: an empty cube with the single seed
      atom at the centre. */
  method Seed(n: int) returns (grid: array3<bool>)
    requires n > 0
    ensures fresh(grid) && IsCube(grid, n)
    ensures forall c :: InGrid(n, c) ==> (Occupied(grid, c) <==> c == Center(n))
  {
    grid := new bool[n, n, n]((x, y, z) => false);
    grid[n / 2, n / 2, n / 2] := true;
  }

  /** The seeded grid lies within any non-negative radius. */
  lemma SeedInEnvelope(grid: array3<bool>, n: int, radius: real)
    requires n > 0 && IsCube(grid, n) && radius >= 0.0
    requires forall c :: InGrid(n, c) ==> (Occupied(grid, c) <==> c == Center(n))
    ensures InEnvelope(grid, n, radius)
  {
    forall x, y, z | 0 <= x < n && 0 <= y < n && 0 <= z < n && grid[x, y, z]
      ensures !Outside(SqDist(Cell(x, y, z), Center(n)), radius)
    {
      assert Occupied(grid, Cell(x, y, z));
    }
  }

  /** The whole run: seed at the centre, then grow. The steps follow
      StepSpec from the seed set `{Center(n)}`; the occupied cells are the
      centre and the added sites, and every one of them lies within `radius`
      of the centre. */
  method Simulate(n: int, radius: real, pot: int -> real, boltz: real -> real, draws: seq<Draw>)
    returns (grid: array3<bool>, sites: seq<Cell>, added: seq<bool>, ghost trace: seq<set<Cell>>)
    requires n > 0 && radius >= 0.0
    requires forall s :: 0 <= s < |draws| ==> ValidDraw(n, draws[s])
    ensures fresh(grid) && IsCube(grid, n)
    ensures GrowthTrace(trace, n, radius, pot, boltz, draws, sites, added)
    ensures trace[0] == {Center(n)} && trace[|draws|] == OccupiedSet(grid)
    ensures forall c :: InGrid(n, c) ==> (Occupied(grid, c) <==> c == Center(n) || c in Accepted(sites, added))
    ensures Occupied(grid, Center(n))
    ensures InEnvelope(grid, n, radius)
  {
    grid := Seed(n);
    SeedInEnvelope(grid, n, radius);
    OccupiedSetMembers(grid);
    assert OccupiedSet(grid) == {Center(n)};
    label Seeded:
    sites, added, trace := Grow(grid, n, radius, pot, boltz, draws);
    forall c | InGrid(n, c) ensures Occupied(grid, c) <==> c == Center(n) || c in Accepted(sites, added) {
      assert Cell(c.x, c.y, c.z) == c;
      assert old@Seeded(Occupied(grid, c)) <==> c == Center(n);
    }
  }

  // ---------------------------------------------------------------------
  // Export structure of `structure1.pdb` and `structure1.xyz`
  // ---------------------------------------------------------------------

  /** The occupied cells (x, y, z) of one row with z < k, in increasing z. */
  function RowCells(grid: array3<bool>, x: int, y: int, k: int): seq<Cell>
    requires 0 <= x < grid.Length0 && 0 <= y < grid.Length1 && 0 <= k <= grid.Length2
    reads grid
    decreases k
  {
    if k == 0 then []
    else RowCells(grid, x, y, k - 1) + (if grid[x, y, k - 1] then [Cell(x, y, k - 1)] else [])
  }

  /** The occupied cells of plane x with y < j, in scan order. */
  function PlaneCells(grid: array3<bool>, x: int, j: int): seq<Cell>
    requires 0 <= x < grid.Length0 && 0 <= j <= grid.Length1
    reads grid
    decreases j
  {
    if j == 0 then [] else PlaneCells(grid, x, j - 1) + RowCells(grid, x, j - 1, grid.Length2)
  }

  /** The occupied cells with x < i, in scan order. */
  function ScanCells(grid: array3<bool>, i: int): seq<Cell>
    requires 0 <= i <= grid.Length0
    reads grid
    decreases i
  {
    if i == 0 then [] else ScanCells(grid, i - 1) + PlaneCells(grid, i - 1, grid.Length1)
  }

  /** `zip(*np.where(grid == 1))`: the occupied cells in row-major scan order. */
  function Where(grid: array3<bool>): seq<Cell>
    reads grid
  {
    ScanCells(grid, grid.Length0)
  }

  /** The occupied cells as a set (what `np.sum(grid)` counts). */
  ghost function OccupiedSet(grid: array3<bool>): set<Cell>
    reads grid
  {
    set x, y, z | 0 <= x < grid.Length0 && 0 <= y < grid.Length1 && 0 <= z < grid.Length2 &&
      grid[x, y, z] :: Cell(x, y, z)
  }

  /** Strictly increasing in scan order. */
  predicate ScanSorted(s: seq<Cell>) {
    forall i, j :: 0 <= i < j < |s| ==> ScannedBefore(s[i], s[j].x, s[j].y, s[j].z)
  }

  lemma {:induction false} RowMembers(grid: array3<bool>, x: int, y: int, k: int)
    requires 0 <= x < grid.Length0 && 0 <= y < grid.Length1 && 0 <= k <= grid.Length2
    ensures forall c :: c in RowCells(grid, x, y, k) <==> c.x == x && c.y == y && 0 <= c.z < k && Occupied(grid, c)
  {
    if k > 0 {
      RowMembers(grid, x, y, k - 1);
    }
  }

  lemma {:induction false} PlaneMembers(grid: array3<bool>, x: int, j: int)
    requires 0 <= x < grid.Length0 && 0 <= j <= grid.Length1
    ensures forall c :: c in PlaneCells(grid, x, j) <==> c.x == x && 0 <= c.y < j && Occupied(grid, c)
  {
    if j > 0 {
      PlaneMembers(grid, x, j - 1);
      RowMembers(grid, x, j - 1, grid.Length2);
    }
  }

  lemma {:induction false} ScanMembers(grid: array3<bool>, i: int)
    requires 0 <= i <= grid.Length0
    ensures forall c :: c in ScanCells(grid, i) <==> c.x < i && Occupied(grid, c)
  {
    if i > 0 {
      var prev, plane := ScanCells(grid, i - 1), PlaneCells(grid, i - 1, grid.Length1);
      assert ScanCells(grid, i) == prev + plane;
      ScanMembers(grid, i - 1);
      PlaneMembers(grid, i - 1, grid.Length1);
      forall c: Cell ensures c in prev + plane <==> c.x < i && Occupied(grid, c) {
        if c.x == i - 1 {
          assert c !in prev;
          assert c in plane <==> Occupied(grid, c);
        } else {
          assert c !in plane;
          assert c in prev <==> c.x < i && Occupied(grid, c);
        }
      }
    }
  }

  /** The export lists exactly the occupied cells. */
  lemma WhereMembers(grid: array3<bool>)
    ensures forall c :: c in Where(grid) <==> Occupied(grid, c)
  {
    ScanMembers(grid, grid.Length0);
  }

  lemma SortedConcat(a: seq<Cell>, b: seq<Cell>)
    requires ScanSorted(a) && ScanSorted(b)
    requires forall u, v :: u in a && v in b ==> ScannedBefore(u, v.x, v.y, v.z)
    ensures ScanSorted(a + b)
  {
    forall i, j | 0 <= i < j < |a + b|
      ensures ScannedBefore((a + b)[i], (a + b)[j].x, (a + b)[j].y, (a + b)[j].z)
    {
      if j < |a| {
        assert (a + b)[i] == a[i] && (a + b)[j] == a[j];
      } else if i >= |a| {
        assert (a + b)[i] == b[i - |a|] && (a + b)[j] == b[j - |a|];
      } else {
        assert (a + b)[i] in a && (a + b)[j] in b;
      }
    }
  }

  lemma {:induction false} RowSorted(grid: array3<bool>, x: int, y: int, k: int)
    requires 0 <= x < grid.Length0 && 0 <= y < grid.Length1 && 0 <= k <= grid.Length2
    ensures ScanSorted(RowCells(grid, x, y, k))
  {
    if k > 0 {
      RowSorted(grid, x, y, k - 1);
      RowMembers(grid, x, y, k - 1);
      SortedConcat(RowCells(grid, x, y, k - 1), if grid[x, y, k - 1] then [Cell(x, y, k - 1)] else []);
    }
  }

  lemma {:induction false} PlaneSorted(grid: array3<bool>, x: int, j: int)
    requires 0 <= x < grid.Length0 && 0 <= j <= grid.Length1
    ensures ScanSorted(PlaneCells(grid, x, j))
  {
    if j > 0 {
      var prev, row := PlaneCells(grid, x, j - 1), RowCells(grid, x, j - 1, grid.Length2);
      assert PlaneCells(grid, x, j) == prev + row;
      PlaneSorted(grid, x, j - 1);
      RowSorted(grid, x, j - 1, grid.Length2);
      PlaneMembers(grid, x, j - 1);
      RowMembers(grid, x, j - 1, grid.Length2);
      forall u, v | u in prev && v in row ensures ScannedBefore(u, v.x, v.y, v.z) {
        assert u.x == x && u.y < j - 1;
        assert v.x == x && v.y == j - 1;
      }
      SortedConcat(prev, row);
    }
  }

  lemma {:induction false} ScanCellsSorted(grid: array3<bool>, i: int)
    requires 0 <= i <= grid.Length0
    ensures ScanSorted(ScanCells(grid, i))
  {
    if i > 0 {
      var prev, plane := ScanCells(grid, i - 1), PlaneCells(grid, i - 1, grid.Length1);
      assert ScanCells(grid, i) == prev + plane;
      ScanCellsSorted(grid, i - 1);
      PlaneSorted(grid, i - 1, grid.Length1);
      ScanBeforePlane(grid, i - 1);
      SortedConcat(prev, plane);
    }
  }

  /** Every cell of the planes before `x` comes before every cell of plane `x`. */
  lemma ScanBeforePlane(grid: array3<bool>, x: int)
    requires 0 <= x < grid.Length0
    ensures forall u, v :: u in ScanCells(grid, x) && v in PlaneCells(grid, x, grid.Length1) ==>
      ScannedBefore(u, v.x, v.y, v.z)
  {
    ScanMembers(grid, x);
    PlaneMembers(grid, x, grid.Length1);
    forall u, v | u in ScanCells(grid, x) && v in PlaneCells(grid, x, grid.Length1)
      ensures ScannedBefore(u, v.x, v.y, v.z)
    {
      assert u.x < x;
      assert v.x == x;
    }
  }

  /** The export order is the lexicographic (x, y, z) order, with no cell twice. */
  lemma WhereSorted(grid: array3<bool>)
    ensures ScanSorted(Where(grid))
    ensures NoDuplicates(Where(grid))
  {
    ScanCellsSorted(grid, grid.Length0);
  }

  /** A list without repetitions has as many elements as its set. */
  lemma {:induction false} DistinctCard(s: seq<Cell>)
    requires NoDuplicates(s)
    ensures |set c | c in s| == |s|
  {
    if s != [] {
      var init := s[..|s| - 1];
      DistinctCard(init);
      assert (set c | c in s) == (set c | c in init) + {s[|s| - 1]};
      assert s[|s| - 1] !in init;
    }
  }

  /** The number of exported cells is the number of occupied cells. */
  lemma WhereCount(grid: array3<bool>)
    ensures |Where(grid)| == |OccupiedSet(grid)|
  {
    WhereSorted(grid);
    WhereMembers(grid);
    DistinctCard(Where(grid));
    assert (set c | c in Where(grid)) == OccupiedSet(grid);
  }

  /** `np.where(grid == 1)`: the nested scan collecting occupied cells. */
  method OccupiedCells(grid: array3<bool>) returns (cells: seq<Cell>)
    ensures cells == Where(grid)
  {
    cells := [];
    for x := 0 to grid.Length0
      invariant cells == ScanCells(grid, x)
    {
      for y := 0 to grid.Length1
        invariant cells == ScanCells(grid, x) + PlaneCells(grid, x, y)
      {
        for z := 0 to grid.Length2
          invariant cells == ScanCells(grid, x) + PlaneCells(grid, x, y) + RowCells(grid, x, y, z)
        {
          if grid[x, y, z] {
            cells := cells + [Cell(x, y, z)];
          }
        }
      }
    }
  }

  /** `np.sum(grid)`: the number of occupied cells. */
  method SumGrid(grid: array3<bool>) returns (total: nat)
    ensures total == |OccupiedSet(grid)|
  {
    total := 0;
    for x := 0 to grid.Length0
      invariant total == |ScanCells(grid, x)|
    {
      for y := 0 to grid.Length1
        invariant total == |ScanCells(grid, x)| + |PlaneCells(grid, x, y)|
      {
        for z := 0 to grid.Length2
          invariant total == |ScanCells(grid, x)| + |PlaneCells(grid, x, y)| + |RowCells(grid, x, y, z)|
        {
          if grid[x, y, z] {
            total := total + 1;
          }
        }
      }
    }
    WhereCount(grid);
  }

  /** One `ATOM` record of `structure1.pdb`: the atom serial `h`, the residue
      number `e` (both `i+1`) and the integer cell whose coordinates are
      scaled by `grid_spacing`. */
  datatype PdbAtom = PdbAtom(serial: int, resSeq: int, cell: Cell)

  /** `structure1.pdb` between `MODEL` and `ENDMDL`: the atom records and the
      serial of the `TER` record. */
  datatype PdbFile = PdbFile(atoms: seq<PdbAtom>, terSerial: int)

  /** `structure1.xyz`: the count on the first line and the `Ce` lines. */
  datatype XyzFile = XyzFile(count: int, atoms: seq<Cell>)

  /** The `structure1.pdb` writer: one record per occupied cell in scan order, numbered
      1..n, and a `TER` record numbered n+1. */
  method WritePdb(grid: array3<bool>) returns (f: PdbFile)
    ensures |f.atoms| == |Where(grid)| == |OccupiedSet(grid)|
    ensures forall i :: 0 <= i < |f.atoms| ==> f.atoms[i] == PdbAtom(i + 1, i + 1, Where(grid)[i])
    ensures f.terSerial == |f.atoms| + 1
  {
    var cells := OccupiedCells(grid);
    var numAtoms := SumGrid(grid);
    WhereCount(grid);
    var atoms: seq<PdbAtom> := [];
    for i := 0 to |cells|
      invariant |atoms| == i
      invariant forall k :: 0 <= k < i ==> atoms[k] == PdbAtom(k + 1, k + 1, cells[k])
    {
      atoms := atoms + [PdbAtom(i + 1, i + 1, cells[i])];
    }
    f := PdbFile(atoms, numAtoms + 1);
  }

  /** The `structure1.xyz` writer: the atom count, then one `Ce` line per occupied cell in
      scan order. */
  method WriteXyz(grid: array3<bool>) returns (f: XyzFile)
    ensures f.count == |f.atoms| == |OccupiedSet(grid)|
    ensures f.atoms == Where(grid)
  {
    var numAtoms := SumGrid(grid);
    var cells := OccupiedCells(grid);
    WhereCount(grid);
    var lines: seq<Cell> := [];
    for i := 0 to |cells|
      invariant lines == cells[..i]
    {
      lines := lines + [cells[i]];
    }
    assert cells[..|cells|] == cells;
    f := XyzFile(numAtoms, lines);
  }

  /** With only the seed occupied (no growth step run) both exports hold the
      single centre cell. */
  lemma SeedExport(grid: array3<bool>, n: int)
    requires n > 0 && IsCube(grid, n)
    requires forall c :: InGrid(n, c) ==> (Occupied(grid, c) <==> c == Center(n))
    ensures Where(grid) == [Center(n)]
  {
    WhereMembers(grid);
    WhereSorted(grid);
    DistinctCard(Where(grid));
    assert Occupied(grid, Center(n));
    assert (set c | c in Where(grid)) == {Center(n)};
    assert Where(grid)[0] in Where(grid);
  }
}
