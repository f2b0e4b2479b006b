# Cloth simulation core: a Dafny model

This project models the discrete scaffolding of a mass-spring cloth simulation:

- **Cloth topology** (`ClothTopology`, `cloth_topology.dfy`). The start-up code builds a row-major `ROW` by `COL`
  particle grid whose top row is pinned. It then emits the structural distance constraints,
  cell by cell: a horizontal link to the right neighbour and a vertical link to the neighbour
  below. Particles are modelled by their pinned flag. Constraints are modelled as endpoint
  indices into the particle vector plus the `active` flag.
- **Integration work partition** (`WorkPartition`, `work_partition.dfy`). Each frame, the
  particle vector `[0, n)` is split into contiguous per-thread ranges. The last thread takes
  the remainder and empty ranges are skipped. Each worker applies the per-particle update to
  its own range. Threads are run one after another in the model.
- **Relaxation schedule** (`Relaxation`, `relaxation.dfy`). Each frame, five sequential passes
  run over the constraint list. Each pass calls `satisfy` on every active constraint, in list
  order. `satisfy` is an abstract state transformer.
- **Spatial hash** (`SpatialHashing`, `spatial_hash.dfy`). A bucket map keyed by the 64-bit
  cell hash `x * 73856093 ^ y * 19349669`:
  - `update` clears the map and appends every particle to the bucket of its cell;
  - `getNearbyParticles` concatenates the existing buckets of the 3 by 3 block of cells around
    a query cell.

  Particles are given by their integer cell coordinates, and bucket entries are particle indices.
- `Arith` (`arith.dfy`) holds the few facts about multiplication and division that the other
  modules share.

Two details of the code are easy to miss:

- **Cell coordinates.** A position becomes a cell by truncating toward zero, not by flooring.
  The conversion is not modelled at all: queries and updates take cell coordinates.
- **Query results.** The query returns the concatenation of the buckets, not their union. A
  particle is returned once per neighbour cell whose hash equals its own, so duplicates can
  occur (`NearbyCount`).

## Model

| member | source | states |
|---|---|---|
| ClothTopology.BuildParticles | main.cpp:60-67 | the grid loops produce `rows * cols` flags in row-major order, flag `k` set exactly when `k < cols` |
| ClothTopology.PinnedIffTopRow | main.cpp:60-67 | there are `rows * cols` particles; the one at (row, col) has index `row * cols + col` below `rows * cols` and is pinned iff `row == 0` |
| ClothTopology.BuildConstraints | main.cpp:70-83 | the nested loops emit exactly `Links(rows, cols)`: for every cell in row-major order, its horizontal link unless in the last column, then its vertical link unless in the last row |
| ClothTopology.ConstraintCount | main.cpp:70-83 | a grid with rows and columns has `rows * (cols - 1) + (rows - 1) * cols` constraints; an empty grid has none |
| ClothTopology.DefaultClothSize | main.cpp:17-18 | the configured 20 by 30 cloth has 600 particles and 1150 constraints |
| ClothTopology.CellLinksStructural | main.cpp:72-80 | every link emitted for a cell is active, starts at that cell and is a structural edge |
| ClothTopology.LinksAreStructural | main.cpp:72-80 | a constraint is emitted iff it is active and is either `(k, k + 1)` with both ends in one row or `(k, k + cols)` inside the grid; its endpoints are distinct and below `rows * cols` |
| ClothTopology.StructuralListed | main.cpp:72-80 | every active structural edge of the grid is emitted |
| ClothTopology.LinksOrdered | main.cpp:70-82 | links are strictly increasing in (first endpoint, second endpoint): row-major cell order, and a cell's horizontal link before its vertical one, with no link emitted twice |
| WorkPartition.PartitionRanges | main.cpp:107-121 | the frame loop emits exactly the reference partition `Partition(n, threadCount)` |
| WorkPartition.RangeStep | main.cpp:109-114 | with a positive chunk size iteration `i` is inside the vector and emits worker `i`'s non-empty chunk; with chunk size 0 it starts at 0 and emits a range only as the last worker |
| WorkPartition.PartitionTiles | main.cpp:107-121 | with at least one thread there are at most `threadCount` ranges, none iff `n == 0`, each non-empty, the first starting at 0, each starting where the previous ends, the last ending at `n` |
| WorkPartition.PartitionDisjoint | main.cpp:107-121 | ranges are increasing and pairwise disjoint |
| WorkPartition.PartitionCovers | main.cpp:107-121 | with at least one thread, an index lies in some range iff it is in `[0, n)`, and then in exactly one |
| WorkPartition.FewParticlesOneRange | main.cpp:107-114 | with fewer particles than threads everything goes to the single range `[0, n)` |
| WorkPartition.ZeroThreadsIntegrateNothing | main.cpp:107-109 | with a thread count of 0 no range is emitted, so no particle is covered, although the chunk size is computed as if there were one thread |
| WorkPartition.IntendedPartitionCovers | main.cpp:107 | the partition with the thread count clamped to at least 1 covers every index in `[0, n)` exactly once, for every reported thread count |
| WorkPartition.UpdateParticleRange | main.cpp:36-46 | the per-particle update is applied to every particle with index in `[start, end)` and to no other |
| WorkPartition.IntegrateFrame | main.cpp:105-125 | once all workers are joined every particle has been updated exactly once |
| Relaxation.Relax | main.cpp:128-135 | the satisfied constraints are exactly `Schedule(cs)`, and the resulting state is `satisfy` applied along that schedule |
| Relaxation.ActiveIndicesExact | main.cpp:129-130 | one pass visits exactly the indices of active constraints, in strictly increasing list order |
| Relaxation.ScheduleCounts | main.cpp:128-135 | in one relaxation phase every active constraint is satisfied exactly 5 times and no other constraint at all |
| Relaxation.SchedulePasses | main.cpp:128-135 | the schedule is 5 consecutive copies of the in-order list of active constraints; pass `p` is block `p` |
| Relaxation.ScheduleVisitsActive | main.cpp:130-132 | every entry of the schedule names an active constraint |
| Relaxation.InactiveNeverTouched | main.cpp:130-132 | two constraint lists that agree on which constraints are active, and on every active one, yield the same schedule and the same final state |
| SpatialHashing.NegativeCoordinateWraps | spatial_hash.h:14-18 | a negative `int` coordinate converted to `size_t` is the two's complement of its magnitude, and its product with either prime is the negated product modulo 2^64 |
| SpatialHashing.HashBound | spatial_hash.h:14-18 | every hash is a `size_t` value below 2^64 |
| SpatialHashing.HashSamples | spatial_hash.h:14-18 | sample values: `*` binds tighter than `^`, (0, 0) hashes to 0 and a negative coordinate wraps around to a large unsigned value |
| SpatialHashing.HashBoundarySamples | spatial_hash.h:14-18 | boundary values against integer arithmetic: `(0, -1)` hashes to `2^64 - 19349669`, the most negative `int` to `2^64 - 2^31 * 73856093`, and the largest `int` does not wrap |
| SpatialHashing.NeighbourAt | spatial_hash.h:39-41 | query step `3 * (i + 1) + (j + 1)` looks up the hash of the cell at offset (i, j) |
| SpatialHashing.SpatialHash.constructor | spatial_hash.h:21 | a new spatial hash has an empty map |
| SpatialHashing.SpatialHash.Update | spatial_hash.h:23-31 | the new map is `Build` of the current cells' hashes, whatever the map held before |
| SpatialHashing.BuildBuckets | spatial_hash.h:23-31 | the map holds a bucket for a key exactly when some particle has that key, and that bucket is the reference bucket |
| SpatialHashing.BucketExact | spatial_hash.h:25-29 | a bucket holds exactly the particles with its key, in increasing (input) order |
| SpatialHashing.UpdatePlacesEachOnce | spatial_hash.h:25-29 | after an update each particle occurs exactly once in the bucket of its own cell's hash and in no other bucket, and every bucket is in input order |
| SpatialHashing.UpdateTotal | spatial_hash.h:23-31 | after an update the buckets together hold as many entries as there are particles |
| SpatialHashing.SpatialHash.GetNearbyParticles | spatial_hash.h:33-49 | the result is the concatenation, in `i`-then-`j` order, of the existing buckets of the nine neighbour hashes; the map is only read |
| SpatialHashing.GatherMatches | spatial_hash.h:39-46 | gathering from a freshly built map gives, for each queried key in turn, the particles with that key |
| SpatialHashing.GatherCount | spatial_hash.h:39-46 | a particle is gathered once per occurrence of its own key among the queried keys |
| SpatialHashing.NearbyCount | spatial_hash.h:33-49 | a query returns a particle as many times as its cell's hash occurs among the nine neighbour hashes, and returns nothing that is not a particle |
| SpatialHashing.NearbyExact | spatial_hash.h:33-49 | a particle is returned iff its cell hashes like one of the nine cells around the query cell |
| SpatialHashing.NoFalseNegatives | spatial_hash.h:35-46 | every particle whose cell is at most one cell away from the query cell on each axis is returned |

## Left out

- Floating-point physics is not modelled: gravity, wind (`calculate_wind`), the Verlet update,
  clamping to the window and `Constraint::satisfy`. The per-particle update is an abstract
  function `P -> P` and `satisfy` is an abstract function `(S, Constraint) -> S`. The
  particle and constraint classes (`particle.h`, `constraint.h`) are not part of this model.
- A constraint's rest length is not modelled. Its initial `active` flag is taken to be true,
  because the `Constraint` constructor is not part of this model.
- Pixel positions of the grid particles are not modelled: they are float values with no
  discrete contract.
- Pointers and `std::reference_wrapper` are modelled as indices into the particle vector.
  The constraints take addresses only after the particle vector is complete, so indices
  are faithful.
- Thread creation and `join` are not modelled. `IntegrateFrame` runs the workers one after
  another. This is equivalent because the ranges are disjoint and each update touches only
  its own particle.
- WorkPartition.IntegrateFrame: this member uses the corrected thread count (at least 1), not the
  count as written; see Findings.
- Relaxation.Relax: the constraint list is fixed during a relaxation phase. Whether `satisfy`
  itself can clear a constraint's `active` flag depends on `constraint.h`, which is not part of
  this model.
- The window, the event loop, rendering and `InputHandler` (which cuts links by clearing
  `active`) are not modelled. They are I/O.
- The float-to-cell conversion `static_cast<int>(pos / cellSize)` and the `cellSize` field are
  not modelled. Updates and queries take integer cell coordinates.
- SpatialHashing.HashSamples: the hash of a symbolic cell is stated as bit-vector arithmetic
  (`Word`, `NegativeCoordinateWraps`). Its reading as an integer modulo 2^64 rests on the
  definition and on the sample and boundary values only. A symbolic `bv64`-to-integer
  conversion is beyond what the solver proves within the resource limit.
- SpatialHashing.SpatialHash.GetNearbyParticles: requires the query cell not to lie on the
  `int` boundary. There, `x + i` would overflow, which is undefined behaviour in C++.
- The hashing and bucket order of `std::unordered_map` are not modelled. The grid is a Dafny map.
- Sizes and `i * particlesPerThread` are unbounded naturals. In the source they are `size_t`
  and never exceed `n`, so there is no wrap-around.

## Findings

| source | as written | input that shows it | evidently intended | confidence | as-written member | corrected member |
|---|---|---|---|---|---|---|
| main.cpp:27, main.cpp:107-109 | the chunk size divides by `std::max(1, THREAD_COUNT)`, but the loop runs only while `i < THREAD_COUNT`, and `hardware_concurrency()` may return 0 | `THREAD_COUNT == 0`, `n == 600`: no range is emitted and no particle is ever integrated | at least one worker, as the clamped divisor assumes, so every particle is integrated each frame | medium, not executed | WorkPartition.ZeroThreadsIntegrateNothing | WorkPartition.IntendedPartitionCovers |
