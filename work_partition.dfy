/** The parallel integration phase of a frame: the particle vector is split into
    contiguous index ranges, one per worker, and each worker applies the
    per-particle update to its own range. Threads are not modelled; the workers
    are run one after another, which is sound because their ranges are disjoint
    and the update of a particle reads and writes that particle only. */
module WorkPartition {

  import opened Arith

  /** The half-open index range [start, end). */
  datatype Range = Range(start: nat, end: nat)

  predicate InRange(r: Range, p: int)
  {
    r.start <= p < r.end
  }

  function Max(a: nat, b: nat): nat
  {
    if a < b then b else a
  }

  /** Particles per worker; the divisor is clamped to at least 1. */
  function ChunkSize(n: nat, threadCount: nat): nat
  {
    n / Max(1, threadCount)
  }

  /** The range of worker `i` when every worker gets at least one particle:
      `ChunkSize` particles each, the last worker also taking the remainder. */
  function Chunk(n: nat, threadCount: nat, i: nat): Range
  {
    var per := ChunkSize(n, threadCount);
    Range(i * per, if i + 1 == threadCount then n else (i + 1) * per)
  }

  /** Reference definition of the ranges handed to workers: none without
      workers or particles, a single range when there are fewer particles than
      workers, and otherwise one chunk per worker. */
  function Partition(n: nat, threadCount: nat): seq<Range>
  {
    if threadCount == 0 || n == 0 then []
    else if ChunkSize(n, threadCount) == 0 then [Range(0, n)]
    else seq(threadCount, i requires 0 <= i => Chunk(n, threadCount, i))
  }

  /** Worker `i` of `threadCount` starts and ends inside the particle vector. */
  lemma ChunkInside(n: nat, threadCount: nat, i: nat)
    requires i < threadCount
    ensures (i + 1) * ChunkSize(n, threadCount) <= n
  {
    var per := ChunkSize(n, threadCount);
    assert n == threadCount * per + n % threadCount;
    MulMono(i + 1, threadCount, per);
  }

  /** Computes the worker ranges the way the frame loop does: worker `i` gets
      [i * per, (i + 1) * per), the last one up to `n`, and empty ranges are skipped. */
  method PartitionRanges(n: nat, threadCount: nat) returns (ranges: seq<Range>)
    ensures ranges == Partition(n, threadCount)
  {
    var per := n / Max(1, threadCount);
    ranges := [];
    var i: nat := 0;
    while i < threadCount && i * per < n
      invariant i <= threadCount
      invariant per == ChunkSize(n, threadCount)
      invariant 0 < per ==> ranges == seq(i, k requires 0 <= k => Chunk(n, threadCount, k))
      invariant per == 0 ==> ranges == if i == threadCount && 0 < n then [Range(0, n)] else []
    {
      var start := i * per;
      var end := if i == threadCount - 1 then n else (i + 1) * per;
      RangeStep(n, threadCount, i);
      if start < end {
        ranges := ranges + [Range(start, end)];
      }
      i := i + 1;
    }
    if i < threadCount {
      RangeStep(n, threadCount, i);
    }
  }

  /** What iteration `i` of the frame loop sees: with a positive chunk size it
      is still inside the vector and emits worker `i`'s chunk; with a zero chunk
      size it starts at 0 and emits a range only as the last worker. */
  lemma RangeStep(n: nat, threadCount: nat, i: nat)
    requires i < threadCount
    ensures var per := ChunkSize(n, threadCount);
      var start := i * per;
      var end := if i == threadCount - 1 then n else (i + 1) * per;
      && (0 < per ==> start < n && start < end && Range(start, end) == Chunk(n, threadCount, i))
      && (per == 0 ==> start == 0 && (start < end <==> i == threadCount - 1 && 0 < n)
                       && (i == threadCount - 1 ==> end == n))
  {
    var per := ChunkSize(n, threadCount);
    ChunkInside(n, threadCount, i);
    MulSucc(i, per);
  }

  /** With at least one worker the ranges tile [0, n): each is non-empty, the
      first starts at 0, each starts where the previous one ends, the last ends
      at `n`, and there are at most `threadCount` of them. */
  lemma PartitionTiles(n: nat, threadCount: nat)
    requires 1 <= threadCount
    ensures var rs := Partition(n, threadCount);
      && |rs| <= threadCount
      && (rs == [] <==> n == 0)
      && (0 < n ==> rs[0].start == 0 && rs[|rs| - 1].end == n)
      && (forall i :: 0 <= i < |rs| ==> rs[i].start < rs[i].end)
      && (forall i :: 0 < i < |rs| ==> rs[i - 1].end == rs[i].start)
  {
    var rs := Partition(n, threadCount);
    var per := ChunkSize(n, threadCount);
    if 0 < n && 0 < per {
      forall i | 0 <= i < |rs| ensures rs[i].start < rs[i].end {
        ChunkInside(n, threadCount, i);
        MulSucc(i, per);
      }
    }
  }

  /** Ranges are increasing and pairwise disjoint. */
  lemma PartitionDisjoint(n: nat, threadCount: nat)
    ensures var rs := Partition(n, threadCount);
      forall i, j :: 0 <= i < j < |rs| ==> rs[i].end <= rs[j].start
  {
    var rs := Partition(n, threadCount);
    var per := ChunkSize(n, threadCount);
    forall i, j | 0 <= i < j < |rs| ensures rs[i].end <= rs[j].start {
      MulMono(i + 1, j, per);
    }
  }

  /** A particle index below `n` lies in the range of worker `p / per`, or of
      the last worker when that quotient is past the last one. */
  lemma SomeRangeHolds(n: nat, threadCount: nat, p: nat)
    requires 1 <= threadCount && p < n
    ensures var rs := Partition(n, threadCount);
      exists i :: 0 <= i < |rs| && InRange(rs[i], p)
  {
    var rs := Partition(n, threadCount);
    var per := ChunkSize(n, threadCount);
    if per == 0 {
      assert InRange(rs[0], p);
    } else {
      var q := p / per;
      assert p == q * per + p % per;
      var owner := if q < threadCount then q else threadCount - 1;
      MulMono(owner, q, per);
      MulSucc(q, per);
      assert InRange(rs[owner], p);
    }
  }

  /** Every range ends at or before `n`. */
  lemma RangesInside(n: nat, threadCount: nat, i: nat)
    requires i < |Partition(n, threadCount)|
    ensures Partition(n, threadCount)[i].end <= n
  {
    if 0 < ChunkSize(n, threadCount) {
      ChunkInside(n, threadCount, i);
    }
  }

  /** With at least one worker every particle index below `n`, and no other,
      lies in a range, and in exactly one. */
  lemma PartitionCovers(n: nat, threadCount: nat, p: int)
    requires 1 <= threadCount
    ensures var rs := Partition(n, threadCount);
      (0 <= p < n <==> exists i :: 0 <= i < |rs| && InRange(rs[i], p))
    ensures var rs := Partition(n, threadCount);
      forall i, j :: 0 <= i < |rs| && 0 <= j < |rs| && InRange(rs[i], p) && InRange(rs[j], p) ==> i == j
  {
    var rs := Partition(n, threadCount);
    if 0 <= p < n {
      SomeRangeHolds(n, threadCount, p);
    }
    forall i | 0 <= i < |rs| && InRange(rs[i], p) ensures p < n {
      RangesInside(n, threadCount, i);
    }
    PartitionDisjoint(n, threadCount);
  }

  /** With fewer particles than workers all particles go to a single range. */
  lemma FewParticlesOneRange(n: nat, threadCount: nat)
    requires 0 < n < threadCount
    ensures Partition(n, threadCount) == [Range(0, n)]
  {
  }

  /** As written, a thread count of zero (the hardware concurrency may be
      reported as 0) yields no range at all, so no particle is integrated,
      although the chunk size is computed as if there were one worker. */
  lemma ZeroThreadsIntegrateNothing(n: nat)
    requires 0 < n
    ensures Partition(n, 0) == []
    ensures ChunkSize(n, 0) == n
    ensures !exists i :: 0 <= i < |Partition(n, 0)| && InRange(Partition(n, 0)[i], 0)
  {
  }

  /** The evidently intended partition: at least one worker, as the clamped
      chunk size already assumes. */
  function IntendedPartition(n: nat, threadCount: nat): seq<Range>
  {
    Partition(n, Max(1, threadCount))
  }

  /** Whatever the reported thread count, the intended partition gives every
      particle index below `n`, and no other, to exactly one range. */
  lemma IntendedPartitionCovers(n: nat, threadCount: nat, p: int)
    ensures var rs := IntendedPartition(n, threadCount);
      (0 <= p < n <==> exists i :: 0 <= i < |rs| && InRange(rs[i], p))
    ensures var rs := IntendedPartition(n, threadCount);
      forall i, j :: 0 <= i < |rs| && 0 <= j < |rs| && InRange(rs[i], p) && InRange(rs[j], p) ==> i == j
  {
    assert IntendedPartition(n, threadCount) == Partition(n, Max(1, threadCount));
    PartitionCovers(n, Max(1, threadCount), p);
  }

  // ---------------------------------------------------------------------------
  // Integration over the ranges

  /** One worker's job: apply the per-particle update `step` (forces, Verlet
      step and clamping to the window) to every particle with index in [start, end). */
  method UpdateParticleRange<P>(particles: array<P>, start: nat, end: nat, step: P -> P)
    requires end <= particles.Length
    modifies particles
    ensures forall k :: 0 <= k < particles.Length ==>
      particles[k] == if start <= k < end then step(old(particles[k])) else old(particles[k])
  {
    var i := start;
    while i < end
      invariant i == start || start <= i <= end
      invariant forall k :: 0 <= k < particles.Length ==>
        particles[k] == if start <= k < i then step(old(particles[k])) else old(particles[k])
    {
      particles[i] := step(particles[i]);
      i := i + 1;
    }
  }

  /** The integration phase of a frame with the intended partition: every
      worker's range is processed, after which (the join) every particle has
      been updated exactly once. */
  method IntegrateFrame<P>(particles: array<P>, threadCount: nat, step: P -> P)
    modifies particles
    ensures forall k :: 0 <= k < particles.Length ==> particles[k] == step(old(particles[k]))
  {
    var ranges := PartitionRanges(particles.Length, Max(1, threadCount));
    ghost var n, workers := particles.Length, Max(1, threadCount);
    var t := 0;
    while t < |ranges|
      invariant t <= |ranges|
      invariant forall k :: 0 <= k < particles.Length ==>
        particles[k] == if k < Done(ranges, t) then step(old(particles[k])) else old(particles[k])
    {
      TileStep(n, workers, t);
      UpdateParticleRange(particles, ranges[t].start, ranges[t].end, step);
      t := t + 1;
    }
    TilesEnd(n, workers);
  }

  /** Range `t` starts where the first `t` ranges end. */
  lemma TileStep(n: nat, threadCount: nat, t: nat)
    requires 1 <= threadCount && t < |Partition(n, threadCount)|
    ensures Partition(n, threadCount)[t].start == Done(Partition(n, threadCount), t)
    ensures Partition(n, threadCount)[t].end <= n
  {
    PartitionTiles(n, threadCount);
    RangesInside(n, threadCount, t);
  }

  /** All ranges together reach `n`. */
  lemma TilesEnd(n: nat, threadCount: nat)
    requires 1 <= threadCount
    ensures Done(Partition(n, threadCount), |Partition(n, threadCount)|) == n
  {
    PartitionTiles(n, threadCount);
  }

  /** How far the first `t` ranges reach. */
  function Done(ranges: seq<Range>, t: nat): nat
    requires t <= |ranges|
  {
    if t == 0 then 0 else ranges[t - 1].end
  }
}
