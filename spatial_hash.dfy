/** The broad-phase spatial hash: a map from a cell hash to the bucket of
    particles whose cell has that hash. It is rebuilt from the particle list
    every frame and answers "which particles are in the 3 by 3 block of cells
    around this one". Particles are referred to by their index in the particle
    vector and given by their integer cell coordinates. */
module SpatialHashing {

  /** A C++ `int`: 32-bit two's complement. */
  newtype Int32 = v: int | -0x8000_0000 <= v < 0x8000_0000

  /** A key of the map: a `size_t` hash value, read as a natural number below
      2^64 (see `HashBound`). */
  type Key = nat

  /** Integer cell coordinates of a particle or of a query point. */
  datatype Cell = Cell(x: Int32, y: Int32)

  /** `v` converted to `size_t`: sign extension to 64 bits, that is, the value
      modulo 2^64. */
  function Word(v: Int32): bv64
  {
    if v >= 0 then (v as int) as bv64 else 0 - ((-(v as int)) as bv64)
  }

  /** The cell hash `x * p1 ^ y * p2` in `size_t` arithmetic: each coordinate is
      converted to a 64-bit word and multiplied modulo 2^64, then the two
      products are combined by exclusive or (see `HashFormula`). */
  function Hash(x: Int32, y: Int32): Key
  {
    HashAfter(x, y, 3)
  }

  /** Proof device only, not part of the program: the hash reached through
      `steps` trivial recursive steps. The verifier unfolds a recursive function
      only a bounded number of times unless its arguments are constants, so
      proofs about symbolic cells treat the hash as an opaque key while sample
      values are still computed. */
  function HashAfter(x: Int32, y: Int32, steps: nat): Key
  {
    if steps == 0 then ((Word(x) * 73856093) ^ (Word(y) * 19349669)) as nat
    else HashAfter(x, y, steps - 1)
  }

  /** The hash is the multiply-and-xor formula. */
  lemma HashFormula(x: Int32, y: Int32)
    ensures Hash(x, y) == ((Word(x) * 73856093) ^ (Word(y) * 19349669)) as nat
  {
    assert HashAfter(x, y, 3) == HashAfter(x, y, 2) == HashAfter(x, y, 1) == HashAfter(x, y, 0);
  }

  /** Every hash is a `size_t` value. */
  lemma HashBound(x: Int32, y: Int32)
    ensures Hash(x, y) < 0x1_0000_0000_0000_0000
  {
    HashFormula(x, y);
  }

  function CellHash(c: Cell): Key
  {
    Hash(c.x, c.y)
  }

  /** Sample values: multiplication binds tighter than exclusive or, the
      origin hashes to 0, and a negative coordinate wraps around to a large
      unsigned value. */
  lemma HashSamples()
    ensures Hash(1, 1) == 88192248
    ensures Hash(0, 0) == 0
    ensures Hash(-1, 0) == 0xffff_ffff_fb99_0ba3
  {
  }

  /** Boundary values against integer arithmetic: a negative coordinate
      contributes 2^64 minus its product, down to the most negative `int`, and
      the largest `int` does not wrap. */
  lemma HashBoundarySamples()
    ensures Hash(0, -1) == 0x1_0000_0000_0000_0000 - 19349669
    ensures Hash(-0x8000_0000, 0) == 0x1_0000_0000_0000_0000 - 0x8000_0000 * 73856093
    ensures Hash(0x7fff_ffff, 0) == 0x7fff_ffff * 73856093
  {
  }

  /** Converting a negative `int` to `size_t` gives the two's complement of its
      magnitude, and so does multiplying it by either prime: a negative
      coordinate contributes the negated product modulo 2^64. */
  lemma NegativeCoordinateWraps(v: Int32)
    requires -0x8000_0000 < v < 0
    ensures Word(v) == 0 - Word(-v)
    ensures Word(v) * 73856093 == 0 - Word(-v) * 73856093
    ensures Word(v) * 19349669 == 0 - Word(-v) * 19349669
  {
  }

  /** The hashes of the particles' cells, particle by particle. */
  function CellHashes(cells: seq<Cell>): (hs: seq<Key>)
    ensures |hs| == |cells|
    ensures forall p :: 0 <= p < |cells| ==> hs[p] == CellHash(cells[p])
  {
    seq(|cells|, i requires 0 <= i < |cells| => CellHash(cells[i]))
  }

  /** A query cell whose neighbours are all representable as `int` (the query
      computes `x + i` and `y + j` in `int` arithmetic). */
  predicate Interior(x: Int32, y: Int32)
  {
    -0x8000_0000 < x < 0x7fff_ffff && -0x8000_0000 < y < 0x7fff_ffff
  }

  /** The hashes of the nine cells of the 3 by 3 block around (x, y), in query
      order: the x offset runs over -1, 0, 1 and for each the y offset does. */
  function NeighbourHashes(x: Int32, y: Int32): (hs: seq<Key>)
    requires Interior(x, y)
    ensures |hs| == 9
  {
    seq(9, k requires 0 <= k < 9 => Hash(x + (k / 3 - 1) as Int32, y + (k % 3 - 1) as Int32))
  }

  /** Entry `3 * (i + 1) + (j + 1)` of the neighbour hashes is the hash of the
      cell at offset (i, j). */
  lemma NeighbourAt(x: Int32, y: Int32, i: Int32, j: Int32)
    requires Interior(x, y) && -1 <= i <= 1 && -1 <= j <= 1
    ensures NeighbourHashes(x, y)[3 * (i as int + 1) + (j as int + 1)] == Hash(x + i, y + j)
  {
    var k := 3 * (i as int + 1) + (j as int + 1);
    assert k / 3 - 1 == i as int && k % 3 - 1 == j as int;
  }

  // ---------------------------------------------------------------------------
  // The bucket map as a value; `keys[p]` is the hash of particle `p`'s cell

  /** The bucket stored under `h`, or the empty bucket when there is none;
      looking up never adds a bucket. */
  function Lookup(grid: map<Key, seq<nat>>, h: Key): seq<nat>
  {
    if h in grid then grid[h] else []
  }

  /** The map after `grid[h].push_back(p)`: the bucket for `h`, created empty
      if missing, gets `p` appended. */
  function Insert(grid: map<Key, seq<nat>>, h: Key, p: nat): map<Key, seq<nat>>
  {
    grid[h := Lookup(grid, h) + [p]]
  }

  /** The map obtained by inserting every particle, in order, into the bucket
      of its key, starting from an empty map. */
  function Build(keys: seq<Key>): map<Key, seq<nat>>
  {
    if keys == [] then map[]
    else Insert(Build(keys[..|keys| - 1]), keys[|keys| - 1], |keys| - 1)
  }

  /** Reference definition of a bucket: the particles whose key is `h`, in
      increasing order. */
  function Bucket(keys: seq<Key>, h: Key): seq<nat>
  {
    if keys == [] then []
    else Bucket(keys[..|keys| - 1], h) + (if keys[|keys| - 1] == h then [|keys| - 1] else [])
  }

  /** The concatenation of the existing buckets for the keys `hs`, in order. */
  function Gather(grid: map<Key, seq<nat>>, hs: seq<Key>): seq<nat>
  {
    if hs == [] then []
    else Gather(grid, hs[..|hs| - 1]) + Lookup(grid, hs[|hs| - 1])
  }

  /** One more key extends the map by one insertion. */
  lemma BuildStep(keys: seq<Key>, i: nat)
    requires i < |keys|
    ensures Build(keys[..i + 1]) == Insert(Build(keys[..i]), keys[i], i)
  {
    assert keys[..i + 1][..i] == keys[..i];
  }

  /** One more queried key appends its bucket. */
  lemma GatherStep(grid: map<Key, seq<nat>>, hs: seq<Key>, k: nat)
    requires k < |hs|
    ensures Gather(grid, hs[..k + 1]) == Gather(grid, hs[..k]) + Lookup(grid, hs[k])
  {
    assert hs[..k + 1][..k] == hs[..k];
  }

  /** Querying the cell at offset (i, j), the `k`-th of the block, appends its
      bucket, if there is one, to what the previous offsets gathered. */
  lemma QueryStep(grid: map<Key, seq<nat>>, x: Int32, y: Int32, i: Int32, j: Int32, k: nat)
    requires Interior(x, y) && -1 <= i <= 1 && -1 <= j <= 1
    requires k == 3 * (i as int + 1) + (j as int + 1)
    ensures var h, hs := Hash(x + i, y + j), NeighbourHashes(x, y);
      Gather(grid, hs[..k + 1]) == if h in grid then Gather(grid, hs[..k]) + grid[h] else Gather(grid, hs[..k])
  {
    NeighbourAt(x, y, i, j);
    GatherStep(grid, NeighbourHashes(x, y), k);
  }

  // ---------------------------------------------------------------------------
  // The spatial hash object

  class SpatialHash {
    var grid: map<Key, seq<nat>>

    constructor ()
      ensures grid == map[]
    {
      grid := map[];
    }

    /** Rebuilds the map from the cells of the current particles; whatever the
        map held before is discarded. */
    method Update(cells: seq<Cell>)
      modifies this
      ensures grid == Build(CellHashes(cells))
    {
      ghost var keys := CellHashes(cells);
      grid := map[];
      var i: nat := 0;
      while i < |cells|
        invariant i <= |cells|
        invariant grid == Build(keys[..i])
      {
        var h := CellHash(cells[i]);
        var bucket: seq<nat> := if h in grid then grid[h] else [];
        BuildStep(keys, i);
        assert keys[i] == h;
        assert Insert(grid, h, i) == grid[h := bucket + [i]];
        grid := grid[h := bucket + [i]];
        i := i + 1;
      }
      assert keys[..|cells|] == keys;
    }

    /** Collects the buckets of the nine cells around (x, y); buckets are only
        looked up, so the map is left as it is. */
    method GetNearbyParticles(x: Int32, y: Int32) returns (nearby: seq<nat>)
      requires Interior(x, y)
      ensures nearby == Gather(grid, NeighbourHashes(x, y))
    {
      ghost var k: nat := 0;
      nearby := [];
      var i: Int32 := -1;
      while i <= 1
        invariant -1 <= i <= 2 && k == 3 * (i as int + 1)
        invariant nearby == Gather(grid, NeighbourHashes(x, y)[..k])
      {
        var j: Int32 := -1;
        while j <= 1
          invariant -1 <= j <= 2 && k == 3 * (i as int + 1) + (j as int + 1)
          invariant nearby == Gather(grid, NeighbourHashes(x, y)[..k])
        {
          var h := Hash(x + i, y + j);
          QueryStep(grid, x, y, i, j, k);
          if h in grid {
            nearby := nearby + grid[h];
          }
          j := j + 1;
          k := k + 1;
        }
        i := i + 1;
      }
      assert NeighbourHashes(x, y)[..9] == NeighbourHashes(x, y);
    }
  }

  // ---------------------------------------------------------------------------
  // What an update leaves in the map

  /** After an update the map holds a bucket for a key exactly when some
      particle has that key, and the bucket is the reference bucket. */
  lemma {:induction false} BuildBuckets(keys: seq<Key>, h: Key)
    ensures Lookup(Build(keys), h) == Bucket(keys, h)
    ensures h in Build(keys) <==> Bucket(keys, h) != []
  {
    if keys != [] {
      BuildBuckets(keys[..|keys| - 1], h);
    }
  }

  /** A bucket lists the particles with key `h` and no other, in input order. */
  lemma {:induction false} BucketExact(keys: seq<Key>, h: Key)
    ensures forall p: int :: p in Bucket(keys, h) <==> 0 <= p < |keys| && keys[p] == h
    ensures forall a, b :: 0 <= a < b < |Bucket(keys, h)| ==> Bucket(keys, h)[a] < Bucket(keys, h)[b]
  {
    if keys != [] {
      var init := keys[..|keys| - 1];
      BucketExact(init, h);
      assert forall i :: 0 <= i < |init| ==> init[i] == keys[i];
      var b := Bucket(keys, h);
      forall x, y | 0 <= x < y < |b| ensures b[x] < b[y] {
        if y >= |Bucket(init, h)| {
          assert b[x] in Bucket(init, h);
        }
      }
    }
  }

  lemma {:induction false} BucketCount(keys: seq<Key>, h: Key, p: nat)
    ensures multiset(Bucket(keys, h))[p] == if p < |keys| && keys[p] == h then 1 else 0
  {
    if keys != [] {
      var init := keys[..|keys| - 1];
      var tail: seq<nat> := if keys[|keys| - 1] == h then [|keys| - 1] else [];
      BucketCount(init, h, p);
      assert Bucket(keys, h) == Bucket(init, h) + tail;
      CountConcat(Bucket(init, h), tail, p);
      assert multiset(tail)[p] == if p == |keys| - 1 && keys[p] == h then 1 else 0;
      if p < |init| {
        assert init[p] == keys[p];
      }
    }
  }

  /** After an update every particle is in the bucket of its own cell's hash,
      exactly once, and in no other bucket; buckets hold particles in input
      order and nothing but particles. */
  lemma UpdatePlacesEachOnce(cells: seq<Cell>, h: Key, p: nat)
    ensures multiset(Lookup(Build(CellHashes(cells)), h))[p]
            == if p < |cells| && CellHash(cells[p]) == h then 1 else 0
    ensures forall a, b :: 0 <= a < b < |Lookup(Build(CellHashes(cells)), h)| ==>
              Lookup(Build(CellHashes(cells)), h)[a] < Lookup(Build(CellHashes(cells)), h)[b]
  {
    var keys := CellHashes(cells);
    BuildBuckets(keys, h);
    BucketCount(keys, h, p);
    BucketExact(keys, h);
  }

  /** The number of entries over all buckets. */
  ghost function TotalEntries(grid: map<Key, seq<nat>>): nat
    decreases |grid|
  {
    if grid.Keys == {} then 0
    else
      var h :| h in grid.Keys;
      assert |grid - {h}| < |grid| by { assert (grid - {h}).Keys == grid.Keys - {h}; }
      |grid[h]| + TotalEntries(grid - {h})
  }

  lemma TotalRemove(grid: map<Key, seq<nat>>, h: Key)
    requires h in grid
    ensures TotalEntries(grid) == |grid[h]| + TotalEntries(grid - {h})
    decreases |grid|
  {
    var h' :| h' in grid.Keys && TotalEntries(grid) == |grid[h']| + TotalEntries(grid - {h'});
    if h' != h {
      assert (grid - {h'}).Keys == grid.Keys - {h'};
      assert (grid - {h}).Keys == grid.Keys - {h};
      TotalRemove(grid - {h'}, h);
      TotalRemove(grid - {h}, h');
      assert grid - {h'} - {h} == grid - {h} - {h'};
    }
  }

  lemma TotalInsert(grid: map<Key, seq<nat>>, h: Key, p: nat)
    ensures TotalEntries(Insert(grid, h, p)) == TotalEntries(grid) + 1
  {
    var g := Insert(grid, h, p);
    TotalRemove(g, h);
    assert g - {h} == grid - {h};
    if h in grid {
      TotalRemove(grid, h);
    } else {
      assert grid - {h} == grid;
    }
  }

  lemma {:induction false} BuildTotal(keys: seq<Key>)
    ensures TotalEntries(Build(keys)) == |keys|
  {
    if keys != [] {
      BuildTotal(keys[..|keys| - 1]);
      TotalInsert(Build(keys[..|keys| - 1]), keys[|keys| - 1], |keys| - 1);
    }
  }

  /** After an update the buckets hold as many entries as there are particles. */
  lemma UpdateTotal(cells: seq<Cell>)
    ensures TotalEntries(Build(CellHashes(cells))) == |cells|
  {
    BuildTotal(CellHashes(cells));
  }

  // ---------------------------------------------------------------------------
  // What a neighbour query returns

  /** Each key contributes its bucket: a particle is gathered once for every
      occurrence of its own key among the queried keys, and only then. */
  lemma GatherCount(keys: seq<Key>, hs: seq<Key>, p: nat)
    requires p < |keys|
    ensures multiset(Gather(Build(keys), hs))[p] == multiset(hs)[keys[p]]
  {
    GatherMatches(keys, hs);
    MatchesCount(keys, hs, p);
  }

  /** Reference definition of a query result: for each queried key in turn,
      the particles with that key. */
  function Matches(keys: seq<Key>, hs: seq<Key>): seq<nat>
  {
    if hs == [] then []
    else Matches(keys, hs[..|hs| - 1]) + Bucket(keys, hs[|hs| - 1])
  }

  /** Gathering from the map built from `keys` yields the reference result. */
  lemma {:induction false} GatherMatches(keys: seq<Key>, hs: seq<Key>)
    ensures Gather(Build(keys), hs) == Matches(keys, hs)
  {
    if hs != [] {
      GatherMatches(keys, hs[..|hs| - 1]);
      BuildBuckets(keys, hs[|hs| - 1]);
    }
  }

  lemma {:induction false} MatchesCount(keys: seq<Key>, hs: seq<Key>, p: nat)
    requires p < |keys|
    ensures multiset(Matches(keys, hs))[p] == multiset(hs)[keys[p]]
  {
    if hs != [] {
      var init, last := hs[..|hs| - 1], hs[|hs| - 1];
      MatchesCount(keys, init, p);
      BucketCount(keys, last, p);
      CountConcat(Matches(keys, init), Bucket(keys, last), p);
      CountSnoc(hs, keys[p]);
    }
  }

  /** Occurrences in a sequence: those before the last element, plus the last. */
  lemma CountSnoc(s: seq<nat>, x: nat)
    requires s != []
    ensures multiset(s)[x] == multiset(s[..|s| - 1])[x] + if s[|s| - 1] == x then 1 else 0
  {
    assert s == s[..|s| - 1] + [s[|s| - 1]];
  }

  /** Occurrences in a concatenation add up. */
  lemma CountConcat(a: seq<nat>, b: seq<nat>, x: nat)
    ensures multiset(a + b)[x] == multiset(a)[x] + multiset(b)[x]
  {
  }

  lemma {:induction false} GatherOnlyParticles(keys: seq<Key>, hs: seq<Key>, e: nat)
    requires e in Gather(Build(keys), hs)
    ensures e < |keys|
  {
    var init, last := hs[..|hs| - 1], hs[|hs| - 1];
    if e in Gather(Build(keys), init) {
      GatherOnlyParticles(keys, init, e);
    } else {
      BuildBuckets(keys, last);
      BucketExact(keys, last);
    }
  }

  /** A query around (x, y) returns particle `p` exactly as many times as the
      hash of its cell occurs among the nine neighbour hashes: at least once
      when its cell is in the block, more than once only if neighbour cells
      collide, and it returns nothing that is not a particle. */
  lemma NearbyCount(cells: seq<Cell>, x: Int32, y: Int32, p: nat)
    requires Interior(x, y)
    ensures var nearby := Gather(Build(CellHashes(cells)), NeighbourHashes(x, y));
      multiset(nearby)[p]
      == if p < |cells| then multiset(NeighbourHashes(x, y))[CellHash(cells[p])] else 0
  {
    var keys, hs := CellHashes(cells), NeighbourHashes(x, y);
    if p < |cells| {
      GatherCount(keys, hs, p);
    } else if p in Gather(Build(keys), hs) {
      GatherOnlyParticles(keys, hs, p);
    }
  }

  /** A query returns exactly the particles whose cell hashes like one of the
      nine cells around the query cell. */
  lemma NearbyExact(cells: seq<Cell>, x: Int32, y: Int32, p: nat)
    requires Interior(x, y)
    ensures p in Gather(Build(CellHashes(cells)), NeighbourHashes(x, y))
            <==> p < |cells| && CellHash(cells[p]) in NeighbourHashes(x, y)
  {
    NearbyCount(cells, x, y, p);
  }

  /** No false negatives: after an update, a query around (x, y) returns every
      particle whose cell is at most one cell away on each axis. */
  lemma NoFalseNegatives(cells: seq<Cell>, x: Int32, y: Int32, p: nat)
    requires Interior(x, y) && p < |cells|
    requires -1 <= cells[p].x as int - x as int <= 1 && -1 <= cells[p].y as int - y as int <= 1
    ensures p in Gather(Build(CellHashes(cells)), NeighbourHashes(x, y))
  {
    var i, j := cells[p].x - x, cells[p].y - y;
    NeighbourAt(x, y, i, j);
    assert CellHash(cells[p]) in NeighbourHashes(x, y);
    NearbyExact(cells, x, y, p);
  }
}
