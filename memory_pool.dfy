/**
 * The free-list memory pool: a stack of free cells (`free`, the vector the
 * pool pops from and pushes onto) and the list of chunks the pool owns
 * (`chunks`, the start of each chunk). Cells are modelled as natural numbers:
 * chunk `k` owns the cells `k * increment` up to `(k + 1) * increment`, so a
 * new chunk never overlaps an older one. `outstanding` is the ghost set of
 * cells handed out by Allocate and not yet given back by Free.
 */
module MemoryPool {

  /** No cell occurs twice. */
  ghost predicate Distinct(s: seq<nat>)
  {
    forall i, j :: 0 <= i < j < |s| ==> s[i] != s[j]
  }

  /** The cells of a chunk of `n` cells starting at cell `start`, in address order. */
  function ChunkCells(start: nat, n: nat): seq<nat>
  {
    seq(n, i requires 0 <= i < n => start + i)
  }

  /** The set of elements of a sequence. */
  ghost function Elements(s: seq<nat>): set<nat>
  {
    set c | c in s
  }

  /** A sequence without repetitions has as many distinct elements as it is long. */
  lemma {:induction false} DistinctElements(s: seq<nat>)
    requires Distinct(s)
    ensures |Elements(s)| == |s|
  {
    if s != [] {
      DistinctElements(s[1..]);
      assert Elements(s) == {s[0]} + Elements(s[1..]);
      assert s[0] !in Elements(s[1..]);
    }
  }

  /** The cells of a chunk are distinct. */
  lemma ChunkCellsDistinct(start: nat, n: nat)
    ensures Distinct(ChunkCells(start, n))
  {
  }

  /** A cell below `m * size` lies in one of the first `m` chunks of `size` cells. */
  lemma {:induction false} InSomeChunk(c: nat, size: nat, m: nat)
    requires c < m * size
    ensures exists k :: 0 <= k < m && k * size <= c < k * size + size
  {
    assert m * size == (m - 1) * size + size;
    if c < (m - 1) * size {
      InSomeChunk(c, size, m - 1);
      var k :| 0 <= k < m - 1 && k * size <= c < k * size + size;
      assert 0 <= k < m;
    } else {
      assert (m - 1) * size <= c < (m - 1) * size + size;
    }
  }

  /** With a positive chunk size, chunk `k` starting at `k * size` makes the chunk starts distinct. */
  lemma ChunkStartsDistinct(starts: seq<nat>, size: int)
    requires size > 0
    requires forall k :: 0 <= k < |starts| ==> starts[k] == k * size
    ensures Distinct(starts)
  {
    forall i, j | 0 <= i < j < |starts|
      ensures starts[i] != starts[j]
    {
      assert j * size == i * size + (j - i) * size;
      assert (j - i) * size == size + (j - i - 1) * size;
      assert (j - i - 1) * size >= 0;
    }
  }

  /**
   * When the free cells (without repetitions) and the outstanding cells are
   * disjoint and together make up the cells below `n`, they number `n`.
   */
  lemma Conservation(free: seq<nat>, outstanding: set<nat>, n: nat)
    requires Distinct(free)
    requires forall c :: c in free ==> c < n
    requires forall c :: c in outstanding ==> c < n && c !in free
    requires forall c: nat :: c < n ==> c in free || c in outstanding
    ensures |free| + |outstanding| == n
  {
    var all := ChunkCells(0, n);
    ChunkCellsDistinct(0, n);
    DistinctElements(free);
    DistinctElements(all);
    forall c | c in Elements(all)
      ensures c in Elements(free) + outstanding
    {
      var i :| 0 <= i < n && all[i] == c;
    }
    forall c | c in Elements(free) + outstanding
      ensures c in Elements(all)
    {
      assert all[c] == c;
    }
    assert Elements(free) + outstanding == Elements(all);
    assert Elements(free) !! outstanding;
  }

  class Pool {
    /** The number of cells in every chunk. */
    const increment: int
    /** The free cells; the top of the stack is the last element. */
    var free: seq<nat>
    /** The first cell of every owned chunk, oldest first. */
    var chunks: seq<nat>
    /** The cells handed out and not yet freed. */
    ghost var outstanding: set<nat>

    /** The number of cells the owned chunks hold. */
    ghost function Owned(): int
      reads this
    {
      |chunks| * increment
    }

    /**
     * Chunk `k` starts at cell `k * increment`; the free stack holds no cell
     * twice; and the free cells and the outstanding cells are disjoint and
     * together are exactly the cells of the owned chunks.
     */
    ghost predicate Valid()
      reads this
    {
      && increment >= 0
      && (forall k :: 0 <= k < |chunks| ==> chunks[k] == k * increment)
      && Distinct(free)
      && (forall c :: c in free ==> c < Owned())
      && (forall c :: c in outstanding ==> c < Owned() && c !in free)
      && (forall c: nat :: c < Owned() ==> c in free || c in outstanding)
    }

    /**
     * `reservedCapacity` is the capacity the vector reports after reserving
     * `initialCapacity` elements; it becomes the fixed chunk size, and one
     * chunk is added at once.
     */
    constructor (initialCapacity: int, reservedCapacity: int)
      requires 0 <= initialCapacity <= reservedCapacity
      ensures Valid()
      ensures increment == reservedCapacity
      ensures chunks == [0] && free == ChunkCells(0, increment) && outstanding == {}
    {
      increment := reservedCapacity;
      free, chunks, outstanding := [], [], {};
      new;
      AddCapacity();
    }

    /** Adds one chunk of `increment` fresh cells and pushes all of them, in address order, on the free stack. */
    method AddCapacity()
      requires Valid()
      modifies this`free, this`chunks
      ensures Valid()
      ensures chunks == old(chunks) + [old(Owned())]
      ensures free == old(free) + ChunkCells(old(Owned()), increment)
    {
      var start := |chunks| * increment;
      for i := 0 to increment
        invariant free == old(free) + ChunkCells(start, i)
        invariant chunks == old(chunks)
      {
        free := free + [start + i];
      }
      chunks := chunks + [start];
      assert Owned() == start + increment by {
        assert |chunks| == |old(chunks)| + 1;
        assert (|old(chunks)| + 1) * increment == |old(chunks)| * increment + increment;
      }
      forall i, j | 0 <= i < j < |free|
        ensures free[i] != free[j]
      {
        if j >= |old(free)| {
          assert free[j] == start + j - |old(free)|;
          if i < |old(free)| {
            assert free[i] in old(free);
          }
        }
      }
      forall c: nat | c < Owned()
        ensures c in free || c in outstanding
      {
        if start <= c {
          assert free[|old(free)| + c - start] == c;
        }
      }
    }

    /** Pushes `t`, which must be an outstanding cell of this pool, on the free stack. */
    method Free(t: nat)
      requires Valid()
      requires t in outstanding
      modifies this`free, this`outstanding
      ensures Valid()
      ensures free == old(free) + [t] && outstanding == old(outstanding) - {t}
    {
      free := free + [t];
      outstanding := outstanding - {t};
    }

    /** Pops the top of the free stack and records the cell as outstanding. */
    method TakeTop() returns (cell: nat)
      requires Valid() && free != []
      modifies this`free, this`outstanding
      ensures Valid()
      ensures free + [cell] == old(free)
      ensures cell !in old(outstanding) && outstanding == old(outstanding) + {cell}
    {
      ghost var full := free;
      cell := free[|free| - 1];
      free := free[..|free| - 1];
      outstanding := outstanding + {cell};
      assert full == free + [cell];
      forall c | c in free
        ensures c < Owned() && c != cell
      {
        var i :| 0 <= i < |free| && free[i] == c;
        assert full[i] == c && full[|full| - 1] == cell;
        assert c in full;
      }
    }

    /**
     * Pops the top of the free stack, first adding one chunk when the stack
     * is empty. An empty stack with a chunk size of 0 would leave nothing to
     * pop, so that case is excluded.
     */
    method Allocate() returns (cell: nat)
      requires Valid()
      requires increment > 0 || free != []
      modifies this`free, this`chunks, this`outstanding
      ensures Valid()
      ensures cell !in old(outstanding) && outstanding == old(outstanding) + {cell}
      ensures old(free) != [] ==> chunks == old(chunks) && free + [cell] == old(free)
      ensures old(free) == [] ==> chunks == old(chunks) + [old(Owned())]
      ensures old(free) == [] ==> free + [cell] == ChunkCells(old(Owned()), increment)
    {
      if |free| == 0 {
        AddCapacity();
      }
      cell := TakeTop();
    }

    /** Every owned cell is either free or outstanding, and these number as many as the owned chunks hold. */
    lemma Conserved()
      requires Valid()
      ensures |free| + |outstanding| == |chunks| * increment
    {
      Conservation(free, outstanding, Owned());
    }

    /**
     * The destructor: releases the owned chunks one by one, in list order.
     * Every owned cell lies in one of the released chunks, and with a
     * positive chunk size no chunk is released twice.
     */
    method Destroy() returns (released: seq<nat>)
      requires Valid()
      ensures released == chunks
      ensures increment > 0 ==> Distinct(released)
      ensures forall c :: c in free || c in outstanding ==>
        exists k :: 0 <= k < |released| && released[k] <= c < released[k] + increment
    {
      released := [];
      for i := 0 to |chunks|
        invariant released == chunks[..i]
      {
        released := released + [chunks[i]];
      }
      if increment > 0 {
        ChunkStartsDistinct(released, increment);
      }
      forall c | c in free || c in outstanding
        ensures exists k :: 0 <= k < |released| && released[k] <= c < released[k] + increment
      {
        InSomeChunk(c, increment, |chunks|);
        var k :| 0 <= k < |chunks| && k * increment <= c < k * increment + increment;
        assert released[k] == k * increment;
      }
    }
  }

  /** Freeing an outstanding cell and allocating again hands back that same cell and leaves the pool as it was. */
  method FreeThenAllocate(pool: Pool, t: nat) returns (r: nat)
    requires pool.Valid() && t in pool.outstanding
    modifies pool
    ensures r == t && pool.Valid()
    ensures pool.free == old(pool.free) && pool.chunks == old(pool.chunks)
    ensures pool.outstanding == old(pool.outstanding)
  {
    pool.Free(t);
    ghost var pushed := pool.free;
    r := pool.Allocate();
    assert pushed[|pushed| - 1] == t && (pool.free + [r])[|pushed| - 1] == r;
    assert pool.free == pushed[..|pushed| - 1];
  }
}
