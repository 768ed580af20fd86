/** A pool of equal chunks behind two mutually inverse index arrays, and the tiers of pools on top of it. */
module ChunkAllocator {
  import opened Basics

  lemma IndexBack(i: nat, size: nat)
    requires size > 0
    ensures i * size / size == i
  {
    var q := i * size / size;
    assert size * (i - q) == i * size % size;
    if i > q { MulAtLeast(size, i - q); }
    if i < q { MulAtLeast(size, q - i); }
  }

  /** The chunks at the front of the index array. */
  function ChunksOf(indices: seq<nat>): set<nat> {
    set i | 0 <= i < |indices| :: indices[i]
  }

  /** If c moves to position n and everything else before n + 1 stays among the first n, the first n lose just c. */
  lemma SameChunks(was: seq<nat>, now: seq<nat>, n: nat, c: nat)
    requires n < |was| == |now| && now[n] == c
    requires forall i, j :: 0 <= i < j < |was| ==> was[i] != was[j]
    requires exists a :: 0 <= a <= n && was[a] == c && now == was[a := was[n]][n := c]
    ensures ChunksOf(now[..n]) == ChunksOf(was[..n + 1]) - {c}
  {
    var a :| 0 <= a <= n && was[a] == c && now == was[a := was[n]][n := c];
    forall x | x in ChunksOf(was[..n + 1]) - {c} ensures x in ChunksOf(now[..n]) {
      var i :| 0 <= i < n + 1 && was[..n + 1][i] == x;
      assert if i == n then now[..n][a] == x else now[..n][i] == x;
    }
  }

  class Pool {
    const max: nat
    const size: nat
    const base: int
    const indices: array<nat>
    const backindices: array<nat>
    var used: nat

    /** The index arrays are inverse permutations of the chunk numbers. */
    ghost predicate Valid()
      reads this, indices, backindices
    {
      && size > 0 && indices != backindices && indices.Length == backindices.Length == max
      && used <= max
      && (forall i :: 0 <= i < max ==> indices[i] < max && backindices[indices[i]] == i)
      && (forall c :: 0 <= c < max ==> backindices[c] < max && indices[backindices[c]] == c)
    }

    /** The chunks that have been handed out. */
    ghost function Live(): set<nat>
      reads this, indices
    {
      if used <= indices.Length then ChunksOf(indices[..used]) else {}
    }

    function Ptr(c: nat): int {
      base + c * size
    }

    constructor (max: nat, size: nat, base: int)
      requires size > 0
      ensures Valid() && Live() == {} && used == 0
      ensures this.max == max && this.size == size && this.base == base
      ensures fresh(indices) && fresh(backindices)
    {
      this.max, this.size, this.base := max, size, base;
      indices := new nat[max](i => i);
      backindices := new nat[max](i => i);
      used := 0;
    }

    predicate Full()
      reads this
    {
      used == max
    }

    predicate Fits(n: nat) {
      n <= size
    }

    predicate Contains(ptr: int) {
      base <= ptr < base + max * size
    }

    /** Exactly the live chunks sit at the front of the index array. */
    lemma LiveIffInFront(c: nat)
      requires Valid() && c < max
      ensures c in Live() <==> backindices[c] < used
    {
      if backindices[c] < used { assert indices[..used][backindices[c]] == c; }
    }

    /** Hands out a chunk that is not live. */
    method Malloc(n: nat) returns (ptr: int, ghost c: nat)
      requires Valid() && Fits(n) && !Full()
      modifies this
      ensures Valid() && c < max && ptr == Ptr(c)
      ensures c !in old(Live()) && Live() == old(Live()) + {c} && used == old(used) + 1
    {
      c := indices[used];
      LiveIffInFront(c);
      ptr := Ptr(indices[used]);
      assert indices[..used + 1] == indices[..used] + [c];
      used := used + 1;
    }

    /** Takes back a live chunk, and no other: the two swapped cells may be one and the same. */
    method Free(ptr: int, ghost c: nat)
      requires Valid() && c in Live() && c < max && ptr == Ptr(c)
      modifies this, indices, backindices
      ensures Valid() && Live() == old(Live()) - {c} && used == old(used) - 1
    {
      ghost var was := indices[..];
      IndexBack(c, size);
      var index := (ptr - base) / size;
      LiveIffInFront(c);
      var a, b := backindices[index], used - 1;
      var backA, backB := indices[a], indices[b];
      indices[a], indices[b] := indices[b], indices[a];
      backindices[backA], backindices[backB] := backindices[backB], backindices[backA];
      used := used - 1;
      assert Valid();
      SameChunks(was, indices[..], b, c);
    }
  }
}
