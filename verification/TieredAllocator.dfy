/** Pools of growing chunk size with the system heap behind them. */
module TieredAllocator {
  import opened Basics
  import opened ChunkAllocator

  const NULL := 0

  /** A block of memory: where it starts, and its size. */
  datatype Block = Block(ptr: int, size: nat)

  /** Blocks do not overlap, and not even empty ones share their address. */
  predicate Apart(a: Block, b: Block) {
    a.ptr != b.ptr && (a.ptr < b.ptr ==> a.ptr + a.size <= b.ptr) && (b.ptr < a.ptr ==> b.ptr + b.size <= a.ptr)
  }

  lemma ChunkInArena(p: Pool, c: nat)
    requires c < p.max && p.size > 0
    ensures p.Contains(p.Ptr(c)) && p.Ptr(c) + p.size <= p.base + p.max * p.size
  {
    assert (p.max - c) * p.size >= p.size by { MulAtLeast(p.size, p.max - c); }
    assert p.max * p.size == c * p.size + (p.max - c) * p.size;
    assert c * p.size >= 0;
  }

  lemma ChunksApart(p: Pool, c: nat, d: nat)
    requires c < d && p.size > 0
    ensures p.Ptr(c) + p.size <= p.Ptr(d)
  {
    MulAtLeast(p.size, d - c);
    assert d * p.size == c * p.size + (d - c) * p.size;
  }

  function Sum(ns: seq<nat>): nat {
    if ns == [] then 0 else Sum(ns[..|ns| - 1]) + ns[|ns| - 1]
  }

  lemma {:induction false} SumUpdate(ns: seq<nat>, i: nat, n: nat)
    requires i < |ns|
    ensures Sum(ns[i := n]) == Sum(ns) - ns[i] + n
  {
    var m := |ns| - 1;
    if i < m {
      SumUpdate(ns[..m], i, n);
      assert ns[i := n][..m] == ns[..m][i := n];
    } else {
      assert ns[i := n][..m] == ns[..m];
    }
  }

  ghost function UsedOf(ts: seq<Pool>): (r: seq<nat>)
    reads ts
    ensures |r| == |ts| && forall i :: 0 <= i < |ts| ==> r[i] == ts[i].used
  {
    seq(|ts|, i requires 0 <= i < |ts| reads ts => ts[i].used)
  }

  ghost function LivesOf(ts: seq<Pool>): (r: seq<set<nat>>)
    reads ts, set t | t in ts :: t.indices
    ensures |r| == |ts| && forall i :: 0 <= i < |ts| ==> r[i] == ts[i].Live()
  {
    if ts == [] then [] else LivesOf(ts[..|ts| - 1]) + [ts[|ts| - 1].Live()]
  }

  predicate ArraysApart(p: Pool, q: Pool) {
    && p.indices != q.indices && p.indices != q.backindices
    && p.backindices != q.indices && p.backindices != q.backindices
  }

  /** A block beside an arena. */
  predicate Outside(b: Block, p: Pool) {
    !p.Contains(b.ptr) && (b.ptr < p.base ==> b.ptr + b.size <= p.base)
  }

  class Allocator {
    const tiers: seq<Pool>
    var heapAllocations: int

    /** How often a null pointer has been freed. */
    ghost var nulls: nat
    /** The live blocks with the sizes they were requested with. */
    ghost var live: map<int, nat>
    /** The tier and chunk of every live block that a tier has handed out; the others are the system heap's. */
    ghost var home: map<int, (nat, nat)>

    ghost predicate Pools()
      reads tiers, set t | t in tiers :: t.indices, set t | t in tiers :: t.backindices
    {
      && (forall t :: 0 <= t < |tiers| ==> tiers[t].Valid())
      && Geometry()
      && (forall t, u :: 0 <= t < u < |tiers| ==>
            && tiers[t] != tiers[u]
            && ArraysApart(tiers[t], tiers[u]))
    }

    /** Every block of a tier is a live chunk of it that is large enough, and every live chunk is a block. */
    ghost predicate Homes(lives: seq<set<nat>>, live: map<int, nat>, home: map<int, (nat, nat)>)
      requires |lives| == |tiers|
    {
      && home.Keys <= live.Keys
      && (forall p :: p in home ==> var (t, c) := home[p];
            t < |tiers| && c in lives[t] && p == tiers[t].Ptr(c) && live[p] <= tiers[t].size)
      && (forall t: nat, c: nat :: t < |tiers| && c in lives[t] ==>
            c < tiers[t].max && tiers[t].Ptr(c) in home && home[tiers[t].Ptr(c)] == (t, c))
    }

    /** The blocks of the system heap are beside all arenas and apart from each other. */
    ghost predicate HeapBlocks(live: map<int, nat>, home: map<int, (nat, nat)>)
    {
      && (forall p :: p in live && p !in home ==> p != NULL)
      && (forall p, t :: p in live && p !in home && 0 <= t < |tiers| ==> Outside(Block(p, live[p]), tiers[t]))
      && (forall p, q :: p in live && q in live && p !in home && q !in home && p != q ==>
            Apart(Block(p, live[p]), Block(q, live[q])))
    }

    ghost predicate Valid()
      reads this, tiers, set t | t in tiers :: t.indices, set t | t in tiers :: t.backindices
    {
      Pools() && Consistent(LivesOf(tiers), UsedOf(tiers), live, home, heapAllocations + nulls)
    }

    /** The bookkeeping of blocks agrees with the pools: lives are their live chunks, used how many these are. */
    ghost predicate Consistent(lives: seq<set<nat>>, used: seq<nat>, live: map<int, nat>, home: map<int, (nat, nat)>,
                               heap: int)
      requires |lives| == |tiers|
    {
      && Homes(lives, live, home) && HeapBlocks(live, home)
      && heap == |live.Keys - home.Keys|
      && |home| == Sum(used)
    }

    /** What the system promises for a fresh heap block of n bytes. */
    ghost predicate FreshFromSystem(p: int, n: nat)
      reads this`live, this`home
    {
      && (forall t :: 0 <= t < |tiers| ==> Outside(Block(p, n), tiers[t]))
      && p !in live && p != NULL
      && (forall q :: q in live && q !in home ==> Apart(Block(p, n), Block(q, live[q])))
    }

    constructor (tiers: seq<Pool>)
      requires forall t :: 0 <= t < |tiers| ==> tiers[t].Valid() && tiers[t].used == 0 && tiers[t].base > NULL
      requires forall t, u :: 0 <= t < u < |tiers| ==>
        && tiers[t] != tiers[u]
        && ArraysApart(tiers[t], tiers[u])
        && (tiers[t].base + tiers[t].max * tiers[t].size <= tiers[u].base
            || tiers[u].base + tiers[u].max * tiers[u].size <= tiers[t].base)
      ensures Valid() && live == map[] && this.tiers == tiers
    {
      this.tiers, heapAllocations, nulls, live, home := tiers, 0, 0, map[], map[];
      new;
      SumOfZeros(UsedOf(tiers));
    }

    /** The arenas are somewhere, and they do not overlap. */
    ghost predicate Geometry() {
      && (forall t :: 0 <= t < |tiers| ==> tiers[t].size > 0 && tiers[t].base > NULL)
      && (forall t, u :: 0 <= t < u < |tiers| ==>
            tiers[t].base + tiers[t].max * tiers[t].size <= tiers[u].base
            || tiers[u].base + tiers[u].max * tiers[u].size <= tiers[t].base)
    }

    lemma SameChunk(t: nat, c: nat, u: nat, d: nat)
      requires Geometry() && t < |tiers| && u < |tiers| && c < tiers[t].max && d < tiers[u].max
      requires tiers[t].Ptr(c) == tiers[u].Ptr(d)
      ensures t == u && c == d
    {
      ChunkInArena(tiers[t], c);
      ChunkInArena(tiers[u], d);
      if t == u {
        if c < d { ChunksApart(tiers[t], c, d); }
        if d < c { ChunksApart(tiers[t], d, c); }
      }
    }

    /** The pointer of a chunk that is not live is not in use. */
    lemma FreeChunkIsUnused(lives: seq<set<nat>>, live: map<int, nat>, home: map<int, (nat, nat)>, t: nat, c: nat)
      requires |lives| == |tiers| && Homes(lives, live, home) && HeapBlocks(live, home) && Geometry()
      requires t < |tiers| && c < tiers[t].max && c !in lives[t]
      ensures tiers[t].Ptr(c) !in live
    {
      var p := tiers[t].Ptr(c);
      ChunkInArena(tiers[t], c);
      if p in home {
        var (u, d) := home[p];
        SameChunk(t, c, u, d);
      }
    }

    /** Memory for n bytes: from the first tier that has a chunk large enough and free, or else from the system. */
    method Malloc(n: nat, system: int) returns (ptr: int)
      requires Valid() && FreshFromSystem(system, n)
      modifies this, tiers
      ensures Valid() && ptr !in old(live) && live == old(live)[ptr := n]
      ensures forall t :: 0 <= t < |tiers| && ptr in home && home[ptr].0 == t ==>
        old(tiers[t].Fits(n) && !tiers[t].Full())
      ensures forall t :: 0 <= t < |tiers| && old(tiers[t].Fits(n) && !tiers[t].Full()) ==>
        ptr in home && home[ptr].0 <= t
      ensures ptr in home <==> exists t :: 0 <= t < |tiers| && n <= tiers[t].size && old(tiers[t].used) != tiers[t].max
      ensures ptr in home ==>
        var t := home[ptr].0;
        && t < |tiers| && n <= tiers[t].size && old(tiers[t].used) != tiers[t].max
        && forall u :: 0 <= u < t ==> n > tiers[u].size || old(tiers[u].used) == tiers[u].max
      ensures forall t :: 0 <= t < |tiers| ==>
        tiers[t].used == old(tiers[t].used) + if ptr in home && home[ptr].0 == t then 1 else 0
      ensures heapAllocations == (old(heapAllocations) + if ptr in home then 0 else 1) && nulls == old(nulls)
      ensures ptr !in home ==> ptr == system
    {
      hide Valid, FreshFromSystem;
      var i := 0;
      while i < |tiers|
        invariant i <= |tiers| && unchanged(this) && unchanged(tiers)
        invariant forall t :: 0 <= t < i ==> !(tiers[t].Fits(n) && !tiers[t].Full())
      {
        if tiers[i].Fits(n) && !tiers[i].Full() {
          ptr := MallocFrom(i, n);
          return;
        }
        i := i + 1;
      }
      ptr := MallocFromSystem(n, system);
    }

    method MallocFrom(t: nat, n: nat) returns (ptr: int)
      requires Valid() && t < |tiers| && tiers[t].Fits(n) && !tiers[t].Full()
      modifies this`live, this`home, tiers[t]
      ensures Valid() && ptr !in old(live) && live == old(live)[ptr := n] && ptr in home && home[ptr].0 == t
      ensures forall u :: 0 <= u < |tiers| ==> tiers[u].used == old(tiers[u].used) + if u == t then 1 else 0
    {
      hide Pools, Consistent, UsedOf, LivesOf, Geometry, Pool.Ptr, Pool.Live;
      ghost var lives, used, c := LivesOf(tiers), UsedOf(tiers), 0;
      ptr, c := PoolMalloc(t, n);
      AfterMalloc(lives, used, live, home, heapAllocations + nulls, t, c, n);
      live := live[ptr := n];
      home := home[ptr := (t, c)];
    }

    lemma AfterMalloc(lives: seq<set<nat>>, used: seq<nat>, live: map<int, nat>, home: map<int, (nat, nat)>, heap: int,
                      t: nat, c: nat, n: nat)
      requires |lives| == |tiers| == |used| && Consistent(lives, used, live, home, heap) && Geometry()
      requires t < |tiers| && c < tiers[t].max && c !in lives[t] && tiers[t].Fits(n)
      ensures var p := tiers[t].Ptr(c);
        && p !in live
        && Consistent(lives[t := lives[t] + {c}], used[t := used[t] + 1], live[p := n], home[p := (t, c)], heap)
    {
      hide Homes, HeapBlocks, Geometry, Sum;
      SumUpdate(used, t, used[t] + 1);
      HomesAfterMalloc(lives, live, home, t, c, n);
      HeapAfterMalloc(live, home, t, c, n);
    }

    /** One pool's step, as seen from all of them. */
    method PoolMalloc(t: nat, n: nat) returns (ptr: int, ghost c: nat)
      requires Pools() && t < |tiers| && tiers[t].Fits(n) && !tiers[t].Full()
      modifies tiers[t]
      ensures forall u :: 0 <= u < |tiers| ==> tiers[u].used == old(tiers[u].used) + if u == t then 1 else 0
      ensures Pools() && Geometry() && c < tiers[t].max && ptr == tiers[t].Ptr(c) && c !in old(LivesOf(tiers))[t]
      ensures LivesOf(tiers) == old(LivesOf(tiers))[t := old(LivesOf(tiers))[t] + {c}]
      ensures UsedOf(tiers) == old(UsedOf(tiers))[t := old(UsedOf(tiers))[t] + 1]
    {
      hide Sum, Geometry, Pool.Ptr, UsedOf, LivesOf, Pool.Live;
      ptr, c := tiers[t].Malloc(n);
      OtherPoolsValid(t);
    }

    twostate lemma OtherPoolsValid(t: nat)
      requires old(Pools()) && t < |tiers| && tiers[t].Valid()
      requires forall u :: 0 <= u < |tiers| && u != t ==>
        unchanged(tiers[u]) && unchanged(tiers[u].indices) && unchanged(tiers[u].backindices)
      ensures Pools()
    {
      hide Geometry, Pool.Valid;
    }

    lemma HomesAfterMalloc(lives: seq<set<nat>>, live: map<int, nat>, home: map<int, (nat, nat)>, t: nat, c: nat,
                           n: nat)
      requires |lives| == |tiers| && Homes(lives, live, home) && Geometry()
      requires t < |tiers| && c < tiers[t].max && c !in lives[t] && tiers[t].Fits(n)
      requires HeapBlocks(live, home)
      ensures var p := tiers[t].Ptr(c);
        && p !in live && home.Keys <= live.Keys
        && Homes(lives[t := lives[t] + {c}], live[p := n], home[p := (t, c)])
    {
      hide Pool.Ptr, HeapBlocks, Geometry;
      FreeChunkIsUnused(lives, live, home, t, c);
      var p, lives' := tiers[t].Ptr(c), lives[t := lives[t] + {c}];
      forall u: nat, d: nat | u < |tiers| && d in lives'[u]
        ensures d < tiers[u].max && tiers[u].Ptr(d) in home[p := (t, c)] && home[p := (t, c)][tiers[u].Ptr(d)] == (u, d)
      {
        if u != t || d != c { assert d in lives[u]; }
      }
      var home' := home[p := (t, c)];
      forall q | q in home' ensures var (u, d) := home'[q];
        u < |tiers| && d in lives'[u] && q == tiers[u].Ptr(d) && live[p := n][q] <= tiers[u].size
      {
        if q != p {
          assert q in home && q in live;
          assert home[q].1 in lives[home[q].0];
        }
      }
    }

    lemma HeapAfterMalloc(live: map<int, nat>, home: map<int, (nat, nat)>, t: nat, c: nat, n: nat)
      requires HeapBlocks(live, home) && t < |tiers| && tiers[t].Ptr(c) !in live && home.Keys <= live.Keys
      ensures var p := tiers[t].Ptr(c);
        && HeapBlocks(live[p := n], home[p := (t, c)])
        && live[p := n].Keys - home[p := (t, c)].Keys == live.Keys - home.Keys
        && |home[p := (t, c)]| == |home| + 1
    {
      assert home[tiers[t].Ptr(c) := (t, c)].Keys == home.Keys + {tiers[t].Ptr(c)};
    }

    lemma SystemBlock(live: map<int, nat>, home: map<int, (nat, nat)>, lives: seq<set<nat>>, p: int, n: nat)
      requires |lives| == |tiers| && Homes(lives, live, home) && HeapBlocks(live, home) && p !in live && p != NULL
      requires forall t :: 0 <= t < |tiers| ==> Outside(Block(p, n), tiers[t])
      requires forall q :: q in live && q !in home ==> Apart(Block(p, n), Block(q, live[q]))
      ensures Homes(lives, live[p := n], home) && HeapBlocks(live[p := n], home) && p !in home
    {
      hide Outside, Pool.Ptr;
    }

    lemma AfterSystemBlock(lives: seq<set<nat>>, used: seq<nat>, live: map<int, nat>, home: map<int, (nat, nat)>,
                           heap: int, p: int, n: nat)
      requires |lives| == |tiers| == |used| && Consistent(lives, used, live, home, heap) && p !in live && p != NULL
      requires forall t :: 0 <= t < |tiers| ==> Outside(Block(p, n), tiers[t])
      requires forall q :: q in live && q !in home ==> Apart(Block(p, n), Block(q, live[q]))
      ensures Consistent(lives, used, live[p := n], home, heap + 1) && p !in home
    {
      hide Homes, HeapBlocks, Sum, Outside, Apart;
      SystemBlock(live, home, lives, p, n);
      OneMoreKey(live, home.Keys, p, n);
    }

    lemma OneMoreKey(live: map<int, nat>, keys: set<int>, p: int, n: nat)
      requires p !in live && p !in keys
      ensures |live[p := n].Keys - keys| == |live.Keys - keys| + 1
    {
      assert live[p := n].Keys - keys == (live.Keys - keys) + {p};
    }

    method MallocFromSystem(n: nat, system: int) returns (ptr: int)
      requires Valid() && FreshFromSystem(system, n)
      modifies this`live, this`heapAllocations
      ensures Valid() && live == old(live)[system := n] && ptr == system && ptr !in home && ptr !in old(live)
      ensures heapAllocations == old(heapAllocations) + 1
    {
      hide Pools, Consistent, UsedOf, LivesOf, Outside, Apart;
      AfterSystemBlock(LivesOf(tiers), UsedOf(tiers), live, home, heapAllocations + nulls, system, n);
      heapAllocations := heapAllocations + 1;
      ptr := system;
      live := live[ptr := n];
    }

    // ----- giving back

    lemma HomesAfterFree(lives: seq<set<nat>>, live: map<int, nat>, home: map<int, (nat, nat)>, p: int)
      requires |lives| == |tiers| && Homes(lives, live, home) && Geometry() && p in home
      ensures var (t, c) := home[p];
        Homes(lives[t := lives[t] - {c}], live - {p}, home - {p})
    {
      hide Pool.Ptr, Geometry;
      var (t, c) := home[p];
      var lives', home' := lives[t := lives[t] - {c}], home - {p};
      forall u: nat, d: nat | u < |tiers| && d in lives'[u]
        ensures d < tiers[u].max && tiers[u].Ptr(d) in home' && home'[tiers[u].Ptr(d)] == (u, d)
      {
        assert d in lives[u];
        if tiers[u].Ptr(d) == p { SameChunk(t, c, u, d); }
      }
      forall q | q in home' ensures var (u, d) := home'[q];
        u < |tiers| && d in lives'[u] && q == tiers[u].Ptr(d) && (live - {p})[q] <= tiers[u].size
      {
        assert q in home && q in live && home[q].1 in lives[home[q].0];
      }
    }

    lemma AfterFree(lives: seq<set<nat>>, used: seq<nat>, live: map<int, nat>, home: map<int, (nat, nat)>, heap: int,
                    p: int)
      requires |lives| == |tiers| == |used| && Consistent(lives, used, live, home, heap) && Geometry() && p in home
      requires home[p].0 < |tiers| && used[home[p].0] > 0
      ensures var (t, c) := home[p];
        Consistent(lives[t := lives[t] - {c}], used[t := used[t] - 1], live - {p}, home - {p}, heap)
    {
      hide Homes, HeapBlocks, Geometry, Sum;
      var (t, c) := home[p];
      HomesAfterFree(lives, live, home, p);
      HeapShrinks(live, home, p);
      SumUpdate(used, t, used[t] - 1);
    }

    lemma HeapShrinks(live: map<int, nat>, home: map<int, (nat, nat)>, p: int)
      requires HeapBlocks(live, home) && p in home
      ensures HeapBlocks(live - {p}, home - {p})
      ensures (live - {p}).Keys - (home - {p}).Keys == live.Keys - home.Keys && |home - {p}| == |home| - 1
    {
      hide Outside, Apart;
      assert (home - {p}).Keys == home.Keys - {p};
    }

    lemma HeapLoses(live: map<int, nat>, home: map<int, (nat, nat)>, p: int)
      requires HeapBlocks(live, home) && p in live && p !in home
      ensures HeapBlocks(live - {p}, home)
      ensures |(live - {p}).Keys - home.Keys| == |live.Keys - home.Keys| - 1
    {
      hide Outside, Apart;
      OneLessKey(live, home.Keys, p);
    }

    lemma OneLessKey(live: map<int, nat>, keys: set<int>, p: int)
      requires p in live && p !in keys
      ensures |(live - {p}).Keys - keys| == |live.Keys - keys| - 1
    {
      assert (live - {p}).Keys - keys == (live.Keys - keys) - {p};
    }

    lemma HomesWithout(lives: seq<set<nat>>, live: map<int, nat>, home: map<int, (nat, nat)>, p: int)
      requires |lives| == |tiers| && Homes(lives, live, home) && p !in home
      ensures Homes(lives, live - {p}, home)
    {
      hide Pool.Ptr;
    }

    lemma AfterHeapFree(lives: seq<set<nat>>, used: seq<nat>, live: map<int, nat>, home: map<int, (nat, nat)>,
                        heap: int, p: int)
      requires |lives| == |tiers| == |used| && Consistent(lives, used, live, home, heap) && p in live && p !in home
      ensures Consistent(lives, used, live - {p}, home, heap - 1)
    {
      hide Homes, HeapBlocks, Sum;
      HeapLoses(live, home, p);
      HomesWithout(lives, live, home, p);
    }

    /** A block's pointer lies in the arena of its own tier, and that of a heap block in none. */
    lemma Routing(p: int, i: nat)
      requires Valid() && p in live && i < |tiers|
      ensures tiers[i].Contains(p) <==> p in home && home[p].0 == i
    {
      hide Sum, UsedOf, LivesOf, Pool.Valid;
      if p in home {
        var (t, c) := home[p];
        ChunkInArena(tiers[t], c);
      }
    }

    /** The null pointer is no block, and in no arena. */
    lemma NullIsNowhere()
      requires Valid()
      ensures NULL !in live && NULL !in home && live - {NULL} == live && home - {NULL} == home
      ensures forall t :: 0 <= t < |tiers| ==> !tiers[t].Contains(NULL)
    {
      hide Sum, UsedOf, LivesOf, Pool.Valid, Pool.Ptr;
      forall p | p in home
        ensures p > NULL
      {
        var (t, c) := home[p];
        ChunkInArena(tiers[t], c);
      }
    }

    /**
      Gives a live block back to the tier that issued it, or to the system. A null pointer is taken for a block of the
      system: nothing is freed, but the heap allocations are one fewer from then on.
     */
    method Free(ptr: int)
      requires Valid() && (ptr in live || ptr == NULL)
      modifies this, tiers, set t | t in tiers :: t.indices, set t | t in tiers :: t.backindices
      ensures Valid() && live == old(live) - {ptr} && home == old(home) - {ptr}
      ensures ptr == NULL ==> live == old(live)
      ensures nulls == old(nulls) + if ptr == NULL then 1 else 0
      ensures heapAllocations == old(heapAllocations) - if ptr in old(home) then 0 else 1
      ensures forall t :: 0 <= t < |tiers| ==>
        tiers[t].used == old(tiers[t].used) - if ptr in old(home) && old(home)[ptr].0 == t then 1 else 0
    {
      hide Valid;
      var i := 0;
      while i < |tiers|
        invariant i <= |tiers| && Valid() && unchanged(this) && unchanged(tiers)
        invariant ptr in home ==> home[ptr].0 >= i
      {
        if ptr == NULL { NullIsNowhere(); } else { Routing(ptr, i); }
        if tiers[i].Contains(ptr) {
          FreeTo(i, ptr);
          return;
        }
        i := i + 1;
      }
      if ptr == NULL {
        FreeNull();
      } else {
        FreeToSystem(ptr);
      }
    }

    method FreeNull()
      requires Valid()
      modifies this`heapAllocations, this`nulls
      ensures Valid() && live - {NULL} == live && home - {NULL} == home && NULL !in home
      ensures heapAllocations == old(heapAllocations) - 1 && nulls == old(nulls) + 1
    {
      hide UsedOf, LivesOf, Sum, Pools, Consistent;
      NullIsNowhere();
      heapAllocations := heapAllocations - 1;
      nulls := nulls + 1;
    }

    method FreeTo(t: nat, ptr: int)
      requires Valid() && ptr in live && ptr in home && home[ptr].0 == t && t < |tiers|
      modifies this`live, this`home, tiers[t], tiers[t].indices, tiers[t].backindices
      ensures Valid() && live == old(live) - {ptr} && home == old(home) - {ptr}
      ensures forall u :: 0 <= u < |tiers| ==> tiers[u].used == old(tiers[u].used) - if u == t then 1 else 0
    {
      hide Pools, Consistent, UsedOf, LivesOf, Geometry, Pool.Ptr, Pool.Live;
      ghost var lives, used, c := LivesOf(tiers), UsedOf(tiers), home[ptr].1;
      HomeFacts(ptr);
      PoolFree(t, ptr, c);
      AfterFree(lives, used, live, home, heapAllocations + nulls, ptr);
      live := live - {ptr};
      home := home - {ptr};
    }

    lemma HomeFacts(p: int)
      requires Valid() && p in home
      ensures var (t, c) := home[p];
        && t < |tiers| && c < tiers[t].max && c in tiers[t].Live() && p == tiers[t].Ptr(c) && Geometry()
    {
      hide Sum, UsedOf, Pool.Valid, Pool.Live, Pool.Ptr;
      assert home[p].1 in LivesOf(tiers)[home[p].0];
    }

    method PoolFree(t: nat, ptr: int, ghost c: nat)
      requires Pools() && t < |tiers| && c < tiers[t].max && c in tiers[t].Live() && ptr == tiers[t].Ptr(c)
      modifies tiers[t], tiers[t].indices, tiers[t].backindices
      ensures Pools() && old(UsedOf(tiers))[t] > 0
      ensures LivesOf(tiers) == old(LivesOf(tiers))[t := old(LivesOf(tiers))[t] - {c}]
      ensures UsedOf(tiers) == old(UsedOf(tiers))[t := tiers[t].used] && tiers[t].used == old(tiers[t].used) - 1
    {
      hide Sum, Geometry, Pool.Ptr, UsedOf, LivesOf, Pool.Live;
      tiers[t].Free(ptr, c);
      OtherPoolsValid(t);
    }

    method FreeToSystem(ptr: int)
      requires Valid() && ptr in live && (ptr in home ==> home[ptr].0 >= |tiers|)
      modifies this`live, this`heapAllocations
      ensures Valid() && live == old(live) - {ptr} && ptr !in home && heapAllocations == old(heapAllocations) - 1
    {
      hide Pools, Consistent, UsedOf, LivesOf;
      if ptr in home { HomeFacts(ptr); }
      AfterHeapFree(LivesOf(tiers), UsedOf(tiers), live, home, heapAllocations + nulls, ptr);
      heapAllocations := heapAllocations - 1;
      live := live - {ptr};
    }

    /** No two live blocks overlap. */
    lemma NoOverlap(p: int, q: int)
      requires Valid() && p in live && q in live && p != q
      ensures Apart(Block(p, live[p]), Block(q, live[q]))
    {
      if p in home && q in home {
        var (t, c) := home[p];
        var (u, d) := home[q];
        ChunkInArena(tiers[t], c);
        ChunkInArena(tiers[u], d);
        if t == u {
          if c < d { ChunksApart(tiers[t], c, d); }
          if d < c { ChunksApart(tiers[t], d, c); }
        }
      } else if p in home {
        HeapBlockApart(p, q);
      } else if q in home {
        HeapBlockApart(q, p);
      }
    }

    lemma HeapBlockApart(p: int, q: int)
      requires Valid() && p in home && q in live && q !in home
      ensures Apart(Block(p, live[p]), Block(q, live[q]))
    {
      var (t, c) := home[p];
      ChunkInArena(tiers[t], c);
    }

    /**
      The pools and the system heap together account for every live block, but for one for every null pointer freed. The
      heap allocations are the live blocks of the heap exactly if there was none.
     */
    lemma Accounting()
      requires Valid()
      ensures |live| == Sum(UsedOf(tiers)) + heapAllocations + nulls
      ensures heapAllocations == |live.Keys - home.Keys| <==> nulls == 0
    {
      assert live.Keys == home.Keys + (live.Keys - home.Keys);
    }
  }

  lemma {:induction false} SumOfZeros(ns: seq<nat>)
    requires forall i :: 0 <= i < |ns| ==> ns[i] == 0
    ensures Sum(ns) == 0
  {
    if ns != [] { SumOfZeros(ns[..|ns| - 1]); }
  }
}
