/** When the active conditions fit the hardware tables, and what the capacity guard of the compiler protects. */
module EcaCapacity {
  import opened Basics
  import opened Bits
  import opened Counting
  import opened EcaConditions
  import opened EcaStack
  import opened EcaCompiler

  /** The worst-case capacity computed from the table sizes. */
  function MaxConditions(searchSize: nat, walkerSize: nat): nat {
    if searchSize / 2 < walkerSize then searchSize / 2 else walkerSize
  }

  /** The guard of the compiler. */
  predicate Accepts(maxConditions: nat, cs: seq<Cond>) {
    |RecordsOf(cs)| / 2 < maxConditions
  }

  function ReachesEnd(): Cond -> bool { (c: Cond) => c.Hi() == U64_MAX }

  lemma {:induction false} RecordCount(cs: seq<Cond>)
    ensures |RecordsOf(cs)| == 2 * |cs| - Count(cs, ReachesEnd())
    ensures Count(cs, ReachesEnd()) <= |cs|
  {
    if cs != [] { RecordCount(cs[..|cs| - 1]); }
  }

  /** The search list of an accepted set fits the search table. */
  lemma SearchFits(cs: seq<Cond>, rs: seq<Rec>, search: seq<SearchEntry>, walk: seq<WalkEntry>, searchSize: nat,
                   walkerSize: nat)
    requires SortedRecordsOf(rs, cs) && TablesOf(rs, search, walk)
    requires Accepts(MaxConditions(searchSize, walkerSize), cs)
    ensures 1 <= |search| <= searchSize
  {
    assert |rs| == |multiset(rs)| == |multiset(RecordsOf(cs))| == |RecordsOf(cs)|;
  }

  /** A set of conditions of which exactly m reach the last event overflows the walker table although it is accepted. */
  ghost predicate Overflows(searchSize: nat, walkerSize: nat, m: nat, cs: seq<Cond>) {
    && Count(cs, ReachesEnd()) == m
    && Accepts(MaxConditions(searchSize, walkerSize), cs)
    && |cs| > walkerSize
  }

  /**
    Exactly which numbers m of intervals that reach the last event are harmless: with the capacity mc of the guard,
    no accepted set with m such intervals exceeds the walker table iff m <= 2 * (walkerSize - mc) + 2 or m >= 2 * mc.
   */
  lemma GuardProtectsWalker(searchSize: nat, walkerSize: nat, m: nat)
    ensures var mc := MaxConditions(searchSize, walkerSize);
      (forall cs :: !Overflows(searchSize, walkerSize, m, cs)) <==> m <= 2 * (walkerSize - mc) + 2 || m >= 2 * mc
  {
    var mc := MaxConditions(searchSize, walkerSize);
    if m <= 2 * (walkerSize - mc) + 2 || m >= 2 * mc {
      forall cs ensures !Overflows(searchSize, walkerSize, m, cs) { RecordCount(cs); }
    } else {
      var n := if m <= walkerSize then walkerSize + 1 else m;
      var cs := Sample(m, n - m);
      RecordCount(cs);
      assert Overflows(searchSize, walkerSize, m, cs);
    }
  }

  /** m conditions that match every event, and k conditions that match event 0. */
  lemma {:induction false} Sample(m: nat, k: nat) returns (cs: seq<Cond>)
    ensures |cs| == m + k && Count(cs, ReachesEnd()) == m
  {
    var act := Action(0, 0, 0, 0, 0);
    if k > 0 {
      var c := Cond(0, U64_MAX, act);
      cs := Sample(m, k - 1);
      assert c.Hi() == 0;
      assert (cs + [c])[..|cs|] == cs;
      cs := cs + [c];
    } else if m > 0 {
      var c := Cond(0, 0, act);
      cs := Sample(m - 1, 0);
      assert c.Hi() == U64_MAX;
      assert (cs + [c])[..|cs|] == cs;
      cs := cs + [c];
    } else {
      cs := [];
    }
  }

  /** Dropping a condition keeps a set accepted and within the walker table. */
  lemma ShrinkingIsAccepted(maxConditions: nat, cs: seq<Cond>, ds: seq<Cond>)
    requires Accepts(maxConditions, cs) && multiset(ds) <= multiset(cs)
    ensures Accepts(maxConditions, ds) && |ds| <= |cs|
  {
    RecordsAsEnds(cs);
    RecordsAsEnds(ds);
    CountSubmultiset(ds, cs, EndsBefore(U64_MAX));
  }

  lemma {:induction false} RecordsAsEnds(cs: seq<Cond>)
    ensures |RecordsOf(cs)| == |cs| + Count(cs, EndsBefore(U64_MAX))
  {
    if cs != [] { RecordsAsEnds(cs[..|cs| - 1]); }
  }
}
