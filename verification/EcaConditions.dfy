/** Conditions, the event interval each covers, and the open and close records made from them. */
module EcaConditions {
  import opened Basics
  import opened Bits
  import opened Counting

  /** What the hardware executes when a condition matches. */
  datatype Action = Action(offset: int64, tag: uint32, flags: uint4, channel: uint8, num: uint8)

  /** The part of an active condition that the compiler reads. */
  datatype Cond = Cond(id: uint64, mask: uint64, act: Action) {
    function Lo(): uint64 {
      And(id, mask)
    }

    function Hi(): (h: uint64)
      ensures h >= Lo()
    {
      Pow2Words();
      OrBound(id, Not64(mask), 64);
      Or(id, Not64(mask))
    }

    /** The interval of events between the first and the last key of the condition. */
    predicate Covers(e: uint64) {
      Lo() <= e <= Hi()
    }

    /** The meaning of a condition: the masked bits of the event are those of the id. */
    predicate Matches(e: uint64) {
      And(e, mask) == And(id, mask)
    }
  }

  ghost predicate AllPrefix(cs: seq<Cond>) {
    forall i :: 0 <= i < |cs| ==> IsPrefixMask(cs[i].mask)
  }

  function Matching(cs: seq<Cond>, e: uint64): seq<Action> {
    Map(Filter(cs, (c: Cond) => c.Matches(e)), (c: Cond) => c.act)
  }

  // ----- prefix masks describe aligned intervals

  /** A prefix-mask condition covers an aligned block of 2^k events, and matches exactly that block. */
  lemma PrefixBlock(c: Cond) returns (k: nat)
    requires IsPrefixMask(c.mask)
    ensures k <= 64 && c.Lo() == c.id - LowBits(c.id, k)
    ensures c.Hi() == c.Lo() + Pow2(k) - 1
    ensures forall e: uint64 :: And(e, c.mask) == e - LowBits(e, k)
  {
    k := PrefixMaskShape(c.mask);
    forall e: uint64 ensures And(e, c.mask) == e - LowBits(e, k) { MaskedWord(e, c.mask, k); }
    OrLowMask(c.id, k);
  }

  lemma MaskedWord(e: uint64, mask: uint64, k: nat)
    requires k <= 64 && Not64(mask) == Pow2(k) - 1
    ensures And(e, mask) == e - LowBits(e, k)
  {
    Pow2Words();
    MaskedWordOfWidth(e, mask, k, 64);
  }

  lemma MaskedWordOfWidth(e: uint64, mask: uint64, k: nat, w: nat)
    requires k <= w && Pow2(w) == U64_MAX + 1 && Not64(mask) == Pow2(k) - 1
    ensures And(e, mask) == e - LowBits(e, k)
  {
    AndHighMask(e, k, w);
  }

  /** Multiples of q are at least q apart. */
  lemma MultiplesApart(q: int, t: int, n: int)
    requires q > 0 && q * t < q * n
    ensures q * t + q <= q * n
  {
    if t >= n { MulMono(q, n, t); }
    MulMono(q, t + 1, n);
    assert q * (t + 1) == q * t + q;
  }

  lemma SameBlock(x: nat, e: nat, k: nat)
    ensures e - LowBits(e, k) == x - LowBits(x, k) <==> x - LowBits(x, k) <= e < x - LowBits(x, k) + Pow2(k)
  {
    SplitWord(x, k);
    SplitWord(e, k);
    var p, s, t := Pow2(k), HighBits(x, k), HighBits(e, k);
    if p * s < p * t { MultiplesApart(p, s, t); }
    if p * t < p * s { MultiplesApart(p, t, s); }
  }

  /** For a prefix mask, the interval is the meaning. */
  lemma CoversIsMatches(c: Cond, e: uint64)
    requires IsPrefixMask(c.mask)
    ensures c.Covers(e) <==> c.Matches(e)
  {
    var k := PrefixBlock(c);
    SameBlock(c.id, e, k);
  }

  /** A block that starts before the end of a larger one ends with it at the latest. */
  lemma SmallBlockInside(x: nat, k: nat, y: nat, l: nat)
    requires l <= k && y - LowBits(y, l) < x - LowBits(x, k) + Pow2(k)
    ensures y - LowBits(y, l) + Pow2(l) <= x - LowBits(x, k) + Pow2(k)
  {
    hide Pow2, LowBits, HighBits;
    SplitWord(x, k);
    SplitWord(y, l);
    Pow2Sum(k - l, l);
    var m, q, s := Pow2(k - l), Pow2(l), HighBits(x, k);
    assert Pow2(k) * s + Pow2(k) == q * (m * s + m) by { Distribute(m, q, s); }
    MultiplesApart(q, HighBits(y, l), m * s + m);
  }

  /** A block that starts before a larger one ends before it. */
  lemma SmallBlockBefore(x: nat, k: nat, y: nat, l: nat)
    requires k <= l && x - LowBits(x, k) < y - LowBits(y, l)
    ensures x - LowBits(x, k) + Pow2(k) <= y - LowBits(y, l)
  {
    hide Pow2, LowBits, HighBits;
    SplitWord(x, k);
    SplitWord(y, l);
    Pow2Sum(l - k, k);
    var m, q, t := Pow2(l - k), Pow2(k), HighBits(y, l);
    assert Pow2(l) * t == q * (m * t) by { Regroup(m, q, t); }
    MultiplesApart(q, HighBits(x, k), m * t);
  }

  lemma Regroup(m: int, q: int, s: int)
    ensures (m * q) * s == q * (m * s)
  {
  }

  lemma Distribute(m: int, q: int, s: int)
    ensures (m * q) * s + m * q == q * (m * s + m)
  {
    Regroup(m, q, s);
  }

  /** Two prefix intervals are nested or disjoint. */
  lemma PrefixIntervalsLaminar(a: Cond, b: Cond)
    requires IsPrefixMask(a.mask) && IsPrefixMask(b.mask)
    requires a.Lo() < b.Lo() <= a.Hi()
    ensures b.Hi() <= a.Hi()
  {
    var k := PrefixBlock(a);
    var l := PrefixBlock(b);
    if l <= k {
      SmallBlockInside(a.id, k, b.id, l);
    } else {
      SmallBlockBefore(a.id, k, b.id, l);
    }
  }

  // ----- other masks cover too much

  /** Whatever the mask, a matching event lies in the interval. */
  lemma MatchesIsCovered(c: Cond, e: uint64)
    requires c.Matches(e)
    ensures c.Covers(e)
  {
    hide And, Or, Pow2;
    Pow2Words();
    OrIsSum(c.id, c.mask, Not64(c.mask), 64);
    OrIsSum(e, c.mask, Not64(c.mask), 64);
  }

  /** The interval is the meaning exactly for prefix masks. */
  lemma ExactIffPrefix(c: Cond)
    ensures IsPrefixMask(c.mask) <==> forall e: uint64 :: c.Covers(e) <==> c.Matches(e)
  {
    if IsPrefixMask(c.mask) {
      forall e: uint64 ensures c.Covers(e) <==> c.Matches(e) { CoversIsMatches(c, e); }
    } else {
      var e := CoveredOnly(c);
    }
  }

  lemma CoveredOnly(c: Cond) returns (e: uint64)
    requires !IsPrefixMask(c.mask)
    ensures c.Covers(e) && !c.Matches(e)
  {
    hide And, Or, Pow2;
    Pow2Words();
    PrefixByOnes(c.mask);
    var outlier := Outlier(c.id, c.mask, Not64(c.mask), 64);
    assert outlier <= c.Hi();
    e := outlier;
  }

  /** Without the check, a condition on the lowest bit reacts to events that do not have it. */
  lemma LowestBitOnly(act: Action)
    ensures var c := Cond(0, 1, act); c.Covers(1) && !c.Matches(1)
  {
    assert And(1, 1) == 1;
  }

  // ----- open and close records

  datatype Rec = Rec(key: uint64, open: bool, subkey: uint64, act: Action)

  function OpenRec(c: Cond): Rec {
    Rec(c.Lo(), true, c.Hi(), c.act)
  }

  function CloseRec(c: Cond): Rec
    requires c.Hi() != U64_MAX
  {
    Rec(c.Hi() + 1, false, c.Lo(), c.act)
  }

  lemma RecordFields(c: Cond)
    ensures OpenRec(c) == Rec(c.Lo(), true, c.Hi(), c.act)
    ensures c.Hi() != U64_MAX ==> CloseRec(c) == Rec(c.Hi() + 1, false, c.Lo(), c.act)
  {
  }

  function RecordsOfOne(c: Cond): seq<Rec> {
    [OpenRec(c)] + if c.Hi() != U64_MAX then [CloseRec(c)] else []
  }

  /** The open record of every condition, with a close record unless the interval reaches the last event. */
  function RecordsOf(cs: seq<Cond>): seq<Rec> {
    if cs == [] then [] else RecordsOf(cs[..|cs| - 1]) + RecordsOfOne(cs[|cs| - 1])
  }

  /** The order in which records are laid out: by key, closes first, then by descending subkey. */
  predicate Less(a: Rec, b: Rec) {
    if a.key != b.key then a.key < b.key
    else if a.open != b.open then b.open
    else a.subkey > b.subkey
  }

  /** std::sort demands a strict weak ordering. */
  lemma LessIsStrictWeakOrder(a: Rec, b: Rec, c: Rec)
    ensures !Less(a, a)
    ensures Less(a, b) ==> !Less(b, a)
    ensures Less(a, b) && Less(b, c) ==> Less(a, c)
    ensures !Less(a, b) && !Less(b, a) && !Less(b, c) && !Less(c, b) ==> !Less(a, c) && !Less(c, a)
  {
  }

  ghost predicate Sorted(rs: seq<Rec>) {
    forall i, j :: 0 <= i < j < |rs| ==> !Less(rs[j], rs[i])
  }

  /** rs is the sorted record list of the conditions cs. */
  ghost predicate SortedRecordsOf(rs: seq<Rec>, cs: seq<Cond>) {
    Sorted(rs) && multiset(rs) == multiset(RecordsOf(cs))
  }

  /** Lifts of a record predicate to the condition whose open or close record satisfies it. */
  function OnOpen(p: Rec -> bool): Cond -> bool { (c: Cond) => p(OpenRec(c)) }
  function OnClose(p: Rec -> bool): Cond -> bool { (c: Cond) => c.Hi() != U64_MAX && p(CloseRec(c)) }

  /** Counting records is counting conditions. */
  lemma {:induction false} CountRecords(cs: seq<Cond>, p: Rec -> bool)
    ensures Count(RecordsOf(cs), p) == Count(cs, OnOpen(p)) + Count(cs, OnClose(p))
  {
    if cs != [] {
      var c := cs[|cs| - 1];
      CountRecords(cs[..|cs| - 1], p);
      CountConcat(RecordsOf(cs[..|cs| - 1]), RecordsOfOne(c), p);
      CountOne(RecordsOfOne(c), p);
      assert OnOpen(p)(c) == p(OpenRec(c));
      assert OnClose(p)(c) == (c.Hi() != U64_MAX && p(CloseRec(c)));
    }
  }

  lemma CountOne(s: seq<Rec>, p: Rec -> bool)
    requires 1 <= |s| <= 2
    ensures Count(s, p) == (if p(s[0]) then 1 else 0) + (if |s| == 2 && p(s[1]) then 1 else 0)
  {
    assert s[..|s| - 1][..0] == [];
    if |s| == 2 {
      assert Count(s[..1], p) == Count(s[..1][..0], p) + if p(s[0]) then 1 else 0;
    }
  }

  function Covering(e: uint64): Cond -> bool { (c: Cond) => c.Covers(e) }
  function OpenAt(e: uint64): Rec -> bool { (r: Rec) => r.open && r.key <= e <= r.subkey }

  /** The open records around an event are those of the conditions that cover it. */
  lemma {:induction false} FilterRecords(cs: seq<Cond>, e: uint64)
    ensures Filter(RecordsOf(cs), OpenAt(e)) == Map(Filter(cs, Covering(e)), OpenRec)
  {
    if cs != [] {
      var c, cs' := cs[|cs| - 1], cs[..|cs| - 1];
      FilterRecords(cs', e);
      FilterConcat(RecordsOf(cs'), RecordsOfOne(c), OpenAt(e));
      FilterOneRecord(c, e);
      if c.Covers(e) { MapAppend(Filter(cs', Covering(e)), c, OpenRec); }
    }
  }

  lemma FilterOneRecord(c: Cond, e: uint64)
    ensures Filter(RecordsOfOne(c), OpenAt(e)) == if c.Covers(e) then [OpenRec(c)] else []
  {
    var p, s := OpenAt(e), RecordsOfOne(c);
    assert s[..|s| - 1][..0] == [];
    if |s| == 2 {
      assert Filter(s, p) == Filter(s[..1], p) == Filter(s[..1][..0], p) + if p(s[0]) then [s[0]] else [];
    }
  }

  lemma {:induction false} RecordShape(cs: seq<Cond>, r: Rec) returns (c: Cond)
    requires r in RecordsOf(cs)
    ensures c in cs && (r == OpenRec(c) || (c.Hi() != U64_MAX && r == CloseRec(c)))
  {
    if r in RecordsOfOne(cs[|cs| - 1]) {
      c := cs[|cs| - 1];
    } else {
      c := RecordShape(cs[..|cs| - 1], r);
    }
  }
}
