/** The stack discipline of a sorted record list: every close pops, and for laminar intervals pops the right record. */
module EcaStack {
  import opened Basics
  import opened Bits
  import opened Counting
  import opened EcaConditions

  /** The stack, top first, after the records have been processed in order; None if a close finds it empty. */
  function Run(rs: seq<Rec>): Option<seq<Rec>> {
    if rs == [] then Some([])
    else
      match Run(rs[..|rs| - 1])
      case None => None
      case Some(st) =>
        if rs[|rs| - 1].open then Some([rs[|rs| - 1]] + st)
        else if st == [] then None
        else Some(st[1..])
  }

  lemma RunStep(rs: seq<Rec>, i: nat)
    requires i < |rs|
    ensures Run(rs[..i + 1]) ==
            match Run(rs[..i])
            case None => None
            case Some(st) => if rs[i].open then Some([rs[i]] + st) else if st == [] then None else Some(st[1..])
  {
    assert rs[..i + 1][..i] == rs[..i];
  }

  /** Position p separates the records with key at most e from the others. */
  ghost predicate Boundary(rs: seq<Rec>, p: nat, e: uint64) {
    && p <= |rs|
    && (forall i :: 0 <= i < p ==> rs[i].key <= e)
    && (forall i :: p <= i < |rs| ==> rs[i].key > e)
  }

  // ----- predicates used for counting

  function Opens(): Rec -> bool { (r: Rec) => r.open }
  function Closes(): Rec -> bool { (r: Rec) => !r.open }
  function OpensTo(h: int): Rec -> bool { (r: Rec) => r.open && r.subkey == h }
  function ClosesAfter(h: int): Rec -> bool { (r: Rec) => !r.open && r.key == h + 1 }
  function ClosesUpTo(k: int): Rec -> bool { (r: Rec) => !r.open && r.key <= k }
  function OpensUpTo(k: int): Rec -> bool { (r: Rec) => r.open && r.key <= k }
  function EndsAt(h: int): Rec -> bool { (r: Rec) => r.subkey == h }

  // ----- facts about the record list of a set of conditions

  lemma RecordsAre(rs: seq<Rec>, cs: seq<Cond>, i: nat) returns (c: Cond)
    requires SortedRecordsOf(rs, cs) && i < |rs|
    ensures c in cs && (rs[i] == OpenRec(c) || (c.Hi() != U64_MAX && rs[i] == CloseRec(c)))
  {
    assert rs[i] in multiset(rs);
    assert rs[i] in multiset(RecordsOf(cs));
    c := RecordShape(cs, rs[i]);
  }

  /** A count over the sorted records is a count over the conditions. */
  lemma CountSorted(rs: seq<Rec>, cs: seq<Cond>, p: Rec -> bool)
    requires SortedRecordsOf(rs, cs)
    ensures Count(rs, p) == Count(cs, OnOpen(p)) + Count(cs, OnClose(p))
  {
    CountPerm(rs, RecordsOf(cs), p);
    CountRecords(cs, p);
  }

  /** As many records close after h as open up to h, for every h but the last event. */
  lemma OpensMatchCloses(rs: seq<Rec>, cs: seq<Cond>, h: nat)
    requires SortedRecordsOf(rs, cs) && h < U64_MAX
    ensures Count(rs, OpensTo(h)) == Count(rs, ClosesAfter(h))
  {
    var open, close := OpensTo(h), ClosesAfter(h);
    CountSorted(rs, cs, open);
    CountSorted(rs, cs, close);
    forall i | 0 <= i < |cs| ensures !OnClose(open)(cs[i]) && !OnOpen(close)(cs[i]) { RecordFields(cs[i]); }
    forall i | 0 <= i < |cs| ensures OnOpen(open)(cs[i]) == OnClose(close)(cs[i]) { RecordFields(cs[i]); }
    CountNone(cs, OnClose(open));
    CountNone(cs, OnOpen(close));
    CountSame(cs, OnOpen(open), OnClose(close));
  }

  function EndsBefore(k: int): Cond -> bool { (c: Cond) => c.Hi() < k }
  function StartsBy(k: int): Cond -> bool { (c: Cond) => c.Lo() <= k }

  lemma CountClosesUpTo(rs: seq<Rec>, cs: seq<Cond>, k: int)
    requires SortedRecordsOf(rs, cs) && k <= U64_MAX
    ensures Count(rs, ClosesUpTo(k)) == Count(cs, EndsBefore(k))
  {
    var p := ClosesUpTo(k);
    CountSorted(rs, cs, p);
    forall i | 0 <= i < |cs| ensures !OnOpen(p)(cs[i]) { RecordFields(cs[i]); }
    forall i | 0 <= i < |cs| ensures EndsBefore(k)(cs[i]) == OnClose(p)(cs[i]) { RecordFields(cs[i]); }
    CountNone(cs, OnOpen(p));
    CountSame(cs, EndsBefore(k), OnClose(p));
  }

  lemma CountOpensUpTo(rs: seq<Rec>, cs: seq<Cond>, k: int)
    requires SortedRecordsOf(rs, cs)
    ensures Count(rs, OpensUpTo(k)) == Count(cs, StartsBy(k))
  {
    var p := OpensUpTo(k);
    CountSorted(rs, cs, p);
    forall i | 0 <= i < |cs| ensures !OnClose(p)(cs[i]) { RecordFields(cs[i]); }
    forall i | 0 <= i < |cs| ensures StartsBy(k)(cs[i]) == OnOpen(p)(cs[i]) { RecordFields(cs[i]); }
    CountNone(cs, OnClose(p));
    CountSame(cs, StartsBy(k), OnOpen(p));
  }

  /** One open record per condition. */
  lemma CountOpens(rs: seq<Rec>, cs: seq<Cond>)
    requires SortedRecordsOf(rs, cs)
    ensures Count(rs, Opens()) == |cs|
  {
    CountSame(rs, Opens(), OpensUpTo(U64_MAX));
    CountOpensUpTo(rs, cs, U64_MAX);
    CountAll(cs, StartsBy(U64_MAX));
  }

  lemma {:induction false} CountAll<T>(s: seq<T>, p: T -> bool)
    requires forall i :: 0 <= i < |s| ==> p(s[i])
    ensures Count(s, p) == |s|
  {
    if s != [] { CountAll(s[..|s| - 1], p); }
  }

  lemma SortedKeys(rs: seq<Rec>, i: nat, j: nat)
    requires Sorted(rs) && i <= j < |rs|
    ensures rs[i].key <= rs[j].key
  {
    if i < j { assert !Less(rs[j], rs[i]); }
  }

  // ----- no close ever finds the stack empty

  /** In every prefix that ends with a close, the opens outnumber the closes before it: for arbitrary masks. */
  lemma MoreOpensThanCloses(rs: seq<Rec>, cs: seq<Cond>, i: nat)
    requires SortedRecordsOf(rs, cs) && i < |rs| && !rs[i].open
    ensures Count(rs[..i], Closes()) < Count(rs[..i], Opens())
  {
    var k: int := rs[i].key;
    forall j | 0 <= j <= i ensures rs[j].key <= k { SortedKeys(rs, j, i); }
    forall j | i <= j < |rs| ensures rs[j].key >= k { SortedKeys(rs, i, j); }
    calc {
      Count(rs[..i], Closes()) + 1;
      { CountStep(rs, i, Closes()); }
      Count(rs[..i + 1], Closes());
      { CountSame(rs[..i + 1], Closes(), ClosesUpTo(k)); }
      Count(rs[..i + 1], ClosesUpTo(k));
      <= { CountSplit(rs, i + 1, ClosesUpTo(k)); }
      Count(rs, ClosesUpTo(k));
      { CountClosesUpTo(rs, cs, k); }
      Count(cs, EndsBefore(k));
      <= { CountMono(cs, EndsBefore(k), StartsBy(k - 1)); }
      Count(cs, StartsBy(k - 1));
      { CountOpensUpTo(rs, cs, k - 1); }
      Count(rs, OpensUpTo(k - 1));
      { CountPrefix(rs, i, OpensUpTo(k - 1)); }
      Count(rs[..i], OpensUpTo(k - 1));
      <= { CountMono(rs[..i], OpensUpTo(k - 1), Opens()); }
      Count(rs[..i], Opens());
    }
  }

  /** The mismatched open/close error is unreachable, and the stack height is opens minus closes. */
  lemma {:induction false} NeverUnderflows(rs: seq<Rec>, cs: seq<Cond>, i: nat)
    requires SortedRecordsOf(rs, cs) && i <= |rs|
    ensures Run(rs[..i]).Some?
    ensures |Run(rs[..i]).value| == Count(rs[..i], Opens()) - Count(rs[..i], Closes())
  {
    if i > 0 {
      NeverUnderflows(rs, cs, i - 1);
      RunStep(rs, i - 1);
      CountStep(rs, i - 1, Opens());
      CountStep(rs, i - 1, Closes());
      if !rs[i - 1].open { MoreOpensThanCloses(rs, cs, i - 1); }
    }
  }

  /** Between two keys the stack is as high as the number of intervals that contain the event: for arbitrary masks. */
  lemma HeightIsCoverCount(rs: seq<Rec>, cs: seq<Cond>, p: nat, e: uint64)
    requires SortedRecordsOf(rs, cs) && Boundary(rs, p, e)
    ensures Run(rs[..p]).Some?
    ensures |Run(rs[..p]).value| == Count(cs, Covering(e))
  {
    NeverUnderflows(rs, cs, p);
    CountSame(rs[..p], Opens(), OpensUpTo(e));
    CountPrefix(rs, p, OpensUpTo(e));
    CountOpensUpTo(rs, cs, e);
    CountSame(rs[..p], Closes(), ClosesUpTo(e));
    CountPrefix(rs, p, ClosesUpTo(e));
    CountClosesUpTo(rs, cs, e);
    CountBetween(cs, e);
  }

  lemma {:induction false} CountBetween(cs: seq<Cond>, e: uint64)
    ensures Count(cs, Covering(e)) == Count(cs, StartsBy(e)) - Count(cs, EndsBefore(e))
  {
    if cs != [] { CountBetween(cs[..|cs| - 1], e); }
  }

  // ----- laminar intervals: every close pops a record that ends there

  /** Any two open records are nested or disjoint. */
  ghost predicate Laminar(rs: seq<Rec>) {
    forall i, j :: 0 <= i < |rs| && 0 <= j < |rs| && rs[i].open && rs[j].open && rs[i].key < rs[j].key <= rs[i].subkey
      ==> rs[j].subkey <= rs[i].subkey
  }

  lemma PrefixRecordsLaminar(rs: seq<Rec>, cs: seq<Cond>)
    requires SortedRecordsOf(rs, cs) && AllPrefix(cs)
    ensures Laminar(rs)
  {
    forall i, j | 0 <= i < |rs| && 0 <= j < |rs| && rs[i].open && rs[j].open && rs[i].key < rs[j].key <= rs[i].subkey
      ensures rs[j].subkey <= rs[i].subkey
    {
      var a := RecordsAre(rs, cs, i);
      var b := RecordsAre(rs, cs, j);
      PrefixIntervalsLaminar(a, b);
    }
  }

  /** What holds of the stack st after the first i records. */
  ghost predicate StackInv(rs: seq<Rec>, i: nat, st: seq<Rec>)
    requires i <= |rs|
  {
    && multiset(st) <= multiset(Filter(rs[..i], Opens()))
    && (forall a, b :: 0 <= a < b < |st| ==> st[a].subkey <= st[b].subkey)
    && (forall h: nat :: h < U64_MAX ==>
          Count(st, EndsAt(h)) == Count(rs[..i], OpensTo(h)) - Count(rs[..i], ClosesAfter(h)))
  }

  lemma StackElements(rs: seq<Rec>, i: nat, st: seq<Rec>, a: nat) returns (j: nat)
    requires i <= |rs| && StackInv(rs, i, st) && a < |st|
    ensures j < i && rs[j] == st[a] && rs[j].open
  {
    assert st[a] in multiset(st);
    assert st[a] in multiset(Filter(rs[..i], Opens()));
    j := FilterMember(rs[..i], Opens(), st[a]);
  }

  lemma {:induction false} FilterMember<T>(s: seq<T>, p: T -> bool, x: T) returns (j: nat)
    requires x in Filter(s, p)
    ensures j < |s| && s[j] == x && p(x)
  {
    if p(s[|s| - 1]) && s[|s| - 1] == x { j := |s| - 1; } else { j := FilterMember(s[..|s| - 1], p, x); }
  }

  /** Whatever is on the stack has its close still to come. */
  lemma CloseAhead(rs: seq<Rec>, cs: seq<Cond>, i: nat, st: seq<Rec>, a: nat) returns (j: nat)
    requires SortedRecordsOf(rs, cs) && i <= |rs| && StackInv(rs, i, st) && a < |st|
    requires st[a].subkey < U64_MAX
    ensures i <= j < |rs| && !rs[j].open && rs[j].key == st[a].subkey + 1
  {
    var h := st[a].subkey;
    OpensMatchCloses(rs, cs, h);
    CountSplit(rs, i, ClosesAfter(h));
    CountSplit(rs, i, OpensTo(h));
    CountSome(st, EndsAt(h), a);
    j := CountWitness(rs[i..], ClosesAfter(h));
    j := i + j;
  }

  lemma PushNests(rs: seq<Rec>, cs: seq<Cond>, i: nat, st: seq<Rec>)
    requires SortedRecordsOf(rs, cs) && Laminar(rs) && i < |rs| && StackInv(rs, i, st) && rs[i].open
    ensures st != [] ==> rs[i].subkey <= st[0].subkey
  {
    if st != [] {
      var j := StackElements(rs, i, st, 0);
      SortedKeys(rs, j, i);
      assert !Less(rs[i], rs[j]);
      if st[0].subkey < rs[i].key {
        var j' := CloseAhead(rs, cs, i, st, 0);
      }
    }
  }

  lemma CountCons(r: Rec, st: seq<Rec>, p: Rec -> bool)
    ensures Count([r] + st, p) == (if p(r) then 1 else 0) + Count(st, p)
  {
    CountConcat([r], st, p);
    assert [r][..0] == [];
    assert Count([r], p) == if p(r) then 1 else 0;
  }

  lemma OpensStep(rs: seq<Rec>, i: nat)
    requires i < |rs|
    ensures Filter(rs[..i + 1], Opens()) == Filter(rs[..i], Opens()) + if rs[i].open then [rs[i]] else []
  {
    assert rs[..i + 1][..i] == rs[..i];
  }

  lemma PushKeepsInv(rs: seq<Rec>, cs: seq<Cond>, i: nat, st: seq<Rec>)
    requires SortedRecordsOf(rs, cs) && Laminar(rs) && i < |rs| && StackInv(rs, i, st) && rs[i].open
    ensures StackInv(rs, i + 1, [rs[i]] + st)
  {
    var r, st' := rs[i], [rs[i]] + st;
    OpensStep(rs, i);
    assert multiset(st') == multiset{r} + multiset(st);
    PushNests(rs, cs, i, st);
    forall h: nat | h < U64_MAX
      ensures Count(st', EndsAt(h)) == Count(rs[..i + 1], OpensTo(h)) - Count(rs[..i + 1], ClosesAfter(h))
    {
      CountCons(r, st, EndsAt(h));
      CountStep(rs, i, OpensTo(h));
      CountStep(rs, i, ClosesAfter(h));
    }
  }

  /** The record on top is one whose interval ends where the close record says. */
  lemma TopEndsHere(rs: seq<Rec>, cs: seq<Cond>, i: nat, st: seq<Rec>)
    requires SortedRecordsOf(rs, cs) && i < |rs| && StackInv(rs, i, st) && !rs[i].open
    ensures st != [] && st[0].subkey == rs[i].key - 1
  {
    var k: int := rs[i].key;
    var c := RecordsAre(rs, cs, i);
    var h := k - 1;
    OpensMatchCloses(rs, cs, h);
    CountSplit(rs, i + 1, ClosesAfter(h));
    CountStep(rs, i, ClosesAfter(h));
    forall j | i <= j < |rs| ensures !OpensTo(h)(rs[j]) {
      SortedKeys(rs, i, j);
      var d := RecordsAre(rs, cs, j);
    }
    CountPrefix(rs, i, OpensTo(h));
    var b := CountWitness(st, EndsAt(h));
    if st[0].subkey < h {
      var j := CloseAhead(rs, cs, i, st, 0);
      SortedKeys(rs, i, j);
    }
  }

  lemma PopKeepsInv(rs: seq<Rec>, cs: seq<Cond>, i: nat, st: seq<Rec>)
    requires SortedRecordsOf(rs, cs) && i < |rs| && StackInv(rs, i, st) && !rs[i].open
    ensures st != [] && StackInv(rs, i + 1, st[1..])
  {
    TopEndsHere(rs, cs, i, st);
    OpensStep(rs, i);
    assert st == [st[0]] + st[1..];
    assert multiset(st) == multiset{st[0]} + multiset(st[1..]);
    forall h: nat | h < U64_MAX
      ensures Count(st[1..], EndsAt(h)) == Count(rs[..i + 1], OpensTo(h)) - Count(rs[..i + 1], ClosesAfter(h))
    {
      CountCons(st[0], st[1..], EndsAt(h));
      CountStep(rs, i, OpensTo(h));
      CountStep(rs, i, ClosesAfter(h));
    }
  }

  lemma {:induction false} StackInvHolds(rs: seq<Rec>, cs: seq<Cond>, i: nat)
    requires SortedRecordsOf(rs, cs) && Laminar(rs) && i <= |rs|
    ensures Run(rs[..i]).Some? && StackInv(rs, i, Run(rs[..i]).value)
  {
    if i > 0 {
      StackInvHolds(rs, cs, i - 1);
      RunStep(rs, i - 1);
      var st := Run(rs[..i - 1]).value;
      if rs[i - 1].open {
        PushKeepsInv(rs, cs, i - 1, st);
      } else {
        PopKeepsInv(rs, cs, i - 1, st);
      }
    }
  }

  /** Between two keys, the stack holds exactly the open records of the conditions that cover the event. */
  lemma StackIsCover(rs: seq<Rec>, cs: seq<Cond>, p: nat, e: uint64)
    requires SortedRecordsOf(rs, cs) && Laminar(rs) && Boundary(rs, p, e)
    ensures Run(rs[..p]).Some?
    ensures multiset(Run(rs[..p]).value) == multiset(Map(Filter(cs, Covering(e)), OpenRec))
  {
    StackInvHolds(rs, cs, p);
    var st := Run(rs[..p]).value;
    var cover := OpenAt(e);
    var f := Filter(rs, cover);
    forall a | 0 <= a < |st| ensures cover(st[a]) {
      var j := StackElements(rs, p, st, a);
      if st[a].subkey < e { var j' := CloseAhead(rs, cs, p, st, a); }
    }
    assert multiset(st) <= multiset(f) by {
      KeepCovering(st, rs[..p], cover);
      FilterPrefix(rs, p, cover);
    }
    HeightIsCoverCount(rs, cs, p, e);
    FilterPerm(rs, RecordsOf(cs), cover);
    FilterRecords(cs, e);
    FilterLength(cs, Covering(e));
    assert |f| == |multiset(f)| == |multiset(Filter(RecordsOf(cs), cover))| == |Filter(RecordsOf(cs), cover)|;
    SubmultisetOfSameSize(st, f);
  }

  lemma KeepCovering(st: seq<Rec>, s: seq<Rec>, cover: Rec -> bool)
    requires multiset(st) <= multiset(Filter(s, Opens()))
    requires forall a :: 0 <= a < |st| ==> cover(st[a])
    requires forall r :: cover(r) ==> r.open
    ensures multiset(st) <= multiset(Filter(s, cover))
  {
    forall x: Rec ensures multiset(st)[x] <= multiset(Filter(s, cover))[x] {
      if x in st {
        FilterMultiplicity(s, Opens(), x);
        FilterMultiplicity(s, cover, x);
      }
    }
  }

  lemma {:induction false} FilterMultiplicity(s: seq<Rec>, p: Rec -> bool, x: Rec)
    ensures multiset(Filter(s, p))[x] == if p(x) then multiset(s)[x] else 0
  {
    if s != [] {
      assert s == s[..|s| - 1] + [s[|s| - 1]];
      FilterMultiplicity(s[..|s| - 1], p, x);
    }
  }
}
