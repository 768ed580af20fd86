/** The translation of sorted records into a search table and a walker table of shared lists. */
module EcaCompiler {
  import opened Basics
  import opened Bits
  import opened Counting
  import opened EcaConditions
  import opened EcaStack

  /** next and index are int16_t in the source; -1 ends a list. */
  datatype WalkEntry = WalkEntry(next: int, act: Action)
  datatype SearchEntry = SearchEntry(event: uint64, index: int)

  /** Conversion to int16_t. */
  function ToInt16(n: int): int {
    (n + 0x8000) % 0x1_0000 - 0x8000
  }

  // ----- sorting, as std::sort promises it

  function Insert(r: Rec, rs: seq<Rec>): seq<Rec> {
    if rs == [] then [r]
    else if Less(r, rs[0]) then [r] + rs
    else [rs[0]] + Insert(r, rs[1..])
  }

  lemma {:induction false} InsertSorts(r: Rec, rs: seq<Rec>)
    requires Sorted(rs)
    ensures Sorted(Insert(r, rs)) && multiset(Insert(r, rs)) == multiset{r} + multiset(rs)
  {
    if rs != [] {
      assert rs == [rs[0]] + rs[1..];
      if Less(r, rs[0]) {
        SortedCons(r, rs);
      } else {
        InsertSorts(r, rs[1..]);
        var tail := Insert(r, rs[1..]);
        forall x | x in tail ensures !Less(x, rs[0]) {
          assert x in multiset(tail);
          assert x == r || x in rs[1..];
        }
        SortedCons(rs[0], tail);
      }
    }
  }

  lemma SortedCons(r: Rec, rs: seq<Rec>)
    requires Sorted(rs)
    requires (rs != [] && Less(r, rs[0])) || (forall x :: x in rs ==> !Less(x, r))
    ensures Sorted([r] + rs)
  {
    forall j | 0 <= j < |rs| ensures !Less(rs[j], r) { assert j > 0 ==> !Less(rs[j], rs[0]); }
  }

  function Sort(rs: seq<Rec>): (out: seq<Rec>)
    ensures Sorted(out) && multiset(out) == multiset(rs)
  {
    if rs == [] then []
    else
      assert rs == [rs[0]] + rs[1..];
      InsertSorts(rs[0], Sort(rs[1..]));
      Insert(rs[0], Sort(rs[1..]))
  }

  // ----- shared lists in the walker table

  ghost predicate LinksDescend(walk: seq<WalkEntry>) {
    forall j :: 0 <= j < |walk| ==> -1 <= walk[j].next < j
  }

  /** The actions found by following next from entry i; -1 is the end of the list. */
  ghost function Chain(walk: seq<WalkEntry>, i: int): seq<Action>
    requires LinksDescend(walk) && -1 <= i < |walk|
    decreases i + 1
  {
    if i == -1 then [] else [walk[i].act] + Chain(walk, walk[i].next)
  }

  /** Appending to the walker table leaves every list that starts below it unchanged. */
  lemma {:induction false} ChainStable(walk: seq<WalkEntry>, w: WalkEntry, i: int)
    requires LinksDescend(walk) && -1 <= i < |walk| && -1 <= w.next < |walk|
    ensures LinksDescend(walk + [w]) && Chain(walk + [w], i) == Chain(walk, i)
    decreases i + 1
  {
    if i >= 0 { ChainStable(walk, w, walk[i].next); }
  }

  function ActOf(): Rec -> Action { (r: Rec) => r.act }

  function Acts(st: seq<Rec>): seq<Action> {
    Map(st, ActOf())
  }

  /** Search entry se describes the stack at record position p. */
  ghost predicate EntryAt(rs: seq<Rec>, walk: seq<WalkEntry>, se: SearchEntry, p: int)
    requires LinksDescend(walk)
  {
    && p >= 0
    && Boundary(rs, p, se.event)
    && -1 <= se.index < |walk|
    && Run(rs[..p]).Some?
    && Chain(walk, se.index) == Acts(Run(rs[..p]).value)
  }

  ghost predicate EventsIncrease(search: seq<SearchEntry>) {
    forall i, j :: 0 <= i < j < |search| ==> search[i].event < search[j].event
  }

  /** Entry j of the search table describes the stack at record position pos[j]. */
  ghost predicate Entries(rs: seq<Rec>, walk: seq<WalkEntry>, search: seq<SearchEntry>, pos: seq<int>) {
    && LinksDescend(walk)
    && |pos| == |search|
    && (forall j :: 0 <= j < |search| ==> EntryAt(rs, walk, search[j], pos[j]))
  }

  /** Every key among the first i records has its search entry. */
  ghost predicate KeysFound(rs: seq<Rec>, i: nat, search: seq<SearchEntry>)
    requires i <= |rs|
  {
    forall k :: 0 <= k < i ==> exists j :: 0 <= j < |search| && search[j].event == rs[k].key
  }

  /** The tables describe the record list rs. */
  ghost predicate TablesOf(rs: seq<Rec>, search: seq<SearchEntry>, walk: seq<WalkEntry>) {
    && LinksDescend(walk)
    && |walk| == Count(rs, Opens())
    && 1 <= |search| <= |rs| + 1
    && search[0].event == 0
    && EventsIncrease(search)
    && (exists pos :: Entries(rs, walk, search, pos))
    && KeysFound(rs, |rs|, search)
  }

  lemma EntryStable(rs: seq<Rec>, walk: seq<WalkEntry>, w: WalkEntry, search: seq<SearchEntry>, pos: seq<int>)
    requires LinksDescend(walk) && -1 <= w.next < |walk| && |pos| == |search|
    requires forall j :: 0 <= j < |search| ==> EntryAt(rs, walk, search[j], pos[j])
    ensures LinksDescend(walk + [w])
    ensures forall j :: 0 <= j < |search| ==> EntryAt(rs, walk + [w], search[j], pos[j])
  {
    forall j | 0 <= j < |search| ensures EntryAt(rs, walk + [w], search[j], pos[j]) {
      ChainStable(walk, w, search[j].index);
    }
    ChainStable(walk, w, -1);
  }

  lemma ActsPush(r: Rec, st: seq<Rec>)
    ensures Acts([r] + st) == [r.act] + Acts(st)
  {
  }

  lemma ActsPop(st: seq<Rec>)
    requires st != []
    ensures Acts(st) == [st[0].act] + Acts(st[1..])
  {
    assert st == [st[0]] + st[1..];
  }

  lemma {:induction false} RunFails(rs: seq<Rec>, i: nat)
    requires i <= |rs| && Run(rs[..i]).None?
    ensures Run(rs).None?
    decreases |rs| - i
  {
    if i < |rs| {
      RunStep(rs, i);
      RunFails(rs, i + 1);
    } else {
      assert rs[..i] == rs;
    }
  }

  lemma KeysFrom(rs: seq<Rec>, i: nat)
    requires Sorted(rs) && i < |rs|
    ensures forall j :: 0 <= j < i ==> rs[j].key <= rs[i].key
    ensures forall j :: i <= j < |rs| ==> rs[i].key <= rs[j].key
  {
    forall j | 0 <= j < |rs| ensures if j < i then rs[j].key <= rs[i].key else rs[i].key <= rs[j].key {
      if j < i { SortedKeys(rs, j, i); } else { SortedKeys(rs, i, j); }
    }
  }

  /** After i records: next heads the list of the stack st. */
  ghost predicate Heads(rs: seq<Rec>, i: nat, walk: seq<WalkEntry>, next: int, st: seq<Rec>) {
    && i <= |rs|
    && LinksDescend(walk)
    && -1 <= next < |walk| == Count(rs[..i], Opens())
    && Run(rs[..i]) == Some(st)
    && Chain(walk, next) == Acts(st)
  }

  lemma PopStep(rs: seq<Rec>, i: nat, walk: seq<WalkEntry>, next: int, st: seq<Rec>)
    requires i < |rs| && !rs[i].open && Heads(rs, i, walk, next, st)
    ensures next == -1 ==> Run(rs).None?
    ensures next != -1 ==> st != [] && Heads(rs, i + 1, walk, walk[next].next, st[1..])
  {
    RunStep(rs, i);
    CountStep(rs, i, Opens());
    if next == -1 {
      assert |Acts(st)| == |st| == 0;
      RunFails(rs, i + 1);
    } else {
      assert |Acts(st)| == |st| > 0;
      ActsPop(st);
      assert Chain(walk, walk[next].next) == Chain(walk, next)[1..] == Acts(st)[1..] == Acts(st[1..]);
    }
  }

  lemma PushStep(rs: seq<Rec>, i: nat, walk: seq<WalkEntry>, next: int, st: seq<Rec>,
                 search: seq<SearchEntry>, pos: seq<int>)
    requires i < |rs| && rs[i].open && Heads(rs, i, walk, next, st) && Entries(rs, walk, search, pos)
    ensures Heads(rs, i + 1, walk + [WalkEntry(next, rs[i].act)], |walk|, [rs[i]] + st)
    ensures Entries(rs, walk + [WalkEntry(next, rs[i].act)], search, pos)
    ensures |walk| < Count(rs, Opens())
  {
    var w := WalkEntry(next, rs[i].act);
    RunStep(rs, i);
    CountStep(rs, i, Opens());
    CountSplit(rs, i + 1, Opens());
    ActsPush(rs[i], st);
    ChainStable(walk, w, next);
    assert Chain(walk + [w], |walk|) == [w.act] + Chain(walk + [w], next);
    EntryStable(rs, walk, w, search, pos);
  }

  /** The inner loop over the closes at one key. */
  method PopCloses(rs: seq<Rec>, i: nat, walk: seq<WalkEntry>, next: int, ghost st: seq<Rec>)
    returns (ok: bool, i': nat, next': int, ghost st': seq<Rec>)
    requires i < |rs| && Heads(rs, i, walk, next, st)
    ensures !ok ==> Run(rs).None?
    ensures ok ==> i <= i' <= |rs| && Heads(rs, i', walk, next', st')
    ensures ok ==> forall k :: i <= k < i' ==> rs[k].key == rs[i].key
    ensures ok ==> i' == |rs| || rs[i'].key != rs[i].key || rs[i'].open
  {
    i', next', st' := i, next, st;
    var cursor := rs[i].key;
    while i' < |rs| && cursor == rs[i'].key && !rs[i'].open
      invariant i <= i' <= |rs| && Heads(rs, i', walk, next', st')
      invariant forall k :: i <= k < i' ==> rs[k].key == cursor
    {
      PopStep(rs, i', walk, next', st');
      if next' == -1 {
        return false, i', next', st';
      }
      next' := walk[next'].next;
      st' := st'[1..];
      i' := i' + 1;
    }
    ok := true;
  }

  /** The inner loop over the opens at one key. */
  method PushOpens(rs: seq<Rec>, cursor: uint64, i: nat, walk: seq<WalkEntry>, next: int, ghost st: seq<Rec>,
                   ghost search: seq<SearchEntry>, ghost pos: seq<int>)
    returns (i': nat, walk': seq<WalkEntry>, next': int, ghost st': seq<Rec>)
    requires Sorted(rs) && Count(rs, Opens()) <= 0x8000
    requires i <= |rs| && Heads(rs, i, walk, next, st) && Entries(rs, walk, search, pos)
    requires i == |rs| || rs[i].key != cursor || rs[i].open
    ensures i <= i' <= |rs| && Heads(rs, i', walk', next', st') && Entries(rs, walk', search, pos)
    ensures forall k :: i <= k < i' ==> rs[k].key == cursor
    ensures i < |rs| && rs[i].key == cursor ==> i' > i
    ensures i' == |rs| || rs[i'].key != cursor
  {
    hide Heads, Entries, Count;
    i', walk', next', st' := i, walk, next, st;
    while i' < |rs| && cursor == rs[i'].key && rs[i'].open
      invariant i <= i' <= |rs| && Heads(rs, i', walk', next', st') && Entries(rs, walk', search, pos)
      invariant forall k :: i <= k < i' ==> rs[k].key == cursor
      invariant i' == i || rs[i' - 1].open
    {
      PushStep(rs, i', walk', next', st', search, pos);
      walk' := walk' + [WalkEntry(next', rs[i'].act)];
      next' := ToInt16(|walk'| - 1);
      st' := [rs[i']] + st';
      i' := i' + 1;
    }
    if i' < |rs| && i' > i { assert !Less(rs[i'], rs[i' - 1]); }
  }

  ghost predicate SearchInv(rs: seq<Rec>, i: nat, search: seq<SearchEntry>) {
    && i <= |rs|
    && |search| <= i + 1
    && EventsIncrease(search)
    && (if search == [] then i == 0 && rs != [] && rs[0].key == 0 else search[0].event == 0)
    && (i < |rs| ==> forall j :: 0 <= j < |search| ==> search[j].event < rs[i].key)
    && KeysFound(rs, i, search)
  }

  lemma SearchStep(rs: seq<Rec>, start: nat, i: nat, search: seq<SearchEntry>, se: SearchEntry)
    requires Sorted(rs) && start < i <= |rs| && SearchInv(rs, start, search)
    requires forall k :: start <= k < i ==> rs[k].key == se.event
    requires i < |rs| ==> rs[i].key != se.event
    ensures SearchInv(rs, i, search + [se]) && Boundary(rs, i, se.event)
  {
    var search' := search + [se];
    if i < |rs| { SortedKeys(rs, start, i); KeysFrom(rs, i); }
    KeysFrom(rs, start);
    forall k | 0 <= k < i ensures exists j :: 0 <= j < |search'| && search'[j].event == rs[k].key {
      if k < start {
        var j :| 0 <= j < |search| && search[j].event == rs[k].key;
        assert search'[j].event == rs[k].key;
      } else {
        assert search'[|search|].event == rs[k].key;
      }
    }
  }

  lemma AppendEntry(rs: seq<Rec>, start: nat, i: nat, walk: seq<WalkEntry>, next: int, st: seq<Rec>,
                    search: seq<SearchEntry>, pos: seq<int>, se: SearchEntry)
    requires Sorted(rs) && start < i <= |rs| && SearchInv(rs, start, search)
    requires forall k :: start <= k < i ==> rs[k].key == se.event
    requires i < |rs| ==> rs[i].key != se.event
    requires Heads(rs, i, walk, next, st) && Entries(rs, walk, search, pos) && se.index == next
    ensures SearchInv(rs, i, search + [se]) && Entries(rs, walk, search + [se], pos + [i])
  {
    SearchStep(rs, start, i, search, se);
    assert EntryAt(rs, walk, se, i);
  }

  lemma FirstEntry(rs: seq<Rec>)
    requires Sorted(rs) && (rs == [] || rs[0].key != 0)
    ensures Entries(rs, [], [SearchEntry(0, -1)], [0]) && SearchInv(rs, 0, [SearchEntry(0, -1)])
  {
    if rs != [] { KeysFrom(rs, 0); }
    assert EntryAt(rs, [], SearchEntry(0, -1), 0);
  }

  /** The tables built from the first i records. */
  ghost predicate Progress(rs: seq<Rec>, i: nat, walk: seq<WalkEntry>, next: int, search: seq<SearchEntry>) {
    exists st, pos ::
      Heads(rs, i, walk, next, st) && Entries(rs, walk, search, pos) && SearchInv(rs, i, search)
  }

  lemma StartProgress(rs: seq<Rec>)
    requires Sorted(rs)
    ensures rs == [] || rs[0].key != 0 ==> Progress(rs, 0, [], -1, [SearchEntry(0, -1)])
    ensures rs != [] && rs[0].key == 0 ==> Progress(rs, 0, [], -1, [])
  {
    assert Heads(rs, 0, [], -1, []);
    if rs == [] || rs[0].key != 0 {
      FirstEntry(rs);
    } else {
      assert Entries(rs, [], [], []) && SearchInv(rs, 0, []);
    }
  }

  lemma TablesDone(rs: seq<Rec>, walk: seq<WalkEntry>, next: int, search: seq<SearchEntry>)
    requires Progress(rs, |rs|, walk, next, search)
    ensures Run(rs).Some? && TablesOf(rs, search, walk)
  {
    assert rs[..|rs|] == rs;
  }

  /** One pass of the main loop: all records at one key, and the search entry for that key. */
  method CompileKey(rs: seq<Rec>, start: nat, walk: seq<WalkEntry>, next: int, ghost search: seq<SearchEntry>)
    returns (ok: bool, se: SearchEntry, i: nat, walk': seq<WalkEntry>, next': int)
    requires Sorted(rs) && Count(rs, Opens()) <= 0x8000 && start < |rs|
    requires Progress(rs, start, walk, next, search)
    ensures !ok ==> Run(rs).None?
    ensures ok ==> start < i <= |rs| && Progress(rs, i, walk', next', search + [se])
  {
    hide Heads, Entries, SearchInv, Count, Run;
    ghost var st, pos :|
      Heads(rs, start, walk, next, st) && Entries(rs, walk, search, pos) && SearchInv(rs, start, search);
    var cursor := rs[start].key;
    walk', se := walk, SearchEntry(cursor, -1);
    ok, i, next', st := PopCloses(rs, start, walk, next, st);
    if !ok { return; }
    i, walk', next', st := PushOpens(rs, cursor, i, walk', next', st, search, pos);
    se := SearchEntry(cursor, next');
    AppendEntry(rs, start, i, walk', next', st, search, pos, se);
  }

  /**
    The main loop of the compiler. It fails (the mismatched open/close error) exactly if some close finds the
    stack empty. Otherwise the tables describe the stack between any two keys.
   */
  method BuildTables(rs: seq<Rec>) returns (ok: bool, search: seq<SearchEntry>, walk: seq<WalkEntry>)
    requires Sorted(rs) && Count(rs, Opens()) <= 0x8000
    ensures ok <==> Run(rs).Some?
    ensures ok ==> TablesOf(rs, search, walk)
  {
    search, walk := [], [];
    var next := -1;
    var i := 0;
    StartProgress(rs);
    if rs == [] || rs[0].key != 0 {
      search := [SearchEntry(0, next)];
    }
    while i < |rs|
      invariant i <= |rs| && Progress(rs, i, walk, next, search)
    {
      var se;
      ok, se, i, walk, next := CompileKey(rs, i, walk, next, search);
      if !ok { return; }
      search := search + [se];
    }
    ok := true;
    TablesDone(rs, walk, next, search);
  }

  // ----- what the tables mean

  /** Entry k is the last one whose event is at most e. */
  ghost predicate IsLookup(search: seq<SearchEntry>, e: uint64, k: nat) {
    && k < |search|
    && search[k].event <= e
    && (forall j :: k < j < |search| ==> search[j].event > e)
  }

  /** No record has its key between the entry found for an event and the event. */
  lemma LookupBoundary(rs: seq<Rec>, search: seq<SearchEntry>, e: uint64, k: nat, p: nat)
    requires EventsIncrease(search) && KeysFound(rs, |rs|, search)
    requires IsLookup(search, e, k) && Boundary(rs, p, search[k].event)
    ensures Boundary(rs, p, e)
  {
    forall i | p <= i < |rs| ensures rs[i].key > e {
      var j :| 0 <= j < |search| && search[j].event == rs[i].key;
      assert search[j].event > search[k].event;
    }
  }

  /**
    Compilation preserves meaning. The list found for an event has one action per interval that contains the event,
    whatever the masks; and if every mask is a prefix, it holds exactly the actions of the matching conditions.
   */
  lemma TablesMeaning(cs: seq<Cond>, rs: seq<Rec>, search: seq<SearchEntry>, walk: seq<WalkEntry>, e: uint64, k: nat)
    requires SortedRecordsOf(rs, cs) && TablesOf(rs, search, walk) && IsLookup(search, e, k)
    ensures -1 <= search[k].index < |walk|
    ensures |Chain(walk, search[k].index)| == Count(cs, Covering(e))
    ensures AllPrefix(cs) ==> multiset(Chain(walk, search[k].index)) == multiset(Matching(cs, e))
  {
    var pos :| Entries(rs, walk, search, pos);
    var p: int := pos[k];
    assert EntryAt(rs, walk, search[k], p);
    LookupBoundary(rs, search, e, k, p);
    HeightIsCoverCount(rs, cs, p, e);
    if AllPrefix(cs) {
      var st := Run(rs[..p]).value;
      PrefixRecordsLaminar(rs, cs);
      StackIsCover(rs, cs, p, e);
      MapPerm(st, Map(Filter(cs, Covering(e)), OpenRec), ActOf());
      CoveringIsMatching(cs, e);
    }
  }

  lemma {:induction false} FilterSame<T>(s: seq<T>, p: T -> bool, q: T -> bool)
    requires forall i :: 0 <= i < |s| ==> p(s[i]) == q(s[i])
    ensures Filter(s, p) == Filter(s, q)
  {
    if s != [] { FilterSame(s[..|s| - 1], p, q); }
  }

  lemma CoveringIsMatching(cs: seq<Cond>, e: uint64)
    requires AllPrefix(cs)
    ensures Map(Map(Filter(cs, Covering(e)), OpenRec), ActOf()) == Matching(cs, e)
  {
    var q := (c: Cond) => c.Matches(e);
    forall i | 0 <= i < |cs| ensures Covering(e)(cs[i]) == q(cs[i]) { CoversIsMatches(cs[i], e); }
    FilterSame(cs, Covering(e), q);
    var f := Filter(cs, q);
    forall i | 0 <= i < |f| ensures ActOf()(Map(f, OpenRec)[i]) == f[i].act { RecordFields(f[i]); }
    assert |Map(Map(f, OpenRec), ActOf())| == |Matching(cs, e)|;
  }
}
