/**
  The event-condition-action unit as its register map describes it: two pages of tables, of which the active one is
  executed and the other one is written through select and scratch registers, and a register that flips them.
 */
module EcaDevice {
  import opened Basics
  import opened Bits
  import opened Counting
  import opened EcaConditions
  import opened EcaStack
  import opened EcaCompiler

  const END_OF_LIST: uint16 := 0xFFFF

  const FLIP_ACTIVE := 0x14
  const SEARCH_SELECT := 0x20
  const SEARCH_FIRST := 0x24
  const SEARCH_EVENT_HI := 0x28
  const SEARCH_EVENT_LO := 0x2c
  const SEARCH_WRITE := 0x30
  const WALKER_SELECT := 0x40
  const WALKER_NEXT := 0x44
  const WALKER_OFFSET_HI := 0x48
  const WALKER_OFFSET_LO := 0x4c
  const WALKER_TAG := 0x50
  const WALKER_FLAGS := 0x54
  const WALKER_CHANNEL := 0x58
  const WALKER_NUM := 0x5c
  const WALKER_WRITE := 0x60

  datatype SearchRow = SearchRow(first: uint16, event: uint64)
  datatype WalkerRow = WalkerRow(next: uint16, offset: uint64, tag: uint32, flags: uint4, channel: uint8, num: uint8)
  datatype Page = Page(search: seq<SearchRow>, walker: seq<WalkerRow>)

  datatype Scratch = Scratch(searchSelect: uint16, first: uint16, eventHi: uint32, eventLo: uint32,
                             walkerSelect: uint16, next: uint16, offsetHi: uint32, offsetLo: uint32, tag: uint32,
                             flags: uint4, channel: uint8, num: uint8)

  datatype State = State(active: Page, inactive: Page, scratch: Scratch)

  function Join(hi: uint32, lo: uint32): uint64 {
    hi * 0x1_0000_0000 + lo
  }

  /**
    The register map does not say what writing a row does that the table does not have: any page of the same sizes may
    result.
   */
  function Stray(page: Page, stray: Page): (p: Page)
    ensures |p.search| == |page.search| && |p.walker| == |page.walker|
  {
    if |stray.search| == |page.search| && |stray.walker| == |page.walker| then stray else page
  }

  /** The effect of one register write; stray is what becomes of the inactive page if there is no such row. */
  function Step(s: State, addr: nat, data: uint32, stray: Page): State {
    var r := s.scratch;
    if addr == FLIP_ACTIVE then s.(active := s.inactive, inactive := s.active)
    else if addr == SEARCH_SELECT then s.(scratch := r.(searchSelect := data % 0x1_0000))
    else if addr == SEARCH_FIRST then s.(scratch := r.(first := data % 0x1_0000))
    else if addr == SEARCH_EVENT_HI then s.(scratch := r.(eventHi := data))
    else if addr == SEARCH_EVENT_LO then s.(scratch := r.(eventLo := data))
    else if addr == SEARCH_WRITE then
      if r.searchSelect < |s.inactive.search| then
        s.(inactive := s.inactive.(search := s.inactive.search[r.searchSelect :=
          SearchRow(r.first, Join(r.eventHi, r.eventLo))]))
      else s.(inactive := Stray(s.inactive, stray))
    else if addr == WALKER_SELECT then s.(scratch := r.(walkerSelect := data % 0x1_0000))
    else if addr == WALKER_NEXT then s.(scratch := r.(next := data % 0x1_0000))
    else if addr == WALKER_OFFSET_HI then s.(scratch := r.(offsetHi := data))
    else if addr == WALKER_OFFSET_LO then s.(scratch := r.(offsetLo := data))
    else if addr == WALKER_TAG then s.(scratch := r.(tag := data))
    else if addr == WALKER_FLAGS then s.(scratch := r.(flags := data % 0x10))
    else if addr == WALKER_CHANNEL then s.(scratch := r.(channel := data % 0x100))
    else if addr == WALKER_NUM then s.(scratch := r.(num := data % 0x100))
    else if addr == WALKER_WRITE then
      if r.walkerSelect < |s.inactive.walker| then
        s.(inactive := s.inactive.(walker := s.inactive.walker[r.walkerSelect :=
          WalkerRow(r.next, Join(r.offsetHi, r.offsetLo), r.tag, r.flags, r.channel, r.num)]))
      else s.(inactive := Stray(s.inactive, stray))
    else s
  }

  /** Only the flip changes the page that is executed. */
  lemma OnlyFlipChangesActive(s: State, addr: nat, data: uint32, stray: Page)
    ensures addr != FLIP_ACTIVE ==> Step(s, addr, data, stray).active == s.active
    ensures addr == FLIP_ACTIVE ==> Step(s, addr, data, stray).active == s.inactive
  {
  }

  /** What the registers hold is what goes into the rows: the scratch registers, and the two pages. */
  lemma RegisterMap(s: State, data: uint32, stray: Page)
    ensures Step(s, FLIP_ACTIVE, data, stray) == s.(active := s.inactive, inactive := s.active)
    ensures Step(s, SEARCH_SELECT, data, stray).scratch == s.scratch.(searchSelect := data % 0x1_0000)
    ensures Step(s, SEARCH_FIRST, data, stray).scratch == s.scratch.(first := data % 0x1_0000)
    ensures Step(s, SEARCH_EVENT_HI, data, stray).scratch == s.scratch.(eventHi := data)
    ensures Step(s, SEARCH_EVENT_LO, data, stray).scratch == s.scratch.(eventLo := data)
    ensures Step(s, WALKER_SELECT, data, stray).scratch == s.scratch.(walkerSelect := data % 0x1_0000)
    ensures Step(s, WALKER_NEXT, data, stray).scratch == s.scratch.(next := data % 0x1_0000)
    ensures Step(s, WALKER_OFFSET_HI, data, stray).scratch == s.scratch.(offsetHi := data)
    ensures Step(s, WALKER_OFFSET_LO, data, stray).scratch == s.scratch.(offsetLo := data)
    ensures Step(s, WALKER_TAG, data, stray).scratch == s.scratch.(tag := data)
    ensures Step(s, WALKER_FLAGS, data, stray).scratch == s.scratch.(flags := data % 0x10)
    ensures Step(s, WALKER_CHANNEL, data, stray).scratch == s.scratch.(channel := data % 0x100)
    ensures Step(s, WALKER_NUM, data, stray).scratch == s.scratch.(num := data % 0x100)
    ensures s.scratch.searchSelect < |s.inactive.search| ==>
      var row := Step(s, SEARCH_WRITE, data, stray).inactive.search[s.scratch.searchSelect];
      row.first == s.scratch.first && row.event == s.scratch.eventHi * 0x1_0000_0000 + s.scratch.eventLo
    ensures s.scratch.walkerSelect < |s.inactive.walker| ==>
      var row := Step(s, WALKER_WRITE, data, stray).inactive.walker[s.scratch.walkerSelect];
      && row.next == s.scratch.next && row.offset == s.scratch.offsetHi * 0x1_0000_0000 + s.scratch.offsetLo
      && row.tag == s.scratch.tag && row.flags == s.scratch.flags
      && row.channel == s.scratch.channel && row.num == s.scratch.num
  {
  }

  // ----- what the hardware executes

  function ToUint64(x: int64): uint64 { if x < 0 then x + 0x1_0000_0000_0000_0000 else x }
  function ToInt64(u: uint64): int64 { if u >= 0x8000_0000_0000_0000 then u - 0x1_0000_0000_0000_0000 else u }
  function ToUint16(n: int): uint16 { n % 0x1_0000 }

  function RowAction(row: WalkerRow): Action {
    Action(ToInt64(row.offset), row.tag, row.flags, row.channel, row.num)
  }

  /** A row executes its fields, the offset as a signed number. */
  lemma RowExecutes(row: WalkerRow)
    ensures var a := RowAction(row);
      && a.tag == row.tag && a.flags == row.flags && a.channel == row.channel && a.num == row.num
      && (a.offset - row.offset) % 0x1_0000_0000_0000_0000 == 0
  {
    if row.offset >= 0x8000_0000_0000_0000 {
      assert RowAction(row).offset - row.offset == -1 * 0x1_0000_0000_0000_0000;
    }
  }

  /** Walking the list from first terminates and executes exactly the actions acts. */
  ghost predicate WalkIs(walker: seq<WalkerRow>, first: uint16, acts: seq<Action>)
    decreases |acts|
  {
    if acts == [] then first == END_OF_LIST
    else
      && first != END_OF_LIST
      && first < |walker|
      && RowAction(walker[first]) == acts[0]
      && WalkIs(walker, walker[first].next, acts[1..])
  }

  /** Row k is the last one of the search table whose event is at most e. */
  ghost predicate Selects(search: seq<SearchRow>, e: uint64, k: nat) {
    && k < |search|
    && search[k].event <= e
    && (forall j :: k < j < |search| ==> search[j].event > e)
  }

  /** Event e makes the hardware execute acts. */
  ghost predicate Executes(page: Page, e: uint64, acts: seq<Action>) {
    exists k: nat :: Selects(page.search, e, k) && WalkIs(page.walker, page.search[k].first, acts)
  }

  lemma {:induction false} WalkUnique(walker: seq<WalkerRow>, first: uint16, a: seq<Action>, b: seq<Action>)
    requires WalkIs(walker, first, a) && WalkIs(walker, first, b)
    ensures a == b
    decreases |a|
  {
    if a != [] && b != [] {
      WalkUnique(walker, walker[first].next, a[1..], b[1..]);
      assert a == [a[0]] + a[1..] && b == [b[0]] + b[1..];
    }
  }

  /** The reaction to an event is determined by the page. */
  lemma ExecutesUnique(page: Page, e: uint64, a: seq<Action>, b: seq<Action>)
    requires Executes(page, e, a) && Executes(page, e, b)
    ensures a == b
  {
    var k: nat :| Selects(page.search, e, k) && WalkIs(page.walker, page.search[k].first, a);
    var l: nat :| Selects(page.search, e, l) && WalkIs(page.walker, page.search[l].first, b);
    assert k == l;
    WalkUnique(page.walker, page.search[k].first, a, b);
  }

  /**
    For event e the hardware executes one action per condition whose interval contains the event, and if every mask
    is a prefix, exactly the actions of the matching conditions.
   */
  ghost predicate ReactsAs(page: Page, cs: seq<Cond>, e: uint64) {
    exists acts ::
      && Executes(page, e, acts)
      && |acts| == Count(cs, Covering(e))
      && (AllPrefix(cs) ==> multiset(acts) == multiset(Matching(cs, e)))
  }

  /** The page means the conditions cs. */
  ghost predicate Means(page: Page, cs: seq<Cond>) {
    forall e: uint64 :: ReactsAs(page, cs, e)
  }

  /** For every event the hardware executes exactly the actions of the matching conditions. */
  ghost predicate ReactsExactly(page: Page, cs: seq<Cond>) {
    forall e: uint64, acts :: Executes(page, e, acts) ==> multiset(acts) == multiset(Matching(cs, e))
  }

  /** A page that means some conditions reacts exactly as they do if and only if every mask is a prefix. */
  lemma ExactlyForPrefixMasks(page: Page, cs: seq<Cond>)
    requires Means(page, cs)
    ensures ReactsExactly(page, cs) <==> AllPrefix(cs)
  {
    if AllPrefix(cs) {
      forall e: uint64, acts | Executes(page, e, acts)
        ensures multiset(acts) == multiset(Matching(cs, e))
      {
        assert ReactsAs(page, cs, e);
        var b :| Executes(page, e, b) && multiset(b) == multiset(Matching(cs, e));
        ExecutesUnique(page, e, acts, b);
      }
    } else {
      var i :| 0 <= i < |cs| && !IsPrefixMask(cs[i].mask);
      var e := CoveredOnly(cs[i]);
      assert ReactsAs(page, cs, e);
      var acts :| Executes(page, e, acts) && |acts| == Count(cs, Covering(e));
      FewerMatchThanAreCovered(cs, e, i);
      assert |multiset(acts)| != |multiset(Matching(cs, e))|;
    }
  }

  lemma FewerMatchThanAreCovered(cs: seq<Cond>, e: uint64, i: nat)
    requires i < |cs| && cs[i].Covers(e) && !cs[i].Matches(e)
    ensures |Matching(cs, e)| < Count(cs, Covering(e))
  {
    var matching := (c: Cond) => c.Matches(e);
    FilterLength(cs, matching);
    forall j | 0 <= j < |cs| && matching(cs[j]) ensures Covering(e)(cs[j]) { MatchesIsCovered(cs[j], e); }
    CountMonoStrict(cs, matching, Covering(e), i);
  }

  // ----- rows written by the driver

  /** Entry i of the padded table: the last entry fills up the rest. */
  function Padded(search: seq<SearchEntry>, i: nat): SearchEntry
    requires search != []
  {
    if i < |search| then search[i] else search[|search| - 1]
  }

  function SearchRowOf(se: SearchEntry): SearchRow { SearchRow(ToUint16(se.index), se.event) }

  function WalkerRowOf(w: WalkEntry): WalkerRow {
    WalkerRow(ToUint16(w.next), ToUint64(w.act.offset), w.act.tag, w.act.flags, w.act.channel, w.act.num)
  }

  /** The page holds the padded search table, and the walker table followed by whatever was there before. */
  ghost predicate Holds(page: Page, search: seq<SearchEntry>, walk: seq<WalkEntry>) {
    && search != []
    && |search| <= |page.search|
    && |walk| <= |page.walker|
    && (forall i :: 0 <= i < |page.search| ==> page.search[i] == SearchRowOf(Padded(search, i)))
    && (forall i :: 0 <= i < |walk| ==> page.walker[i] == WalkerRowOf(walk[i]))
  }

  lemma {:induction false} WalkFollowsChain(page: Page, search: seq<SearchEntry>, walk: seq<WalkEntry>, i: int)
    requires Holds(page, search, walk) && LinksDescend(walk) && |walk| <= 0x8000 && -1 <= i < |walk|
    ensures WalkIs(page.walker, ToUint16(i), Chain(walk, i))
    decreases i + 1
  {
    if i >= 0 {
      WalkFollowsChain(page, search, walk, walk[i].next);
      assert Chain(walk, i)[1..] == Chain(walk, walk[i].next);
    }
  }

  /** Padding with the last entry leaves every lookup unchanged. */
  lemma PaddingKeepsLookup(page: Page, search: seq<SearchEntry>, walk: seq<WalkEntry>, e: uint64)
    returns (k: nat, row: nat)
    requires Holds(page, search, walk) && EventsIncrease(search) && search[0].event == 0
    ensures IsLookup(search, e, k) && Selects(page.search, e, row) && page.search[row] == SearchRowOf(search[k])
  {
    k := |search| - 1;
    while search[k].event > e
      invariant 0 <= k < |search|
      invariant forall j :: k < j < |search| ==> search[j].event > e
    {
      k := k - 1;
    }
    row := if k == |search| - 1 then |page.search| - 1 else k;
    forall j | row < j < |page.search| ensures page.search[j].event > e {
      assert page.search[j] == SearchRowOf(Padded(search, j));
    }
  }

  /** A page that holds the tables of the active conditions means these conditions, whatever stale entries remain. */
  lemma HoldsMeans(page: Page, cs: seq<Cond>, rs: seq<Rec>, search: seq<SearchEntry>, walk: seq<WalkEntry>)
    requires SortedRecordsOf(rs, cs) && TablesOf(rs, search, walk)
    requires Holds(page, search, walk) && |walk| <= 0x8000
    ensures Means(page, cs)
  {
    forall e: uint64 ensures ReactsAs(page, cs, e) {
      var k, row := PaddingKeepsLookup(page, search, walk, e);
      TablesMeaning(cs, rs, search, walk, e, k);
      WalkFollowsChain(page, search, walk, search[k].index);
      assert Executes(page, e, Chain(walk, search[k].index));
    }
  }

  // ----- the device behind the bus

  class Device {
    const searchSize: nat
    const walkerSize: nat
    /** What the k-th write leaves behind if it addresses a row that does not exist. */
    const strays: nat -> Page
    var writes: nat
    var state: State
    /** The page that was executed after each write so far. */
    ghost var trace: seq<Page>

    ghost predicate Valid()
      reads this
    {
      && |state.active.search| == |state.inactive.search| == searchSize <= 0xFFFF
      && |state.active.walker| == |state.inactive.walker| == walkerSize <= 0xFFFF
      && trace != []
      && trace[|trace| - 1] == state.active
    }

    /** Since the given length of the trace, page was executed after every write. */
    ghost predicate SteadySince(n: nat, page: Page)
      reads this
    {
      n <= |trace| && forall k :: n <= k < |trace| ==> trace[k] == page
    }

    /** Since trace was t0, the page was executed unchanged after every write but the last one, which switched it. */
    ghost predicate SwitchedOnce(t0: seq<Page>, page: Page)
      reads this
    {
      t0 < trace && forall k :: |t0| <= k < |trace| - 1 ==> trace[k] == page
    }

    /** As above, or nothing was written at all. */
    ghost predicate SwitchedAtMostOnce(t0: seq<Page>, page: Page)
      reads this
    {
      trace == t0 || SwitchedOnce(t0, page)
    }

    constructor (searchSize: nat, walkerSize: nat, strays: nat -> Page, initial: State)
      requires |initial.active.search| == |initial.inactive.search| == searchSize <= 0xFFFF
      requires |initial.active.walker| == |initial.inactive.walker| == walkerSize <= 0xFFFF
      ensures Valid() && state == initial && this.searchSize == searchSize && this.walkerSize == walkerSize
    {
      this.searchSize := searchSize;
      this.walkerSize := walkerSize;
      this.strays := strays;
      state, writes := initial, 0;
      trace := [initial.active];
    }

    method Write(addr: nat, data: uint32)
      requires Valid()
      modifies this
      ensures Valid() && state == Step(old(state), addr, data, strays(old(writes)))
      ensures addr != FLIP_ACTIVE ==> state.active == old(state.active)
      ensures addr == FLIP_ACTIVE ==> state.active == old(state.inactive)
      ensures trace == old(trace) + [state.active]
    {
      OnlyFlipChangesActive(state, addr, data, strays(writes));
      state := Step(state, addr, data, strays(writes));
      writes := writes + 1;
      trace := trace + [state.active];
    }

    /** The five writes that store one row of the search table. */
    method WriteSearch(i: nat, se: SearchEntry)
      requires Valid() && i < searchSize && -0x8000 <= se.index < 0x8000
      modifies this
      ensures Valid() && state.active == old(state.active)
      ensures state.inactive == old(state.inactive).(search := old(state.inactive.search)[i := SearchRowOf(se)])
      ensures old(trace) <= trace && SteadySince(|old(trace)|, old(state.active))
    {
      Write(SEARCH_SELECT, i);
      Write(SEARCH_FIRST, ToUint16(se.index));
      Write(SEARCH_EVENT_HI, se.event / 0x1_0000_0000);
      Write(SEARCH_EVENT_LO, se.event % 0x1_0000_0000);
      Write(SEARCH_WRITE, 1);
    }

    /** The first four of the nine writes that store one row of the walker table. */
    method SelectWalker(i: uint16, next: int, offset: int64)
      requires Valid()
      modifies this
      ensures Valid() && state.active == old(state.active) && state.inactive == old(state.inactive)
      ensures state.scratch == old(state.scratch).(walkerSelect := i, next := ToUint16(next),
        offsetHi := ToUint64(offset) / 0x1_0000_0000, offsetLo := ToUint64(offset) % 0x1_0000_0000)
      ensures old(trace) <= trace && SteadySince(|old(trace)|, old(state.active))
    {
      Write(WALKER_SELECT, i);
      Write(WALKER_NEXT, ToUint16(next));
      Write(WALKER_OFFSET_HI, ToUint64(offset) / 0x1_0000_0000);
      Write(WALKER_OFFSET_LO, ToUint64(offset) % 0x1_0000_0000);
    }

    /** The next four of them. */
    method SelectAction(act: Action)
      requires Valid()
      modifies this
      ensures Valid() && state.active == old(state.active) && state.inactive == old(state.inactive)
      ensures state.scratch ==
        old(state.scratch).(tag := act.tag, flags := act.flags, channel := act.channel, num := act.num)
      ensures old(trace) <= trace && SteadySince(|old(trace)|, old(state.active))
    {
      Write(WALKER_TAG, act.tag);
      Write(WALKER_FLAGS, act.flags);
      Write(WALKER_CHANNEL, act.channel);
      Write(WALKER_NUM, act.num);
    }

    /** The nine writes that store one row of the walker table, if the table has that row. */
    method WriteWalker(i: uint16, w: WalkEntry)
      requires Valid() && -0x8000 <= w.next < 0x8000
      modifies this
      ensures Valid() && state.active == old(state.active)
      ensures i < walkerSize ==>
        state.inactive == old(state.inactive).(walker := old(state.inactive.walker)[i := WalkerRowOf(w)])
      ensures old(trace) <= trace && SteadySince(|old(trace)|, old(state.active))
    {
      SelectWalker(i, w.next, w.act.offset);
      SelectAction(w.act);
      Write(WALKER_WRITE, 1);
    }

    /**
      The two writing loops of the compiler and the flip. The page in use is untouched by every write but the last
      one, after which the device executes the new tables, provided that the walker table is large enough for its list.
     */
    method Load(search: seq<SearchEntry>, walk: seq<WalkEntry>)
      requires Valid() && 1 <= |search| <= searchSize && |walk| <= 0x8000
      requires forall i :: 0 <= i < |search| ==> -1 <= search[i].index < |walk|
      requires LinksDescend(walk)
      modifies this
      ensures Valid() && (|walk| <= walkerSize ==> Holds(state.active, search, walk))
      ensures SwitchedOnce(old(trace), old(state.active))
    {
      for i := 0 to searchSize
        invariant Valid() && state.active == old(state.active)
        invariant old(trace) <= trace && SteadySince(|old(trace)|, old(state.active))
        invariant forall j :: 0 <= j < i ==> state.inactive.search[j] == SearchRowOf(Padded(search, j))
      {
        WriteSearch(i, Padded(search, i));
      }
      for i := 0 to |walk|
        invariant Valid() && state.active == old(state.active)
        invariant old(trace) <= trace && SteadySince(|old(trace)|, old(state.active))
        invariant |walk| <= walkerSize ==>
          forall j :: 0 <= j < searchSize ==> state.inactive.search[j] == SearchRowOf(Padded(search, j))
        invariant |walk| <= walkerSize ==> forall j :: 0 <= j < i ==> state.inactive.walker[j] == WalkerRowOf(walk[j])
      {
        WriteWalker(i, walk[i]);
      }
      Write(FLIP_ACTIVE, 1);
    }
  }
}
