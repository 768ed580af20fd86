/** Conditions, action sinks and the unit that compiles them: every change is a transaction on the hardware tables. */
module Eca {
  import opened Basics
  import opened Bits
  import opened Counting
  import opened EcaConditions
  import opened EcaStack
  import opened EcaCompiler
  import opened EcaDevice
  import opened EcaCapacity

  const ECA_LATE := 0
  const ECA_EARLY := 1
  const ECA_CONFLICT := 2
  const ECA_DELAYED := 3

  function Bit(b: bool, k: nat): nat { if b then Pow2(k) else 0 }

  /** The flags word of an action: one bit for each error that is accepted. */
  function Flags(late: bool, early: bool, conflict: bool, delayed: bool): (f: uint4) {
    (if late then 1 else 0) + (if early then 2 else 0) + (if conflict then 4 else 0) + (if delayed then 8 else 0)
  }

  /** The word is the bitwise disjunction of the shifted bits. */
  lemma FlagsAreOr(l: bool, e: bool, c: bool, d: bool)
    ensures Flags(l, e, c, d)
         == Or(Or(Or(Bit(l, ECA_LATE), Bit(e, ECA_EARLY)), Bit(c, ECA_CONFLICT)), Bit(d, ECA_DELAYED))
  {
    assert Pow2(0) == 1 && Pow2(1) == 2 && Pow2(2) == 4 && Pow2(3) == 8;
    var x := (if l then 1 else 0) + (if e then 2 else 0);
    OrAbove(Bit(l, 0), if e then 1 else 0, 1);
    OrAbove(x, if c then 1 else 0, 2);
    OrAbove(x + (if c then 4 else 0), if d then 1 else 0, 3);
  }

  predicate HasBit(x: nat, k: nat) { x / Pow2(k) % 2 == 1 }

  lemma FlagBits(l: bool, e: bool, c: bool, d: bool)
    ensures HasBit(Flags(l, e, c, d), ECA_LATE) <==> l
    ensures HasBit(Flags(l, e, c, d), ECA_EARLY) <==> e
    ensures HasBit(Flags(l, e, c, d), ECA_CONFLICT) <==> c
    ensures HasBit(Flags(l, e, c, d), ECA_DELAYED) <==> d
  {
    assert Pow2(0) == 1 && Pow2(1) == 2 && Pow2(2) == 4 && Pow2(3) == 8;
  }

  lemma OrAbove(low: nat, high: nat, k: nat)
    requires low < Pow2(k)
    ensures Or(low, Pow2(k) * high) == low + Pow2(k) * high
  {
    OrDisjoint(high, low, k);
    OrCommutes(low, Pow2(k) * high);
  }

  // ----- the conditions as values

  /** A condition as seen by the compiler, with its owner (-1 if it has none). */
  datatype View = MkView(active: bool, owner: int, cond: Cond)

  function WithID(v: View, id: uint64): View { v.(cond := v.cond.(id := id)) }
  function WithMask(v: View, mask: uint64): View { v.(cond := v.cond.(mask := mask)) }
  function WithOffset(v: View, offset: int64): View { v.(cond := v.cond.(act := v.cond.act.(offset := offset))) }

  function ActiveOf(vs: seq<View>): seq<Cond> {
    Map(Filter(vs, (v: View) => v.active), (v: View) => v.cond)
  }

  lemma ActiveOfAppend(vs: seq<View>, v: View)
    ensures ActiveOf(vs + [v]) == ActiveOf(vs) + if v.active then [v.cond] else []
  {
    assert (vs + [v])[..|vs|] == vs;
  }

  lemma ActiveOfConcat(vs: seq<View>, ws: seq<View>)
    ensures ActiveOf(vs + ws) == ActiveOf(vs) + ActiveOf(ws)
  {
    FilterConcat(vs, ws, (v: View) => v.active);
  }

  /** An inactive condition does not take part. */
  lemma InactiveIsIrrelevant(vs: seq<View>, i: nat, v: View)
    requires i < |vs| && !vs[i].active && !v.active
    ensures ActiveOf(vs[i := v]) == ActiveOf(vs)
  {
    SplitActive(vs, i);
    SplitActive(vs[i := v], i);
    assert vs[i := v][..i] == vs[..i] && vs[i := v][i + 1..] == vs[i + 1..];
  }

  lemma SplitActive(vs: seq<View>, i: nat)
    requires i < |vs|
    ensures ActiveOf(vs) == ActiveOf(vs[..i]) + (if vs[i].active then [vs[i].cond] else []) + ActiveOf(vs[i + 1..])
  {
    ActiveOfAppend(vs[..i], vs[i]);
    ActiveOfConcat(vs[..i] + [vs[i]], vs[i + 1..]);
    assert vs == vs[..i] + [vs[i]] + vs[i + 1..];
  }

  /** Removing a condition shrinks the active set. */
  lemma RemovalShrinks(vs: seq<View>, i: nat)
    requires i < |vs|
    ensures multiset(ActiveOf(vs[..i] + vs[i + 1..])) <= multiset(ActiveOf(vs))
    ensures !vs[i].active ==> ActiveOf(vs[..i] + vs[i + 1..]) == ActiveOf(vs)
  {
    SplitActive(vs, i);
    ActiveOfConcat(vs[..i], vs[i + 1..]);
    MultisetMiddle(ActiveOf(vs[..i]), if vs[i].active then [vs[i].cond] else [], ActiveOf(vs[i + 1..]));
  }

  /** Whether an operation called by caller concerns a condition of owner; no caller means every condition. */
  predicate Concerns(caller: Option<int>, owner: int) {
    caller.None? || (owner != -1 && owner == caller.value)
  }

  function Toggle(caller: Option<int>, v: View): View {
    if Concerns(caller, v.owner) then v.(active := !v.active) else v
  }

  function Deactivate(caller: Option<int>, v: View): View {
    if Concerns(caller, v.owner) then v.(active := false) else v
  }

  function TogglesOf(caller: Option<int>, vs: seq<View>): (ws: seq<View>)
    ensures |ws| == |vs|
  {
    seq(|vs|, i requires 0 <= i < |vs| => Toggle(caller, vs[i]))
  }

  function DeactivationOf(caller: Option<int>, vs: seq<View>): (ws: seq<View>)
    ensures |ws| == |vs|
  {
    seq(|vs|, i requires 0 <= i < |vs| => Deactivate(caller, vs[i]))
  }

  lemma TogglesTwice(caller: Option<int>, vs: seq<View>)
    ensures TogglesOf(caller, TogglesOf(caller, vs)) == vs
  {
  }

  lemma SinkTogglesTwice(cs: seq<Condition>, sink: ActionSink, vs: seq<View>)
    requires |cs| == |vs|
    ensures SinkToggles(cs, sink, SinkToggles(cs, sink, vs)) == vs
  {
  }

  function FlipIf(b: bool, v: View): View {
    if b then v.(active := !v.active) else v
  }

  /** The views after the conditions of one sink have been flipped. */
  function SinkToggles(cs: seq<Condition>, sink: ActionSink, vs: seq<View>): (ws: seq<View>)
    requires |cs| == |vs|
    ensures |ws| == |vs|
  {
    seq(|vs|, i requires 0 <= i < |vs| => FlipIf(cs[i].sink == sink, vs[i]))
  }

  lemma {:induction false} DeactivationShrinks(vs: seq<View>, ws: seq<View>)
    requires |vs| == |ws|
    requires forall i :: 0 <= i < |vs| ==> ws[i] == vs[i] || ws[i] == vs[i].(active := false)
    ensures multiset(ActiveOf(ws)) <= multiset(ActiveOf(vs))
  {
    if vs != [] {
      var n := |vs| - 1;
      DeactivationShrinks(vs[..n], ws[..n]);
      ActiveOfAppend(vs[..n], vs[n]);
      ActiveOfAppend(ws[..n], ws[n]);
      assert vs == vs[..n] + [vs[n]] && ws == ws[..n] + [ws[n]];
    }
  }

  // ----- the objects

  class ActionSink {
    const eca: ECA
    const channel: uint8
    const num: uint8
    var minOffset: int64
    var maxOffset: int64

    constructor (eca: ECA, channel: uint8, num: uint8)
      ensures this.eca == eca && this.channel == channel && this.num == num
      ensures minOffset == -1000000000 && maxOffset == 1000000000
    {
      this.eca, this.channel, this.num := eca, channel, num;
      minOffset, maxOffset := -1000000000, 1000000000;
    }
  }

  class Condition {
    const sink: ActionSink
    const number: nat
    var id: uint64
    var mask: uint64
    var offset: int64
    var tag: uint32
    var acceptLate: bool
    var acceptEarly: bool
    var acceptConflict: bool
    var acceptDelayed: bool
    var active: bool
    var owner: int

    function View(): View
      reads this
    {
      LateView(acceptLate)
    }

    /** This condition's view with acceptLate replaced. */
    function LateView(late: bool): View
      reads this
    {
      MkView(active, owner, Cond(id, mask,
        Action(offset, tag, Flags(late, acceptEarly, acceptConflict, acceptDelayed), sink.channel, sink.num)))
    }

    /** How a condition with these arguments looks as long as nothing has been set. */
    static function NewView(sink: ActionSink, active: bool, owner: int, id: uint64, mask: uint64, offset: int64,
                            tag: uint32): View {
      MkView(active, owner, Cond(id, mask,
        Action(offset, tag, Flags(false, false, false, true), sink.channel, sink.num)))
    }

    constructor Make(sink: ActionSink, number: nat, active: bool, id: uint64, mask: uint64, offset: int64, tag: uint32)
      ensures this.sink == sink && this.number == number && owner == -1
      ensures this.active == active && this.id == id && this.mask == mask && this.offset == offset && this.tag == tag
      ensures !acceptLate && !acceptEarly && !acceptConflict && acceptDelayed
      ensures View() == NewView(sink, active, -1, id, mask, offset, tag)
    {
      this.sink, this.number, this.active := sink, number, active;
      this.id, this.mask, this.offset, this.tag := id, mask, offset, tag;
      acceptLate, acceptEarly, acceptConflict, acceptDelayed := false, false, false, true;
      owner := -1;
    }

    static predicate Sane(sink: ActionSink, id: uint64, mask: uint64, offset: int64)
      reads sink
    {
      sink.minOffset <= offset <= sink.maxOffset && IsPrefixMask(mask) && And(id, mask) == id
    }

    /** The mask is a prefix exactly if the condition covers exactly the events that it matches. */
    static lemma CoversExactly(id: uint64, mask: uint64)
      ensures IsPrefixMask(mask) <==>
        forall e: uint64 :: And(e, mask) == And(id, mask) <==> And(id, mask) <= e <= Or(id, Not64(mask))
    {
      hide And, Or, IsPrefixMask;
      var c := Cond(id, mask, Action(0, 0, 0, 0, 0));
      ExactIffPrefix(c);
      if IsPrefixMask(mask) {
        forall e: uint64
          ensures And(e, mask) == And(id, mask) <==> And(id, mask) <= e <= Or(id, Not64(mask))
        {
          assert c.Covers(e) <==> c.Matches(e);
        }
      } else {
        var e := CoveredOnly(c);
        assert c.Covers(e) && !c.Matches(e);
        assert And(id, mask) <= e <= Or(id, Not64(mask)) && And(e, mask) != And(id, mask);
      }
    }

    static lemma PrefixCheck(mask: uint64)
      ensures IsPrefixMask(mask) <==> And(Not64(mask), (Not64(mask) + 1) % (U64_MAX + 1)) == 0
    {
    }

    /** The checks of the constructor: a condition whose arguments are not sane is never made. */
    static method Create(sink: ActionSink, number: nat, active: bool, id: uint64, mask: uint64, offset: int64,
                         tag: uint32)
      returns (r: Option<Condition>)
      ensures r.Some? <==> Sane(sink, id, mask, offset)
      ensures r.Some? <==>
        && sink.minOffset <= offset <= sink.maxOffset
        && And(id, mask) == id
        && forall e: uint64 :: And(e, mask) == And(id, mask) <==> And(id, mask) <= e <= Or(id, Not64(mask))
      ensures r.Some? ==> fresh(r.value) && r.value.View() == NewView(sink, active, -1, id, mask, offset, tag)
      ensures r.Some? ==>
        && r.value.sink == sink && r.value.number == number && r.value.owner == -1
        && r.value.id == id && r.value.mask == mask && r.value.offset == offset && r.value.tag == tag
        && r.value.active == active
        && !r.value.acceptLate && !r.value.acceptEarly && !r.value.acceptConflict && r.value.acceptDelayed
    {
      CoversExactly(id, mask);
      hide And, Or, IsPrefixMask, Flags;
      if offset < sink.minOffset || offset > sink.maxOffset { return None; }
      PrefixCheck(mask);
      if And(Not64(mask), (Not64(mask) + 1) % (U64_MAX + 1)) != 0 { return None; }
      if And(id, mask) != id { return None; }
      var c := new Condition.Make(sink, number, active, id, mask, offset, tag);
      r := Some(c);
    }

    // ----- setters are transactions

    /** The event agrees with the id in the masked bits. */
    predicate Fires(e: uint64)
      reads this
    {
      active && And(e, mask) == And(id, mask)
    }

    /** The action is the one this condition asks for, on its sink. */
    predicate AsksFor(a: Action)
      reads this
    {
      && a.channel == sink.channel && a.num == sink.num && a.offset == offset && a.tag == tag
      && (HasBit(a.flags, ECA_LATE) <==> acceptLate) && (HasBit(a.flags, ECA_EARLY) <==> acceptEarly)
      && (HasBit(a.flags, ECA_CONFLICT) <==> acceptConflict) && (HasBit(a.flags, ECA_DELAYED) <==> acceptDelayed)
    }

    /** What the compiler sees of this condition. */
    lemma ViewMeans()
      ensures View().active == active && View().owner == owner && AsksFor(View().cond.act)
      ensures forall e: uint64 :: View().cond.Matches(e) <==> And(e, mask) == And(id, mask)
    {
      FlagBits(acceptLate, acceptEarly, acceptConflict, acceptDelayed);
    }

    /** The condition is one of a unit in order. */
    ghost predicate Ready()
      reads this, sink.eca, sink.eca.conditions, sink.eca.device
    {
      this in sink.eca.conditions && sink.eca.Structure() && sink.eca.InOrder()
    }

    /** The views of the unit with that of this condition replaced. */
    ghost function With(v: View): seq<View>
      requires this in sink.eca.conditions
      reads this, sink.eca, sink.eca.conditions
    {
      sink.eca.Views()[IndexOf(sink.eca.conditions, this) := v]
    }

    /** If no other condition has changed, the views differ from the old ones in this condition only. */
    twostate lemma OneChanged(i: nat)
      requires sink.eca.conditions == old(sink.eca.conditions) && Distinct(sink.eca.conditions)
      requires i < |sink.eca.conditions| && sink.eca.conditions[i] == this
      requires var cs := sink.eca.conditions;
        forall j :: 0 <= j < |cs| && j != i ==> cs[j].View() == old(cs[j].View())
      ensures sink.eca.Views() == old(sink.eca.Views())[i := View()]
      ensures View() == old(View()) ==> sink.eca.Views() == old(sink.eca.Views())
    {
    }

    /** Recompiles after a change of this condition alone; a failure leaves the unit in order for the old views. */
    method Recompile(ghost vs: seq<View>, ghost i: nat) returns (ok: bool)
      requires sink.eca.Structure() && i < |vs| == |sink.eca.conditions|
      requires sink.eca.Views() == vs[i := View()]
      requires sink.eca.InOrderOn(ActiveOf(vs)) && sink.eca.Linkable(ActiveOf(sink.eca.Views()))
      modifies sink.eca`usedConditions, sink.eca`compiled, sink.eca.device
      ensures sink.eca.Structure() && sink.eca.Views() == old(sink.eca.Views())
      ensures sink.eca.InOrderOn(ActiveOf(if ok then vs[i := View()] else vs))
      ensures old(sink.eca.compiled) == ActiveOf(vs) ==>
        sink.eca.compiled == ActiveOf(if ok then vs[i := View()] else vs)
      ensures (ok && sink.eca.compiled == ActiveOf(vs[i := View()])) ||
        (sink.eca.compiled == old(sink.eca.compiled) && unchanged(sink.eca.device))
      ensures ok <==> Accepts(sink.eca.maxConditions, ActiveOf(vs[i := View()]))
      ensures !ok ==> unchanged(sink.eca) && unchanged(sink.eca.device)
      ensures sink.eca.device.SwitchedAtMostOnce(old(sink.eca.device.trace), old(sink.eca.device.state.active))
    {
      hide Means, ActiveOf, Accepts, ECA.SettledOn, Device.Valid, Flags;
      ok := sink.eca.Compile();
    }

    /** The step that most setters share: an active condition is recompiled, an inactive one needs nothing. */
    method CompileIfActive(ghost vs: seq<View>, ghost i: nat) returns (ok: bool)
      requires sink.eca.Structure() && i < |vs| == |sink.eca.conditions| && sink.eca.conditions[i] == this
      requires sink.eca.Views() == vs[i := View()] && vs[i].active == active
      requires sink.eca.InOrderOn(ActiveOf(vs)) && sink.eca.Linkable(ActiveOf(sink.eca.Views()))
      modifies sink.eca`usedConditions, sink.eca`compiled, sink.eca.device
      ensures sink.eca.Structure() && sink.eca.Views() == old(sink.eca.Views())
      ensures sink.eca.InOrderOn(ActiveOf(if ok then vs[i := View()] else vs))
      ensures old(sink.eca.compiled) == ActiveOf(vs) ==>
        sink.eca.compiled == ActiveOf(if ok then vs[i := View()] else vs)
      ensures (ok && sink.eca.compiled == ActiveOf(vs[i := View()])) ||
        (sink.eca.compiled == old(sink.eca.compiled) && unchanged(sink.eca.device))
      ensures ok <==> !active || Accepts(sink.eca.maxConditions, ActiveOf(vs[i := View()]))
      ensures !ok ==> unchanged(sink.eca) && unchanged(sink.eca.device)
      ensures sink.eca.device.SwitchedAtMostOnce(old(sink.eca.device.trace), old(sink.eca.device.state.active))
    {
      hide Means, ActiveOf, Accepts, ECA.InOrderOn, Device.Valid, Flags;
      if active {
        ok := Recompile(vs, i);
      } else {
        InactiveIsIrrelevant(vs, i, View());
        ok := true;
      }
    }

    method SetID(val: uint64) returns (ok: bool)
      requires Ready() && sink.eca.Linkable(ActiveOf(With(WithID(View(), val))))
      modifies this`id, sink.eca`usedConditions, sink.eca`compiled, sink.eca.device
      ensures sink.eca.Structure() && id == (if ok then val else old(id))
      ensures sink.eca.InOrder() && (old(sink.eca.Settled()) ==> sink.eca.Settled())
      ensures sink.eca.Settled() || (sink.eca.compiled == old(sink.eca.compiled) && unchanged(sink.eca.device))
      ensures sink.eca.Views() == if ok then old(With(WithID(View(), val))) else old(sink.eca.Views())
      ensures ok <==>
        val == old(id) || !active || old(Accepts(sink.eca.maxConditions, ActiveOf(With(WithID(View(), val)))))
      ensures !ok ==> unchanged(sink.eca.device)
      ensures sink.eca.device.SwitchedAtMostOnce(old(sink.eca.device.trace), old(sink.eca.device.state.active))
    {
      hide Means, ActiveOf, Accepts, ECA.InOrderOn, ECA.Linkable, Device.Valid, Flags;
      ghost var vs, i := sink.eca.Views(), IndexOf(sink.eca.conditions, this);
      if val == id {
        assert vs[i := View()] == vs;
        return true;
      }
      var previous := id;
      id := val;
      OneChanged(i);
      ok := CompileIfActive(vs, i);
      if !ok {
        id := previous;
        assert View() == old(View());
        OneChanged(i);
      }
    }

    method SetMask(val: uint64) returns (ok: bool)
      requires Ready() && sink.eca.Linkable(ActiveOf(With(WithMask(View(), val))))
      modifies this`mask, sink.eca`usedConditions, sink.eca`compiled, sink.eca.device
      ensures sink.eca.Structure() && mask == (if ok then val else old(mask))
      ensures sink.eca.InOrder() && (old(sink.eca.Settled()) ==> sink.eca.Settled())
      ensures sink.eca.Settled() || (sink.eca.compiled == old(sink.eca.compiled) && unchanged(sink.eca.device))
      ensures sink.eca.Views() == if ok then old(With(WithMask(View(), val))) else old(sink.eca.Views())
      ensures ok <==>
        val == old(mask) || !active || old(Accepts(sink.eca.maxConditions, ActiveOf(With(WithMask(View(), val)))))
      ensures !ok ==> unchanged(sink.eca.device)
      ensures sink.eca.device.SwitchedAtMostOnce(old(sink.eca.device.trace), old(sink.eca.device.state.active))
    {
      hide Means, ActiveOf, Accepts, ECA.InOrderOn, ECA.Linkable, Device.Valid, Flags;
      ghost var vs, i := sink.eca.Views(), IndexOf(sink.eca.conditions, this);
      if val == mask {
        assert vs[i := View()] == vs;
        return true;
      }
      var previous := mask;
      mask := val;
      OneChanged(i);
      ok := CompileIfActive(vs, i);
      if !ok {
        mask := previous;
        assert View() == old(View());
        OneChanged(i);
      }
    }

    method SetOffset(val: int64) returns (ok: bool)
      requires Ready() && sink.eca.Linkable(ActiveOf(With(WithOffset(View(), val))))
      modifies this`offset, sink.eca`usedConditions, sink.eca`compiled, sink.eca.device
      ensures sink.eca.Structure() && offset == (if ok then val else old(offset))
      ensures sink.eca.InOrder() && (old(sink.eca.Settled()) ==> sink.eca.Settled())
      ensures sink.eca.Settled() || (sink.eca.compiled == old(sink.eca.compiled) && unchanged(sink.eca.device))
      ensures sink.eca.Views() == if ok then old(With(WithOffset(View(), val))) else old(sink.eca.Views())
      ensures ok <==>
        val == old(offset) || !active || old(Accepts(sink.eca.maxConditions, ActiveOf(With(WithOffset(View(), val)))))
      ensures !ok ==> unchanged(sink.eca.device)
      ensures sink.eca.device.SwitchedAtMostOnce(old(sink.eca.device.trace), old(sink.eca.device.state.active))
    {
      hide Means, ActiveOf, Accepts, ECA.InOrderOn, ECA.Linkable, Device.Valid, Flags;
      ghost var vs, i := sink.eca.Views(), IndexOf(sink.eca.conditions, this);
      if val == offset {
        assert vs[i := View()] == vs;
        return true;
      }
      var previous := offset;
      offset := val;
      OneChanged(i);
      ok := CompileIfActive(vs, i);
      if !ok {
        offset := previous;
        assert View() == old(View());
        OneChanged(i);
      }
    }

    method SetAcceptLate(val: bool) returns (ok: bool)
      requires Ready() && sink.eca.Linkable(ActiveOf(With(LateView(val))))
      modifies this`acceptLate, sink.eca`usedConditions, sink.eca`compiled, sink.eca.device
      ensures sink.eca.Structure() && acceptLate == (if ok then val else old(acceptLate))
      ensures sink.eca.InOrder() && (old(sink.eca.Settled()) ==> sink.eca.Settled())
      ensures sink.eca.Settled() || (sink.eca.compiled == old(sink.eca.compiled) && unchanged(sink.eca.device))
      ensures sink.eca.Views() == if ok then old(With(LateView(val))) else old(sink.eca.Views())
      ensures ok <==>
        val == old(acceptLate) || !active || old(Accepts(sink.eca.maxConditions, ActiveOf(With(LateView(val)))))
      ensures !ok ==> unchanged(sink.eca.device)
      ensures sink.eca.device.SwitchedAtMostOnce(old(sink.eca.device.trace), old(sink.eca.device.state.active))
    {
      hide Means, ActiveOf, Accepts, ECA.InOrderOn, ECA.Linkable, Device.Valid, Flags;
      ghost var vs, i := sink.eca.Views(), IndexOf(sink.eca.conditions, this);
      if val == acceptLate {
        assert vs[i := View()] == vs;
        return true;
      }
      var previous := acceptLate;
      acceptLate := val;
      OneChanged(i);
      ok := CompileIfActive(vs, i);
      if !ok {
        acceptLate := previous;
        assert View() == old(View());
        OneChanged(i);
      }
    }

    method SetActive(val: bool) returns (ok: bool)
      requires Ready() && sink.eca.Linkable(ActiveOf(With(View().(active := val))))
      modifies this`active, sink.eca`usedConditions, sink.eca`compiled, sink.eca.device
      ensures sink.eca.Structure() && active == (if ok then val else old(active))
      ensures sink.eca.InOrder() && (old(sink.eca.Settled()) ==> sink.eca.Settled())
      ensures sink.eca.Settled() || (sink.eca.compiled == old(sink.eca.compiled) && unchanged(sink.eca.device))
      ensures sink.eca.Views() == if ok then old(With(View().(active := val))) else old(sink.eca.Views())
      ensures ok <==> val == old(active) || old(Accepts(sink.eca.maxConditions, ActiveOf(With(View().(active := val)))))
      ensures !ok ==> unchanged(sink.eca.device)
      ensures sink.eca.device.SwitchedAtMostOnce(old(sink.eca.device.trace), old(sink.eca.device.state.active))
    {
      hide Means, ActiveOf, Accepts, ECA.InOrderOn, ECA.Linkable, Device.Valid, Flags;
      ghost var vs, i := sink.eca.Views(), IndexOf(sink.eca.conditions, this);
      if val == active {
        assert vs[i := View()] == vs;
        return true;
      }
      active := val;
      OneChanged(i);
      ok := Recompile(vs, i);
      if !ok {
        active := !val;
        assert View() == old(View());
        OneChanged(i);
      }
    }
  }

  ghost function IndexOf(cs: seq<Condition>, c: Condition): (i: nat)
    requires c in cs
    ensures i < |cs| && cs[i] == c
  {
    var i: nat :| i < |cs| && cs[i] == c;
    i
  }

  ghost predicate Distinct<T>(s: seq<T>) {
    forall i, j :: 0 <= i < j < |s| ==> s[i] != s[j]
  }

  function ViewsOf(cs: seq<Condition>): (vs: seq<View>)
    reads cs
    ensures |vs| == |cs| && forall i :: 0 <= i < |cs| ==> vs[i] == cs[i].View()
  {
    seq(|cs|, i requires 0 <= i < |cs| reads cs => cs[i].View())
  }

  lemma Unique<T>(s: seq<T>, i: nat, j: nat)
    requires Distinct(s) && i < |s| && j < |s| && s[i] == s[j]
    ensures i == j
  {
  }

  lemma ErasedViews(cs: seq<Condition>, i: nat)
    requires i < |cs| && Distinct(cs)
    ensures Distinct(cs[..i] + cs[i + 1..])
    ensures ViewsOf(cs[..i] + cs[i + 1..]) == ViewsOf(cs)[..i] + ViewsOf(cs)[i + 1..]
    ensures forall c :: c in cs[..i] + cs[i + 1..] ==> c in cs
  {
    hide Condition.View;
  }

  // ----- who fires

  /** A condition with the action that it asks for, as the compiler sees it. */
  datatype Source = Source(condition: Condition, action: Action)

  function FiringOf(cs: seq<Condition>, e: uint64): (fs: seq<Source>)
    reads cs
    ensures forall f :: f in fs ==> f.condition in cs && f.condition.Fires(e) && f.action == f.condition.View().cond.act
    ensures forall c :: c in cs && c.Fires(e) ==> Source(c, c.View().cond.act) in fs
  {
    if cs == [] then [] else
    var c := cs[|cs| - 1];
    FiringOf(cs[..|cs| - 1], e) + if c.Fires(e) then [Source(c, c.View().cond.act)] else []
  }

  function ActionOf(): Source -> Action { (f: Source) => f.action }

  /** The matching actions of the compiler are those of the conditions that fire. */
  lemma {:induction false} MatchingIsFiring(cs: seq<Condition>, e: uint64)
    ensures Matching(ActiveOf(ViewsOf(cs)), e) == Map(FiringOf(cs, e), ActionOf())
  {
    if cs != [] {
      var front, c := cs[..|cs| - 1], cs[|cs| - 1];
      MatchingIsFiring(front, e);
      var v, vs := c.View(), ViewsOf(front);
      assert ViewsOf(cs) == vs + [v];
      ActiveOfAppend(vs, v);
      c.ViewMeans();
      if v.active {
        MatchingAppend(ActiveOf(vs), v.cond, e);
      } else {
        assert ActiveOf(vs + [v]) == ActiveOf(vs);
      }
    }
  }

  lemma MatchingAppend(cs: seq<Cond>, c: Cond, e: uint64)
    ensures Matching(cs + [c], e) == Matching(cs, e) + if c.Matches(e) then [c.act] else []
  {
    assert (cs + [c])[..|cs|] == cs;
  }

  lemma {:induction false} FiringIsDistinct(cs: seq<Condition>, e: uint64)
    requires Distinct(cs)
    ensures forall i, j :: 0 <= i < j < |FiringOf(cs, e)| ==>
      FiringOf(cs, e)[i].condition != FiringOf(cs, e)[j].condition
  {
    if cs != [] {
      var front := cs[..|cs| - 1];
      FiringIsDistinct(front, e);
      assert forall c :: c in front ==> c != cs[|cs| - 1];
      assert forall i :: 0 <= i < |FiringOf(front, e)| ==> FiringOf(front, e)[i] in FiringOf(front, e);
    }
  }

  /** What has the same elements as the image of a sequence is the image of a permutation of it. */
  lemma {:induction false} ArrangedAs<T, U>(us: seq<U>, ts: seq<T>, f: T -> U) returns (arranged: seq<T>)
    requires multiset(us) == multiset(Map(ts, f))
    ensures multiset(arranged) == multiset(ts) && Map(arranged, f) == us
    decreases |us|
  {
    if us == [] {
      assert |Map(ts, f)| == |multiset(Map(ts, f))| == 0;
      return [];
    }
    var x, j, rest := RemoveLast(us, Map(ts, f));
    OneLess(ts, j);
    assert Map(ts[..j] + ts[j + 1..], f) == rest;
    var front := ArrangedAs(us[..|us| - 1], ts[..j] + ts[j + 1..], f);
    arranged := front + [ts[j]];
    MapAppend(front, ts[j], f);
    assert multiset(arranged) == multiset(front) + multiset{ts[j]};
  }

  /** Each action is asked for by one of the conditions that fire, each of which asks for one of them. */
  ghost predicate AskedBy(cs: seq<Condition>, e: uint64, actions: seq<Action>, who: seq<Condition>)
    reads cs, who
  {
    && |who| == |actions| && Distinct(who)
    && (forall c :: c in who ==> c in cs && c.Fires(e))
    && (forall c :: c in cs && c.Fires(e) ==> c in who)
    && (forall i :: 0 <= i < |who| ==> who[i].AsksFor(actions[i]))
  }

  function ConditionsOf(fs: seq<Source>): (cs: seq<Condition>)
    ensures |cs| == |fs| && forall i :: 0 <= i < |fs| ==> cs[i] == fs[i].condition
  {
    seq(|fs|, i requires 0 <= i < |fs| => fs[i].condition)
  }

  lemma SameElements<T>(s: seq<T>, t: seq<T>)
    requires multiset(s) == multiset(t)
    ensures forall x :: x in s <==> x in t
  {
    assert forall x :: x in s <==> x in multiset(s);
    assert forall x :: x in t <==> x in multiset(t);
  }

  lemma MatchingIsAsked(cs: seq<Condition>, e: uint64, actions: seq<Action>) returns (who: seq<Condition>)
    requires Distinct(cs) && multiset(actions) == multiset(Matching(ActiveOf(ViewsOf(cs)), e))
    ensures AskedBy(cs, e, actions, who)
  {
    hide Matching, ActiveOf, AskedBy, Condition.View;
    var fs := FiringOf(cs, e);
    MatchingIsFiring(cs, e);
    FiringIsDistinct(cs, e);
    var arranged := ArrangedAs(actions, fs, ActionOf());
    SameElements(arranged, fs);
    DistinctArrangement(arranged, fs);
    who := ConditionsOf(arranged);
    ArrangedIsAsked(cs, e, actions, arranged);
  }

  lemma ArrangedIsAsked(cs: seq<Condition>, e: uint64, actions: seq<Action>, arranged: seq<Source>)
    requires Map(arranged, ActionOf()) == actions && forall f :: f in arranged <==> f in FiringOf(cs, e)
    requires forall i, j :: 0 <= i < j < |arranged| ==> arranged[i].condition != arranged[j].condition
    ensures AskedBy(cs, e, actions, ConditionsOf(arranged))
  {
    hide Condition.AsksFor, Condition.Fires, Condition.View, FiringOf;
    var who := ConditionsOf(arranged);
    forall c | c in cs && c.Fires(e)
      ensures c in who
    {
      var f := Source(c, c.View().cond.act);
      assert f in FiringOf(cs, e);
      var i :| 0 <= i < |arranged| && arranged[i] == f;
      assert who[i] == c;
    }
    forall i | 0 <= i < |who|
      ensures who[i] in cs && who[i].Fires(e) && who[i].AsksFor(actions[i])
    {
      assert arranged[i] in FiringOf(cs, e) && actions[i] == arranged[i].action;
      who[i].ViewMeans();
    }
  }

  lemma DistinctArrangement(arranged: seq<Source>, fs: seq<Source>)
    requires multiset(arranged) == multiset(fs)
    requires forall i, j :: 0 <= i < j < |fs| ==> fs[i].condition != fs[j].condition
    requires forall f, g :: f in fs && g in fs && f.condition == g.condition ==> f == g
    ensures forall i, j :: 0 <= i < j < |arranged| ==> arranged[i].condition != arranged[j].condition
  {
    forall i, j | 0 <= i < j < |arranged|
      ensures arranged[i].condition != arranged[j].condition
    {
      var f, g := arranged[i], arranged[j];
      assert f in multiset(arranged) && g in multiset(arranged);
      if f.condition == g.condition {
        TwiceInMultiset(arranged, i, j);
        OnceInMultiset(fs, f);
        assert false;
      }
    }
  }

  lemma TwiceInMultiset<T>(s: seq<T>, i: nat, j: nat)
    requires i < j < |s| && s[i] == s[j]
    ensures multiset(s)[s[i]] >= 2
  {
    assert s == s[..j] + [s[j]] + s[j + 1..];
    assert s[..j][i] == s[i] && s[i] in multiset(s[..j]);
  }

  lemma {:induction false} OnceInMultiset<T>(s: seq<T>, x: T)
    requires forall i, j :: 0 <= i < j < |s| ==> s[i] != s[j]
    ensures multiset(s)[x] <= 1
  {
    if s != [] {
      OnceInMultiset(s[..|s| - 1], x);
      assert s == s[..|s| - 1] + [s[|s| - 1]];
      if s[|s| - 1] == x {
        assert x !in s[..|s| - 1];
      }
    }
  }

  /** A change that can be asked for; conditions are named by their position. */
  datatype Change =
    | ChangeID(i: nat, id: uint64)
    | ChangeMask(i: nat, mask: uint64)
    | ChangeOffset(i: nat, offset: int64)
    | ChangeLate(i: nat, late: bool)
    | ChangeActive(i: nat, active: bool)
    | ToggleAll(caller: Option<int>)
    | ToggleOf(i: nat)
    | InactivateOf(caller: Option<int>)
    | Remove(i: nat)
    | Create(sink: ActionSink, number: nat, on: bool, owner: int, id: uint64, mask: uint64, offset: int64, tag: uint32)

  // ----- what a change leads to

  /** The conditions of a unit as values: the sink of each, and what the compiler sees of it. */
  datatype Unit = Unit(sinks: seq<ActionSink>, views: seq<View>) {
    predicate Paired() { |sinks| == |views| }

    /** The conditions without one of them. */
    function Without(i: nat): Unit
      requires Paired() && i < |views|
    {
      Unit(sinks[..i] + sinks[i + 1..], views[..i] + views[i + 1..])
    }
  }

  function WithLate(v: View, late: bool): View {
    var flags := v.cond.act.flags;
    v.(cond := v.cond.(act := v.cond.act.(flags := flags - flags % 2 + if late then 1 else 0)))
  }

  /** The change names a condition that is there. */
  predicate InRange(u: Unit, change: Change) {
    match change
    case ChangeID(i, _) => i < |u.views|
    case ChangeMask(i, _) => i < |u.views|
    case ChangeOffset(i, _) => i < |u.views|
    case ChangeLate(i, _) => i < |u.views|
    case ChangeActive(i, _) => i < |u.views|
    case ToggleOf(i) => i < |u.views|
    case Remove(i) => i < |u.views|
    case _ => true
  }

  /** What is asked for. */
  function Wanted(u: Unit, change: Change): (w: Unit)
    requires u.Paired() && InRange(u, change)
    ensures w.Paired()
  {
    match change
    case ChangeID(i, val) => u.(views := u.views[i := WithID(u.views[i], val)])
    case ChangeMask(i, val) => u.(views := u.views[i := WithMask(u.views[i], val)])
    case ChangeOffset(i, val) => u.(views := u.views[i := WithOffset(u.views[i], val)])
    case ChangeLate(i, val) => u.(views := u.views[i := WithLate(u.views[i], val)])
    case ChangeActive(i, val) => u.(views := u.views[i := u.views[i].(active := val)])
    case ToggleAll(caller) => u.(views := TogglesOf(caller, u.views))
    case ToggleOf(i) =>
      u.(views := seq(|u.views|, j requires 0 <= j < |u.views| => FlipIf(u.sinks[j] == u.sinks[i], u.views[j])))
    case InactivateOf(caller) => u.(views := DeactivationOf(caller, u.views))
    case Remove(i) => u.Without(i)
    case Create(sink, number, on, owner, id, mask, offset, tag) =>
      Unit(u.sinks + [sink], u.views + [Condition.NewView(sink, on, owner, id, mask, offset, tag)])
  }

  /** The change makes the driver compile; of a single condition only what is active, and only if it changes. */
  predicate Compiles(u: Unit, change: Change)
    requires u.Paired() && InRange(u, change)
  {
    match change
    case ChangeActive(i, _) => Wanted(u, change) != u
    case ToggleAll(_) => true
    case ToggleOf(_) => true
    case InactivateOf(_) => true
    case Remove(i) => u.views[i].active
    case Create(_, _, on, _, _, _, _, _) => on
    case _ => Wanted(u, change) != u && Wanted(u, change).views[change.i].active
  }

  /** Where the change leads: a refused one is undone unless it is a removal or a creation. */
  ghost function After(maxConditions: nat, u: Unit, change: Change): (after: Unit)
    requires u.Paired() && InRange(u, change)
    reads if change.Create? then {change.sink} else {}
    ensures after.Paired()
  {
    if change.Create? && !Condition.Sane(change.sink, change.id, change.mask, change.offset) then u
    else if change.Create? || change.Remove? || !Compiles(u, change) then Wanted(u, change)
    else if Accepts(maxConditions, ActiveOf(Wanted(u, change).views)) then Wanted(u, change)
    else u
  }

  /** A change of another kind than of a mask leaves masks that are prefixes so. */
  ghost predicate PrefixMasks(u: Unit) {
    forall i :: 0 <= i < |u.views| ==> IsPrefixMask(u.views[i].cond.mask)
  }

  lemma AfterKeepsPrefixes(maxConditions: nat, u: Unit, change: Change)
    requires u.Paired() && InRange(u, change) && PrefixMasks(u) && !change.ChangeMask?
    ensures PrefixMasks(After(maxConditions, u, change))
  {
    hide IsPrefixMask, ActiveOf, Accepts, Flags;
  }

  class ECA {
    const device: Device
    const maxConditions: nat
    /** The conditions of all action sinks, in the order in which the compiler visits them. */
    var conditions: seq<Condition>
    var usedConditions: nat
    /** The active set at the last successful compilation. */
    ghost var compiled: seq<Cond>

    constructor Probe(device: Device)
      requires device.Valid()
      ensures Structure() && conditions == [] && this.device == device
    {
      this.device := device;
      maxConditions := MaxConditions(device.searchSize, device.walkerSize);
      conditions := [];
      usedConditions, compiled := 0, [];
    }

    /** Probes the capacity and removes old rules from the hardware; fails if it has no capacity at all. */
    static method Start(device: Device) returns (r: Option<ECA>)
      requires device.Valid()
      modifies device
      ensures r.Some? <==> device.searchSize / 2 > 0 && device.walkerSize > 0
      ensures r.Some? ==> fresh(r.value) && r.value.device == device && r.value.conditions == []
      ensures r.Some? ==> r.value.Structure() && r.value.InOrder() && r.value.Settled()
      ensures r.Some? ==>
        forall n: nat :: n <= r.value.maxConditions <==> 2 * n <= device.searchSize && n <= device.walkerSize
    {
      var eca := new ECA.Probe(device);
      var ok := eca.Compile();
      r := if ok then Some(eca) else None;
    }

    function Views(): (vs: seq<View>)
      reads this, conditions
      ensures |vs| == |conditions|
    {
      ViewsOf(conditions)
    }

    /** The object structure: who belongs to whom, and the capacity probed from the device. */
    ghost predicate Structure()
      reads this, conditions, device
    {
      && device.Valid()
      && maxConditions == MaxConditions(device.searchSize, device.walkerSize)
      && Distinct(conditions)
      && (forall c :: c in conditions ==> c.sink.eca == this)
    }

    /** The active conditions are those of the last successful compilation. */
    ghost predicate Settled()
      reads this, conditions
    {
      compiled == ActiveOf(Views())
    }

    /**
      The hardware executes what was compiled last, if its walker table can hold the list, and these are the active
      conditions exactly if the hardware accepts them.
     */
    ghost predicate InOrder()
      reads this, conditions, device
    {
      InOrderOn(ActiveOf(Views()))
    }

    ghost predicate InOrderOn(cs: seq<Cond>)
      reads `usedConditions, `compiled, device
    {
      SettledOn(compiled) && (compiled == cs <==> Accepts(maxConditions, cs))
    }

    ghost predicate SettledOn(cs: seq<Cond>)
      reads `usedConditions, device
    {
      && Accepts(maxConditions, cs)
      && |cs| <= 0x8000
      && (|cs| <= device.walkerSize ==> Means(device.state.active, cs))
      && usedConditions == |RecordsOf(cs)| / 2
    }

    /**
      What the compiler demands of a set that it accepts: positions in its list fit the 16-bit signed links. Otherwise a
      link becomes negative and the stack is read out of range.
     */
    predicate Linkable(cs: seq<Cond>) {
      Accepts(maxConditions, cs) ==> |cs| <= 0x8000
    }

    /** Unless the tables are very large, this demands nothing. */
    lemma AlwaysLinkable(cs: seq<Cond>)
      requires maxConditions <= 0x4000
      ensures Linkable(cs)
    {
      RecordCount(cs);
    }

    method Compile() returns (ok: bool)
      requires Structure() && Linkable(ActiveOf(Views()))
      modifies this`usedConditions, this`compiled, device
      ensures Structure() && Views() == old(Views())
      ensures ok <==> Accepts(maxConditions, ActiveOf(Views()))
      ensures !ok ==> unchanged(this) && unchanged(device)
      ensures ok ==> InOrder() && Settled() && device.SwitchedOnce(old(device.trace), old(device.state.active))
    {
      ghost var cs := ActiveOf(Views());
      var idSpace := CollectRecords();
      if |idSpace| / 2 >= maxConditions {
        return false;
      }
      LoadTables(idSpace, cs);
      ok := true;
      ViewsSame(conditions);
    }

    // ----- transactions on many conditions

    /** What becomes of each condition can be read off the views. */
    twostate lemma ActiveByViews(new caller: Option<int>)
      requires conditions == old(conditions)
      ensures Views() == old(Views()) ==> forall c :: c in conditions ==> c.active == old(c.active)
      ensures Views() == TogglesOf(caller, old(Views())) ==>
        forall c :: c in conditions ==>
          c.active ==
            if caller.None? || (c.owner != -1 && c.owner == caller.value) then !old(c.active) else old(c.active)
      ensures Views() == DeactivationOf(caller, old(Views())) ==>
        forall c :: c in conditions ==>
          c.active == if caller.None? || (c.owner != -1 && c.owner == caller.value) then false else old(c.active)
    {
      hide Flags;
      forall c | c in conditions
        ensures exists k ::
          0 <= k < |conditions| && conditions[k] == c && Views()[k] == c.View() && old(Views())[k] == old(c.View())
      {
      }
    }

    twostate lemma ActiveBySink(sink: ActionSink)
      requires conditions == old(conditions)
      ensures Views() == old(Views()) ==> forall c :: c in conditions ==> c.active == old(c.active)
      ensures Views() == SinkToggles(conditions, sink, old(Views())) ==>
        forall c :: c in conditions ==> c.active == if c.sink == sink then !old(c.active) else old(c.active)
    {
      hide Flags;
    }

    /** Flips every concerned condition, without compiling. */
    method FlipConcerned(caller: Option<int>)
      requires Structure()
      modifies conditions
      ensures Views() == TogglesOf(caller, old(Views()))
    {
      for j := 0 to |conditions|
        invariant forall k :: 0 <= k < j ==> conditions[k].View() == Toggle(caller, old(conditions[k].View()))
        invariant forall k :: j <= k < |conditions| ==> conditions[k].View() == old(conditions[k].View())
      {
        var c := conditions[j];
        if Concerns(caller, c.owner) {
          c.active := !c.active;
        }
      }
    }

    /**
      Toggles all conditions of the caller. If the result is not accepted, the flips are undone and nothing is
      reported: the failure shows only in that nothing has changed.
     */
    method ToggleActive(caller: Option<int>)
      requires Structure() && InOrder() && Linkable(ActiveOf(TogglesOf(caller, Views())))
      modifies conditions, this`usedConditions, this`compiled, device
      ensures Structure() && InOrder() && (old(Settled()) ==> Settled())
      ensures Views() == if old(Accepts(maxConditions, ActiveOf(TogglesOf(caller, Views()))))
        then TogglesOf(caller, old(Views())) else old(Views())
      ensures forall c :: c in conditions ==>
        c.active ==
          if old(Accepts(maxConditions, ActiveOf(TogglesOf(caller, Views())))) &&
            (caller.None? || (c.owner != -1 && c.owner == caller.value))
          then !old(c.active) else old(c.active)
      ensures Settled() || (compiled == old(compiled) && unchanged(device))
      ensures device.SwitchedAtMostOnce(old(device.trace), old(device.state.active))
    {
      hide Means, ActiveOf, Accepts, InOrderOn, TogglesOf, DeactivationOf, Condition.View;
      FlipConcerned(caller);
      var ok := Compile();
      if !ok {
        FlipConcerned(caller);
        TogglesTwice(caller, old(Views()));
      }
      ActiveByViews(caller);
    }

    /** Flips every condition of one sink, without compiling. */
    method FlipSink(sink: ActionSink)
      requires Structure()
      modifies conditions
      ensures Views() == SinkToggles(conditions, sink, old(Views()))
    {
      for j := 0 to |conditions|
        invariant forall k :: 0 <= k < j ==>
          conditions[k].View() == FlipIf(conditions[k].sink == sink, old(conditions[k].View()))
        invariant forall k :: j <= k < |conditions| ==> conditions[k].View() == old(conditions[k].View())
      {
        var c := conditions[j];
        if c.sink == sink {
          c.active := !c.active;
        }
      }
    }

    /** Toggles all conditions of one action sink; reports a failure after undoing the flips. */
    method ToggleSink(sink: ActionSink) returns (ok: bool)
      requires Structure() && InOrder() && Linkable(ActiveOf(SinkToggles(conditions, sink, Views())))
      modifies conditions, this`usedConditions, this`compiled, device
      ensures Structure() && InOrder() && (old(Settled()) ==> Settled())
      ensures ok <==> Accepts(maxConditions, ActiveOf(SinkToggles(conditions, sink, old(Views()))))
      ensures Views() == if ok then SinkToggles(conditions, sink, old(Views())) else old(Views())
      ensures forall c :: c in conditions ==>
        c.active == if ok && c.sink == sink then !old(c.active) else old(c.active)
      ensures Settled() || (compiled == old(compiled) && unchanged(device))
      ensures device.SwitchedAtMostOnce(old(device.trace), old(device.state.active))
    {
      hide Means, ActiveOf, Accepts, InOrderOn, SinkToggles, Condition.View;
      FlipSink(sink);
      ok := Compile();
      if !ok {
        FlipSink(sink);
        SinkTogglesTwice(conditions, sink, old(Views()));
      }
      ActiveBySink(sink);
    }

    /** Deactivates every concerned condition, without compiling, and notes which of them were active. */
    method DeactivateConcerned(caller: Option<int>) returns (deactivated: seq<Condition>)
      requires Structure()
      modifies conditions
      ensures Views() == DeactivationOf(caller, old(Views()))
      ensures forall c :: c in deactivated ==> c in conditions
      ensures forall k :: 0 <= k < |conditions| ==>
        (conditions[k] in deactivated <==> Concerns(caller, old(Views())[k].owner) && old(Views())[k].active)
    {
      hide Flags, Device.Valid, MaxConditions, Concerns;
      ghost var vs := Views();
      deactivated := [];
      for j := 0 to |conditions|
        invariant forall k :: 0 <= k < j ==> conditions[k].View() == Deactivate(caller, vs[k])
        invariant forall k :: j <= k < |conditions| ==> conditions[k].View() == vs[k]
        invariant forall c :: c in deactivated ==> c in conditions[..j]
        invariant forall k :: 0 <= k < j ==>
          (conditions[k] in deactivated <==> Concerns(caller, vs[k].owner) && vs[k].active)
      {
        var c := conditions[j];
        assert c.View() == vs[j];
        if Concerns(caller, c.owner) {
          if c.active {
            deactivated := deactivated + [c];
          }
          c.active := false;
        }
      }
    }

    /** Activates the given conditions, without compiling. */
    method Reactivate(deactivated: seq<Condition>)
      requires forall c :: c in deactivated ==> c in conditions
      modifies conditions
      ensures forall c :: c in conditions ==>
        c.View() == if c in deactivated then old(c.View()).(active := true) else old(c.View())
    {
      for j := 0 to |deactivated|
        invariant forall c :: c in conditions ==>
          c.View() == if c in deactivated[..j] then old(c.View()).(active := true) else old(c.View())
      {
        assert deactivated[j] in deactivated;
        deactivated[j].active := true;
      }
      assert deactivated[..|deactivated|] == deactivated;
    }

    /** Undoes a deactivation of the views vs. */
    method Undo(deactivated: seq<Condition>, ghost caller: Option<int>, ghost vs: seq<View>)
      requires |vs| == |conditions| && Views() == DeactivationOf(caller, vs)
      requires forall c :: c in deactivated ==> c in conditions
      requires forall k :: 0 <= k < |conditions| ==>
        (conditions[k] in deactivated <==> Concerns(caller, vs[k].owner) && vs[k].active)
      modifies conditions
      ensures Views() == vs
    {
      hide Flags, Concerns;
      Reactivate(deactivated);
      assert forall k :: 0 <= k < |conditions| ==> conditions[k].View() == vs[k];
    }

    /**
      Deactivates all conditions of the caller. If the hardware does not accept what is left, the change is undone and
      nothing is reported. That does not happen as long as what is active is what was compiled last: the set shrinks.
     */
    method InactivateAll(caller: Option<int>)
      requires Structure() && InOrder() && Linkable(ActiveOf(DeactivationOf(caller, Views())))
      modifies conditions, this`usedConditions, this`compiled, device
      ensures Structure() && InOrder() && (old(Settled()) ==> Settled())
      ensures Views() == if old(Accepts(maxConditions, ActiveOf(DeactivationOf(caller, Views()))))
        then DeactivationOf(caller, old(Views())) else old(Views())
      ensures forall c :: c in conditions ==>
        c.active ==
          if old(Accepts(maxConditions, ActiveOf(DeactivationOf(caller, Views())))) &&
            (caller.None? || (c.owner != -1 && c.owner == caller.value))
          then false else old(c.active)
      ensures Settled() || (compiled == old(compiled) && unchanged(device))
      ensures old(Settled()) ==> old(Accepts(maxConditions, ActiveOf(DeactivationOf(caller, Views()))))
      ensures device.SwitchedAtMostOnce(old(device.trace), old(device.state.active))
    {
      hide Means, Accepts, ActiveOf, InOrderOn, Device.Valid, MaxConditions, Linkable;
      hide DeactivationOf, TogglesOf, Condition.View, Concerns;
      ghost var vs := Views();
      DeactivationAccepted(caller);
      var deactivated := DeactivateConcerned(caller);
      var ok := Compile();
      if !ok {
        Undo(deactivated, caller, vs);
      }
      ActiveByViews(caller);
    }

    /** What is left of an accepted set by deactivation is accepted. */
    lemma DeactivationAccepted(caller: Option<int>)
      requires InOrder()
      ensures Settled() ==> Accepts(maxConditions, ActiveOf(DeactivationOf(caller, Views())))
      ensures Settled() ==> Linkable(ActiveOf(DeactivationOf(caller, Views())))
    {
      hide Means, Accepts, ActiveOf;
      if Settled() {
        DeactivationShrinks(Views(), DeactivationOf(caller, Views()));
        ShrinkingIsAccepted(maxConditions, ActiveOf(Views()), ActiveOf(DeactivationOf(caller, Views())));
      }
    }

    /** What is left of an accepted set by a removal is accepted. */
    lemma RemovalAccepted(i: nat)
      requires InOrder() && i < |conditions|
      ensures Settled() ==> Accepts(maxConditions, ActiveOf(Without(i)))
      ensures Settled() ==> Linkable(ActiveOf(Without(i)))
    {
      hide Means, Accepts, ActiveOf;
      RemovalShrinks(Views(), i);
      if Settled() {
        ShrinkingIsAccepted(maxConditions, ActiveOf(Views()), ActiveOf(Without(i)));
      }
    }

    /** The views without that of one condition. */
    function Without(i: nat): seq<View>
      requires i < |conditions|
      reads this, conditions
    {
      Views()[..i] + Views()[i + 1..]
    }

    /**
      Erases a condition and compiles what is left if it was active. A failure is logged as impossible, and the removal
      is not undone. It is indeed impossible as long as what is active is what was compiled last: the set shrinks.
     */
    method RemoveCondition(c: Condition) returns (ok: bool)
      requires Structure() && InOrder() && c in conditions && Linkable(ActiveOf(Without(IndexOf(conditions, c))))
      modifies this, device
      ensures Structure() && InOrder() && (old(Settled()) ==> Settled())
      ensures var i := old(IndexOf(conditions, c));
        conditions == old(conditions[..i] + conditions[i + 1..]) && Views() == old(Without(i))
      ensures ok <==> !c.active || Accepts(maxConditions, ActiveOf(Views()))
      ensures old(Settled()) ==> ok
      ensures Settled() || (compiled == old(compiled) && unchanged(device))
      ensures !ok ==> unchanged(device)
      ensures device.SwitchedAtMostOnce(old(device.trace), old(device.state.active))
    {
      hide Means, Accepts, ActiveOf;
      ghost var vs, i := Views(), IndexOf(conditions, c);
      RemovalAccepted(i);
      RemovalShrinks(vs, i);
      Erase(c);
      ok := true;
      if c.active {
        ok := Compile();
      }
    }

    method Erase(c: Condition)
      requires Structure() && c in conditions
      modifies this`conditions
      ensures Structure()
      ensures var i := old(IndexOf(conditions, c));
        && conditions == old(conditions[..i] + conditions[i + 1..])
        && Views() == old(Views()[..i] + Views()[i + 1..])
    {
      hide ViewsOf, Distinct, Device.Valid, MaxConditions;
      var i: nat :| i < |conditions| && conditions[i] == c;
      assert i == IndexOf(conditions, c) by { Unique(conditions, i, IndexOf(conditions, c)); }
      ErasedViews(conditions, i);
      conditions := conditions[..i] + conditions[i + 1..];
    }

    /**
      Inserts a condition that has passed its checks and compiles it if it is active. The insertion is not undone if
      the hardware does not accept it: exactly then the hardware still executes what it did.
     */
    method NewCondition(c: Condition) returns (ok: bool)
      requires Structure() && InOrder() && c !in conditions && c.sink.eca == this
      requires Linkable(ActiveOf(Views() + [c.View()]))
      modifies this, device
      ensures Structure() && InOrder() && conditions == old(conditions) + [c] && Views() == old(Views() + [c.View()])
      ensures ok <==> !c.active || Accepts(maxConditions, ActiveOf(Views()))
      ensures Settled() <==> ok && (c.active || old(Settled()))
      ensures Settled() || (compiled == old(compiled) && unchanged(device))
      ensures !ok ==> unchanged(device)
      ensures device.SwitchedAtMostOnce(old(device.trace), old(device.state.active))
    {
      hide Means, Accepts, ActiveOf;
      ghost var vs := Views();
      ActiveOfAppend(vs, c.View());
      conditions := conditions + [c];
      assert Views() == vs + [c.View()];
      ok := true;
      if c.active {
        ok := Compile();
      } else {
        assert ActiveOf(Views()) == ActiveOf(vs);
      }
    }

    /** The creation asked for by a client, who becomes the owner (-1 if there are no clients). */
    method CreateCondition(sink: ActionSink, number: nat, active: bool, owner: int, id: uint64, mask: uint64,
                           offset: int64, tag: uint32)
      returns (r: Option<Condition>, ok: bool)
      requires Structure() && InOrder() && sink.eca == this
      requires Linkable(ActiveOf(Views() + [Condition.NewView(sink, active, owner, id, mask, offset, tag)]))
      modifies this, device
      ensures r.Some? <==> Condition.Sane(sink, id, mask, offset)
      ensures r.None? ==> !ok && unchanged(this) && unchanged(device)
      ensures r.Some? ==> fresh(r.value) && r.value.active == active && conditions == old(conditions) + [r.value]
      ensures r.Some? ==>
        Views() == old(Views()) + [Condition.NewView(sink, active, owner, id, mask, offset, tag)]
      ensures Structure() && InOrder()
      ensures r.Some? ==> (ok <==> !active || Accepts(maxConditions, ActiveOf(Views())))
      ensures r.Some? ==> (Settled() <==> ok && (active || old(Settled())))
      ensures Settled() || (compiled == old(compiled) && unchanged(device))
      ensures r.Some? ==>
        && r.value.sink == sink && r.value.number == number && r.value.owner == owner
        && r.value.id == id && r.value.mask == mask && r.value.offset == offset && r.value.tag == tag
        && !r.value.acceptLate && !r.value.acceptEarly && !r.value.acceptConflict && r.value.acceptDelayed
      ensures device.SwitchedAtMostOnce(old(device.trace), old(device.state.active))
    {
      hide Means, Accepts, ActiveOf, InOrderOn, Flags, Device.Valid, Condition.Sane;
      r := Condition.Create(sink, number, active, id, mask, offset, tag);
      ok := false;
      if r.Some? {
        r.value.owner := owner;
        ok := NewCondition(r.value);
      }
    }

    // ----- whole runs

    /** The active page reacts exactly as the active conditions demand if and only if their masks are prefixes. */
    lemma ExecutesActive()
      requires InOrder() && Settled() && |ActiveOf(Views())| <= device.walkerSize
      ensures ReactsExactly(device.state.active, ActiveOf(Views())) <==> AllPrefix(ActiveOf(Views()))
    {
      ExactlyForPrefixMasks(device.state.active, ActiveOf(Views()));
    }

    /**
      If what is active was compiled last, its list fits the walker table, and the masks of the active conditions are
      prefixes, then an event executes one action for each active condition that it fires, and no other: on the channel
      and number of the condition's sink, with its offset, its tag, and a flag for each error that it accepts.
     */
    lemma ExecutesConditions(e: uint64)
      requires Structure() && InOrder() && Settled() && |ActiveOf(Views())| <= device.walkerSize
      requires forall c :: c in conditions && c.active ==> IsPrefixMask(c.mask)
      ensures exists actions :: Executes(device.state.active, e, actions)
      ensures forall actions :: Executes(device.state.active, e, actions) ==>
        exists who :: AskedBy(conditions, e, actions, who)
    {
      hide Executes, Matching, AskedBy, Condition.View, IsPrefixMask;
      ActiveMasks(conditions);
      ExecutesActive();
      assert ReactsAs(device.state.active, ActiveOf(Views()), e);
      forall actions | Executes(device.state.active, e, actions)
        ensures exists who :: AskedBy(conditions, e, actions, who)
      {
        var who := MatchingIsAsked(conditions, e, actions);
      }
    }

    /** The conditions as values. */
    function Now(): (u: Unit)
      reads this, conditions
      ensures u.Paired() && u.views == Views()
    {
      Unit(seq(|conditions|, i requires 0 <= i < |conditions| reads this => conditions[i].sink), Views())
    }

    /** Whether a change can be asked for: the condition is there, and the links can take the result. */
    predicate Possible(u: Unit, change: Change)
      requires u.Paired()
    {
      InRange(u, change) && (change.Create? ==> change.sink.eca == this) && Linkable(ActiveOf(Wanted(u, change).views))
    }

    /**
      A change, whether it succeeds, fails or is undone, leads where it should and leaves the unit in order. Only a
      creation can unsettle it, and as long as it is not settled the hardware executes what it did.
     */
    method Do(change: Change)
      requires Structure() && InOrder() && Possible(Now(), change)
      modifies this, conditions, device
      ensures Now() == After(maxConditions, old(Now()), change)
      ensures Structure() && InOrder() && (old(Settled()) && !change.Create? ==> Settled())
      ensures Settled() || (compiled == old(compiled) && unchanged(device))
      ensures device.SwitchedAtMostOnce(old(device.trace), old(device.state.active))
      ensures forall k :: 0 <= k < |conditions| ==> conditions[k] in old(conditions) || fresh(conditions[k])
    {
      hide Means, ActiveOf, Accepts, Device.Valid, Flags, InOrderOn, Device.SwitchedAtMostOnce, Condition.Sane;
      match change
      case ToggleAll(_) => DoMany(change);
      case ToggleOf(_) => DoMany(change);
      case InactivateOf(_) => DoMany(change);
      case Remove(_) => DoRemove(change);
      case Create(_, _, _, _, _, _, _, _) => DoCreate(change);
      case _ => DoOne(change);
    }

    /** A change of many conditions. */
    method DoMany(change: Change)
      requires Structure() && InOrder() && Possible(Now(), change)
      requires change.ToggleAll? || change.ToggleOf? || change.InactivateOf?
      modifies this`usedConditions, this`compiled, conditions, device
      ensures Now() == After(maxConditions, old(Now()), change)
      ensures Structure() && InOrder() && (old(Settled()) ==> Settled())
      ensures Settled() || (compiled == old(compiled) && unchanged(device))
      ensures device.SwitchedAtMostOnce(old(device.trace), old(device.state.active))
    {
      hide Means, ActiveOf, Accepts, Device.Valid, Flags, InOrderOn, Device.SwitchedAtMostOnce;
      match change
      case ToggleAll(caller) => ToggleActive(caller);
      case ToggleOf(i) =>
        assert Wanted(Now(), change).views == SinkToggles(conditions, conditions[i].sink, Views());
        var ok := ToggleSink(conditions[i].sink);
      case InactivateOf(caller) => InactivateAll(caller);
    }

    method DoRemove(change: Change)
      requires Structure() && InOrder() && change.Remove? && Possible(Now(), change)
      modifies this, device
      ensures Now() == After(maxConditions, old(Now()), change)
      ensures Structure() && InOrder() && (old(Settled()) ==> Settled())
      ensures Settled() || (compiled == old(compiled) && unchanged(device))
      ensures device.SwitchedAtMostOnce(old(device.trace), old(device.state.active))
      ensures forall c :: c in conditions ==> c in old(conditions)
    {
      hide Means, ActiveOf, Accepts, Device.Valid, Flags, InOrderOn, Device.SwitchedAtMostOnce;
      Unique(conditions, change.i, IndexOf(conditions, conditions[change.i]));
      var ok := RemoveCondition(conditions[change.i]);
    }

    method DoCreate(change: Change)
      requires Structure() && InOrder() && change.Create? && Possible(Now(), change)
      modifies this, device
      ensures Now() == After(maxConditions, old(Now()), change)
      ensures Structure() && InOrder()
      ensures Settled() || (compiled == old(compiled) && unchanged(device))
      ensures device.SwitchedAtMostOnce(old(device.trace), old(device.state.active))
      ensures forall c :: c in conditions ==> c in old(conditions) || fresh(c)
    {
      hide Means, ActiveOf, Accepts, Device.Valid, Flags, InOrderOn, Device.SwitchedAtMostOnce, Condition.Sane;
      var r, ok := CreateCondition(change.sink, change.number, change.on, change.owner, change.id, change.mask,
        change.offset, change.tag);
    }

    /** A change of a single condition. */
    method DoOne(change: Change)
      requires Structure() && InOrder() && Possible(Now(), change)
      requires !change.ToggleAll? && !change.ToggleOf? && !change.InactivateOf? && !change.Remove? && !change.Create?
      modifies this`usedConditions, this`compiled, conditions, device
      ensures Now() == After(maxConditions, old(Now()), change)
      ensures Structure() && InOrder() && (old(Settled()) ==> Settled())
      ensures Settled() || (compiled == old(compiled) && unchanged(device))
      ensures device.SwitchedAtMostOnce(old(device.trace), old(device.state.active))
    {
      hide Means, ActiveOf, Accepts, Device.Valid, Flags, InOrderOn, Device.SwitchedAtMostOnce;
      Unique(conditions, change.i, IndexOf(conditions, conditions[change.i]));
      LateIsOneFlag(conditions[change.i]);
      match change
      case ChangeID(i, val) => var ok := conditions[i].SetID(val);
      case ChangeMask(i, val) => var ok := conditions[i].SetMask(val);
      case ChangeOffset(i, val) => var ok := conditions[i].SetOffset(val);
      case ChangeLate(i, val) => var ok := conditions[i].SetAcceptLate(val);
      case ChangeActive(i, val) => var ok := conditions[i].SetActive(val);
    }

    /** Where a run leads; what cannot be asked for is skipped. */
    ghost function AfterAll(u: Unit, changes: seq<Change>): (after: Unit)
      requires u.Paired()
      reads set change | change in changes && change.Create? :: change.sink
      ensures after.Paired()
      decreases |changes|
    {
      if changes == [] then u
      else
        AfterAll(if Possible(u, changes[0]) then After(maxConditions, u, changes[0]) else u, changes[1..])
    }

    lemma AfterAllStep(u: Unit, changes: seq<Change>, k: nat)
      requires u.Paired() && k <= |changes|
      ensures k == |changes| ==> AfterAll(u, changes[k..]) == u
      ensures k < |changes| ==>
        AfterAll(u, changes[k..]) ==
          AfterAll(if Possible(u, changes[k]) then After(maxConditions, u, changes[k]) else u, changes[k + 1..])
    {
      hide ECA.Possible, After;
      if k < |changes| {
        assert changes[k..][1..] == changes[k + 1..];
      }
    }

    lemma {:induction false} AfterAllKeepsPrefixes(u: Unit, changes: seq<Change>)
      requires u.Paired() && PrefixMasks(u) && forall k :: 0 <= k < |changes| ==> !changes[k].ChangeMask?
      ensures PrefixMasks(AfterAll(u, changes))
      decreases |changes|
    {
      hide PrefixMasks, After;
      if changes != [] {
        if Possible(u, changes[0]) { AfterKeepsPrefixes(maxConditions, u, changes[0]); }
        AfterAllKeepsPrefixes(if Possible(u, changes[0]) then After(maxConditions, u, changes[0]) else u, changes[1..]);
      }
    }

    /** A unit whose masks are prefixes reacts exactly as its active conditions demand, if it is settled. */
    lemma PrefixesReactExactly()
      requires InOrder() && PrefixMasks(Now())
      ensures forall c :: c in conditions ==> IsPrefixMask(c.mask)
      ensures Settled() && |ActiveOf(Views())| <= device.walkerSize ==>
        ReactsExactly(device.state.active, ActiveOf(Views()))
    {
      hide IsPrefixMask, ReactsExactly, Flags;
      forall c | c in conditions
        ensures IsPrefixMask(c.mask)
      {
        var i: nat :| i < |conditions| && conditions[i] == c;
        assert Now().views[i].cond.mask == c.mask;
      }
      ActiveMasks(conditions);
      if Settled() && |ActiveOf(Views())| <= device.walkerSize {
        ExecutesActive();
      }
    }

    /**
      Over any run of changes, refused creations included, the hardware executes the active conditions exactly if it
      accepts them, and otherwise what it accepted last; without creations it always accepts them. As long as no mask is
      changed, the masks remain prefixes, and what is executed for every event are the actions of the active conditions
      that match it.
     */
    method Run(changes: seq<Change>)
      requires Structure() && InOrder()
      modifies this, conditions, device
      ensures Now() == old(AfterAll(Now(), changes))
      ensures Structure() && InOrder()
      ensures old(Settled()) && (forall k :: 0 <= k < |changes| ==> !changes[k].Create?) ==> Settled()
      ensures old(PrefixMasks(Now())) && (forall k :: 0 <= k < |changes| ==> !changes[k].ChangeMask?) ==>
        && (forall c :: c in conditions ==> IsPrefixMask(c.mask))
        && (Settled() && |ActiveOf(Views())| <= device.walkerSize ==>
              ReactsExactly(device.state.active, ActiveOf(Views())))
    {
      hide ECA.Structure, ECA.InOrder, ECA.Settled, ECA.Possible, Device.SwitchedAtMostOnce, After, PrefixMasks;
      hide IsPrefixMask, ReactsExactly, ActiveOf, ECA.AfterAll;
      ghost var u := Now();
      assert changes[0..] == changes;
      for k := 0 to |changes|
        invariant Structure() && InOrder()
        invariant AfterAll(Now(), changes[k..]) == old(AfterAll(u, changes))
        invariant old(Settled()) && (forall j :: 0 <= j < k ==> !changes[j].Create?) ==> Settled()
        invariant forall j :: 0 <= j < |conditions| ==> conditions[j] in old(conditions) || fresh(conditions[j])
      {
        AfterAllStep(Now(), changes, k);
        if Possible(Now(), changes[k]) {
          Do(changes[k]);
        }
      }
      AfterAllStep(Now(), changes, |changes|);
      if PrefixMasks(u) && forall k :: 0 <= k < |changes| ==> !changes[k].ChangeMask? {
        AfterAllKeepsPrefixes(u, changes);
        PrefixesReactExactly();
      }
    }

    /** Step one of the compiler: the open and close records of all active conditions. */
    method CollectRecords() returns (idSpace: seq<Rec>)
      ensures idSpace == RecordsOf(ActiveOf(Views()))
    {
      idSpace := [];
      for j := 0 to |conditions|
        invariant idSpace == RecordsOf(ActiveOf(ViewsOf(conditions[..j])))
      {
        CollectStep(conditions, j);
        if conditions[j].active {
          idSpace := idSpace + RecordsOfOne(conditions[j].View().cond);
        }
      }
      assert conditions[..|conditions|] == conditions;
    }

    /** The remaining steps: sort, translate, write the inactive page and flip. */
    method LoadTables(idSpace: seq<Rec>, ghost cs: seq<Cond>)
      requires device.Valid() && maxConditions == MaxConditions(device.searchSize, device.walkerSize)
      requires idSpace == RecordsOf(cs) && Accepts(maxConditions, cs) && |cs| <= 0x8000
      modifies this`usedConditions, this`compiled, device
      ensures device.Valid() && compiled == cs && SettledOn(cs)
      ensures device.SwitchedOnce(old(device.trace), old(device.state.active))
    {
      var search, walk := Tables(idSpace, cs, device.searchSize, device.walkerSize);
      device.Load(search, walk);
      if |cs| <= device.walkerSize {
        LoadedMeans(device.state.active, cs, idSpace, search, walk);
      }
      usedConditions, compiled := |idSpace| / 2, cs;
    }
  }

  /** The masks of active conditions are those that the compiler sees. */
  lemma {:induction false} ActiveMasks(cs: seq<Condition>)
    ensures AllPrefix(ActiveOf(ViewsOf(cs))) <==> forall c :: c in cs && c.active ==> IsPrefixMask(c.mask)
  {
    hide IsPrefixMask, Flags;
    if cs != [] {
      var front, c := cs[..|cs| - 1], cs[|cs| - 1];
      ActiveMasks(front);
      var v, vs := c.View(), ViewsOf(front);
      assert ViewsOf(cs) == vs + [v];
      ActiveOfAppend(vs, v);
      assert forall d :: d in cs <==> d in front || d == c;
      AllPrefixAppend(ActiveOf(vs), v.cond);
      assert !v.active ==> ActiveOf(vs + [v]) == ActiveOf(vs);
    }
  }

  lemma AllPrefixAppend(cs: seq<Cond>, c: Cond)
    ensures AllPrefix(cs + [c]) <==> AllPrefix(cs) && IsPrefixMask(c.mask)
  {
    hide IsPrefixMask;
    forall i | 0 <= i < |cs|
      ensures (cs + [c])[i] == cs[i]
    {
    }
    assert (cs + [c])[|cs|] == c;
  }

  /** Of the flags word the acceptance of late actions is the lowest bit. */
  lemma LateIsOneFlag(c: Condition)
    ensures forall late :: c.LateView(late) == WithLate(c.View(), late)
  {
  }

  lemma CollectStep(cs: seq<Condition>, j: nat)
    requires j < |cs|
    ensures RecordsOf(ActiveOf(ViewsOf(cs[..j + 1])))
         == RecordsOf(ActiveOf(ViewsOf(cs[..j]))) + if cs[j].active then RecordsOfOne(cs[j].View().cond) else []
  {
    var v, vs := cs[j].View(), ViewsOf(cs[..j]);
    assert ViewsOf(cs[..j + 1]) == vs + [v];
    ActiveOfAppend(vs, v);
    if v.active {
      RecordsAppend(ActiveOf(vs), v.cond);
    } else {
      assert ActiveOf(vs + [v]) == ActiveOf(vs);
    }
  }

  lemma RecordsAppend(cs: seq<Cond>, c: Cond)
    ensures RecordsOf(cs + [c]) == RecordsOf(cs) + RecordsOfOne(c)
  {
    assert (cs + [c])[..|cs|] == cs;
  }

  /** The views depend on nothing but the conditions. */
  twostate lemma ViewsSame(cs: seq<Condition>)
    requires forall i :: 0 <= i < |cs| ==> cs[i].View() == old(cs[i].View())
    ensures ViewsOf(cs) == old(ViewsOf(cs))
  {
  }

  /** The middle of the compiler: sorting and the main loop. The mismatched open/close error is never raised. */
  method Tables(idSpace: seq<Rec>, ghost cs: seq<Cond>, ghost searchSize: nat, ghost walkerSize: nat)
    returns (search: seq<SearchEntry>, walk: seq<WalkEntry>)
    requires idSpace == RecordsOf(cs) && |cs| <= 0x8000
    requires Accepts(MaxConditions(searchSize, walkerSize), cs)
    ensures TablesOf(Sort(idSpace), search, walk)
    ensures 1 <= |search| <= searchSize && |walk| == |cs|
    ensures forall i :: 0 <= i < |search| ==> -1 <= search[i].index < |walk|
  {
    var rs := Sort(idSpace);
    var built;
    CountOpens(rs, cs);
    built, search, walk := BuildTables(rs);
    NeverUnderflows(rs, cs, |rs|);
    assert rs[..|rs|] == rs;
    if !built {
      assert false;
    }
    SearchFits(cs, rs, search, walk, searchSize, walkerSize);
    IndicesInRange(rs, search, walk);
  }

  /** From the collected records to the meaning of the page. */
  lemma LoadedMeans(page: Page, cs: seq<Cond>, idSpace: seq<Rec>, search: seq<SearchEntry>, walk: seq<WalkEntry>)
    requires idSpace == RecordsOf(cs) && TablesOf(Sort(idSpace), search, walk)
    requires Holds(page, search, walk) && |walk| <= 0x8000
    ensures Means(page, cs)
  {
    HoldsMeans(page, cs, Sort(idSpace), search, walk);
  }

  lemma IndicesInRange(rs: seq<Rec>, search: seq<SearchEntry>, walk: seq<WalkEntry>)
    requires TablesOf(rs, search, walk)
    ensures forall i :: 0 <= i < |search| ==> -1 <= search[i].index < |walk|
  {
    var pos :| Entries(rs, walk, search, pos);
    forall i | 0 <= i < |search| ensures -1 <= search[i].index < |walk| { assert EntryAt(rs, walk, search[i], pos[i]); }
  }

  // ----- where a removal is refused

  /** A unit with room for two accepts a condition for every event and one that ends before, but not two of these. */
  lemma TwoOfThreeFit(a: Cond, b: Cond)
    requires a.Hi() == U64_MAX && b.Hi() != U64_MAX
    ensures Accepts(2, [a]) && Accepts(2, [a, b]) && !Accepts(2, [a, b, b]) && !Accepts(2, [b, b])
  {
    assert [] + [a] == [a] && [a] + [b] == [a, b] && [a, b] + [b] == [a, b, b];
    assert [] + [b] == [b] && [b] + [b] == [b, b];
    RecordsAppend([], a);
    RecordsAppend([a], b);
    RecordsAppend([a, b], b);
    RecordsAppend([], b);
    RecordsAppend([b], b);
  }

  lemma AllActive(u: View, v: View)
    requires u.active && v.active
    ensures ActiveOf([u]) == [u.cond] && ActiveOf([u, v]) == [u.cond, v.cond]
    ensures ActiveOf([u, v, v]) == [u.cond, v.cond, v.cond]
  {
    assert [] + [u] == [u] && [u] + [v] == [u, v] && [u, v] + [v] == [u, v, v];
    ActiveOfAppend([], u);
    ActiveOfAppend([u], v);
    ActiveOfAppend([u, v], v);
  }

  lemma FirstDeactivated(u: View, v: View)
    requires u.active && v.active && u.owner == 1 && v.owner != 1
    ensures ActiveOf(DeactivationOf(Some(1), [u, v, v])) == [v.cond, v.cond]
  {
    hide ActiveOf;
    var off := u.(active := false);
    assert DeactivationOf(Some(1), [u, v, v]) == [off, v, v] == [off] + [v, v];
    assert [] + [off] == [off];
    ActiveOfConcat([off], [v, v]);
    ActiveOfAppend([], off);
    AllActive(v, v);
    assert ActiveOf([]) == [] by { ActiveOfNone(); }
  }

  lemma ActiveOfNone()
    ensures ActiveOf([]) == []
  {
  }

  /** The conditions of the witness pass the checks; one reaches the last event and one does not. */
  lemma WideAndNarrow(a: Cond, b: Cond)
    requires a.id == 0 && a.mask == 0 && b.id == 0 && Not64(b.mask) == 0
    ensures IsPrefixMask(a.mask) && IsPrefixMask(b.mask) && And(a.id, a.mask) == 0 && And(b.id, b.mask) == 0
    ensures a.Hi() == U64_MAX && b.Hi() != U64_MAX
  {
    hide And, Or;
    AndOfZero(a.mask);
    AndOfZero(b.mask);
    AndZero(Not64(a.mask));
    AndOfZero(1);
    OrOfZero(Not64(a.mask));
    OrOfZero(Not64(b.mask));
  }

  lemma AndOfZero(x: nat)
    ensures And(0, x) == 0
  {
  }

  lemma OrOfZero(x: nat)
    ensures Or(0, x) == x
  {
  }

  /** A condition for every event that client 1 has created, or one for event 0 alone that client 2 has created. */
  function Wide(sink: ActionSink): View {
    Condition.NewView(sink, true, 1, 0, 0, 0, 0)
  }

  function Narrow(sink: ActionSink): View {
    Condition.NewView(sink, true, 2, 0, U64_MAX, 0, 0)
  }

  /** What a unit with room for two accepts of these. */
  lemma WideAndNarrowSets(sink: ActionSink)
    requires sink.minOffset <= 0 <= sink.maxOffset
    ensures Condition.Sane(sink, 0, 0, 0) && Condition.Sane(sink, 0, U64_MAX, 0)
    ensures var u, v := Wide(sink), Narrow(sink);
      && u.active && v.active
      && Accepts(2, ActiveOf([u])) && |ActiveOf([u])| == 1
      && Accepts(2, ActiveOf([u, v])) && |ActiveOf([u, v])| == 2
      && !Accepts(2, ActiveOf([u, v, v])) && !Accepts(2, ActiveOf([v, v]))
      && !Accepts(2, ActiveOf(DeactivationOf(Some(1), [u, v, v])))
  {
    hide Accepts, ActiveOf, IsPrefixMask, And, Or, Flags, DeactivationOf;
    var u, v := Wide(sink), Narrow(sink);
    AllActive(u, v);
    AllActive(v, v);
    FirstDeactivated(u, v);
    WideAndNarrow(u.cond, v.cond);
    TwoOfThreeFit(u.cond, v.cond);
  }

  /** A unit with four search rows and two walker rows. */
  method StartSmall() returns (eca: ECA)
    ensures fresh(eca) && fresh(eca.device) && eca.maxConditions == 2 && eca.conditions == []
    ensures eca.Structure() && eca.InOrder() && eca.Settled()
  {
    hide Means, ECA.InOrder, ECA.Settled;
    var page := Page(seq(4, _ => SearchRow(0, 0)), seq(2, _ => WalkerRow(0, 0, 0, 0, 0, 0)));
    var device := new Device(4, 2, _ => page, State(page, page, Scratch(0, 0, 0, 0, 0, 0, 0, 0, 0, 0, 0, 0)));
    var started := ECA.Start(device);
    eca := started.value;
  }

  /** A small unit with one sane condition. */
  method OneCreated(number: nat) returns (eca: ECA, sink: ActionSink)
    ensures fresh(eca) && fresh(eca.device) && fresh(eca.conditions) && sink.eca == eca
    ensures eca.maxConditions == 2 && eca.Structure() && eca.InOrder() && eca.Settled()
    ensures eca.Views() == [Wide(sink)] && sink.minOffset <= 0 <= sink.maxOffset
  {
    hide Means, ECA.InOrder, ActiveOf, Accepts, Condition.Sane, Condition.NewView, DeactivationOf, ECA.Settled;
    hide Device.Valid, ViewsOf, Device.SwitchedAtMostOnce, MaxConditions;
    eca := StartSmall();
    sink := new ActionSink(eca, 0, 0);
    ghost var u := Wide(sink);
    WideAndNarrowSets(sink);
    assert eca.Views() + [u] == [u];
    var a, ok := eca.CreateCondition(sink, number, true, 1, 0, 0, 0, 0);
  }

  /** A small unit with two sane conditions that it accepts. */
  method TwoCreated(number: nat) returns (eca: ECA, sink: ActionSink)
    ensures fresh(eca) && fresh(eca.device) && fresh(eca.conditions) && sink.eca == eca
    ensures eca.maxConditions == 2 && eca.Structure() && eca.InOrder() && eca.Settled()
    ensures eca.Views() == [Wide(sink), Narrow(sink)] && sink.minOffset <= 0 <= sink.maxOffset
  {
    hide Means, ECA.InOrder, ActiveOf, Accepts, Condition.Sane, Condition.NewView, DeactivationOf, ECA.Settled;
    hide Device.Valid, ViewsOf, Device.SwitchedAtMostOnce, MaxConditions;
    eca, sink := OneCreated(number);
    ghost var u, v := Wide(sink), Narrow(sink);
    WideAndNarrowSets(sink);
    assert [u] + [v] == [u, v];
    var a, ok := eca.CreateCondition(sink, number + 1, true, 2, 0, U64_MAX, 0, 0);
  }

  /** The creation of a third one is refused. It stays inserted. */
  method CreationRefused(number: nat) returns (eca: ECA, sink: ActionSink, created: bool)
    ensures fresh(eca) && fresh(eca.device) && fresh(eca.conditions) && !created
    ensures eca.maxConditions == 2 && eca.Structure() && eca.InOrder() && !eca.Settled()
    ensures eca.Views() == [Wide(sink), Narrow(sink), Narrow(sink)] && sink.minOffset <= 0 <= sink.maxOffset
  {
    hide Means, ECA.InOrder, ActiveOf, Accepts, Condition.Sane, Condition.NewView, DeactivationOf, ECA.Settled;
    hide Device.Valid, ViewsOf, Device.SwitchedAtMostOnce, MaxConditions;
    eca, sink := TwoCreated(number);
    ghost var u, v := Wide(sink), Narrow(sink);
    WideAndNarrowSets(sink);
    assert [u, v] + [v] == [u, v, v];
    var c;
    c, created := eca.CreateCondition(sink, number + 2, true, 2, 0, U64_MAX, 0, 0);
  }

  /**
    Then what can only make the set smaller is refused as well: deactivating the first condition is undone without
    notice, and removing it runs into the failure that the source calls impossible.
   */
  method RemovalRefused(number: nat) returns (eca: ECA, active: bool, removed: bool)
    ensures fresh(eca) && eca.Structure() && eca.InOrder() && !eca.Settled()
    ensures active && !removed
  {
    hide Means, ActiveOf, Accepts, Device.Valid, Condition.Sane, Wide, Narrow, DeactivationOf, TogglesOf;
    var sink, created;
    eca, sink, created := CreationRefused(number);
    ghost var u, v := Wide(sink), Narrow(sink);
    WideAndNarrowSets(sink);
    eca.InactivateAll(Some(1));
    var first := eca.conditions[0];
    assert first.View() == u;
    active := first.active;
    Unique(eca.conditions, 0, IndexOf(eca.conditions, first));
    assert eca.Without(0) == [v, v];
    removed := eca.RemoveCondition(first);
  }
}
