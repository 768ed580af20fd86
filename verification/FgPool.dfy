/** All function generators of a device: they share the microcontroller and its channels. */
module FgPool {
  import opened FgTuples
  import opened FgRing
  import opened FgMachine
  import opened FunctionGenerators

  /** A step of the system: an event at one generator, tuples appended to it, or reads by the microcontroller. */
  datatype Command =
    | DoArm(g: nat)
    | DoIrq(g: nat, msi: nat, time: nat, rampCount: nat)
    | DoReset(g: nat)
    | DoTimeout(g: nat, time: nat)
    | DoAppendTuples(g: nat, ps: seq<Tuple>)
    | DoAppendSet(g: nat, fields: Fields)
    | DoFlush(g: nat)
    | DoRead(c: nat, k: nat)
  {
    /** Appended tuples fit their words; a parameter set is validated. */
    ghost predicate Packable() {
      DoAppendTuples? ==> AllEncodable(ps)
    }
  }

  // ----- the events that a generator sees

  /** What the system decides is left out: whether something is queued, a channel is free, or all is in the ring. */
  function Shape(e: Event): Event {
    match e
    case Arm(_, _) => Event.Arm(true, true)
    case Irq(msi, time, _) => Irq(msi, time, true)
    case _ => e
  }

  function Shapes(es: seq<Event>): (ss: seq<Event>)
    ensures |ss| == |es|
  {
    seq(|es|, i requires 0 <= i < |es| => Shape(es[i]))
  }

  /** The event of a command at generator i, if it is one of this generator. */
  function EventOf(cmd: Command, i: nat): seq<Event> {
    match cmd
    case DoArm(g) => if g == i then [Event.Arm(true, true)] else []
    case DoIrq(g, msi, time, _) => if g == i then [Irq(msi, time, true)] else []
    case DoReset(g) => if g == i then [Event.Reset] else []
    case DoTimeout(g, time) => if g == i then [Timeout(time)] else []
    case _ => []
  }

  function EventsOf(cmds: seq<Command>, i: nat): seq<Event> {
    if cmds == [] then [] else EventsOf(cmds[..|cmds| - 1], i) + EventOf(cmds[|cmds| - 1], i)
  }

  /** Where a generator is, and what it has emitted so far. */
  datatype Progress = Progress(control: Control, signals: seq<Signal>)

  /** Events of these shapes lead from one to the other. */
  ghost predicate Leads(before: Progress, shapes: seq<Event>, after: Progress) {
    exists es :: Shapes(es) == shapes && IsRun(before, es, after)
  }

  ghost predicate IsRun(before: Progress, es: seq<Event>, after: Progress) {
    var (c, emitted) := FgMachine.Run(before.control, es);
    after == Progress(c, before.signals + emitted)
  }

  lemma LeadsNowhere(p: Progress)
    ensures Leads(p, [], p)
  {
    assert p.signals + [] == p.signals;
    assert Shapes([]) == [] && IsRun(p, [], p);
  }

  lemma LeadsByStep(p: Progress, e: Event)
    ensures Leads(p, [Shape(e)], Progress(Step(p.control, e).0, p.signals + Step(p.control, e).1))
  {
    RunStep(p.control, [], e);
    assert [] + [e] == [e] && Shapes([e]) == [Shape(e)];
    assert [] + Step(p.control, e).1 == Step(p.control, e).1;
    assert IsRun(p, [e], Progress(Step(p.control, e).0, p.signals + Step(p.control, e).1));
  }

  lemma LeadsOn(p: Progress, s: seq<Event>, q: Progress, t: seq<Event>, r: Progress)
    requires Leads(p, s, q) && Leads(q, t, r)
    ensures Leads(p, s + t, r)
  {
    hide Step, FgMachine.Run;
    var es :| Shapes(es) == s && IsRun(p, es, q);
    var fs :| Shapes(fs) == t && IsRun(q, fs, r);
    RunConcat(p.control, es, fs);
    assert Shapes(es + fs) == s + t;
    assert (p.signals + FgMachine.Run(p.control, es).1) + FgMachine.Run(q.control, fs).1
      == p.signals + (FgMachine.Run(p.control, es).1 + FgMachine.Run(q.control, fs).1);
    assert IsRun(p, es + fs, r);
  }

  /** A timeout that is not installed does not happen. */
  lemma TimeoutIsIgnored(p: Progress, time: nat)
    requires !p.control.timerSet
    ensures Leads(p, [Timeout(time)], p)
  {
    LeadsByStep(p, Timeout(time));
    assert p.signals + [] == p.signals;
  }

  class Pool {
    const hw: Lm32
    const allocation: array<int>
    const gens: seq<FunctionGenerator>

    ghost predicate Wired()
      reads this
    {
      && (forall i :: 0 <= i < |gens| ==> gens[i].index == i && gens[i].hw == hw && gens[i].allocation == allocation)
    }

    ghost predicate Valid()
      reads this, hw, allocation, gens
    {
      && Wired() && hw.Valid() && allocation.Length == |hw.ram|
      && (forall i :: 0 <= i < |gens| ==> gens[i].Valid())
      && (forall c :: 0 <= c < allocation.Length && allocation[c] != -1 ==>
            0 <= allocation[c] < |gens| && gens[allocation[c]].channel == c)
    }

    /** A channel is marked with a generator exactly if that generator holds it. */
    lemma MarkedIffHeld(c: nat, i: nat)
      requires Valid() && c < allocation.Length && i < |gens|
      ensures allocation[c] == i <==> gens[i].channel == c
    {
    }

    /** No two generators hold the same channel. */
    lemma Exclusive(i: nat, j: nat)
      requires Valid() && i < |gens| && j < |gens| && gens[i].channel == gens[j].channel != -1
      ensures i == j
    {
      assert gens[i].Valid() && gens[j].Valid();
    }

    constructor (hw: Lm32, allocation: array<int>, gens: seq<FunctionGenerator>)
      requires hw.Valid() && allocation.Length == |hw.ram|
      requires forall c :: 0 <= c < allocation.Length ==> allocation[c] == -1
      requires forall i :: 0 <= i < |gens| ==>
        gens[i].index == i && gens[i].hw == hw && gens[i].allocation == allocation
      requires forall i :: 0 <= i < |gens| ==>
        gens[i].Valid() && gens[i].channel == -1 && gens[i].signals == [] && gens[i].fifo == gens[i].sent == []
      ensures Valid() && Speaks() && Clean() && this.gens == gens && this.hw == hw && this.allocation == allocation
    {
      this.hw, this.allocation, this.gens := hw, allocation, gens;
      NothingSpoken();
    }

    /** One generator's step leaves the others' channels alone, so everything stays in order. */
    twostate lemma OneSteps(g: nat)
      requires old(Valid()) && g < |gens| && gens[g].Valid() && gens[g].OthersSame()
      requires forall i :: 0 <= i < |gens| && i != g ==> unchanged(gens[i])
      ensures Valid()
    {
      hide RingInv, QueueOf;
      assert forall i :: 0 <= i < |gens| ==> old(gens[i].Valid());
    }

    // ----- what the listeners and the microcontroller get to see

    /** The signals of every generator are complete sessions and the one under way. */
    ghost predicate Speaks()
      reads this, gens
    {
      forall i :: 0 <= i < |gens| ==> Spoken(gens[i].signals, gens[i].Control().phase)
    }

    /** Everything that is queued can be packed. */
    ghost predicate Clean()
      reads this, gens
    {
      forall i :: 0 <= i < |gens| ==> gens[i].Clean()
    }

    /** The microcontroller has read and decoded the start of what every generator on a channel has queued. */
    ghost predicate Delivered()
      reads this, hw, gens
    {
      forall i :: 0 <= i < |gens| && 0 <= gens[i].channel < |hw.ram| ==>
        hw.ram[gens[i].channel].delivered <= gens[i].sent
    }

    lemma CleanDelivers()
      requires Valid() && Clean()
      ensures Delivered()
    {
      hide RingInv, TotalDuration;
      forall i | 0 <= i < |gens| && 0 <= gens[i].channel < |hw.ram|
        ensures hw.ram[gens[i].channel].delivered <= gens[i].sent
      {
        gens[i].Delivers();
      }
    }

    /** A step of the state machine at one generator leaves everything in order, and the signals of all. */
    twostate lemma AfterEvent(g: nat, new e: Event)
      requires old(Valid())
      requires old(Speaks())
      requires g < |gens|
      requires gens[g].Steps(e)
      requires gens[g].Valid()
      requires gens[g].OthersSame()
      requires forall i :: 0 <= i < |gens| && i != g ==> unchanged(gens[i])
      ensures Valid() && Speaks()
    {
      hide Spoken, Step, RingInv, QueueOf;
      OneSteps(g);
      assert old(gens[g].Valid());
      SpokenStep(old(gens[g].Control()), e, old(gens[g].signals));
    }

    // ----- steps

    /** Whether a step can happen: the timeout runs only while it is installed, and durations must be defined. */
    predicate Possible(cmd: Command)
      reads this, hw, gens
    {
      match cmd
      case DoArm(g) => g < |gens|
      case DoIrq(g, _, _, _) => g < |gens|
      case DoReset(g) => g < |gens|
      case DoTimeout(g, _) => g < |gens| && gens[g].timerSet
      case DoAppendTuples(g, ps) => g < |gens| && forall i :: 0 <= i < |ps| ==> ps[i].Indexable()
      case DoAppendSet(g, _) => g < |gens|
      case DoFlush(g) => g < |gens|
      case DoRead(c, _) => c < |hw.ram|
    }

    /** Any step keeps all generators, rings and the allocation in order, and so the signals and what is queued. */
    method Do(cmd: Command, sched: nat -> nat)
      requires Valid() && Speaks() && Possible(cmd)
      modifies gens, hw, allocation
      ensures Valid() && Speaks()
      ensures old(Clean()) && cmd.Packable() ==> Clean()
      ensures match cmd
        case DoArm(g) => gens[g].Steps(Event.Arm(old(gens[g].fillLevel) != 0,
          exists c :: 0 <= c < allocation.Length && old(allocation[c]) == -1))
        case DoIrq(g, msi, time, _) => gens[g].Steps(Irq(msi, time, old(|gens[g].fifo| == gens[g].filled)))
        case DoReset(g) => gens[g].Steps(Event.Reset)
        case DoTimeout(g, time) => gens[g].Steps(Timeout(time))
        case DoAppendTuples(g, ps) =>
          Quiet(g) && gens[g].sent == old(gens[g].sent) + Kept(ps, old(gens[g].capacity))
        case DoAppendSet(g, fields) =>
          Quiet(g) && gens[g].sent ==
            old(gens[g].sent) + if fields.Sound() then Kept(fields.Tuples(), old(gens[g].capacity)) else []
        case DoFlush(g) => Quiet(g) && gens[g].fifo == if old(gens[g].enabled) then old(gens[g].fifo) else []
        case DoRead(c, k) => hw.ram == old(hw.ram)[c := ConsumeMany(hw.n, old(hw.ram[c]), k)]
      ensures forall i :: 0 <= i < |gens| && i != Target(cmd) ==> unchanged(gens[i])
    {
      hide Pool.Valid, Pool.Speaks, Pool.Clean;
      match cmd
      case DoArm(g) =>
        ArmOne(g, sched);
      case DoIrq(g, msi, time, rampCount) =>
        Interrupt(g, msi, time, rampCount, sched);
      case DoReset(g) =>
        ResetOne(g);
      case DoTimeout(g, time) =>
        Expire(g, time);
      case DoAppendTuples(g, ps) =>
        AppendTuples(g, ps, sched);
      case DoAppendSet(g, fields) =>
        AppendSet(g, fields, sched);
      case DoFlush(g) =>
        FlushOne(g);
      case DoRead(c, k) =>
        Read(c, k);
    }

    /** The generator that a command is for. */
    function Target(cmd: Command): int {
      if cmd.DoRead? then -1 else cmd.g
    }

    /** The state machine has not moved, and nothing has been emitted. */
    twostate predicate Quiet(g: nat)
      requires g < |gens|
      reads gens
    {
      gens[g].Control() == old(gens[g].Control()) && gens[g].signals == old(gens[g].signals)
    }

    method ArmOne(g: nat, sched: nat -> nat)
      requires Valid() && Speaks() && g < |gens|
      modifies gens, hw, allocation
      ensures Valid() && Speaks() && (old(Clean()) ==> Clean())
      ensures gens[g].Steps(Event.Arm(old(gens[g].fillLevel) != 0,
        exists c :: 0 <= c < allocation.Length && old(allocation[c]) == -1))
      ensures forall i :: 0 <= i < |gens| && i != g ==> unchanged(gens[i])
    {
      hide RingInv, QueueOf, Spoken, Step;
      assert gens[g].Valid();
      ghost var queued, free := gens[g].fillLevel != 0, exists c :: 0 <= c < allocation.Length && allocation[c] == -1;
      var ok := gens[g].Arm(sched);
      AfterEvent(g, Event.Arm(queued, free));
    }

    method Interrupt(g: nat, msi: nat, time: nat, rampCount: nat, sched: nat -> nat)
      requires Valid() && Speaks() && g < |gens|
      modifies gens, hw, allocation
      ensures Valid() && Speaks() && (old(Clean()) ==> Clean())
      ensures gens[g].Steps(Irq(msi, time, old(|gens[g].fifo| == gens[g].filled)))
      ensures forall i :: 0 <= i < |gens| && i != g ==> unchanged(gens[i])
    {
      hide RingInv, QueueOf, Spoken, Step;
      assert gens[g].Valid();
      ghost var queueOnDevice := |gens[g].fifo| == gens[g].filled;
      gens[g].IrqHandler(msi, time, rampCount, sched);
      AfterEvent(g, Irq(msi, time, queueOnDevice));
    }

    method ResetOne(g: nat)
      requires Valid() && Speaks() && g < |gens|
      modifies gens, hw, allocation
      ensures Valid() && Speaks() && (old(Clean()) ==> Clean())
      ensures gens[g].Steps(Event.Reset)
      ensures forall i :: 0 <= i < |gens| && i != g ==> unchanged(gens[i])
    {
      hide RingInv, QueueOf, Spoken, Step;
      assert gens[g].Valid();
      gens[g].Reset();
      AfterEvent(g, Event.Reset);
    }

    method Expire(g: nat, time: nat)
      requires Valid() && Speaks() && g < |gens| && gens[g].timerSet
      modifies gens, hw, allocation
      ensures Valid() && Speaks() && (old(Clean()) ==> Clean())
      ensures gens[g].Steps(Timeout(time))
      ensures forall i :: 0 <= i < |gens| && i != g ==> unchanged(gens[i])
    {
      hide RingInv, QueueOf, Spoken, Step;
      assert gens[g].Valid();
      gens[g].ResetFailed(time);
      AfterEvent(g, Timeout(time));
    }

    method AppendTuples(g: nat, ps: seq<Tuple>, sched: nat -> nat)
      requires Valid() && Speaks() && g < |gens| && AllIndexable(ps)
      modifies gens, hw, allocation
      ensures Valid() && Speaks() && (old(Clean()) && AllEncodable(ps) ==> Clean())
      ensures Quiet(g) && gens[g].sent == old(gens[g].sent) + Kept(ps, old(gens[g].capacity))
      ensures forall i :: 0 <= i < |gens| && i != g ==> unchanged(gens[i])
    {
      hide RingInv, QueueOf, Spoken, Step, AllEncodable, Kept, Lost, DroppedAtMost, Min, FunctionGenerator.ToRead;
      hide FunctionGenerator.Refilled, FunctionGenerator.ReadBy, FunctionGenerator.LowFill, TotalDuration, AllIndexable;
      assert gens[g].Valid();
      var low := gens[g].AppendParameterTuples(ps, sched);
      OneSteps(g);
    }

    method AppendSet(g: nat, fields: Fields, sched: nat -> nat)
      requires Valid() && Speaks() && g < |gens|
      modifies gens, hw, allocation
      ensures Valid() && Speaks() && (old(Clean()) ==> Clean())
      ensures Quiet(g) && gens[g].sent ==
        old(gens[g].sent) + if fields.Sound() then Kept(fields.Tuples(), old(gens[g].capacity)) else []
      ensures forall i :: 0 <= i < |gens| && i != g ==> unchanged(gens[i])
    {
      hide RingInv, QueueOf, Spoken, Step, AllEncodable, Kept, Lost, DroppedAtMost, Min, FunctionGenerator.ToRead;
      hide FunctionGenerator.Refilled, FunctionGenerator.ReadBy, FunctionGenerator.LowFill, TotalDuration, AllIndexable;
      assert gens[g].Valid();
      var ok, low := gens[g].AppendParameterSet(fields, sched);
      OneSteps(g);
    }

    method FlushOne(g: nat)
      requires Valid() && Speaks() && g < |gens|
      modifies gens
      ensures Valid() && Speaks() && (old(Clean()) ==> Clean())
      ensures Quiet(g) && gens[g].fifo == if old(gens[g].enabled) then old(gens[g].fifo) else []
      ensures forall i :: 0 <= i < |gens| && i != g ==> unchanged(gens[i])
    {
      hide RingInv, QueueOf, Spoken, Step;
      assert gens[g].Valid();
      var ok := gens[g].Flush();
      OneSteps(g);
    }

    /** The microcontroller reads from any channel at any time. */
    method Read(c: nat, k: nat)
      requires Valid() && Speaks() && c < |hw.ram|
      modifies hw
      ensures Valid() && Speaks() && (old(Clean()) ==> Clean())
      ensures hw.ram == old(hw.ram)[c := ConsumeMany(hw.n, old(hw.ram[c]), k)]
    {
      hide RingInv, ConsumeMany, QueueOf, Spoken, Step;
      hw.Run(c, k);
      assert forall i :: 0 <= i < |gens| ==> old(gens[i].Valid());
      RamStaysOk(hw.n, old(hw.ram[c]), k);
      forall i | 0 <= i < |gens| ensures gens[i].Valid() {
        var gen := gens[i];
        if gen.channel == c {
          ConsumeManyInv(hw.n, gen.fifo, gen.filled, old(hw.ram[c]), gen.sent, k);
        }
      }
    }

    ghost function ProgressOf(): (ps: seq<Progress>)
      reads gens
      ensures |ps| == |gens| && forall i :: 0 <= i < |gens| ==> ps[i] == Progress(gens[i].Control(), gens[i].signals)
    {
      seq(|gens|, i requires 0 <= i < |gens| reads gens => Progress(gens[i].Control(), gens[i].signals))
    }

    /** Does a command if it is possible. An impossible one is no event for any generator. */
    method DoIfPossible(cmd: Command, sched: nat -> nat)
      requires Valid() && Speaks()
      modifies gens, hw, allocation
      ensures Valid() && Speaks()
      ensures old(Clean()) && cmd.Packable() ==> Clean()
      ensures forall i :: 0 <= i < |gens| ==> Leads(old(ProgressOf())[i], EventOf(cmd, i), ProgressOf()[i])
    {
      hide Pool.Valid, Pool.Speaks, Pool.Clean, Command.Packable, Leads, Step;
      ghost var before := ProgressOf();
      forall i | 0 <= i < |gens| { LeadsNowhere(before[i]); }
      if Possible(cmd) {
        ghost var filled, onDevice := true, true;
        if 0 <= Target(cmd) {
          filled, onDevice := gens[Target(cmd)].fillLevel != 0, |gens[Target(cmd)].fifo| == gens[Target(cmd)].filled;
        }
        ghost var free := exists c :: 0 <= c < allocation.Length && allocation[c] == -1;
        Do(cmd, sched);
        forall i | 0 <= i < |gens|
          ensures Leads(before[i], EventOf(cmd, i), ProgressOf()[i])
        {
          LeadsByStep(before[i], EventAt(cmd, filled, free, onDevice));
        }
      } else {
        forall i | 0 <= i < |gens|
          ensures Leads(before[i], EventOf(cmd, i), before[i])
        {
          if cmd.DoTimeout? && cmd.g == i { TimeoutIsIgnored(before[i], cmd.time); }
        }
      }
    }

    /** The event that a command is, with what the system decides. */
    function EventAt(cmd: Command, filled: bool, free: bool, onDevice: bool): Event {
      match cmd
      case DoArm(_) => Event.Arm(filled, free)
      case DoIrq(_, msi, time, _) => Irq(msi, time, onDevice)
      case DoTimeout(_, time) => Timeout(time)
      case _ => Event.Reset
    }

    /**
      Over every run of possible steps, in any interleaving: the whole system stays in order, all signals are complete
      sessions and those under way, and if what is appended can be packed, as validated sets can, the microcontroller
      has read the start of what was queued on every channel. Every generator is where its own events lead it, and has
      emitted what they emit.
     */
    method Run(cmds: seq<Command>, scheds: nat -> nat -> nat)
      requires Valid() && Speaks() && Clean()
      modifies gens, hw, allocation
      ensures Valid() && Speaks()
      ensures (forall i :: 0 <= i < |cmds| ==> cmds[i].Packable()) ==> Delivered()
      ensures forall i :: 0 <= i < |gens| ==> Leads(old(ProgressOf())[i], EventsOf(cmds, i), ProgressOf()[i])
    {
      hide Pool.Valid, Pool.Speaks, Pool.Clean, Pool.Possible, Command.Packable;
      hide Leads, EventOf;
      assert cmds[..0] == [];
      ghost var start := ProgressOf();
      forall g | 0 <= g < |gens| { LeadsNowhere(start[g]); }
      for i := 0 to |cmds|
        invariant Valid() && Speaks()
        invariant (forall j :: 0 <= j < i ==> cmds[j].Packable()) ==> Clean()
        invariant forall g :: 0 <= g < |gens| ==> Leads(start[g], EventsOf(cmds[..i], g), ProgressOf()[g])
      {
        ghost var middle := ProgressOf();
        DoIfPossible(cmds[i], scheds(i));
        assert cmds[..i + 1][..i] == cmds[..i];
        forall g | 0 <= g < |gens|
          ensures Leads(start[g], EventsOf(cmds[..i + 1], g), ProgressOf()[g])
        {
          LeadsOn(start[g], EventsOf(cmds[..i], g), middle[g], EventOf(cmds[i], g), ProgressOf()[g]);
        }
      }
      assert cmds[..|cmds|] == cmds;
      if Clean() {
        CleanDelivers();
      }
    }
  }

  lemma {:induction false} RamStaysOk(n: nat, r: Ram, k: nat)
    requires RamOk(n, r)
    ensures RamOk(n, ConsumeMany(n, r, k))
    decreases k
  {
    if k > 0 { RamStaysOk(n, Consume(n, r), k - 1); }
  }
}
