/** The function generator driver: its queue, its state machine, and the channels it shares with other generators. */
module FunctionGenerators {
  import opened Basics
  import opened FgTuples
  import opened FgRing
  import opened FgMachine

  /** The shared memory of the microcontroller: one ring buffer of n slots per channel. */
  class Lm32 {
    const n: nat
    var ram: seq<Ram>

    ghost predicate Valid()
      reads this
    {
      n > 0 && forall c :: 0 <= c < |ram| ==> RamOk(n, ram[c])
    }

    method ReadPointers(c: nat) returns (wptr: nat, rptr: nat)
      requires c < |ram|
      ensures wptr == ram[c].wptr && rptr == ram[c].rptr
    {
      wptr, rptr := ram[c].wptr, ram[c].rptr;
    }

    method WriteSlot(c: nat, offset: nat, x: Slot)
      requires c < |ram| && offset < |ram[c].slots|
      modifies this
      ensures ram == old(ram)[c := old(ram[c]).(slots := old(ram[c].slots)[offset := x])]
    {
      ram := ram[c := ram[c].(slots := ram[c].slots[offset := x])];
    }

    method WriteWptr(c: nat, wptr: nat)
      requires c < |ram|
      modifies this
      ensures ram == old(ram)[c := old(ram[c]).(wptr := wptr)]
    {
      ram := ram[c := ram[c].(wptr := wptr)];
    }

    /** The register writes of an acquisition start with an empty ring. */
    method Restart(c: nat)
      requires c < |ram|
      modifies this
      ensures ram == old(ram)[c := Fresh(n, old(ram[c].slots))]
    {
      ram := ram[c := Fresh(n, ram[c].slots)];
    }

    /** The environment: the microcontroller reads up to k slots of a channel. */
    method Run(c: nat, k: nat)
      requires c < |ram|
      modifies this
      ensures ram == old(ram)[c := ConsumeMany(n, old(ram[c]), k)]
    {
      ram := ram[c := ConsumeMany(n, ram[c], k)];
    }

    constructor (n: nat, ram: seq<Ram>)
      ensures this.n == n && this.ram == ram
    {
      this.n, this.ram := n, ram;
    }
  }

  /** Software interrupts sent to the microcontroller through its mailbox slot. */
  datatype Command = EnableChannel(channel: int) | DisableChannel(channel: int) | InitBuffers(channel: int)

  /** At most the first m entries are gone. */
  ghost predicate DroppedAtMost(m: nat, before: seq<Tuple>, after: seq<Tuple>) {
    |after| <= |before| <= |after| + m && after == before[|before| - |after|..]
  }

  function Min(a: nat, b: nat): nat { if a < b then a else b }

  /** push_back of a circular buffer: a full one loses its oldest entry, one without capacity the new entry. */
  function CircularPush(fifo: seq<Tuple>, capacity: nat, t: Tuple): seq<Tuple>
    requires |fifo| <= capacity
  {
    if capacity == 0 then fifo else if |fifo| == capacity then fifo[1..] + [t] else fifo + [t]
  }

  /** What of appended tuples is queued, and what is lost. */
  function Kept(ps: seq<Tuple>, capacity: nat): seq<Tuple> {
    if capacity > 0 then ps else []
  }

  function Lost(ps: seq<Tuple>, capacity: nat): seq<Tuple> {
    if capacity > 0 then [] else ps
  }

  /** The fill level counts what has been lost as well as what is queued; only a queue without capacity loses. */
  ghost predicate QueueOf(fifo: seq<Tuple>, lost: seq<Tuple>, capacity: nat, fillLevel: nat) {
    && |fifo| <= capacity
    && AllIndexable(fifo) && AllIndexable(lost)
    && fillLevel == TotalDuration(fifo) + TotalDuration(lost)
    && (capacity > 0 ==> lost == [])
  }

  lemma QueueAppend(fifo: seq<Tuple>, lost: seq<Tuple>, before: nat, now: nat, fillLevel: nat, p: Tuple)
    requires QueueOf(fifo, lost, before, fillLevel) && p.Indexable() && (now == 0 <==> before == 0)
    requires |fifo + Kept([p], before)| <= now
    ensures QueueOf(fifo + Kept([p], before), lost + Lost([p], before), now, fillLevel + p.Duration())
  {
    hide TotalDuration, Tuple.Duration;
    TotalAppend(fifo, p);
    TotalAppend(lost, p);
    assert fifo + [] == fifo && lost + [] == lost;
  }

  /** It does not depend on how large the capacity is. */
  lemma KeptSplit(ps: seq<Tuple>, i: nat, before: nat, now: nat)
    requires i < |ps| && (now == 0 <==> before == 0)
    ensures Kept(ps[..i + 1], before) == Kept(ps[..i], before) + Kept([ps[i]], now)
    ensures Lost(ps[..i + 1], before) == Lost(ps[..i], before) + Lost([ps[i]], now)
  {
    assert ps[..i + 1] == ps[..i] + [ps[i]];
  }

  lemma KeptEncodable(fifo: seq<Tuple>, ps: seq<Tuple>, capacity: nat)
    ensures AllEncodable(fifo) && AllEncodable(ps) ==> AllEncodable(fifo + Kept(ps, capacity))
  {
  }

  lemma DroppedEncodable(m: nat, before: seq<Tuple>, after: seq<Tuple>)
    requires DroppedAtMost(m, before, after)
    ensures AllEncodable(before) ==> AllEncodable(after)
  {
  }

  class FunctionGenerator {
    const index: nat
    const hw: Lm32
    const allocation: array<int>
    const bufferSize: nat

    var channel: int
    var enabled: bool
    var armed: bool
    var running: bool
    var abort: bool
    var timerSet: bool
    var timerConnected: bool
    var startTag: nat
    var executedParameterCount: nat

    var fillLevel: nat
    var filled: nat
    var fifo: seq<Tuple>
    var capacity: nat
    var maxSize: nat

    /** What the listeners and the microcontroller have received. */
    var refillRequests: nat
    var signals: seq<Signal>
    var commands: seq<Command>

    /** Everything queued since the channel was acquired. */
    ghost var sent: seq<Tuple>

    /** What was appended but not queued since the queue was emptied, for want of any capacity. */
    ghost var lost: seq<Tuple>

    constructor (index: nat, hw: Lm32, allocation: array<int>, capacity: nat)
      requires hw.Valid() && allocation.Length == |hw.ram|
      ensures Valid() && Control() == INITIAL && fifo == lost == [] && signals == [] && commands == []
      ensures this.capacity == capacity
      ensures this.index == index && this.hw == hw && this.allocation == allocation
    {
      this.index, this.hw, this.allocation, bufferSize := index, hw, allocation, hw.n;
      channel, enabled, armed, running, abort := -1, false, false, false, false;
      timerSet, timerConnected := false, false;
      startTag, executedParameterCount := 0, 0;
      fillLevel, filled, fifo, this.capacity, maxSize := 0, 0, [], capacity, 0;
      refillRequests, signals, commands, sent, lost := 0, [], [], [], [];
    }

    /** The state of the state machine that the flags stand for. */
    function Control(): Control
      reads this
    {
      FgMachine.Control(if !enabled then Idle else if running then Active else if armed then Ready else Waiting,
        abort, timerSet, timerConnected)
    }

    ghost predicate Flags()
      reads this
    {
      && -1 <= channel < allocation.Length
      && (enabled <==> channel != -1)
      && (armed ==> enabled && !running)
      && (running ==> enabled)
      && Sane(Control())
    }

    /** Everything but the contents of the ring. */
    ghost predicate Base()
      reads this, hw, allocation
    {
      && hw.Valid() && hw.n == bufferSize && allocation.Length == |hw.ram|
      && Flags()
      && Queue()
      && (channel != -1 ==> allocation[channel] == index)
    }

    ghost predicate Valid()
      reads this, hw, allocation
    {
      Base() && if channel == -1 then filled == 0 else OnChannel()
    }

    /**
      Channels that this generator neither held nor holds are as before; one that it gave up is free, and one that it
      took was free.
     */
    twostate predicate OthersSame()
      reads this, hw, allocation
    {
      && |hw.ram| == old(|hw.ram|)
      && (forall d :: 0 <= d < |hw.ram| && d != channel && d != old(channel) ==> hw.ram[d] == old(hw.ram[d]))
      && (forall d :: 0 <= d < allocation.Length && d != channel && d != old(channel) ==>
        allocation[d] == old(allocation[d]))
      && (old(channel) != channel && 0 <= old(channel) < allocation.Length ==>
        channel == -1 && allocation[old(channel)] == -1)
      && (old(channel) != channel && 0 <= channel < allocation.Length ==> old(allocation[..])[channel] == -1)
    }

    /** All that is queued, and was since the channel was acquired, can be packed. */
    ghost predicate Clean()
      reads this`fifo, this`sent
    {
      AllEncodable(fifo) && AllEncodable(sent)
    }

    /** What the event does to the flags and what it emits is what the state machine says. */
    twostate predicate Steps(e: Event)
      reads this
    {
      Control() == Step(old(Control()), e).0 && signals == old(signals) + Step(old(Control()), e).1
    }

    /** What the microcontroller has been given since the channel was acquired arrives in order and complete. */
    lemma Delivers()
      requires Valid() && channel != -1 && AllEncodable(sent)
      ensures hw.ram[channel].delivered <= sent
      ensures fifo == sent[|sent| - |fifo|..] && |hw.ram[channel].delivered| >= |sent| - |fifo|
    {
      DeliveredIsPrefix(bufferSize, fifo, filled, hw.ram[channel], sent);
    }

    predicate LowFill()
      reads this
    {
      |fifo| < bufferSize * 2
    }

    ghost predicate OnChannel()
      reads this`channel, this`fifo, this`filled, this`sent, hw
    {
      && hw.n == bufferSize
      && 0 <= channel < |hw.ram|
      && RingInv(bufferSize, fifo, filled, hw.ram[channel], sent)
    }

    ghost predicate Queue()
      reads this`fifo, this`capacity, this`fillLevel, this`lost
    {
      QueueOf(fifo, lost, capacity, fillLevel)
    }

    /**
      The fill level is what is queued exactly if the queue has a capacity or nothing was appended since it was emptied.
     */
    lemma FillLevelIsQueued()
      requires Queue()
      ensures fillLevel == TotalDuration(fifo) <==> capacity > 0 || lost == []
      ensures fillLevel != 0 <==> fifo != [] || lost != []
    {
      ZeroMeansEmpty(fifo);
      ZeroMeansEmpty(lost);
    }

    lemma EmptyIsQueue()
      requires fifo == lost == [] && fillLevel == 0
      ensures Queue()
    {
    }

    /** What the microcontroller has still to read after k more reads. */
    ghost function ToRead(r: Ram, k: nat): nat {
      var r' := ConsumeMany(bufferSize, r, k);
      if r'.rptr <= r'.wptr + bufferSize then Remaining(bufferSize, r') else 0
    }

    /** How much the microcontroller has read since the channel was acquired, after k more reads. */
    ghost function ReadBy(r: Ram, k: nat): nat {
      |ConsumeMany(bufferSize, r, k).delivered|
    }

    /** The queue is exactly what the microcontroller had not read when, after k more reads, the refill began. */
    twostate predicate Refilled(k: nat)
      reads this, hw
    {
      && 0 <= old(channel) < old(|hw.ram|) && ReadBy(old(hw.ram[channel]), k) <= |sent|
      && fifo == sent[ReadBy(old(hw.ram[channel]), k)..]
    }

    /** Nothing but the ring of this generator's channel has changed. */
    twostate predicate OtherChannelsSame(c: int)
      reads hw
    {
      |hw.ram| == old(|hw.ram|) && forall d :: 0 <= d < |hw.ram| && d != c ==> hw.ram[d] == old(hw.ram[d])
    }

    /** Appends to the circular buffer, which is enlarged when it is full. Without any capacity the tuple is lost. */
    method FifoPushBack(t: Tuple)
      requires |fifo| <= capacity
      modifies this`fifo, this`capacity, this`maxSize
      ensures |fifo| <= capacity && capacity >= old(capacity) && (capacity == 0 <==> old(capacity) == 0)
      ensures fifo == old(fifo) + Kept([t], old(capacity))
    {
      if |fifo| == capacity {
        capacity := capacity * 2;
      }
      fifo := CircularPush(fifo, capacity, t);
      if maxSize < |fifo| {
        maxSize := |fifo|;
      }
    }

    /**
      Drops what the microcontroller has read and fills the free slots. sched says how many slots the microcontroller
      reads before each of the bus accesses; the first refill of a session takes both pointers to be zero.
     */
    method Refill(first: bool, sched: nat -> nat)
      requires OnChannel() && Queue()
      requires first ==> hw.ram[channel].wptr == hw.ram[channel].rptr == 0
      modifies this`fifo, this`filled, this`fillLevel, this`refillRequests, hw
      ensures OnChannel() && Queue() && OtherChannelsSame(channel)
      ensures DroppedAtMost(old(filled), old(fifo), fifo)
      ensures !first ==> |fifo| == old(|fifo| - filled) + ToRead(old(hw.ram[channel]), sched(0))
      ensures !first ==>
        ReadBy(old(hw.ram[channel]), sched(0)) <= |sent| && fifo == sent[ReadBy(old(hw.ram[channel]), sched(0))..]
      ensures filled == Min(|fifo|, bufferSize - 1)
      ensures refillRequests == old(refillRequests) + if LowFill() && !old(LowFill()) then 1 else 0
    {
      hide RingInv, ConsumeMany, TotalDuration, AllIndexable;
      var c: nat := channel;
      var writeOffset, remaining := ReadOffsets(c, first, sched(0));
      PopCompleted(filled - remaining);
      assert filled == remaining;
      RingFacts(bufferSize, fifo, filled, hw.ram[c], sent);
      UnreadIsQueued(bufferSize, fifo, filled, hw.ram[c], sent);
      var todo, space := |fifo| - filled, bufferSize - 1 - filled;
      var refill := Min(todo, space);
      WriteTuples(c, writeOffset, refill, sched);
      filled := filled + refill;
    }

    /** The first bus cycle: where to write, and how many entries are still to be read. */
    method ReadOffsets(c: nat, first: bool, k: nat) returns (writeOffset: nat, remaining: nat)
      requires OnChannel() && c == channel
      requires first ==> hw.ram[channel].wptr == hw.ram[channel].rptr == 0
      modifies hw
      ensures OnChannel() && OtherChannelsSame(channel) && writeOffset == hw.ram[c].wptr
      ensures remaining == Remaining(bufferSize, hw.ram[c]) <= filled <= |fifo|
      ensures hw.ram[c] == if first then old(hw.ram[c]) else ConsumeMany(bufferSize, old(hw.ram[c]), k)
    {
      hide RingInv, ConsumeMany;
      var writeOffsetD, readOffsetD := 0, 0;
      if !first {
        hw.Run(c, k);
        ConsumeManyInv(bufferSize, fifo, filled, old(hw.ram[c]), sent, k);
        writeOffsetD, readOffsetD := hw.ReadPointers(c);
      }
      RingFacts(bufferSize, fifo, filled, hw.ram[c], sent);
      ModSmall(writeOffsetD, bufferSize);
      ModSmall(readOffsetD, bufferSize);
      writeOffset := writeOffsetD % bufferSize;
      var readOffset := readOffsetD % bufferSize;
      remaining := WrappingSub(writeOffset, readOffset, bufferSize);
    }

    method PopCompleted(completed: nat)
      requires OnChannel() && Queue() && completed + Remaining(bufferSize, hw.ram[channel]) <= filled
      modifies this`fifo, this`filled, this`fillLevel, this`refillRequests
      ensures OnChannel() && Queue()
      ensures filled == old(filled) - completed && fifo == old(fifo)[completed..]
      ensures refillRequests == old(refillRequests) + if LowFill() && !old(LowFill()) then 1 else 0
    {
      hide RingInv;
      var wasLow := LowFill();
      var i := 0;
      RingFacts(bufferSize, fifo, filled, hw.ram[channel], sent);
      while i < completed && fifo != []
        invariant i <= completed <= old(|fifo|) && OnChannel() && Queue() && refillRequests == old(refillRequests)
        invariant filled == old(filled) - i && fifo == old(fifo)[i..]
      {
        PopOne();
        i := i + 1;
      }
      if LowFill() && !wasLow {
        refillRequests := refillRequests + 1;
      }
    }

    /** One step of the loop that drops what has been read. */
    method PopOne()
      requires OnChannel() && Queue() && Remaining(bufferSize, hw.ram[channel]) < filled && fifo != []
      modifies this`fifo, this`filled, this`fillLevel
      ensures OnChannel() && Queue() && filled == old(filled) - 1 && fifo == old(fifo)[1..]
    {
      hide RingInv;
      TotalSplit(fifo);
      PopInv(bufferSize, fifo, filled, hw.ram[channel], sent);
      fillLevel := fillLevel - fifo[0].Duration();
      filled := filled - 1;
      fifo := fifo[1..];
    }

    /** Writes the tuples fifo[filled..filled + refill] behind the write pointer and then publishes them. */
    method WriteTuples(c: nat, writeOffset: nat, refill: nat, sched: nat -> nat)
      requires OnChannel() && c == channel && writeOffset == hw.ram[c].wptr
      requires filled + refill <= |fifo| && filled + refill < bufferSize
      modifies hw
      ensures hw.n == bufferSize && |hw.ram| == old(|hw.ram|)
      ensures RingInv(bufferSize, fifo, filled + refill, hw.ram[c], sent) && OtherChannelsSame(c)
    {
      hide RingInv, Encode;
      RingFacts(bufferSize, fifo, filled, hw.ram[c], sent);
      for i := 0 to refill
        invariant OnChannel() && OtherChannelsSame(c) && hw.ram[c].wptr == writeOffset
        invariant Staged(bufferSize, fifo, filled, hw.ram[c], i)
      {
        hide Staged;
        RunStaged(c, i, sched(i + 1));
        StageNext(bufferSize, fifo, filled, hw.ram[c], sent, i);
        hw.WriteSlot(c, WrappingAdd(writeOffset, i, bufferSize), Encode(fifo[filled + i]));
      }
      RunStaged(c, refill, sched(refill + 1));
      PublishInv(bufferSize, fifo, filled, hw.ram[c], sent, refill);
      hw.WriteWptr(c, WrappingAdd(writeOffset, refill, bufferSize));
    }

    /** The microcontroller runs between two bus accesses. */
    method RunStaged(c: nat, m: nat, k: nat)
      requires OnChannel() && c == channel && Staged(bufferSize, fifo, filled, hw.ram[c], m)
      modifies hw
      ensures OnChannel() && OtherChannelsSame(c) && Staged(bufferSize, fifo, filled, hw.ram[c], m)
      ensures hw.ram[c].wptr == old(hw.ram[c].wptr)
    {
      hide RingInv, Staged;
      hw.Run(c, k);
      ConsumeManyInv(bufferSize, fifo, filled, old(hw.ram[c]), sent, k);
      ConsumeStaged(bufferSize, fifo, filled, old(hw.ram[c]), m, k);
    }

    // ----- channels

    /** Takes the first free channel of the pool and restarts its ring; fails exactly if there is none. */
    method AcquireChannel() returns (ok: bool)
      requires Valid() && channel == -1
      modifies this`channel, this`enabled, this`signals, this`sent, hw, allocation
      ensures ok <==> exists c :: 0 <= c < allocation.Length && old(allocation[c]) == -1
      ensures !ok ==> unchanged(this) && unchanged(hw) && unchanged(allocation)
      ensures ok ==> 0 <= channel < allocation.Length && old(allocation[..])[channel] == -1
      ensures ok ==> forall d :: 0 <= d < channel ==> old(allocation[d]) != -1
      ensures ok ==> Valid() && OthersSame() && enabled && signals == old(signals) + [Enabled(true)]
      ensures ok ==> hw.ram[channel].wptr == hw.ram[channel].rptr == 0 && sent == fifo
    {
      hide RingInv, TotalDuration, AllIndexable, QueueOf;
      var i := 0;
      while i < allocation.Length && allocation[i] != -1
        invariant 0 <= i <= allocation.Length
        invariant forall d :: 0 <= d < i ==> allocation[d] != -1
      {
        i := i + 1;
      }
      if i == allocation.Length {
        return false;
      }
      AcquireInv(bufferSize, fifo, hw.ram[i].slots);
      hw.Restart(i);
      allocation[i] := index;
      channel := i;
      sent := fifo;
      enabled := true;
      signals := signals + [Enabled(true)];
      ok := true;
    }

    /** Returns the channel to the pool; after an abort the queue is emptied. */
    method ReleaseChannel()
      requires Base() && channel != -1 && !armed && !running
      modifies this`channel, this`enabled, this`timerSet, this`filled, this`fifo, this`fillLevel, this`lost,
        this`signals, this`commands, allocation
      ensures Valid() && OthersSame() && channel == -1 && !enabled && !timerSet
      ensures allocation[old(channel)] == -1
      ensures signals == old(signals) + [Enabled(false)]
      ensures commands == old(commands) + if abort then [InitBuffers(old(channel))] else []
      ensures fifo == (if abort then [] else old(fifo)) && lost == if abort then [] else old(lost)
    {
      hide RingInv, FunctionGenerator.OnChannel, FunctionGenerator.Queue, Lm32.Valid;
      timerSet := false;
      if abort {
        commands := commands + [InitBuffers(channel)];
      }
      allocation[channel] := -1;
      channel := -1;
      filled := 0;
      enabled := false;
      signals := signals + [Enabled(false)];
      if abort {
        var ok := Flush();
      }
    }

    /** Empties the queue, which is refused while the generator is enabled. */
    method Flush() returns (ok: bool)
      requires channel == -1 || enabled
      modifies this`fifo, this`fillLevel, this`lost
      ensures ok <==> !enabled
      ensures if ok then fifo == lost == [] && fillLevel == 0
        else fifo == old(fifo) && lost == old(lost) && fillLevel == old(fillLevel)
      ensures ok ==> Queue()
    {
      if enabled {
        return false;
      }
      fillLevel := 0;
      fifo, lost := [], [];
      ok := true;
    }

    // ----- events

    /** Enables the generator if its fill level is not zero and a channel is free, and fills the ring. */
    method Arm(sched: nat -> nat) returns (ok: bool)
      requires Valid()
      modifies this`channel, this`enabled, this`abort, this`signals, this`sent, this`fifo, this`filled, this`fillLevel,
        this`refillRequests, this`commands, hw, allocation
      ensures Valid() && OthersSame()
      ensures Steps(Event.Arm(old(fillLevel) != 0,
        exists c :: 0 <= c < allocation.Length && old(allocation[c]) == -1))
      ensures old(fillLevel) != 0 <==> old(fifo) != [] || lost != []
      ensures ok <==> !old(enabled) && enabled
      ensures ok <==>
        !old(enabled) && old(fillLevel) != 0 && exists c :: 0 <= c < allocation.Length && old(allocation[c]) == -1
      ensures signals == old(signals) + if ok then [Enabled(true)] else []
      ensures abort == if !old(enabled) && old(fillLevel) != 0 then false else old(abort)
      ensures fifo == old(fifo)
      ensures sent == if ok then fifo else old(sent)
      ensures ok ==> filled == Min(|fifo|, bufferSize - 1)
      ensures commands == old(commands) + if ok then [EnableChannel(channel)] else []
    {
      hide RingInv, TotalDuration, AllIndexable, QueueOf;
      FillLevelIsQueued();
      if enabled {
        return false;
      }
      hide FunctionGenerator.OnChannel, FunctionGenerator.Queue, Lm32.Valid;
      if fillLevel == 0 {
        return false;
      }
      abort := false;
      ok := AcquireChannel();
      if ok {
        Begin(sched);
      }
    }

    /** Fills an acquired channel and tells the microcontroller to start. */
    method Begin(sched: nat -> nat)
      requires Valid() && channel != -1 && filled == 0
      requires hw.ram[channel].wptr == hw.ram[channel].rptr == 0
      modifies this`fifo, this`filled, this`fillLevel, this`refillRequests, this`commands, hw
      ensures Valid() && OthersSame() && fifo == old(fifo) && filled == Min(|fifo|, bufferSize - 1)
      ensures commands == old(commands) + [EnableChannel(channel)]
    {
      hide RingInv, TotalDuration, AllIndexable, FunctionGenerator.OnChannel, FunctionGenerator.Queue, Lm32.Valid;
      FirstRefill(sched);
      commands := commands + [EnableChannel(channel)];
    }

    /** The refill of an acquired channel drops nothing. */
    method FirstRefill(sched: nat -> nat)
      requires Valid() && channel != -1 && filled == 0
      requires hw.ram[channel].wptr == hw.ram[channel].rptr == 0
      modifies this`fifo, this`filled, this`fillLevel, this`refillRequests, hw
      ensures Valid() && OthersSame() && fifo == old(fifo) && filled == Min(|fifo|, bufferSize - 1)
    {
      hide RingInv, TotalDuration, AllIndexable, QueueOf;
      Refill(true, sched);
      StillValid();
    }

    /** A later refill drops what has been read and fills the ring as far as possible. */
    method NextRefill(sched: nat -> nat)
      requires Valid() && channel != -1
      modifies this`fifo, this`filled, this`fillLevel, this`refillRequests, hw
      ensures Valid() && OthersSame() && filled == Min(|fifo|, bufferSize - 1)
      ensures DroppedAtMost(old(filled), old(fifo), fifo)
      ensures |fifo| == old(|fifo| - filled) + ToRead(old(hw.ram[channel]), sched(0))
      ensures Refilled(sched(0))
      ensures refillRequests == old(refillRequests) + if LowFill() && !old(LowFill()) then 1 else 0
    {
      hide RingInv, TotalDuration, AllIndexable, QueueOf;
      Refill(false, sched);
      StillValid();
    }

    /** After a refill the memory of every channel is in order. */
    twostate lemma StillValid()
      requires old(hw.Valid()) && hw.n == bufferSize && 0 <= channel < |hw.ram| && OtherChannelsSame(channel) &&
        OnChannel()
      ensures hw.Valid()
    {
      RingFacts(bufferSize, fifo, filled, hw.ram[channel], sent);
    }

    /**
      An interrupt from the microcontroller, in any order. queueOnDevice: whether the whole queue is in the ring.
      A stop that is neither forced nor an underflow empties the queue, and so does the end of an aborted session.
     */
    method IrqHandler(msi: nat, time: nat, rampCount: nat, sched: nat -> nat)
      requires Valid()
      modifies this`channel, this`enabled, this`armed, this`running, this`timerSet, this`executedParameterCount,
        this`filled, this`fifo, this`fillLevel, this`lost, this`refillRequests, this`signals, this`commands, hw,
        allocation
      ensures Valid() && OthersSame() && Steps(Irq(msi, time, old(|fifo| == filled)))
      ensures enabled <==> old(enabled) && !(old(armed) && msi == IRQ_DAT_DISARMED) && !(old(running) && IsStop(msi))
      ensures armed <==>
        (old(armed) && msi != IRQ_DAT_START && msi != IRQ_DAT_DISARMED) ||
        (old(enabled && !armed && !running) && msi == IRQ_DAT_ARMED)
      ensures running <==> (old(running) && !IsStop(msi)) || (old(armed) && msi == IRQ_DAT_START)
      ensures timerSet == (old(timerSet) && enabled)
      ensures if msi == IRQ_DAT_REFILL && running
        then DroppedAtMost(old(filled), old(fifo), fifo)
        else fifo == if Drained(msi) then [] else old(fifo)
      ensures lost == if Drained(msi) then [] else old(lost)
      ensures msi == IRQ_DAT_REFILL && running ==>
        && filled == Min(|fifo|, bufferSize - 1)
        && |fifo| == old(|fifo| - filled) + ToRead(old(hw.ram[channel]), sched(0))
        && Refilled(sched(0))
      ensures refillRequests == old(refillRequests) +
        if msi == IRQ_DAT_REFILL && running && |fifo| < bufferSize * 2 <= old(|fifo|) then 1 else 0
      ensures signals == old(signals) +
        if armed && !old(armed) then [Armed(true)]
        else if running && !old(running) then [Armed(false), Running(true), Started(time)]
        else if old(armed && enabled) && !enabled then [Armed(false), Enabled(false)]
        else if old(running && enabled) && !enabled then [Running(false), Stopped(time, abort,
          msi != IRQ_DAT_STOP_EMPTY && !abort, msi == IRQ_DAT_STOP_EMPTY && !abort && old(|fifo| != filled)),
          Enabled(false)]
        else []
      ensures executedParameterCount == if old(running) && !running then rampCount else old(executedParameterCount)
      ensures commands == old(commands) + if old(enabled) && !enabled && abort then [InitBuffers(old(channel))] else []
    {
      hide RingInv, FunctionGenerator.Queue, FunctionGenerator.OnChannel, FunctionGenerator.ToRead, Lm32.Valid;
      hide DroppedAtMost, Min, QueueOf, FunctionGenerator.OthersSame, FunctionGenerator.ReadBy, Step;
      IrqMeans(Control(), msi, time, |fifo| == filled);
      NothingElse();
      if channel == -1 {
        return;
      }
      if msi == IRQ_DAT_REFILL {
        if running {
          NextRefill(sched);
        }
      } else if msi == IRQ_DAT_ARMED {
        if !running && !armed {
          BecomeArmed();
        }
      } else if msi == IRQ_DAT_DISARMED {
        if !running && armed {
          Disarm();
        }
      } else if msi == IRQ_DAT_START {
        if !running && armed {
          StartRunning(time);
        }
      } else if !armed && running {
        StopRunning(msi, time, rampCount);
      }
    }

    /** What leaves channel, memory and allocation alone leaves those of the others alone. */
    twostate lemma NothingElse()
      requires channel == old(channel) && hw.ram == old(hw.ram) && allocation[..] == old(allocation[..])
      ensures OthersSame()
    {
      assert forall d :: 0 <= d < allocation.Length ==> allocation[d] == allocation[..][d];
    }

    method BecomeArmed()
      requires Valid() && enabled && !armed && !running
      modifies this`armed, this`signals
      ensures Valid() && OthersSame() && armed && signals == old(signals) + [Armed(true)]
    {
      hide RingInv, FunctionGenerator.Queue, FunctionGenerator.OnChannel, FunctionGenerator.OthersSame, Lm32.Valid;
      armed := true;
      signals := signals + [Armed(armed)];
      NothingElse();
    }

    method StartRunning(time: nat)
      requires Valid() && armed
      modifies this`armed, this`running, this`signals
      ensures Valid() && OthersSame() && !armed && running
      ensures signals == old(signals) + [Armed(false), Running(true), Started(time)]
    {
      hide RingInv, FunctionGenerator.Queue, FunctionGenerator.OnChannel, FunctionGenerator.OthersSame, Lm32.Valid;
      armed := false;
      running := true;
      signals := signals + [Armed(armed)];
      signals := signals + [Running(running)];
      signals := signals + [Started(time)];
      NothingElse();
    }

    method Disarm()
      requires Valid() && armed
      modifies this`channel, this`enabled, this`armed, this`timerSet, this`filled, this`fifo, this`fillLevel,
        this`lost, this`signals, this`commands, allocation
      ensures Valid() && OthersSame() && channel == -1 && !armed && !timerSet
      ensures signals == old(signals) + [Armed(false), Enabled(false)]
      ensures commands == old(commands) + if abort then [InitBuffers(old(channel))] else []
      ensures fifo == (if abort then [] else old(fifo)) && lost == if abort then [] else old(lost)
    {
      hide RingInv, FunctionGenerator.Queue, FunctionGenerator.OnChannel, Lm32.Valid;
      armed := false;
      signals := signals + [Armed(armed)];
      ReleaseChannel();
    }

    /** Whether the interrupt ended a session that leaves nothing in the queue. */
    twostate predicate Drained(msi: nat)
      reads this
    {
      old(channel) != -1 && channel == -1 &&
        (abort || (old(running) && msi == IRQ_DAT_STOP_EMPTY && old(|fifo| == filled)))
    }

    method StopRunning(msi: nat, time: nat, rampCount: nat)
      requires Valid() && running
      modifies this`channel, this`enabled, this`running, this`timerSet, this`executedParameterCount,
        this`filled, this`fifo, this`fillLevel, this`lost, this`signals, this`commands, allocation
      ensures Valid() && OthersSame() && channel == -1 && !running && !timerSet
      ensures var hardware := msi != IRQ_DAT_STOP_EMPTY && !abort;
        var micro := old(|fifo| != filled) && !hardware && !abort;
        && signals == old(signals) + [Running(false), Stopped(time, abort, hardware, micro), Enabled(false)]
        && fifo == (if abort || (!hardware && !micro) then [] else old(fifo))
        && lost == if abort || (!hardware && !micro) then [] else old(lost)
      ensures executedParameterCount == rampCount
      ensures commands == old(commands) + if abort then [InitBuffers(old(channel))] else []
    {
      hide RingInv, FunctionGenerator.OnChannel, FunctionGenerator.Queue, Lm32.Valid;
      var hardware := msi != IRQ_DAT_STOP_EMPTY && !abort;
      var micro := |fifo| != filled && !hardware && !abort;
      if !abort && !hardware && !micro {
        fillLevel := 0;
        fifo, lost := [], [];
        EmptyIsQueue();
      }
      executedParameterCount := rampCount;
      running := false;
      signals := signals + [Running(running)];
      signals := signals + [Stopped(time, abort, hardware, micro)];
      ReleaseChannel();
    }

    /** Starts an abort: the microcontroller is told to stop, and the first time ever a timeout is installed. */
    method Reset()
      requires Valid()
      modifies this`abort, this`timerSet, this`timerConnected, this`commands
      ensures Valid() && Steps(Event.Reset)
      ensures abort == (old(abort) || channel != -1)
      ensures timerSet == (old(timerSet) || (channel != -1 && !old(abort) && !old(timerConnected)))
      ensures commands == old(commands) + if channel != -1 && !old(abort) then [DisableChannel(channel)] else []
    {
      hide RingInv, TotalDuration, AllIndexable, QueueOf;
      if channel == -1 || abort {
        return;
      }
      abort := true;
      commands := commands + [DisableChannel(channel)];
      if !timerConnected {
        timerSet := true;
        timerConnected := true;
      }
    }

    /** The reset timeout: the missing transitions are synthesized and the channel is released. */
    method ResetFailed(time: nat)
      requires Valid() && timerSet
      modifies this`channel, this`enabled, this`armed, this`running, this`timerSet, this`filled, this`fifo,
        this`fillLevel, this`lost, this`signals, this`commands, allocation
      ensures Valid() && OthersSame() && Steps(Timeout(time)) && channel == -1 && fifo == lost == []
      ensures !enabled && !armed && !running && !timerSet
      ensures commands == old(commands) + [InitBuffers(old(channel))]
      ensures signals == old(signals) + (
        if old(running) then [Running(false), Stopped(time, true, false, false)]
        else if old(armed) then [Armed(false)] else [Armed(true), Armed(false)]) + [Enabled(false)]
    {
      hide RingInv, TotalDuration, AllIndexable, QueueOf;
      if running {
        running := false;
        signals := signals + [Running(running)];
        signals := signals + [Stopped(time, true, false, false)];
      } else {
        if !armed {
          armed := true;
          signals := signals + [Armed(armed)];
        }
        armed := false;
        signals := signals + [Armed(armed)];
      }
      ReleaseChannel();
    }

    // ----- appending

    /** Queues tuples; on a channel the ring is refilled at once. */
    method AppendParameterTuples(ps: seq<Tuple>, sched: nat -> nat) returns (low: bool)
      requires Valid() && AllIndexable(ps)
      modifies this`fifo, this`capacity, this`maxSize, this`fillLevel, this`filled, this`refillRequests, this`sent,
        this`lost, hw
      ensures Valid() && OthersSame()
      ensures sent == old(sent) + Kept(ps, old(capacity)) && lost == old(lost) + Lost(ps, old(capacity))
      ensures if channel == -1 then fifo == old(fifo) + Kept(ps, old(capacity))
        else DroppedAtMost(old(filled), old(fifo) + Kept(ps, old(capacity)), fifo)
      ensures capacity == 0 <==> old(capacity) == 0
      ensures channel != -1 ==>
        && filled == Min(|fifo|, bufferSize - 1)
        && |fifo| == old(|fifo| - filled) + |Kept(ps, old(capacity))| + ToRead(old(hw.ram[channel]), sched(0))
        && Refilled(sched(0))
      ensures refillRequests == old(refillRequests) +
        if channel != -1 && |fifo| < bufferSize * 2 <= old(|fifo|) + |Kept(ps, old(capacity))| then 1 else 0
      ensures low <==> |fifo| < bufferSize * 2
      ensures old(Clean()) && AllEncodable(ps) ==> Clean()
    {
      hide RingInv, TotalDuration, AllIndexable, QueueOf, FunctionGenerator.Queue, Kept, Lost;
      hide AllEncodable, DroppedAtMost, Min, FunctionGenerator.ToRead, FunctionGenerator.ReadBy;
      KeptEncodable(fifo, ps, capacity);
      KeptEncodable(sent, ps, capacity);
      AppendAll(ps);
      ghost var queued := fifo;
      if channel != -1 {
        NextRefill(sched);
        DroppedEncodable(old(filled), queued, fifo);
      }
      low := LowFill();
    }

    /** Queues tuples one after the other. */
    method AppendAll(ps: seq<Tuple>)
      requires Valid() && AllIndexable(ps)
      modifies this`fifo, this`capacity, this`maxSize, this`fillLevel, this`sent, this`lost
      ensures Valid() && fifo == old(fifo) + Kept(ps, old(capacity)) && sent == old(sent) + Kept(ps, old(capacity))
      ensures lost == old(lost) + Lost(ps, old(capacity)) && (capacity == 0 <==> old(capacity) == 0)
    {
      hide FunctionGenerator.Valid;
      for i := 0 to |ps|
        invariant Valid() && (capacity == 0 <==> old(capacity) == 0)
        invariant fifo == old(fifo) + Kept(ps[..i], old(capacity)) && sent == old(sent) + Kept(ps[..i], old(capacity))
        invariant lost == old(lost) + Lost(ps[..i], old(capacity))
      {
        KeptSplit(ps, i, old(capacity), capacity);
        AppendOne(ps[i]);
      }
      assert ps[..|ps|] == ps;
    }

    lemma QueueFits()
      requires Queue()
      ensures |fifo| <= capacity
    {
    }

    method AppendOne(p: Tuple)
      requires Valid() && p.Indexable()
      modifies this`fifo, this`capacity, this`maxSize, this`fillLevel, this`sent, this`lost
      ensures Valid() && fifo == old(fifo) + Kept([p], old(capacity)) && sent == old(sent) + Kept([p], old(capacity))
      ensures lost == old(lost) + Lost([p], old(capacity)) && (capacity == 0 <==> old(capacity) == 0)
    {
      hide RingInv, TotalDuration, AllIndexable, Tuple.Duration, QueueOf;
      QueueFits();
      if capacity > 0 && channel != -1 {
        AppendInv(bufferSize, fifo, filled, hw.ram[channel], sent, p);
      }
      assert fifo + [] == fifo && sent + [] == sent;
      FifoPushBack(p);
      QueueAppend(old(fifo), lost, old(capacity), capacity, fillLevel, p);
      sent, lost := sent + Kept([p], old(capacity)), lost + Lost([p], old(capacity));
      fillLevel := fillLevel + p.Duration();
    }

    /**
      Validates lists of field values and queues the tuples that they form index by index; an error leaves everything
      as it is.
     */
    method AppendParameterSet(fields: Fields, sched: nat -> nat) returns (ok: bool, low: bool)
      requires Valid()
      modifies this`fifo, this`capacity, this`maxSize, this`fillLevel, this`filled, this`refillRequests, this`sent,
        this`lost, hw
      ensures ok <==> fields.Sound()
      ensures !ok ==> unchanged(this) && unchanged(hw)
      ensures ok ==> Valid() && OthersSame() && sent == old(sent) + Kept(fields.Tuples(), old(capacity))
      ensures ok ==> lost == old(lost) + Lost(fields.Tuples(), old(capacity))
      ensures ok && channel == -1 ==> fifo == old(fifo) + Kept(fields.Tuples(), old(capacity))
      ensures ok && channel != -1 ==>
        && DroppedAtMost(old(filled), old(fifo) + Kept(fields.Tuples(), old(capacity)), fifo)
        && filled == Min(|fifo|, bufferSize - 1)
        && Refilled(sched(0))
      ensures ok ==>
        refillRequests == old(refillRequests) +
          if channel != -1 && |fifo| < bufferSize * 2 <= old(|fifo|) + |Kept(fields.Tuples(), old(capacity))|
          then 1 else 0
      ensures ok ==> (low <==> |fifo| < bufferSize * 2)
      ensures old(Clean()) ==> Clean()
    {
      hide RingInv, QueueOf, FunctionGenerator.OnChannel, FunctionGenerator.ToRead, FunctionGenerator.ReadBy;
      hide Lm32.Valid, DroppedAtMost, Min, Kept, Lost, FunctionGenerator.Flags;
      hide AllEncodable, AllIndexable, TotalDuration;
      hide Fields.Sound, Fields.Tuples;
      low := false;
      ok := Validate(fields);
      if !ok {
        return;
      }
      SoundFits(fields);
      var tuples := Import(fields);
      low := AppendParameterTuples(tuples, sched);
    }
  }

  /** The tuples that the lists form index by index. */
  method Import(fields: Fields) returns (tuples: seq<Tuple>)
    requires fields.LengthsMatch()
    ensures tuples == fields.Tuples() && |tuples| == |fields.coeffA|
    ensures forall i :: 0 <= i < |tuples| ==>
      && tuples[i].coeffA == fields.coeffA[i] && tuples[i].coeffB == fields.coeffB[i]
      && tuples[i].coeffC == fields.coeffC[i] && tuples[i].step == fields.step[i] && tuples[i].freq == fields.freq[i]
      && tuples[i].shiftA == fields.shiftA[i] && tuples[i].shiftB == fields.shiftB[i]
  {
    tuples := [];
    for i := 0 to |fields.coeffA|
      invariant tuples == fields.Tuples()[..i]
    {
      var tuple := Tuple(fields.coeffA[i], fields.coeffB[i], fields.coeffC[i], fields.step[i], fields.freq[i],
        fields.shiftA[i], fields.shiftB[i]);
      tuples := tuples + [tuple];
    }
  }

  /** The checks on a parameter set. */
  method Validate(fields: Fields) returns (ok: bool)
    ensures ok <==> fields.Sound()
    ensures ok <==>
      && |fields.coeffA| == |fields.coeffB| == |fields.coeffC|
      && |fields.coeffA| == |fields.step| == |fields.freq| == |fields.shiftA| == |fields.shiftB|
      && forall i :: 0 <= i < |fields.coeffA| ==>
        fields.step[i] < 8 && fields.freq[i] < 8 && fields.shiftA[i] <= 48 && fields.shiftB[i] <= 48
  {
    SoundMeans(fields);
    var len := |fields.coeffA|;
    if |fields.coeffB| != len || |fields.coeffC| != len || |fields.step| != len || |fields.freq| != len
       || |fields.shiftA| != len || |fields.shiftB| != len {
      return false;
    }
    for i := 0 to len
      invariant forall j :: 0 <= j < i ==> fields.Tuples()[j].Validated()
    {
      if fields.step[i] >= 8 || fields.freq[i] >= 8 || fields.shiftA[i] > 48 || fields.shiftB[i] > 48 {
        assert !fields.Tuples()[i].Validated();
        return false;
      }
    }
    ok := true;
  }

  /**
    A generator without any capacity: after one tuple has been appended it is armed, and a channel taken, although
    nothing is queued.
   */
  method ArmedWithNothing(hw: Lm32, allocation: array<int>, p: Tuple, sched: nat -> nat)
    returns (g: FunctionGenerator, armed: bool)
    requires hw.Valid() && allocation.Length == |hw.ram| && p.Indexable()
    requires exists c :: 0 <= c < allocation.Length && allocation[c] == -1
    modifies hw, allocation
    ensures fresh(g) && g.Valid() && armed && g.enabled && g.fifo == [] && g.lost == [p]
    ensures g.fillLevel == p.Duration() != TotalDuration(g.fifo)
  {
    hide RingInv;
    g := new FunctionGenerator(0, hw, allocation, 0);
    var low := g.AppendParameterTuples([p], sched);
    assert [] + [p] == [p];
    assert allocation[..] == old(allocation[..]);
    armed := g.Arm(sched);
    OneTotal(p);
  }

  lemma OneTotal(p: Tuple)
    requires p.Indexable()
    ensures TotalDuration([p]) == p.Duration() != 0 && TotalDuration([]) == 0
  {
    assert [p][..0] == [];
  }
}
