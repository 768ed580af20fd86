/** The ring buffer between the host and the microcontroller, and what stays true of it under any interleaving. */
module FgRing {
  import opened FgTuples

  /** Difference and sum of ring positions, as the driver computes them on unsigned integers. */
  function WrappingSub(a: nat, b: nat, size: nat): nat
    requires a < b ==> b <= a + size
  {
    if a < b then a + size - b else a - b
  }

  function WrappingAdd(a: nat, b: nat, size: nat): nat {
    if a + b >= size then a + b - size else a + b
  }

  /** The two are inverse on ring positions. */
  lemma WrappingInverse(a: nat, b: nat, size: nat)
    requires a < size && b < size
    ensures WrappingAdd(b, WrappingSub(a, b, size), size) == a
    ensures WrappingSub(WrappingAdd(a, b, size), a, size) == b
    ensures WrappingSub(a, b, size) < size && WrappingAdd(a, b, size) < size
  {
  }

  /**
    The shared memory of one channel: write and read pointer and the buffer slots, with the tuples the
    microcontroller has read and decoded since the channel was acquired.
   */
  datatype Ram = Ram(wptr: nat, rptr: nat, slots: seq<Slot>, delivered: seq<Tuple>)

  ghost predicate RamOk(n: nat, r: Ram) {
    0 < n == |r.slots| && r.wptr < n && r.rptr < n
  }

  function Remaining(n: nat, r: Ram): nat
    requires r.rptr <= r.wptr + n
  {
    WrappingSub(r.wptr, r.rptr, n)
  }

  /** The slot that holds entry j of the `filled` entries that end at the write pointer. */
  function SlotOf(n: nat, wptr: nat, filled: nat, j: nat): nat
    requires filled <= wptr + n + j
  {
    if wptr + j < filled then wptr + n + j - filled else wptr + j - filled
  }

  function Fresh(n: nat, slots: seq<Slot>): Ram {
    Ram(0, 0, slots, [])
  }

  /** The microcontroller reads one slot, if there is one to read. */
  function Consume(n: nat, r: Ram): (r': Ram) {
    if r.rptr == r.wptr || r.rptr >= |r.slots| then r
    else r.(delivered := r.delivered + [Decode(r.slots[r.rptr])], rptr := WrappingAdd(r.rptr, 1, n))
  }

  function ConsumeMany(n: nat, r: Ram, k: nat): Ram
    decreases k
  {
    if k == 0 then r else ConsumeMany(n, Consume(n, r), k - 1)
  }

  /**
    The ring refines the queue. Of the queue `fifo` of the host, the first `filled` entries are in the slots that end at
    the write pointer; the microcontroller has still to read the last `remaining` of these. `sent` is everything queued
    since the channel was acquired (what was queued then, and all that was appended later): the queue is the rest of it
    that is not known to be read, and what has been read is what is before.
   */
  ghost predicate RingInv(n: nat, fifo: seq<Tuple>, filled: nat, r: Ram, sent: seq<Tuple>) {
    && RamOk(n, r)
    && Remaining(n, r) <= filled <= |fifo| <= |sent|
    && filled < n
    && fifo == sent[|sent| - |fifo|..]
    && (forall j :: 0 <= j < filled ==> r.slots[SlotOf(n, r.wptr, filled, j)] == Encode(fifo[j]))
    && |r.delivered| == |sent| - |fifo| + filled - Remaining(n, r)
    && (forall k :: 0 <= k < |r.delivered| ==> r.delivered[k] == Decode(Encode(sent[k])))
  }

  lemma RingFacts(n: nat, fifo: seq<Tuple>, filled: nat, r: Ram, sent: seq<Tuple>)
    requires RingInv(n, fifo, filled, r, sent)
    ensures RamOk(n, r) && Remaining(n, r) <= filled <= |fifo| && filled < n
  {
  }

  /** When all that is in the ring is still to be read, the queue is exactly what has not been read. */
  lemma UnreadIsQueued(n: nat, fifo: seq<Tuple>, filled: nat, r: Ram, sent: seq<Tuple>)
    requires RingInv(n, fifo, filled, r, sent) && filled == Remaining(n, r)
    ensures |r.delivered| <= |sent| && fifo == sent[|r.delivered|..]
  {
  }

  lemma ModSmall(x: nat, n: nat)
    requires x < n
    ensures x % n == x
  {
  }

  /** No loss, duplication or reordering: what has been delivered is a prefix of what was queued. */
  lemma DeliveredIsPrefix(n: nat, fifo: seq<Tuple>, filled: nat, r: Ram, sent: seq<Tuple>)
    requires RingInv(n, fifo, filled, r, sent) && AllEncodable(sent)
    ensures r.delivered <= sent
  {
    hide Encode, Decode;
    forall k | 0 <= k < |r.delivered| ensures r.delivered[k] == sent[k] { DecodeEncode(sent[k]); }
  }

  lemma AcquireInv(n: nat, fifo: seq<Tuple>, slots: seq<Slot>)
    requires 0 < n == |slots|
    ensures RingInv(n, fifo, 0, Fresh(n, slots), fifo)
  {
  }

  lemma AppendInv(n: nat, fifo: seq<Tuple>, filled: nat, r: Ram, sent: seq<Tuple>, t: Tuple)
    requires RingInv(n, fifo, filled, r, sent)
    ensures RingInv(n, fifo + [t], filled, r, sent + [t])
  {
    hide Encode, Decode;
  }

  /** The microcontroller may read at any time. */
  lemma ConsumeInv(n: nat, fifo: seq<Tuple>, filled: nat, r: Ram, sent: seq<Tuple>)
    requires RingInv(n, fifo, filled, r, sent)
    ensures RingInv(n, fifo, filled, Consume(n, r), sent)
    ensures Consume(n, r).wptr == r.wptr && Consume(n, r).slots == r.slots &&
      Remaining(n, Consume(n, r)) <= Remaining(n, r)
  {
    hide Encode, Decode;
    var rem := Remaining(n, r);
    if r.rptr != r.wptr {
      assert SlotOf(n, r.wptr, filled, filled - rem) == r.rptr;
      assert Remaining(n, Consume(n, r)) == rem - 1;
      assert fifo[filled - rem] == sent[|r.delivered|];
    }
  }

  lemma {:induction false} ConsumeManyInv(n: nat, fifo: seq<Tuple>, filled: nat, r: Ram, sent: seq<Tuple>, k: nat)
    requires RingInv(n, fifo, filled, r, sent)
    ensures RingInv(n, fifo, filled, ConsumeMany(n, r, k), sent)
    ensures ConsumeMany(n, r, k).wptr == r.wptr && ConsumeMany(n, r, k).slots == r.slots
    ensures Remaining(n, ConsumeMany(n, r, k)) <= Remaining(n, r)
    decreases k
  {
    if k > 0 {
      ConsumeInv(n, fifo, filled, r, sent);
      ConsumeManyInv(n, fifo, filled, Consume(n, r), sent, k - 1);
    }
  }

  /** The host drops an entry that it knows to be read. */
  lemma PopInv(n: nat, fifo: seq<Tuple>, filled: nat, r: Ram, sent: seq<Tuple>)
    requires RingInv(n, fifo, filled, r, sent) && Remaining(n, r) < filled
    ensures RingInv(n, fifo[1..], filled - 1, r, sent)
  {
    hide Encode, Decode;
    forall j | 0 <= j < filled - 1 ensures r.slots[SlotOf(n, r.wptr, filled - 1, j)] == Encode(fifo[1..][j]) {
      assert SlotOf(n, r.wptr, filled - 1, j) == SlotOf(n, r.wptr, filled, j + 1);
      assert fifo[1..][j] == fifo[j + 1];
    }
  }

  /** The i-th slot behind the write pointer; writing it touches no entry that is still to be read. */
  lemma WriteInv(n: nat, fifo: seq<Tuple>, filled: nat, r: Ram, sent: seq<Tuple>, i: nat, x: Slot)
    requires RingInv(n, fifo, filled, r, sent) && filled + i < n - 1
    ensures WrappingAdd(r.wptr, i, n) < n
    ensures RingInv(n, fifo, filled, r.(slots := r.slots[WrappingAdd(r.wptr, i, n) := x]), sent)
  {
    hide Encode, Decode;
  }

  /** The entries fifo[filled..filled + m] have been written behind the write pointer. */
  ghost predicate Staged(n: nat, fifo: seq<Tuple>, filled: nat, r: Ram, m: nat) {
    RamOk(n, r) && filled + m <= |fifo| && m < n &&
    forall i :: 0 <= i < m ==> r.slots[WrappingAdd(r.wptr, i, n)] == Encode(fifo[filled + i])
  }

  /** Writing the next staged entry. */
  lemma StageNext(n: nat, fifo: seq<Tuple>, filled: nat, r: Ram, sent: seq<Tuple>, m: nat)
    requires RingInv(n, fifo, filled, r, sent) && Staged(n, fifo, filled, r, m)
    requires filled + m < |fifo| && filled + m < n - 1
    ensures WrappingAdd(r.wptr, m, n) < |r.slots|
    ensures var r' := r.(slots := r.slots[WrappingAdd(r.wptr, m, n) := Encode(fifo[filled + m])]);
      RingInv(n, fifo, filled, r', sent) && Staged(n, fifo, filled, r', m + 1)
  {
    hide Encode, Decode;
    WrappingInverse(r.wptr, m, n);
    WriteInv(n, fifo, filled, r, sent, m, Encode(fifo[filled + m]));
  }

  /** Moving the write pointer publishes the staged entries. */
  lemma PublishInv(n: nat, fifo: seq<Tuple>, filled: nat, r: Ram, sent: seq<Tuple>, m: nat)
    requires RingInv(n, fifo, filled, r, sent) && filled + m <= |fifo| && filled + m < n
    requires Staged(n, fifo, filled, r, m)
    ensures RingInv(n, fifo, filled + m, r.(wptr := WrappingAdd(r.wptr, m, n)), sent)
  {
    hide Encode, Decode;
    var r' := r.(wptr := WrappingAdd(r.wptr, m, n));
    assert Remaining(n, r') == Remaining(n, r) + m;
    forall j | 0 <= j < filled + m ensures r'.slots[SlotOf(n, r'.wptr, filled + m, j)] == Encode(fifo[j]) {
      if j < filled {
        assert SlotOf(n, r'.wptr, filled + m, j) == SlotOf(n, r.wptr, filled, j);
      } else {
        assert SlotOf(n, r'.wptr, filled + m, j) == WrappingAdd(r.wptr, j - filled, n);
      }
    }
  }

  /** The microcontroller cannot disturb what is staged. */
  lemma {:induction false} ConsumeStaged(n: nat, fifo: seq<Tuple>, filled: nat, r: Ram, m: nat, k: nat)
    requires Staged(n, fifo, filled, r, m)
    ensures Staged(n, fifo, filled, ConsumeMany(n, r, k), m)
    decreases k
  {
    if k > 0 { ConsumeStaged(n, fifo, filled, Consume(n, r), m, k - 1); }
  }
}
