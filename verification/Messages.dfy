/** Serializer, channel and deserializer together: messages from one process to another. */
module Messages {
  import opened Basics
  import opened Framing
  import opened Stubs
  import opened Wire
  import opened WireBuffers

  /** Sends what has been put as one frame and empties the buffer, whether this succeeds or not. */
  method WriteTo(serializer: Serializer, channel: Channel) returns (ok: bool)
    requires channel.Valid() && |serializer.data| < SIZE_LIMIT
    modifies serializer, channel
    ensures serializer.data == []
    ensures ok ==> channel.Valid() && Frames(channel.sent) == old(Frames(channel.sent)) + [old(serializer.data)]
    ensures channel.stale == old(channel.stale)
    ensures (forall k :: channel.taken(k) > 0) ==> ok
  {
    ok := channel.WriteTo(serializer.data);
    serializer.PutInit();
  }

  /** Receives the oldest frame and is ready to read it from its beginning. */
  method ReadFrom(deserializer: Deserializer, channel: Channel) returns (ok: bool)
    requires channel.Valid()
    modifies deserializer, channel
    ensures channel.Valid() && (ok <==> old(channel.sent) != [] && !old(channel.stale))
    ensures ok ==> [deserializer.data] + Frames(channel.sent) == old(Frames(channel.sent)) && deserializer.iter == 0
  {
    var frame;
    ok, frame := channel.ReadFrom();
    if ok {
      deserializer.Load(frame);
    }
  }

  /** What is put on one side is what is got on the other, up to the exact end of the frame. */
  method Transmit(serializer: Serializer, channel: Channel, deserializer: Deserializer, ts: seq<Ty>, vs: seq<Val>)
    returns (ok: bool, got: seq<Val>)
    requires channel.Valid() && channel.sent == [] && !channel.stale && serializer.data == []
    requires Fields(ts, vs) && |PutFields([], ts, vs)| < SIZE_LIMIT
    modifies serializer, channel, deserializer
    ensures ok ==> got == vs && deserializer.iter == |deserializer.data|
    ensures ok ==> serializer.data == [] && channel.Valid() && channel.sent == []
    ensures (forall k :: channel.taken(k) > 0) ==> ok
  {
    hide PutFields, GetFields, Get;
    got := [];
    PutRecord(serializer, ts, vs);
    ghost var frame := serializer.data;
    ok := WriteTo(serializer, channel);
    if !ok {
      return;
    }
    assert Frames(channel.sent) == [frame];
    ok := ReadFrom(deserializer, channel);
    OnlyFrame(deserializer.data, frame, Frames(channel.sent));
    MessageRoundTrip(ts, vs);
    got := deserializer.GetRecord(ts);
  }

  lemma OnlyFrame(first: seq<byte>, frame: seq<byte>, others: seq<seq<byte>>)
    requires [first] + others == [frame]
    ensures first == frame && others == []
  {
    assert ([first] + others)[0] == first;
    assert |[first] + others| == 1 + |others|;
  }

  method PutRecord(serializer: Serializer, ts: seq<Ty>, vs: seq<Val>)
    requires Fields(ts, vs)
    modifies serializer
    ensures serializer.data == PutFields(old(serializer.data), ts, vs)
  {
    assert HasType(Record(vs), TRecord(ts));
    serializer.PutValue(TRecord(ts), Record(vs));
  }

  /** The buffer holds a signal of an object with its arguments. */
  ghost predicate HoldsSignal(b: seq<byte>, id: nat, interfaceNo: nat, signalNo: nat, ts: seq<Ty>, vs: seq<Val>) {
    && id < 0x1_0000_0000 && interfaceNo < 0x1_0000_0000 && signalNo < 0x1_0000_0000
    && Fields(ts, vs)
    && b == PutFields(Header(id, interfaceNo, signalNo), ts, vs)
  }

  /**
    Every proxy of the object reads the signal from where its arguments start, because the cursor is saved before and
    restored after each of them: all get the same arguments, however many there are.
   */
  method DispatchSignal(deserializer: Deserializer, proxies: seq<nat>, signature: (nat, nat) -> seq<Ty>,
                        ghost id: nat, ghost interfaceNo: nat, ghost signalNo: nat, ghost vs: seq<Val>)
    returns (seen: seq<Option<seq<Val>>>)
    requires deserializer.iter == 0
    requires HoldsSignal(deserializer.data, id, interfaceNo, signalNo, signature(interfaceNo, signalNo), vs)
    modifies deserializer
    ensures |seen| == |proxies|
    ensures forall j :: 0 <= j < |proxies| ==> seen[j] == if proxies[j] == id then Some(vs) else None
  {
    hide Header, PutFields, GetFields, Get;
    ghost var ts := signature(interfaceNo, signalNo);
    SignalArrives(deserializer.data, id, interfaceNo, signalNo, ts, vs);
    var objectVal := deserializer.GetValue(T_INT);
    var interfaceVal := deserializer.GetValue(T_INT);
    var signalVal := deserializer.GetValue(T_INT);
    var types := signature(UnInt(interfaceVal), UnInt(signalVal));
    ghost var start := deserializer.iter;
    seen := [];
    for j := 0 to |proxies|
      invariant |seen| == j && deserializer.iter == start && deserializer.data == old(deserializer.data)
      invariant forall i :: 0 <= i < j ==> seen[i] == if proxies[i] == id then Some(vs) else None
    {
      if proxies[j] == UnInt(objectVal) {
        deserializer.Save();
        var arguments := deserializer.GetRecord(types);
        deserializer.Restore();
        seen := seen + [Some(arguments)];
      } else {
        seen := seen + [None];
      }
    }
  }

  lemma SignalArrives(b: seq<byte>, id: nat, interfaceNo: nat, signalNo: nat, ts: seq<Ty>, vs: seq<Val>)
    requires HoldsSignal(b, id, interfaceNo, signalNo, ts, vs)
    ensures exists p, q, r :: ArrivesAt(b, id, interfaceNo, signalNo, ts, vs, p, q, r)
  {
    var d0 := Put([], T_INT, Int(id));
    var d1, d2 := Put(d0, T_INT, Int(interfaceNo)), Header(id, interfaceNo, signalNo);
    IntBack([], id, b);
    IntBack(d0, interfaceNo, b);
    IntBack(d1, signalNo, b);
    FieldsBack(d2, ts, vs, b);
    assert ArrivesAt(b, id, interfaceNo, signalNo, ts, vs, |d0|, |d1|, |d2|);
  }

  /** The three numbers end at p, q and r, where the arguments start. */
  ghost predicate ArrivesAt(b: seq<byte>, id: nat, interfaceNo: nat, signalNo: nat, ts: seq<Ty>, vs: seq<Val>,
                            p: nat, q: nat, r: nat)
    requires forall i :: 0 <= i < |ts| ==> Sized(ts[i])
  {
    && Get(b, 0, T_INT) == Some((Int(id), p)) && UnInt(Int(id)) == id
    && Get(b, p, T_INT) == Some((Int(interfaceNo), q)) && UnInt(Int(interfaceNo)) == interfaceNo
    && Get(b, q, T_INT) == Some((Int(signalNo), r)) && UnInt(Int(signalNo)) == signalNo
    && GetFields(b, r, ts) == Some((vs, |b|))
  }
}
