/** Frames of any size over a channel that keeps message boundaries: a size, then the bytes, each cut into messages. */
module Framing {
  import opened Basics
  import opened Wire

  /** A call to write is given at most this many bytes. */
  const CHUNK: nat := 100000

  /** The size is sent as a 32 bit signed integer. */
  const SIZE_BYTES: nat := 4
  const SIZE_LIMIT: nat := 0x8000_0000

  type Message = seq<byte>

  /** The messages carry the data: none is empty, and one after the other they are the data. */
  ghost predicate Carries(messages: seq<Message>, data: seq<byte>) {
    (forall i :: 0 <= i < |messages| ==> messages[i] != []) && Flat(messages) == data
  }

  lemma CarriesOneMore(messages: seq<Message>, data: seq<byte>, message: Message)
    requires Carries(messages, data) && message != []
    ensures Carries(messages + [message], data + message)
  {
    FlatConcat(messages, [message]);
    assert Flat([message]) == message;
  }

  lemma {:induction false} FlatConcat(a: seq<Message>, b: seq<Message>)
    ensures Flat(a + b) == Flat(a) + Flat(b)
  {
    if a == [] {
      assert a + b == b;
    } else {
      assert (a + b)[1..] == a[1..] + b;
      FlatConcat(a[1..], b);
    }
  }

  /** What a write of nothing leaves in a channel. */
  ghost function OfNothing(leavesEmpty: bool): seq<Message> {
    if leavesEmpty then [[]] else []
  }

  /** A frame on its way: the messages of its size, and those of its bytes. */
  datatype Sent = Sent(header: seq<Message>, body: seq<Message>, frame: seq<byte>) {
    ghost predicate Whole(leavesEmpty: bool) {
      && |frame| < SIZE_LIMIT && Carries(header, Le(|frame|, SIZE_BYTES))
      && (if frame == [] then body == OfNothing(leavesEmpty) else Carries(body, frame))
    }
  }

  ghost function Queue(sent: seq<Sent>): seq<Message> {
    if sent == [] then [] else sent[0].header + (sent[0].body + Queue(sent[1..]))
  }

  lemma {:induction false} QueueOneMore(sent: seq<Sent>, s: Sent)
    ensures Queue(sent + [s]) == Queue(sent) + (s.header + s.body)
  {
    if sent == [] {
      assert (sent + [s])[1..] == [];
    } else {
      assert (sent + [s])[1..] == sent[1..] + [s];
      QueueOneMore(sent[1..], s);
      hide Queue;
      Reassociate(sent[0].header, sent[0].body, Queue(sent[1..]), s.header + s.body);
    }
  }

  lemma Reassociate<T>(a: seq<T>, b: seq<T>, c: seq<T>, d: seq<T>)
    ensures a + (b + (c + d)) == (a + (b + c)) + d
  {
  }

  /** The oldest frame on its way, and the messages after its own. */
  lemma FirstOf(sent: seq<Sent>, leavesEmpty: bool) returns (first: Sent, others: seq<Message>)
    requires forall i :: 0 <= i < |sent| ==> sent[i].Whole(leavesEmpty)
    ensures Queue(sent) == [] <==> sent == []
    ensures sent != [] ==>
      && first == sent[0] && others == Queue(sent[1..]) && first.Whole(leavesEmpty)
      && Queue(sent) == first.header + (first.body + others)
      && Arrives(first.header, SIZE_BYTES) && UnLe(Flat(first.header)) == |first.frame|
      && (if first.frame == [] then first.body == OfNothing(leavesEmpty)
          else Arrives(first.body, |first.frame|) && Flat(first.body) == first.frame)
  {
    first := if sent == [] then Sent([], [], []) else sent[0];
    others := if sent == [] then [] else Queue(sent[1..]);
    hide Flat, Le, UnLe, Sent.Whole, Carries;
    if sent != [] {
      WholeFacts(first, leavesEmpty);
    }
  }

  /** The messages are there, none is empty, and together they have so many bytes. */
  ghost predicate Arrives(parts: seq<Message>, size: nat) {
    parts != [] && Carries(parts, Flat(parts)) && |Flat(parts)| == size > 0
  }

  lemma WholeFacts(s: Sent, leavesEmpty: bool)
    requires s.Whole(leavesEmpty)
    ensures Arrives(s.header, SIZE_BYTES) && UnLe(Flat(s.header)) == |s.frame|
    ensures if s.frame == [] then s.body == OfNothing(leavesEmpty)
      else Arrives(s.body, |s.frame|) && Flat(s.body) == s.frame
  {
    assert Pow256(4) == 0x1_0000_0000;
    LeBack(|s.frame|, SIZE_BYTES);
    hide Le, UnLe;
    assert Flat(s.header) == Le(|s.frame|, SIZE_BYTES);
  }

  ghost function Frames(sent: seq<Sent>): seq<seq<byte>> {
    seq(|sent|, i requires 0 <= i < |sent| => sent[i].frame)
  }

  /** The size and then the bytes. */
  lemma SentFlat(leavesEmpty: bool, header: seq<Message>, body: seq<Message>, frame: seq<byte>)
    requires Carries(header, Le(|frame|, SIZE_BYTES))
    requires if frame == [] then body == OfNothing(leavesEmpty) else Carries(body, frame)
    ensures Flat(header + body) == Le(|frame|, SIZE_BYTES) + frame
  {
    hide Le;
    FlatConcat(header, body);
    assert Flat([[]]) == [];
  }

  class Channel {
    var messages: seq<Message>

    /** How many bytes the next calls to write will take; a number that is not positive is an error. */
    var calls: nat
    const taken: nat -> int

    /** Whether a write of nothing leaves an empty message. */
    const leavesEmpty: bool

    /** The frames on their way, and whether the empty message of an empty frame is still there that has been read. */
    ghost var sent: seq<Sent>
    ghost var stale: bool

    ghost predicate Valid()
      reads this
    {
      && messages == (if stale then [[]] else []) + Queue(sent)
      && forall i :: 0 <= i < |sent| ==> sent[i].Whole(leavesEmpty)
    }

    constructor (taken: nat -> int, leavesEmpty: bool)
      ensures Valid() && sent == [] && !stale && this.taken == taken && this.leavesEmpty == leavesEmpty
    {
      messages, calls, sent, stale := [], 0, [], false;
      this.taken, this.leavesEmpty := taken, leavesEmpty;
    }

    /** Puts one message into the channel, of as many of the bytes as are taken. */
    method Write(data: seq<byte>) returns (result: int)
      modifies this`messages, this`calls
      ensures calls == old(calls) + 1
      ensures result > 0 ==> result <= |data| && messages == old(messages) + [data[..result]]
      ensures data != [] ==> (result > 0 <==> taken(old(calls)) > 0) && (result <= 0 ==> messages == old(messages))
      ensures data == [] ==> result <= 0 && (result < 0 <==> taken(old(calls)) < 0)
      ensures data == [] ==> messages == old(messages) + if result < 0 then [] else OfNothing(leavesEmpty)
    {
      var take := taken(calls);
      calls := calls + 1;
      result := if take < |data| then take else |data|;
      if result > 0 || (data == [] && result == 0 && leavesEmpty) {
        messages := messages + [data[..result]];
      }
    }

    /**
      Takes one message out of the channel; what does not fit is lost. A read of no bytes takes nothing, and nothing is
      read when the other side has hung up.
     */
    method Read(size: nat) returns (data: seq<byte>)
      modifies this`messages
      ensures size == 0 || old(messages) == [] ==> data == [] && messages == old(messages)
      ensures size > 0 && old(messages) != [] ==>
        && messages == old(messages)[1..]
        && data == if size < |old(messages)[0]| then old(messages)[0][..size] else old(messages)[0]
    {
      if size == 0 || messages == [] {
        return [];
      }
      data := if size < |messages[0]| then messages[0][..size] else messages[0];
      messages := messages[1..];
    }

    /** Writes all bytes, or stops at the first call that fails. An empty buffer is one write of nothing. */
    method WriteAll(buffer: seq<byte>) returns (result: int, ghost parts: seq<Message>)
      modifies this`messages, this`calls
      ensures messages == old(messages) + parts
      ensures result <= 0 || result == |buffer|
      ensures result > 0 ==> Carries(parts, buffer) && forall i :: 0 <= i < |parts| ==> |parts[i]| <= CHUNK
      ensures buffer == [] ==> calls == old(calls) + 1 && (result < 0 <==> taken(old(calls)) < 0)
      ensures buffer == [] ==> parts == if result < 0 then [] else OfNothing(leavesEmpty)
      ensures (forall k :: taken(k) > 0) ==> result == |buffer|
    {
      parts := [];
      if buffer == [] {
        result := Write(buffer);
        parts := if result < 0 then [] else OfNothing(leavesEmpty);
        return;
      }
      var at := 0;
      while at < |buffer|
        invariant at <= |buffer|
        invariant messages == old(messages) + parts && Carries(parts, buffer[..at])
        invariant forall i :: 0 <= i < |parts| ==> |parts[i]| <= CHUNK
      {
        var size := |buffer| - at;
        var chunk := if size < CHUNK then size else CHUNK;
        var written := 0;
        ghost var start := at;
        while written < chunk
          invariant written <= chunk && at == start + written
          invariant messages == old(messages) + parts && Carries(parts, buffer[..at])
          invariant forall i :: 0 <= i < |parts| ==> |parts[i]| <= CHUNK
        {
          var rest := buffer[at..at + (chunk - written)];
          result := Write(rest);
          if result <= 0 {
            return;
          }
          CarriesOneMore(parts, buffer[..at], rest[..result]);
          assert buffer[..at] + rest[..result] == buffer[..at + result];
          parts := parts + [rest[..result]];
          at := at + result;
          written := written + result;
        }
      }
      assert buffer[..at] == buffer;
      result := |buffer|;
    }

    /**
      Reads messages until there are as many bytes as asked for: no message is cut, and none beyond is touched. The
      result is zero if there is nothing to read or the next message is empty, and if nothing is asked for.
     */
    method ReadAll(size: nat, ghost parts: seq<Message>, ghost rest: seq<Message>)
      returns (buffer: seq<byte>, result: nat)
      requires size == 0 || messages == [] || messages[0] == [] || (Arrives(parts, size) && messages == parts + rest)
      modifies this`messages
      ensures size == 0 ==> messages == old(messages)
      ensures size > 0 && old(messages) == [] ==> messages == []
      ensures size > 0 && old(messages) != [] && old(messages)[0] == [] ==> messages == old(messages)[1..]
      ensures if size > 0 && old(messages) != [] && old(messages)[0] != []
        then result == size && buffer == Flat(parts) && messages == rest
        else result == 0 && buffer == []
    {
      hide Flat, Carries;
      buffer := [];
      if size == 0 || messages == [] || messages[0] == [] {
        buffer := Read(size);
        return [], 0;
      }
      ghost var left := parts;
      while |buffer| < size
        invariant |buffer| <= size && |buffer| + |Flat(left)| == size && (left == [] || Arrives(left, |Flat(left)|))
        invariant messages == left + rest && buffer + Flat(left) == Flat(parts)
        decreases size - |buffer|
      {
        NextPart(left, size - |buffer|);
        assert messages[0] == left[0];
        var data := Read(size - |buffer|);
        left := left[1..];
        buffer := buffer + data;
      }
      NoPart(left);
      result := |buffer|;
    }

    /** Sends a frame: its size, then its bytes. */
    method WriteTo(frame: seq<byte>) returns (ok: bool)
      requires Valid() && |frame| < SIZE_LIMIT
      modifies this`messages, this`calls, this`sent
      ensures old(messages) <= messages
      ensures ok ==> Valid() && Frames(sent) == old(Frames(sent)) + [frame]
      ensures ok ==> Flat(messages[|old(messages)|..]) == Le(|frame|, SIZE_BYTES) + frame
      ensures (forall k :: taken(k) > 0) ==> ok
    {
      hide Flat, Le, Carries, Queue, OfNothing;
      var result, header := WriteAll(Le(|frame|, SIZE_BYTES));
      if result < SIZE_BYTES {
        return false;
      }
      ghost var body;
      result, body := WriteAll(frame);
      if result < |frame| {
        return false;
      }
      QueueOneMore(sent, Sent(header, body, frame));
      assert messages == old(messages) + (header + body);
      SentFlat(leavesEmpty, header, body, frame);
      assert messages[|old(messages)|..] == header + body;
      sent := sent + [Sent(header, body, frame)];
      ok := true;
    }

    /**
      Receives the oldest frame on its way, exactly. If it is empty its message, if there is one, is not read with it:
      the next call fails on that, and takes it away.
     */
    method ReadFrom() returns (ok: bool, frame: seq<byte>)
      requires Valid()
      modifies this`messages, this`sent, this`stale
      ensures Valid()
      ensures ok <==> old(sent) != [] && !old(stale)
      ensures ok ==> [frame] + Frames(sent) == old(Frames(sent)) && (stale <==> leavesEmpty && frame == [])
      ensures !ok ==> sent == old(sent) && !stale
    {
      hide Queue, Flat, Le, UnLe, Sent.Whole, Arrives;
      ok, frame := false, [];
      ghost var first, others := FirstOf(sent, leavesEmpty);
      if sent != [] && !stale {
        HeaderStarts(first);
      }
      var size, result := ReadAll(SIZE_BYTES, first.header, first.body + others);
      if result < SIZE_BYTES {
        stale := false;
        return;
      }
      if first.frame != [] {
        BodyStarts(first);
      }
      frame, result := ReadAll(UnLe(size), first.body, others);
      ok := result >= UnLe(size);
      stale := first.frame == [] && leavesEmpty;
      sent := sent[1..];
    }
  }

  /** The first part is not empty and no longer than the whole; the others bring the rest. */
  lemma NextPart(parts: seq<Message>, size: nat)
    requires (parts == [] || Arrives(parts, size)) && |Flat(parts)| == size > 0
    ensures parts != [] && 0 < |parts[0]| <= size && Flat(parts) == parts[0] + Flat(parts[1..])
    ensures parts[1..] == [] || Arrives(parts[1..], size - |parts[0]|)
  {
    if parts != [] && parts[1..] != [] {
      assert parts[1] != [];
      assert Flat(parts[1..]) == parts[1] + Flat(parts[1..][1..]);
    }
  }

  lemma NoPart(parts: seq<Message>)
    requires (parts == [] || Arrives(parts, |Flat(parts)|)) && |Flat(parts)| == 0
    ensures parts == [] && Flat(parts) == []
  {
  }

  lemma HeaderStarts(s: Sent)
    requires Arrives(s.header, SIZE_BYTES)
    ensures s.header != [] && s.header[0] != []
  {
  }

  lemma BodyStarts(s: Sent)
    requires Arrives(s.body, |s.frame|)
    ensures s.body != [] && s.body[0] != []
  {
  }

  /**
    What a script of writes and reads, in any order, may leave: the frames read are a prefix of those written, and the
    others are on their way.
   */
  method Exchange(channel: Channel, script: seq<Option<seq<byte>>>)
    returns (written: seq<seq<byte>>, received: seq<seq<byte>>)
    requires channel.Valid() && channel.sent == []
    requires forall k :: 0 <= k < |script| && script[k].Some? ==> |script[k].value| < SIZE_LIMIT
    modifies channel
    ensures received <= written
    ensures (forall k :: channel.taken(k) > 0) ==> channel.Valid() && written == received + Frames(channel.sent)
  {
    written, received := [], [];
    for k := 0 to |script|
      invariant channel.Valid() && written == received + Frames(channel.sent)
    {
      ghost var before := channel.sent;
      if script[k].Some? {
        var ok := channel.WriteTo(script[k].value);
        if !ok {
          return;
        }
        assert received + Frames(channel.sent) == received + Frames(before) + [script[k].value];
        written := written + [script[k].value];
      } else {
        var ok, frame := channel.ReadFrom();
        if ok {
          assert received + [frame] + Frames(channel.sent) == received + Frames(before);
          received := received + [frame];
        }
      }
    }
  }

  // ----- a reader that stops at the first failure

  /** What a reader receives that takes a failure for the end: nothing after an empty frame that has left a message. */
  ghost function Arriving(leavesEmpty: bool, frames: seq<seq<byte>>): seq<seq<byte>> {
    if frames == [] then []
    else if leavesEmpty && frames[0] == [] then [frames[0]]
    else [frames[0]] + Arriving(leavesEmpty, frames[1..])
  }

  /** Everything arrives exactly if empty frames leave no message, or none but the last is empty. */
  lemma {:induction false} AllArriveIff(leavesEmpty: bool, frames: seq<seq<byte>>)
    ensures Arriving(leavesEmpty, frames) == frames <==>
      !leavesEmpty || forall i :: 0 <= i < |frames| - 1 ==> frames[i] != []
    decreases |frames|
  {
    if frames != [] {
      AllArriveIff(leavesEmpty, frames[1..]);
      assert frames == [frames[0]] + frames[1..];
      if leavesEmpty && frames[0] == [] {
        assert |Arriving(leavesEmpty, frames)| == 1;
      } else {
        assert ([frames[0]] + Arriving(leavesEmpty, frames[1..]))[1..] == Arriving(leavesEmpty, frames[1..]);
        assert forall i :: 0 <= i < |frames| - 2 ==> frames[1..][i] == frames[i + 1];
      }
    }
  }

  /** What will be read until the next failure. */
  ghost function StillArriving(channel: Channel): seq<seq<byte>>
    reads channel
  {
    if channel.stale then [] else Arriving(channel.leavesEmpty, Frames(channel.sent))
  }

  lemma OneArrives(leavesEmpty: bool, frame: seq<byte>, others: seq<seq<byte>>)
    ensures Arriving(leavesEmpty, []) == []
    ensures Arriving(leavesEmpty, [frame] + others) ==
      [frame] + if leavesEmpty && frame == [] then [] else Arriving(leavesEmpty, others)
  {
    assert ([frame] + others)[1..] == others;
  }

  /** Sends frames one after the other, while nobody reads. */
  method SendAll(channel: Channel, frames: seq<seq<byte>>)
    requires channel.Valid() && channel.sent == [] && forall k :: channel.taken(k) > 0
    requires forall i :: 0 <= i < |frames| ==> |frames[i]| < SIZE_LIMIT
    modifies channel
    ensures channel.Valid() && Frames(channel.sent) == frames && channel.stale == old(channel.stale)
  {
    hide Channel.Valid;
    for i := 0 to |frames|
      invariant channel.Valid() && Frames(channel.sent) == frames[..i] && channel.stale == old(channel.stale)
    {
      var ok := channel.WriteTo(frames[i]);
      assert frames[..i + 1] == frames[..i] + [frames[i]];
    }
    assert frames[..|frames|] == frames;
  }

  /** Receives frames until a call fails. */
  method ReceiveAll(channel: Channel) returns (received: seq<seq<byte>>)
    requires channel.Valid()
    modifies channel
    ensures channel.Valid() && received == old(StillArriving(channel))
    decreases |channel.sent|
  {
    hide Arriving, Channel.Valid, Frames;
    ghost var before := channel.sent;
    NoFrames(channel.leavesEmpty);
    var ok, frame := channel.ReadFrom();
    if !ok {
      return [];
    }
    OneArrives(channel.leavesEmpty, frame, Frames(channel.sent));
    OneFewer(before, channel.sent, frame);
    var others := ReceiveAll(channel);
    received := [frame] + others;
  }

  lemma OneFewer(before: seq<Sent>, after: seq<Sent>, frame: seq<byte>)
    requires [frame] + Frames(after) == Frames(before)
    ensures |after| < |before|
  {
    assert |[frame] + Frames(after)| == 1 + |after|;
  }

  lemma NoFrames(leavesEmpty: bool)
    ensures Arriving(leavesEmpty, Frames([])) == []
  {
  }

  /** What a reader that stops at the first failure makes of frames that have all been sent before it starts. */
  method Relay(channel: Channel, frames: seq<seq<byte>>) returns (received: seq<seq<byte>>)
    requires channel.Valid() && channel.sent == [] && !channel.stale && forall k :: channel.taken(k) > 0
    requires forall i :: 0 <= i < |frames| ==> |frames[i]| < SIZE_LIMIT
    modifies channel
    ensures received == Arriving(channel.leavesEmpty, frames)
    ensures received == frames <==> !channel.leavesEmpty || forall i :: 0 <= i < |frames| - 1 ==> frames[i] != []
  {
    SendAll(channel, frames);
    received := ReceiveAll(channel);
    AllArriveIff(channel.leavesEmpty, frames);
  }
}
