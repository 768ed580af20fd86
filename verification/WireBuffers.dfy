/** The serializer, which appends to its buffer, and the deserializer, which moves a cursor over its buffer. */
module WireBuffers {
  import opened Basics
  import opened Wire

  class Serializer {
    var data: seq<byte>

    constructor ()
      ensures data == []
    {
      data := [];
    }

    /** Empties the buffer before the next message. */
    method PutInit()
      modifies this
      ensures data == []
    {
      data := [];
    }

    /** Inserts padding until the buffer length is a multiple of n. */
    method Align(n: nat)
      requires n > 0
      modifies this
      ensures data == Pad(old(data), n)
    {
      while |data| % n != 0
        invariant old(data) <= data && PadTo(|data|, n) == PadTo(old(|data|), n)
        invariant data == old(data) + Padding(|data| - old(|data|))
        decreases PadTo(old(|data|), n) - |data|
      {
        data := data + [PAD];
      }
    }

    method PutPod(bytes: seq<byte>)
      requires |bytes| > 0
      modifies this
      ensures data == PutScalar(old(data), bytes)
    {
      Align(|bytes|);
      data := data + bytes;
    }

    method PutPods(pods: seq<seq<byte>>)
      modifies this
      ensures data == old(data) + Flat(pods)
    {
      var i := 0;
      while i < |pods|
        invariant i <= |pods| && data + Flat(pods[i..]) == old(data) + Flat(pods)
      {
        assert pods[i..][1..] == pods[i + 1..];
        data := data + pods[i];
        i := i + 1;
      }
    }

    /** The overload of put for each type. */
    method PutValue(t: Ty, v: Val)
      requires HasType(v, t)
      modifies this
      ensures data == Put(old(data), t, v)
      decreases v
    {
      match t
      case TScalar(_) =>
        PutPod(v.bytes);
      case TString =>
        PutPod(SizeBytes(|v.chars|));
        data := data + v.chars;
      case TPodVec(n) =>
        PutPod(SizeBytes(|v.pods|));
        Align(n);
        PutPods(v.pods);
      case TVec(e) =>
        PutPod(SizeBytes(|v.elems|));
        ghost var d := data;
        for i := 0 to |v.elems|
          invariant PutSeq(data, e, v.elems[i..]) == PutSeq(d, e, v.elems)
        {
          PutValue(e, v.elems[i]);
          assert v.elems[i..][1..] == v.elems[i + 1..];
        }
      case TMap(k, w) =>
        PutPod(SizeBytes(|v.entries|));
        ghost var d := data;
        for i := 0 to |v.entries|
          invariant PutEntries(data, k, w, v.entries[i..]) == PutEntries(d, k, w, v.entries)
        {
          ghost var d' := data;
          PutValue(k, v.entries[i].0);
          PutValue(w, v.entries[i].1);
          assert data == PutEntry(d', k, w, v.entries[i]);
          assert v.entries[i..][1..] == v.entries[i + 1..];
        }
      case TRecord(ts) =>
        for i := 0 to |ts|
          invariant PutFields(data, ts[i..], v.fields[i..]) == PutFields(old(data), ts, v.fields)
        {
          PutValue(ts[i], v.fields[i]);
          assert ts[i..][1..] == ts[i + 1..] && v.fields[i..][1..] == v.fields[i + 1..];
        }
    }
  }

  class Deserializer {
    var data: seq<byte>
    var iter: nat
    var savedIter: nat

    constructor (data: seq<byte>)
      ensures this.data == data && iter == 0
    {
      this.data, iter, savedIter := data, 0, 0;
    }

    /** Takes over a received frame and starts to read it from its beginning. */
    method Load(frame: seq<byte>)
      modifies this
      ensures data == frame && iter == 0
    {
      data, iter := frame, 0;
    }

    method Save()
      modifies this`savedIter
      ensures savedIter == iter
    {
      savedIter := iter;
    }

    method Restore()
      modifies this`iter
      ensures iter == savedIter
    {
      iter := savedIter;
    }

    method Align(n: nat)
      requires n > 0
      modifies this`iter
      ensures iter == PadTo(old(iter), n)
    {
      while iter % n != 0
        invariant iter >= old(iter) && PadTo(iter, n) == PadTo(old(iter), n)
        decreases PadTo(old(iter), n) - iter
      {
        iter := iter + 1;
      }
    }

    method GetPod(n: nat) returns (bytes: seq<byte>)
      requires n > 0 && GetScalar(data, iter, n).Some?
      modifies this`iter
      ensures GetScalar(data, old(iter), n) == Some((bytes, iter))
    {
      Align(n);
      bytes := data[iter..iter + n];
      iter := iter + n;
    }

    method GetCount() returns (n: nat)
      requires GetSize(data, iter).Some?
      modifies this`iter
      ensures GetSize(data, old(iter)) == Some((n, iter))
    {
      var bytes := GetPod(8);
      n := UnLe(bytes);
    }

    /** The overload of get for each type; like the source it may only be used on a buffer that holds such a value. */
    method GetValue(t: Ty) returns (v: Val)
      requires Sized(t) && Get(data, iter, t).Some?
      modifies this`iter
      ensures Get(data, old(iter), t) == Some((v, iter))
      decreases t, 2
    {
      match t
      case TScalar(n) =>
        var bytes := GetPod(n);
        v := Scalar(bytes);
      case TString =>
        var n := GetCount();
        v := String(data[iter..iter + n]);
        iter := iter + n;
      case TPodVec(s) =>
        var n := GetCount();
        Align(s);
        var pods := GetPodList(s, n);
        v := PodVec(pods);
      case TVec(e) =>
        var n := GetCount();
        var elems := GetList(e, n);
        v := Vec(elems);
      case TMap(k, w) =>
        var n := GetCount();
        var entries := GetMap(k, w, n);
        v := Map(entries);
      case TRecord(ts) =>
        var fields := GetRecord(ts);
        v := Record(fields);
    }

    method GetPodList(s: nat, n: nat) returns (pods: seq<seq<byte>>)
      requires GetPods(data, iter, s, n).Some?
      modifies this`iter
      ensures GetPods(data, old(iter), s, n) == Some((pods, iter))
    {
      pods := [];
      ghost var all := GetPods(data, iter, s, n).value;
      var i := 0;
      while i < n
        invariant i <= n
        invariant GetPods(data, iter, s, n - i).Some?
        invariant var rest := GetPods(data, iter, s, n - i).value; pods + rest.0 == all.0 && rest.1 == all.1
      {
        pods := pods + [data[iter..iter + s]];
        iter := iter + s;
        i := i + 1;
      }
      assert pods + [] == pods;
    }

    method GetList(e: Ty, n: nat) returns (elems: seq<Val>)
      requires Sized(e) && GetSeq(data, iter, e, n).Some?
      modifies this`iter
      ensures GetSeq(data, old(iter), e, n) == Some((elems, iter))
      decreases e, 3
    {
      hide Get, Sized, GetSeq;
      elems := [];
      ghost var all := GetSeq(data, iter, e, n).value;
      var i := 0;
      while i < n
        invariant i <= n
        invariant GetSeq(data, iter, e, n - i).Some?
        invariant var rest := GetSeq(data, iter, e, n - i).value; elems + rest.0 == all.0 && rest.1 == all.1
      {
        GetSeqStep(data, iter, e, n - i);
        var v := GetValue(e);
        elems := elems + [v];
        i := i + 1;
      }
      GetSeqNone(data, iter, e);
      assert elems + [] == elems;
    }

    method GetMap(k: Ty, w: Ty, n: nat) returns (entries: seq<(Val, Val)>)
      requires Sized(k) && Sized(w) && GetEntries(data, iter, k, w, n, []).Some?
      modifies this`iter
      ensures GetEntries(data, old(iter), k, w, n, []) == Some((entries, iter))
      decreases TMap(k, w), 1
    {
      hide Get, Sized;
      entries := [];
      var i := 0;
      while i < n
        invariant i <= n
        invariant GetEntries(data, iter, k, w, n - i, entries) == GetEntries(data, old(iter), k, w, n, [])
      {
        var x := GetValue(k);
        var y := GetValue(w);
        entries := InsertEntry(entries, x, y);
        i := i + 1;
      }
    }

    method GetRecord(ts: seq<Ty>) returns (fields: seq<Val>)
      requires (forall i :: 0 <= i < |ts| ==> Sized(ts[i])) && GetFields(data, iter, ts).Some?
      modifies this`iter
      ensures GetFields(data, old(iter), ts) == Some((fields, iter))
      decreases ts, 0
    {
      fields := [];
      ghost var all := GetFields(data, iter, ts).value;
      var i := 0;
      while i < |ts|
        invariant i <= |ts|
        invariant GetFields(data, iter, ts[i..]).Some?
        invariant var rest := GetFields(data, iter, ts[i..]).value; fields + rest.0 == all.0 && rest.1 == all.1
      {
        assert ts[i..][1..] == ts[i + 1..];
        var v := GetValue(ts[i]);
        fields := fields + [v];
        i := i + 1;
      }
      assert ts[i..] == [] && fields + [] == fields;
    }
  }
}
