/** The saftbus wire format: typed values as bytes whose padding depends on where in the buffer they start. */
module Wire {
  import opened Basics

  type byte = n: nat | n < 256

  const PAD: byte := 0x78
  const MAX_SIZE: nat := 0x1_0000_0000_0000_0000

  /**
    The types that have a put and a get: plain data of a given size, strings, vectors of plain data, vectors of
    strings or of vectors, maps, and records that put their fields one after the other.
   */
  datatype Ty =
    | TScalar(size: nat)
    | TString
    | TPodVec(size: nat)
    | TVec(elem: Ty)
    | TMap(key: Ty, val: Ty)
    | TRecord(fields: seq<Ty>)

  /**
    What a vector may hold that is not plain data: the elements of any other vector are copied as they lie in memory.
   */
  predicate IsElement(t: Ty) {
    t.TString? || t.TPodVec? || t.TVec?
  }

  /** Plain data is its object representation; a map is the list of its entries in key order. */
  datatype Val =
    | Scalar(bytes: seq<byte>)
    | String(chars: seq<byte>)
    | PodVec(pods: seq<seq<byte>>)
    | Vec(elems: seq<Val>)
    | Map(entries: seq<(Val, Val)>)
    | Record(fields: seq<Val>)

  ghost predicate HasType(v: Val, t: Ty)
    decreases v
  {
    match t
    case TScalar(n) => n > 0 && v.Scalar? && |v.bytes| == n
    case TString => v.String? && |v.chars| < MAX_SIZE
    case TPodVec(n) => n > 0 && v.PodVec? && |v.pods| < MAX_SIZE
      && forall i :: 0 <= i < |v.pods| ==> |v.pods[i]| == n
    case TVec(e) => IsElement(e) && v.Vec? && |v.elems| < MAX_SIZE
      && forall i :: 0 <= i < |v.elems| ==> HasType(v.elems[i], e)
    case TMap(k, w) => v.Map? && |v.entries| < MAX_SIZE && DistinctKeys(v.entries)
      && forall i :: 0 <= i < |v.entries| ==> HasType(v.entries[i].0, k) && HasType(v.entries[i].1, w)
    case TRecord(ts) => v.Record? && |v.fields| == |ts| && forall i :: 0 <= i < |ts| ==> HasType(v.fields[i], ts[i])
  }

  predicate DistinctKeys(es: seq<(Val, Val)>) {
    forall i, j :: 0 <= i < j < |es| ==> es[i].0 != es[j].0
  }

  // ----- padding and sizes

  lemma ModStep(x: nat, n: nat)
    requires n > 0
    ensures (x + 1) % n == if x % n == n - 1 then 0 else x % n + 1
  {
    var q, r := x / n, x % n;
    assert x == n * q + r;
    if r == n - 1 {
      assert x + 1 == n * (q + 1) + 0;
      DivMod(x + 1, n, q + 1, 0);
    } else {
      DivMod(x + 1, n, q, r + 1);
    }
  }

  lemma DivMod(x: int, n: int, q: int, r: int)
    requires n > 0 && 0 <= r < n && x == n * q + r
    ensures x % n == r
  {
    var d := x / n - q;
    assert n * d == r - x % n;
    if d > 0 { MulAtLeast(n, d); }
    if d < 0 { MulAtLeast(n, -d); }
  }

  /** The first position from pos on that is a multiple of n. */
  function PadTo(pos: nat, n: nat): (p: nat)
    requires n > 0
    ensures p >= pos && p % n == 0
    decreases if pos % n == 0 then 0 else n - pos % n
  {
    if pos % n == 0 then pos else ModStep(pos, n); PadTo(pos + 1, n)
  }

  function Padding(k: nat): seq<byte> {
    seq(k, _ => PAD)
  }

  function Pad(d: seq<byte>, n: nat): (r: seq<byte>)
    requires n > 0
    ensures |r| == PadTo(|d|, n) && d <= r
  {
    d + Padding(PadTo(|d|, n) - |d|)
  }

  /** Little-endian representation in k bytes. */
  function Le(x: nat, k: nat): (bs: seq<byte>)
    ensures |bs| == k
  {
    if k == 0 then [] else [x % 256] + Le(x / 256, k - 1)
  }

  function UnLe(bs: seq<byte>): nat {
    if bs == [] then 0 else bs[0] + 256 * UnLe(bs[1..])
  }

  function Pow256(k: nat): (p: nat)
    ensures p > 0
  {
    if k == 0 then 1 else 256 * Pow256(k - 1)
  }

  lemma {:induction false} LeBack(x: nat, k: nat)
    requires x < Pow256(k)
    ensures UnLe(Le(x, k)) == x
  {
    if k > 0 { LeBack(x / 256, k - 1); }
  }

  function SizeBytes(n: nat): seq<byte> { Le(n, 8) }

  lemma SizeBack(n: nat)
    requires n < MAX_SIZE
    ensures UnLe(SizeBytes(n)) == n
  {
    assert Pow256(4) == 0x1_0000_0000;
    assert Pow256(8) == MAX_SIZE;
    LeBack(n, 8);
  }

  function Flat(pods: seq<seq<byte>>): seq<byte> {
    if pods == [] then [] else pods[0] + Flat(pods[1..])
  }

  // ----- writing

  function PutScalar(d: seq<byte>, bytes: seq<byte>): (r: seq<byte>)
    requires |bytes| > 0
    ensures d <= r
  {
    Pad(d, |bytes|) + bytes
  }

  function Put(d: seq<byte>, t: Ty, v: Val): (r: seq<byte>)
    requires HasType(v, t)
    ensures d <= r
    decreases v, 1
  {
    match t
    case TScalar(n) => PutScalar(d, v.bytes)
    case TString => PutScalar(d, SizeBytes(|v.chars|)) + v.chars
    case TPodVec(n) => Pad(PutScalar(d, SizeBytes(|v.pods|)), n) + Flat(v.pods)
    case TVec(e) => PutSeq(PutScalar(d, SizeBytes(|v.elems|)), e, v.elems)
    case TMap(k, w) => PutEntries(PutScalar(d, SizeBytes(|v.entries|)), k, w, v.entries)
    case TRecord(ts) => PutFields(d, ts, v.fields)
  }

  function PutSeq(d: seq<byte>, t: Ty, vs: seq<Val>): (r: seq<byte>)
    requires forall i :: 0 <= i < |vs| ==> HasType(vs[i], t)
    ensures d <= r
    decreases vs, 0
  {
    if vs == [] then d else PutSeq(Put(d, t, vs[0]), t, vs[1..])
  }

  function PutEntries(d: seq<byte>, k: Ty, w: Ty, es: seq<(Val, Val)>): (r: seq<byte>)
    requires forall i :: 0 <= i < |es| ==> HasType(es[i].0, k) && HasType(es[i].1, w)
    ensures d <= r
    decreases es, 0
  {
    if es == [] then d else PutEntries(PutEntry(d, k, w, es[0]), k, w, es[1..])
  }

  function PutEntry(d: seq<byte>, k: Ty, w: Ty, e: (Val, Val)): (r: seq<byte>)
    requires HasType(e.0, k) && HasType(e.1, w)
    ensures d <= r
    decreases e, 2
  {
    Put(Put(d, k, e.0), w, e.1)
  }

  function PutFields(d: seq<byte>, ts: seq<Ty>, vs: seq<Val>): (r: seq<byte>)
    requires |ts| == |vs| && forall i :: 0 <= i < |ts| ==> HasType(vs[i], ts[i])
    ensures d <= r
    decreases vs, 0
  {
    if vs == [] then d else PutFields(Put(d, ts[0], vs[0]), ts[1..], vs[1..])
  }

  // ----- reading; None where the source would read past the end of the buffer

  function GetBytes(b: seq<byte>, pos: nat, n: nat): Option<(seq<byte>, nat)> {
    if pos + n <= |b| then Some((b[pos..pos + n], pos + n)) else None
  }

  function GetScalar(b: seq<byte>, pos: nat, n: nat): Option<(seq<byte>, nat)>
    requires n > 0
  {
    GetBytes(b, PadTo(pos, n), n)
  }

  function GetSize(b: seq<byte>, pos: nat): Option<(nat, nat)> {
    match GetScalar(b, pos, 8)
    case None => None
    case Some((bs, p)) => Some((UnLe(bs), p))
  }

  function GetPods(b: seq<byte>, pos: nat, n: nat, count: nat): Option<(seq<seq<byte>>, nat)>
    decreases count
  {
    if count == 0 then Some(([], pos))
    else
      match GetBytes(b, pos, n)
      case None => None
      case Some((x, p)) =>
        match GetPods(b, p, n, count - 1)
        case None => None
        case Some((xs, q)) => Some(([x] + xs, q))
  }

  /** The types that can be read: sizes of plain data are positive, and vectors hold what has a put and a get. */
  predicate Sized(t: Ty)
    decreases t
  {
    match t
    case TScalar(n) => n > 0
    case TString => true
    case TPodVec(n) => n > 0
    case TVec(e) => IsElement(e) && Sized(e)
    case TMap(k, w) => Sized(k) && Sized(w)
    case TRecord(ts) => forall i :: 0 <= i < |ts| ==> Sized(ts[i])
  }

  function Get(b: seq<byte>, pos: nat, t: Ty): Option<(Val, nat)>
    requires Sized(t)
    decreases t, 1, 0
  {
    match t
    case TScalar(n) =>
      (match GetScalar(b, pos, n)
       case None => None
       case Some((x, p)) => Some((Scalar(x), p)))
    case TString =>
      (match GetSize(b, pos)
       case None => None
       case Some((n, p)) =>
         match GetBytes(b, p, n)
         case None => None
         case Some((x, q)) => Some((String(x), q)))
    case TPodVec(s) =>
      (match GetSize(b, pos)
       case None => None
       case Some((n, p)) =>
         match GetPods(b, PadTo(p, s), s, n)
         case None => None
         case Some((xs, q)) => Some((PodVec(xs), q)))
    case TVec(e) =>
      (match GetSize(b, pos)
       case None => None
       case Some((n, p)) =>
         match GetSeq(b, p, e, n)
         case None => None
         case Some((xs, q)) => Some((Vec(xs), q)))
    case TMap(k, w) =>
      (match GetSize(b, pos)
       case None => None
       case Some((n, p)) =>
         match GetEntries(b, p, k, w, n, [])
         case None => None
         case Some((xs, q)) => Some((Map(xs), q)))
    case TRecord(ts) =>
      match GetFields(b, pos, ts)
      case None => None
      case Some((xs, q)) => Some((Record(xs), q))
  }

  function GetSeq(b: seq<byte>, pos: nat, t: Ty, count: nat): Option<(seq<Val>, nat)>
    requires Sized(t)
    decreases t, 2, count
  {
    if count == 0 then Some(([], pos))
    else
      match Get(b, pos, t)
      case None => None
      case Some((x, p)) =>
        match GetSeq(b, p, t, count - 1)
        case None => None
        case Some((xs, q)) => Some(([x] + xs, q))
  }

  /** Inserting into a map leaves an entry that is already there. */
  function InsertEntry(es: seq<(Val, Val)>, k: Val, w: Val): seq<(Val, Val)> {
    if exists i :: 0 <= i < |es| && es[i].0 == k then es else es + [(k, w)]
  }

  /** No entry is lost or changed, no key comes twice, and the key is there. */
  lemma InsertKeeps(es: seq<(Val, Val)>, k: Val, w: Val)
    ensures es <= InsertEntry(es, k, w) && (DistinctKeys(es) ==> DistinctKeys(InsertEntry(es, k, w)))
    ensures exists i :: 0 <= i < |InsertEntry(es, k, w)| && InsertEntry(es, k, w)[i].0 == k
    ensures (forall i :: 0 <= i < |es| ==> es[i].0 != k) ==> InsertEntry(es, k, w) == es + [(k, w)]
  {
    assert (es + [(k, w)])[|es|].0 == k;
  }

  function GetEntries(b: seq<byte>, pos: nat, k: Ty, w: Ty, count: nat, sofar: seq<(Val, Val)>)
    : Option<(seq<(Val, Val)>, nat)>
    requires Sized(k) && Sized(w)
    decreases TMap(k, w), 0, count
  {
    if count == 0 then Some((sofar, pos))
    else
      match Get(b, pos, k)
      case None => None
      case Some((x, p)) =>
        match Get(b, p, w)
        case None => None
        case Some((y, q)) => GetEntries(b, q, k, w, count - 1, InsertEntry(sofar, x, y))
  }

  function GetFields(b: seq<byte>, pos: nat, ts: seq<Ty>): Option<(seq<Val>, nat)>
    requires forall i :: 0 <= i < |ts| ==> Sized(ts[i])
    decreases ts, 0
  {
    if ts == [] then Some(([], pos))
    else
      match Get(b, pos, ts[0])
      case None => None
      case Some((x, p)) =>
        match GetFields(b, p, ts[1..])
        case None => None
        case Some((xs, q)) => Some(([x] + xs, q))
  }

  lemma GetSeqNone(b: seq<byte>, pos: nat, t: Ty)
    requires Sized(t)
    ensures GetSeq(b, pos, t, 0) == Some(([], pos))
  {
  }

  lemma PutSeqStep(d: seq<byte>, t: Ty, vs: seq<Val>)
    requires vs != [] && forall i :: 0 <= i < |vs| ==> HasType(vs[i], t)
    ensures PutSeq(d, t, vs) == PutSeq(Put(d, t, vs[0]), t, vs[1..])
  {
    hide Put, HasType;
  }

  lemma PutFieldsStep(d: seq<byte>, ts: seq<Ty>, vs: seq<Val>)
    requires vs != [] && |ts| == |vs| && forall i :: 0 <= i < |ts| ==> HasType(vs[i], ts[i])
    ensures PutFields(d, ts, vs) == PutFields(Put(d, ts[0], vs[0]), ts[1..], vs[1..])
  {
    hide Put, HasType;
  }

  lemma GetSeqCons(b: seq<byte>, pos: nat, t: Ty, count: nat, x: Val, p: nat, xs: seq<Val>, q: nat)
    requires Sized(t) && count > 0 && Get(b, pos, t) == Some((x, p)) && GetSeq(b, p, t, count - 1) == Some((xs, q))
    ensures GetSeq(b, pos, t, count) == Some(([x] + xs, q))
  {
    hide Get, Sized;
  }

  lemma GetFieldsCons(b: seq<byte>, pos: nat, ts: seq<Ty>, x: Val, p: nat, xs: seq<Val>, q: nat)
    requires (forall i :: 0 <= i < |ts| ==> Sized(ts[i])) && ts != []
    requires Get(b, pos, ts[0]) == Some((x, p)) && GetFields(b, p, ts[1..]) == Some((xs, q))
    ensures GetFields(b, pos, ts) == Some(([x] + xs, q))
  {
    hide Get, Sized;
  }

  /** Reading a list is reading its first element and then the rest. */
  lemma GetSeqStep(b: seq<byte>, pos: nat, t: Ty, count: nat)
    requires Sized(t) && count > 0 && GetSeq(b, pos, t, count).Some?
    ensures Get(b, pos, t).Some?
    ensures var (x, p) := Get(b, pos, t).value;
      && GetSeq(b, p, t, count - 1).Some?
      && GetSeq(b, pos, t, count).value.0 == [x] + GetSeq(b, p, t, count - 1).value.0
      && GetSeq(b, pos, t, count).value.1 == GetSeq(b, p, t, count - 1).value.1
  {
    hide Get, Sized;
  }

  lemma GetEntriesStep(b: seq<byte>, pos: nat, k: Ty, w: Ty, count: nat, sofar: seq<(Val, Val)>)
    requires Sized(k) && Sized(w) && count > 0 && Get(b, pos, k).Some? && Get(b, Get(b, pos, k).value.1, w).Some?
    ensures var (x, p) := Get(b, pos, k).value;
            var (y, q) := Get(b, p, w).value;
            GetEntries(b, pos, k, w, count, sofar) == GetEntries(b, q, k, w, count - 1, InsertEntry(sofar, x, y))
  {
    hide Get, Sized, InsertEntry;
  }

  // ----- the layout

  /** p is d with padding up to the next multiple of n. */
  ghost predicate IsPadded(d: seq<byte>, n: nat, p: seq<byte>)
    requires n > 0
  {
    d <= p && |p| < |d| + n && |p| % n == 0 && forall i :: |d| <= i < |p| ==> p[i] == PAD
  }

  lemma {:induction false} PadToIsNear(pos: nat, n: nat)
    requires n > 0
    ensures PadTo(pos, n) == if pos % n == 0 then pos else pos + n - pos % n
    decreases if pos % n == 0 then 0 else n - pos % n
  {
    if pos % n != 0 {
      ModStep(pos, n);
      PadToIsNear(pos + 1, n);
    }
  }

  lemma PadPads(d: seq<byte>, n: nat)
    requires n > 0
    ensures IsPadded(d, n, Pad(d, n))
  {
    PadToIsNear(|d|, n);
  }

  /**
    Every value starts with its size or itself, aligned from the beginning of the buffer: plain data to its own size,
    sizes to their eight bytes, and the elements of a plain vector once more to theirs.
   */
  lemma Layout(d: seq<byte>, t: Ty, v: Val)
    requires HasType(v, t)
    ensures match t
      case TScalar(n) => exists p :: IsPadded(d, n, p) && Put(d, t, v) == p + v.bytes
      case TString => exists p :: IsPadded(d, 8, p) && Put(d, t, v) == p + SizeBytes(|v.chars|) + v.chars
      case TPodVec(n) => exists p, q ::
        && IsPadded(d, 8, p) && IsPadded(p + SizeBytes(|v.pods|), n, q) && Put(d, t, v) == q + Flat(v.pods)
      case TVec(e) => exists p ::
        IsPadded(d, 8, p) && Put(d, t, v) == PutSeq(p + SizeBytes(|v.elems|), e, v.elems)
      case TMap(k, w) => exists p ::
        IsPadded(d, 8, p) && Put(d, t, v) == PutEntries(p + SizeBytes(|v.entries|), k, w, v.entries)
      case TRecord(ts) => Put(d, t, v) == PutFields(d, ts, v.fields)
  {
    hide IsPadded;
    match t
    case TScalar(n) => PadPads(d, n);
    case TPodVec(n) =>
      PadPads(d, 8);
      var p, q := Pad(d, 8), Pad(PutScalar(d, SizeBytes(|v.pods|)), n);
      PadPads(PutScalar(d, SizeBytes(|v.pods|)), n);
      assert IsPadded(d, 8, p) && IsPadded(p + SizeBytes(|v.pods|), n, q) && Put(d, t, v) == q + Flat(v.pods);
    case TRecord(_) =>
    case _ => PadPads(d, 8);
  }

  /** Elements, entries and fields lie one after the other: a key before its value. */
  lemma {:induction false} SeqLayout(d: seq<byte>, t: Ty, vs: seq<Val>, v: Val)
    requires HasType(v, t) && forall i :: 0 <= i < |vs| ==> HasType(vs[i], t)
    ensures forall i :: 0 <= i < |vs + [v]| ==> HasType((vs + [v])[i], t)
    ensures PutSeq(d, t, vs + [v]) == Put(PutSeq(d, t, vs), t, v)
    decreases |vs|
  {
    hide Put, HasType;
    PutSeqStep(d, t, vs + [v]);
    if vs == [] {
      assert ([] + [v])[1..] == [];
    } else {
      assert (vs + [v])[1..] == vs[1..] + [v];
      PutSeqStep(d, t, vs);
      SeqLayout(Put(d, t, vs[0]), t, vs[1..], v);
    }
  }

  lemma {:induction false} EntriesLayout(d: seq<byte>, k: Ty, w: Ty, es: seq<(Val, Val)>, e: (Val, Val))
    requires HasType(e.0, k) && HasType(e.1, w)
    requires forall i :: 0 <= i < |es| ==> HasType(es[i].0, k) && HasType(es[i].1, w)
    ensures forall i :: 0 <= i < |es + [e]| ==> HasType((es + [e])[i].0, k) && HasType((es + [e])[i].1, w)
    ensures PutEntries(d, k, w, es + [e]) == Put(Put(PutEntries(d, k, w, es), k, e.0), w, e.1)
    decreases |es|
  {
    hide Put, HasType;
    PutEntriesStep(d, k, w, es + [e]);
    if es == [] {
      assert ([] + [e])[1..] == [];
    } else {
      assert (es + [e])[1..] == es[1..] + [e];
      PutEntriesStep(d, k, w, es);
      EntriesLayout(PutEntry(d, k, w, es[0]), k, w, es[1..], e);
    }
  }

  lemma PutEntriesStep(d: seq<byte>, k: Ty, w: Ty, es: seq<(Val, Val)>)
    requires es != [] && forall i :: 0 <= i < |es| ==> HasType(es[i].0, k) && HasType(es[i].1, w)
    ensures PutEntries(d, k, w, es) == PutEntries(Put(Put(d, k, es[0].0), w, es[0].1), k, w, es[1..])
  {
    hide Put, HasType;
  }

  lemma {:induction false} FieldsLayout(d: seq<byte>, ts: seq<Ty>, vs: seq<Val>, us: seq<Ty>, ws: seq<Val>)
    requires |ts| == |vs| && forall i :: 0 <= i < |ts| ==> HasType(vs[i], ts[i])
    requires |us| == |ws| && forall i :: 0 <= i < |us| ==> HasType(ws[i], us[i])
    ensures forall i :: 0 <= i < |ts + us| ==> HasType((vs + ws)[i], (ts + us)[i])
    ensures PutFields(d, ts + us, vs + ws) == PutFields(PutFields(d, ts, vs), us, ws)
    decreases |ts|
  {
    hide Put, HasType;
    if ts == [] {
      assert ts + us == us && vs + ws == ws;
    } else {
      assert (ts + us)[1..] == ts[1..] + us && (vs + ws)[1..] == vs[1..] + ws;
      PutFieldsStep(d, ts + us, vs + ws);
      PutFieldsStep(d, ts, vs);
      FieldsLayout(Put(d, ts[0], vs[0]), ts[1..], vs[1..], us, ws);
    }
  }

  /** The least significant byte comes first. */
  lemma {:induction false} LeDigits(x: nat, m: nat, k: nat)
    requires k < m
    ensures Le(x, m)[k] == x / Pow256(k) % 256
    decreases k
  {
    if k > 0 {
      LeDigits(x / 256, m - 1, k - 1);
      DivTwice(x, Pow256(k - 1));
    }
  }

  lemma DivTwice(x: nat, b: nat)
    requires b > 0
    ensures x / 256 / b == x / (256 * b)
  {
    var q, r := x / 256, x % 256;
    var p, s := q / b, q % b;
    assert q == b * p + s;
    assert x == 256 * (b * p + s) + r == (256 * b) * p + (256 * s + r);
    assert 0 <= 256 * s + r < 256 * b;
    DivByDef(x, 256 * b, p, 256 * s + r);
  }

  lemma DivByDef(x: nat, n: nat, q: nat, r: nat)
    requires n > 0 && r < n && x == n * q + r
    ensures x / n == q
  {
    DivMod(x, n, q, r);
    assert n * (x / n - q) == 0;
    var d := x / n - q;
    if d > 0 { MulAtLeast(n, d); }
    if d < 0 { MulAtLeast(n, -d); }
  }

  // ----- the round trip

  lemma ScalarBack(d: seq<byte>, bytes: seq<byte>, b: seq<byte>)
    requires |bytes| > 0 && PutScalar(d, bytes) <= b
    ensures GetScalar(b, |d|, |bytes|) == Some((bytes, |PutScalar(d, bytes)|))
  {
    var p := PadTo(|d|, |bytes|);
    assert b[p..p + |bytes|] == PutScalar(d, bytes)[p..p + |bytes|] == bytes;
  }

  lemma SizeAt(d: seq<byte>, n: nat, b: seq<byte>)
    requires n < MAX_SIZE && PutScalar(d, SizeBytes(n)) <= b
    ensures GetSize(b, |d|) == Some((n, |PutScalar(d, SizeBytes(n))|))
  {
    ScalarBack(d, SizeBytes(n), b);
    SizeBack(n);
  }

  lemma {:induction false} PodsBack(d: seq<byte>, n: nat, pods: seq<seq<byte>>, b: seq<byte>)
    requires forall i :: 0 <= i < |pods| ==> |pods[i]| == n
    requires d + Flat(pods) <= b
    ensures GetPods(b, |d|, n, |pods|) == Some((pods, |d + Flat(pods)|))
    decreases |pods|
  {
    if pods != [] {
      assert d + Flat(pods) == (d + pods[0]) + Flat(pods[1..]);
      assert b[|d|..|d| + n] == (d + Flat(pods))[|d|..|d| + n] == pods[0];
      PodsBack(d + pods[0], n, pods[1..], b);
      assert [pods[0]] + pods[1..] == pods;
    }
  }

  /**
    Whatever was in the buffer before and whatever follows, reading the type of a written value where its writing
    started returns the value and stops exactly where the writing ended.
   */
  lemma {:induction false} RoundTrip(d: seq<byte>, t: Ty, v: Val, b: seq<byte>)
    requires HasType(v, t) && Sized(t) && Put(d, t, v) <= b
    ensures Get(b, |d|, t) == Some((v, |Put(d, t, v)|))
    decreases v, 1
  {
    match t
    case TScalar(n) =>
      ScalarBack(d, v.bytes, b);
    case TString =>
      var d' := PutScalar(d, SizeBytes(|v.chars|));
      SizeAt(d, |v.chars|, b);
      assert b[|d'|..|d'| + |v.chars|] == Put(d, t, v)[|d'|..|d'| + |v.chars|] == v.chars;
    case TPodVec(n) =>
      SizeAt(d, |v.pods|, b);
      PodsBack(Pad(PutScalar(d, SizeBytes(|v.pods|)), n), n, v.pods, b);
    case TVec(e) =>
      SizeAt(d, |v.elems|, b);
      SeqBack(PutScalar(d, SizeBytes(|v.elems|)), e, v.elems, b);
    case TMap(k, w) =>
      SizeAt(d, |v.entries|, b);
      EntriesBack(PutScalar(d, SizeBytes(|v.entries|)), k, w, v.entries, b, []);
      assert [] + v.entries == v.entries;
    case TRecord(ts) =>
      FieldsBack(d, ts, v.fields, b);
  }

  lemma {:induction false} SeqBack(d: seq<byte>, t: Ty, vs: seq<Val>, b: seq<byte>)
    requires Sized(t) && forall i :: 0 <= i < |vs| ==> HasType(vs[i], t)
    requires PutSeq(d, t, vs) <= b
    ensures GetSeq(b, |d|, t, |vs|) == Some((vs, |PutSeq(d, t, vs)|))
    decreases vs, 0
  {
    if vs == [] {
      GetSeqNone(b, |d|, t);
      return;
    }
    hide Get, Put, Sized, HasType, GetSeq, PutSeq;
    var d' := Put(d, t, vs[0]);
    PutSeqStep(d, t, vs);
    RoundTrip(d, t, vs[0], b);
    SeqBack(d', t, vs[1..], b);
    GetSeqCons(b, |d|, t, |vs|, vs[0], |d'|, vs[1..], |PutSeq(d, t, vs)|);
    assert [vs[0]] + vs[1..] == vs;
  }

  lemma {:induction false} EntriesBack(d: seq<byte>, k: Ty, w: Ty, es: seq<(Val, Val)>, b: seq<byte>,
                                       sofar: seq<(Val, Val)>)
    requires Sized(k) && Sized(w) && DistinctKeys(sofar + es)
    requires forall i :: 0 <= i < |es| ==> HasType(es[i].0, k) && HasType(es[i].1, w)
    requires PutEntries(d, k, w, es) <= b
    ensures GetEntries(b, |d|, k, w, |es|, sofar) == Some((sofar + es, |PutEntries(d, k, w, es)|))
    decreases es, 0
  {
    if es == [] {
      assert sofar + es == sofar;
      return;
    }
    hide Get, Put, Sized, HasType, DistinctKeys, InsertEntry, GetEntries;
    var e := es[0];
    EntryBack(d, k, w, e, b);
    GetEntriesStep(b, |d|, k, w, |es|, sofar);
    NewEntry(sofar, es);
    EntriesBack(PutEntry(d, k, w, e), k, w, es[1..], b, sofar + [e]);
  }

  lemma NewEntry(sofar: seq<(Val, Val)>, es: seq<(Val, Val)>)
    requires es != [] && DistinctKeys(sofar + es)
    ensures InsertEntry(sofar, es[0].0, es[0].1) == sofar + [es[0]]
    ensures sofar + es == (sofar + [es[0]]) + es[1..]
  {
    assert (sofar + es)[|sofar|] == es[0];
    assert forall i :: 0 <= i < |sofar| ==> (sofar + es)[i] == sofar[i];
  }

  lemma {:induction false} EntryBack(d: seq<byte>, k: Ty, w: Ty, e: (Val, Val), b: seq<byte>)
    requires HasType(e.0, k) && HasType(e.1, w) && Sized(k) && Sized(w)
    requires PutEntry(d, k, w, e) <= b
    ensures Get(b, |d|, k) == Some((e.0, |Put(d, k, e.0)|))
    ensures Get(b, |Put(d, k, e.0)|, w) == Some((e.1, |PutEntry(d, k, w, e)|))
    decreases e, 2
  {
    RoundTrip(d, k, e.0, b);
    RoundTrip(Put(d, k, e.0), w, e.1, b);
  }

  lemma {:induction false} FieldsBack(d: seq<byte>, ts: seq<Ty>, vs: seq<Val>, b: seq<byte>)
    requires |ts| == |vs| && forall i :: 0 <= i < |ts| ==> HasType(vs[i], ts[i]) && Sized(ts[i])
    requires PutFields(d, ts, vs) <= b
    ensures GetFields(b, |d|, ts) == Some((vs, |PutFields(d, ts, vs)|))
    decreases vs, 0
  {
    if vs == [] {
      return;
    }
    hide Get, Put, Sized, HasType, GetFields, PutFields;
    var d' := Put(d, ts[0], vs[0]);
    PutFieldsStep(d, ts, vs);
    RoundTrip(d, ts[0], vs[0], b);
    FieldsBack(d', ts[1..], vs[1..], b);
    GetFieldsCons(b, |d|, ts, vs[0], |d'|, vs[1..], |PutFields(d, ts, vs)|);
    assert [vs[0]] + vs[1..] == vs;
  }

  /** A message: values written one after the other are read back in order, up to the exact end. */
  lemma MessageRoundTrip(ts: seq<Ty>, vs: seq<Val>)
    requires |ts| == |vs| && forall i :: 0 <= i < |ts| ==> HasType(vs[i], ts[i]) && Sized(ts[i])
    ensures GetFields(PutFields([], ts, vs), 0, ts) == Some((vs, |PutFields([], ts, vs)|))
  {
    FieldsBack([], ts, vs, PutFields([], ts, vs));
  }
}
