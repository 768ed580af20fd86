/** The proxy and service bodies that saftbus-gen emits for an exported function, run against each other. */
module Stubs {
  import opened Basics
  import opened Wire

  /** How an argument is declared; non-const references are taken as outputs. */
  datatype Passing = ByValue | ConstReference | Reference

  datatype Arg = Arg(passing: Passing, ty: Ty) {
    predicate IsOutput() { passing == Reference }
  }

  datatype Func = Func(args: seq<Arg>, ret: Option<Ty>)

  datatype Class = Class(name: string, funcs: seq<Func>)

  /** What calling the driver does: it returns outputs and perhaps a value, or throws. */
  datatype Outcome =
    | Returned(outs: seq<Val>, ret: Option<Val>)
    | RuntimeError(what: seq<byte>)
    | OtherException(what: seq<byte>)

  /** What the caller of the proxy sees. */
  datatype Result = Value(outs: seq<Val>, ret: Option<Val>) | Thrown(what: seq<byte>) | NoReply

  /** The driver behind a service: class, function, inputs, and what the outputs hold at first, to an outcome. */
  type Driver = (Class, nat, seq<Val>, seq<Val>) -> Outcome

  /** A service numbers its class and then all base classes. */
  datatype Service = Service(interfaces: seq<Class>, driver: Driver)

  function InTypes(args: seq<Arg>): seq<Ty> {
    if args == [] then [] else (if args[0].IsOutput() then [] else [args[0].ty]) + InTypes(args[1..])
  }

  function OutTypes(args: seq<Arg>): seq<Ty> {
    if args == [] then [] else (if args[0].IsOutput() then [args[0].ty] else []) + OutTypes(args[1..])
  }

  function RetTypes(f: Func): seq<Ty> {
    if f.ret.None? then [] else [f.ret.value]
  }

  function RetVals(r: Option<Val>): seq<Val> {
    if r.None? then [] else [r.value]
  }

  ghost predicate Fields(ts: seq<Ty>, vs: seq<Val>) {
    |ts| == |vs| && forall i :: 0 <= i < |ts| ==> HasType(vs[i], ts[i]) && Sized(ts[i])
  }

  /** The outcomes a driver with this signature can have. */
  ghost predicate Fits(o: Outcome, f: Func) {
    match o
    case Returned(outs, ret) =>
      && Fields(OutTypes(f.args), outs)
      && (ret.None? <==> f.ret.None?)
      && Fields(RetTypes(f), RetVals(ret))
    case RuntimeError(what) => |what| < MAX_SIZE
    case OtherException(_) => true
  }

  const T_INT := TScalar(4)

  function Int(n: nat): Val { Scalar(Le(n, 4)) }

  function UnInt(v: Val): nat { if v.Scalar? then UnLe(v.bytes) else 0 }

  const RETURN: nat := 0
  const EXCEPTION: nat := 1

  function Bytes(s: string): seq<byte> {
    seq(|s|, i requires 0 <= i < |s| => s[i] as int % 256)
  }

  const NOT_FOUND := Bytes("remote call failed because service object was not found")
  const UNKNOWN := Bytes("unknown exception")

  // ----- the service side

  /** What Service::call writes for the outcome of the driver. */
  function Reply(o: Outcome, f: Func): seq<byte>
    requires Fits(o, f)
  {
    match o
    case Returned(outs, ret) =>
      PutFields(PutFields(Put([], T_INT, Int(RETURN)), OutTypes(f.args), outs), RetTypes(f), RetVals(ret))
    case RuntimeError(what) => ReplyException(what)
    case OtherException(_) => ReplyException(UNKNOWN)
  }

  function ReplyException(what: seq<byte>): seq<byte>
    requires |what| < MAX_SIZE
  {
    Put(Put([], T_INT, Int(EXCEPTION)), TString, String(what))
  }

  /** What holds of the driver of a service: it has the declared signatures, whose types have a put and a get. */
  ghost predicate Typed(s: Service) {
    forall i, k :: 0 <= i < |s.interfaces| && 0 <= k < |s.interfaces[i].funcs| ==>
      var c := s.interfaces[i]; var f := c.funcs[k];
      && (forall j :: 0 <= j < |InTypes(f.args)| ==> Sized(InTypes(f.args)[j]))
      && (forall ins, inits :: Fits(s.driver(c, k, ins, inits), f))
  }

  /**
    The generated switch: get the inputs, call the driver, write the reply; nothing is written for unknown numbers.
    The outputs are local variables, which hold whatever a new variable holds.
   */
  ghost function Call(s: Service, interfaceNo: nat, functionNo: nat, b: seq<byte>, pos: nat, blank: seq<Val>)
    : Option<seq<byte>>
    requires Typed(s)
  {
    if interfaceNo >= |s.interfaces| || functionNo >= |s.interfaces[interfaceNo].funcs| then None
    else
      var c := s.interfaces[interfaceNo];
      var f := c.funcs[functionNo];
      match GetFields(b, pos, InTypes(f.args))
      case None => None
      case Some((ins, _)) => Some(Reply(s.driver(c, functionNo, ins, blank), f))
  }

  /** The server: an object that is gone is reported as an exception; otherwise its service reads the two numbers. */
  ghost function Serve(objects: map<nat, Service>, b: seq<byte>, blank: seq<Val>): Option<seq<byte>>
    requires forall id :: id in objects ==> Typed(objects[id])
  {
    match Get(b, 0, T_INT)
    case None => None
    case Some((id, p)) =>
      if UnInt(id) !in objects then Some(ReplyException(NOT_FOUND))
      else
        match Get(b, p, T_INT)
        case None => None
        case Some((i, q)) =>
          match Get(b, q, T_INT)
          case None => None
          case Some((k, r)) => Call(objects[UnInt(id)], UnInt(i), UnInt(k), b, r, blank)
  }

  // ----- the proxy side

  function Header(id: nat, interfaceNo: nat, functionNo: nat): seq<byte> {
    Put(Put(Put([], T_INT, Int(id)), T_INT, Int(interfaceNo)), T_INT, Int(functionNo))
  }

  function Receive(f: Func, b: seq<byte>): Result
    requires forall i :: 0 <= i < |OutTypes(f.args)| ==> Sized(OutTypes(f.args)[i])
    requires forall i :: 0 <= i < |RetTypes(f)| ==> Sized(RetTypes(f)[i])
  {
    match Get(b, 0, T_INT)
    case None => NoReply
    case Some((r, p)) =>
      if UnInt(r) == EXCEPTION then
        match Get(b, p, TString)
        case Some((String(what), _)) => Thrown(what)
        case _ => NoReply
      else
        match GetFields(b, p, OutTypes(f.args))
        case None => NoReply
        case Some((outs, q)) =>
          match GetFields(b, q, RetTypes(f))
          case None => NoReply
          case Some((rets, _)) => Value(outs, if rets == [] then None else Some(rets[0]))
  }

  ghost predicate Callable(f: Func) {
    && (forall i :: 0 <= i < |OutTypes(f.args)| ==> Sized(OutTypes(f.args)[i]))
    && (forall i :: 0 <= i < |RetTypes(f)| ==> Sized(RetTypes(f)[i]))
  }

  ghost function ProxyCall(objects: map<nat, Service>, id: nat, interfaceNo: nat, functionNo: nat, f: Func,
                           ins: seq<Val>, blank: seq<Val>): Result
    requires forall i :: i in objects ==> Typed(objects[i])
    requires Callable(f) && Fields(InTypes(f.args), ins)
  {
    match Serve(objects, PutFields(Header(id, interfaceNo, functionNo), InTypes(f.args), ins), blank)
    case None => NoReply
    case Some(reply) => Receive(f, reply)
  }

  /** A call of the driver without saftbus in between. */
  function DirectCall(o: Outcome): Result {
    match o
    case Returned(outs, ret) => Value(outs, ret)
    case RuntimeError(what) => Thrown(what)
    case OtherException(what) => Thrown(what)
  }

  /** An exception that is not a runtime error and has a text of its own. */
  predicate LosesText(o: Outcome) {
    o.OtherException? && o.what != UNKNOWN
  }

  /** What the stubs make of an outcome. */
  function Relayed(o: Outcome): Result {
    if o.OtherException? then Thrown(UNKNOWN) else DirectCall(o)
  }

  // ----- what is sent

  /** Only non-const references are outputs, and both lists keep the order of the arguments. */
  lemma {:induction false} ArgumentsKeepOrder(args: seq<Arg>, a: Arg)
    ensures InTypes(args + [a]) == InTypes(args) + if a.passing == Reference then [] else [a.ty]
    ensures OutTypes(args + [a]) == OutTypes(args) + if a.passing == Reference then [a.ty] else []
    decreases |args|
  {
    if args == [] {
      assert ([] + [a])[1..] == [];
    } else {
      assert (args + [a])[1..] == args[1..] + [a];
      ArgumentsKeepOrder(args[1..], a);
    }
  }

  lemma IntHasType(n: nat)
    ensures HasType(Int(n), T_INT)
  {
  }

  /** A request is the numbers of the object, the interface and the function, and then the inputs. */
  lemma RequestLayout(id: nat, interfaceNo: nat, functionNo: nat, ts: seq<Ty>, ins: seq<Val>)
    requires Fields(ts, ins)
    ensures var types, vals := [T_INT, T_INT, T_INT] + ts, [Int(id), Int(interfaceNo), Int(functionNo)] + ins;
      && |types| == |vals| && (forall i :: 0 <= i < |types| ==> HasType(vals[i], types[i]))
      && PutFields(Header(id, interfaceNo, functionNo), ts, ins) == PutFields([], types, vals)
  {
    hide Put, HasType, Sized, Int;
    IntHasType(id);
    IntHasType(interfaceNo);
    IntHasType(functionNo);
    var ts3, vs3 := [T_INT, T_INT, T_INT], [Int(id), Int(interfaceNo), Int(functionNo)];
    PutFieldsStep([], ts3, vs3);
    PutFieldsStep(Put([], T_INT, Int(id)), ts3[1..], vs3[1..]);
    PutFieldsStep(Put(Put([], T_INT, Int(id)), T_INT, Int(interfaceNo)), ts3[2..], vs3[2..]);
    assert ts3[1..][1..] == ts3[2..] && vs3[1..][1..] == vs3[2..] && ts3[2..][1..] == [] && vs3[2..][1..] == [];
    assert PutFields([], ts3, vs3) == Header(id, interfaceNo, functionNo);
    FieldsLayout([], ts3, vs3, ts, ins);
  }

  /** A reply is 0, the outputs and the value, if there is one; or 1 and the text of the exception. */
  lemma ReplyLayout(o: Outcome, f: Func)
    requires Fits(o, f)
    ensures match o
      case Returned(outs, ret) =>
        var types, vals := [T_INT] + OutTypes(f.args) + RetTypes(f), [Int(0)] + outs + RetVals(ret);
        && |types| == |vals| && (forall i :: 0 <= i < |types| ==> HasType(vals[i], types[i]))
        && Reply(o, f) == PutFields([], types, vals)
      case RuntimeError(what) => Reply(o, f) == Put(Put([], T_INT, Int(1)), TString, String(what))
      case OtherException(_) => Reply(o, f) == Put(Put([], T_INT, Int(1)), TString, String(Bytes("unknown exception")))
  {
    hide Put, HasType, Sized, Int;
    match o
    case Returned(outs, ret) =>
      IntHasType(0);
      PutFieldsStep([], [T_INT], [Int(0)]);
      assert [T_INT][1..] == [] && [Int(0)][1..] == [];
      assert PutFields([], [T_INT], [Int(0)]) == Put([], T_INT, Int(RETURN));
      FieldsLayout([], [T_INT], [Int(0)], OutTypes(f.args), outs);
      FieldsLayout([], [T_INT] + OutTypes(f.args), [Int(0)] + outs, RetTypes(f), RetVals(ret));
    case RuntimeError(_) =>
    case OtherException(_) =>
  }

  // ----- transparency

  lemma IntBack(d: seq<byte>, n: nat, b: seq<byte>)
    requires n < 0x1_0000_0000 && Put(d, T_INT, Int(n)) <= b
    ensures Get(b, |d|, T_INT) == Some((Int(n), |Put(d, T_INT, Int(n))|)) && UnInt(Int(n)) == n
  {
    RoundTrip(d, T_INT, Int(n), b);
    assert Pow256(4) == 0x1_0000_0000;
    LeBack(n, 4);
  }

  /** The proxy makes of the reply what the driver did. */
  lemma ReplyBack(o: Outcome, f: Func)
    requires Fits(o, f) && Callable(f)
    ensures Receive(f, Reply(o, f)) == Relayed(o)
  {
    hide Put, PutFields, Get, GetFields, HasType, Sized;
    match o
    case Returned(outs, ret) =>
      ReturnedBack(outs, ret, f);
    case RuntimeError(what) =>
      ExceptionBack(what, f);
    case OtherException(_) =>
      ExceptionBack(UNKNOWN, f);
  }

  lemma ReturnedBack(outs: seq<Val>, ret: Option<Val>, f: Func)
    requires Fits(Returned(outs, ret), f) && Callable(f)
    ensures Receive(f, Reply(Returned(outs, ret), f)) == Value(outs, ret)
  {
    hide Put, PutFields, Get, GetFields, Sized;
    var b := Reply(Returned(outs, ret), f);
    var d := Put([], T_INT, Int(RETURN));
    IntBack([], RETURN, b);
    FieldsBack(d, OutTypes(f.args), outs, b);
    FieldsBack(PutFields(d, OutTypes(f.args), outs), RetTypes(f), RetVals(ret), b);
  }

  lemma ExceptionBack(what: seq<byte>, f: Func)
    requires |what| < MAX_SIZE && Callable(f)
    ensures Receive(f, ReplyException(what)) == Thrown(what)
  {
    var b := ReplyException(what);
    IntBack([], EXCEPTION, b);
    RoundTrip(Put([], T_INT, Int(EXCEPTION)), TString, String(what), b);
  }

  /** The request reaches the switch case of its numbers with the inputs as they were. */
  lemma RequestArrives(objects: map<nat, Service>, id: nat, i: nat, k: nat, f: Func, ins: seq<Val>, blank: seq<Val>)
    requires (forall j :: j in objects ==> Typed(objects[j])) && Fields(InTypes(f.args), ins)
    requires id < 0x1_0000_0000 && i < 0x1_0000_0000 && k < 0x1_0000_0000
    ensures var b := PutFields(Header(id, i, k), InTypes(f.args), ins);
      && Serve(objects, b, blank) == (if id !in objects then Some(ReplyException(NOT_FOUND))
                                      else Call(objects[id], i, k, b, |Header(id, i, k)|, blank))
      && GetFields(b, |Header(id, i, k)|, InTypes(f.args)) == Some((ins, |b|))
  {
    var b := PutFields(Header(id, i, k), InTypes(f.args), ins);
    IntBack([], id, b);
    IntBack(Put([], T_INT, Int(id)), i, b);
    IntBack(Put(Put([], T_INT, Int(id)), T_INT, Int(i)), k, b);
    FieldsBack(Header(id, i, k), InTypes(f.args), ins, b);
  }

  /** The service implements the class of the proxy: under its name it exports this class and no other. */
  ghost predicate Implements(s: Service, c: Class) {
    && (exists i :: 0 <= i < |s.interfaces| && s.interfaces[i] == c)
    && (forall i :: 0 <= i < |s.interfaces| && s.interfaces[i].name == c.name ==> s.interfaces[i] == c)
  }

  /** What holds of a call through a proxy that has registered for an object of its class. */
  ghost predicate Registered(objects: map<nat, Service>, id: nat, c: Class, interfaceNo: nat, k: nat, ins: seq<Val>) {
    && (forall j :: j in objects ==> Typed(objects[j]))
    && id in objects && id < 0x1_0000_0000
    && Implements(objects[id], c) && IsNumberOf(Names(objects[id].interfaces), c.name, interfaceNo)
    && k < |c.funcs| && k < 0x1_0000_0000 && interfaceNo < 0x1_0000_0000
    && Callable(c.funcs[k]) && Fields(InTypes(c.funcs[k].args), ins)
  }

  /**
    Remote call transparency: with the interface number that registration assigned to the name of its class, a call
    through the proxy has the return value, outputs and error text of the driver called directly on new variables,
    except that an exception that is not a runtime error loses its text.
   */
  lemma Transparency(objects: map<nat, Service>, id: nat, c: Class, interfaceNo: nat, k: nat, ins: seq<Val>,
                     blank: seq<Val>)
    requires Registered(objects, id, c, interfaceNo, k, ins)
    ensures var o := objects[id].driver(c, k, ins, blank);
      && ProxyCall(objects, id, interfaceNo, k, c.funcs[k], ins, blank) == Relayed(o)
      && (o.Returned? ==>
        ProxyCall(objects, id, interfaceNo, k, c.funcs[k], ins, blank) == Value(o.outs, o.ret))
      && (o.RuntimeError? ==>
        ProxyCall(objects, id, interfaceNo, k, c.funcs[k], ins, blank) == Thrown(o.what))
      && (o.OtherException? ==>
        ProxyCall(objects, id, interfaceNo, k, c.funcs[k], ins, blank) == Thrown(Bytes("unknown exception")))
      && (ProxyCall(objects, id, interfaceNo, k, c.funcs[k], ins, blank) == DirectCall(o) <==> !LosesText(o))
  {
    var f := c.funcs[k];
    RequestArrives(objects, id, interfaceNo, k, f, ins, blank);
    assert objects[id].interfaces[interfaceNo] == c;
    assert Fits(objects[id].driver(c, k, ins, blank), f);
    ReplyBack(objects[id].driver(c, k, ins, blank), f);
  }

  /** Whatever the outputs hold at first, the function does the same, and no exception of it loses its text. */
  ghost predicate SelfContained(d: Driver, c: Class, k: nat, ins: seq<Val>, outs: seq<Ty>) {
    && (forall a, b :: Fields(outs, a) && Fields(outs, b) ==>
      DirectCall(d(c, k, ins, a)) == DirectCall(d(c, k, ins, b)))
    && (forall a :: Fields(outs, a) ==> !LosesText(d(c, k, ins, a)))
  }

  /** Whatever the caller's variables and the new ones of the service hold, the call is that of the driver. */
  ghost predicate AlwaysDirect(objects: map<nat, Service>, id: nat, c: Class, interfaceNo: nat, k: nat, ins: seq<Val>)
    requires Registered(objects, id, c, interfaceNo, k, ins)
  {
    forall inits, blank :: Fields(OutTypes(c.funcs[k].args), inits) && Fields(OutTypes(c.funcs[k].args), blank) ==>
      ProxyCall(objects, id, interfaceNo, k, c.funcs[k], ins, blank) == DirectCall(objects[id].driver(c, k, ins, inits))
  }

  /**
    A non-const reference is an output only: what the caller's variable holds is not sent. A remote call is a direct one
    for all variables if and only if the function reads no output before it writes it and keeps to runtime errors.
   */
  lemma TransparentIffSelfContained(objects: map<nat, Service>, id: nat, c: Class, interfaceNo: nat, k: nat,
                                    ins: seq<Val>)
    requires Registered(objects, id, c, interfaceNo, k, ins)
    ensures AlwaysDirect(objects, id, c, interfaceNo, k, ins)
       <==> SelfContained(objects[id].driver, c, k, ins, OutTypes(c.funcs[k].args))
  {
    hide ProxyCall, Typed, Implements, Callable, DirectCall, LosesText, Relayed, Fields;
    var f, d := c.funcs[k], objects[id].driver;
    var outs := OutTypes(f.args);
    forall blank
      ensures ProxyCall(objects, id, interfaceNo, k, f, ins, blank) == Relayed(d(c, k, ins, blank))
      ensures ProxyCall(objects, id, interfaceNo, k, f, ins, blank) == DirectCall(d(c, k, ins, blank))
         <==> !LosesText(d(c, k, ins, blank))
    {
      Transparency(objects, id, c, interfaceNo, k, ins, blank);
    }
    if AlwaysDirect(objects, id, c, interfaceNo, k, ins) {
      forall a, b | Fields(outs, a) && Fields(outs, b)
        ensures DirectCall(d(c, k, ins, a)) == DirectCall(d(c, k, ins, b))
      {
        assert ProxyCall(objects, id, interfaceNo, k, f, ins, a) == DirectCall(d(c, k, ins, a));
        assert ProxyCall(objects, id, interfaceNo, k, f, ins, a) == DirectCall(d(c, k, ins, b));
      }
    }
  }

  /** A function with one integer passed by reference, and a driver that leaves in it what it holds. */
  const ECHO := Class("Echo", [Func([Arg(Reference, T_INT)], None)])

  function Echo(): Driver {
    (c, k, ins, inits) => Returned(if |inits| == 1 && IsInt(inits[0]) then inits else [Int(0)], None)
  }

  predicate IsInt(v: Val) { v.Scalar? && |v.bytes| == 4 }

  /** A service with one class and one function is registered as the first of its kind. */
  lemma RegisteredAlone(c: Class, d: Driver)
    requires |c.funcs| == 1 && Callable(c.funcs[0]) && InTypes(c.funcs[0].args) == []
    requires forall ins, inits :: Fits(d(c, 0, ins, inits), c.funcs[0])
    ensures Registered(map[1 := Service([c], d)], 1, c, 0, 0, [])
  {
    hide Callable, Fits, InTypes;
    var s := Service([c], d);
    assert Names(s.interfaces) == [c.name];
    assert s.interfaces[0] == c && Implements(s, c);
    assert Typed(s);
    assert IsNumberOf(Names(s.interfaces), c.name, 0);
    assert Fields(InTypes(c.funcs[0].args), []);
  }

  lemma EchoRegistered()
    ensures Registered(map[1 := Service([ECHO], Echo())], 1, ECHO, 0, 0, []) && OutTypes(ECHO.funcs[0].args) == [T_INT]
  {
    var args := ECHO.funcs[0].args;
    assert args[1..] == [] && InTypes(args[1..]) == [] && OutTypes(args[1..]) == [];
    assert InTypes(args) == [] && OutTypes(args) == [T_INT];
    TwoInts();
    hide Int;
    RegisteredAlone(ECHO, Echo());
  }

  /** A driver that reads its output is not called directly: what the caller's variable holds does not reach it. */
  lemma OutputIsNotSent()
    ensures var objects := map[1 := Service([ECHO], Echo())];
      Registered(objects, 1, ECHO, 0, 0, []) && !AlwaysDirect(objects, 1, ECHO, 0, 0, [])
  {
    hide Registered, AlwaysDirect, SelfContained, OutTypes;
    EchoRegistered();
    EchoReads();
    TransparentIffSelfContained(map[1 := Service([ECHO], Echo())], 1, ECHO, 0, 0, []);
  }

  lemma EchoReads()
    ensures !SelfContained(Echo(), ECHO, 0, [], [T_INT])
  {
    var zero, one := [Int(0)], [Int(1)];
    TwoInts();
    hide Int;
    assert Fields([T_INT], zero) && Fields([T_INT], one);
    assert DirectCall(Echo()(ECHO, 0, [], zero)) != DirectCall(Echo()(ECHO, 0, [], one));
  }

  lemma TwoInts()
    ensures IsInt(Int(0)) && IsInt(Int(1)) && Int(0) != Int(1)
  {
    assert Pow256(4) == 0x1_0000_0000;
    LeBack(0, 4);
    LeBack(1, 4);
    hide Le;
    assert Int(0) == Scalar(Le(0, 4)) && Int(1) == Scalar(Le(1, 4));
  }

  /** A function without arguments, and a driver that throws an exception which is not a runtime error. */
  const FAULTY := Class("Faulty", [Func([], None)])

  const FAULT := Bytes("fault")

  function Faulty(): Driver { (c, k, ins, inits) => OtherException(FAULT) }

  /** A driver that throws another exception is not called directly: its text does not reach the caller. */
  lemma TextIsLost()
    ensures var objects := map[1 := Service([FAULTY], Faulty())];
      Registered(objects, 1, FAULTY, 0, 0, []) && !AlwaysDirect(objects, 1, FAULTY, 0, 0, [])
  {
    hide Registered, AlwaysDirect;
    RegisteredAlone(FAULTY, Faulty());
    TransparentIffSelfContained(map[1 := Service([FAULTY], Faulty())], 1, FAULTY, 0, 0, []);
    assert |FAULT| != |UNKNOWN|;
    assert Fields([], []) && LosesText(Faulty()(FAULTY, 0, [], []));
  }

  /** A call to an object that has been removed is answered with an exception. */
  lemma GoneObject(objects: map<nat, Service>, id: nat, i: nat, k: nat, f: Func, ins: seq<Val>, blank: seq<Val>)
    requires (forall j :: j in objects ==> Typed(objects[j])) && id !in objects
    requires id < 0x1_0000_0000 && i < 0x1_0000_0000 && k < 0x1_0000_0000
    requires Callable(f) && Fields(InTypes(f.args), ins)
    ensures ProxyCall(objects, id, i, k, f, ins, blank) == Thrown(NOT_FOUND)
  {
    RequestArrives(objects, id, i, k, f, ins, blank);
    ExceptionBack(NOT_FOUND, f);
  }

  /** A call with numbers that the service does not know is not answered. */
  lemma NoSuchFunction(objects: map<nat, Service>, id: nat, i: nat, k: nat, f: Func, ins: seq<Val>, blank: seq<Val>)
    requires (forall j :: j in objects ==> Typed(objects[j])) && id in objects
    requires id < 0x1_0000_0000 && i < 0x1_0000_0000 && k < 0x1_0000_0000
    requires Callable(f) && Fields(InTypes(f.args), ins)
    requires i >= |objects[id].interfaces| || k >= |objects[id].interfaces[i].funcs|
    ensures ProxyCall(objects, id, i, k, f, ins, blank) == NoReply
  {
    RequestArrives(objects, id, i, k, f, ins, blank);
  }

  // ----- interface numbers

  function Names(cs: seq<Class>): seq<string> {
    seq(|cs|, i requires 0 <= i < |cs| => cs[i].name)
  }

  /** The last position of the name. */
  predicate IsNumberOf(names: seq<string>, name: string, i: nat) {
    i < |names| && names[i] == name && forall j :: i < j < |names| ==> names[j] != name
  }

  /**
    The map from requested interface names to interface numbers. It succeeds exactly if every requested name is
    implemented; a name that occurs more than once gets its last number.
   */
  method InterfaceMap(names: seq<string>, requested: seq<string>) returns (ok: bool, m: map<string, nat>)
    ensures ok <==> forall i :: 0 <= i < |requested| ==> requested[i] in names
    ensures forall n :: n in m <==> n in requested && n in names
    ensures forall n :: n in m ==> IsNumberOf(names, n, m[n])
  {
    ok, m := true, map[];
    for r := 0 to |requested|
      invariant ok <==> forall i :: 0 <= i < r ==> requested[i] in names
      invariant forall n :: n in m <==> n in requested[..r] && n in names
      invariant forall n :: n in m ==> IsNumberOf(names, n, m[n])
    {
      var name := requested[r];
      var implemented := false;
      ghost var before := m;
      for i := 0 to |names|
        invariant implemented <==> name in names[..i]
        invariant forall n :: n != name ==> (n in m <==> n in before) && (n in m ==> m[n] == before[n])
        invariant implemented ==> name in m && IsNumberOf(names[..i], name, m[name])
        invariant !implemented ==> (name in m <==> name in before) && (name in m ==> m[name] == before[name])
      {
        if name == names[i] {
          m := m[name := i];
          implemented := true;
        }
      }
      assert names[..|names|] == names;
      if !implemented {
        ok := false;
      }
    }
    assert requested[..|requested|] == requested;
  }
}
