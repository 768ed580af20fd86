/**
  Who may receive the signals of a service: use counts kept by services and by clients, and the proxies they stand for.
 */
module SignalUse {
  import opened Counting

  /** A registered proxy: the service it stands for, its client, and the file descriptor its signals are sent to. */
  datatype Proxy = Proxy(service: nat, client: nat, signal: nat)

  type UseCounts = map<nat, int>

  function UseOf(counts: UseCounts, signal: nat): int {
    if signal in counts then counts[signal] else 0
  }

  // ----- proxies

  ghost function OnAny(services: set<nat>, signal: nat): Proxy -> bool {
    (p: Proxy) => p.service in services && p.signal == signal
  }

  ghost function OfAny(clients: set<nat>, services: set<nat>, signal: nat): Proxy -> bool {
    (p: Proxy) => p.client in clients && p.service in services && p.signal == signal
  }

  ghost function OfService(id: nat): Proxy -> bool {
    (p: Proxy) => p.service == id
  }

  ghost function ByClient(client: nat, signal: nat): Proxy -> bool {
    (p: Proxy) => p.client == client && p.signal == signal
  }

  ghost function OfOthers(client: nat): Proxy -> bool {
    (p: Proxy) => p.client != client
  }

  /** The proxies, of any client, that listen to some services with a file descriptor. */
  ghost function Listeners(proxies: seq<Proxy>, services: set<nat>, signal: nat): nat {
    Count(proxies, OnAny(services, signal))
  }

  /** Those of them that some clients have. */
  ghost function ListenersOf(proxies: seq<Proxy>, clients: set<nat>, services: set<nat>, signal: nat): nat {
    Count(proxies, OfAny(clients, services, signal))
  }

  lemma CountOneMore(proxies: seq<Proxy>, p: Proxy, f: Proxy -> bool)
    ensures Count(proxies + [p], f) == Count(proxies, f) + if f(p) then 1 else 0
  {
    assert (proxies + [p])[..|proxies|] == proxies;
  }

  lemma CountOneLess(proxies: seq<Proxy>, i: nat, f: Proxy -> bool)
    requires i < |proxies|
    ensures Count(proxies, f) == Count(proxies[..i] + proxies[i + 1..], f) + if f(proxies[i]) then 1 else 0
  {
    CountSplit(proxies, i + 1, f);
    CountStep(proxies, i, f);
    CountConcat(proxies[..i], proxies[i + 1..], f);
  }

  lemma {:induction false} CountOfFiltered<T>(s: seq<T>, q: T -> bool, p: T -> bool, kept: bool)
    requires forall x :: x in s && p(x) ==> q(x) == kept
    ensures Count(Filter(s, q), p) == if kept then Count(s, p) else 0
  {
    if s != [] {
      var front, last := s[..|s| - 1], s[|s| - 1];
      CountOfFiltered(front, q, p, kept);
      assert last in s;
      if q(last) {
        assert Filter(s, q)[..|Filter(front, q)|] == Filter(front, q);
      } else {
        assert Filter(s, q) == Filter(front, q);
      }
    }
  }

  lemma {:induction false} FilteredHolds<T>(s: seq<T>, q: T -> bool)
    ensures forall x :: x in Filter(s, q) <==> x in s && q(x)
  {
    if s != [] {
      FilteredHolds(s[..|s| - 1], q);
      assert forall x :: x in s <==> x in s[..|s| - 1] || x == s[|s| - 1];
    }
  }

  lemma {:induction false} CountOfBoth<T>(s: seq<T>, q: T -> bool, p: T -> bool, both: T -> bool)
    requires forall x :: x in s ==> both(x) == (q(x) && p(x))
    ensures Count(Filter(s, q), p) == Count(s, both)
  {
    if s != [] {
      var front, last := s[..|s| - 1], s[|s| - 1];
      assert last in s;
      CountOfBoth(front, q, p, both);
      if q(last) {
        assert Filter(s, q)[..|Filter(front, q)|] == Filter(front, q);
      } else {
        assert Filter(s, q) == Filter(front, q);
      }
    }
  }

  lemma {:induction false} ListenersOfDisjoint(proxies: seq<Proxy>, some: set<nat>, others: set<nat>, signal: nat)
    requires some !! others
    ensures Listeners(proxies, some + others, signal) ==
      Listeners(proxies, some, signal) + Listeners(proxies, others, signal)
  {
    if proxies != [] {
      ListenersOfDisjoint(proxies[..|proxies| - 1], some, others, signal);
    }
  }

  lemma {:induction false} ListenersOfDisjointClients(proxies: seq<Proxy>, some: set<nat>, others: set<nat>,
                                                      services: set<nat>, signal: nat)
    requires some !! others
    ensures ListenersOf(proxies, some + others, services, signal) ==
      ListenersOf(proxies, some, services, signal) + ListenersOf(proxies, others, services, signal)
  {
    if proxies != [] {
      ListenersOfDisjointClients(proxies[..|proxies| - 1], some, others, services, signal);
    }
  }

  lemma {:induction false} ListenersOfDisjointServices(proxies: seq<Proxy>, clients: set<nat>, some: set<nat>,
                                                       others: set<nat>, signal: nat)
    requires some !! others
    ensures ListenersOf(proxies, clients, some + others, signal) ==
      ListenersOf(proxies, clients, some, signal) + ListenersOf(proxies, clients, others, signal)
  {
    if proxies != [] {
      ListenersOfDisjointServices(proxies[..|proxies| - 1], clients, some, others, signal);
    }
  }

  // ----- counts

  /** The services count no more listeners than there are. */
  ghost predicate ServiceBounds(services: map<nat, UseCounts>, proxies: seq<Proxy>) {
    forall id, signal :: id in services ==> UseOf(services[id], signal) <= Listeners(proxies, {id}, signal)
  }

  /** The services count their listeners exactly: an entry is there, and positive, exactly if there are any. */
  ghost predicate ServiceCounts(services: map<nat, UseCounts>, proxies: seq<Proxy>) {
    && (forall id, signal :: id in services ==> UseOf(services[id], signal) == Listeners(proxies, {id}, signal))
    && (forall id, signal :: id in services && signal in services[id] ==> services[id][signal] > 0)
  }

  /**
    A client counts exactly its own listeners to services that are still there, and its orphans: the proxies that were
    registered when their service went, whose use is never released.
   */
  ghost predicate ClientCounts(clients: map<nat, UseCounts>, services: set<nat>, proxies: seq<Proxy>,
                               orphans: seq<Proxy>) {
    forall c, signal :: c in clients ==>
      UseOf(clients[c], signal) == ListenersOf(proxies, {c}, services, signal) + Count(orphans, ByClient(c, signal))
  }

  /** Proxies and orphans are those of connected clients, with file descriptors that these know. */
  ghost predicate Known(clients: map<nat, UseCounts>, proxies: seq<Proxy>) {
    forall p :: p in proxies ==> p.client in clients && p.signal in clients[p.client]
  }

  ghost function TotalUse(counts: map<nat, UseCounts>, ids: set<nat>, signal: nat): int
    requires ids <= counts.Keys
  {
    if ids == {} then 0 else
    var id :| id in ids;
    UseOf(counts[id], signal) + TotalUse(counts, ids - {id}, signal)
  }

  /** Summed over services, the counts for a file descriptor are at most its listeners, and if exact just these. */
  lemma {:induction false} TotalUseIsListeners(services: map<nat, UseCounts>, ids: set<nat>, proxies: seq<Proxy>,
                                               signal: nat)
    requires ids <= services.Keys && ServiceBounds(services, proxies)
    ensures TotalUse(services, ids, signal) <= Listeners(proxies, ids, signal)
    ensures ServiceCounts(services, proxies) ==> TotalUse(services, ids, signal) == Listeners(proxies, ids, signal)
    decreases ids
  {
    if ids == {} {
      CountNone(proxies, OnAny(ids, signal));
    } else {
      var id :| id in ids &&
        TotalUse(services, ids, signal) == UseOf(services[id], signal) + TotalUse(services, ids - {id}, signal);
      TotalUseIsListeners(services, ids - {id}, proxies, signal);
      ListenersOfDisjoint(proxies, {id}, ids - {id}, signal);
      assert {id} + (ids - {id}) == ids;
    }
  }

  /** Summed over clients, the counts for a file descriptor are at least their listeners. */
  lemma {:induction false} TotalUseCoversListeners(clients: map<nat, UseCounts>, ids: set<nat>, services: set<nat>,
                                                   proxies: seq<Proxy>, orphans: seq<Proxy>, signal: nat)
    requires ids <= clients.Keys && ClientCounts(clients, services, proxies, orphans)
    ensures TotalUse(clients, ids, signal) >= ListenersOf(proxies, ids, services, signal)
    decreases ids
  {
    if ids == {} {
      CountNone(proxies, OfAny(ids, services, signal));
    } else {
      var id :| id in ids &&
        TotalUse(clients, ids, signal) == UseOf(clients[id], signal) + TotalUse(clients, ids - {id}, signal);
      TotalUseCoversListeners(clients, ids - {id}, services, proxies, orphans, signal);
      ListenersOfDisjointClients(proxies, {id}, ids - {id}, services, signal);
      assert {id} + (ids - {id}) == ids;
    }
  }

  ghost predicate Balanced(services: map<nat, UseCounts>, clients: map<nat, UseCounts>, proxies: seq<Proxy>,
                           orphans: seq<Proxy>) {
    && ServiceBounds(services, proxies) && ClientCounts(clients, services.Keys, proxies, orphans)
    && Known(clients, proxies) && Known(clients, orphans)
  }

  /** All clients together count at least as many uses of a file descriptor as all live services together. */
  lemma ClientsCoverServices(services: map<nat, UseCounts>, clients: map<nat, UseCounts>, proxies: seq<Proxy>,
                             orphans: seq<Proxy>, signal: nat)
    requires Balanced(services, clients, proxies, orphans)
    ensures TotalUse(clients, clients.Keys, signal) >= TotalUse(services, services.Keys, signal)
  {
    TotalUseIsListeners(services, services.Keys, proxies, signal);
    TotalUseCoversListeners(clients, clients.Keys, services.Keys, proxies, orphans, signal);
    CountSame(proxies, OnAny(services.Keys, signal), OfAny(clients.Keys, services.Keys, signal));
  }

  // ----- services come and go

  /** The proxies that a service leaves behind. */
  ghost function LeftBy(services: map<nat, UseCounts>, id: nat, proxies: seq<Proxy>): seq<Proxy> {
    if id in services then Filter(proxies, OfService(id)) else []
  }

  lemma ServiceGone(services: map<nat, UseCounts>, id: nat, clients: map<nat, UseCounts>, proxies: seq<Proxy>,
                    orphans: seq<Proxy>)
    requires Balanced(services, clients, proxies, orphans)
    ensures Balanced(services - {id}, clients, proxies, orphans + LeftBy(services, id, proxies))
    ensures ServiceCounts(services, proxies) ==> ServiceCounts(services - {id}, proxies)
  {
    var fewer, left := (services - {id}).Keys, LeftBy(services, id, proxies);
    FilteredHolds(proxies, OfService(id));
    if id !in services {
      assert services - {id} == services && orphans + left == orphans;
    } else {
      assert services.Keys == {id} + fewer;
      forall c, signal | c in clients
        ensures UseOf(clients[c], signal) ==
          ListenersOf(proxies, {c}, fewer, signal) + Count(orphans + left, ByClient(c, signal))
      {
        ListenersOfDisjointServices(proxies, {c}, {id}, fewer, signal);
        CountOfBoth(proxies, OfService(id), ByClient(c, signal), OfAny({c}, {id}, signal));
        CountConcat(orphans, left, ByClient(c, signal));
      }
    }
  }

  lemma ServiceAppears(services: map<nat, UseCounts>, id: nat, clients: map<nat, UseCounts>, proxies: seq<Proxy>,
                       orphans: seq<Proxy>)
    requires Balanced(services, clients, proxies, orphans) && forall p :: p in proxies ==> p.service != id
    ensures Balanced(services[id := map[]], clients, proxies, orphans)
    ensures ServiceCounts(services, proxies) ==> ServiceCounts(services[id := map[]], proxies)
  {
    var more := services[id := map[]].Keys;
    forall signal
      ensures Listeners(proxies, {id}, signal) == 0
    {
      CountNone(proxies, OnAny({id}, signal));
    }
    forall c, signal | c in clients
      ensures ListenersOf(proxies, {c}, services.Keys, signal) == ListenersOf(proxies, {c}, more, signal)
    {
      CountSame(proxies, OfAny({c}, services.Keys, signal), OfAny({c}, more, signal));
    }
  }

  // ----- proxies come and go

  function Used(counts: UseCounts, signal: nat): UseCounts {
    counts[signal := UseOf(counts, signal) + 1]
  }

  function Unused(counts: UseCounts, signal: nat): UseCounts {
    counts[signal := UseOf(counts, signal) - 1]
  }

  function Released(counts: UseCounts, signal: nat): UseCounts {
    var count := UseOf(counts, signal) - 1;
    if count == 0 then counts - {signal} else counts[signal := count]
  }

  lemma RegistersServices(services: map<nat, UseCounts>, proxies: seq<Proxy>, p: Proxy)
    requires ServiceBounds(services, proxies) && p.service in services
    ensures var services' := services[p.service := Used(services[p.service], p.signal)];
      && ServiceBounds(services', proxies + [p])
      && (ServiceCounts(services, proxies) ==> ServiceCounts(services', proxies + [p]))
  {
    forall id, signal | id in services
      ensures Listeners(proxies + [p], {id}, signal) ==
        Listeners(proxies, {id}, signal) + if p.service == id && p.signal == signal then 1 else 0
    {
      CountOneMore(proxies, p, OnAny({id}, signal));
    }
  }

  lemma RegistersClients(clients: map<nat, UseCounts>, services: set<nat>, proxies: seq<Proxy>,
                         orphans: seq<Proxy>, p: Proxy)
    requires ClientCounts(clients, services, proxies, orphans) && Known(clients, proxies) && Known(clients, orphans)
    requires p.client in clients && p.service in services
    ensures var clients' := clients[p.client := Used(clients[p.client], p.signal)];
      && ClientCounts(clients', services, proxies + [p], orphans)
      && Known(clients', proxies + [p]) && Known(clients', orphans)
  {
    hide ListenersOf;
    var clients' := clients[p.client := Used(clients[p.client], p.signal)];
    forall c, signal | c in clients'
      ensures UseOf(clients'[c], signal) ==
        ListenersOf(proxies + [p], {c}, services, signal) + Count(orphans, ByClient(c, signal))
    {
      OneListenerMore(proxies, p, {c}, services, signal);
      assert UseOf(clients[c], signal) ==
        ListenersOf(proxies, {c}, services, signal) + Count(orphans, ByClient(c, signal));
    }
  }

  lemma OneListenerMore(proxies: seq<Proxy>, p: Proxy, clients: set<nat>, services: set<nat>, signal: nat)
    ensures ListenersOf(proxies + [p], clients, services, signal) ==
      ListenersOf(proxies, clients, services, signal) + if OfAny(clients, services, signal)(p) then 1 else 0
  {
    CountOneMore(proxies, p, OfAny(clients, services, signal));
  }

  /** Registering keeps the counts in order, whoever else uses the file descriptor. */
  lemma Registers(services: map<nat, UseCounts>, clients: map<nat, UseCounts>, proxies: seq<Proxy>,
                  orphans: seq<Proxy>, p: Proxy)
    requires Balanced(services, clients, proxies, orphans) && p.service in services && p.client in clients
    ensures var services' := services[p.service := Used(services[p.service], p.signal)];
      && Balanced(services', clients[p.client := Used(clients[p.client], p.signal)], proxies + [p], orphans)
      && (ServiceCounts(services, proxies) ==> ServiceCounts(services', proxies + [p]))
  {
    var services' := services[p.service := Used(services[p.service], p.signal)];
    hide ServiceBounds, ServiceCounts, ClientCounts, Known, Used;
    assert services'.Keys == services.Keys;
    RegistersServices(services, proxies, p);
    RegistersClients(clients, services.Keys, proxies, orphans, p);
  }

  lemma UnregistersServices(services: map<nat, UseCounts>, proxies: seq<Proxy>, i: nat)
    requires ServiceBounds(services, proxies) && i < |proxies| && proxies[i].service in services
    ensures var p := proxies[i];
      var services' := services[p.service := Released(services[p.service], p.signal)];
      && ServiceBounds(services', proxies[..i] + proxies[i + 1..])
      && (ServiceCounts(services, proxies) ==> ServiceCounts(services', proxies[..i] + proxies[i + 1..]))
  {
    var p, proxies' := proxies[i], proxies[..i] + proxies[i + 1..];
    var services' := services[p.service := Released(services[p.service], p.signal)];
    forall id, signal | id in services'
      ensures UseOf(services'[id], signal) <= Listeners(proxies', {id}, signal)
      ensures ServiceCounts(services, proxies) ==>
        UseOf(services'[id], signal) == Listeners(proxies', {id}, signal) &&
        (signal in services'[id] ==> services'[id][signal] > 0)
    {
      CountOneLess(proxies, i, OnAny({id}, signal));
      assert UseOf(services[id], signal) <= Listeners(proxies, {id}, signal);
    }
  }

  lemma UnregistersClients(clients: map<nat, UseCounts>, services: set<nat>, proxies: seq<Proxy>,
                           orphans: seq<Proxy>, i: nat)
    requires ClientCounts(clients, services, proxies, orphans) && Known(clients, proxies) && Known(clients, orphans)
    requires i < |proxies| && proxies[i].service in services
    ensures var p, proxies' := proxies[i], proxies[..i] + proxies[i + 1..];
      && p.client in clients && UseOf(clients[p.client], p.signal) > 0
      && var clients' := clients[p.client := Unused(clients[p.client], p.signal)];
      && ClientCounts(clients', services, proxies', orphans) && Known(clients', proxies') && Known(clients', orphans)
  {
    hide ListenersOf;
    var p, proxies' := proxies[i], proxies[..i] + proxies[i + 1..];
    assert p in proxies && forall q :: q in proxies' ==> q in proxies;
    SomeListener(proxies, services, i);
    var clients' := clients[p.client := Unused(clients[p.client], p.signal)];
    forall c, signal | c in clients'
      ensures UseOf(clients'[c], signal) ==
        ListenersOf(proxies', {c}, services, signal) + Count(orphans, ByClient(c, signal))
    {
      OneListenerLess(proxies, {c}, services, signal, i);
      assert UseOf(clients[c], signal) ==
        ListenersOf(proxies, {c}, services, signal) + Count(orphans, ByClient(c, signal));
    }
  }

  lemma SomeListener(proxies: seq<Proxy>, services: set<nat>, i: nat)
    requires i < |proxies| && proxies[i].service in services
    ensures ListenersOf(proxies, {proxies[i].client}, services, proxies[i].signal) > 0
  {
    CountSome(proxies, OfAny({proxies[i].client}, services, proxies[i].signal), i);
  }

  lemma OneListenerLess(proxies: seq<Proxy>, clients: set<nat>, services: set<nat>, signal: nat, i: nat)
    requires i < |proxies|
    ensures ListenersOf(proxies, clients, services, signal) ==
      ListenersOf(proxies[..i] + proxies[i + 1..], clients, services, signal) +
      if OfAny(clients, services, signal)(proxies[i]) then 1 else 0
  {
    CountOneLess(proxies, i, OfAny(clients, services, signal));
  }

  /** So does unregistering a registered proxy of a live service, and its client has a use left to release. */
  lemma Unregisters(services: map<nat, UseCounts>, clients: map<nat, UseCounts>, proxies: seq<Proxy>,
                    orphans: seq<Proxy>, i: nat)
    requires Balanced(services, clients, proxies, orphans) && i < |proxies| && proxies[i].service in services
    ensures var p := proxies[i];
      var services', proxies' :=
        services[p.service := Released(services[p.service], p.signal)], proxies[..i] + proxies[i + 1..];
      && p.client in clients && UseOf(clients[p.client], p.signal) > 0
      && Balanced(services', clients[p.client := Unused(clients[p.client], p.signal)], proxies', orphans)
      && (ServiceCounts(services, proxies) ==> ServiceCounts(services', proxies'))
  {
    hide Released, Unused, ServiceCounts, ServiceBounds, ClientCounts, Known;
    var p := proxies[i];
    assert services[p.service := Released(services[p.service], p.signal)].Keys == services.Keys;
    UnregistersServices(services, proxies, i);
    UnregistersClients(clients, services.Keys, proxies, orphans, i);
  }

  /** A registered proxy of a service that is gone may be forgotten. */
  lemma Forgets(services: map<nat, UseCounts>, clients: map<nat, UseCounts>, proxies: seq<Proxy>,
                orphans: seq<Proxy>, i: nat)
    requires Balanced(services, clients, proxies, orphans) && i < |proxies| && proxies[i].service !in services
    ensures Balanced(services, clients, proxies[..i] + proxies[i + 1..], orphans)
    ensures ServiceCounts(services, proxies) ==> ServiceCounts(services, proxies[..i] + proxies[i + 1..])
  {
    forall id, signal | id in services
      ensures Listeners(proxies[..i] + proxies[i + 1..], {id}, signal) == Listeners(proxies, {id}, signal)
    {
      CountOneLess(proxies, i, OnAny({id}, signal));
    }
    forall c, signal | c in clients
      ensures ListenersOf(proxies[..i] + proxies[i + 1..], {c}, services.Keys, signal) ==
        ListenersOf(proxies, {c}, services.Keys, signal)
    {
      CountOneLess(proxies, i, OfAny({c}, services.Keys, signal));
    }
  }

  // ----- clients go

  /** The services without some file descriptors. */
  function Silenced(services: map<nat, UseCounts>, signals: set<nat>): map<nat, UseCounts> {
    map id | id in services :: services[id] - signals
  }

  lemma SilencedByNothing(services: map<nat, UseCounts>)
    ensures Silenced(services, {}) == services
  {
    forall id | id in services
      ensures services[id] - {} == services[id]
    {
    }
  }

  lemma SilencedFurther(services: map<nat, UseCounts>, signals: set<nat>, signal: nat)
    ensures Silenced(Silenced(services, signals), {signal}) == Silenced(services, signals + {signal})
  {
    forall id | id in services
      ensures services[id] - signals - {signal} == services[id] - (signals + {signal})
    {
    }
  }

  /** Another client listens to a live service with one of the file descriptors of this client. */
  ghost predicate SharedBy(services: map<nat, UseCounts>, clients: map<nat, UseCounts>, proxies: seq<Proxy>,
                           client: nat)
    requires client in clients
  {
    exists p :: p in proxies && p.client != client && p.service in services && p.signal in clients[client]
  }

  /** Who listens when the proxies of a client have gone. */
  lemma ListenersLeft(clients: map<nat, UseCounts>, proxies: seq<Proxy>, client: nat, services: set<nat>, signal: nat)
    requires Known(clients, proxies) && client in clients
    ensures signal !in clients[client] ==>
      Listeners(Filter(proxies, OfOthers(client)), services, signal) == Listeners(proxies, services, signal)
    ensures forall c :: c != client ==>
      ListenersOf(Filter(proxies, OfOthers(client)), {c}, services, signal) ==
      ListenersOf(proxies, {c}, services, signal)
  {
    if signal !in clients[client] {
      CountOfFiltered(proxies, OfOthers(client), OnAny(services, signal), true);
    }
    forall c | c != client
      ensures ListenersOf(Filter(proxies, OfOthers(client)), {c}, services, signal) ==
        ListenersOf(proxies, {c}, services, signal)
    {
      CountOfFiltered(proxies, OfOthers(client), OfAny({c}, services, signal), true);
    }
  }

  /** The state after a client has gone, with its file descriptors removed from all services. */
  lemma ClientGone(services: map<nat, UseCounts>, clients: map<nat, UseCounts>, proxies: seq<Proxy>,
                   orphans: seq<Proxy>, client: nat)
    requires Balanced(services, clients, proxies, orphans) && client in clients
    ensures Balanced(Silenced(services, clients[client].Keys), clients - {client}, Filter(proxies, OfOthers(client)),
      Filter(orphans, OfOthers(client)))
  {
    hide Listeners, ListenersOf;
    var services', proxies' := Silenced(services, clients[client].Keys), Filter(proxies, OfOthers(client));
    FilteredHolds(proxies, OfOthers(client));
    assert services'.Keys == services.Keys;
    forall id, signal | id in services'
      ensures UseOf(services'[id], signal) <= Listeners(proxies', {id}, signal)
    {
      ListenersLeft(clients, proxies, client, {id}, signal);
    }
    var orphans' := Filter(orphans, OfOthers(client));
    FilteredHolds(orphans, OfOthers(client));
    forall c, signal | c in clients - {client}
      ensures UseOf(clients[c], signal) ==
        ListenersOf(proxies', {c}, services.Keys, signal) + Count(orphans', ByClient(c, signal))
    {
      ListenersLeft(clients, proxies, client, services.Keys, signal);
      CountOfFiltered(orphans, OfOthers(client), ByClient(c, signal), true);
    }
  }

  /** Counts that were exact stay so exactly if nobody else listens with a file descriptor of the client. */
  lemma GoneExactly(services: map<nat, UseCounts>, clients: map<nat, UseCounts>, proxies: seq<Proxy>, client: nat)
    requires ServiceBounds(services, proxies) && Known(clients, proxies) && ServiceCounts(services, proxies)
    requires client in clients
    ensures ServiceCounts(Silenced(services, clients[client].Keys), Filter(proxies, OfOthers(client))) <==>
      !SharedBy(services, clients, proxies, client)
  {
    var services', proxies' := Silenced(services, clients[client].Keys), Filter(proxies, OfOthers(client));
    FilteredHolds(proxies, OfOthers(client));
    if SharedBy(services, clients, proxies, client) {
      var p :| p in proxies && p.client != client && p.service in services && p.signal in clients[client];
      assert p in proxies';
      var i :| 0 <= i < |proxies'| && proxies'[i] == p;
      CountSome(proxies', OnAny({p.service}, p.signal), i);
      assert UseOf(services'[p.service], p.signal) < Listeners(proxies', {p.service}, p.signal);
    } else {
      forall id, signal | id in services'
        ensures UseOf(services'[id], signal) == Listeners(proxies', {id}, signal)
        ensures signal in services'[id] ==> services'[id][signal] > 0
      {
        if signal in clients[client] {
          forall i | 0 <= i < |proxies'|
            ensures !OnAny({id}, signal)(proxies'[i])
          {
            assert proxies'[i] in proxies';
          }
          CountNone(proxies', OnAny({id}, signal));
        } else {
          ListenersLeft(clients, proxies, client, {id}, signal);
        }
      }
      assert ServiceCounts(services', proxies');
    }
  }

  // ----- runs

  /** All counts, the proxies that have registered and not unregistered, the orphans, and the id of the next service. */
  datatype State = State(services: map<nat, UseCounts>, clients: map<nat, UseCounts>, proxies: seq<Proxy>,
                         orphans: seq<Proxy>, nextId: nat)
  {
    ghost predicate Valid() {
      && Balanced(services, clients, proxies, orphans)
      && (forall id :: id in services ==> id < nextId)
      && (forall p :: p in proxies ==> p.service < nextId)
    }

    /** The services count exactly the proxies that listen. */
    ghost predicate Exact() {
      ServiceCounts(services, proxies)
    }

    /** Another client listens to a live service with one of the file descriptors of this client. */
    ghost predicate Shared(client: nat) {
      client in clients && SharedBy(services, clients, proxies, client)
    }
  }

  datatype Event =
    | ServiceAdded
    | ServiceRemoved(id: nat)
    | Connected(client: nat)
    | Registered(proxy: Proxy, implemented: bool)
    | Unregistered(proxy: Proxy)
    | HungUp(client: nat)

  ghost function Without(proxies: seq<Proxy>, p: Proxy): seq<Proxy>
    requires p in proxies
  {
    var i: nat :| i < |proxies| && proxies[i] == p;
    proxies[..i] + proxies[i + 1..]
  }

  /** A new client is not connected yet, others are, and only what has registered unregisters. */
  ghost predicate Possible(s: State, e: Event) {
    match e
    case ServiceAdded => true
    case ServiceRemoved(id) => true
    case Connected(client) => client !in s.clients
    case Registered(p, implemented) => p.client in s.clients
    case Unregistered(p) => p in s.proxies && p.client in s.clients
    case HungUp(client) => client in s.clients
  }

  ghost function After(s: State, e: Event): State
    requires Possible(s, e)
  {
    match e
    case ServiceAdded => s.(services := s.services[s.nextId := map[]], nextId := s.nextId + 1)
    case ServiceRemoved(id) =>
      s.(services := s.services - {id}, orphans := s.orphans + LeftBy(s.services, id, s.proxies))
    case Connected(client) => s.(clients := s.clients[client := map[]])
    case Registered(p, implemented) => if p.service in s.services && implemented then AfterRegistering(s, p) else s
    case Unregistered(p) => AfterUnregistering(s, p)
    case HungUp(client) => AfterHangUp(s, client)
  }

  ghost function AfterRegistering(s: State, p: Proxy): State
    requires p.service in s.services && p.client in s.clients
  {
    s.(services := s.services[p.service := Used(s.services[p.service], p.signal)],
       clients := s.clients[p.client := Used(s.clients[p.client], p.signal)],
       proxies := s.proxies + [p])
  }

  ghost function AfterUnregistering(s: State, p: Proxy): State
    requires p in s.proxies && p.client in s.clients
  {
    if p.service !in s.services then s.(proxies := Without(s.proxies, p)) else
    s.(services := s.services[p.service := Released(s.services[p.service], p.signal)],
       clients := s.clients[p.client := Unused(s.clients[p.client], p.signal)],
       proxies := Without(s.proxies, p))
  }

  ghost function AfterHangUp(s: State, client: nat): State
    requires client in s.clients
  {
    s.(services := Silenced(s.services, s.clients[client].Keys),
       clients := s.clients - {client},
       proxies := Filter(s.proxies, OfOthers(client)),
       orphans := Filter(s.orphans, OfOthers(client)))
  }

  ghost predicate SharedHangUp(s: State, e: Event) {
    e.HungUp? && s.Shared(e.client)
  }

  /** Every event keeps the counts in order, and also exact unless a client goes whose file descriptor is shared. */
  lemma AfterKeeps(s: State, e: Event)
    requires s.Valid() && Possible(s, e)
    ensures After(s, e).Valid()
    ensures s.Exact() ==> (After(s, e).Exact() <==> !SharedHangUp(s, e))
  {
    hide Balanced, ServiceCounts, SharedBy, Used, Unused, Released;
    match e
    case ServiceAdded => ServiceAppears(s.services, s.nextId, s.clients, s.proxies, s.orphans);
    case ServiceRemoved(id) => ServiceGone(s.services, id, s.clients, s.proxies, s.orphans);
    case Connected(client) => ClientAppears(s.services, s.clients, s.proxies, s.orphans, client);
    case Registered(p, implemented) =>
      if p.service in s.services && implemented {
        Registers(s.services, s.clients, s.proxies, s.orphans, p);
      }
    case Unregistered(p) => UnregisteringKeeps(s, p);
    case HungUp(client) =>
      ClientGone(s.services, s.clients, s.proxies, s.orphans, client);
      FilteredHolds(s.proxies, OfOthers(client));
      if s.Exact() {
        BalancedParts(s);
        GoneExactly(s.services, s.clients, s.proxies, client);
      }
  }

  lemma BalancedParts(s: State)
    requires s.Valid()
    ensures ServiceBounds(s.services, s.proxies) && Known(s.clients, s.proxies)
  {
  }

  lemma ClientAppears(services: map<nat, UseCounts>, clients: map<nat, UseCounts>, proxies: seq<Proxy>,
                      orphans: seq<Proxy>, client: nat)
    requires Balanced(services, clients, proxies, orphans) && client !in clients
    ensures Balanced(services, clients[client := map[]], proxies, orphans)
  {
    forall signal
      ensures ListenersOf(proxies, {client}, services.Keys, signal) == 0 == Count(orphans, ByClient(client, signal))
    {
      CountNone(proxies, OfAny({client}, services.Keys, signal));
      CountNone(orphans, ByClient(client, signal));
    }
  }

  /** A registered proxy that unregisters leaves everything in order, and its client had a use to release. */
  lemma UnregisteringKeeps(s: State, p: Proxy)
    requires s.Valid() && p in s.proxies && p.client in s.clients
    ensures AfterUnregistering(s, p).Valid() && (s.Exact() ==> AfterUnregistering(s, p).Exact())
    ensures p.service in s.services ==> UseOf(s.clients[p.client], p.signal) > 0
  {
    hide Balanced, ServiceCounts, Unused, Released;
    var i: nat :| i < |s.proxies| && s.proxies[i] == p &&
      Without(s.proxies, p) == s.proxies[..i] + s.proxies[i + 1..];
    if p.service in s.services {
      Unregisters(s.services, s.clients, s.proxies, s.orphans, i);
    } else {
      Forgets(s.services, s.clients, s.proxies, s.orphans, i);
    }
    assert forall q :: q in s.proxies[..i] + s.proxies[i + 1..] ==> q in s.proxies;
  }

  ghost predicate PossibleRun(s: State, events: seq<Event>)
    decreases |events|
  {
    events == [] || (Possible(s, events[0]) && PossibleRun(After(s, events[0]), events[1..]))
  }

  ghost function AfterAll(s: State, events: seq<Event>): State
    requires PossibleRun(s, events)
    decreases |events|
  {
    if events == [] then s else AfterAll(After(s, events[0]), events[1..])
  }

  /** Somebody hangs up in this run while another client listens with its file descriptor. */
  ghost predicate SomeSharedHangUp(s: State, events: seq<Event>)
    requires PossibleRun(s, events)
    decreases |events|
  {
    events != [] && (SharedHangUp(s, events[0]) || SomeSharedHangUp(After(s, events[0]), events[1..]))
  }

  /** Over every run the counts stay in order, and exact if nobody hangs up whose file descriptor is shared. */
  lemma {:induction false} AfterAllKeeps(s: State, events: seq<Event>)
    requires s.Valid() && PossibleRun(s, events)
    ensures AfterAll(s, events).Valid()
    ensures s.Exact() && !SomeSharedHangUp(s, events) ==> AfterAll(s, events).Exact()
    decreases |events|
  {
    if events != [] {
      AfterKeeps(s, events[0]);
      AfterAllKeeps(After(s, events[0]), events[1..]);
    }
  }

  // ----- the server

  class Registry {
    /** The use counts of the services that are alive, and of the clients that are connected. */
    var services: map<nat, UseCounts>
    var clients: map<nat, UseCounts>
    var nextId: nat

    /** The proxies that have registered and not unregistered, of the clients that are connected. */
    ghost var proxies: seq<Proxy>

    /** The proxies that were registered when their service went, of the clients that are connected. */
    ghost var orphans: seq<Proxy>

    ghost function Now(): State
      reads this
    {
      State(services, clients, proxies, orphans, nextId)
    }

    /** What the client counts for a file descriptor: its listeners to live services, and its orphans. */
    lemma ClientCountsExactly(client: nat, signal: nat)
      requires Now().Valid() && client in clients
      ensures var live := services.Keys;
        UseOf(clients[client], signal) ==
          Count(proxies, (p: Proxy) => p.client == client && p.service in live && p.signal == signal) +
          Count(orphans, (p: Proxy) => p.client == client && p.signal == signal)
    {
      var live := services.Keys;
      CountSame(proxies, (p: Proxy) => p.client == client && p.service in live && p.signal == signal,
        OfAny({client}, live, signal));
      CountSame(orphans, (p: Proxy) => p.client == client && p.signal == signal, ByClient(client, signal));
    }

    constructor ()
      ensures Now().Valid() && Now().Exact() && services == map[] && clients == map[] && proxies == orphans == []
    {
      services, clients, nextId, proxies, orphans := map[], map[], 1, [], [];
    }

    /** A service appears under an id that has never been used. */
    method AddService() returns (id: nat)
      requires Now().Valid()
      modifies this`services, this`nextId
      ensures id !in old(services) && services == old(services)[id := map[]]
      ensures Now() == After(old(Now()), ServiceAdded) && Now().Valid() && (old(Now().Exact()) ==> Now().Exact())
    {
      AfterKeeps(Now(), ServiceAdded);
      id := nextId;
      nextId := nextId + 1;
      services := services[id := map[]];
    }

    method RemoveService(id: nat)
      requires Now().Valid()
      modifies this`services, this`orphans
      ensures services == old(services) - {id}
      ensures Now() == After(old(Now()), ServiceRemoved(id)) && Now().Valid() && (old(Now().Exact()) ==> Now().Exact())
    {
      AfterKeeps(Now(), ServiceRemoved(id));
      orphans := orphans + LeftBy(services, id, proxies);
      services := services - {id};
    }

    method Connect(client: nat)
      requires Now().Valid() && client !in clients
      modifies this`clients
      ensures clients == old(clients)[client := map[]]
      ensures Now().Valid() && (old(Now().Exact()) ==> Now().Exact())
    {
      AfterKeeps(Now(), Connected(client));
      clients := clients[client := map[]];
    }

    /**
      A client registers a proxy. Nothing is registered for a service that is gone or does not implement all interfaces.
      The counts stay in order for any file descriptor.
     */
    method RegisterProxy(service: nat, implemented: bool, client: nat, signal: nat) returns (registered: bool)
      requires Now().Valid() && client in clients
      modifies this`services, this`clients, this`proxies
      ensures registered <==> service in old(services) && implemented
      ensures registered ==>
        && proxies == old(proxies) + [Proxy(service, client, signal)]
        && services == old(services)[service := Used(old(services)[service], signal)]
        && clients == old(clients)[client := Used(old(clients)[client], signal)]
      ensures !registered ==> proxies == old(proxies) && services == old(services) && clients == old(clients)
      ensures Now().Valid() && (old(Now().Exact()) ==> Now().Exact())
    {
      hide State.Valid, State.Exact, Used;
      AfterKeeps(Now(), Registered(Proxy(service, client, signal), implemented));
      registered := service in services && implemented;
      if registered {
        services := services[service := Used(services[service], signal)];
        clients := clients[client := Used(clients[client], signal)];
        proxies := proxies + [Proxy(service, client, signal)];
      }
    }

    /**
      A proxy unregisters. The count of the client goes below zero, which is fatal, exactly if the service is alive
      and the client has no use of the file descriptor left; for a registered proxy it never does.
     */
    method UnregisterProxy(service: nat, client: nat, signal: nat) returns (fatal: bool)
      requires Now().Valid() && client in clients
      modifies this`services, this`clients, this`proxies
      ensures fatal <==> service in old(services) && UseOf(old(clients)[client], signal) <= 0
      ensures service in old(services) ==>
        && services == old(services)[service := Released(old(services)[service], signal)]
        && clients == old(clients)[client := Unused(old(clients)[client], signal)]
      ensures service !in old(services) ==> services == old(services) && clients == old(clients)
      ensures var p := Proxy(service, client, signal);
        p in old(proxies) ==>
          && !fatal && proxies == Without(old(proxies), p)
          && Now().Valid() && (old(Now().Exact()) ==> Now().Exact())
    {
      hide State.Valid, State.Exact, Released;
      fatal := false;
      ghost var p := Proxy(service, client, signal);
      if p in proxies {
        UnregisteringKeeps(Now(), p);
        proxies := Without(proxies, p);
      }
      if service in services {
        services := services[service := Released(services[service], signal)];
        clients := clients[client := Unused(clients[client], signal)];
        fatal := clients[client][signal] < 0;
      }
    }

    /** Takes a file descriptor out of the counts of all services. */
    method RemoveSignalFd(signal: nat)
      modifies this`services
      ensures services == Silenced(old(services), {signal})
    {
      var rest := services.Keys;
      while rest != {}
        invariant rest <= services.Keys == old(services.Keys)
        invariant forall id :: id in services ==>
          services[id] == if id in rest then old(services)[id] else old(services)[id] - {signal}
      {
        var id :| id in rest;
        rest := rest - {id};
        services := services[id := services[id] - {signal}];
      }
    }

    method RemoveSignalFds(signals: set<nat>)
      modifies this`services
      ensures services == Silenced(old(services), signals)
    {
      SilencedByNothing(services);
      var rest := signals;
      assert signals - rest == {};
      while rest != {}
        invariant rest <= signals && services == Silenced(old(services), signals - rest)
        decreases rest
      {
        var signal :| signal in rest;
        RemoveSignalFd(signal);
        SilencedFurther(old(services), signals - rest, signal);
        assert signals - (rest - {signal}) == signals - rest + {signal};
        rest := rest - {signal};
      }
      assert signals - rest == signals;
    }

    /**
      A client hangs up: no service refers to a file descriptor of this client any more, and the others count as before.
      Counts that were exact stay so exactly if no other client listens with one of these file descriptors.
     */
    method ClientHungUp(client: nat)
      requires Now().Valid() && client in clients
      modifies this`services, this`clients, this`proxies, this`orphans
      ensures clients == old(clients) - {client} && services.Keys == old(services.Keys)
      ensures forall id, signal :: id in services ==>
        UseOf(services[id], signal) == if signal in old(clients)[client] then 0 else UseOf(old(services)[id], signal)
      ensures forall id, signal :: id in services && signal in services[id] ==> signal !in old(clients)[client]
      ensures proxies == Filter(old(proxies), OfOthers(client))
      ensures Now() == AfterHangUp(old(Now()), client) && Now().Valid()
      ensures old(Now().Exact()) ==> (Now().Exact() <==> !old(Now().Shared(client)))
    {
      hide State.Valid, State.Exact, State.Shared;
      AfterKeeps(Now(), HungUp(client));
      RemoveSignalFds(clients[client].Keys);
      clients := clients - {client};
      proxies := Filter(proxies, OfOthers(client));
      orphans := Filter(orphans, OfOthers(client));
    }

    /** What the server does for one event. */
    method Handle(e: Event) returns (fatal: bool)
      requires Now().Valid() && Possible(Now(), e)
      modifies this
      ensures Now() == After(old(Now()), e) && Now().Valid() && !fatal
    {
      hide State.Valid, State.Exact, State.Shared, Used, Unused, Released, Silenced;
      fatal := false;
      match e
      case ServiceAdded => var id := AddService();
      case ServiceRemoved(id) => RemoveService(id);
      case Connected(client) => Connect(client);
      case Registered(p, implemented) => var ok := RegisterProxy(p.service, implemented, p.client, p.signal);
      case Unregistered(p) => fatal := UnregisterProxy(p.service, p.client, p.signal);
      case HungUp(client) => ClientHungUp(client);
    }

    /** Over any run in which only registered proxies unregister, no count of a client ever goes below zero. */
    method Run(events: seq<Event>) returns (fatal: bool)
      requires Now().Valid() && PossibleRun(Now(), events)
      modifies this
      ensures Now() == AfterAll(old(Now()), events) && Now().Valid() && !fatal
      ensures old(Now().Exact()) && !SomeSharedHangUp(old(Now()), events) ==> Now().Exact()
    {
      hide State.Valid, State.Exact, Possible, After;
      AfterAllKeeps(Now(), events);
      fatal := false;
      for k := 0 to |events|
        invariant Now().Valid() && PossibleRun(Now(), events[k..]) && !fatal
        invariant AfterAll(Now(), events[k..]) == AfterAll(old(Now()), events)
      {
        assert events[k..][1..] == events[k + 1..];
        fatal := Handle(events[k]);
      }
    }
  }

  /**
    Two clients listen to a service with the same file descriptor. When one has hung up, the service counts no use of it
    any more although the other one still listens.
   */
  method ListenerForgotten(one: nat, other: nat, signal: nat) returns (r: Registry, service: nat)
    requires one != other
    ensures fresh(r) && r.Now().Valid() && !r.Now().Exact()
    ensures r.proxies == [Proxy(service, other, signal)] && service in r.services && other in r.clients
    ensures UseOf(r.services[service], signal) == 0
  {
    hide State.Valid, State.Exact, Used, After, AfterHangUp, Filter;
    UsedSignal(map[], signal);
    r := new Registry();
    service := r.AddService();
    r.Connect(one);
    r.Connect(other);
    var registered := r.RegisterProxy(service, true, one, signal);
    registered := r.RegisterProxy(service, true, other, signal);
    assert r.proxies == [Proxy(service, one, signal), Proxy(service, other, signal)];
    assert r.clients[one] == Used(map[], signal);
    assert Proxy(service, other, signal) in r.proxies && r.Now().Shared(one);
    FilteredPair(Proxy(service, one, signal), Proxy(service, other, signal));
    r.ClientHungUp(one);
  }

  lemma UsedSignal(counts: UseCounts, signal: nat)
    ensures signal in Used(counts, signal)
  {
  }

  lemma FilteredPair(p: Proxy, q: Proxy)
    requires p.client != q.client
    ensures Filter([p, q], OfOthers(p.client)) == [q]
  {
    assert [p, q][..1] == [p] && [p][..0] == [];
    assert Filter([p], OfOthers(p.client)) == [];
  }
}
