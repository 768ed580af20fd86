/**
  The objects a service container holds, seen as a map: paths, ownership, and the clean-up after a client as a run of
  steps.
 */
module Services {
  import opened Basics

  const ROOT := "/saftbus"
  const ROOT_ID: nat := 1
  const NOBODY := -1

  /** A service object: its path, its owning client, and whether destroying it calls back or follows its owner. */
  datatype Service = Service(path: string, owner: int, callback: bool, destroyIfOwnerQuits: bool) {
    predicate DiesWithOwner() {
      callback && destroyIfOwnerQuits
    }
  }

  /** An entry of the object map is empty while its object has been destroyed but not erased. */
  type Objects = map<nat, Option<Service>>

  predicate Live(objects: Objects, id: nat) {
    id in objects && objects[id].Some?
  }

  ghost predicate AllLive(objects: Objects) {
    forall id :: id in objects ==> Live(objects, id)
  }

  // ----- paths

  /** path lies below parent: it continues it with a slash. */
  predicate IsBelow(parent: string, path: string) {
    |parent| < |path| && path[..|parent|] == parent && path[|parent|] == '/'
  }

  lemma BelowIsTransitive(a: string, b: string, c: string)
    requires IsBelow(a, b) && IsBelow(b, c)
    ensures IsBelow(a, c)
  {
    assert c[..|a|] == c[..|b|][..|a|];
    assert c[|a|] == c[..|b|][|a|];
  }

  /** What lies below a path are its continuations by a slash and anything, or nothing, behind that. */
  lemma BelowContinues(parent: string, path: string)
    ensures IsBelow(parent, path) <==> exists rest: string :: path == parent + "/" + rest
  {
    if IsBelow(parent, path) {
      assert path == parent + "/" + path[|parent| + 1..];
    }
    forall rest: string | path == parent + "/" + rest
      ensures IsBelow(parent, path)
    {
      assert path[..|parent|] == parent;
    }
  }

  /** Only the empty path has the root below it. */
  lemma RootIsBelowEmptyOnly(path: string)
    ensures IsBelow(path, ROOT) <==> path == ""
  {
  }

  ghost function Below(objects: Objects, path: string): set<nat> {
    set id | id in objects && objects[id].Some? && IsBelow(path, objects[id].value.path)
  }

  /** The lookup table is the inverse of the paths of the live objects. */
  ghost predicate Inverse(objects: Objects, lookup: map<string, nat>) {
    && (forall p :: p in lookup ==> Live(objects, lookup[p]) && objects[lookup[p]].value.path == p)
    && (forall id :: Live(objects, id) ==> objects[id].value.path in lookup && lookup[objects[id].value.path] == id)
  }

  // ----- teardown

  /** Some entries may have been emptied; nothing else has changed. */
  ghost predicate Emptied(before: Objects, after: Objects) {
    after.Keys == before.Keys && forall id :: id in after ==> after[id] == before[id] || after[id].None?
  }

  /** What lies below a child is strictly less than what lies below its parent. */
  lemma FewerBelowChild(before: Objects, after: Objects, path: string, child: nat)
    requires Emptied(before, after) && Live(after, child) && IsBelow(path, after[child].value.path)
    ensures Below(after, after[child].value.path) < Below(before, path) && after[child].value.path != ""
  {
    var childPath := after[child].value.path;
    forall id | id in Below(after, childPath)
      ensures id in Below(before, path)
    {
      BelowIsTransitive(path, childPath, after[id].value.path);
    }
    assert child in Below(before, path) && child !in Below(after, childPath);
  }

  /** The log has grown by exactly the objects that have been destroyed. */
  ghost predicate Logged(before: Objects, after: Objects, logBefore: seq<nat>, logAfter: seq<nat>) {
    && Emptied(before, after)
    && logBefore <= logAfter
    && forall id :: Live(before, id) && !Live(after, id) <==> id in logAfter[|logBefore|..]
  }

  lemma LoggedNothing(objects: Objects, log: seq<nat>)
    ensures Logged(objects, objects, log, log)
  {
  }

  lemma LoggedEmpties(before: Objects, after: Objects, logBefore: seq<nat>, log: seq<nat>)
    requires Logged(before, after, logBefore, log)
    ensures Emptied(before, after)
  {
  }

  lemma LoggedCompose(a: Objects, b: Objects, c: Objects, logA: seq<nat>, logB: seq<nat>, logC: seq<nat>)
    requires Logged(a, b, logA, logB) && Logged(b, c, logB, logC)
    ensures Logged(a, c, logA, logC)
    ensures a != b ==> a != c
  {
    assert logC[|logA|..] == logB[|logA|..] + logC[|logB|..];
    if a != b {
      var id :| id in b && a[id] != b[id];
      assert c[id] != a[id];
    }
  }

  /** Destroying an object without live objects below it keeps the order. */
  lemma DestroyLeaf(objects: Objects, lookup: map<string, nat>, paths: map<nat, string>, log: seq<nat>, path: string)
    requires Inverse(objects, lookup) && ChildFirst(objects, paths, log) && path in lookup && Below(objects, path) == {}
    ensures var id := lookup[path];
            && Inverse(objects[id := None], lookup - {path}) && ChildFirst(objects[id := None], paths, log + [id])
            && Logged(objects, objects[id := None], log, log + [id])
  {
    var id := lookup[path];
    assert (log + [id])[|log|..] == [id];
    forall other | Live(objects, other)
      ensures !IsBelow(path, objects[other].value.path)
    {
      assert other !in Below(objects, path);
    }
  }

  /** No live object lies below one that has been destroyed, and the destroyed ones lie in child-first order. */
  ghost predicate ChildFirst(objects: Objects, paths: map<nat, string>, log: seq<nat>) {
    && (forall id :: Live(objects, id) ==> id in paths && paths[id] == objects[id].value.path)
    && (forall i :: 0 <= i < |log| ==> log[i] in paths && !Live(objects, log[i]))
    && (forall i, id :: 0 <= i < |log| && Live(objects, id) ==> !IsBelow(paths[log[i]], objects[id].value.path))
    && (forall i, j :: 0 <= i < j < |log| ==> log[i] != log[j] && !IsBelow(paths[log[i]], paths[log[j]]))
  }

  /** The objects without the entries of destroyed ones. */
  function Erased(objects: Objects): Objects {
    map id | id in objects && objects[id].Some? :: objects[id]
  }

  /** From one state to the next, exactly the newly logged objects have gone. */
  ghost predicate Shrunk(before: Objects, after: Objects, logBefore: seq<nat>, logAfter: seq<nat>) {
    && logBefore <= logAfter
    && (forall id :: id in after <==> id in before && id !in logAfter[|logBefore|..])
    && (forall id :: id in after ==> after[id] == before[id])
    && (forall id :: id in logAfter[|logBefore|..] ==> id in before)
  }

  lemma ErasedShrinks(before: Objects, objects: Objects, logBefore: seq<nat>, log: seq<nat>, paths: map<nat, string>)
    requires AllLive(before) && Logged(before, objects, logBefore, log) && ChildFirst(objects, paths, log)
    ensures ChildFirst(Erased(objects), paths, log) && Shrunk(before, Erased(objects), logBefore, log)
    ensures before != objects ==> Erased(objects).Keys < before.Keys
  {
    if before != objects {
      var id :| id in before && before[id] != objects[id];
      assert id !in Erased(objects);
    }
    assert forall id :: Live(Erased(objects), id) <==> Live(objects, id);
  }

  lemma ShrunkCompose(a: Objects, b: Objects, c: Objects, logA: seq<nat>, logB: seq<nat>, logC: seq<nat>)
    requires Shrunk(a, b, logA, logB) && Shrunk(b, c, logB, logC)
    ensures Shrunk(a, c, logA, logC)
  {
    assert logC[|logA|..] == logB[|logA|..] + logC[|logB|..];
  }

  /** Objects are created after the objects their paths lie below. */
  ghost predicate ChildrenAreYounger(objects: Objects) {
    forall id, child ::
      Live(objects, id) && Live(objects, child) && IsBelow(objects[id].value.path, objects[child].value.path) ==>
        id < child
  }

  lemma YoungestHasNoChild(objects: Objects, last: nat)
    requires ChildrenAreYounger(objects) && Live(objects, last) && forall id :: id in objects ==> id <= last
    ensures Below(objects, objects[last].value.path) == {}
  {
  }

  /**
    Of the objects there were, the youngest has been destroyed and nothing else, after calling back once if it has a
    callback.
   */
  ghost predicate YoungestGone(objects: Objects, logBefore: seq<nat>, log: seq<nat>, callsBefore: seq<nat>,
                               calls: seq<nat>) {
    exists last ::
      && Live(objects, last) && (forall id :: id in objects ==> id <= last)
      && log == logBefore + [last]
      && calls == callsBefore + CallbackOf(objects, last)
  }

  lemma LastIsGone(objects: Objects, last: nat, log: seq<nat>, calls: seq<nat>)
    requires Live(objects, last) && forall id :: id in objects ==> id <= last
    ensures YoungestGone(objects, log, log + [last], calls, calls + CallbackOf(objects, last))
  {
  }

  lemma YoungestIsNotRoot(objects: Objects, last: nat)
    requires ROOT_ID in objects && forall id :: id in objects ==> ROOT_ID <= id <= last
    ensures last == ROOT_ID ==> |objects| == 1
  {
    if last == ROOT_ID {
      assert objects.Keys == {ROOT_ID};
      assert |objects.Keys| == 1;
    }
  }

  ghost function CallbackOf(objects: Objects, id: nat): seq<nat>
    requires Live(objects, id)
  {
    if objects[id].value.callback then [id] else []
  }

  /** The callbacks of some objects, in order. */
  ghost function CallbacksOf(objects: Objects, ids: seq<nat>): seq<nat>
    requires forall id :: id in ids ==> Live(objects, id)
  {
    if ids == [] then [] else CallbacksOf(objects, ids[..|ids| - 1]) + CallbackOf(objects, ids[|ids| - 1])
  }

  ghost predicate LiesBelow(objects: Objects, parent: nat, id: nat) {
    Live(objects, parent) && Live(objects, id) && IsBelow(objects[parent].value.path, objects[id].value.path)
  }

  /** Every object but the root was destroyed, each once, and none before an object below it. */
  ghost predicate TornDown(objects: Objects, log: seq<nat>) {
    && (forall id :: id in log <==> Live(objects, id) && id != ROOT_ID)
    && (forall i, j :: 0 <= i < j < |log| ==> log[i] != log[j] && !LiesBelow(objects, log[i], log[j]))
  }

  /** Younger objects went first, and each called back once if it had a callback. */
  ghost predicate YoungestFirst(objects: Objects, log: seq<nat>, callsBefore: seq<nat>, calls: seq<nat>) {
    && (forall id :: id in log ==> Live(objects, id))
    && (forall i, j :: 0 <= i < j < |log| ==> log[j] < log[i])
    && calls == callsBefore + CallbacksOf(objects, log)
  }

  ghost function PathsOf(objects: Objects): map<nat, string> {
    map id | id in objects && objects[id].Some? :: objects[id].value.path
  }

  /** The root has the smallest id, and lies below nothing. */
  ghost predicate RootIsFirst(objects: Objects) {
    forall id :: id in objects ==> ROOT_ID <= id && !LiesBelow(objects, id, ROOT_ID)
  }

  /** Where a teardown has gone youngest first, children were younger: the condition is necessary as well. */
  lemma YoungestFirstNeedsYounger(objects: Objects, log: seq<nat>, callsBefore: seq<nat>, calls: seq<nat>)
    requires RootIsFirst(objects)
    requires TornDown(objects, log) && YoungestFirst(objects, log, callsBefore, calls)
    ensures ChildrenAreYounger(objects)
  {
    hide IsBelow, CallbacksOf;
    forall id, child | Live(objects, id) && Live(objects, child) &&
        IsBelow(objects[id].value.path, objects[child].value.path)
      ensures id < child
    {
      assert LiesBelow(objects, id, child);
      assert child != ROOT_ID && child in log;
      if id != ROOT_ID {
        assert id in log;
        var i :| 0 <= i < |log| && log[i] == id;
        var j :| 0 <= j < |log| && log[j] == child;
        assert !(i < j) && i != j by { NotBelowItself(objects, id); }
      }
    }
  }

  lemma NotBelowItself(objects: Objects, id: nat)
    ensures !LiesBelow(objects, id, id)
  {
  }

  lemma TornDownWhenOneIsLeft(before: Objects, after: Objects, log: seq<nat>)
    requires AllLive(before) && Shrunk(before, after, [], log) && ChildFirst(after, PathsOf(before), log)
    requires ROOT_ID in after && |after| <= 1
    ensures TornDown(before, log) && after == map[ROOT_ID := before[ROOT_ID]]
  {
    hide IsBelow;
    OnlyRootIsLeft(after);
    assert log[0..] == log;
    forall id
      ensures id in log <==> Live(before, id) && id != ROOT_ID
    {
      assert id in after <==> id in before && id !in log;
    }
  }

  lemma OnlyRootIsLeft(objects: Objects)
    requires ROOT_ID in objects && |objects| <= 1
    ensures objects.Keys == {ROOT_ID}
  {
    assert |objects.Keys - {ROOT_ID}| == 0;
  }

  lemma CallbacksOfOneMore(objects: Objects, ids: seq<nat>, id: nat)
    requires (forall i :: i in ids ==> Live(objects, i)) && Live(objects, id)
    ensures CallbacksOf(objects, ids + [id]) == CallbacksOf(objects, ids) + CallbackOf(objects, id)
  {
    assert (ids + [id])[..|ids|] == ids;
  }

  /**
    If every object destroyed so far was younger than those that are left, the same holds after the youngest of these
    has gone.
   */
  lemma YoungestFirstStep(objects: Objects, middle: Objects, log: seq<nat>, last: nat, callsBefore: seq<nat>,
                          calls: seq<nat>)
    requires forall id :: id in middle ==> id in objects && middle[id] == objects[id]
    requires forall d, id :: d in log && id in middle ==> id < d
    requires YoungestFirst(objects, log, callsBefore, calls)
    requires Live(middle, last) && forall id :: id in middle ==> id <= last
    ensures YoungestFirst(objects, log + [last], callsBefore, calls + CallbackOf(middle, last))
    ensures forall d, id :: d in log + [last] && id in middle && id != last ==> id < d
  {
    CallbacksOfOneMore(objects, log, last);
    assert calls + CallbackOf(middle, last) == callsBefore + (CallbacksOf(objects, log) + CallbackOf(objects, last));
    assert forall id :: id in log + [last] ==> Live(objects, id);
    forall i | 0 <= i < |log|
      ensures last < log[i]
    {
      assert log[i] in log;
    }
  }

  /** As above, over a round. */
  lemma YoungestFirstRound(objects: Objects, before: Objects, after: Objects, log: seq<nat>, logAfter: seq<nat>,
                           callsBefore: seq<nat>, calls: seq<nat>, callsAfter: seq<nat>)
    requires Shrunk(objects, before, [], log) && Shrunk(before, after, log, logAfter)
    requires forall d, id :: d in log && id in before ==> id < d
    requires YoungestFirst(objects, log, callsBefore, calls) && YoungestGone(before, log, logAfter, calls, callsAfter)
    ensures YoungestFirst(objects, logAfter, callsBefore, callsAfter)
    ensures forall d, id :: d in logAfter && id in after ==> id < d
  {
    hide YoungestFirst;
    var last: nat :|
      && Live(before, last) && (forall id :: id in before ==> id <= last)
      && logAfter == log + [last] && callsAfter == calls + CallbackOf(before, last);
    YoungestFirstStep(objects, before, log, last, callsBefore, calls);
    assert logAfter[|log|..] == [last];
  }

  // ----- who calls back in a teardown

  /** A younger object lies above this one. */
  ghost predicate UnderYounger(objects: Objects, id: nat) {
    exists parent :: LiesBelow(objects, parent, id) && id < parent
  }

  /** In a round the youngest object calls back if it can, and only what is at or below it is destroyed. */
  ghost predicate RoundCalls(before: Objects, after: Objects, callsBefore: seq<nat>, calls: seq<nat>) {
    exists last: nat ::
      && Live(before, last) && (forall id :: id in before ==> id <= last)
      && calls == callsBefore + CallbackOf(before, last)
      && forall id :: id in before && id !in after ==> id == last || LiesBelow(before, last, id)
  }

  lemma RoundCallsBy(before: Objects, after: Objects, last: nat, calls: seq<nat>)
    requires Live(before, last) && forall id :: id in before ==> id <= last
    requires forall id :: id in before && id !in after ==> id == last || LiesBelow(before, last, id)
    ensures RoundCalls(before, after, calls, calls + CallbackOf(before, last))
  {
  }

  /** Of the objects that are gone, exactly those with a callback and nothing younger above them have called back. */
  ghost predicate CallsRight(objects: Objects, now: Objects, calls: seq<nat>) {
    && (forall id :: id in calls ==>
      Live(objects, id) && objects[id].value.callback && !UnderYounger(objects, id))
    && (forall id :: Live(objects, id) && id !in now && objects[id].value.callback && !UnderYounger(objects, id) ==>
      id in calls)
  }

  lemma CallsRightStep(objects: Objects, before: Objects, after: Objects, log: seq<nat>, callsBefore: seq<nat>,
                       calls: seq<nat>, prefix: seq<nat>)
    requires AllLive(objects) && ChildFirst(before, PathsOf(objects), log) && Shrunk(objects, before, [], log)
    requires RoundCalls(before, after, prefix + callsBefore, calls) && CallsRight(objects, before, callsBefore)
    ensures prefix <= calls && CallsRight(objects, after, calls[|prefix|..])
  {
    hide IsBelow, UnderYounger;
    var last: nat :| Live(before, last) && (forall id :: id in before ==> id <= last)
      && calls == prefix + callsBefore + CallbackOf(before, last)
      && forall id :: id in before && id !in after ==> id == last || LiesBelow(before, last, id);
    assert log[0..] == log;
    YoungestIsUnderNone(objects, before, log, last);
    assert calls[|prefix|..] == callsBefore + CallbackOf(before, last);
    forall id | LiesBelow(before, last, id)
      ensures UnderYounger(objects, id)
    {
      IsUnderYounger(objects, last, id);
    }
  }

  lemma IsUnderYounger(objects: Objects, parent: nat, id: nat)
    requires LiesBelow(objects, parent, id) && id <= parent
    ensures UnderYounger(objects, id)
  {
    NotBelowItself(objects, id);
  }

  /** No younger object ever lay above the youngest one that is left, because children go first. */
  lemma YoungestIsUnderNone(objects: Objects, now: Objects, log: seq<nat>, last: nat)
    requires AllLive(objects) && ChildFirst(now, PathsOf(objects), log) && Shrunk(objects, now, [], log)
    requires Live(now, last) && forall id :: id in now ==> id <= last
    ensures !UnderYounger(objects, last)
  {
    hide IsBelow;
    assert log[0..] == log;
    forall parent | LiesBelow(objects, parent, last)
      ensures !(last < parent)
    {
      if last < parent {
        NotLeft(objects, now, log, parent);
        assert false;
      }
    }
  }

  lemma NotLeft(objects: Objects, now: Objects, log: seq<nat>, parent: nat)
    requires ChildFirst(now, PathsOf(objects), log) && Shrunk(objects, now, [], log)
    requires Live(objects, parent) && parent !in now
    ensures forall id :: Live(now, id) ==> !LiesBelow(objects, parent, id)
  {
    hide IsBelow;
    assert log[0..] == log;
    var i :| 0 <= i < |log| && log[i] == parent;
  }

  lemma TeardownStarts(objects: Objects, calls: seq<nat>)
    requires AllLive(objects)
    ensures ChildFirst(objects, PathsOf(objects), []) && Shrunk(objects, objects, [], []) &&
      YoungestFirst(objects, [], calls, calls) && CallsRight(objects, objects, [])
  {
  }

  lemma ChildrenStayYounger(before: Objects, after: Objects)
    requires ChildrenAreYounger(before) && forall id :: id in after ==> id in before && after[id] == before[id]
    ensures ChildrenAreYounger(after)
  {
  }

  // ----- ownership

  predicate Foreign(owner: int, caller: int) {
    owner != NOBODY && owner != caller
  }

  /**
    The object may be removed by the caller: it is not the root, and neither it nor an object below it belongs to
    another client.
   */
  ghost predicate Removable(objects: Objects, id: nat, caller: int)
    requires Live(objects, id)
  {
    && objects[id].value.path != ROOT
    && !Foreign(objects[id].value.owner, caller)
    && !HasForeignChild(objects, objects[id].value.path, caller)
  }

  /** In the fields of the services: the object and what lies below it belong to nobody or to the caller. */
  lemma RemovableMeans(objects: Objects, id: nat, caller: int)
    requires Live(objects, id)
    ensures Removable(objects, id, caller) <==>
      && objects[id].value.path != ROOT
      && objects[id].value.owner in {NOBODY, caller}
      && forall child :: LiesBelow(objects, id, child) && objects[child].value.path != ROOT ==>
        objects[child].value.owner in {NOBODY, caller}
  {
    hide IsBelow;
    forall child | Live(objects, child) && objects[child].value.path != ROOT &&
        IsBelow(objects[id].value.path, objects[child].value.path)
      ensures objects[child].value.owner in {NOBODY, caller} <==>
        !IsForeignChild(objects, objects[id].value.path, caller, child)
    {
    }
  }

  ghost predicate HasForeignChild(objects: Objects, path: string, caller: int) {
    exists id :: IsForeignChild(objects, path, caller, id)
  }

  ghost predicate IsForeignChild(objects: Objects, path: string, caller: int, id: nat) {
    && Live(objects, id) && objects[id].value.path != ROOT && IsBelow(path, objects[id].value.path)
    && Foreign(objects[id].value.owner, caller)
  }

  ghost function Owned(objects: Objects, fd: int): set<nat> {
    set id | id in objects && objects[id].Some? && objects[id].value.owner == fd
  }

  /** The youngest object of a client. */
  ghost predicate IsYoungest(objects: Objects, fd: int, id: nat) {
    id in Owned(objects, fd) && forall other :: other in Owned(objects, fd) ==> other <= id
  }

  /**
    One step of the clean-up: the object is removed, or released if it does not die with its owner; a refused removal
    changes nothing.
   */
  ghost function Settle(objects: Objects, fd: int, id: nat): Objects
    requires Live(objects, id)
  {
    var service := objects[id].value;
    if !service.DiesWithOwner() then objects[id := Some(service.(owner := NOBODY))]
    else if Removable(objects, id, fd) then objects - {id}
    else objects
  }

  /** A run of the clean-up: steps on the youngest object of the client, for as long as it has one. */
  ghost predicate HangUpRun(objects: Objects, fd: int, states: seq<Objects>) {
    && |states| > 0 && states[0] == objects
    && forall k :: 0 <= k < |states| - 1 ==> HangUpStep(states[k], fd, states[k + 1])
  }

  ghost predicate HangUpStep(before: Objects, fd: int, after: Objects) {
    exists id :: IsYoungest(before, fd, id) && after == Settle(before, fd, id)
  }

  /** No object that dies with the client, other than the root, has an object of a third client below it. */
  ghost predicate Unhindered(objects: Objects, fd: int) {
    forall id :: id in Owned(objects, fd) && objects[id].value.DiesWithOwner() ==> Removable(objects, id, fd)
  }

  /** The clean-up as a whole: what dies with the client is gone, what it owned otherwise is released. */
  ghost function AfterHangUp(objects: Objects, fd: int): Objects {
    map id | id in objects && !Dies(objects, fd, id) ::
      if id in Owned(objects, fd) then Some(objects[id].value.(owner := NOBODY)) else objects[id]
  }

  ghost predicate Dies(objects: Objects, fd: int, id: nat) {
    id in Owned(objects, fd) && objects[id].value.DiesWithOwner()
  }

  /** In the fields of the services: what has a callback and goes with its owner is gone, the rest is released. */
  lemma AfterHangUpMeans(objects: Objects, fd: int, id: nat)
    requires Live(objects, id)
    ensures var s, after := objects[id].value, AfterHangUp(objects, fd);
      && (s.owner != fd ==> id in after && after[id] == objects[id])
      && (s.owner == fd && !(s.callback && s.destroyIfOwnerQuits) ==>
        id in after && after[id] == Some(Service(s.path, NOBODY, s.callback, s.destroyIfOwnerQuits)))
      && (s.owner == fd && s.callback && s.destroyIfOwnerQuits ==> id !in after)
  {
  }

  /** Where nothing hinders it, a step settles one object and leads to the same end. */
  lemma StepSettles(objects: Objects, fd: int, id: nat)
    requires fd != NOBODY && Unhindered(objects, fd) && id in Owned(objects, fd)
    ensures var after := Settle(objects, fd, id);
            && Owned(after, fd) == Owned(objects, fd) - {id} && Unhindered(after, fd)
            && AfterHangUp(after, fd) == AfterHangUp(objects, fd)
    ensures forall other :: other in Owned(Settle(objects, fd, id), fd) ==>
      Settle(objects, fd, id)[other] == objects[other]
  {
    hide IsBelow;
    var after := Settle(objects, fd, id);
    assert Owned(after, fd) == Owned(objects, fd) - {id};
    forall other | other in Owned(after, fd) && after[other].value.DiesWithOwner()
      ensures Removable(after, other, fd)
    {
      assert Removable(objects, other, fd);
      forall child
        ensures !IsForeignChild(after, after[other].value.path, fd, child)
      {
        assert !IsForeignChild(objects, objects[other].value.path, fd, child);
      }
    }
  }

  /**
    Of the objects a client owned, those settled so far that satisfy p have been logged: once each, youngest first.
   */
  ghost predicate InTurn(before: Objects, now: Objects, fd: int, p: Service -> bool, log: seq<nat>) {
    && (forall id :: id in Owned(now, fd) ==> id in Owned(before, fd) && now[id] == before[id])
    && (forall id :: id in log <==> id in Owned(before, fd) && id !in Owned(now, fd) && p(before[id].value))
    && (forall i, j :: 0 <= i < j < |log| ==> log[j] < log[i])
    && (forall logged, id :: logged in log && id in Owned(now, fd) ==> id < logged)
  }

  function WithCallback(): Service -> bool { (s: Service) => s.callback }

  function DyingWithOwner(): Service -> bool { (s: Service) => s.DiesWithOwner() }

  /** Exactly the objects settled so far that have a callback have called back. */
  ghost predicate CalledBack(before: Objects, now: Objects, fd: int, calls: seq<nat>) {
    InTurn(before, now, fd, WithCallback(), calls)
  }

  /** Exactly the objects settled so far that die with the client have been destroyed. */
  ghost predicate Departed(before: Objects, now: Objects, fd: int, log: seq<nat>) {
    InTurn(before, now, fd, DyingWithOwner(), log)
  }

  lemma NothingInTurn(objects: Objects, fd: int)
    ensures CalledBack(objects, objects, fd, []) && Departed(objects, objects, fd, [])
  {
  }

  lemma InTurnStep(before: Objects, now: Objects, after: Objects, fd: int, p: Service -> bool, log: seq<nat>, id: nat)
    requires InTurn(before, now, fd, p, log) && IsYoungest(now, fd, id)
    requires Owned(after, fd) == Owned(now, fd) - {id}
    requires forall other :: other in Owned(after, fd) ==> after[other] == now[other]
    ensures InTurn(before, after, fd, p, log + if p(now[id].value) then [id] else [])
  {
    assert forall i :: 0 <= i < |log| ==> log[i] in log;
  }

  /** Once everything is settled, exactly the client's objects with a callback have called back. */
  lemma CalledBackMeans(before: Objects, now: Objects, fd: int, calls: seq<nat>)
    requires CalledBack(before, now, fd, calls) && Owned(now, fd) == {}
    ensures forall id :: id in calls <==> Live(before, id) && before[id].value.owner == fd && before[id].value.callback
  {
  }

  // ----- the order in which objects go with their client

  /** Nothing is destroyed while an object below it is alive. */
  ghost predicate ChildrenFirst(objects: Objects, log: seq<nat>) {
    forall i, child :: 0 <= i < |log| && LiesBelow(objects, log[i], child) ==> child in log[..i]
  }

  /** What lies below an object that dies with the client dies as well, and is younger. */
  ghost predicate DieYounger(objects: Objects, fd: int) {
    forall id, child :: Dies(objects, fd, id) && LiesBelow(objects, id, child) ==>
      Dies(objects, fd, child) && id < child
  }

  /**
    Among the objects that die with the client, none goes before one below it exactly if those below are younger. What
    would then still go before its child is a parent whose child does not die.
   */
  lemma DyingGoInOrderIffYounger(objects: Objects, now: Objects, fd: int, log: seq<nat>)
    requires Departed(objects, now, fd, log) && Owned(now, fd) == {}
    ensures (forall i, j :: 0 <= i < j < |log| ==> !LiesBelow(objects, log[i], log[j])) <==>
      (forall id, child :: Dies(objects, fd, id) && Dies(objects, fd, child) && LiesBelow(objects, id, child) ==>
        id < child)
  {
    hide IsBelow;
    assert forall id :: id in log <==> Dies(objects, fd, id);
    if forall i, j :: 0 <= i < j < |log| ==> !LiesBelow(objects, log[i], log[j]) {
      forall id, child | Dies(objects, fd, id) && Dies(objects, fd, child) && LiesBelow(objects, id, child)
        ensures id < child
      {
        assert id in log && child in log;
        var i :| 0 <= i < |log| && log[i] == id;
        var j :| 0 <= j < |log| && log[j] == child;
        NotBelowItself(objects, id);
        assert j < i;
      }
    } else {
      var i, j :| 0 <= i < j < |log| && LiesBelow(objects, log[i], log[j]);
      assert log[i] in log && log[j] in log && log[j] < log[i];
    }
  }

  /** Youngest first is children first exactly if what lies below a dying object dies as well and is younger. */
  lemma ChildrenGoFirstIffYounger(objects: Objects, now: Objects, fd: int, log: seq<nat>)
    requires Departed(objects, now, fd, log) && Owned(now, fd) == {}
    ensures ChildrenFirst(objects, log) <==> DieYounger(objects, fd)
  {
    hide IsBelow;
    assert forall id :: id in log <==> Dies(objects, fd, id);
    if DieYounger(objects, fd) {
      forall i, child | 0 <= i < |log| && LiesBelow(objects, log[i], child)
        ensures child in log[..i]
      {
        assert log[i] in log && child in log;
        var j :| 0 <= j < |log| && log[j] == child;
        assert j < i && log[..i][j] == child;
      }
    }
    if ChildrenFirst(objects, log) {
      forall id, child | Dies(objects, fd, id) && LiesBelow(objects, id, child)
        ensures Dies(objects, fd, child) && id < child
      {
        var i :| 0 <= i < |log| && log[i] == id;
        assert child in log[..i] && child in log;
        var j :| 0 <= j < i && log[..i][j] == child;
      }
    }
  }

  lemma NothingToSettle(objects: Objects, fd: int)
    requires Owned(objects, fd) == {}
    ensures AfterHangUp(objects, fd) == objects
  {
  }

  /** An object that is hindered from going stays, hindered, through every step. */
  lemma HindranceStays(objects: Objects, fd: int, id: nat, stuck: nat)
    requires fd != NOBODY && id in Owned(objects, fd)
    requires stuck in Owned(objects, fd) && objects[stuck].value.DiesWithOwner() && !Removable(objects, stuck, fd)
    ensures var after := Settle(objects, fd, id);
            stuck in Owned(after, fd) && after[stuck].value.DiesWithOwner() && !Removable(after, stuck, fd)
  {
    hide IsBelow;
    var path := objects[stuck].value.path;
    if path != ROOT {
      var child :| IsForeignChild(objects, path, fd, child);
      assert IsForeignChild(Settle(objects, fd, id), path, fd, child);
    }
  }

  lemma {:induction false} HinderedThroughout(objects: Objects, fd: int, states: seq<Objects>, stuck: nat)
    requires fd != NOBODY && HangUpRun(objects, fd, states)
    requires stuck in Owned(objects, fd) && objects[stuck].value.DiesWithOwner() && !Removable(objects, stuck, fd)
    ensures var last := states[|states| - 1];
            stuck in Owned(last, fd) && last[stuck].value.DiesWithOwner() && !Removable(last, stuck, fd)
    decreases |states|
  {
    hide Removable, Settle;
    if |states| > 1 {
      var front := states[..|states| - 1];
      HinderedThroughout(objects, fd, front, stuck);
      var before := front[|front| - 1];
      assert HangUpStep(states[|states| - 2], fd, states[|states| - 1]);
      var id :| IsYoungest(before, fd, id) && states[|states| - 1] == Settle(before, fd, id);
      HindranceStays(before, fd, id, stuck);
    }
  }

  lemma {:induction false} YoungestExists(ids: set<nat>) returns (youngest: nat)
    requires ids != {}
    ensures youngest in ids && forall id :: id in ids ==> id <= youngest
    decreases ids
  {
    youngest :| youngest in ids;
    assert forall id :: id in ids ==> id == youngest || id in ids - {youngest};
    if ids - {youngest} != {} {
      var other := YoungestExists(ids - {youngest});
      youngest := if other > youngest then other else youngest;
    }
  }

  /** Where nothing hinders it, some run of the clean-up ends, with everything settled. */
  lemma {:induction false} UnhinderedRunEnds(objects: Objects, fd: int) returns (states: seq<Objects>)
    requires fd != NOBODY && Unhindered(objects, fd)
    ensures HangUpRun(objects, fd, states) && states[|states| - 1] == AfterHangUp(objects, fd) &&
      Owned(states[|states| - 1], fd) == {}
    decreases Owned(objects, fd)
  {
    if Owned(objects, fd) == {} {
      NothingToSettle(objects, fd);
      return [objects];
    }
    var id := YoungestExists(Owned(objects, fd));
    var after := Settle(objects, fd, id);
    StepSettles(objects, fd, id);
    var rest := UnhinderedRunEnds(after, fd);
    states := [objects] + rest;
    hide Settle, Owned, AfterHangUp, Unhindered;
    forall k | 0 <= k < |states| - 1
      ensures HangUpStep(states[k], fd, states[k + 1])
    {
      if k == 0 {
        assert IsYoungest(objects, fd, id);
      } else {
        assert HangUpStep(rest[k - 1], fd, rest[k]);
      }
    }
  }

  /** The clean-up after a client comes to an end exactly if no object that dies with it is hindered from going. */
  lemma HangUpEndsIffUnhindered(objects: Objects, fd: int)
    requires fd != NOBODY
    ensures Unhindered(objects, fd) <==>
      exists states :: HangUpRun(objects, fd, states) && Owned(states[|states| - 1], fd) == {}
  {
    hide Removable;
    if Unhindered(objects, fd) {
      var states := UnhinderedRunEnds(objects, fd);
    } else {
      var stuck :| stuck in Owned(objects, fd) && objects[stuck].value.DiesWithOwner() &&
        !Removable(objects, stuck, fd);
      forall states | HangUpRun(objects, fd, states)
        ensures |states| > 0 && Owned(states[|states| - 1], fd) != {}
      {
        HinderedThroughout(objects, fd, states, stuck);
      }
    }
  }

  lemma HinderedNeverEnds(objects: Objects, fd: int)
    requires fd != NOBODY && !Unhindered(objects, fd)
    ensures forall states :: HangUpRun(objects, fd, states) ==> Owned(states[|states| - 1], fd) != {}
  {
    HangUpEndsIffUnhindered(objects, fd);
  }
}
