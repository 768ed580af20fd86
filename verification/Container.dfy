/**
  The service container: object ids and paths, child-first teardown, removal by clients, and the clean-up after a
  client.
 */
module Containers {
  import opened Basics
  import opened Services
  import opened Teardown

  datatype Refusal = IsRoot | NotFound | OwnedByOther(owner: int) | ChildOwnedByOther(child: nat)

  class Container {
    var objects: Objects
    var lookup: map<string, nat>
    var nextId: nat

    /** The objects whose destruction callback has run, in order. */
    var calledBack: seq<nat>

    /** The objects destroyed by the last teardown or the last clean-up after a client, in order. */
    ghost var destroyed: seq<nat>

    ghost predicate Indexed()
      reads this
    {
      && Inverse(objects, lookup)
      && Live(objects, ROOT_ID) && objects[ROOT_ID].value.path == ROOT && !objects[ROOT_ID].value.callback
      && (forall id :: id in objects ==> ROOT_ID <= id < nextId)
    }

    /** Between operations every entry is an object. */
    ghost predicate Valid()
      reads this
    {
      Indexed() && AllLive(objects)
    }

    constructor ()
      ensures Valid() && objects == map[ROOT_ID := Some(Service(ROOT, NOBODY, false, true))]
    {
      objects := map[ROOT_ID := Some(Service(ROOT, NOBODY, false, true))];
      lookup := map[ROOT := ROOT_ID];
      nextId := ROOT_ID + 1;
      calledBack, destroyed := [], [];
    }

    /** Registers an object under a path that is not taken, with an id that has never been used. */
    method CreateObject(service: Service) returns (id: nat)
      requires Valid()
      modifies this`objects, this`lookup, this`nextId
      ensures Valid()
      ensures id == 0 <==> service.path in old(lookup)
      ensures id == 0 ==> objects == old(objects) && lookup == old(lookup)
      ensures id != 0 ==> forall other :: other in old(objects) ==> other < id
      ensures id != 0 ==> objects == old(objects)[id := Some(service)] && lookup == old(lookup)[service.path := id]
    {
      if service.path in lookup {
        return 0;
      }
      id := nextId;
      nextId := nextId + 1;
      objects := objects[id := Some(service)];
      lookup := lookup[service.path := id];
    }

    // ----- teardown

    /**
      Destroys objects below a path, or the object at the path if there are none. Only an object without live
      objects below it is destroyed; at least one is, unless the path is the root or the empty path.
     */
    method ResetChildrenFirst(path: string, ghost paths: map<nat, string>)
      requires Indexed() && path in lookup && ChildFirst(objects, paths, destroyed)
      modifies this`objects, this`lookup, this`destroyed
      ensures Indexed() && ChildFirst(objects, paths, destroyed)
      ensures Logged(old(objects), objects, old(destroyed), destroyed)
      ensures objects == Reset(old(objects), old(lookup[path]), nextId)
      ensures path != ROOT && path != "" ==> objects != old(objects)
      ensures path != ROOT && Below(old(objects), path) == {} ==> destroyed == old(destroyed) + [old(lookup[path])]
      decreases Below(objects, path)
    {
      hide ChildFirst, IsBelow, Logged, Reset, ResetBelow;
      if path !in {ROOT, ""} {
        ResetProgresses(objects, lookup[path], nextId);
      }
      ResetIsOneStep(objects, lookup[path], nextId);
      LoggedNothing(objects, destroyed);
      if path == ROOT {
        return;
      }
      var foundChild := false;
      for id := 0 to nextId
        invariant Indexed() && ChildFirst(objects, paths, destroyed)
        invariant Logged(old(objects), objects, old(destroyed), destroyed)
        invariant ResetBelow(objects, path, id, nextId) == ResetBelow(old(objects), path, 0, nextId)
        invariant !foundChild ==> objects == old(objects) && lookup == old(lookup) && destroyed == old(destroyed)
        invariant !foundChild ==> forall i :: 0 <= i < id ==> i !in Below(objects, path)
        invariant foundChild ==> Below(old(objects), path) != {}
      {
        VisitIsOneStep(objects, path, id, nextId);
        if id in objects && objects[id].Some? && IsBelow(path, objects[id].value.path) {
          LoggedEmpties(old(objects), objects, old(destroyed), destroyed);
          FewerBelowChild(old(objects), objects, path, id);
          assert id in Below(old(objects), path);
          foundChild := true;
          ghost var before, logBefore := objects, destroyed;
          ResetChildrenFirst(objects[id].value.path, paths);
          LoggedCompose(old(objects), before, objects, old(destroyed), logBefore, destroyed);
        }
      }
      VisitIsOneStep(objects, path, nextId, nextId);
      if !foundChild {
        assert Below(objects, path) == {};
        DestroyLeaf(objects, lookup, paths, destroyed, path);
        var id := lookup[path];
        objects := objects[id := None];
        lookup := lookup - {path};
        destroyed := destroyed + [id];
      }
    }

    /** Erases the entries of destroyed objects. */
    method EraseEmptied()
      requires Indexed()
      modifies this`objects
      ensures Valid()
      ensures objects == Erased(old(objects))
    {
      while exists id :: id in objects && objects[id].None?
        invariant Indexed()
        invariant forall id :: id in objects ==> id in old(objects) && objects[id] == old(objects)[id]
        invariant forall id :: Live(old(objects), id) ==> id in objects
        decreases objects.Keys
      {
        var id :| id in objects && objects[id].None?;
        objects := objects - {id};
      }
    }

    /** The youngest object: the last one in the order of ids. */
    method Last() returns (id: nat)
      requires Valid()
      ensures id in objects && forall other :: other in objects ==> other <= id
    {
      id := nextId - 1;
      while id !in objects
        invariant ROOT_ID <= id && forall other :: other in objects ==> other <= id
        decreases id
      {
        id := id - 1;
      }
    }

    /** Destroys something at or below a path, for good. */
    method DestroyFrom(path: string, ghost paths: map<nat, string>)
      requires Valid() && path in lookup && path != ROOT && ChildFirst(objects, paths, destroyed)
      modifies this`objects, this`lookup, this`destroyed
      ensures Valid() && ChildFirst(objects, paths, destroyed)
      ensures Shrunk(old(objects), objects, old(destroyed), destroyed)
      ensures objects == Erased(Reset(old(objects), old(lookup[path]), nextId))
      ensures forall id :: id in old(objects) && id !in objects ==>
        id == old(lookup[path]) || LiesBelow(old(objects), old(lookup[path]), id)
      ensures Below(old(objects), path) == {} ==> destroyed == old(destroyed) + [old(lookup[path])]
    {
      hide ChildFirst, IsBelow, Logged, Shrunk, Emptied, Erased, Below, Reset;
      ResetStaysBelow(objects, lookup[path], nextId);
      ResetChildrenFirst(path, paths);
      ErasedShrinks(old(objects), objects, old(destroyed), destroyed, paths);
      LoggedEmpties(old(objects), objects, old(destroyed), destroyed);
      GoneFromErased(old(objects), objects, old(lookup[path]));
      EraseEmptied();
    }

    lemma GoneFromErased(before: Objects, after: Objects, id: nat)
      requires AllLive(before) && Live(before, id) && Emptied(before, after)
      requires forall other :: Live(before, other) && !Live(after, other) ==>
        other == id || IsBelow(before[id].value.path, before[other].value.path)
      ensures forall other :: other in before && other !in Erased(after) ==> other == id || LiesBelow(before, id, other)
    {
      hide IsBelow;
    }

    /**
      What a container holds is in order, and it has an object with the empty path if and only if that can be looked up.
     */
    lemma ValidIsContained()
      requires Valid()
      ensures Contained(objects, nextId) && (HasEmptyPath(objects) <==> "" in lookup)
    {
    }

    /**
      One round of the teardown: the youngest object calls back, then it, or objects below it, are destroyed.
      A live object with the empty path survives the round, and if there is none the round makes progress.
     */
    method ClearRound(ghost paths: map<nat, string>)
      requires Valid() && |objects| > 1 && ChildFirst(objects, paths, destroyed)
      modifies this`objects, this`lookup, this`destroyed, this`calledBack
      ensures Valid() && ChildFirst(objects, paths, destroyed)
      ensures Shrunk(old(objects), objects, old(destroyed), destroyed)
      ensures Round(old(objects), nextId, objects)
      ensures "" !in old(lookup) ==> objects.Keys < old(objects.Keys)
      ensures "" in lookup <==> "" in old(lookup)
      ensures ChildrenAreYounger(old(objects)) ==>
        YoungestGone(old(objects), old(destroyed), destroyed, old(calledBack), calledBack)
      ensures RoundCalls(old(objects), objects, old(calledBack), calledBack)
    {
      hide ChildFirst, IsBelow, Shrunk, YoungestGone, ChildrenAreYounger, Below, Reset, Erased, Contained, HasEmptyPath;
      hide RoundCalls;
      ValidIsContained();
      YoungestReset(paths);
      RoundKeeps(old(objects), nextId, objects);
      ValidIsContained();
    }

    method YoungestReset(ghost paths: map<nat, string>)
      requires Valid() && |objects| > 1 && ChildFirst(objects, paths, destroyed)
      modifies this`objects, this`lookup, this`destroyed, this`calledBack
      ensures Valid() && ChildFirst(objects, paths, destroyed)
      ensures Shrunk(old(objects), objects, old(destroyed), destroyed)
      ensures Round(old(objects), nextId, objects)
      ensures ChildrenAreYounger(old(objects)) ==>
        YoungestGone(old(objects), old(destroyed), destroyed, old(calledBack), calledBack)
      ensures RoundCalls(old(objects), objects, old(calledBack), calledBack)
    {
      hide ChildFirst, IsBelow, Shrunk, YoungestGone, ChildrenAreYounger, Below, Reset, Erased;
      var last := Last();
      assert IsLast(objects, last);
      YoungestIsNotRoot(objects, last);
      LastIsGone(objects, last, destroyed, calledBack);
      var path := objects[last].value.path;
      assert path in lookup && path != ROOT;
      if objects[last].value.callback {
        calledBack := calledBack + [last];
      }
      assert calledBack == old(calledBack) + CallbackOf(objects, last);
      if ChildrenAreYounger(objects) {
        YoungestHasNoChild(objects, last);
      }
      DestroyFrom(path, paths);
      RoundCallsBy(old(objects), objects, last, old(calledBack));
    }

    /** Only the empty path has the root below it. */
    lemma NothingAboveRoot()
      requires Valid() && "" !in lookup
      ensures RootIsFirst(objects)
    {
      forall id | Live(objects, id)
        ensures !LiesBelow(objects, id, ROOT_ID)
      {
        RootIsBelowEmptyOnly(objects[id].value.path);
        assert objects[id].value.path in lookup;
      }
    }

    /**
      The teardown ends with the root alone. Objects go youngest first, and each callback runs once, exactly if every
      object is younger than those its path lies below. In any case the objects that call back are those with a callback
      that no younger object lies above.
     */
    method Clear()
      requires Valid() && "" !in lookup
      modifies this`objects, this`lookup, this`destroyed, this`calledBack
      ensures objects == map[ROOT_ID := old(objects)[ROOT_ID]] && lookup == map[]
      ensures TornDown(old(objects), destroyed)
      ensures ChildrenAreYounger(old(objects)) <==> YoungestFirst(old(objects), destroyed, old(calledBack), calledBack)
      ensures old(calledBack) <= calledBack
      ensures forall id :: id in calledBack[|old(calledBack)|..] <==>
        id in old(objects) && old(objects)[id].value.callback && !UnderYounger(old(objects), id)
    {
      hide ChildFirst, IsBelow, YoungestFirst, ChildrenAreYounger, TornDown, RootIsFirst, CallsRight, UnderYounger;
      hide RoundCalls, YoungestGone;
      destroyed := [];
      ghost var paths := PathsOf(objects);
      TeardownStarts(objects, calledBack);
      NothingAboveRoot();
      assert calledBack[|calledBack|..] == [];
      while |objects| > 1
        invariant Valid() && "" !in lookup
        invariant old(calledBack) <= calledBack &&
          CallsRight(old(objects), objects, calledBack[|old(calledBack)|..])
        invariant ChildFirst(objects, paths, destroyed)
        invariant Shrunk(old(objects), objects, [], destroyed)
        invariant ChildrenAreYounger(old(objects)) ==>
          YoungestFirst(old(objects), destroyed, old(calledBack), calledBack)
        invariant ChildrenAreYounger(old(objects)) ==> forall d, id :: d in destroyed && id in objects ==> id < d
        decreases objects.Keys
      {
        ghost var before, log, calls := objects, destroyed, calledBack;
        assert calledBack == old(calledBack) + calledBack[|old(calledBack)|..];
        if ChildrenAreYounger(old(objects)) {
          ChildrenStayYounger(old(objects), objects);
        }
        ClearRound(paths);
        CallsRightStep(old(objects), before, objects, log, calls[|old(calledBack)|..], calledBack, old(calledBack));
        if ChildrenAreYounger(old(objects)) {
          YoungestFirstRound(old(objects), before, objects, log, destroyed, old(calledBack), calls, calledBack);
        }
        ShrunkCompose(old(objects), before, objects, [], log, destroyed);
      }
      TornDownWhenOneIsLeft(old(objects), objects, destroyed);
      lookup := map[];
      CallsRightAtEnd(old(objects), objects, calledBack[|old(calledBack)|..]);
      if YoungestFirst(old(objects), destroyed, old(calledBack), calledBack) {
        YoungestFirstNeedsYounger(old(objects), destroyed, old(calledBack), calledBack);
      }
    }

    lemma CallsRightAtEnd(before: Objects, after: Objects, calls: seq<nat>)
      requires AllLive(before) && ROOT_ID in before && !before[ROOT_ID].value.callback && after.Keys == {ROOT_ID}
      requires CallsRight(before, after, calls)
      ensures forall id :: id in calls <==> id in before && before[id].value.callback && !UnderYounger(before, id)
    {
      hide UnderYounger;
    }

    // ----- removal on behalf of a client

    /** Why an object may not be removed by a client; None if it may. */
    method RemovalHelper(path: string, caller: int) returns (refusal: Option<Refusal>)
      requires Valid()
      ensures refusal == Some(IsRoot) <==> path == ROOT
      ensures refusal == Some(NotFound) <==> path != ROOT && path !in lookup
      ensures refusal.None? <==> path in lookup && Removable(objects, lookup[path], caller)
      ensures refusal.None? <==>
        && path != ROOT && path in lookup && objects[lookup[path]].value.owner in {NOBODY, caller}
        && forall child :: LiesBelow(objects, lookup[path], child) && objects[child].value.path != ROOT ==>
          objects[child].value.owner in {NOBODY, caller}
      ensures refusal.Some? && refusal.value.OwnedByOther? ==>
        path in lookup && refusal.value.owner == objects[lookup[path]].value.owner &&
          Foreign(refusal.value.owner, caller)
      ensures refusal.Some? && refusal.value.ChildOwnedByOther? ==>
        path in lookup && !Foreign(objects[lookup[path]].value.owner, caller) &&
          IsForeignChild(objects, path, caller, refusal.value.child)
    {
      hide IsBelow;
      if path in lookup {
        RemovableMeans(objects, lookup[path], caller);
      }
      if path == ROOT {
        return Some(IsRoot);
      }
      if path !in lookup {
        return Some(NotFound);
      }
      var service := objects[lookup[path]].value;
      if Foreign(service.owner, caller) {
        return Some(OwnedByOther(service.owner));
      }
      var others := lookup.Keys;
      while others != {}
        invariant others <= lookup.Keys
        invariant forall other :: other in lookup && other !in others ==>
          !IsForeignChild(objects, path, caller, lookup[other])
        decreases others
      {
        var other :| other in others;
        others := others - {other};
        var id := lookup[other];
        if other != ROOT && IsBelow(path, other) && Foreign(objects[id].value.owner, caller) {
          assert IsForeignChild(objects, path, caller, id);
          return Some(ChildOwnedByOther(id));
        }
      }
      forall id
        ensures !IsForeignChild(objects, path, caller, id)
      {
        if Live(objects, id) {
          assert lookup[objects[id].value.path] == id;
        }
      }
      return None;
    }

    /** Removes one object, or refuses and changes nothing. */
    method RemoveObject(path: string, caller: int) returns (refusal: Option<Refusal>)
      requires Valid()
      modifies this`objects, this`lookup
      ensures Valid()
      ensures refusal.None? <==> path in old(lookup) && Removable(old(objects), old(lookup[path]), caller)
      ensures refusal.None? ==> objects == old(objects) - {old(lookup[path])} && lookup == old(lookup) - {path}
      ensures refusal.Some? ==> objects == old(objects) && lookup == old(lookup)
    {
      refusal := RemovalHelper(path, caller);
      if refusal.None? {
        var id := lookup[path];
        lookup := lookup - {path};
        objects := objects - {id};
      }
    }

    // ----- the end of a client

    /** The youngest object of a client, if it has any. */
    method YoungestOwned(fd: int) returns (id: Option<nat>)
      requires Valid()
      ensures id.None? <==> Owned(objects, fd) == {}
      ensures id.Some? ==> IsYoungest(objects, fd, id.value)
    {
      var next := nextId;
      while next > ROOT_ID
        invariant forall other :: other in Owned(objects, fd) ==> other < next
        decreases next
      {
        next := next - 1;
        if next in objects && objects[next].value.owner == fd {
          assert next in Owned(objects, fd);
          return Some(next);
        }
      }
      return None;
    }

    /**
      One round of the clean-up after a client, which is still the calling client: its youngest object calls back,
      and then is removed if it dies with its owner, and released otherwise.
     */
    method HangUpRound(fd: int, id: nat)
      requires Valid() && fd != NOBODY && id in Owned(objects, fd)
      modifies this`objects, this`lookup, this`calledBack, this`destroyed
      ensures Valid()
      ensures objects == Settle(old(objects), fd, id)
      ensures var s := old(objects)[id].value;
        objects ==
          if !s.callback || !s.destroyIfOwnerQuits
          then old(objects)[id := Some(Service(s.path, NOBODY, s.callback, s.destroyIfOwnerQuits))]
          else if Removable(old(objects), id, fd) then old(objects) - {id} else old(objects)
      ensures calledBack == old(calledBack) + if old(objects)[id].value.callback then [id] else []
      ensures var service := old(objects)[id].value;
        destroyed == old(destroyed) +
          if service.DiesWithOwner() && Removable(old(objects), id, fd) then [id] else []
      ensures calledBack == old(calledBack) + CallbackOf(old(objects), id)
    {
      hide Removable;
      var service := objects[id].value;
      if service.callback {
        calledBack := calledBack + [id];
      }
      if service.DiesWithOwner() {
        var refusal := RemoveObject(service.path, fd);
        if refusal.None? {
          destroyed := destroyed + [id];
        }
      } else {
        objects := objects[id := Some(service.(owner := NOBODY))];
      }
    }

    /**
      After a client has hung up nothing belongs to it: what dies with it is gone, the rest is released, and nothing
      else has changed. Children go before their parents exactly if what lies below a dying object dies as well and is
      younger.
     */
    method ClientHungUp(fd: int)
      requires Valid() && fd != NOBODY && Unhindered(objects, fd)
      modifies this`objects, this`lookup, this`calledBack, this`destroyed
      ensures Valid()
      ensures objects == AfterHangUp(old(objects), fd) && Owned(objects, fd) == {}
      ensures old(calledBack) <= calledBack && CalledBack(old(objects), objects, fd, calledBack[|old(calledBack)|..])
      ensures forall id :: id in objects ==> id in old(objects)
      ensures forall id :: id in old(objects) ==>
        var s := old(objects)[id].value;
        && (s.owner != fd ==> id in objects && objects[id] == old(objects)[id])
        && (s.owner == fd && !(s.callback && s.destroyIfOwnerQuits) ==>
          id in objects && objects[id] == Some(Service(s.path, NOBODY, s.callback, s.destroyIfOwnerQuits)))
        && (s.owner == fd && s.callback && s.destroyIfOwnerQuits ==> id !in objects)
      ensures forall id :: id in calledBack[|old(calledBack)|..] <==>
        id in old(objects) && old(objects)[id].value.owner == fd && old(objects)[id].value.callback
      ensures Departed(old(objects), objects, fd, destroyed)
      ensures ChildrenFirst(old(objects), destroyed) <==> DieYounger(old(objects), fd)
    {
      hide Settle, Unhindered, AfterHangUp, Removable, InTurn, CallbackOf, ChildrenFirst, DieYounger;
      var next := YoungestOwned(fd);
      NothingInTurn(objects, fd);
      destroyed := [];
      assert calledBack[|calledBack|..] == [];
      while next.Some?
        invariant Valid() && Unhindered(objects, fd)
        invariant AfterHangUp(objects, fd) == AfterHangUp(old(objects), fd)
        invariant next.None? <==> Owned(objects, fd) == {}
        invariant next.Some? ==> IsYoungest(objects, fd, next.value)
        invariant old(calledBack) <= calledBack &&
          CalledBack(old(objects), objects, fd, calledBack[|old(calledBack)|..])
        invariant Departed(old(objects), objects, fd, destroyed)
        decreases Owned(objects, fd)
      {
        StepSettles(objects, fd, next.value);
        ghost var calls := CallbackOf(objects, next.value);
        StepInTurn(objects, fd, next.value, old(objects), calledBack[|old(calledBack)|..], destroyed);
        assert (calledBack + calls)[|old(calledBack)|..] == calledBack[|old(calledBack)|..] + calls;
        HangUpRound(fd, next.value);
        next := YoungestOwned(fd);
      }
      NothingToSettle(objects, fd);
      ChildrenGoFirstIffYounger(old(objects), objects, fd, destroyed);
      InFields(old(objects), objects, fd, calledBack[|old(calledBack)|..]);
    }

    /** The end of the clean-up in the fields of the services. */
    lemma InFields(before: Objects, after: Objects, fd: int, calls: seq<nat>)
      requires AllLive(before) && after == AfterHangUp(before, fd) && Owned(after, fd) == {}
      requires CalledBack(before, after, fd, calls)
      ensures forall id :: id in after ==> id in before
      ensures forall id :: id in before ==>
        var s := before[id].value;
        && (s.owner != fd ==> id in after && after[id] == before[id])
        && (s.owner == fd && !(s.callback && s.destroyIfOwnerQuits) ==>
          id in after && after[id] == Some(Service(s.path, NOBODY, s.callback, s.destroyIfOwnerQuits)))
        && (s.owner == fd && s.callback && s.destroyIfOwnerQuits ==> id !in after)
      ensures forall id :: id in calls <==> id in before && before[id].value.owner == fd && before[id].value.callback
    {
      CalledBackMeans(before, after, fd, calls);
      hide InTurn;
      forall id | id in before { AfterHangUpMeans(before, fd, id); }
    }
  }

  /** One step of an unhindered clean-up, seen by the two logs. */
  lemma StepInTurn(objects: Objects, fd: int, id: nat, before: Objects, calls: seq<nat>, log: seq<nat>)
    requires fd != NOBODY && Unhindered(objects, fd) && IsYoungest(objects, fd, id)
    requires CalledBack(before, objects, fd, calls) && Departed(before, objects, fd, log)
    ensures var after := Settle(objects, fd, id);
      && CalledBack(before, after, fd, calls + CallbackOf(objects, id))
      && Departed(before, after, fd, log + if objects[id].value.DiesWithOwner() then [id] else [])
    ensures objects[id].value.DiesWithOwner() ==> Removable(objects, id, fd)
  {
    hide Settle, InTurn, Removable;
    StepSettles(objects, fd, id);
    InTurnStep(before, objects, Settle(objects, fd, id), fd, WithCallback(), calls, id);
    InTurnStep(before, objects, Settle(objects, fd, id), fd, DyingWithOwner(), log, id);
  }

  /** A container whose teardown never ends. */
  method NeverTornDown() returns (c: Container)
    ensures fresh(c) && c.Valid()
    ensures forall states :: TeardownRun(c.objects, c.nextId, states) ==> |states[|states| - 1]| > 1
  {
    c := new Container();
    var id := c.CreateObject(Service("", NOBODY, false, false));
    assert Live(c.objects, id) && c.objects[id].value.path == "";
    c.ValidIsContained();
    forall states | TeardownRun(c.objects, c.nextId, states)
      ensures |states[|states| - 1]| > 1
    {
      EmptyPathThroughout(c.objects, c.nextId, states);
      TwoAreLeft(states[|states| - 1], c.nextId);
    }
  }

  lemma ForeignChildHinders(objects: Objects, client: int, other: int, parent: nat, child: nat)
    requires client != other && client != NOBODY && other != NOBODY
    requires Live(objects, parent) && objects[parent].value == Service("/a", client, true, true)
    requires Live(objects, child) && objects[child].value == Service("/a/b", other, true, true)
    ensures !Unhindered(objects, client)
  {
    assert IsForeignChild(objects, "/a", client, child);
    assert parent in Owned(objects, client) && !Removable(objects, parent, client);
  }

  /**
    A container whose clean-up after a client never ends: an object that dies with the client has a child of another
    one.
   */
  method NeverSettled(client: int, other: int) returns (c: Container)
    requires client != other && client != NOBODY && other != NOBODY
    ensures fresh(c) && c.Valid() && !Unhindered(c.objects, client)
    ensures forall states :: HangUpRun(c.objects, client, states) ==> Owned(states[|states| - 1], client) != {}
  {
    c := new Container();
    var parent := c.CreateObject(Service("/a", client, true, true));
    var child := c.CreateObject(Service("/a/b", other, true, true));
    hide HangUpRun, Unhindered, Container.Valid;
    ForeignChildHinders(c.objects, client, other, parent, child);
    HinderedNeverEnds(c.objects, client);
  }

  /**
    A parent that is destroyed while its child is alive: the child was created first, and both die with the client.
   */
  method ParentGoesFirst(client: int) returns (c: Container, ghost before: Objects)
    requires client != NOBODY
    ensures fresh(c) && c.Valid() && Departed(before, c.objects, client, c.destroyed)
    ensures !ChildrenFirst(before, c.destroyed)
  {
    c := new Container();
    var child := c.CreateObject(Service("/a/b", client, true, true));
    assert |"/a"| < |"/a/b"| && child != 0 && child in c.objects;
    var parent := c.CreateObject(Service("/a", client, true, true));
    assert parent != 0;
    before := c.objects;
    hide Container.Valid, Unhindered, DieYounger, ChildrenFirst, AfterHangUp, Departed, CalledBack;
    OlderChildFails(before, client, parent, child);
    c.ClientHungUp(client);
  }

  lemma OlderChildFails(objects: Objects, client: int, parent: nat, child: nat)
    requires ROOT_ID != parent && client != NOBODY && child < parent
    requires objects.Keys == {ROOT_ID, parent, child}
    requires objects[ROOT_ID] == Some(Service(ROOT, NOBODY, false, true))
    requires objects[parent] == Some(Service("/a", client, true, true))
    requires objects[child] == Some(Service("/a/b", client, true, true))
    ensures Unhindered(objects, client) && !DieYounger(objects, client)
  {
    assert Dies(objects, client, parent) && LiesBelow(objects, parent, child);
    assert forall path, id :: !IsForeignChild(objects, path, client, id);
  }
}
