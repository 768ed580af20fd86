/** The teardown of a container as a run of rounds on the objects it holds, and when it comes to an end. */
module Teardown {
  import opened Basics
  import opened Services

  lemma EmptiedCompose(a: Objects, b: Objects, c: Objects)
    requires Emptied(a, b) && Emptied(b, c)
    ensures Emptied(a, c) && (a != b ==> a != c)
  {
    if a != b {
      var id :| id in b && a[id] != b[id];
      assert c[id] != a[id];
    }
  }

  lemma NoMoreBelow(before: Objects, after: Objects, path: string)
    requires Emptied(before, after)
    ensures Below(after, path) <= Below(before, path)
  {
  }

  /**
    What resetting an object children first leaves: it goes if nothing is below it, or else its children are visited.
   */
  ghost function Reset(objects: Objects, id: nat, n: nat): (after: Objects)
    requires Live(objects, id)
    ensures Emptied(objects, after)
    decreases Below(objects, objects[id].value.path), n + 1
  {
    var path := objects[id].value.path;
    if path == ROOT then objects
    else if Below(objects, path) == {} then objects[id := None]
    else ResetBelow(objects, path, 0, n)
  }

  /** The visit of the objects with an id from `from` up to n that are below a path, in the order of their ids. */
  ghost function ResetBelow(objects: Objects, path: string, from: nat, n: nat): (after: Objects)
    requires from <= n
    ensures Emptied(objects, after)
    decreases Below(objects, path), n - from
  {
    if from == n then objects
    else if Live(objects, from) && IsBelow(path, objects[from].value.path) then
      FewerBelowChild(objects, objects, path, from);
      var middle := Reset(objects, from, n);
      NoMoreBelow(objects, middle, path);
      EmptiedCompose(objects, middle, ResetBelow(middle, path, from + 1, n));
      ResetBelow(middle, path, from + 1, n)
    else
      ResetBelow(objects, path, from + 1, n)
  }

  /** The cases of a reset. */
  lemma ResetIsOneStep(objects: Objects, id: nat, n: nat)
    requires Live(objects, id)
    ensures var path := objects[id].value.path;
      && (path == ROOT ==> Reset(objects, id, n) == objects)
      && (path != ROOT && Below(objects, path) == {} ==> Reset(objects, id, n) == objects[id := None])
      && (path != ROOT && Below(objects, path) != {} ==> Reset(objects, id, n) == ResetBelow(objects, path, 0, n))
  {
  }

  /** One step of a visit. */
  lemma VisitIsOneStep(objects: Objects, path: string, from: nat, n: nat)
    requires from <= n
    ensures from == n ==> ResetBelow(objects, path, from, n) == objects
    ensures from < n && Live(objects, from) && IsBelow(path, objects[from].value.path) ==>
      ResetBelow(objects, path, from, n) == ResetBelow(Reset(objects, from, n), path, from + 1, n)
    ensures from < n && !(Live(objects, from) && IsBelow(path, objects[from].value.path)) ==>
      ResetBelow(objects, path, from, n) == ResetBelow(objects, path, from + 1, n)
  {
    hide Reset;
  }

  // ----- what a reset spares, and that it makes progress

  ghost predicate HasRoot(objects: Objects) {
    Live(objects, ROOT_ID) && objects[ROOT_ID].value.path == ROOT
  }

  /** Objects with the path of the root or the empty path are still alive. */
  ghost predicate Spared(before: Objects, after: Objects) {
    forall id :: Live(before, id) && before[id].value.path in {ROOT, ""} ==> Live(after, id)
  }

  lemma {:induction false} ResetSpares(objects: Objects, id: nat, n: nat)
    requires Live(objects, id) && HasRoot(objects)
    ensures Spared(objects, Reset(objects, id, n))
    decreases Below(objects, objects[id].value.path), n + 1
  {
    var path := objects[id].value.path;
    RootIsBelowEmptyOnly(path);
    assert path == "" ==> ROOT_ID in Below(objects, path);
    if path != ROOT && Below(objects, path) != {} {
      ResetBelowSpares(objects, path, 0, n);
    }
  }

  lemma {:induction false} ResetBelowSpares(objects: Objects, path: string, from: nat, n: nat)
    requires from <= n && HasRoot(objects)
    ensures Spared(objects, ResetBelow(objects, path, from, n))
    decreases Below(objects, path), n - from
  {
    if from < n {
      if Live(objects, from) && IsBelow(path, objects[from].value.path) {
        FewerBelowChild(objects, objects, path, from);
        var middle := Reset(objects, from, n);
        NoMoreBelow(objects, middle, path);
        ResetSpares(objects, from, n);
        ResetBelowSpares(middle, path, from + 1, n);
      } else {
        ResetBelowSpares(objects, path, from + 1, n);
      }
    }
  }

  /** A reset destroys nothing but what is at or below the path. */
  lemma {:induction false} ResetStaysBelow(objects: Objects, id: nat, n: nat)
    requires Live(objects, id)
    ensures forall other :: Live(objects, other) && !Live(Reset(objects, id, n), other) ==>
      other == id || IsBelow(objects[id].value.path, objects[other].value.path)
    decreases Below(objects, objects[id].value.path), n + 1
  {
    hide IsBelow;
    var path := objects[id].value.path;
    if path != ROOT && Below(objects, path) != {} {
      ResetBelowStaysBelow(objects, path, 0, n);
    }
  }

  lemma {:induction false} ResetBelowStaysBelow(objects: Objects, path: string, from: nat, n: nat)
    requires from <= n
    ensures forall other :: Live(objects, other) && !Live(ResetBelow(objects, path, from, n), other) ==>
      IsBelow(path, objects[other].value.path)
    decreases Below(objects, path), n - from
  {
    hide IsBelow;
    if from < n {
      if Live(objects, from) && IsBelow(path, objects[from].value.path) {
        FewerBelowChild(objects, objects, path, from);
        var middle := Reset(objects, from, n);
        NoMoreBelow(objects, middle, path);
        ResetStaysBelow(objects, from, n);
        ResetBelowStaysBelow(middle, path, from + 1, n);
        forall other | Live(objects, other) && IsBelow(objects[from].value.path, objects[other].value.path)
          ensures IsBelow(path, objects[other].value.path)
        {
          BelowIsTransitive(path, objects[from].value.path, objects[other].value.path);
        }
      } else {
        ResetBelowStaysBelow(objects, path, from + 1, n);
      }
    }
  }

  lemma {:induction false} ResetProgresses(objects: Objects, id: nat, n: nat)
    requires Live(objects, id) && objects[id].value.path !in {ROOT, ""}
    requires forall other :: other in objects ==> other < n
    ensures Reset(objects, id, n) != objects
    decreases Below(objects, objects[id].value.path), n + 1
  {
    var path := objects[id].value.path;
    if Below(objects, path) != {} {
      var child :| child in Below(objects, path);
      ResetBelowProgresses(objects, path, 0, n, child);
    }
  }

  lemma {:induction false} ResetBelowProgresses(objects: Objects, path: string, from: nat, n: nat, child: nat)
    requires path != "" && from <= child < n && child in Below(objects, path)
    requires forall other :: other in objects ==> other < n
    ensures ResetBelow(objects, path, from, n) != objects
    decreases Below(objects, path), n - from
  {
    if Live(objects, from) && IsBelow(path, objects[from].value.path) {
      FewerBelowChild(objects, objects, path, from);
      RootIsBelowEmptyOnly(path);
      var middle := Reset(objects, from, n);
      ResetProgresses(objects, from, n);
      EmptiedCompose(objects, middle, ResetBelow(middle, path, from + 1, n));
    } else {
      ResetBelowProgresses(objects, path, from + 1, n, child);
    }
  }

  // ----- rounds

  /** What a container holds between operations: the root, which alone has its path, and ids below n. */
  ghost predicate Contained(objects: Objects, n: nat) {
    && AllLive(objects) && HasRoot(objects)
    && (forall id :: id in objects ==> ROOT_ID <= id < n && (objects[id].value.path == ROOT ==> id == ROOT_ID))
  }

  ghost predicate IsLast(objects: Objects, last: nat) {
    last in objects && forall id :: id in objects ==> id <= last
  }

  /** One round: the youngest object is reset children first, and what has been reset is erased. */
  ghost predicate Round(before: Objects, n: nat, after: Objects) {
    |before| > 1 && exists last :: Live(before, last) && IsLast(before, last) && after == Erased(Reset(before, last, n))
  }

  ghost predicate TeardownRun(objects: Objects, n: nat, states: seq<Objects>) {
    && |states| > 0 && states[0] == objects
    && forall k :: 0 <= k < |states| - 1 ==> Round(states[k], n, states[k + 1])
  }

  ghost predicate HasEmptyPath(objects: Objects) {
    exists id :: Live(objects, id) && objects[id].value.path == ""
  }

  /** Erasing what has been emptied, if the root and all empty paths are spared. */
  lemma ErasedKeeps(before: Objects, middle: Objects, n: nat)
    requires Contained(before, n) && Emptied(before, middle) && Spared(before, middle)
    ensures Contained(Erased(middle), n) && (HasEmptyPath(before) <==> HasEmptyPath(Erased(middle)))
    ensures before != middle ==> Erased(middle).Keys < before.Keys
  {
    var after := Erased(middle);
    assert Live(after, ROOT_ID);
    if HasEmptyPath(before) {
      var id :| Live(before, id) && before[id].value.path == "";
      assert Live(middle, id) && Live(after, id);
    }
    if HasEmptyPath(after) {
      var id :| Live(after, id) && after[id].value.path == "";
      assert Live(before, id);
    }
    if before != middle {
      var id :| id in before && before[id] != middle[id];
      assert id !in after;
    }
  }

  /** A round keeps the container in order; an empty path stays, and where there is none the round makes progress. */
  lemma RoundKeeps(before: Objects, n: nat, after: Objects)
    requires Contained(before, n) && Round(before, n, after)
    ensures Contained(after, n) && (HasEmptyPath(before) <==> HasEmptyPath(after))
    ensures !HasEmptyPath(before) ==> after.Keys < before.Keys
  {
    hide Reset, Erased, Emptied, Spared;
    var last :| Live(before, last) && IsLast(before, last) && after == Erased(Reset(before, last, n));
    ResetSpares(before, last, n);
    ErasedKeeps(before, Reset(before, last, n), n);
    if !HasEmptyPath(before) {
      YoungestIsNotRoot(before, last);
      ResetProgresses(before, last, n);
    }
  }

  lemma {:induction false} EmptyPathThroughout(objects: Objects, n: nat, states: seq<Objects>)
    requires Contained(objects, n) && HasEmptyPath(objects) && TeardownRun(objects, n, states)
    ensures Contained(states[|states| - 1], n) && HasEmptyPath(states[|states| - 1])
    decreases |states|
  {
    if |states| > 1 {
      hide Round, Contained, HasEmptyPath;
      EmptyPathThroughout(objects, n, states[..|states| - 1]);
      assert Round(states[|states| - 2], n, states[|states| - 1]);
      RoundKeeps(states[|states| - 2], n, states[|states| - 1]);
    }
  }

  lemma {:induction false} TeardownEnds(objects: Objects, n: nat) returns (states: seq<Objects>)
    requires Contained(objects, n) && !HasEmptyPath(objects)
    ensures TeardownRun(objects, n, states) && |states[|states| - 1]| == 1
    decreases objects.Keys
  {
    if |objects| == 1 {
      return [objects];
    }
    assert ROOT_ID in objects.Keys;
    var last := YoungestExists(objects.Keys);
    var after := Erased(Reset(objects, last, n));
    NotEmpty(objects, ROOT_ID);
    assert IsLast(objects, last) && Round(objects, n, after);
    RoundKeeps(objects, n, after);
    var rest := TeardownEnds(after, n);
    states := [objects] + rest;
    hide Round, Contained, HasEmptyPath;
    forall k | 0 <= k < |states| - 1
      ensures Round(states[k], n, states[k + 1])
    {
      if k > 0 {
        assert Round(rest[k - 1], n, rest[k]);
      }
    }
  }

  lemma NotEmpty(objects: Objects, id: nat)
    requires id in objects
    ensures |objects| >= 1
  {
    assert id in objects.Keys && |objects.Keys| >= 1;
  }

  /** The teardown comes to an end, with the root alone, exactly if no object has the empty path. */
  lemma TeardownEndsIffNoEmptyPath(objects: Objects, n: nat)
    requires Contained(objects, n)
    ensures !HasEmptyPath(objects) <==> exists states :: TeardownRun(objects, n, states) && |states[|states| - 1]| == 1
  {
    hide Contained, Round;
    if !HasEmptyPath(objects) {
      var states := TeardownEnds(objects, n);
    } else {
      forall states | TeardownRun(objects, n, states)
        ensures |states| > 0 && |states[|states| - 1]| > 1
      {
        EmptyPathThroughout(objects, n, states);
        TwoAreLeft(states[|states| - 1], n);
      }
    }
  }

  lemma TwoAreLeft(objects: Objects, n: nat)
    requires Contained(objects, n) && HasEmptyPath(objects)
    ensures |objects| > 1
  {
    var id :| Live(objects, id) && objects[id].value.path == "";
    assert {id, ROOT_ID} <= objects.Keys && id != ROOT_ID;
    Smaller({id, ROOT_ID}, objects.Keys);
  }

  lemma {:induction false} Smaller(some: set<nat>, all: set<nat>)
    requires some <= all
    ensures |some| <= |all|
    decreases some
  {
    if some != {} {
      var id :| id in some;
      Smaller(some - {id}, all - {id});
    }
  }
}
