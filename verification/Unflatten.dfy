/**
 Building a nested object from flat parameters with dotted names, by descending into a graph of
 objects and changing it in place.
 */
module Unflatten {
  import opened Wrappers
  import opened DottedPaths

  /** A property holds a text or a reference to an object of the graph. */
  datatype Value = Str(text: string) | Ref(at: nat)

  type Objects = seq<map<string, Value>>

  type Path = seq<string>

  /** One property access: only objects of the graph have properties. */
  function Follow(objects: Objects, from: Option<Value>, key: string): Option<Value> {
    if from.Some? && from.value.Ref? && from.value.at < |objects| && key in objects[from.value.at]
    then Some(objects[from.value.at][key]) else None
  }

  /** Follows property names from the root object, which is number 0. */
  function Walk(objects: Objects, path: Path): Option<Value> {
    if path == [] then Some(Ref(0)) else Follow(objects, Walk(objects, path[..|path| - 1]), path[|path| - 1])
  }

  datatype Kind = Missing | Object | Leaf(text: string)

  /** What a path leads to, as a reader of the finished object sees it. */
  function Look(objects: Objects, path: Path): Kind {
    match Walk(objects, path)
    case None => Missing
    case Some(Str(text)) => Leaf(text)
    case Some(Ref(_)) => Object
  }

  /** Every reachable object is in the graph, and by one path only. */
  ghost predicate IsTree(objects: Objects) {
    && |objects| >= 1
    && (forall p :: Walk(objects, p).Some? && Walk(objects, p).value.Ref? ==> Walk(objects, p).value.at < |objects|)
    && (forall p, q :: Walk(objects, p).Some? && Walk(objects, p).value.Ref? && Walk(objects, p) == Walk(objects, q)
          ==> p == q)
  }

  /** Object `at` gets property `key`, and the graph possibly a new, empty object at its end. */
  function Assigned(objects: Objects, at: nat, key: string, value: Value, grow: bool): Objects
    requires at < |objects|
  {
    objects[at := objects[at][key := value]] + if grow then [map[]] else []
  }

  lemma WalkSnoc(objects: Objects, path: Path, key: string)
    ensures Walk(objects, path + [key]) == Follow(objects, Walk(objects, path), key)
  {
    assert (path + [key])[..|path + [key]| - 1] == path;
  }

  lemma PrefixSnoc(p: Path, path: Path, key: string)
    ensures p <= path + [key] <==> p <= path || p == path + [key]
  {
    if p <= path + [key] && |p| <= |path| {
      assert p == (path + [key])[..|p|] == path[..|p|];
    }
  }

  /** What `Walk` gives after an assignment at `grown`. */
  function WalkAfter(objects: Objects, grown: Path, value: Value, q: Path): Option<Value> {
    if q == grown then Some(value) else if grown <= q then None else Walk(objects, q)
  }

  /** What was assigned is a text or a new, empty object: it has no properties yet. */
  lemma NothingBelowNew(objects: Objects, at: nat, key: string, value: Value, grow: bool, last: string)
    requires at < |objects| && if grow then value == Ref(|objects|) else value.Str?
    ensures Follow(Assigned(objects, at, key, value, grow), Some(value), last) == None
  {
  }

  /** Property accesses other than the assigned one see what they saw before. */
  lemma OtherAccess(objects: Objects, at: nat, key: string, value: Value, grow: bool, from: Option<Value>, last: string)
    requires at < |objects| && (from.Some? && from.value.Ref? ==> from.value.at < |objects|)
    requires from != Some(Ref(at)) || last != key
    ensures Follow(Assigned(objects, at, key, value, grow), from, last) == Follow(objects, from, last)
  {
  }

  lemma AssignedAccess(objects: Objects, at: nat, key: string, value: Value, grow: bool)
    requires at < |objects|
    ensures Follow(Assigned(objects, at, key, value, grow), Some(Ref(at)), key) == Some(value)
  {
  }

  lemma SnocIs(q: Path, last: string, path: Path, key: string)
    ensures q + [last] == path + [key] <==> q == path && last == key
  {
    if q + [last] == path + [key] {
      assert q == (q + [last])[..|q|] && path == (path + [key])[..|path|];
      assert (q + [last])[|q|] == (path + [key])[|path|];
    }
  }

  lemma AssignmentStep(objects: Objects, path: Path, at: nat, key: string, value: Value, grow: bool, q: Path,
                       last: string)
    requires IsTree(objects) && at < |objects| && Walk(objects, path) == Some(Ref(at))
    requires if grow then value == Ref(|objects|) else value.Str?
    requires var after := Assigned(objects, at, key, value, grow);
             Walk(after, q) == WalkAfter(objects, path + [key], value, q)
    ensures var after := Assigned(objects, at, key, value, grow);
            Walk(after, q + [last]) == WalkAfter(objects, path + [key], value, q + [last])
  {
    var after, grown := Assigned(objects, at, key, value, grow), path + [key];
    WalkSnoc(after, q, last);
    WalkSnoc(objects, q, last);
    PrefixSnoc(grown, q, last);
    SnocIs(q, last, path, key);
    if grown <= q {
      NothingBelowNew(objects, at, key, value, grow, last);
    } else if q + [last] == grown {
      AssignedAccess(objects, at, key, value, grow);
    } else {
      OtherAccess(objects, at, key, value, grow, Walk(objects, q), last);
    }
  }

  /** An assignment changes what lies at and below one path, and nothing else. */
  lemma {:induction false} AssignmentIsLocal(objects: Objects, path: Path, at: nat, key: string, value: Value,
                                             grow: bool, q: Path)
    requires IsTree(objects) && at < |objects| && Walk(objects, path) == Some(Ref(at))
    requires if grow then value == Ref(|objects|) else value.Str?
    ensures Walk(Assigned(objects, at, key, value, grow), q) == WalkAfter(objects, path + [key], value, q)
  {
    if q != [] {
      var n := |q| - 1;
      AssignmentIsLocal(objects, path, at, key, value, grow, q[..n]);
      AssignmentStep(objects, path, at, key, value, grow, q[..n], q[n]);
      assert q == q[..n] + [q[n]];
    }
  }

  lemma AssignmentKeepsTree(objects: Objects, path: Path, at: nat, key: string, value: Value, grow: bool)
    requires IsTree(objects) && at < |objects| && Walk(objects, path) == Some(Ref(at))
    requires if grow then value == Ref(|objects|) else value.Str?
    ensures IsTree(Assigned(objects, at, key, value, grow))
  {
    var after := Assigned(objects, at, key, value, grow);
    forall p ensures Walk(after, p) == WalkAfter(objects, path + [key], value, p) {
      AssignmentIsLocal(objects, path, at, key, value, grow, p);
    }
  }

  /** The same for all paths at once, as seen by a reader. */
  lemma AssignmentIsSeen(objects: Objects, path: Path, at: nat, key: string, value: Value, grow: bool)
    requires IsTree(objects) && at < |objects| && Walk(objects, path) == Some(Ref(at))
    requires if grow then value == Ref(|objects|) else value.Str?
    ensures var after := Assigned(objects, at, key, value, grow);
            IsTree(after) && Walk(after, path + [key]) == Some(value)
            && forall q :: Look(after, q) == if q == path + [key] then (if grow then Object else Leaf(value.text))
                                             else if path + [key] <= q then Missing else Look(objects, q)
  {
    var after := Assigned(objects, at, key, value, grow);
    AssignmentKeepsTree(objects, path, at, key, value, grow);
    AssignmentIsLocal(objects, path, at, key, value, grow, path + [key]);
    forall q ensures Look(after, q) == if q == path + [key] then (if grow then Object else Leaf(value.text))
                                       else if path + [key] <= q then Missing else Look(objects, q) {
      AssignmentIsLocal(objects, path, at, key, value, grow, q);
    }
  }

  /** Below a path that leads to no object there is nothing. */
  lemma {:induction false} NothingBelow(objects: Objects, path: Path, q: Path)
    requires Look(objects, path) != Object && path < q
    ensures Look(objects, q) == Missing
  {
    var n := |q| - 1;
    if q[..n] != path {
      NothingBelow(objects, path, q[..n]);
    }
  }

  /** Creating an object where the descent finds none turns that path into an object and changes nothing else. */
  lemma CreatesOnPath(objects: Objects, path: Path, at: nat, key: string)
    requires IsTree(objects) && at < |objects| && Walk(objects, path) == Some(Ref(at))
    requires Look(objects, path + [key]) != Object
    ensures var after := Assigned(objects, at, key, Ref(|objects|), true);
            IsTree(after) && Walk(after, path + [key]) == Some(Ref(|objects|))
            && forall q :: Look(after, q) == if q == path + [key] then Object else Look(objects, q)
  {
    var after, grown := Assigned(objects, at, key, Ref(|objects|), true), path + [key];
    AssignmentIsSeen(objects, path, at, key, Ref(|objects|), true);
    forall q ensures Look(after, q) == if q == grown then Object else Look(objects, q) {
      if grown < q {
        NothingBelow(objects, grown, q);
      }
    }
  }

  // ---------------------------------------------------------------- parameters

  datatype Param = Param(name: string, value: string)

  /** The object the loop starts from: empty, or with an empty `filter` object. */
  function Seed(withFilter: bool, q: Path): Kind {
    if q == [] || (withFilter && q == ["filter"]) then Object else Missing
  }

  /** What the loop is meant to make of its parameters, the last one first. */
  function Expected(withFilter: bool, params: seq<Param>, q: Path): Kind {
    if params == [] then Seed(withFilter, q)
    else
      var last := params[|params| - 1];
      var path := Split(last.name);
      if q == path then Leaf(last.value)
      else if path <= q then Missing
      else if q <= path then Object
      else Expected(withFilter, params[..|params| - 1], q)
  }

  /** A non-empty text stops a descent: its properties cannot be assigned. An empty one counts as nothing there. */
  predicate Stops(kind: Kind) {
    kind.Leaf? && kind.text != ""
  }

  predicate Blocked(objects: Objects, path: Path) {
    exists j :: 0 < j < |path| && Stops(Look(objects, path[..j]))
  }

  /** The same in terms of the parameters handled before. */
  predicate BlockedBy(withFilter: bool, params: seq<Param>, path: Path) {
    exists j :: 0 < j < |path| && Stops(Expected(withFilter, params, path[..j]))
  }

  /** No parameter's descent is blocked by the ones before it; otherwise assigning a property of a text throws. */
  predicate Accepted(withFilter: bool, params: seq<Param>) {
    params == [] ||
    (var n := |params| - 1;
     Accepted(withFilter, params[..n]) &&
     !BlockedBy(withFilter, params[..n], Split(params[n].name)))
  }

  ghost predicate Shows(objects: Objects, withFilter: bool, params: seq<Param>) {
    forall q: Path :: Look(objects, q) == Expected(withFilter, params, q)
  }

  /** What a reader sees once the parameter has been put on top of the given objects. */
  function LookWith(objects: Objects, keys: Path, value: string, q: Path): Kind {
    if q == keys then Leaf(value)
    else if keys <= q then Missing
    else if q <= keys then Object
    else Look(objects, q)
  }

  /** Creating what a descent along `path` needs: its beginnings have become objects, and nothing else has changed. */
  ghost predicate OpenedUpTo(before: Objects, now: Objects, path: Path) {
    forall q :: Look(now, q) == if q <= path then Object else Look(before, q)
  }

  ghost predicate UnstoppedUpTo(before: Objects, keys: Path, i: nat)
    requires i <= |keys|
  {
    forall j :: 0 < j <= i ==> !Stops(Look(before, keys[..j]))
  }

  /**
   After `i` keys: the cursor is at their object, only their paths have become objects, and none of
   them stopped it.
   */
  ghost predicate Descended(before: Objects, now: Objects, keys: Path, i: nat, at: nat) {
    && i < |keys| && IsTree(now) && at < |now| && Walk(now, keys[..i]) == Some(Ref(at))
    && OpenedUpTo(before, now, keys[..i]) && UnstoppedUpTo(before, keys, i)
  }

  lemma NextLook(before: Objects, now: Objects, keys: Path, i: nat, at: nat)
    requires Descended(before, now, keys, i, at)
    ensures keys[..i + 1] == keys[..i] + [keys[i]] && Walk(now, keys[..i + 1]) == Follow(now, Some(Ref(at)), keys[i])
    ensures Look(now, keys[..i + 1]) == Look(before, keys[..i + 1])
  {
    assert keys[..i + 1] == keys[..i] + [keys[i]];
    WalkSnoc(now, keys[..i], keys[i]);
  }

  lemma StopsAtText(before: Objects, now: Objects, keys: Path, i: nat, at: nat)
    requires Descended(before, now, keys, i, at) && i < |keys| - 1
    requires keys[i] in now[at] && now[at][keys[i]] != Str("") && now[at][keys[i]].Str?
    ensures Blocked(before, keys)
  {
    NextLook(before, now, keys, i, at);
    assert Stops(Look(before, keys[..i + 1]));
  }

  lemma OpenedFurther(before: Objects, now: Objects, later: Objects, path: Path, key: string)
    requires OpenedUpTo(before, now, path)
    requires forall q :: Look(later, q) == if q == path + [key] then Object else Look(now, q)
    ensures OpenedUpTo(before, later, path + [key])
  {
    forall q ensures Look(later, q) == if q <= path + [key] then Object else Look(before, q) {
      PrefixSnoc(q, path, key);
    }
  }

  lemma UnstoppedFurther(before: Objects, keys: Path, i: nat)
    requires i < |keys| && UnstoppedUpTo(before, keys, i) && !Stops(Look(before, keys[..i + 1]))
    ensures UnstoppedUpTo(before, keys, i + 1)
  {
  }

  /** One more key of the descent has become, or was already, an object. */
  lemma DescendsIntoOld(before: Objects, now: Objects, keys: Path, i: nat, at: nat)
    requires Descended(before, now, keys, i, at) && i < |keys| - 1
    requires keys[i] in now[at] && now[at][keys[i]].Ref?
    ensures Descended(before, now, keys, i + 1, now[at][keys[i]].at)
  {
    NextLook(before, now, keys, i, at);
    OpenedFurther(before, now, now, keys[..i], keys[i]);
    UnstoppedFurther(before, keys, i);
  }

  lemma DescendsIntoNew(before: Objects, now: Objects, keys: Path, i: nat, at: nat)
    requires Descended(before, now, keys, i, at) && i < |keys| - 1
    requires keys[i] in now[at] ==> now[at][keys[i]] == Str("")
    ensures Descended(before, Assigned(now, at, keys[i], Ref(|now|), true), keys, i + 1, |now|)
  {
    NextLook(before, now, keys, i, at);
    CreatesOnPath(now, keys[..i], at, keys[i]);
    OpenedFurther(before, now, Assigned(now, at, keys[i], Ref(|now|), true), keys[..i], keys[i]);
    UnstoppedFurther(before, keys, i);
  }

  lemma AssignsLast(before: Objects, now: Objects, keys: Path, at: nat, value: string)
    requires keys != [] && Descended(before, now, keys, |keys| - 1, at)
    ensures var later := Assigned(now, at, keys[|keys| - 1], Str(value), false);
            IsTree(later) && forall q :: Look(later, q) == LookWith(before, keys, value, q)
    ensures !Blocked(before, keys)
  {
    var n := |keys| - 1;
    assert keys == keys[..n] + [keys[n]];
    AssignmentIsSeen(now, keys[..n], at, keys[n], Str(value), false);
    forall q ensures Look(Assigned(now, at, keys[n], Str(value), false), q) == LookWith(before, keys, value, q) {
      PrefixSnoc(q, keys[..n], keys[n]);
    }
  }

  lemma SameBlocks(objects: Objects, withFilter: bool, params: seq<Param>, path: Path)
    requires Shows(objects, withFilter, params)
    ensures Blocked(objects, path) <==> BlockedBy(withFilter, params, path)
  {
    assert forall j :: 0 < j < |path| ==> Look(objects, path[..j]) == Expected(withFilter, params, path[..j]);
  }

  lemma {:induction false} AcceptedPrefix(withFilter: bool, params: seq<Param>, n: nat)
    requires n <= |params| && Accepted(withFilter, params)
    ensures Accepted(withFilter, params[..n])
    decreases |params|
  {
    if n == |params| {
      assert params[..n] == params;
    } else {
      AcceptedPrefix(withFilter, params[..|params| - 1], n);
      assert params[..|params| - 1][..n] == params[..n];
    }
  }

  /** What one more parameter does to a graph that shows the ones before it. */
  lemma NextShows(before: Objects, now: Objects, withFilter: bool, params: seq<Param>, n: nat)
    requires n < |params| && Shows(before, withFilter, params[..n]) && Accepted(withFilter, params[..n])
    requires !Blocked(before, Split(params[n].name))
    requires forall q :: Look(now, q) == LookWith(before, Split(params[n].name), params[n].value, q)
    ensures Accepted(withFilter, params[..n + 1]) && Shows(now, withFilter, params[..n + 1])
  {
    assert params[..n + 1][..n] == params[..n];
    SameBlocks(before, withFilter, params[..n], Split(params[n].name));
  }

  lemma NextStops(before: Objects, withFilter: bool, params: seq<Param>, n: nat)
    requires n < |params| && Shows(before, withFilter, params[..n]) && Blocked(before, Split(params[n].name))
    ensures !Accepted(withFilter, params)
  {
    assert params[..n + 1][..n] == params[..n];
    SameBlocks(before, withFilter, params[..n], Split(params[n].name));
    if Accepted(withFilter, params) {
      AcceptedPrefix(withFilter, params, n + 1);
    }
  }

  lemma {:induction false} EmptyWalk(q: Path)
    ensures Walk([map[]], q) == if q == [] then Some(Ref(0)) else None
  {
    if q != [] {
      EmptyWalk(q[..|q| - 1]);
    }
  }

  lemma SeedIsTree(withFilter: bool)
    ensures var objects := if withFilter then [map["filter" := Ref(1)], map[]] else [map[]];
            IsTree(objects) && Shows(objects, withFilter, [])
  {
    var empty: Objects := [map[]];
    forall q: Path ensures Walk(empty, q) == if q == [] then Some(Ref(0)) else None {
      EmptyWalk(q);
    }
    if withFilter {
      AssignmentKeepsTree(empty, [], 0, "filter", Ref(1), true);
      assert Assigned(empty, 0, "filter", Ref(1), true) == [map["filter" := Ref(1)], map[]];
      forall q: Path ensures Look([map["filter" := Ref(1)], map[]], q) == Seed(true, q) {
        AssignmentIsLocal(empty, [], 0, "filter", Ref(1), true, q);
      }
    }
  }

  class ObjectGraph {
    var objects: Objects

    constructor (withFilter: bool)
      ensures IsTree(objects) && Shows(objects, withFilter, [])
      ensures forall q: Path ::
                Look(objects, q) == if q == [] || (withFilter && q == ["filter"]) then Object else Missing
    {
      objects := if withFilter then [map["filter" := Ref(1)], map[]] else [map[]];
      new;
      SeedIsTree(withFilter);
    }

    /** The loop over the parameters. */
    method Build(withFilter: bool, params: seq<Param>) returns (ok: bool)
      requires IsTree(objects) && Shows(objects, withFilter, [])
      modifies this
      ensures ok <==> Accepted(withFilter, params)
      ensures ok ==> IsTree(objects) && Shows(objects, withFilter, params)
    {
      var n := 0;
      while n < |params|
        invariant 0 <= n <= |params| && Accepted(withFilter, params[..n])
        invariant IsTree(objects) && Shows(objects, withFilter, params[..n])
      {
        ghost var before := objects;
        var keys := Split(params[n].name);
        var put := Put(keys, params[n].value);
        if !put {
          NextStops(before, withFilter, params, n);
          return false;
        }
        NextShows(before, objects, withFilter, params, n);
        n := n + 1;
      }
      assert params[..n] == params;
      return true;
    }

    /** One parameter: descend, creating objects where there is nothing, then assign the last key. */
    method Put(keys: Path, value: string) returns (ok: bool)
      requires IsTree(objects) && keys != []
      modifies this
      ensures ok <==> !Blocked(old(objects), keys)
      ensures ok ==> IsTree(objects) && forall q :: Look(objects, q) == LookWith(old(objects), keys, value, q)
      ensures ok <==> forall j :: 0 < j < |keys| ==>
                        !Look(old(objects), keys[..j]).Leaf? || Look(old(objects), keys[..j]) == Leaf("")
      ensures ok ==> forall q :: Look(objects, q) == if q == keys then Leaf(value)
                                                     else if keys < q then Missing
                                                     else if q < keys then Object
                                                     else Look(old(objects), q)
    {
      ghost var before := objects;
      var obj: nat, i := 0, 0;
      while i < |keys| - 1
        invariant 0 <= i < |keys| && Descended(before, objects, keys, i, obj)
      {
        var key := keys[i];
        if key in objects[obj] && objects[obj][key] != Str("") {
          if objects[obj][key].Str? {
            StopsAtText(before, objects, keys, i, obj);
            return false;
          }
          DescendsIntoOld(before, objects, keys, i, obj);
          obj := objects[obj][key].at;
        } else {
          DescendsIntoNew(before, objects, keys, i, obj);
          objects := Assigned(objects, obj, key, Ref(|objects|), true);
          obj := |objects| - 1;
        }
        i := i + 1;
      }
      AssignsLast(before, objects, keys, obj, value);
      objects := Assigned(objects, obj, keys[i], Str(value), false);
      return true;
    }
  }
}
