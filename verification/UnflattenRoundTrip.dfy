/**
 What the object built from dotted parameters is worth: exactly when every parameter can be
 read back at its path, and that the result then depends on the parameters but not on their
 order.
 */
module UnflattenRoundTrip {
  import opened DottedPaths
  import opened Unflatten

  /** The parameters of one request are the properties of an object, so their names differ. */
  ghost predicate DistinctNames(params: seq<Param>) {
    forall i, j :: 0 <= i < j < |params| ==> params[i].name != params[j].name
  }

  /** No name continues another one with a dot. */
  ghost predicate PrefixFree(params: seq<Param>) {
    forall i, j :: 0 <= i < |params| && 0 <= j < |params| ==> !(params[i].name + "." <= params[j].name)
  }

  ghost predicate ReadsBack(withFilter: bool, params: seq<Param>) {
    forall i :: 0 <= i < |params| ==> Expected(withFilter, params, Split(params[i].name)) == Leaf(params[i].value)
  }

  ghost predicate PathsApart(params: seq<Param>) {
    forall i, j :: 0 <= i < |params| && 0 <= j < |params| && i != j
        ==> !(Split(params[i].name) <= Split(params[j].name))
  }

  lemma ApartIff(params: seq<Param>)
    requires DistinctNames(params)
    ensures PathsApart(params) <==> PrefixFree(params)
  {
    forall i, j | 0 <= i < |params| && 0 <= j < |params|
      ensures params[i].name + "." <= params[j].name <==> Split(params[i].name) < Split(params[j].name)
      ensures Split(params[i].name) == Split(params[j].name) <==> i == j
    {
      PrefixIffDotted(params[i].name, params[j].name);
      SplitInjective(params[i].name, params[j].name);
    }
  }

  /** Every leaf comes from a parameter with that path and that value, prefix-free or not. */
  lemma {:induction false} LeavesAreParams(withFilter: bool, params: seq<Param>, q: Path)
    requires Expected(withFilter, params, q).Leaf?
    ensures exists i :: 0 <= i < |params| && Split(params[i].name) == q
                        && params[i].value == Expected(withFilter, params, q).text
  {
    var n := |params| - 1;
    if q != Split(params[n].name) {
      LeavesAreParams(withFilter, params[..n], q);
      var i :| 0 <= i < n && Split(params[..n][i].name) == q
               && params[..n][i].value == Expected(withFilter, params, q).text;
      assert params[i] == params[..n][i];
    }
  }

  /** Whatever is there is reached through objects. */
  lemma {:induction false} ReachedThroughObjects(withFilter: bool, params: seq<Param>, p: Path, q: Path)
    requires Expected(withFilter, params, q) != Missing && p < q
    ensures Expected(withFilter, params, p) == Object
  {
    if params != [] {
      var last := Split(params[|params| - 1].name);
      if q <= last {
        assert p == q[..|p|] == last[..|p|];
      } else {
        ReachedThroughObjects(withFilter, params[..|params| - 1], p, q);
      }
    }
  }

  lemma ApartPrefix(params: seq<Param>)
    requires params != [] && PathsApart(params)
    ensures PathsApart(params[..|params| - 1])
  {
    assert forall i :: 0 <= i < |params| - 1 ==> params[..|params| - 1][i] == params[i];
  }

  /** A leaf met on the way down is an earlier parameter whose path begins this one's. */
  lemma LeafOnTheWay(withFilter: bool, params: seq<Param>, j: nat) returns (i: nat)
    requires params != [] && j < |Split(params[|params| - 1].name)|
    requires Expected(withFilter, params[..|params| - 1], Split(params[|params| - 1].name)[..j]).Leaf?
    ensures i < |params| - 1 && Split(params[i].name) <= Split(params[|params| - 1].name)
  {
    var n := |params| - 1;
    var q := Split(params[n].name)[..j];
    LeavesAreParams(withFilter, params[..n], q);
    i :| 0 <= i < n && Split(params[..n][i].name) == q;
    assert params[..n][i] == params[i];
  }

  lemma ApartNotBlocked(withFilter: bool, params: seq<Param>)
    requires params != [] && PathsApart(params)
    ensures var n := |params| - 1; !BlockedBy(withFilter, params[..n], Split(params[n].name))
  {
    var n := |params| - 1;
    var path := Split(params[n].name);
    forall j | 0 < j < |path| ensures !Expected(withFilter, params[..n], path[..j]).Leaf? {
      if Expected(withFilter, params[..n], path[..j]).Leaf? {
        var i := LeafOnTheWay(withFilter, params, j);
        assert false;
      }
    }
  }

  lemma {:induction false} ApartReadsBack(withFilter: bool, params: seq<Param>)
    requires PathsApart(params)
    ensures ReadsBack(withFilter, params) && Accepted(withFilter, params)
  {
    if params != [] {
      var n := |params| - 1;
      ApartPrefix(params);
      ApartReadsBack(withFilter, params[..n]);
      forall i | 0 <= i < |params|
          ensures Expected(withFilter, params, Split(params[i].name)) == Leaf(params[i].value) {
        if i < n {
          assert params[..n][i] == params[i];
        }
      }
      ApartNotBlocked(withFilter, params);
    }
  }

  /**
   The build succeeds with every parameter readable at its dotted path if and only if no
   parameter name continues another one with a dot.
   */
  lemma RoundTripIffPrefixFree(withFilter: bool, params: seq<Param>)
    requires DistinctNames(params)
    ensures Accepted(withFilter, params) && ReadsBack(withFilter, params) <==> PrefixFree(params)
  {
    ApartIff(params);
    if PathsApart(params) {
      ApartReadsBack(withFilter, params);
    } else if ReadsBack(withFilter, params) {
      var i, j :| 0 <= i < |params| && 0 <= j < |params| && i != j && Split(params[i].name) <= Split(params[j].name);
      SplitInjective(params[i].name, params[j].name);
      ReachedThroughObjects(withFilter, params, Split(params[i].name), Split(params[j].name));
      assert false;
    }
  }

  ghost predicate IsParam(params: seq<Param>, q: Path) {
    exists i :: 0 <= i < |params| && Split(params[i].name) == q
  }

  ghost predicate LeadsToParam(params: seq<Param>, q: Path) {
    exists i :: 0 <= i < |params| && q < Split(params[i].name)
  }

  lemma WithLast(params: seq<Param>, q: Path)
    requires params != []
    ensures var n := |params| - 1;
            (IsParam(params, q) <==> IsParam(params[..n], q) || Split(params[n].name) == q)
            && (LeadsToParam(params, q) <==> LeadsToParam(params[..n], q) || q < Split(params[n].name))
  {
    var n := |params| - 1;
    assert forall i :: 0 <= i < n ==> params[..n][i] == params[i];
    if IsParam(params[..n], q) {
      var i :| 0 <= i < n && Split(params[..n][i].name) == q;
      assert Split(params[i].name) == q;
    }
    if LeadsToParam(params[..n], q) {
      var i :| 0 <= i < n && q < Split(params[..n][i].name);
      assert q < Split(params[i].name);
    }
  }

  lemma NothingPastAParam(params: seq<Param>, q: Path)
    requires PathsApart(params) && params != [] && Split(params[|params| - 1].name) <= q
    ensures !LeadsToParam(params[..|params| - 1], q)
  {
  }

  /** The objects are exactly the proper beginnings of parameter paths and the seeded objects no parameter replaces. */
  lemma {:induction false} ObjectsOfPrefixFree(withFilter: bool, params: seq<Param>, q: Path)
    requires PathsApart(params)
    ensures Expected(withFilter, params, q) == Object
       <==> LeadsToParam(params, q) || (Seed(withFilter, q) == Object && !IsParam(params, q))
  {
    if params != [] {
      ApartPrefix(params);
      ObjectsOfPrefixFree(withFilter, params[..|params| - 1], q);
      WithLast(params, q);
      if Split(params[|params| - 1].name) <= q {
        NothingPastAParam(params, q);
      }
    }
  }

  lemma SameOrLess(withFilter: bool, params: seq<Param>, params': seq<Param>, q: Path)
    requires PathsApart(params) && PathsApart(params') && forall p :: p in params ==> p in params'
    ensures Expected(withFilter, params, q).Leaf?
            ==> Expected(withFilter, params', q) == Expected(withFilter, params, q)
    ensures IsParam(params, q) ==> IsParam(params', q)
    ensures LeadsToParam(params, q) ==> LeadsToParam(params', q)
  {
    if Expected(withFilter, params, q).Leaf? {
      LeavesAreParams(withFilter, params, q);
      var i :| 0 <= i < |params| && Split(params[i].name) == q
               && params[i].value == Expected(withFilter, params, q).text;
      assert params[i] in params';
      var j :| 0 <= j < |params'| && params'[j] == params[i];
      ApartReadsBack(withFilter, params');
      assert Expected(withFilter, params', Split(params'[j].name)) == Leaf(params'[j].value);
    }
    if i :| 0 <= i < |params| && Split(params[i].name) == q {
      assert params[i] in params';
      var j :| 0 <= j < |params'| && params'[j] == params[i];
      assert Split(params'[j].name) == q;
    }
    if i :| 0 <= i < |params| && q < Split(params[i].name) {
      assert params[i] in params';
      var j :| 0 <= j < |params'| && params'[j] == params[i];
      assert q < Split(params'[j].name);
    }
  }

  lemma SamePrefixFree(params: seq<Param>, params': seq<Param>)
    requires PrefixFree(params) && forall p :: p in params' ==> p in params
    ensures PrefixFree(params')
  {
    forall i, j | 0 <= i < |params'| && 0 <= j < |params'| ensures !(params'[i].name + "." <= params'[j].name) {
      assert params'[i] in params && params'[j] in params;
    }
  }

  /** For prefix-free names the built object, path by path, does not depend on the order of the parameters. */
  lemma OrderDoesNotMatter(withFilter: bool, params: seq<Param>, params': seq<Param>, q: Path)
    requires DistinctNames(params) && DistinctNames(params') && PrefixFree(params)
    requires forall p :: p in params <==> p in params'
    ensures Accepted(withFilter, params') && Expected(withFilter, params', q) == Expected(withFilter, params, q)
  {
    ApartIff(params);
    SamePrefixFree(params, params');
    ApartIff(params');
    ApartReadsBack(withFilter, params');
    SameOrLess(withFilter, params, params', q);
    SameOrLess(withFilter, params', params, q);
    ObjectsOfPrefixFree(withFilter, params, q);
    ObjectsOfPrefixFree(withFilter, params', q);
  }

  /**
   Without that, the order decides which parameter is silently lost, or whether there is an error: the
   outer one is lost when it comes first and is empty, stops the inner one when it comes first and is
   not, and takes the place of the inner one when it comes last.
   */
  lemma OrderMattersOtherwise(withFilter: bool, inner: string, outer: string)
    ensures var a, b := Param("a", outer), Param("a.b", inner);
            (Accepted(withFilter, [a] + [b]) <==> outer == "")
            && Expected(withFilter, [a] + [b], ["a"]) == Object
            && Expected(withFilter, [a] + [b], ["a", "b"]) == Leaf(inner)
            && Accepted(withFilter, [b] + [a])
            && Expected(withFilter, [b] + [a], ["a"]) == Leaf(outer)
            && Expected(withFilter, [b] + [a], ["a", "b"]) == Missing
  {
    var a, b := Param("a", outer), Param("a.b", inner);
    SplitDotless("a");
    SplitDotless("b");
    SplitAtDot("a", "b");
    assert "a" + "." + "b" == "a.b";
    assert Split("a.b") == ["a", "b"];
    assert ([a] + [b])[..1] == [a] && ([b] + [a])[..1] == [b];
    assert [a][..0] == [] && [b][..0] == [];
    assert ["a", "b"][..1] == ["a"];
    assert Expected(withFilter, [a], ["a"]) == Leaf(outer);
    assert Expected(withFilter, [a], ["a", "b"][..1]) == Leaf(outer);
    assert BlockedBy(withFilter, [a], ["a", "b"]) <==> outer != "";
    assert !BlockedBy(withFilter, [], ["a"]);
    assert Accepted(withFilter, [a]);
    assert !BlockedBy(withFilter, [], ["a", "b"]);
    assert !BlockedBy(withFilter, [b], ["a"]);
    assert Accepted(withFilter, [b]);
  }
}
