/**
  Greedy pruning of golden automata: automata are removed, closest pairs
  first, while the error bound of the removed set stays within a maximum.
  `dist` maps ordered pairs of automata to their distance.
 */
module Distance {

  /** A dictionary item: a pair of points and their distance. */
  type Edge<P> = ((P, P), real)

  predicate SortedByValue<P>(s: seq<Edge<P>>) {
    forall i, j :: 0 <= i < j < |s| ==> s[i].1 <= s[j].1
  }

  /** Inserting before the first element that is not smaller keeps equal
      distances in their original order, as Python's stable `sorted` does. */
  function InsertByValue<P>(x: Edge<P>, s: seq<Edge<P>>): (r: seq<Edge<P>>)
    ensures |r| == |s| + 1
  {
    if s == [] || x.1 <= s[0].1 then [x] + s else [s[0]] + InsertByValue(x, s[1..])
  }

  /** `sorted(dist.items(), key=lambda x: x[1])`. */
  function SortByValue<P>(s: seq<Edge<P>>): (r: seq<Edge<P>>)
    ensures |r| == |s|
  {
    if s == [] then [] else InsertByValue(s[0], SortByValue(s[1..]))
  }

  lemma {:induction false} InsertByValuePerm<P>(x: Edge<P>, s: seq<Edge<P>>)
    ensures multiset(InsertByValue(x, s)) == multiset(s) + multiset{x}
  {
    if s != [] && x.1 > s[0].1 {
      InsertByValuePerm(x, s[1..]);
      assert s == [s[0]] + s[1..];
    }
  }

  lemma {:induction false} InsertByValueSorted<P>(x: Edge<P>, s: seq<Edge<P>>)
    requires SortedByValue(s)
    ensures SortedByValue(InsertByValue(x, s))
  {
    if s != [] && x.1 > s[0].1 {
      var r := InsertByValue(x, s[1..]);
      InsertByValueSorted(x, s[1..]);
      InsertByValuePerm(x, s[1..]);
      forall k | 0 <= k < |r|
        ensures s[0].1 <= r[k].1
      {
        assert r[k] in multiset(r);
        if r[k] != x {
          assert r[k] in multiset(s[1..]);
          var j :| 0 <= j < |s[1..]| && s[1..][j] == r[k];
          assert s[j + 1] == r[k];
        }
      }
    }
  }

  /** The sorted items are the items, in non-decreasing order of distance. */
  lemma {:induction false} SortByValueSpec<P>(s: seq<Edge<P>>)
    ensures SortedByValue(SortByValue(s)) && multiset(SortByValue(s)) == multiset(s)
  {
    if s != [] {
      SortByValueSpec(s[1..]);
      InsertByValueSorted(s[0], SortByValue(s[1..]));
      InsertByValuePerm(s[0], SortByValue(s[1..]));
      assert s == [s[0]] + s[1..];
    }
  }

  /** The distance of the first sorted edge that joins `r` to a point not
      in `removed`, or 0 when there is none. */
  function FirstJoin<P(==)>(r: P, removed: set<P>, sd: seq<Edge<P>>): (d: real)
    ensures d == 0.0 || exists k :: 0 <= k < |sd| && d == sd[k].1
  {
    if sd == [] then 0.0
    else
      var k := sd[0].0;
      if (k.0 == r && k.1 !in removed) || (k.1 == r && k.0 !in removed) then sd[0].1
      else
        var d := FirstJoin(r, removed, sd[1..]);
        assert d != 0.0 ==> exists j :: 0 <= j < |sd| && d == sd[j].1 by {
          if d != 0.0 {
            var j :| 0 <= j < |sd[1..]| && d == sd[1..][j].1;
            assert d == sd[j + 1].1;
          }
        }
        d
  }

  /** The sum of `FirstJoin` over the points of `rs`, in any order. */
  ghost function SumJoins<P(!new)>(rs: set<P>, removed: set<P>, sd: seq<Edge<P>>): real
    decreases rs
  {
    if rs == {} then 0.0
    else
      var r :| r in rs;
      FirstJoin(r, removed, sd) + SumJoins(rs - {r}, removed, sd)
  }

  /** The order in which the points are summed does not matter. */
  lemma {:induction false} SumJoinsRemove<P(!new)>(rs: set<P>, removed: set<P>, sd: seq<Edge<P>>, y: P)
    requires y in rs
    ensures SumJoins(rs, removed, sd) == FirstJoin(y, removed, sd) + SumJoins(rs - {y}, removed, sd)
    decreases rs
  {
    var r :| r in rs && SumJoins(rs, removed, sd) == FirstJoin(r, removed, sd) + SumJoins(rs - {r}, removed, sd);
    if r != y {
      SumJoinsRemove(rs - {r}, removed, sd, y);
      SumJoinsRemove(rs - {y}, removed, sd, r);
      assert rs - {r} - {y} == rs - {y} - {r};
    }
  }

  /** `_get_error_bound(removed, sorted_dist)`. */
  ghost function Bound<P(!new)>(removed: set<P>, sd: seq<Edge<P>>): real {
    SumJoins(removed, removed, sd)
  }

  /** The inner loop of `_get_error_bound`: the first joining edge, with `break`. */
  method FindJoin<P(==)>(r: P, removed: set<P>, sd: seq<Edge<P>>) returns (d: real)
    ensures d == FirstJoin(r, removed, sd)
  {
    d := 0.0;
    var j := 0;
    while j < |sd|
      invariant 0 <= j <= |sd| && FirstJoin(r, removed, sd) == FirstJoin(r, removed, sd[j..])
    {
      assert sd[j..][1..] == sd[j + 1..];
      var k := sd[j].0;
      if (k.0 == r && k.1 !in removed) || (k.1 == r && k.0 !in removed) {
        return sd[j].1;
      }
      j := j + 1;
    }
  }

  /** `_get_error_bound`: the set is iterated in an unspecified order. */
  method GetErrorBound<P(==,!new)>(removed: set<P>, sd: seq<Edge<P>>) returns (error: real)
    ensures error == Bound(removed, sd)
  {
    error := 0.0;
    var rest := removed;
    while rest != {}
      invariant rest <= removed && error + SumJoins(rest, removed, sd) == Bound(removed, sd)
      decreases rest
    {
      var r :| r in rest;
      SumJoinsRemove(rest, removed, sd, r);
      var d := FindJoin(r, removed, sd);
      error := error + d;
      rest := rest - {r};
    }
  }

  /** The point `compute_subset_error` would remove for an edge: the first
      end unless it is already removed. */
  function Candidate<P(==)>(k: (P, P), removed: set<P>): P {
    if k.0 !in removed then k.0 else k.1
  }

  /** The loop of `compute_subset_error` from position `i` of the sorted
      edges: the set of removed points when it ends. */
  ghost function Removal<P(!new)>(sd: seq<Edge<P>>, i: nat, removed: set<P>, maxError: real): set<P>
    requires i <= |sd|
    decreases |sd| - i
  {
    if i == |sd| then removed
    else
      var k := sd[i].0;
      if k.0 in removed && k.1 in removed then Removal(sd, i + 1, removed, maxError)
      else
        var a := Candidate(k, removed);
        if Bound(removed + {a}, sd) > maxError then removed
        else Removal(sd, i + 1, removed + {a}, maxError)
  }

  /** `compute_subset_error(max_error)` of a `Distance` built from the
      dictionary items `items` and the points `points`. */
  method ComputeSubsetError<P(==,!new)>(points: set<P>, items: seq<Edge<P>>, maxError: real) returns (r: set<P>)
    ensures r == points - Removal(SortByValue(items), 0, {}, maxError)
    ensures r <= points
  {
    var error := 0.0;
    var removed: set<P> := {};
    var sd := SortByValue(items);
    var i := 0;
    while i < |sd|
      invariant 0 <= i <= |sd|
      invariant Removal(sd, i, removed, maxError) == Removal(sd, 0, {}, maxError)
    {
      var k, v := sd[i].0, sd[i].1;
      if k.0 in removed && k.1 in removed {
        i := i + 1;
        continue;
      }
      var a := if k.0 !in removed then k.0 else k.1;
      var bound := GetErrorBound(removed + {a}, sd);
      if bound > maxError {
        break;
      }
      removed := removed + {a};
      error := error + v;
      i := i + 1;
    }
    return points - removed;
  }

  /** The points removed are those removed before, plus ends of the edges
      still to visit. */
  lemma {:induction false} RemovalGrows<P(!new)>(sd: seq<Edge<P>>, i: nat, removed: set<P>, maxError: real)
    requires i <= |sd|
    ensures removed <= Removal(sd, i, removed, maxError)
    ensures forall x :: x in Removal(sd, i, removed, maxError) - removed ==>
      exists j :: i <= j < |sd| && (x == sd[j].0.0 || x == sd[j].0.1)
    decreases |sd| - i
  {
    if i < |sd| {
      var k := sd[i].0;
      if k.0 in removed && k.1 in removed {
        RemovalGrows(sd, i + 1, removed, maxError);
      } else {
        var a := Candidate(k, removed);
        if Bound(removed + {a}, sd) <= maxError {
          RemovalGrows(sd, i + 1, removed + {a}, maxError);
          var res := Removal(sd, i, removed, maxError);
          forall x | x in res - removed
            ensures exists j :: i <= j < |sd| && (x == sd[j].0.0 || x == sd[j].0.1)
          {
            if x == a {
              assert x == sd[i].0.0 || x == sd[i].0.1;
            } else {
              assert x in res - (removed + {a});
            }
          }
        }
      }
    }
  }

  /** After every addition the error bound of the removed set is within the
      maximum: the loop ends with the set it started from, or one whose
      bound is at most `maxError`. */
  lemma {:induction false} RemovalWithinBound<P(!new)>(sd: seq<Edge<P>>, i: nat, removed: set<P>, maxError: real)
    requires i <= |sd|
    ensures Removal(sd, i, removed, maxError) == removed || Bound(Removal(sd, i, removed, maxError), sd) <= maxError
    decreases |sd| - i
  {
    if i < |sd| {
      var k := sd[i].0;
      if k.0 in removed && k.1 in removed {
        RemovalWithinBound(sd, i + 1, removed, maxError);
      } else {
        var a := Candidate(k, removed);
        if Bound(removed + {a}, sd) <= maxError {
          RemovalWithinBound(sd, i + 1, removed + {a}, maxError);
        }
      }
    }
  }

  /** With non-negative distances the bound is never negative. */
  lemma {:induction false} SumJoinsNonNegative<P(!new)>(rs: set<P>, removed: set<P>, sd: seq<Edge<P>>)
    requires forall k :: 0 <= k < |sd| ==> sd[k].1 >= 0.0
    ensures SumJoins(rs, removed, sd) >= 0.0
    decreases rs
  {
    if rs != {} {
      var r :| r in rs && SumJoins(rs, removed, sd) == FirstJoin(r, removed, sd) + SumJoins(rs - {r}, removed, sd);
      SumJoinsNonNegative(rs - {r}, removed, sd);
      var d := FirstJoin(r, removed, sd);
      if d != 0.0 {
        var k :| 0 <= k < |sd| && d == sd[k].1;
      }
    }
  }

  /** A negative maximum error removes nothing when distances are not
      negative, as distances between automata are. */
  lemma NegativeBoundRemovesNothing<P(!new)>(sd: seq<Edge<P>>, maxError: real)
    requires maxError < 0.0 && forall k :: 0 <= k < |sd| ==> sd[k].1 >= 0.0
    ensures Removal(sd, 0, {}, maxError) == {}
  {
    if sd != [] {
      var a := Candidate(sd[0].0, {});
      assert {} + {a} == {a};
      SumJoinsNonNegative({a}, {a}, sd);
    }
  }

  /** Two automata within `maxError` of each other, with both ordered pairs
      as the detector builds them, are both removed: nothing is left. */
  lemma PruningCanEmpty(d: real, maxError: real)
    requires 0.0 <= d <= maxError
    ensures var sd := SortByValue([((0, 1), d), ((1, 0), d)]);
      {0, 1} - Removal(sd, 0, {}, maxError) == {}
  {
    var sd := SortByValue([((0, 1), d), ((1, 0), d)]);
    assert sd == [((0, 1), d), ((1, 0), d)];
    SumJoinsRemove({0}, {0}, sd, 0);
    assert {0} - {0} == {};
    assert Bound({0}, sd) == d;
    var none: set<int> := {};
    assert none + {0} == {0};
    assert Removal(sd, 0, {}, maxError) == Removal(sd, 1, {0}, maxError);
    SumJoinsRemove({0, 1}, {0, 1}, sd, 0);
    SumJoinsRemove({1}, {0, 1}, sd, 1);
    assert {0, 1} - {0} == {1} && {1} - {1} == {};
    assert Bound({0, 1}, sd) == 0.0;
    assert {0} + {1} == {0, 1};
    assert Removal(sd, 1, {0}, maxError) == Removal(sd, 2, {0, 1}, maxError);
  }
}
