/**
  Distribution-based anomaly detection: a window is scored by the Euclidean
  distance between the probability distribution of a golden automaton and
  that of an automaton learned from the window.
 */
module DistrComparison {
  import opened Wrappers
  import opened CoreWfa
  import CoreWfaExport
  import ConversationParser
  import Distance

  /** An automaton object. Automata have no equality of their own, so they
      are compared and hashed by identity; `id` is that identity. */
  datatype Ref<S, Y> = Ref(id: nat, aut: Wfa<S, Y>)

  /** The language probability of a renamed automaton, as the matrix
      representation computes it: `exact` with the inverse closure, `iterated`
      with 20 iterations of the closure. `None` is a raised `ValueError`. */
  datatype Solver<!Y> = Solver(exact: Wfa<int, Y> -> Option<real>, iterated: Wfa<int, Y> -> Option<real>)

  const ValueError := "ValueError"

  /** What a `None` entry of a golden list raises when it is compared. */
  const NoTransitions := "'NoneType' object has no attribute 'get_transitions'"

  /** The square root never gives a negative value on a non-negative input. */
  ghost predicate RootSound(sqrt: real -> real) {
    forall x: real :: x >= 0.0 ==> sqrt(x) >= 0.0
  }

  /** Exactly one of the two automata has no transition. */
  predicate OneEmpty<S, Y>(a1: Wfa<S, Y>, a2: Wfa<S, Y>) {
    (|a1.transitions| > 0 && |a2.transitions| == 0) || (|a1.transitions| == 0 && |a2.transitions| > 0)
  }

  /** `t` is the trimmed product of `a` and `b`: each transition pairs a
      transition of `a` with one of `b`, each final weight is the product of
      the two final weights, and the initial entries are product entries. */
  ghost predicate TrimmedProduct<S(!new), Y(!new)>(a: Wfa<S, Y>, b: Wfa<S, Y>, t: Wfa<(S, S), Y>) {
    && ValidStart(t)
    && (forall tr :: tr in t.transitions ==> ProductTransition(a, b, tr))
    && (forall x :: x in t.finals ==> x.0 in a.finals && x.1 in b.finals && t.finals[x] == Mul(a.finals[x.0], b.finals[x.1]))
    && (forall e :: e in t.start ==> e in ProductStart(a.start, b.start))
  }

  /** `p` is the trimmed product of `a` and `b` with its states renamed to
      0, 1, 2, ... */
  ghost predicate Prepared<S(!new), Y(!new)>(a: Wfa<S, Y>, b: Wfa<S, Y>, p: Wfa<int, Y>) {
    exists t: Wfa<(S, S), Y>, d: map<(S, S), int> ::
      TrimmedProduct(a, b, t) && d.Keys == States(t) && Numbering(d, |d|) && p == RenamedWith(t, d)
  }

  /** `min(1.0, sqrt(max(0.0, x)))`. */
  function Clamp(sqrt: real -> real, x: real): (r: real)
    ensures r <= 1.0
    ensures RootSound(sqrt) ==> 0.0 <= r
  {
    var s := sqrt(if 0.0 > x then 0.0 else x);
    if 1.0 < s then 1.0 else s
  }

  /** The distance from the three language probabilities: the exact ones,
      or the iterated ones when an exact one raises. */
  function Combined<Y>(sv: Solver<Y>, sqrt: real -> real, p1: Wfa<int, Y>, p2: Wfa<int, Y>, p3: Wfa<int, Y>): (r: Result<real, string>)
    ensures r.Failure? <==>
      (sv.exact(p1).None? || sv.exact(p2).None? || sv.exact(p3).None?)
      && (sv.iterated(p1).None? || sv.iterated(p2).None? || sv.iterated(p3).None?)
    ensures r.Failure? ==> r.error == ValueError
    ensures r.Success? ==> r.value <= 1.0 && (RootSound(sqrt) ==> 0.0 <= r.value)
  {
    var e1, e2, e3 := sv.exact(p1), sv.exact(p2), sv.exact(p3);
    if e1.Some? && e2.Some? && e3.Some? then
      Success(Clamp(sqrt, e1.value - 2.0 * e2.value + e3.value))
    else
      var i1, i2, i3 := sv.iterated(p1), sv.iterated(p2), sv.iterated(p3);
      if i1.Some? && i2.Some? && i3.Some? then
        Success(Clamp(sqrt, i1.value - 2.0 * i2.value + i3.value))
      else Failure(ValueError)
  }

  /** The possible outcomes of `euclid_distance(a1, a2)`. */
  ghost predicate EuclidOutcome<S(!new), Y(!new)>(a1: Wfa<S, Y>, a2: Wfa<S, Y>, sv: Solver<Y>, sqrt: real -> real, r: Result<real, string>) {
    if OneEmpty(a1, a2) then r == Success(1.0)
    else exists p1, p2, p3 ::
      Prepared(a1, a1, p1) && Prepared(a1, a2, p2) && Prepared(a2, a2, p3) && r == Combined(sv, sqrt, p1, p2, p3)
  }

  /** Trimming a product keeps it a product. */
  lemma TrimOfProduct<S(!new), Y(!new)>(a: Wfa<S, Y>, b: Wfa<S, Y>, prod: Wfa<(S, S), Y>, keep: set<(S, S)>)
    requires DistinctKeys(prod.start) && prod.start == ProductStart(a.start, b.start)
    requires forall t :: t in prod.transitions ==> ProductTransition(a, b, t)
    requires forall x :: x in prod.finals ==> x.0 in a.finals && x.1 in b.finals && prod.finals[x] == Mul(a.finals[x.0], b.finals[x.1])
    ensures TrimmedProduct(a, b, Restricted(prod, keep))
  {
  }

  /** The trimmed product of `a` and `b`, renamed. */
  method Prepare<S(==,!new), Y(==,!new)>(a: Wfa<S, Y>, b: Wfa<S, Y>) returns (p: Wfa<int, Y>)
    requires ValidStart(a) && ValidStart(b)
    ensures Prepared(a, b, p)
  {
    var prod := Product(a, b);
    ProductStartDistinct(a.start, b.start);
    var trimmed := GetTrimAutomaton(prod);
    ghost var keep: set<(S, S)> :| trimmed == Restricted(prod, keep);
    TrimOfProduct(a, b, prod, keep);
    var d;
    p, d := RenameStates(trimmed);
  }

  /** `euclid_distance`: 1.0 when exactly one automaton has no transition;
      otherwise the clamped distance computed from the language
      probabilities of the three renamed, trimmed products. */
  method EuclidDistance<S(==,!new), Y(==,!new)>(a1: Wfa<S, Y>, a2: Wfa<S, Y>, sv: Solver<Y>, sqrt: real -> real) returns (r: Result<real, string>)
    requires ValidStart(a1) && ValidStart(a2)
    ensures EuclidOutcome(a1, a2, sv, sqrt, r)
    ensures OneEmpty(a1, a2) ==> r == Success(1.0)
    ensures r.Failure? ==> r.error == ValueError
    ensures r.Success? ==> r.value <= 1.0 && (RootSound(sqrt) ==> 0.0 <= r.value)
  {
    if (|a1.transitions| > 0 && |a2.transitions| == 0) || (|a1.transitions| == 0 && |a2.transitions| > 0) {
      return Success(1.0);
    }
    var p1 := Prepare(a1, a1);
    var p2 := Prepare(a1, a2);
    var p3 := Prepare(a2, a2);
    r := Combined(sv, sqrt, p1, p2, p3);
  }

  /** Every automaton the learning procedure returns has distinct initial
      states. */
  ghost predicate LearnsValid<S(!new), Y(!new), W(!new)>(learn: seq<W> -> Result<Wfa<S, Y>, string>) {
    forall w :: learn(w).Success? ==> ValidStart(learn(w).value)
  }

  /** The possible scores of `apply_detection(aut, window)`. */
  ghost predicate Scored<S(!new), Y(!new), W(!new)>(aut: Option<Ref<S, Y>>, window: seq<W>, learn: seq<W> -> Result<Wfa<S, Y>, string>,
                                                         sv: Solver<Y>, sqrt: real -> real, r: Result<real, string>) {
    match aut
    case None => r == Success(if window == [] then 0.0 else 1.0)
    case Some(g) =>
      if window == [] && |g.aut.transitions| > 1 then r == Success(1.0)
      else match learn(window)
        case Failure(e) => r == Failure(e)
        case Success(t) =>
          exists r1 :: EuclidOutcome(g.aut, t, sv, sqrt, r1) && (if r1.Success? then r == r1 else EuclidOutcome(t, g.aut, sv, sqrt, r))
  }

  /** `apply_detection`: with no golden automaton, 0.0 for an empty window and
      1.0 otherwise; with an empty window and a golden automaton of more than
      one transition, 1.0; otherwise the distance between the golden
      automaton and the one learned from the window, retried with the
      arguments swapped when the first computation raises. */
  method ApplyDetection<S(==,!new), Y(==,!new), W(!new)>(aut: Option<Ref<S, Y>>, window: seq<W>, learn: seq<W> -> Result<Wfa<S, Y>, string>,
                                                       sv: Solver<Y>, sqrt: real -> real) returns (r: Result<real, string>)
    requires aut.Some? ==> ValidStart(aut.value.aut)
    requires LearnsValid(learn)
    ensures Scored(aut, window, learn, sv, sqrt, r)
    ensures aut.None? ==> r.Success?
    ensures RootSound(sqrt) && r.Success? ==> 0.0 <= r.value <= 1.0
  {
    if aut.None? && |window| == 0 {
      return Success(0.0);
    }
    if aut.None? && |window| > 0 {
      return Success(1.0);
    }
    var g := aut.value.aut;
    if |window| == 0 && |g.transitions| > 1 {
      return Success(1.0);
    }
    var testFa := learn(window);
    if testFa.Failure? {
      return Failure(testFa.error);
    }
    var d := EuclidDistance(g, testFa.value, sv, sqrt);
    r := d;
    if d.Failure? {
      r := EuclidDistance(testFa.value, g, sv, sqrt);
    }
  }

  /** The entries of a golden list are `None` or automata with distinct
      initial states. */
  ghost predicate ValidEntries<S(!new), Y(!new)>(auts: seq<Option<Ref<S, Y>>>) {
    forall e :: e in auts && e.Some? ==> ValidStart(e.value.aut)
  }

  /** `out` holds the scores of `auts`, entry by entry. */
  ghost predicate ScoredList<S(!new), Y(!new), W(!new)>(auts: seq<Option<Ref<S, Y>>>, window: seq<W>, learn: seq<W> -> Result<Wfa<S, Y>, string>,
                                                       sv: Solver<Y>, sqrt: real -> real, out: seq<real>) {
    |out| == |auts| && forall i :: 0 <= i < |auts| ==> Scored(auts[i], window, learn, sv, sqrt, Success(out[i]))
  }

  lemma ScoredListStep<S(!new), Y(!new), W(!new)>(auts: seq<Option<Ref<S, Y>>>, window: seq<W>, learn: seq<W> -> Result<Wfa<S, Y>, string>,
                                                  sv: Solver<Y>, sqrt: real -> real, out: seq<real>, i: nat, d: real)
    requires i < |auts| && ScoredList(auts[..i], window, learn, sv, sqrt, out)
    requires Scored(auts[i], window, learn, sv, sqrt, Success(d))
    ensures ScoredList(auts[..i + 1], window, learn, sv, sqrt, out + [d])
  {
    assert auts[..i + 1][..i] == auts[..i];
  }

  /** The list comprehension of `detect`: one score per golden automaton, in
      list order; the first entry whose scoring raises makes it raise. */
  method Scores<S(==,!new), Y(==,!new), W(!new)>(auts: seq<Option<Ref<S, Y>>>, window: seq<W>, learn: seq<W> -> Result<Wfa<S, Y>, string>,
                                               sv: Solver<Y>, sqrt: real -> real) returns (r: Result<seq<real>, string>)
    requires ValidEntries(auts) && LearnsValid(learn)
    ensures r.Success? ==> ScoredList(auts, window, learn, sv, sqrt, r.value)
    ensures r.Failure? ==> exists i :: 0 <= i < |auts| && Scored(auts[i], window, learn, sv, sqrt, Failure(r.error))
    ensures RootSound(sqrt) && r.Success? ==> forall x :: x in r.value ==> 0.0 <= x <= 1.0
  {
    var out: seq<real> := [];
    var i := 0;
    while i < |auts|
      invariant 0 <= i <= |auts|
      invariant ScoredList(auts[..i], window, learn, sv, sqrt, out)
      invariant RootSound(sqrt) ==> forall x :: x in out ==> 0.0 <= x <= 1.0
    {
      var d := ApplyDetection(auts[i], window, learn, sv, sqrt);
      if d.Failure? {
        return Failure(d.error);
      }
      ScoredListStep(auts, window, learn, sv, sqrt, out, i, d.value);
      out := out + [d.value];
      i := i + 1;
    }
    assert auts[..i] == auts;
    return Success(out);
  }

  /** The elements of a list. */
  function Elems<T(==)>(l: seq<T>): set<T> {
    set x | x in l
  }

  /** The keys of a dictionary kept as its items in insertion order. */
  function Keys<K, V>(items: seq<(K, V)>): (r: seq<K>)
    ensures |r| == |items| && forall i :: 0 <= i < |items| ==> r[i] == items[i].0
  {
    if items == [] then [] else [items[0].0] + Keys(items[1..])
  }

  /** `d[k] = v` on a dictionary kept as its items in insertion order: an
      existing key keeps its place, a new key goes last. */
  function DictSet<K(==), V>(items: seq<(K, V)>, k: K, v: V): (r: seq<(K, V)>)
    ensures k in Keys(items) ==> Keys(r) == Keys(items)
    ensures k !in Keys(items) ==> Keys(r) == Keys(items) + [k]
    ensures forall e :: e in r ==> e in items || e == (k, v)
  {
    if items == [] then [(k, v)]
    else if items[0].0 == k then [(k, v)] + items[1..]
    else [items[0]] + DictSet(items[1..], k, v)
  }

  /** The pairs `(a, b)` with `b` ranging over `l` and `b != a`, in order. */
  function Row<T(==)>(a: T, l: seq<T>): seq<(T, T)> {
    if l == [] then []
    else Row(a, l[..|l| - 1]) + (if a != l[|l| - 1] then [(a, l[|l| - 1])] else [])
  }

  /** The pairs of distinct elements, `a` ranging over `firsts` and `b` over `l`,
      in the order of the nested loops. */
  function Pairs<T(==)>(firsts: seq<T>, l: seq<T>): seq<(T, T)> {
    if firsts == [] then [] else Pairs(firsts[..|firsts| - 1], l) + Row(firsts[|firsts| - 1], l)
  }

  lemma {:induction false} RowSpec<T>(a: T, l: seq<T>)
    ensures forall p :: p in Row(a, l) <==> p.0 == a && p.1 in l && p.1 != a
  {
    if l != [] {
      RowSpec(a, l[..|l| - 1]);
      assert l == l[..|l| - 1] + [l[|l| - 1]];
    }
  }

  /** One more step of the inner loop. */
  lemma RowStep<T>(prev: seq<(T, T)>, a: T, l: seq<T>, j: nat)
    requires j < |l|
    ensures a != l[j] ==> prev + Row(a, l[..j + 1]) == (prev + Row(a, l[..j])) + [(a, l[j])]
    ensures a == l[j] ==> prev + Row(a, l[..j + 1]) == prev + Row(a, l[..j])
  {
    assert l[..j + 1][..j] == l[..j];
  }

  /** One more step of the outer loop. */
  lemma PairsStep<T>(l: seq<T>, i: nat)
    requires i < |l|
    ensures Pairs(l[..i + 1], l) == Pairs(l[..i], l) + Row(l[i], l)
  {
    assert l[..i + 1][..i] == l[..i];
  }

  /** The nested loops visit exactly the pairs of distinct elements. */
  lemma {:induction false} PairsSpec<T>(firsts: seq<T>, l: seq<T>)
    ensures forall p :: p in Pairs(firsts, l) <==> p.0 in firsts && p.1 in l && p.0 != p.1
  {
    if firsts != [] {
      PairsSpec(firsts[..|firsts| - 1], l);
      RowSpec(firsts[|firsts| - 1], l);
      assert firsts == firsts[..|firsts| - 1] + [firsts[|firsts| - 1]];
    }
  }

  /** The pair dictionary of `_remove_euclid_similar_it` once the pairs `s`
      have been visited: its keys are those pairs without repetition, and
      each value is a distance between two automata. */
  ghost predicate DistancesOf<S(!new), Y(!new)>(items: seq<Distance.Edge<Option<Ref<S, Y>>>>, s: seq<(Option<Ref<S, Y>>, Option<Ref<S, Y>>)>,
                                                       sv: Solver<Y>, sqrt: real -> real) {
    Keys(items) == ConversationParser.Distinct(s) && EdgesOk(items, sv, sqrt)
  }

  /** Every distance in the dictionary is between two automata. */
  ghost predicate EdgesOk<S(!new), Y(!new)>(items: seq<Distance.Edge<Option<Ref<S, Y>>>>, sv: Solver<Y>, sqrt: real -> real) {
    forall e :: e in items ==> e.0.0.Some? && e.0.1.Some? && EuclidOutcome(e.0.0.value.aut, e.0.1.value.aut, sv, sqrt, Success(e.1))
  }

  /** A key of the dictionary has an item holding it. */
  lemma {:induction false} KeyIndex<K, V>(items: seq<(K, V)>, p: K) returns (k: nat)
    requires p in Keys(items)
    ensures k < |items| && items[k].0 == p
  {
    var r := Keys(items);
    k :| 0 <= k < |r| && r[k] == p;
  }

  /** The keys of a dictionary built over the pairs of `l` are exactly the
      pairs of distinct entries of `l`. */
  lemma KeysArePairs<T, V>(items: seq<((T, T), V)>, l: seq<T>)
    requires Keys(items) == ConversationParser.Distinct(Pairs(l, l))
    ensures forall p :: p in Keys(items) <==> p.0 in l && p.1 in l && p.0 != p.1
  {
    PairsSpec(l, l);
    ConversationParser.DistinctSameValues(Pairs(l, l));
  }

  /** Visiting one more pair keeps the dictionary invariant. */
  lemma DistancesStep<S(!new), Y(!new)>(items: seq<Distance.Edge<Option<Ref<S, Y>>>>, s: seq<(Option<Ref<S, Y>>, Option<Ref<S, Y>>)>,
                                              sv: Solver<Y>, sqrt: real -> real, k: (Option<Ref<S, Y>>, Option<Ref<S, Y>>), v: real)
    requires DistancesOf(items, s, sv, sqrt)
    requires k.0.Some? && k.1.Some? && EuclidOutcome(k.0.value.aut, k.1.value.aut, sv, sqrt, Success(v))
    ensures DistancesOf(DictSet(items, k, v), s + [k], sv, sqrt)
  {
    assert (s + [k])[..|s|] == s;
  }

  /** The inner loop of `_remove_euclid_similar_it`: the distances from
      `a` to every other entry of `l`, added to the dictionary `dist` that
      already holds the pairs `prev`. */
  method DistanceRow<S(==,!new), Y(==,!new)>(dist: seq<Distance.Edge<Option<Ref<S, Y>>>>, ghost prev: seq<(Option<Ref<S, Y>>, Option<Ref<S, Y>>)>,
                                             a: Option<Ref<S, Y>>, l: seq<Option<Ref<S, Y>>>, sv: Solver<Y>, sqrt: real -> real)
    returns (r: Result<seq<Distance.Edge<Option<Ref<S, Y>>>>, string>, ghost partial: seq<Distance.Edge<Option<Ref<S, Y>>>>)
    requires DistancesOf(dist, prev, sv, sqrt)
    requires a.Some? ==> ValidStart(a.value.aut)
    requires ValidEntries(l)
    ensures r.Success? ==> DistancesOf(r.value, prev + Row(a, l), sv, sqrt)
    ensures r.Failure? ==> r.error == ValueError || r.error == NoTransitions
  {
    var acc := dist;
    var j := 0;
    assert prev + Row(a, l[..j]) == prev;
    while j < |l|
      invariant 0 <= j <= |l|
      invariant DistancesOf(acc, prev + Row(a, l[..j]), sv, sqrt)
    {
      ghost var before := prev + Row(a, l[..j]);
      RowStep(prev, a, l, j);
      if a != l[j] {
        if a.None? || l[j].None? {
          return Failure(NoTransitions), acc;
        }
        var d := EuclidDistance(a.value.aut, l[j].value.aut, sv, sqrt);
        if d.Failure? {
          return Failure(d.error), acc;
        }
        DistancesStep(acc, before, sv, sqrt, (a, l[j]), d.value);
        acc := DictSet(acc, (a, l[j]), d.value);
      }
      j := j + 1;
    }
    assert l[..j] == l;
    return Success(acc), acc;
  }

  /** A pair of distinct entries of `l` is a key of a dictionary built over
      the pairs of `l`. */
  lemma PairKey<T, V>(items: seq<((T, T), V)>, l: seq<T>, x: T, y: T)
    requires Keys(items) == ConversationParser.Distinct(Pairs(l, l))
    requires x in l && y in l && x != y
    ensures (x, y) in Keys(items)
  {
    KeysArePairs(items, l);
  }

  /** Once every pair of distinct entries has a distance, no entry that has
      a distinct partner is `None`. */
  lemma PairedAreSome<T, V>(lst: seq<Option<T>>, dist: seq<((Option<T>, Option<T>), V)>)
    requires Keys(dist) == ConversationParser.Distinct(Pairs(lst, lst))
    requires forall e :: e in dist ==> e.0.0.Some? && e.0.1.Some?
    ensures forall x, y :: x in lst && y in lst && x != y ==> x.Some? && y.Some?
  {
    forall x, y | x in lst && y in lst && x != y
      ensures x.Some? && y.Some?
    {
      PairKey(dist, lst, x, y);
      var k := KeyIndex(dist, (x, y));
      assert dist[k] in dist;
    }
  }

  /** `_remove_euclid_similar_it`: the distance of every ordered pair of
      distinct entries, then the subset `compute_subset_error` keeps. */
  method RemoveEuclidSimilarIt<S(==,!new), Y(==,!new)>(maxError: real, lst: seq<Option<Ref<S, Y>>>, sv: Solver<Y>, sqrt: real -> real)
    returns (r: Result<set<Option<Ref<S, Y>>>, string>, ghost items: seq<Distance.Edge<Option<Ref<S, Y>>>>)
    requires ValidEntries(lst)
    ensures r.Success? ==> DistancesOf(items, Pairs(lst, lst), sv, sqrt)
    ensures r.Success? ==> r.value == Elems(lst) - Distance.Removal(Distance.SortByValue(items), 0, {}, maxError)
    ensures r.Success? ==> forall x, y :: x in lst && y in lst && x != y ==> x.Some? && y.Some?
    ensures r.Failure? ==> r.error == ValueError || r.error == NoTransitions
  {
    var dist: seq<Distance.Edge<Option<Ref<S, Y>>>> := [];
    var i := 0;
    while i < |lst|
      invariant 0 <= i <= |lst|
      invariant DistancesOf(dist, Pairs(lst[..i], lst), sv, sqrt)
    {
      var row, partial := DistanceRow(dist, Pairs(lst[..i], lst), lst[i], lst, sv, sqrt);
      if row.Failure? {
        return Failure(row.error), partial;
      }
      dist := row.value;
      PairsStep(lst, i);
      i := i + 1;
    }
    assert lst[..i] == lst;
    PairedAreSome(lst, dist);
    var kept := Distance.ComputeSubsetError(Elems(lst), dist, maxError);
    return Success(kept), dist;
  }

  /** `after` is the pruned golden list `before`: the entries kept from the
      dictionary `items` of distances between its distinct entries. */
  ghost predicate Pruned<S(!new), Y(!new)>(before: seq<Option<Ref<S, Y>>>, after: seq<Option<Ref<S, Y>>>,
                                                items: seq<Distance.Edge<Option<Ref<S, Y>>>>, maxError: real, sv: Solver<Y>, sqrt: real -> real) {
    && CoreWfaExport.Enumerates(after, Elems(before) - Distance.Removal(Distance.SortByValue(items), 0, {}, maxError))
    && (forall p :: p in Keys(items) <==> p.0 in before && p.1 in before && p.0 != p.1)
    && EdgesOk(items, sv, sqrt)
  }

  /** Pruning a list that enumerates the entries of `before`. */
  lemma PrunedOf<S(!new), Y(!new)>(before: seq<Option<Ref<S, Y>>>, l: seq<Option<Ref<S, Y>>>, after: seq<Option<Ref<S, Y>>>,
                                        items: seq<Distance.Edge<Option<Ref<S, Y>>>>, maxError: real, sv: Solver<Y>, sqrt: real -> real)
    requires CoreWfaExport.Enumerates(l, Elems(before))
    requires DistancesOf(items, Pairs(l, l), sv, sqrt)
    requires CoreWfaExport.Enumerates(after, Elems(l) - Distance.Removal(Distance.SortByValue(items), 0, {}, maxError))
    ensures Pruned(before, after, items, maxError, sv, sqrt)
  {
    forall x ensures x in l <==> x in before {
      assert x in l <==> x in Elems(l);
      assert x in before <==> x in Elems(before);
    }
    KeysArePairs(items, l);
    assert Elems(l) == Elems(before);
  }

  /** Anomaly detection by comparing distributions: the golden map sends a
      communication pair to a list of golden automata (or `None`), and
      `learn` turns a window into an automaton. */
  class DistrDetector<K(==), S(==,!new), Y(==,!new), W(!new)> {
    var golden: map<K, seq<Option<Ref<S, Y>>>>
    const learn: seq<W> -> Result<Wfa<S, Y>, string>

    ghost predicate Valid()
      reads this
    {
      LearnsValid(learn) && forall k :: k in golden ==> ValidEntries(golden[k])
    }

    constructor(autMap: map<K, seq<Option<Ref<S, Y>>>>, learningProcedure: seq<W> -> Result<Wfa<S, Y>, string>)
      requires LearnsValid(learningProcedure) && forall k :: k in autMap ==> ValidEntries(autMap[k])
      ensures Valid() && golden == autMap && learn == learningProcedure
    {
      golden := autMap;
      learn := learningProcedure;
    }

    /** `dpa_selection`: the golden list of the pair; the golden map is a
        `defaultdict`, so reading a missing pair stores `[None]` for it. */
    method DpaSelection(compair: K) returns (auts: seq<Option<Ref<S, Y>>>)
      requires Valid()
      modifies this
      ensures Valid()
      ensures compair in old(golden) ==> auts == old(golden)[compair]
      ensures compair !in old(golden) ==> auts == [None]
      ensures golden == old(golden)[compair := auts]
    {
      if compair !in golden {
        golden := golden[compair := [None]];
      }
      auts := golden[compair];
    }

    /** `detect`: one score per golden automaton of the pair, in list order. */
    method Detect(window: seq<W>, compair: K, sv: Solver<Y>, sqrt: real -> real) returns (r: Result<seq<real>, string>)
      requires Valid()
      modifies this
      ensures Valid()
      ensures compair in old(golden) ==> golden == old(golden)
      ensures compair !in old(golden) ==> golden == old(golden)[compair := [None]]
      ensures r.Success? ==> ScoredList(golden[compair], window, learn, sv, sqrt, r.value)
      ensures r.Failure? ==> exists i :: 0 <= i < |golden[compair]| && Scored(golden[compair][i], window, learn, sv, sqrt, Failure(r.error))
      ensures RootSound(sqrt) && r.Success? ==> forall x :: x in r.value ==> 0.0 <= x <= 1.0
    {
      var auts := DpaSelection(compair);
      r := Scores(auts, window, learn, sv, sqrt);
    }

    /** `remove_identical`: every golden list loses its repeated entries. */
    method RemoveIdentical()
      requires Valid()
      modifies this
      ensures Valid()
      ensures golden.Keys == old(golden).Keys
      ensures forall k :: k in golden ==> CoreWfaExport.Enumerates(golden[k], Elems(old(golden)[k]))
    {
      var todo := golden.Keys;
      while todo != {}
        invariant todo <= golden.Keys && golden.Keys == old(golden).Keys && Valid()
        invariant forall k :: k in golden && k !in todo ==> CoreWfaExport.Enumerates(golden[k], Elems(old(golden)[k]))
        invariant forall k :: k in todo ==> golden[k] == old(golden)[k]
        decreases todo
      {
        var k :| k in todo;
        var v := CoreWfaExport.Enumerate(Elems(golden[k]));
        golden := golden[k := v];
        todo := todo - {k};
      }
    }

    /** `remove_euclid_similar`: drop repeated entries, then prune every
        golden list with `_remove_euclid_similar_it`; `itemsOf` holds the
        distance dictionary built for each pair. */
    method RemoveEuclidSimilar(maxError: real, sv: Solver<Y>, sqrt: real -> real)
      returns (r: Result<(), string>, ghost itemsOf: map<K, seq<Distance.Edge<Option<Ref<S, Y>>>>>)
      requires Valid()
      modifies this
      ensures Valid()
      ensures golden.Keys == old(golden).Keys
      ensures r.Success? ==> itemsOf.Keys == golden.Keys
      ensures r.Success? ==> forall k :: k in golden ==> Pruned(old(golden)[k], golden[k], itemsOf[k], maxError, sv, sqrt)
    {
      ghost var orig := golden;
      RemoveIdentical();
      ghost var deduped := golden;
      itemsOf := map[];
      var todo := golden.Keys;
      while todo != {}
        invariant todo <= golden.Keys && golden.Keys == orig.Keys == deduped.Keys && Valid()
        invariant itemsOf.Keys == golden.Keys - todo
        invariant forall k :: k in golden && k !in todo ==> Pruned(orig[k], golden[k], itemsOf[k], maxError, sv, sqrt)
        invariant forall k :: k in todo ==> golden[k] == deduped[k]
        decreases todo
      {
        var k :| k in todo;
        var pruned;
        ghost var items;
        pruned, items := RemoveEuclidSimilarIt(maxError, golden[k], sv, sqrt);
        if pruned.Failure? {
          return Failure(pruned.error), itemsOf;
        }
        var v := CoreWfaExport.Enumerate(pruned.value);
        PrunedOf(orig[k], deduped[k], v, items, maxError, sv, sqrt);
        golden := golden[k := v];
        itemsOf := itemsOf[k := items];
        todo := todo - {k};
      }
      r := Success(());
    }
  }
}
