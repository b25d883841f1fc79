/**
  Weighted finite automata (WFA) and their algebra: state collection, dense
  renaming, synchronised product, forward/backward breadth-first search,
  restriction, trim, the determinism test and deterministic acceptance.

  A WFA is a value here: the operations that the original performs in place
  (renaming) return the new automaton.
 */
module CoreWfa {
  import opened Wrappers

  datatype Transition<S, Y> = Transition(src: S, dest: S, symbol: Y, weight: real)

  /** `start` is an insertion-ordered dictionary, kept as (state, weight) pairs;
      `alphabet` is the explicitly supplied alphabet, if any. */
  datatype Wfa<S, Y> = Wfa(
    transitions: seq<Transition<S, Y>>,
    finals: map<S, real>,
    start: seq<(S, real)>,
    alphabet: Option<set<Y>>)

  /** Dictionary keys are distinct. */
  predicate DistinctKeys<S(==,!new), W>(d: seq<(S, W)>) {
    forall i, j :: 0 <= i < j < |d| ==> d[i].0 != d[j].0
  }

  predicate ValidStart<S(==,!new), Y(==,!new)>(a: Wfa<S, Y>) {
    DistinctKeys(a.start)
  }

  function StartKeys<S(==,!new), Y(==,!new)>(a: Wfa<S, Y>): set<S> {
    set p | p in a.start :: p.0
  }

  /** The states of an automaton: initial keys, final keys, and every
      transition source and destination. */
  function States<S(==,!new), Y(==,!new)>(a: Wfa<S, Y>): set<S> {
    StartKeys(a) + a.finals.Keys
    + (set t | t in a.transitions :: t.src)
    + (set t | t in a.transitions :: t.dest)
  }

  /** The alphabet: the explicit one when given, otherwise the used symbols. */
  function Alphabet<S(==,!new), Y(==,!new)>(a: Wfa<S, Y>): set<Y> {
    match a.alphabet
    case Some(al) => al
    case None => set t | t in a.transitions :: t.symbol
  }

  /** get_alphabet: the explicit alphabet when one was given, otherwise
      every symbol used by a transition. */
  method GetAlphabet<S(==,!new), Y(==,!new)>(a: Wfa<S, Y>) returns (r: set<Y>)
    ensures a.alphabet.Some? ==> r == a.alphabet.value
    ensures a.alphabet.None? ==> forall y :: y in r <==> exists t :: t in a.transitions && t.symbol == y
  {
    if a.alphabet.Some? {
      return a.alphabet.value;
    }
    r := {};
    var i := 0;
    while i < |a.transitions|
      invariant 0 <= i <= |a.transitions|
      invariant forall y :: y in r <==> exists k :: 0 <= k < i && a.transitions[k].symbol == y
    {
      r := r + {a.transitions[i].symbol};
      i := i + 1;
    }
    forall y | y in r ensures exists t :: t in a.transitions && t.symbol == y {
      var k :| 0 <= k < i && a.transitions[k].symbol == y;
      assert a.transitions[k] in a.transitions;
    }
    forall y | exists t :: t in a.transitions && t.symbol == y ensures y in r {
      var t :| t in a.transitions && t.symbol == y;
      var k :| 0 <= k < |a.transitions| && a.transitions[k] == t;
    }
  }

  /** get_states: collects the states by scanning the initial dictionary, the
      final dictionary and the transitions. */
  method GetStates<S(==,!new), Y(==,!new)>(a: Wfa<S, Y>) returns (r: set<S>)
    ensures r == States(a)
  {
    r := {};
    var i := 0;
    while i < |a.start|
      invariant 0 <= i <= |a.start|
      invariant r == set p | p in a.start[..i] :: p.0
    {
      assert a.start[..i + 1] == a.start[..i] + [a.start[i]];
      r := r + {a.start[i].0};
      i := i + 1;
    }
    assert a.start[..i] == a.start;
    var fs := a.finals.Keys;
    while fs != {}
      invariant fs <= a.finals.Keys
      invariant r == StartKeys(a) + (a.finals.Keys - fs)
    {
      var f :| f in fs;
      r := r + {f};
      fs := fs - {f};
    }
    i := 0;
    while i < |a.transitions|
      invariant 0 <= i <= |a.transitions|
      invariant r == StartKeys(a) + a.finals.Keys
                     + (set t | t in a.transitions[..i] :: t.src)
                     + (set t | t in a.transitions[..i] :: t.dest)
    {
      assert a.transitions[..i + 1] == a.transitions[..i] + [a.transitions[i]];
      r := r + {a.transitions[i].src, a.transitions[i].dest};
      i := i + 1;
    }
    assert a.transitions[..i] == a.transitions;
  }

  /* ---------------- restriction ---------------- */

  /** The transitions with both ends in `keep`, in their original order. */
  function FilterTransitions<S(==,!new), Y(==,!new)>(ts: seq<Transition<S, Y>>, keep: set<S>): (r: seq<Transition<S, Y>>)
    ensures |r| <= |ts|
    ensures forall t :: t in r <==> t in ts && t.src in keep && t.dest in keep
  {
    if ts == [] then []
    else
      var last := ts[|ts| - 1];
      FilterTransitions(ts[..|ts| - 1], keep)
      + (if last.src in keep && last.dest in keep then [last] else [])
  }

  /** The initial entries whose state is in `keep`, in order. */
  function FilterStart<S(==,!new)>(st: seq<(S, real)>, keep: set<S>): (r: seq<(S, real)>)
    ensures forall p :: p in r <==> p in st && p.0 in keep
    ensures r == [] <==> forall p :: p in st ==> p.0 !in keep
    ensures DistinctKeys(st) ==> DistinctKeys(r)
  {
    if st == [] then []
    else
      var last := st[|st| - 1];
      FilterStart(st[..|st| - 1], keep) + (if last.0 in keep then [last] else [])
  }

  /** The initial dictionary of a restriction: the surviving initial entries,
      or the first original entry alone when none survives. */
  function RestrictStart<S(==,!new)>(st: seq<(S, real)>, keep: set<S>): (r: seq<(S, real)>)
    ensures (exists p :: p in st && p.0 in keep) ==> forall p :: p in r <==> p in st && p.0 in keep
    ensures (forall p :: p in st ==> p.0 !in keep) && st != [] ==> r == [st[0]]
    ensures st == [] ==> r == []
    ensures DistinctKeys(st) ==> DistinctKeys(r)
  {
    var kept := FilterStart(st, keep);
    if kept == [] && st != [] then [st[0]] else kept
  }

  /** The automaton restricted to the states of `keep`. */
  function Restricted<S(==,!new), Y(==,!new)>(a: Wfa<S, Y>, keep: set<S>): Wfa<S, Y> {
    Wfa(FilterTransitions(a.transitions, keep),
        map s | s in a.finals && s in keep :: a.finals[s],
        RestrictStart(a.start, keep),
        Some(Alphabet(a)))
  }

  /** The transition loop of get_automata_restriction. */
  method KeepTransitions<S(==,!new), Y(==,!new)>(ts: seq<Transition<S, Y>>, keep: set<S>) returns (r: seq<Transition<S, Y>>)
    ensures r == FilterTransitions(ts, keep)
  {
    r := [];
    var i := 0;
    while i < |ts|
      invariant 0 <= i <= |ts|
      invariant r == FilterTransitions(ts[..i], keep)
    {
      assert ts[..i + 1][..i] == ts[..i];
      if ts[i].src in keep && ts[i].dest in keep {
        r := r + [ts[i]];
      }
      i := i + 1;
    }
    assert ts[..i] == ts;
  }

  /** The final-state loop of get_automata_restriction. */
  method KeepFinals<S(==,!new)>(finals: map<S, real>, keep: set<S>) returns (r: map<S, real>)
    ensures r == map s | s in finals && s in keep :: finals[s]
  {
    r := map[];
    var fs := finals.Keys;
    while fs != {}
      invariant fs <= finals.Keys
      invariant r.Keys == (finals.Keys - fs) * keep
      invariant forall s :: s in r ==> r[s] == finals[s]
    {
      var f :| f in fs;
      if f in keep {
        r := r[f := finals[f]];
      }
      fs := fs - {f};
    }
  }

  /** The initial-state loop of get_automata_restriction, with its fallback. */
  method KeepStart<S(==,!new)>(st: seq<(S, real)>, keep: set<S>) returns (r: seq<(S, real)>)
    ensures r == RestrictStart(st, keep)
  {
    r := KeepEntries(st, keep);
    if |r| == 0 && |st| > 0 {
      r := [st[0]];
    }
  }

  /** The loop over the initial entries, keeping those whose state is in `keep`. */
  method KeepEntries<S(==,!new)>(st: seq<(S, real)>, keep: set<S>) returns (r: seq<(S, real)>)
    ensures r == FilterStart(st, keep)
  {
    r := [];
    var i := 0;
    while i < |st|
      invariant 0 <= i <= |st|
      invariant r == FilterStart(st[..i], keep)
    {
      FilterStartSnoc(st, i, keep);
      if st[i].0 in keep {
        r := r + [st[i]];
      }
      i := i + 1;
    }
    assert st[..i] == st;
  }

  lemma FilterStartSnoc<S(!new)>(st: seq<(S, real)>, i: nat, keep: set<S>)
    requires i < |st|
    ensures FilterStart(st[..i + 1], keep) == FilterStart(st[..i], keep) + (if st[i].0 in keep then [st[i]] else [])
  {
    assert st[..i + 1][..i] == st[..i];
  }

  /** get_automata_restriction: the restriction to the states of `keep`. */
  method GetAutomataRestriction<S(==,!new), Y(==,!new)>(a: Wfa<S, Y>, keep: set<S>) returns (r: Wfa<S, Y>)
    ensures r == Restricted(a, keep)
  {
    var ts := KeepTransitions(a.transitions, keep);
    var fin := KeepFinals(a.finals, keep);
    var ini := KeepStart(a.start, keep);
    r := Wfa(ts, fin, ini, Some(Alphabet(a)));
  }

  /* ---------------- paths and reachability ---------------- */

  ghost predicate Edge<S(!new), Y(!new)>(a: Wfa<S, Y>, x: S, y: S) {
    exists t :: t in a.transitions && t.src == x && t.dest == y
  }

  ghost predicate Path<S(!new), Y(!new)>(a: Wfa<S, Y>, p: seq<S>) {
    |p| > 0 && forall i :: 0 <= i < |p| - 1 ==> Edge(a, p[i], p[i + 1])
  }

  /** `x` is reachable from some state of `from` along transitions. */
  ghost predicate Reachable<S(!new), Y(!new)>(a: Wfa<S, Y>, from: set<S>, x: S) {
    exists p :: Path(a, p) && p[0] in from && p[|p| - 1] == x
  }

  /** Some state of `to` is reachable from `x`. */
  ghost predicate CoReachable<S(!new), Y(!new)>(a: Wfa<S, Y>, to: set<S>, x: S) {
    exists p :: Path(a, p) && p[0] == x && p[|p| - 1] in to
  }

  /** Every transition leaving `c` stays in `c`. */
  ghost predicate Closed<S(!new), Y(!new)>(a: Wfa<S, Y>, c: set<S>) {
    forall t :: t in a.transitions && t.src in c ==> t.dest in c
  }

  lemma ReachableStep<S(!new), Y(!new)>(a: Wfa<S, Y>, from: set<S>, x: S, t: Transition<S, Y>)
    requires Reachable(a, from, x) && t in a.transitions && t.src == x
    ensures Reachable(a, from, t.dest)
  {
    var p :| Path(a, p) && p[0] in from && p[|p| - 1] == x;
    var q := p + [t.dest];
    assert Edge(a, q[|p| - 1], q[|p|]);
    assert Path(a, q);
  }

  lemma ReachableStart<S(!new), Y(!new)>(a: Wfa<S, Y>, from: set<S>, x: S)
    requires x in from
    ensures Reachable(a, from, x)
  {
    assert Path(a, [x]);
  }

  /** A closed set containing the sources contains everything reachable from them. */
  lemma {:induction false} ClosedContainsReachable<S(!new), Y(!new)>(a: Wfa<S, Y>, c: set<S>, from: set<S>, x: S)
    requires Closed(a, c) && from <= c && Reachable(a, from, x)
    ensures x in c
  {
    var p :| Path(a, p) && p[0] in from && p[|p| - 1] == x;
    var i := 0;
    while i < |p| - 1
      invariant 0 <= i <= |p| - 1
      invariant p[i] in c
    {
      assert Edge(a, p[i], p[i + 1]);
      var t :| t in a.transitions && t.src == p[i] && t.dest == p[i + 1];
      i := i + 1;
    }
  }

  /** Reachable states lie among the sources and the states of the automaton. */
  lemma ReachableIsState<S(!new), Y(!new)>(a: Wfa<S, Y>, from: set<S>, x: S)
    requires Reachable(a, from, x)
    ensures x in from || x in States(a)
  {
    var p :| Path(a, p) && p[0] in from && p[|p| - 1] == x;
    if |p| > 1 {
      assert Edge(a, p[|p| - 2], p[|p| - 1]);
      var t :| t in a.transitions && t.src == p[|p| - 2] && t.dest == p[|p| - 1];
    }
  }

  lemma DiffShrinks<T(!new)>(u: set<T>, small: set<T>, big: set<T>)
    requires small <= big <= u && small != big
    ensures |u - big| < |u - small|
  {
    var d := big - small;
    assert big == small + d;
    assert d != {};
    var x :| x in d;
    assert u - big <= (u - small) - {x};
  }

  /** The states queued by one round of the search stay among the states and
      stay reachable. */
  lemma QueueStaysReachable<S(!new), Y(!new)>(a: Wfa<S, Y>, state: S, U: set<S>, head: S, rest: seq<S>, queue: seq<S>)
    requires States(a) <= U
    requires head in U && Reachable(a, {state}, head)
    requires forall k :: 0 <= k < |rest| ==> rest[k] in U && Reachable(a, {state}, rest[k])
    requires |queue| >= |rest| && queue[..|rest|] == rest
    requires forall k :: |rest| <= k < |queue| ==> Edge(a, head, queue[k])
    ensures forall k :: 0 <= k < |queue| ==> queue[k] in U && Reachable(a, {state}, queue[k])
  {
    forall k | 0 <= k < |queue|
      ensures queue[k] in U && Reachable(a, {state}, queue[k])
    {
      if k < |rest| {
        assert queue[k] == queue[..|rest|][k];
      } else {
        assert Edge(a, head, queue[k]);
        var t :| t in a.transitions && t.src == head && t.dest == queue[k];
        ReachableStep(a, {state}, head, t);
      }
    }
  }

  /** Every transition leaving a visited state still ends in a visited or
      queued state after the head is expanded. */
  lemma EnqueueKeepsClosure<S(!new), Y(!new)>(a: Wfa<S, Y>, vis: set<S>, head: S, rest: seq<S>, queue: seq<S>)
    requires forall t :: t in a.transitions && t.src in vis ==> t.dest in vis || t.dest in [head] + rest
    requires |queue| >= |rest| && queue[..|rest|] == rest
    requires forall t :: t in a.transitions && t.src == head ==> t.dest in vis + {head} || t.dest in queue
    ensures forall t :: t in a.transitions && t.src in vis + {head} ==> t.dest in vis + {head} || t.dest in queue
  {
    forall t | t in a.transitions && t.src in vis + {head}
      ensures t.dest in vis + {head} || t.dest in queue
    {
      if t.src != head && t.dest !in vis && t.dest != head {
        assert t.dest in rest;
        var k :| 0 <= k < |rest| && rest[k] == t.dest;
        assert queue[k] == queue[..|rest|][k];
      }
    }
  }

  /** The termination measure of the search: visiting the head and queueing
      fresh states never grows the unexplored part of `U`, and queueing
      something shrinks it. */
  lemma QueueMeasureDecreases<S(!new)>(U: set<S>, oldVis: set<S>, head: S, rest: seq<S>, queue: seq<S>)
    requires oldVis + {head} <= U
    requires forall k :: 0 <= k < |queue| ==> queue[k] in U
    requires |queue| >= |rest| && queue[..|rest|] == rest
    requires forall k :: |rest| <= k < |queue| ==> queue[k] !in oldVis + {head} && queue[k] !in rest
    ensures |U - (oldVis + {head} + set q | q in queue)| < |U - (oldVis + set q | q in [head] + rest)|
      || (|U - (oldVis + {head} + set q | q in queue)| == |U - (oldVis + set q | q in [head] + rest)| && |queue| < |rest| + 1)
  {
    var before := oldVis + set q | q in [head] + rest;
    var after := oldVis + {head} + set q | q in queue;
    assert before == oldVis + {head} + set q | q in rest;
    forall q | q in rest ensures q in queue {
      var k :| 0 <= k < |rest| && rest[k] == q;
      assert queue[k] == queue[..|rest|][k];
    }
    assert before <= after <= U;
    if |queue| > |rest| {
      assert queue[|rest|] in after - before;
      DiffShrinks(U, before, after);
    } else {
      assert queue == queue[..|rest|];
      assert after == before;
    }
  }

  /* ---------------- breadth-first search ---------------- */

  lemma HeadRest<P>(s: seq<P>)
    requires s != []
    ensures s == [s[0]] + s[1..]
  {
  }

  /** The inner loop of breadth_first_search: queues each destination of a
      transition leaving `head` that is neither visited nor queued. */
  method EnqueueSuccessors<S(==,!new), Y(==,!new)>(a: Wfa<S, Y>, head: S, vis: set<S>, queue: seq<S>)
    returns (q: seq<S>)
    ensures |q| >= |queue| && q[..|queue|] == queue
    ensures forall k :: |queue| <= k < |q| ==> q[k] !in vis && q[k] !in queue && Edge(a, head, q[k])
    ensures forall t :: t in a.transitions && t.src == head ==> t.dest in vis || t.dest in q
  {
    q := queue;
    var j := 0;
    while j < |a.transitions|
      invariant 0 <= j <= |a.transitions|
      invariant |q| >= |queue| && q[..|queue|] == queue
      invariant forall k :: |queue| <= k < |q| ==> q[k] !in vis && q[k] !in queue && Edge(a, head, q[k])
      invariant forall k :: 0 <= k < j && a.transitions[k].src == head ==> a.transitions[k].dest in vis || a.transitions[k].dest in q
    {
      var t := a.transitions[j];
      if t.src == head && t.dest !in vis && t.dest !in q {
        assert Edge(a, head, t.dest);
        q := q + [t.dest];
      }
      j := j + 1;
    }
  }

  /** The loop invariant of breadth_first_search. */
  ghost predicate SearchInv<S(!new), Y(!new)>(a: Wfa<S, Y>, state: S, visited: set<S>, U: set<S>, vis: set<S>, queue: seq<S>) {
    && visited <= vis <= U
    && (forall k :: 0 <= k < |queue| ==> queue[k] in U && Reachable(a, {state}, queue[k]))
    && (forall x :: x in vis && x !in visited ==> Reachable(a, {state}, x))
    && (state in vis || state in queue)
    && (forall t :: t in a.transitions && t.src in vis ==> t.dest in vis || t.dest in queue)
  }

  /** One round of breadth_first_search keeps its invariant and shrinks the
      set of states not yet seen, or else the queue. */
  lemma SearchStep<S(!new), Y(!new)>(a: Wfa<S, Y>, state: S, visited: set<S>, U: set<S>, vis: set<S>, queue: seq<S>, q: seq<S>)
    requires U == States(a) + visited + {state} && queue != []
    requires SearchInv(a, state, visited, U, vis, queue)
    requires |q| >= |queue| - 1 && q[..|queue| - 1] == queue[1..]
    requires forall k :: |queue| - 1 <= k < |q| ==> q[k] !in vis + {queue[0]} && q[k] !in queue[1..] && Edge(a, queue[0], q[k])
    requires forall t :: t in a.transitions && t.src == queue[0] ==> t.dest in vis + {queue[0]} || t.dest in q
    ensures SearchInv(a, state, visited, U, vis + {queue[0]}, q)
    ensures |U - (vis + {queue[0]} + set x | x in q)| < |U - (vis + set x | x in queue)|
      || (|U - (vis + {queue[0]} + set x | x in q)| == |U - (vis + set x | x in queue)| && |q| < |queue|)
  {
    var head := queue[0];
    var rest := queue[1..];
    HeadRest(queue);
    StatesCover(a);
    QueueStaysReachable(a, state, U, head, rest, q);
    EnqueueKeepsClosure(a, vis, head, rest, q);
    QueueMeasureDecreases(U, vis, head, rest, q);
  }

  /** breadth_first_search: adds to `visited` every state reachable from
      `state`. */
  method BreadthFirstSearch<S(==,!new), Y(==,!new)>(a: Wfa<S, Y>, state: S, visited: set<S>) returns (vis: set<S>)
    requires Closed(a, visited)
    ensures Closed(a, vis)
    ensures forall x :: x in vis <==> x in visited || Reachable(a, {state}, x)
  {
    ghost var U := States(a) + visited + {state};
    var queue := [state];
    vis := visited;
    ReachableStart(a, {state}, state);
    while |queue| > 0
      invariant SearchInv(a, state, visited, U, vis, queue)
      decreases |U - (vis + set q | q in queue)|, |queue|
    {
      var head := queue[0];
      var q := EnqueueSuccessors(a, head, vis + {head}, queue[1..]);
      SearchStep(a, state, visited, U, vis, queue, q);
      vis, queue := vis + {head}, q;
    }
    forall x | Reachable(a, {state}, x) ensures x in vis {
      ClosedContainsReachable(a, vis, {state}, x);
    }
  }

  /* ---------------- accessible and co-accessible states ---------------- */

  lemma ReachableUnion<S(!new), Y(!new)>(a: Wfa<S, Y>, f: set<S>, g: set<S>, x: S)
    ensures Reachable(a, f + g, x) <==> Reachable(a, f, x) || Reachable(a, g, x)
  {
    if Reachable(a, f + g, x) {
      var p :| Path(a, p) && p[0] in f + g && p[|p| - 1] == x;
      assert p[0] in f ==> Reachable(a, f, x);
      assert p[0] in g ==> Reachable(a, g, x);
    }
    if Reachable(a, f, x) {
      var p :| Path(a, p) && p[0] in f && p[|p| - 1] == x;
      assert p[0] in f + g;
    }
    if Reachable(a, g, x) {
      var p :| Path(a, p) && p[0] in g && p[|p| - 1] == x;
      assert p[0] in f + g;
    }
  }

  /** get_accessible_states: a search from every initial state. */
  method GetAccessibleStates<S(==,!new), Y(==,!new)>(a: Wfa<S, Y>) returns (vis: set<S>)
    ensures forall x :: x in vis <==> Reachable(a, StartKeys(a), x)
  {
    vis := {};
    var i := 0;
    while i < |a.start|
      invariant 0 <= i <= |a.start|
      invariant Closed(a, vis)
      invariant forall x :: x in vis <==> Reachable(a, set p | p in a.start[..i] :: p.0, x)
    {
      ghost var done := set p | p in a.start[..i] :: p.0;
      assert a.start[..i + 1] == a.start[..i] + [a.start[i]];
      assert (set p | p in a.start[..i + 1] :: p.0) == done + {a.start[i].0};
      vis := BreadthFirstSearch(a, a.start[i].0, vis);
      forall x ensures x in vis <==> Reachable(a, done + {a.start[i].0}, x) {
        ReachableUnion(a, done, {a.start[i].0}, x);
      }
      i := i + 1;
    }
    assert a.start[..i] == a.start;
  }

  /** The automaton with every transition turned around; finals, initials
      and alphabet carried over. */
  function Reversed<S(==,!new), Y(==,!new)>(a: Wfa<S, Y>): (r: Wfa<S, Y>)
    ensures |r.transitions| == |a.transitions|
    ensures forall i :: 0 <= i < |a.transitions| ==>
      var t := a.transitions[i];
      r.transitions[i] == Transition(t.dest, t.src, t.symbol, t.weight)
  {
    Wfa(seq(|a.transitions|, i requires 0 <= i < |a.transitions| =>
          Transition(a.transitions[i].dest, a.transitions[i].src, a.transitions[i].symbol, a.transitions[i].weight)),
        a.finals, a.start, Some(Alphabet(a)))
  }

  /** get_rev_transitions_aut. */
  method GetRevTransitionsAut<S(==,!new), Y(==,!new)>(a: Wfa<S, Y>) returns (r: Wfa<S, Y>)
    ensures r == Reversed(a)
  {
    var ts: seq<Transition<S, Y>> := [];
    var i := 0;
    while i < |a.transitions|
      invariant 0 <= i <= |a.transitions|
      invariant |ts| == i
      invariant forall k :: 0 <= k < i ==>
        ts[k] == Transition(a.transitions[k].dest, a.transitions[k].src, a.transitions[k].symbol, a.transitions[k].weight)
    {
      var t := a.transitions[i];
      ts := ts + [Transition(t.dest, t.src, t.symbol, t.weight)];
      i := i + 1;
    }
    r := Wfa(ts, a.finals, a.start, Some(Alphabet(a)));
  }

  lemma ReversedEdge<S(!new), Y(!new)>(a: Wfa<S, Y>, x: S, y: S)
    ensures Edge(Reversed(a), x, y) <==> Edge(a, y, x)
  {
    var r := Reversed(a);
    if Edge(r, x, y) {
      var t :| t in r.transitions && t.src == x && t.dest == y;
      var i :| 0 <= i < |r.transitions| && r.transitions[i] == t;
      assert a.transitions[i].src == y && a.transitions[i].dest == x;
    }
    if Edge(a, y, x) {
      var t :| t in a.transitions && t.src == y && t.dest == x;
      var i :| 0 <= i < |a.transitions| && a.transitions[i] == t;
      assert r.transitions[i].src == x && r.transitions[i].dest == y;
    }
  }

  function Backwards<T>(p: seq<T>): (r: seq<T>)
    ensures |r| == |p|
    ensures forall i :: 0 <= i < |p| ==> r[i] == p[|p| - 1 - i]
  {
    seq(|p|, i requires 0 <= i < |p| => p[|p| - 1 - i])
  }

  /** A path read backwards is a path of the reversed automaton, and conversely. */
  lemma BackwardsPath<S(!new), Y(!new)>(a: Wfa<S, Y>, p: seq<S>)
    ensures Path(a, p) <==> Path(Reversed(a), Backwards(p))
  {
    var q := Backwards(p);
    if Path(a, p) {
      forall i | 0 <= i < |q| - 1 ensures Edge(Reversed(a), q[i], q[i + 1]) {
        var j := |p| - 2 - i;
        assert Edge(a, p[j], p[j + 1]);
        ReversedEdge(a, q[i], q[i + 1]);
      }
    }
    if Path(Reversed(a), q) {
      forall j | 0 <= j < |p| - 1 ensures Edge(a, p[j], p[j + 1]) {
        var i := |p| - 2 - j;
        assert Edge(Reversed(a), q[i], q[i + 1]);
        ReversedEdge(a, q[i], q[i + 1]);
      }
    }
  }

  /** Reachability in the reversed automaton is co-reachability in the original. */
  lemma ReversedReachable<S(!new), Y(!new)>(a: Wfa<S, Y>, to: set<S>, x: S)
    ensures Reachable(Reversed(a), to, x) <==> CoReachable(a, to, x)
  {
    if Reachable(Reversed(a), to, x) {
      var q :| Path(Reversed(a), q) && q[0] in to && q[|q| - 1] == x;
      var p := Backwards(q);
      assert Backwards(p) == q;
      BackwardsPath(a, p);
      assert p[0] == x && p[|p| - 1] in to;
    }
    if CoReachable(a, to, x) {
      var p :| Path(a, p) && p[0] == x && p[|p| - 1] in to;
      BackwardsPath(a, p);
      var q := Backwards(p);
      assert q[0] in to && q[|q| - 1] == x;
    }
  }

  /** get_coaccessible_states: a search from every final state of the
      reversed automaton. */
  method GetCoaccessibleStates<S(==,!new), Y(==,!new)>(a: Wfa<S, Y>) returns (vis: set<S>)
    ensures forall x :: x in vis <==> CoReachable(a, a.finals.Keys, x)
  {
    var rev := GetRevTransitionsAut(a);
    vis := {};
    var fs := rev.finals.Keys;
    while fs != {}
      invariant fs <= a.finals.Keys
      invariant Closed(rev, vis)
      invariant forall x :: x in vis <==> Reachable(rev, a.finals.Keys - fs, x)
    {
      var f :| f in fs;
      ghost var done := a.finals.Keys - fs;
      vis := BreadthFirstSearch(rev, f, vis);
      fs := fs - {f};
      assert a.finals.Keys - fs == done + {f};
      forall x ensures x in vis <==> Reachable(rev, done + {f}, x) {
        ReachableUnion(rev, done, {f}, x);
      }
    }
    forall x ensures x in vis <==> CoReachable(a, a.finals.Keys, x) {
      ReversedReachable(a, a.finals.Keys, x);
    }
  }

  /** A useful state lies on a path from an initial state to a final one. */
  ghost predicate Useful<S(!new), Y(!new)>(a: Wfa<S, Y>, x: S) {
    Reachable(a, StartKeys(a), x) && CoReachable(a, a.finals.Keys, x)
  }

  /** get_trim_automaton: the restriction to the useful states. */
  method GetTrimAutomaton<S(==,!new), Y(==,!new)>(a: Wfa<S, Y>) returns (r: Wfa<S, Y>)
    ensures exists keep: set<S> :: (forall x :: x in keep <==> Useful(a, x)) && r == Restricted(a, keep)
    ensures forall t :: t in r.transitions <==> t in a.transitions && Useful(a, t.src) && Useful(a, t.dest)
    ensures forall s :: s in r.finals <==> s in a.finals && Useful(a, s)
  {
    var co := GetCoaccessibleStates(a);
    var acc := GetAccessibleStates(a);
    var sts := co * acc;
    r := GetAutomataRestriction(a, sts);
    assert forall x :: x in sts <==> Useful(a, x);
  }

  /** get_predecessors: the sources of the transitions entering `state`. */
  method GetPredecessors<S(==,!new), Y(==,!new)>(a: Wfa<S, Y>, state: S) returns (r: set<S>)
    ensures forall x :: x in r <==> Edge(a, x, state)
  {
    r := {};
    var i := 0;
    while i < |a.transitions|
      invariant 0 <= i <= |a.transitions|
      invariant forall x :: x in r <==> exists k :: 0 <= k < i && a.transitions[k].src == x && a.transitions[k].dest == state
    {
      if a.transitions[i].dest == state {
        r := r + {a.transitions[i].src};
      }
      i := i + 1;
    }
    forall x ensures x in r <==> Edge(a, x, state) {
      if Edge(a, x, state) {
        var t :| t in a.transitions && t.src == x && t.dest == state;
        var k :| 0 <= k < |a.transitions| && a.transitions[k] == t;
      }
    }
  }

  /* ---------------- determinism ---------------- */

  /** The transitions of `ts` leaving `s` on `y`. */
  function Group<S(==,!new), Y(==,!new)>(ts: seq<Transition<S, Y>>, s: S, y: Y): set<Transition<S, Y>> {
    set t | t in ts && t.src == s && t.symbol == y
  }

  /** The symbols on which `ts` leaves `s`. */
  function Labels<S(==,!new), Y(==,!new)>(ts: seq<Transition<S, Y>>, s: S): set<Y> {
    set t | t in ts && t.src == s :: t.symbol
  }

  /** One more transition of the scan. */
  method AddToGroups<S(==,!new), Y(==,!new)>(d: map<S, map<Y, set<Transition<S, Y>>>>, ts: seq<Transition<S, Y>>, t: Transition<S, Y>)
    returns (e: map<S, map<Y, set<Transition<S, Y>>>>)
    requires t.src in d
    requires forall s :: s in d ==> d[s].Keys == Labels(ts, s)
    requires forall s, y :: s in d && y in d[s] ==> d[s][y] == Group(ts, s, y)
    ensures e.Keys == d.Keys
    ensures forall s :: s in e ==> e[s].Keys == Labels(ts + [t], s)
    ensures forall s, y :: s in e && y in e[s] ==> e[s][y] == Group(ts + [t], s, y)
  {
    var row := d[t.src];
    if t.symbol in row {
      row := row[t.symbol := row[t.symbol] + {t}];
    } else {
      row := row[t.symbol := {t}];
    }
    e := d[t.src := row];
    forall s | s in e ensures e[s].Keys == Labels(ts + [t], s) {
      assert forall u :: u in ts + [t] <==> u in ts || u == t;
    }
    forall s, y | s in e && y in e[s] ensures e[s][y] == Group(ts + [t], s, y) {
      assert forall u :: u in ts + [t] <==> u in ts || u == t;
      if s == t.src && y == t.symbol && t.symbol !in d[t.src] {
        assert y !in Labels(ts, s);
        assert Group(ts, s, y) == {};
      }
    }
  }

  /** get_state_symbol_dict: for every state, the transitions leaving it
      grouped by symbol. */
  method GetStateSymbolDict<S(==,!new), Y(==,!new)>(a: Wfa<S, Y>) returns (d: map<S, map<Y, set<Transition<S, Y>>>>)
    ensures d.Keys == States(a)
    ensures forall s, y :: s in d && y in d[s] ==> d[s][y] != {}
    ensures forall s, y, t :: s in d && y in d[s] ==> (t in d[s][y] <==> t in a.transitions && t.src == s && t.symbol == y)
    ensures forall t :: t in a.transitions ==> t.symbol in d[t.src]
  {
    var sts := GetStates(a);
    d := map s | s in sts :: map[];
    var i := 0;
    while i < |a.transitions|
      invariant 0 <= i <= |a.transitions|
      invariant d.Keys == States(a)
      invariant forall s :: s in d ==> d[s].Keys == Labels(a.transitions[..i], s)
      invariant forall s, y :: s in d && y in d[s] ==> d[s][y] == Group(a.transitions[..i], s, y)
    {
      assert a.transitions[..i + 1] == a.transitions[..i] + [a.transitions[i]];
      d := AddToGroups(d, a.transitions[..i], a.transitions[i]);
      i := i + 1;
    }
    assert a.transitions[..i] == a.transitions;
    forall s, y | s in d && y in d[s] ensures d[s][y] != {} {
      var t :| t in a.transitions && t.src == s && t.symbol == y;
      assert t in Group(a.transitions, s, y);
    }
    forall t | t in a.transitions ensures t.symbol in d[t.src] {
      assert t.symbol in Labels(a.transitions, t.src);
    }
  }

  /** No state has two distinct transitions on the same symbol. */
  predicate DeterministicTransitions<S(==,!new), Y(==,!new)>(a: Wfa<S, Y>) {
    forall t1, t2 :: t1 in a.transitions && t2 in a.transitions && t1.src == t2.src && t1.symbol == t2.symbol ==> t1 == t2
  }

  lemma AtMostOne<T(!new)>(x: set<T>)
    ensures |x| <= 1 <==> forall u, v :: u in x && v in x ==> u == v
  {
    if |x| > 1 {
      var u :| u in x;
      assert |x - {u}| == |x| - 1;
      var v :| v in x - {u};
    } else if x != {} {
      var u :| u in x;
      assert |x - {u}| == 0;
    }
  }

  /** is_deterministic: at most one initial state and no two distinct
      transitions from one state on one symbol (equal transitions collapse). */
  method IsDeterministic<S(==,!new), Y(==,!new)>(a: Wfa<S, Y>) returns (r: bool)
    ensures r <==> |a.start| <= 1 && DeterministicTransitions(a)
  {
    if |a.start| > 1 {
      return false;
    }
    var d := GetStateSymbolDict(a);
    r := forall s, y :: s in d && y in d[s] ==> |d[s][y]| <= 1;
    forall s, y | s in d && y in d[s] ensures |d[s][y]| <= 1 <==> forall u, v :: u in d[s][y] && v in d[s][y] ==> u == v {
      AtMostOne(d[s][y]);
    }
    if !DeterministicTransitions(a) {
      var t1, t2 :| t1 in a.transitions && t2 in a.transitions && t1.src == t2.src && t1.symbol == t2.symbol && t1 != t2;
      assert t1 in d[t1.src][t1.symbol] && t2 in d[t1.src][t1.symbol];
    }
  }

  /* ---------------- deterministic acceptance ---------------- */

  /** The outcome of string_prob_deterministic: a log-probability, `None`
      (rejection), or an exception escaping the call. */
  datatype Acceptance = Accepted(logProb: real) | Rejected | Raised

  function Shift(p: real, r: Acceptance): Acceptance {
    if r.Accepted? then Accepted(p + r.logProb) else r
  }

  /** The transition taken from `src` on `sym`: the first one in order. */
  function FirstTransition<S(==,!new), Y(==,!new)>(ts: seq<Transition<S, Y>>, src: S, sym: Y): (r: Option<Transition<S, Y>>)
    ensures r.None? <==> forall t :: t in ts ==> !(t.src == src && t.symbol == sym)
    ensures r.Some? ==> r.value in ts && r.value.src == src && r.value.symbol == sym
  {
    if ts == [] then None
    else if ts[0].src == src && ts[0].symbol == sym then Some(ts[0])
    else FirstTransition(ts[1..], src, sym)
  }

  /** Reading `word` from `q`: a missing transition, a non-positive weight or
      a non-positive or missing final weight rejects; otherwise the natural
      logarithms of the weights are summed. */
  function RunFrom<S(==,!new), Y(==,!new)>(a: Wfa<S, Y>, q: S, word: seq<Y>, ln: real -> real): (r: Acceptance)
    ensures r != Raised
    decreases |word|
  {
    if word == [] then
      if q in a.finals && a.finals[q] > 0.0 then Accepted(ln(a.finals[q])) else Rejected
    else
      match FirstTransition(a.transitions, q, word[0])
      case None => Rejected
      case Some(t) =>
        if t.weight <= 0.0 then Rejected
        else Shift(ln(t.weight), RunFrom(a, t.dest, word[1..], ln))
  }

  /** string_prob_deterministic, as a function of the automaton and the word:
      an empty initial dictionary or a non-positive first initial weight
      raises; otherwise the run from the first initial state decides. */
  function StringProb<S(==,!new), Y(==,!new)>(a: Wfa<S, Y>, word: seq<Y>, ln: real -> real): Acceptance {
    if a.start == [] then Raised
    else if a.start[0].1 <= 0.0 then Raised
    else Shift(ln(a.start[0].1), RunFrom(a, a.start[0].0, word, ln))
  }

  /** string_prob_deterministic: the natural logarithm `ln` is a parameter. */
  method StringProbDeterministic<S(==,!new), Y(==,!new)>(a: Wfa<S, Y>, word: seq<Y>, ln: real -> real) returns (r: Acceptance)
    ensures r == StringProb(a, word, ln)
  {
    if |a.start| == 0 || a.start[0].1 <= 0.0 {
      return Raised;
    }
    var act := a.start[0].0;
    var prob := ln(a.start[0].1);
    var i := 0;
    while i < |word|
      invariant 0 <= i <= |word|
      invariant StringProb(a, word, ln) == Shift(prob, RunFrom(a, act, word[i..], ln))
    {
      var n := FirstTransition(a.transitions, act, word[i]);
      if n.None? || n.value.weight <= 0.0 {
        return Rejected;
      }
      assert word[i..][1..] == word[i + 1..];
      prob := prob + ln(n.value.weight);
      act := n.value.dest;
      i := i + 1;
    }
    if act !in a.finals || a.finals[act] <= 0.0 {
      return Rejected;
    }
    r := Accepted(prob + ln(a.finals[act]));
  }

  /** `ts` reads `word` from `q` through positive weights into a state with a
      positive final weight. */
  ghost predicate PositiveRun<S(!new), Y(!new)>(a: Wfa<S, Y>, q: S, word: seq<Y>, ts: seq<Transition<S, Y>>) {
    && |ts| == |word|
    && (forall k :: 0 <= k < |ts| ==> ts[k] in a.transitions && ts[k].symbol == word[k] && ts[k].weight > 0.0)
    && (|ts| > 0 ==> ts[0].src == q)
    && (forall k :: 0 < k < |ts| ==> ts[k].src == ts[k - 1].dest)
    && var last := if ts == [] then q else ts[|ts| - 1].dest;
       last in a.finals && a.finals[last] > 0.0
  }

  /** The run the model takes is a positive run. */
  lemma {:induction false} AcceptedHasRun<S(!new), Y(!new)>(a: Wfa<S, Y>, q: S, word: seq<Y>, ln: real -> real)
    requires RunFrom(a, q, word, ln).Accepted?
    ensures exists ts :: PositiveRun(a, q, word, ts)
    decreases |word|
  {
    if word == [] {
      assert PositiveRun(a, q, word, []);
    } else {
      var t := FirstTransition(a.transitions, q, word[0]).value;
      AcceptedHasRun(a, t.dest, word[1..], ln);
      var rest :| PositiveRun(a, t.dest, word[1..], rest);
      var ts := [t] + rest;
      assert forall k :: 0 < k < |ts| ==> ts[k] == rest[k - 1];
      assert PositiveRun(a, q, word, ts);
    }
  }

  /** In a deterministic automaton every positive run is the one the model
      takes, so it is accepted. */
  lemma {:induction false} RunIsAccepted<S(!new), Y(!new)>(a: Wfa<S, Y>, q: S, word: seq<Y>, ts: seq<Transition<S, Y>>, ln: real -> real)
    requires DeterministicTransitions(a) && PositiveRun(a, q, word, ts)
    ensures RunFrom(a, q, word, ln).Accepted?
    decreases |word|
  {
    if word != [] {
      var n := FirstTransition(a.transitions, q, word[0]);
      assert ts[0] in a.transitions && ts[0].src == q && ts[0].symbol == word[0];
      assert n.value == ts[0];
      var rest := ts[1..];
      assert forall k :: 0 <= k < |rest| ==> rest[k] == ts[k + 1];
      assert PositiveRun(a, ts[0].dest, word[1..], rest);
      RunIsAccepted(a, ts[0].dest, word[1..], rest, ln);
    }
  }

  /** For a deterministic automaton with a positive initial weight, a word is
      rejected exactly when no path reads it through positive weights into a
      positive final weight. */
  lemma DeterministicRejection<S(!new), Y(!new)>(a: Wfa<S, Y>, word: seq<Y>, ln: real -> real)
    requires DeterministicTransitions(a) && a.start != [] && a.start[0].1 > 0.0
    ensures StringProb(a, word, ln) == Rejected <==> !exists ts :: PositiveRun(a, a.start[0].0, word, ts)
  {
    if StringProb(a, word, ln).Accepted? {
      AcceptedHasRun(a, a.start[0].0, word, ln);
    }
    if exists ts :: PositiveRun(a, a.start[0].0, word, ts) {
      var ts :| PositiveRun(a, a.start[0].0, word, ts);
      RunIsAccepted(a, a.start[0].0, word, ts, ln);
    }
  }

  /* ---------------- renaming ---------------- */

  predicate Injective<S(==,!new)>(d: map<S, int>) {
    forall s1, s2 :: s1 in d && s2 in d && s1 != s2 ==> d[s1] != d[s2]
  }

  /** Each transition with its ends renamed, in order. */
  function RenamedTransitions<S(==,!new), Y(==,!new)>(ts: seq<Transition<S, Y>>, d: map<S, int>): (r: seq<Transition<int, Y>>)
    requires forall t :: t in ts ==> t.src in d && t.dest in d
    ensures |r| == |ts|
    ensures forall i :: 0 <= i < |ts| ==> r[i] == Transition(d[ts[i].src], d[ts[i].dest], ts[i].symbol, ts[i].weight)
  {
    seq(|ts|, i requires 0 <= i < |ts| => Transition(d[ts[i].src], d[ts[i].dest], ts[i].symbol, ts[i].weight))
  }

  /** Each initial entry with its state renamed, in order. */
  function RenamedStart<S(==,!new)>(st: seq<(S, real)>, d: map<S, int>): (r: seq<(int, real)>)
    requires forall p :: p in st ==> p.0 in d
    ensures |r| == |st|
    ensures forall i :: 0 <= i < |st| ==> r[i] == (d[st[i].0], st[i].1)
  {
    seq(|st|, i requires 0 <= i < |st| => (d[st[i].0], st[i].1))
  }

  /** The final dictionary with its states renamed. */
  function RenamedFinals<S(==,!new)>(finals: map<S, real>, d: map<S, int>): (r: map<int, real>)
    requires finals.Keys <= d.Keys && Injective(d)
    ensures forall s :: s in finals ==> d[s] in r && r[d[s]] == finals[s]
    ensures forall k :: k in r ==> exists s :: s in finals && d[s] == k
  {
    map s | s in finals :: d[s] := finals[s]
  }

  /** The automaton with every state `s` replaced by `d[s]`. */
  function RenamedWith<S(==,!new), Y(==,!new)>(a: Wfa<S, Y>, d: map<S, int>): Wfa<int, Y>
    requires States(a) <= d.Keys && Injective(d)
  {
    Wfa(RenamedTransitions(a.transitions, d),
        RenamedFinals(a.finals, d),
        RenamedStart(a.start, d),
        a.alphabet)
  }

  /** `d` numbers its keys densely: a bijection onto 0..n-1. */
  predicate Numbering<S(==,!new)>(d: map<S, int>, n: int) {
    && |d| == n && Injective(d)
    && (forall s :: s in d ==> 0 <= d[s] < n)
    && (forall k :: 0 <= k < n ==> k in d.Values)
  }

  lemma ExtendNumbering<S(!new)>(d: map<S, int>, s: S, n: int)
    requires s !in d && Numbering(d, n)
    ensures Numbering(d[s := n], n + 1)
  {
    var e := d[s := n];
    forall k | 0 <= k < n + 1 ensures k in e.Values {
      if k < n {
        assert k in d.Values;
        var x :| x in d && d[x] == k;
        assert e[x] == k;
      } else {
        assert e[s] == k;
      }
    }
  }

  /** `d` numbers the first `i` initial states by their position. */
  predicate NumberedPrefix<S(!new)>(d: map<S, int>, st: seq<(S, real)>, i: nat)
    requires i <= |st|
  {
    && d.Keys == (set p | p in st[..i] :: p.0)
    && Numbering(d, i)
    && forall k :: 0 <= k < i ==> st[k].0 in d && d[st[k].0] == k
  }

  lemma NumberedPrefixStep<S(!new)>(d: map<S, int>, st: seq<(S, real)>, i: nat)
    requires DistinctKeys(st) && i < |st| && NumberedPrefix(d, st, i)
    ensures NumberedPrefix(d[st[i].0 := i], st, i + 1)
  {
    assert st[..i + 1] == st[..i] + [st[i]];
    forall p | p in st[..i] ensures p.0 != st[i].0 {
      var k :| 0 <= k < i && st[k] == p;
    }
    ExtendNumbering(d, st[i].0, i);
  }

  /** The first loop of rename_states: initial states numbered in order. */
  method NumberInitials<S(==,!new)>(st: seq<(S, real)>) returns (d: map<S, int>)
    requires DistinctKeys(st)
    ensures d.Keys == set p | p in st :: p.0
    ensures Numbering(d, |st|)
    ensures forall k :: 0 <= k < |st| ==> d[st[k].0] == k
  {
    d := map[];
    var i := 0;
    while i < |st|
      invariant 0 <= i <= |st| && NumberedPrefix(d, st, i)
    {
      NumberedPrefixStep(d, st, i);
      d := d[st[i].0 := i];
      i := i + 1;
    }
    assert st[..i] == st;
  }

  /** The second loop of rename_states: every other state gets the next
      number, in an unspecified order. */
  method NumberRest<S(==,!new)>(d0: map<S, int>, sts: set<S>) returns (d: map<S, int>)
    requires d0.Keys <= sts && Numbering(d0, |d0|)
    ensures d.Keys == sts && Numbering(d, |d|)
    ensures forall s :: s in d0 ==> d[s] == d0[s]
  {
    d := d0;
    var rest := sts - d.Keys;
    while rest != {}
      invariant rest == sts - d.Keys && d0.Keys <= d.Keys <= sts
      invariant Numbering(d, |d|)
      invariant forall s :: s in d0 ==> d[s] == d0[s]
      decreases rest
    {
      var s :| s in rest;
      ExtendNumbering(d, s, |d|);
      d := d[s := |d|];
      rest := rest - {s};
    }
    forall s | s in sts ensures s in d {
      assert s !in d ==> s in rest;
    }
  }

  /** The numbering of rename_states. */
  method NumberStates<S(==,!new), Y(==,!new)>(a: Wfa<S, Y>) returns (d: map<S, int>)
    requires ValidStart(a)
    ensures d.Keys == States(a) && Numbering(d, |d|)
    ensures forall i :: 0 <= i < |a.start| ==> d[a.start[i].0] == i
  {
    var d0 := NumberInitials(a.start);
    var sts := GetStates(a);
    d := NumberRest(d0, sts);
  }

  lemma StatesCover<S(!new), Y(!new)>(a: Wfa<S, Y>)
    ensures forall p :: p in a.start ==> p.0 in States(a)
    ensures forall t :: t in a.transitions ==> t.src in States(a) && t.dest in States(a)
    ensures a.finals.Keys <= States(a)
  {
  }

  /** The initial dictionary of rename_states. */
  method RenameInitials<S(==,!new)>(st: seq<(S, real)>, d: map<S, int>) returns (ini: seq<(int, real)>)
    requires forall p :: p in st ==> p.0 in d
    ensures ini == RenamedStart(st, d)
  {
    ini := [];
    var i := 0;
    while i < |st|
      invariant 0 <= i <= |st| && |ini| == i
      invariant forall k :: 0 <= k < i ==> ini[k] == (d[st[k].0], st[k].1)
    {
      ini := ini + [(d[st[i].0], st[i].1)];
      i := i + 1;
    }
  }

  /** The final dictionary of rename_states. */
  method RenameFinals<S(==,!new)>(finals: map<S, real>, d: map<S, int>) returns (fin: map<int, real>)
    requires finals.Keys <= d.Keys && Injective(d)
    ensures fin == RenamedFinals(finals, d)
  {
    fin := map[];
    var fs := finals.Keys;
    while fs != {}
      invariant fs <= finals.Keys
      invariant fin == map s | s in finals.Keys - fs :: d[s] := finals[s]
    {
      var f :| f in fs;
      fin := fin[d[f] := finals[f]];
      fs := fs - {f};
    }
  }

  /** The transition list of rename_states. */
  method RenameTransitions<S(==,!new), Y(==,!new)>(ts: seq<Transition<S, Y>>, d: map<S, int>) returns (rs: seq<Transition<int, Y>>)
    requires forall t :: t in ts ==> t.src in d && t.dest in d
    ensures rs == RenamedTransitions(ts, d)
  {
    rs := [];
    var i := 0;
    while i < |ts|
      invariant 0 <= i <= |ts| && |rs| == i
      invariant forall k :: 0 <= k < i ==> rs[k] == Transition(d[ts[k].src], d[ts[k].dest], ts[k].symbol, ts[k].weight)
    {
      var t := ts[i];
      rs := rs + [Transition(d[t.src], d[t.dest], t.symbol, t.weight)];
      i := i + 1;
    }
  }

  /** rename_states: the states become 0..n-1, initial states first in
      order; symbols and weights are carried over. Returns the renamed
      automaton and the renaming dictionary. */
  method RenameStates<S(==,!new), Y(==,!new)>(a: Wfa<S, Y>) returns (r: Wfa<int, Y>, d: map<S, int>)
    requires ValidStart(a)
    ensures d.Keys == States(a) && Numbering(d, |d|)
    ensures forall i :: 0 <= i < |a.start| ==> d[a.start[i].0] == i
    ensures r == RenamedWith(a, d)
  {
    d := NumberStates(a);
    StatesCover(a);
    var ini := RenameInitials(a.start, d);
    var fin := RenameFinals(a.finals, d);
    var ts := RenameTransitions(a.transitions, d);
    r := Wfa(ts, fin, ini, a.alphabet);
  }

  lemma {:induction false} RenamedFirstTransition<S(!new), Y(!new)>(ts: seq<Transition<S, Y>>, d: map<S, int>, q: S, y: Y)
    requires Injective(d) && q in d
    requires forall t :: t in ts ==> t.src in d && t.dest in d
    ensures match FirstTransition(ts, q, y)
      case None => FirstTransition(RenamedTransitions(ts, d), d[q], y).None?
      case Some(t) => FirstTransition(RenamedTransitions(ts, d), d[q], y) == Some(Transition(d[t.src], d[t.dest], t.symbol, t.weight))
  {
    if ts != [] {
      RenamedFirstTransition(ts[1..], d, q, y);
      assert RenamedTransitions(ts, d)[1..] == RenamedTransitions(ts[1..], d);
    }
  }

  lemma RenamedFinal<S(!new), Y(!new)>(a: Wfa<S, Y>, d: map<S, int>, q: S)
    requires States(a) <= d.Keys && Injective(d) && q in d
    ensures var r := RenamedWith(a, d);
      (d[q] in r.finals <==> q in a.finals) && (q in a.finals ==> r.finals[d[q]] == a.finals[q])
  {
    var r := RenamedWith(a, d);
    if d[q] in r.finals {
      var s :| s in a.finals && d[s] == d[q];
    }
  }

  lemma {:induction false} RenamedRun<S(!new), Y(!new)>(a: Wfa<S, Y>, d: map<S, int>, q: S, word: seq<Y>, ln: real -> real)
    requires States(a) <= d.Keys && Injective(d) && q in d
    ensures RunFrom(RenamedWith(a, d), d[q], word, ln) == RunFrom(a, q, word, ln)
    decreases |word|
  {
    var r := RenamedWith(a, d);
    if word == [] {
      RenamedFinal(a, d, q);
    } else {
      RenamedFirstTransition(a.transitions, d, q, word[0]);
      match FirstTransition(a.transitions, q, word[0])
      case None =>
      case Some(t) =>
        RenamedRun(a, d, t.dest, word[1..], ln);
    }
  }

  /** Renaming does not change the score of any word. */
  lemma RenamePreservesStringProb<S(!new), Y(!new)>(a: Wfa<S, Y>, d: map<S, int>, word: seq<Y>, ln: real -> real)
    requires States(a) <= d.Keys && Injective(d)
    ensures StringProb(RenamedWith(a, d), word, ln) == StringProb(a, word, ln)
  {
    if a.start != [] {
      RenamedRun(a, d, a.start[0].0, word, ln);
    }
  }

  /* ---------------- product ---------------- */

  /** The product of two weights. Naming it keeps the solver from treating
      the product of two boxed reals as a fresh non-linear term each time. */
  function Mul(x: real, y: real): real {
    x * y
  }

  /** The product transition of two transitions on the same symbol. */
  function Combine<S, T, Y>(t1: Transition<S, Y>, t2: Transition<T, Y>): Transition<(S, T), Y> {
    Transition((t1.src, t2.src), (t1.dest, t2.dest), t1.symbol, Mul(t1.weight, t2.weight))
  }

  /** `t` pairs a transition of `a` with one of `b` on the same symbol. */
  ghost predicate ProductTransition<S(!new), T(!new), Y(!new)>(a: Wfa<S, Y>, b: Wfa<T, Y>, t: Transition<(S, T), Y>) {
    exists t1, t2 :: t1 in a.transitions && t2 in b.transitions && t1.symbol == t2.symbol && t == Combine(t1, t2)
  }

  /** The pairs of states of `a` and `b`. */
  function PairStates<S(==,!new), T(==,!new), Y(==,!new)>(a: Wfa<S, Y>, b: Wfa<T, Y>): set<(S, T)> {
    set x, y | x in States(a) && y in States(b) :: (x, y)
  }

  /** The initial entries of one initial state of the first automaton paired
      with every initial state of the second. */
  function StartRow<S, T>(p: (S, real), sb: seq<(T, real)>): seq<((S, T), real)> {
    if sb == [] then []
    else
      var last := sb[|sb| - 1];
      StartRow(p, sb[..|sb| - 1]) + [((p.0, last.0), Mul(p.1, last.1))]
  }

  /** The initial dictionary of a product: every pair of initial states,
      first-automaton-major, with the product of the weights. */
  function ProductStart<S, T>(sa: seq<(S, real)>, sb: seq<(T, real)>): seq<((S, T), real)> {
    if sa == [] then []
    else ProductStart(sa[..|sa| - 1], sb) + StartRow(sa[|sa| - 1], sb)
  }

  lemma DistinctConcat<S(!new), W(!new)>(x: seq<(S, W)>, y: seq<(S, W)>)
    requires DistinctKeys(x) && DistinctKeys(y)
    requires forall e1, e2 :: e1 in x && e2 in y ==> e1.0 != e2.0
    ensures DistinctKeys(x + y)
  {
    var z := x + y;
    forall i, j | 0 <= i < j < |z| ensures z[i].0 != z[j].0 {
      if j < |x| {
        assert z[i] == x[i] && z[j] == x[j];
      } else if i >= |x| {
        assert z[i] == y[i - |x|] && z[j] == y[j - |x|];
      } else {
        assert z[i] in x && z[j] in y;
      }
    }
  }

  lemma {:induction false} StartRowMembers<S(!new), T(!new)>(p: (S, real), sb: seq<(T, real)>)
    ensures forall e :: e in StartRow(p, sb) <==> exists p2 :: p2 in sb && e == ((p.0, p2.0), Mul(p.1, p2.1))
    decreases |sb|
  {
    if sb != [] {
      var init := sb[..|sb| - 1];
      var last := sb[|sb| - 1];
      StartRowMembers(p, init);
      assert sb == init + [last];
      var e1 := ((p.0, last.0), Mul(p.1, last.1));
      assert StartRow(p, sb) == StartRow(p, init) + [e1];
      forall e ensures e in StartRow(p, sb) <==> exists p2 :: p2 in sb && e == ((p.0, p2.0), Mul(p.1, p2.1)) {
        if e in StartRow(p, init) {
          var p2 :| p2 in init && e == ((p.0, p2.0), Mul(p.1, p2.1));
          assert p2 in sb;
        }
        if e == e1 {
          assert last in sb;
        }
        if exists p2 :: p2 in sb && e == ((p.0, p2.0), Mul(p.1, p2.1)) {
          var p2 :| p2 in sb && e == ((p.0, p2.0), Mul(p.1, p2.1));
          var k :| 0 <= k < |sb| && sb[k] == p2;
          if k < |init| {
            assert init[k] == p2;
          }
        }
      }
    }
  }

  lemma {:induction false} StartRowDistinct<S(!new), T(!new)>(p: (S, real), sb: seq<(T, real)>)
    requires DistinctKeys(sb)
    ensures DistinctKeys(StartRow(p, sb))
    decreases |sb|
  {
    if sb != [] {
      var init := sb[..|sb| - 1];
      var last := sb[|sb| - 1];
      StartRowDistinct(p, init);
      StartRowMembers(p, init);
      var e1 := ((p.0, last.0), Mul(p.1, last.1));
      forall e | e in StartRow(p, init) ensures e.0 != e1.0 {
        var p2 :| p2 in init && e == ((p.0, p2.0), Mul(p.1, p2.1));
        var k :| 0 <= k < |init| && init[k] == p2;
        assert sb[k] == p2;
      }
      DistinctConcat(StartRow(p, init), [e1]);
    }
  }

  /** The product's initial dictionary holds exactly the pairs of initial
      entries with multiplied weights. */
  lemma ProductStartMembers<S(!new), T(!new)>(sa: seq<(S, real)>, sb: seq<(T, real)>)
    ensures forall e :: e in ProductStart(sa, sb) <==> exists p1, p2 :: p1 in sa && p2 in sb && e == ((p1.0, p2.0), Mul(p1.1, p2.1))
  {
    forall e ensures e in ProductStart(sa, sb) <==> exists p1, p2 :: p1 in sa && p2 in sb && e == ((p1.0, p2.0), Mul(p1.1, p2.1)) {
      if e in ProductStart(sa, sb) {
        ProductStartFrom(sa, sb, e);
      }
      if exists p1, p2 :: p1 in sa && p2 in sb && e == ((p1.0, p2.0), Mul(p1.1, p2.1)) {
        var p1, p2 :| p1 in sa && p2 in sb && e == ((p1.0, p2.0), Mul(p1.1, p2.1));
        ProductStartHas(sa, sb, p1, p2);
      }
    }
  }

  /** Every product initial entry comes from a pair of initial entries. */
  lemma {:induction false} ProductStartFrom<S(!new), T(!new)>(sa: seq<(S, real)>, sb: seq<(T, real)>, e: ((S, T), real))
    requires e in ProductStart(sa, sb)
    ensures exists p1, p2 :: p1 in sa && p2 in sb && e == ((p1.0, p2.0), Mul(p1.1, p2.1))
    decreases |sa|
  {
    var init := sa[..|sa| - 1];
    var last := sa[|sa| - 1];
    assert ProductStart(sa, sb) == ProductStart(init, sb) + StartRow(last, sb);
    if e in ProductStart(init, sb) {
      ProductStartFrom(init, sb, e);
      var p1, p2 :| p1 in init && p2 in sb && e == ((p1.0, p2.0), Mul(p1.1, p2.1));
      assert p1 in sa;
    } else {
      StartRowMembers(last, sb);
      var p2 :| p2 in sb && e == ((last.0, p2.0), Mul(last.1, p2.1));
      assert last in sa;
    }
  }

  /** Every pair of initial entries is a product initial entry. */
  lemma {:induction false} ProductStartHas<S(!new), T(!new)>(sa: seq<(S, real)>, sb: seq<(T, real)>, p1: (S, real), p2: (T, real))
    requires p1 in sa && p2 in sb
    ensures ((p1.0, p2.0), Mul(p1.1, p2.1)) in ProductStart(sa, sb)
    decreases |sa|
  {
    var init := sa[..|sa| - 1];
    var last := sa[|sa| - 1];
    assert ProductStart(sa, sb) == ProductStart(init, sb) + StartRow(last, sb);
    if p1 == last {
      StartRowMembers(last, sb);
    } else {
      assert sa == init + [last];
      assert p1 in init;
      ProductStartHas(init, sb, p1, p2);
    }
  }

  /** Distinct initial states give distinct initial pairs. */
  lemma {:induction false} ProductStartDistinct<S(!new), T(!new)>(sa: seq<(S, real)>, sb: seq<(T, real)>)
    requires DistinctKeys(sa) && DistinctKeys(sb)
    ensures DistinctKeys(ProductStart(sa, sb))
    decreases |sa|
  {
    if sa != [] {
      var init := sa[..|sa| - 1];
      var last := sa[|sa| - 1];
      ProductStartDistinct(init, sb);
      ProductStartMembers(init, sb);
      StartRowMembers(last, sb);
      StartRowDistinct(last, sb);
      forall e1, e2 | e1 in ProductStart(init, sb) && e2 in StartRow(last, sb) ensures e1.0 != e2.0 {
        var p1, p2 :| p1 in init && p2 in sb && e1 == ((p1.0, p2.0), Mul(p1.1, p2.1));
        var k :| 0 <= k < |init| && init[k] == p1;
        assert sa[k] == p1;
      }
      DistinctConcat(ProductStart(init, sb), StartRow(last, sb));
    }
  }

  /** The number of queued entries already expanded, counted with repetition. */
  function CountFinished<P(==)>(q: seq<P>, f: set<P>): nat {
    if q == [] then 0 else (if q[0] in f then 1 else 0) + CountFinished(q[1..], f)
  }

  lemma {:induction false} CountFinishedAppend<P(!new)>(q1: seq<P>, q2: seq<P>, f: set<P>)
    ensures CountFinished(q1 + q2, f) == CountFinished(q1, f) + CountFinished(q2, f)
    decreases |q1|
  {
    if q1 != [] {
      assert (q1 + q2)[1..] == q1[1..] + q2;
      CountFinishedAppend(q1[1..], q2, f);
    } else {
      assert q1 + q2 == q2;
    }
  }

  lemma {:induction false} CountFinishedNone<P(!new)>(q: seq<P>, f: set<P>)
    requires forall k :: 0 <= k < |q| ==> q[k] !in f
    ensures CountFinished(q, f) == 0
    decreases |q|
  {
    if q != [] {
      CountFinishedNone(q[1..], f);
    }
  }

  lemma AppendKeeps<P>(s: seq<P>, x: P)
    ensures x in s + [x] && forall y :: y in s ==> y in s + [x]
  {
  }

  lemma PairStatesMember<S(!new), T(!new), Y(!new)>(a: Wfa<S, Y>, b: Wfa<T, Y>, x: S, y: T)
    ensures (x, y) in PairStates(a, b) <==> x in States(a) && y in States(b)
  {
  }

  /** What the inner loop of product has done after the first `j`
      transitions of `b`. */
  ghost predicate ExpandedUpTo<S(!new), T(!new), Y(!new)>(a: Wfa<S, Y>, b: Wfa<T, Y>, act: (S, T), t1: Transition<S, Y>, finished: set<(S, T)>,
                                                    ts0: seq<Transition<(S, T), Y>>, q0: seq<(S, T)>,
                                                    ts: seq<Transition<(S, T), Y>>, q: seq<(S, T)>, j: nat)
    requires j <= |b.transitions|
  {
    && |ts| >= |ts0| && ts[..|ts0|] == ts0
    && |q| >= |q0| && q[..|q0|] == q0
    && (forall k :: |ts0| <= k < |ts| ==>
         ts[k].src == act && ProductTransition(a, b, ts[k]) && (ts[k].dest in finished || ts[k].dest in q))
    && (forall k :: |q0| <= k < |q| ==> q[k] !in finished && q[k] in PairStates(a, b))
    && (forall k :: 0 <= k < j && b.transitions[k].src == act.1 && b.transitions[k].symbol == t1.symbol ==>
         Combine(t1, b.transitions[k]) in ts)
  }

  /** A matching transition of `b` adds the combined transition, and its
      target pair when that is not finished. */
  lemma ExpandMatch<S(!new), T(!new), Y(!new)>(a: Wfa<S, Y>, b: Wfa<T, Y>, act: (S, T), t1: Transition<S, Y>, finished: set<(S, T)>,
                                        ts0: seq<Transition<(S, T), Y>>, q0: seq<(S, T)>,
                                        ts: seq<Transition<(S, T), Y>>, q: seq<(S, T)>, j: nat)
    requires t1 in a.transitions && t1.src == act.0 && j < |b.transitions|
    requires b.transitions[j].src == act.1 && b.transitions[j].symbol == t1.symbol
    requires ExpandedUpTo(a, b, act, t1, finished, ts0, q0, ts, q, j)
    ensures var c := Combine(t1, b.transitions[j]);
      ExpandedUpTo(a, b, act, t1, finished, ts0, q0, ts + [c], if c.dest in finished then q else q + [c.dest], j + 1)
  {
    var t2 := b.transitions[j];
    var c := Combine(t1, t2);
    var q' := if c.dest in finished then q else q + [c.dest];
    var ts' := ts + [c];
    assert ts'[..|ts0|] == ts0 by {
      assert ts'[..|ts|] == ts;
    }
    assert q'[..|q0|] == q0 by {
      assert q'[..|q|] == q;
    }
    assert forall x :: x in q ==> x in q';
    forall k | |ts0| <= k < |ts'|
      ensures ts'[k].src == act && ProductTransition(a, b, ts'[k]) && (ts'[k].dest in finished || ts'[k].dest in q')
    {
      if k == |ts| {
        assert ProductTransition(a, b, c);
      } else {
        assert ts'[k] == ts[k];
      }
    }
    forall k | |q0| <= k < |q'| ensures q'[k] !in finished && q'[k] in PairStates(a, b) {
      if k == |q| {
        StatesCover(a);
        StatesCover(b);
        PairStatesMember(a, b, t1.dest, t2.dest);
      } else {
        assert q'[k] == q[k];
      }
    }
    AppendKeeps(ts, c);
  }

  /** One transition `t1` of the first automaton against every transition of
      the second leaving `act.1`: the inner loop of product. */
  method ExpandWith<S(==,!new), T(==,!new), Y(==,!new)>(a: Wfa<S, Y>, b: Wfa<T, Y>, act: (S, T), t1: Transition<S, Y>,
                                                         finished: set<(S, T)>, ts0: seq<Transition<(S, T), Y>>, q0: seq<(S, T)>)
    returns (ts: seq<Transition<(S, T), Y>>, q: seq<(S, T)>)
    requires t1 in a.transitions && t1.src == act.0
    ensures |ts| >= |ts0| && ts[..|ts0|] == ts0
    ensures |q| >= |q0| && q[..|q0|] == q0
    ensures forall k :: |ts0| <= k < |ts| ==>
      ts[k].src == act && ProductTransition(a, b, ts[k]) && (ts[k].dest in finished || ts[k].dest in q)
    ensures forall k :: |q0| <= k < |q| ==> q[k] !in finished && q[k] in PairStates(a, b)
    ensures forall t2 :: t2 in b.transitions && t2.src == act.1 && t2.symbol == t1.symbol ==> Combine(t1, t2) in ts
  {
    ts, q := ts0, q0;
    var j := 0;
    while j < |b.transitions|
      invariant 0 <= j <= |b.transitions|
      invariant ExpandedUpTo(a, b, act, t1, finished, ts0, q0, ts, q, j)
    {
      var t2 := b.transitions[j];
      if t2.src == act.1 && t2.symbol == t1.symbol {
        ExpandMatch(a, b, act, t1, finished, ts0, q0, ts, q, j);
        var dest := (t1.dest, t2.dest);
        ts := ts + [Combine(t1, t2)];
        if dest !in finished {
          q := q + [dest];
        }
      }
      j := j + 1;
    }
    forall t2 | t2 in b.transitions && t2.src == act.1 && t2.symbol == t1.symbol ensures Combine(t1, t2) in ts {
      var k :| 0 <= k < |b.transitions| && b.transitions[k] == t2;
    }
  }

  /** The expansion of one queued pair: every transition of the first
      automaton leaving `act.0` against every transition of the second
      leaving `act.1` on the same symbol. */
  method Expand<S(==,!new), T(==,!new), Y(==,!new)>(a: Wfa<S, Y>, b: Wfa<T, Y>, act: (S, T),
                                                     finished: set<(S, T)>, ts0: seq<Transition<(S, T), Y>>, q0: seq<(S, T)>)
    returns (ts: seq<Transition<(S, T), Y>>, q: seq<(S, T)>)
    ensures |ts| >= |ts0| && ts[..|ts0|] == ts0
    ensures |q| >= |q0| && q[..|q0|] == q0
    ensures forall k :: |ts0| <= k < |ts| ==>
      ts[k].src == act && ProductTransition(a, b, ts[k]) && (ts[k].dest in finished || ts[k].dest in q)
    ensures forall k :: |q0| <= k < |q| ==> q[k] !in finished && q[k] in PairStates(a, b)
    ensures forall t1, t2 :: t1 in a.transitions && t2 in b.transitions && t1.src == act.0 && t2.src == act.1 && t1.symbol == t2.symbol ==>
      Combine(t1, t2) in ts
  {
    ts, q := ts0, q0;
    var i := 0;
    while i < |a.transitions|
      invariant 0 <= i <= |a.transitions|
      invariant |ts| >= |ts0| && ts[..|ts0|] == ts0
      invariant |q| >= |q0| && q[..|q0|] == q0
      invariant forall k :: |ts0| <= k < |ts| ==>
        ts[k].src == act && ProductTransition(a, b, ts[k]) && (ts[k].dest in finished || ts[k].dest in q)
      invariant forall k :: |q0| <= k < |q| ==> q[k] !in finished && q[k] in PairStates(a, b)
      invariant forall k, t2 :: 0 <= k < i && t2 in b.transitions && a.transitions[k].src == act.0 && t2.src == act.1 && a.transitions[k].symbol == t2.symbol ==>
        Combine(a.transitions[k], t2) in ts
    {
      var t1 := a.transitions[i];
      if t1.src == act.0 {
        ghost var tsBefore, qBefore := ts, q;
        ts, q := ExpandWith(a, b, act, t1, finished, ts, q);
        assert ts[..|ts0|] == ts[..|tsBefore|][..|ts0|];
        assert q[..|q0|] == q[..|qBefore|][..|q0|];
        forall k | |ts0| <= k < |tsBefore| ensures ts[k] == tsBefore[k] && (ts[k].dest in finished || ts[k].dest in q) {
          assert ts[k] == ts[..|tsBefore|][k];
          if tsBefore[k].dest !in finished {
            var m :| 0 <= m < |qBefore| && qBefore[m] == tsBefore[k].dest;
            assert q[m] == q[..|qBefore|][m];
          }
        }
        forall k | |q0| <= k < |qBefore| ensures q[k] == qBefore[k] {
          assert q[k] == q[..|qBefore|][k];
        }
        forall c | c in tsBefore ensures c in ts {
          var m :| 0 <= m < |tsBefore| && tsBefore[m] == c;
          assert ts[m] == ts[..|tsBefore|][m];
        }
      }
      i := i + 1;
    }
  }

  /** The first loops of product: every pair of initial states is queued and
      gets the product of the weights. */
  method ProductInitials<S(==,!new), T(==,!new)>(sa: seq<(S, real)>, sb: seq<(T, real)>)
    returns (start: seq<((S, T), real)>, queue: seq<(S, T)>)
    ensures start == ProductStart(sa, sb)
    ensures |queue| == |start| && forall k :: 0 <= k < |queue| ==> queue[k] == start[k].0
  {
    start, queue := [], [];
    var i := 0;
    while i < |sa|
      invariant 0 <= i <= |sa|
      invariant start == ProductStart(sa[..i], sb)
      invariant |queue| == |start| && forall k :: 0 <= k < |queue| ==> queue[k] == start[k].0
    {
      assert sa[..i + 1][..i] == sa[..i];
      ghost var before := start;
      var j := 0;
      while j < |sb|
        invariant 0 <= j <= |sb|
        invariant start == before + StartRow(sa[i], sb[..j])
        invariant |queue| == |start| && forall k :: 0 <= k < |queue| ==> queue[k] == start[k].0
      {
        assert sb[..j + 1][..j] == sb[..j];
        queue := queue + [(sa[i].0, sb[j].0)];
        start := start + [((sa[i].0, sb[j].0), Mul(sa[i].1, sb[j].1))];
        j := j + 1;
      }
      assert sb[..j] == sb;
      i := i + 1;
    }
    assert sa[..i] == sa;
  }

  lemma MeasureStep<P(!new)>(u: set<P>, f: set<P>, queue0: seq<P>, queue: seq<P>)
    requires f <= u && |queue0| > 0 && queue0[0] in u
    requires |queue| >= |queue0| - 1 && queue[..|queue0| - 1] == queue0[1..]
    requires forall k :: |queue0| - 1 <= k < |queue| ==> queue[k] !in f + {queue0[0]}
    ensures |u - (f + {queue0[0]})| < |u - f|
      || (|u - (f + {queue0[0]})| == |u - f| && CountFinished(queue, f + {queue0[0]}) < CountFinished(queue0, f))
  {
    var act, rest := queue0[0], queue0[1..];
    if act in f {
      var added := queue[|rest|..];
      assert queue == queue[..|rest|] + added;
      assert f + {act} == f;
      CountFinishedAppend(rest, added, f);
      CountFinishedNone(added, f);
    } else {
      DiffShrinks(u, f, f + {act});
    }
  }

  lemma ProductStartInPairs<S(!new), T(!new), Y(!new)>(a: Wfa<S, Y>, b: Wfa<T, Y>)
    ensures forall e :: e in ProductStart(a.start, b.start) ==> e.0 in PairStates(a, b)
  {
    ProductStartMembers(a.start, b.start);
    forall e | e in ProductStart(a.start, b.start) ensures e.0 in PairStates(a, b) {
      var p1, p2 :| p1 in a.start && p2 in b.start && e == ((p1.0, p2.0), Mul(p1.1, p2.1));
      assert p1.0 in StartKeys(a) && p2.0 in StartKeys(b);
      PairStatesMember(a, b, p1.0, p2.0);
    }
  }

  /** Every transition found so far pairs two transitions, leaves an
      expanded pair and reaches an expanded or queued pair. */
  ghost predicate TransitionsFound<S(!new), T(!new), Y(!new)>(a: Wfa<S, Y>, b: Wfa<T, Y>, queue: seq<(S, T)>,
                                                              finished: set<(S, T)>, ts: seq<Transition<(S, T), Y>>)
  {
    forall k :: 0 <= k < |ts| ==>
      ProductTransition(a, b, ts[k]) && ts[k].src in finished && (ts[k].dest in finished || ts[k].dest in queue)
  }

  /** Every expanded pair has all its paired transitions in `ts`. */
  ghost predicate AllCombined<S(!new), T(!new), Y(!new)>(a: Wfa<S, Y>, b: Wfa<T, Y>, finished: set<(S, T)>, ts: seq<Transition<(S, T), Y>>) {
    forall x, t1, t2 :: x in finished && t1 in a.transitions && t2 in b.transitions && t1.src == x.0 && t2.src == x.1 && t1.symbol == t2.symbol ==> Combine(t1, t2) in ts
  }

  /** The final weights of the expanded pairs that are final on both sides. */
  ghost predicate FinalsFound<S(!new), T(!new), Y(!new)>(a: Wfa<S, Y>, b: Wfa<T, Y>, finished: set<(S, T)>, fin: map<(S, T), real>) {
    && (forall x :: x in fin <==> x in finished && x.0 in a.finals && x.1 in b.finals)
    && (forall x :: x in fin ==> fin[x] == Mul(a.finals[x.0], b.finals[x.1]))
  }

  /** The invariant of the product worklist. */
  ghost predicate ProductInv<S(!new), T(!new), Y(!new)>(a: Wfa<S, Y>, b: Wfa<T, Y>, start: seq<((S, T), real)>, queue: seq<(S, T)>,
                                                         finished: set<(S, T)>, ts: seq<Transition<(S, T), Y>>, fin: map<(S, T), real>)
  {
    && (forall k :: 0 <= k < |queue| ==> queue[k] in PairStates(a, b))
    && finished <= PairStates(a, b)
    && TransitionsFound(a, b, queue, finished, ts)
    && (forall e :: e in start ==> e.0 in finished || e.0 in queue)
    && AllCombined(a, b, finished, ts)
    && FinalsFound(a, b, finished, fin)
  }

  /** A queue whose head was popped and whose rest was kept as a prefix
      still holds every other entry. */
  lemma PoppedQueue<P>(queue0: seq<P>, queue: seq<P>)
    requires |queue0| > 0 && |queue| >= |queue0| - 1 && queue[..|queue0| - 1] == queue0[1..]
    ensures forall c :: c in queue0 ==> c == queue0[0] || c in queue
    ensures forall k :: 0 <= k < |queue0| - 1 ==> queue[k] == queue0[k + 1]
  {
    forall c | c in queue0 && c != queue0[0] ensures c in queue {
      var m :| 0 <= m < |queue0| && queue0[m] == c;
      assert queue[m - 1] == queue[..|queue0| - 1][m - 1];
    }
    forall k | 0 <= k < |queue0| - 1 ensures queue[k] == queue0[k + 1] {
      assert queue[k] == queue[..|queue0| - 1][k];
    }
  }

  /** A sequence extended past a prefix keeps the prefix's entries. */
  lemma ExtendedKeeps<P>(s0: seq<P>, s: seq<P>)
    requires |s| >= |s0| && s[..|s0|] == s0
    ensures forall k :: 0 <= k < |s0| ==> s[k] == s0[k]
    ensures forall c :: c in s0 ==> c in s
  {
    forall k | 0 <= k < |s0| ensures s[k] == s0[k] {
      assert s[k] == s[..|s0|][k];
    }
  }

  lemma StepKeepsTransitions<S(!new), T(!new), Y(!new)>(a: Wfa<S, Y>, b: Wfa<T, Y>, queue0: seq<(S, T)>, finished0: set<(S, T)>,
                                                        ts0: seq<Transition<(S, T), Y>>, queue: seq<(S, T)>, ts: seq<Transition<(S, T), Y>>)
    requires |queue0| > 0 && TransitionsFound(a, b, queue0, finished0, ts0)
    requires |ts| >= |ts0| && ts[..|ts0|] == ts0
    requires |queue| >= |queue0| - 1 && queue[..|queue0| - 1] == queue0[1..]
    requires forall k :: |ts0| <= k < |ts| ==>
      ts[k].src == queue0[0] && ProductTransition(a, b, ts[k]) && (ts[k].dest in finished0 + {queue0[0]} || ts[k].dest in queue)
    ensures TransitionsFound(a, b, queue, finished0 + {queue0[0]}, ts)
  {
    ExtendedKeeps(ts0, ts);
    PoppedQueue(queue0, queue);
    forall k | 0 <= k < |ts|
      ensures ProductTransition(a, b, ts[k]) && ts[k].src in finished0 + {queue0[0]} && (ts[k].dest in finished0 + {queue0[0]} || ts[k].dest in queue)
    {
      if k < |ts0| {
        assert ts[k] == ts0[k];
        assert ts0[k].dest in finished0 || ts0[k].dest in queue0;
      }
    }
  }

  lemma StepKeepsCombined<S(!new), T(!new), Y(!new)>(a: Wfa<S, Y>, b: Wfa<T, Y>, act: (S, T), finished0: set<(S, T)>,
                                                     ts0: seq<Transition<(S, T), Y>>, ts: seq<Transition<(S, T), Y>>)
    requires AllCombined(a, b, finished0, ts0)
    requires |ts| >= |ts0| && ts[..|ts0|] == ts0
    requires forall t1, t2 :: t1 in a.transitions && t2 in b.transitions && t1.src == act.0 && t2.src == act.1 && t1.symbol == t2.symbol ==>
      Combine(t1, t2) in ts
    ensures AllCombined(a, b, finished0 + {act}, ts)
  {
    ExtendedKeeps(ts0, ts);
  }

  lemma StepKeepsFinals<S(!new), T(!new), Y(!new)>(a: Wfa<S, Y>, b: Wfa<T, Y>, act: (S, T), finished0: set<(S, T)>,
                                                   fin0: map<(S, T), real>, fin: map<(S, T), real>)
    requires FinalsFound(a, b, finished0, fin0)
    requires fin == if act.0 in a.finals && act.1 in b.finals then fin0[act := Mul(a.finals[act.0], b.finals[act.1])] else fin0
    ensures FinalsFound(a, b, finished0 + {act}, fin)
  {
  }

  /** The worklist invariant survives one expansion. */
  lemma ProductStepKeepsInv<S(!new), T(!new), Y(!new)>(a: Wfa<S, Y>, b: Wfa<T, Y>, start: seq<((S, T), real)>, queue0: seq<(S, T)>,
                                                     finished0: set<(S, T)>, ts0: seq<Transition<(S, T), Y>>, fin0: map<(S, T), real>,
                                                     queue: seq<(S, T)>, ts: seq<Transition<(S, T), Y>>, fin: map<(S, T), real>)
    requires |queue0| > 0 && ProductInv(a, b, start, queue0, finished0, ts0, fin0)
    requires var act := queue0[0];
      && (fin == if act.0 in a.finals && act.1 in b.finals then fin0[act := Mul(a.finals[act.0], b.finals[act.1])] else fin0)
      && |ts| >= |ts0| && ts[..|ts0|] == ts0
      && |queue| >= |queue0| - 1 && queue[..|queue0| - 1] == queue0[1..]
      && (forall k :: |ts0| <= k < |ts| ==>
            ts[k].src == act && ProductTransition(a, b, ts[k]) && (ts[k].dest in finished0 + {act} || ts[k].dest in queue))
      && (forall k :: |queue0| - 1 <= k < |queue| ==> queue[k] !in finished0 + {act} && queue[k] in PairStates(a, b))
      && (forall t1, t2 :: t1 in a.transitions && t2 in b.transitions && t1.src == act.0 && t2.src == act.1 && t1.symbol == t2.symbol ==>
            Combine(t1, t2) in ts)
    ensures ProductInv(a, b, start, queue, finished0 + {queue0[0]}, ts, fin)
  {
    var act := queue0[0];
    StepKeepsTransitions(a, b, queue0, finished0, ts0, queue, ts);
    StepKeepsCombined(a, b, act, finished0, ts0, ts);
    StepKeepsFinals(a, b, act, finished0, fin0, fin);
    PoppedQueue(queue0, queue);
    forall k | 0 <= k < |queue| ensures queue[k] in PairStates(a, b) {
      if k < |queue0| - 1 {
        assert queue[k] == queue0[k + 1];
      }
    }
  }

  /** One round of the product worklist: pop a pair, mark it expanded,
      record it as final when both components are, and expand it. */
  method ProductStep<S(==,!new), T(==,!new), Y(==,!new)>(a: Wfa<S, Y>, b: Wfa<T, Y>, start: seq<((S, T), real)>, queue0: seq<(S, T)>,
                                                         finished0: set<(S, T)>, ts0: seq<Transition<(S, T), Y>>, fin0: map<(S, T), real>)
    returns (queue: seq<(S, T)>, finished: set<(S, T)>, ts: seq<Transition<(S, T), Y>>, fin: map<(S, T), real>)
    requires |queue0| > 0 && ProductInv(a, b, start, queue0, finished0, ts0, fin0)
    ensures ProductInv(a, b, start, queue, finished, ts, fin)
    ensures |PairStates(a, b) - finished| < |PairStates(a, b) - finished0|
      || (|PairStates(a, b) - finished| == |PairStates(a, b) - finished0| && CountFinished(queue, finished) < CountFinished(queue0, finished0))
  {
    var act := queue0[0];
    var rest := queue0[1..];
    finished := finished0 + {act};
    fin := fin0;
    if act.0 in a.finals && act.1 in b.finals {
      fin := fin[act := Mul(a.finals[act.0], b.finals[act.1])];
    }
    ts, queue := Expand(a, b, act, finished, ts0, rest);
    MeasureStep(PairStates(a, b), finished0, queue0, queue);
    ProductStepKeepsInv(a, b, start, queue0, finished0, ts0, fin0, queue, ts, fin);
  }

  /** When the queue is empty every state of the result has been expanded. */
  lemma ProductDone<S(!new), T(!new), Y(!new)>(a: Wfa<S, Y>, b: Wfa<T, Y>, start: seq<((S, T), real)>,
                                               finished: set<(S, T)>, ts: seq<Transition<(S, T), Y>>, fin: map<(S, T), real>)
    requires ProductInv(a, b, start, [], finished, ts, fin)
    ensures States(Wfa(ts, fin, start, None)) <= finished
  {
    var r := Wfa(ts, fin, start, None);
    forall x | x in States(r) ensures x in finished {
      if x in StartKeys(r) {
        var e :| e in start && e.0 == x;
      } else if x !in fin {
        var t :| t in ts && (t.src == x || t.dest == x);
        var k :| 0 <= k < |ts| && ts[k] == t;
      }
    }
  }

  /** The worklist loop of product, from the queued initial pairs. */
  method ProductExplore<S(==,!new), T(==,!new), Y(==,!new)>(a: Wfa<S, Y>, b: Wfa<T, Y>, start: seq<((S, T), real)>, queue0: seq<(S, T)>)
    returns (finished: set<(S, T)>, ts: seq<Transition<(S, T), Y>>, fin: map<(S, T), real>)
    requires ProductInv(a, b, start, queue0, {}, [], map[])
    ensures ProductInv(a, b, start, [], finished, ts, fin)
  {
    var queue := queue0;
    finished, ts, fin := {}, [], map[];
    while |queue| > 0
      invariant ProductInv(a, b, start, queue, finished, ts, fin)
      decreases |PairStates(a, b) - finished|, CountFinished(queue, finished)
    {
      queue, finished, ts, fin := ProductStep(a, b, start, queue, finished, ts, fin);
    }
  }

  /** product: the synchronised product, explored breadth-first from the
      pairs of initial states. The queue is not kept free of repetitions, so a
      pair may be expanded, and its transitions emitted, more than once. */
  method Product<S(==,!new), T(==,!new), Y(==,!new)>(a: Wfa<S, Y>, b: Wfa<T, Y>) returns (r: Wfa<(S, T), Y>)
    ensures r.start == ProductStart(a.start, b.start)
    ensures forall t :: t in r.transitions ==> ProductTransition(a, b, t)
    ensures forall x, t1, t2 :: x in States(r) && t1 in a.transitions && t2 in b.transitions && t1.src == x.0 && t2.src == x.1 && t1.symbol == t2.symbol ==> Combine(t1, t2) in r.transitions
    ensures forall x :: x in States(r) ==> (x in r.finals <==> x.0 in a.finals && x.1 in b.finals)
    ensures forall x :: x in r.finals ==> x.0 in a.finals && x.1 in b.finals && r.finals[x] == Mul(a.finals[x.0], b.finals[x.1])
    ensures r.alphabet == Some(Alphabet(a) * Alphabet(b))
  {
    var start, queue := ProductInitials(a.start, b.start);
    ProductStartInPairs(a, b);
    forall e | e in start ensures e.0 in queue {
      var k :| 0 <= k < |start| && start[k] == e;
      assert queue[k] == e.0;
    }
    var finished, ts, fin := ProductExplore(a, b, start, queue);
    r := Wfa(ts, fin, start, Some(Alphabet(a) * Alphabet(b)));
    ProductDone(a, b, start, finished, ts, fin);
    assert States(r) == States(Wfa(ts, fin, start, None));
  }
}
