/** The Alergia learning loop: states are split into red states (kept)
    and blue states (their successors, candidates for merging); the first
    blue state with enough frequency is merged into the first compatible
    red state, or becomes red itself, until no blue state has enough
    frequency. Python's `sorted()` on states is a strict total order
    given by the caller; for prefix-tree states (tuples of symbols) it is
    the lexicographic order `LexLess`. */
module Alergia {
  import opened Wrappers
  import opened Ffa
  import opened Dffa

  /** `less` is a strict total order. */
  ghost predicate StrictTotalOrder<S(!new)>(less: (S, S) -> bool) {
    && (forall x :: !less(x, x))
    && (forall x, y :: x != y ==> less(x, y) || less(y, x))
    && (forall x, y, z :: less(x, y) && less(y, z) ==> less(x, z))
  }

  /** Python's order on tuples, from the order `lt` on their items: the
      first differing position decides, and a proper prefix comes first. */
  predicate LexLess<Y(==)>(lt: (Y, Y) -> bool, x: seq<Y>, y: seq<Y>)
    decreases |x|
  {
    if y == [] then false
    else if x == [] then true
    else lt(x[0], y[0]) || (x[0] == y[0] && LexLess(lt, x[1..], y[1..]))
  }

  lemma {:induction false} LexIrreflexive<Y(!new)>(lt: (Y, Y) -> bool, x: seq<Y>)
    requires StrictTotalOrder(lt)
    ensures !LexLess(lt, x, x)
    decreases |x|
  {
    if x != [] {
      LexIrreflexive(lt, x[1..]);
    }
  }

  lemma {:induction false} LexTotal<Y(!new)>(lt: (Y, Y) -> bool, x: seq<Y>, y: seq<Y>)
    requires StrictTotalOrder(lt) && x != y
    ensures LexLess(lt, x, y) || LexLess(lt, y, x)
    decreases |x|
  {
    if x != [] && y != [] && x[0] == y[0] {
      assert x == [x[0]] + x[1..] && y == [y[0]] + y[1..];
      LexTotal(lt, x[1..], y[1..]);
    }
  }

  lemma {:induction false} LexTransitive<Y(!new)>(lt: (Y, Y) -> bool, x: seq<Y>, y: seq<Y>, z: seq<Y>)
    requires StrictTotalOrder(lt) && LexLess(lt, x, y) && LexLess(lt, y, z)
    ensures LexLess(lt, x, z)
    decreases |x|
  {
    if x != [] && x[0] == y[0] && y[0] == z[0] {
      LexTransitive(lt, x[1..], y[1..], z[1..]);
    }
  }

  /** Tuples are ordered strictly and totally when their items are. */
  lemma LexStrictTotal<Y(!new)>(lt: (Y, Y) -> bool)
    requires StrictTotalOrder(lt)
    ensures StrictTotalOrder((x: seq<Y>, y: seq<Y>) => LexLess(lt, x, y))
  {
    forall x: seq<Y>
      ensures !LexLess(lt, x, x)
    {
      LexIrreflexive(lt, x);
    }
    forall x: seq<Y>, y: seq<Y> | x != y
      ensures LexLess(lt, x, y) || LexLess(lt, y, x)
    {
      LexTotal(lt, x, y);
    }
    forall x: seq<Y>, y: seq<Y>, z: seq<Y> | LexLess(lt, x, y) && LexLess(lt, y, z)
      ensures LexLess(lt, x, z)
    {
      LexTransitive(lt, x, y, z);
    }
  }

  /** Python's order on characters: by code point. */
  predicate CharLess(x: char, y: char) {
    x < y
  }

  /** Python's order on strings: by code point, a proper prefix first. */
  predicate TextLess(x: string, y: string) {
    LexLess(CharLess, x, y)
  }

  /** Python's order on pairs of strings: the first item decides, then the
      second. */
  predicate PairLess(x: (string, string), y: (string, string)) {
    TextLess(x.0, y.0) || (x.0 == y.0 && TextLess(x.1, y.1))
  }

  /** Pairs of strings are ordered strictly and totally. */
  lemma PairStrictTotal()
    ensures StrictTotalOrder(PairLess)
  {
    assert StrictTotalOrder(CharLess);
    forall x: (string, string)
      ensures !PairLess(x, x)
    {
      LexIrreflexive(CharLess, x.0);
      LexIrreflexive(CharLess, x.1);
    }
    forall x: (string, string), y: (string, string) | x != y
      ensures PairLess(x, y) || PairLess(y, x)
    {
      if x.0 != y.0 {
        LexTotal(CharLess, x.0, y.0);
      } else {
        LexTotal(CharLess, x.1, y.1);
      }
    }
    forall x: (string, string), y: (string, string), z: (string, string) | PairLess(x, y) && PairLess(y, z)
      ensures PairLess(x, z)
    {
      if TextLess(x.0, y.0) && TextLess(y.0, z.0) {
        LexTransitive(CharLess, x.0, y.0, z.0);
      } else if x.0 == y.0 && y.0 == z.0 {
        LexTransitive(CharLess, x.1, y.1, z.1);
      }
    }
  }

  /** Strings are not ordered as the numbers they spell: `'100'` comes
      before `'36'`, and `'3'` and `'03'` are different symbols. */
  lemma TextNotNumeric()
    ensures PairLess(("100", "6"), ("36", "6"))
    ensures ("3", "6") != ("03", "6") && PairLess(("03", "6"), ("3", "6"))
  {
    assert CharLess('1', '3') && CharLess('0', '3');
  }

  /** The least element of a non-empty set. */
  method Least<S(==,!new)>(s: set<S>, less: (S, S) -> bool) returns (m: S)
    requires s != {} && StrictTotalOrder(less)
    ensures m in s && forall x :: x in s && x != m ==> less(m, x)
  {
    m :| m in s;
    var rest := s - {m};
    while rest != {}
      invariant rest <= s && m in s && m !in rest
      invariant forall x :: x in s - rest && x != m ==> less(m, x)
      decreases rest
    {
      var x :| x in rest;
      if less(x, m) {
        forall y | y in s - (rest - {x}) && y != x
          ensures less(x, y)
        {
          if y != m {
            assert less(m, y);
          }
        }
        m := x;
      }
      rest := rest - {x};
    }
  }

  /** `sorted` on a set: its elements in increasing order. Every element
      of the set below an entry comes before that entry. */
  method Sorted<S(==,!new)>(s: set<S>, less: (S, S) -> bool) returns (r: seq<S>)
    requires StrictTotalOrder(less)
    ensures forall x :: x in s ==> x in r
    ensures forall x :: x in r ==> x in s
    ensures forall i, j :: 0 <= i < j < |r| ==> less(r[i], r[j])
    ensures forall i, x :: 0 <= i < |r| && x in s && less(x, r[i]) ==> x in r[..i]
  {
    r := [];
    var rest := s;
    while rest != {}
      invariant rest <= s
      invariant forall x :: x in s - rest ==> x in r
      invariant forall x :: x in r ==> x in s - rest
      invariant forall i, j :: 0 <= i < j < |r| ==> less(r[i], r[j])
      invariant forall i, x :: 0 <= i < |r| && x in rest ==> less(r[i], x)
      invariant forall i, x :: 0 <= i < |r| && x in s && less(x, r[i]) ==> x in r[..i]
      decreases rest
    {
      var m := Least(rest, less);
      PrefixKept(r, m);
      r := r + [m];
      rest := rest - {m};
    }
  }

  /** Appending keeps the earlier prefixes. */
  lemma PrefixKept<S>(r: seq<S>, m: S)
    ensures (r + [m])[..|r|] == r
    ensures forall i :: 0 <= i <= |r| ==> (r + [m])[..i] == r[..i]
  {
  }

  /** `choose_blue_state`: the least blue state, in the order of `less`,
      whose frequency reaches `t0`, or `None` when there is none. */
  method ChooseBlueState<S(==,!new), Y(==,!new)>(a: FreqAutomaton<S, Y>, blue: set<S>, t0: int, less: (S, S) -> bool)
    returns (r: Option<S>)
    requires StrictTotalOrder(less)
    ensures r.Some? ==> r.value in blue && Freq(CountsOf(a), r.value) >= t0
    ensures r.Some? ==> forall b :: b in blue && less(b, r.value) ==> Freq(CountsOf(a), b) < t0
    ensures r.None? <==> forall b :: b in blue ==> Freq(CountsOf(a), b) < t0
  {
    var order := Sorted(blue, less);
    for i := 0 to |order|
      invariant forall b :: b in order[..i] ==> Freq(CountsOf(a), b) < t0
    {
      var f := StateFreq(a, order[i]);
      if f >= t0 {
        return Some(order[i]);
      }
      PrefixStep(order, i);
    }
    assert order[..|order|] == order;
    return None;
  }

  /** The prefix one longer. */
  lemma PrefixStep<S>(s: seq<S>, i: nat)
    requires i < |s|
    ensures s[..i + 1] == s[..i] + [s[i]]
  {
  }

  /** `choose_red_state`: the least red state, in the order of `less`, that
      is compatible with `blue`, or `None` when there is none. An error of
      the compatibility test stops the search and is passed on. */
  method ChooseRedState<S(==,!new), Y(==,!new)>(a: FreqAutomaton<S, Y>, red: set<S>, blue: S, alpha: real, m: Numerics, less: (S, S) -> bool)
    returns (r: Result<Option<S>, string>)
    requires StrictTotalOrder(less)
    ensures r.Success? && r.value.Some? ==>
      r.value.value in red && Compatible(CountsOf(a), r.value.value, blue, alpha, m) == Success(true)
      && forall x :: x in red && less(x, r.value.value) ==> Compatible(CountsOf(a), x, blue, alpha, m) == Success(false)
    ensures r.Success? && r.value.None? ==> forall x :: x in red ==> Compatible(CountsOf(a), x, blue, alpha, m) == Success(false)
    ensures r.Failure? ==>
      exists x :: (x in red && Compatible(CountsOf(a), x, blue, alpha, m) == Failure(r.error)
        && forall y :: y in red && less(y, x) ==> Compatible(CountsOf(a), y, blue, alpha, m) == Success(false))
  {
    var order := Sorted(red, less);
    for i := 0 to |order|
      invariant forall x :: x in order[..i] ==> Compatible(CountsOf(a), x, blue, alpha, m) == Success(false)
    {
      var ok := AlergiaCompatible(a, order[i], blue, alpha, m);
      if ok.Failure? {
        return Failure(ok.error);
      }
      if ok.value {
        return Success(Some(order[i]));
      }
      PrefixStep(order, i);
    }
    assert order[..|order|] == order;
    return Success(None);
  }

  /** A state the compatibility test accepts has a positive count of
      strings, so it is a state of a well-formed automaton. */
  lemma CompatibleKnown<S(!new), Y(!new)>(a: FreqAutomaton<S, Y>, qa: S, qb: S, alpha: real, m: Numerics)
    requires a.Valid() && Compatible(CountsOf(a), qa, qb, alpha, m).Success?
    ensures qa in a.states && qb in a.states
  {
  }

  /** Successors of any states of a well-formed automaton are states. */
  lemma SuccInStates<S(!new), Y(!new)>(a: FreqAutomaton<S, Y>, qs: set<S>)
    requires a.Valid()
    ensures a.SuccOf(qs) <= a.states
  {
  }

  /** The successors of one state, as a set. */
  lemma SuccOfOne<S(!new), Y(!new)>(a: FreqAutomaton<S, Y>, q: S)
    ensures a.SuccOf({q}) == a.Succ(q)
  {
  }

  /** The destinations of the transitions leaving `q` under the counts `c`. */
  ghost function DestsOf<S, Y>(c: Counts<S, Y>, q: S): set<S> {
    set e | e in OutOf(c, q) :: e.dest
  }

  /** The successors of the states `qs` under the counts `c`. */
  ghost function Succs<S, Y>(c: Counts<S, Y>, qs: set<S>): set<S> {
    set q, e | q in qs && e in OutOf(c, q) :: e.dest
  }

  /** Every destination of a transition under the counts `c`. */
  ghost function Dests<S, Y>(c: Counts<S, Y>): set<S> {
    set q, e | q in c.trans && e in c.trans[q] :: e.dest
  }

  /** A state's destinations are successors of any set holding it. */
  lemma DestIsSucc<S, Y>(c: Counts<S, Y>, qs: set<S>, p: S, q: S)
    requires p in qs && q in DestsOf(c, p)
    ensures q in Succs(c, qs)
  {
    var e :| e in OutOf(c, p) && e.dest == q;
  }

  /** Adding new successors leaves fewer destinations to add. */
  lemma SuccsShrink<S, Y>(c: Counts<S, Y>, qs: set<S>)
    requires !(Succs(c, qs) <= qs)
    ensures |Dests(c) - (qs + Succs(c, qs))| < |Dests(c) - qs|
  {
    var x :| x in Succs(c, qs) && x !in qs;
    var q, e :| q in qs && e in OutOf(c, q) && e.dest == x;
    assert x in Dests(c);
    Shrink(Dests(c), qs, Succs(c, qs), x);
  }

  /** The states reachable from `qs` under the counts `c`: `reachable_states`
      stated on the counts. */
  ghost function Reach<S, Y>(c: Counts<S, Y>, qs: set<S>): set<S>
    decreases |Dests(c) - qs|
  {
    if Succs(c, qs) <= qs then qs
    else
      SuccsShrink(c, qs);
      Reach(c, qs + Succs(c, qs))
  }

  /** The states reached contain the start, are closed under successors, and
      lie inside every closed superset of the start. */
  lemma {:induction false} ReachClosed<S, Y>(c: Counts<S, Y>, qs: set<S>, k: set<S>)
    ensures qs <= Reach(c, qs) && Succs(c, Reach(c, qs)) <= Reach(c, qs)
    ensures qs <= k && Succs(c, k) <= k ==> Reach(c, qs) <= k
    decreases |Dests(c) - qs|
  {
    if !(Succs(c, qs) <= qs) {
      SuccsShrink(c, qs);
      if qs <= k && Succs(c, k) <= k {
        forall x | x in Succs(c, qs)
          ensures x in k
        {
          var q, e :| q in qs && e in OutOf(c, q) && e.dest == x;
          DestIsSucc(c, k, q, x);
        }
      }
      ReachClosed(c, qs + Succs(c, qs), k);
    }
  }

  /** The automaton's own successor functions agree with those on its counts. */
  lemma SuccsOf<S(!new), Y(!new)>(a: FreqAutomaton<S, Y>, qs: set<S>)
    ensures a.SuccOf(qs) == Succs(CountsOf(a), qs)
    ensures a.AllDests() == Dests(CountsOf(a))
  {
    forall x | x in Succs(CountsOf(a), qs)
      ensures x in a.SuccOf(qs)
    {
      var q, e :| q in qs && e in OutOf(CountsOf(a), q) && e.dest == x;
      assert x in a.Succ(q);
    }
  }

  /** `reachable_states` on the automaton is `Reach` on its counts. */
  lemma {:induction false} ReachAgrees<S(!new), Y(!new)>(a: FreqAutomaton<S, Y>, qs: set<S>)
    ensures a.ReachFrom(qs) == Reach(CountsOf(a), qs)
    decreases |a.AllDests() - qs|
  {
    SuccsOf(a, qs);
    if !(a.SuccOf(qs) <= qs) {
      a.NextShrinks(qs);
      ReachAgrees(a, qs + a.SuccOf(qs));
    }
  }

  /** The counts of the states `keep` only: what `trim` leaves. */
  ghost function Restrict<S, Y>(c: Counts<S, Y>, keep: set<S>): Counts<S, Y> {
    Counts(map q | q in keep && q in c.trans :: c.trans[q], map q | q in keep && q in c.fin :: c.fin[q])
  }

  /** Counts kept for exactly `keep`, unchanged there, are the restriction. */
  lemma RestrictOf<S, Y>(c: Counts<S, Y>, d: Counts<S, Y>, keep: set<S>)
    requires keep <= c.trans.Keys && keep <= c.fin.Keys
    requires d.trans.Keys == keep && d.fin.Keys == keep
    requires forall q :: q in keep ==> d.trans[q] == c.trans[q] && d.fin[q] == c.fin[q]
    ensures d == Restrict(c, keep)
  {
    assert d.trans == Restrict(c, keep).trans;
    assert d.fin == Restrict(c, keep).fin;
  }

  /** A configuration of the loop: the counts, the states and the red states. */
  datatype Config<S, Y> = Config(c: Counts<S, Y>, states: set<S>, red: set<S>)

  /** What one round did with its blue state `b`: made it red, or merged it
      into the red state `rd` after sending its predecessor transition `e`
      to `rd`. */
  datatype Move<S, Y> = Promote(b: S) | Merge(b: S, rd: S, e: Trans<S, Y>)

  /** The blue states of a configuration: the successors of the red states,
      less the red states except in the first round, where the loop starts
      from the successors of the root. */
  ghost function Blue<S, Y>(x: Config<S, Y>, first: bool): set<S> {
    if first then Succs(x.c, x.red) else Succs(x.c, x.red) - x.red
  }

  /** `b` is the least blue state, in the order of `less`, whose frequency
      reaches `t0`. */
  ghost predicate LeastBlue<S, Y>(x: Config<S, Y>, first: bool, b: S, t0: int, less: (S, S) -> bool) {
    && b in Blue(x, first) && Freq(x.c, b) >= t0
    && forall q :: q in Blue(x, first) && less(q, b) ==> Freq(x.c, q) < t0
  }

  /** No blue state has frequency `t0` or more: the loop stops. */
  ghost predicate NoBlue<S, Y>(x: Config<S, Y>, first: bool, t0: int) {
    forall q :: q in Blue(x, first) ==> Freq(x.c, q) < t0
  }

  /** `rd` is the least red state, in the order of `less`, that the
      compatibility test accepts for `b`. */
  ghost predicate LeastCompatible<S, Y>(c: Counts<S, Y>, reds: set<S>, b: S, rd: S, alpha: real, m: Numerics,
                                               less: (S, S) -> bool) {
    && rd in reds && Compatible(c, rd, b, alpha, m) == Success(true)
    && forall q :: q in reds && less(q, rd) ==> Compatible(c, q, b, alpha, m) == Success(false)
  }

  /** The counts after `stochastic_merge` of `b` into `rd` through the
      predecessor transition `e`. */
  ghost function Merged<S, Y>(c: Counts<S, Y>, e: Trans<S, Y>, rd: S, b: S, fuel: nat): Counts<S, Y>
    requires e.src in c.trans
  {
    Fold(Retarget(c, e, rd), rd, b, fuel)
  }

  /** One round from `x` to `y`, started from the initial states `inits`:
      when the test rejects `b` for every red state, `b` becomes red and the
      counts stay; otherwise `b` is merged into the least red state the test
      accepts, through a transition into `b`, and only the states reachable
      from `inits` are kept, with their rows and final counts. */
  ghost predicate Round<S, Y>(x: Config<S, Y>, mv: Move<S, Y>, y: Config<S, Y>, inits: set<S>,
                                     alpha: real, m: Numerics, less: (S, S) -> bool, fuel: nat) {
    match mv
    case Promote(b) =>
      && (forall q :: q in x.red ==> Compatible(x.c, q, b, alpha, m) == Success(false))
      && y == Config(x.c, x.states, x.red + {b})
    case Merge(b, rd, e) =>
      && LeastCompatible(x.c, x.red, b, rd, alpha, m, less)
      && e.src in x.c.trans && e in x.c.trans[e.src] && e.dest == b
      && y.red == x.red
      && y.states == Reach(Merged(x.c, e, rd, b, fuel), inits)
      && y.c == Restrict(Merged(x.c, e, rd, b, fuel), y.states)
  }

  /** Round `i` of a trace: the least blue state with enough frequency is
      handled. */
  ghost predicate Step<S, Y>(x: Config<S, Y>, mv: Move<S, Y>, y: Config<S, Y>, first: bool, inits: set<S>,
                                    alpha: real, m: Numerics, less: (S, S) -> bool, t0: int, fuel: nat) {
    LeastBlue(x, first, mv.b, t0, less) && Round(x, mv, y, inits, alpha, m, less, fuel)
  }

  /** `xs` are the configurations of the loop and `mvs` the rounds between
      them. */
  ghost predicate Trace<S, Y>(xs: seq<Config<S, Y>>, mvs: seq<Move<S, Y>>, inits: set<S>,
                                     alpha: real, m: Numerics, less: (S, S) -> bool, t0: int, fuel: nat) {
    && |xs| == |mvs| + 1
    && forall i :: 0 <= i < |mvs| ==> Step(xs[i], mvs[i], xs[i + 1], i == 0, inits, alpha, m, less, t0, fuel)
  }

  /** A whole run of `alergia` from `x0` to `y`: a trace that starts at
      `x0`, ends at `y`, and stops because no blue state is left with
      frequency `t0` or more. */
  ghost predicate Run<S, Y>(x0: Config<S, Y>, y: Config<S, Y>, inits: set<S>, alpha: real, m: Numerics,
                                   less: (S, S) -> bool, t0: int, fuel: nat, xs: seq<Config<S, Y>>, mvs: seq<Move<S, Y>>) {
    && Trace(xs, mvs, inits, alpha, m, less, t0, fuel)
    && xs[0] == x0 && xs[|mvs|] == y
    && NoBlue(y, |mvs| == 0, t0)
  }

  /** A trace extended by one round is a trace. */
  lemma TraceSnoc<S, Y>(xs: seq<Config<S, Y>>, mvs: seq<Move<S, Y>>, mv: Move<S, Y>, y: Config<S, Y>, inits: set<S>,
                               alpha: real, m: Numerics, less: (S, S) -> bool, t0: int, fuel: nat)
    requires Trace(xs, mvs, inits, alpha, m, less, t0, fuel)
    requires Step(xs[|mvs|], mv, y, |mvs| == 0, inits, alpha, m, less, t0, fuel)
    ensures Trace(xs + [y], mvs + [mv], inits, alpha, m, less, t0, fuel)
    ensures (xs + [y])[0] == xs[0] && (xs + [y])[|mvs| + 1] == y
  {
    var xs', mvs' := xs + [y], mvs + [mv];
    forall i | 0 <= i < |mvs'|
      ensures Step(xs'[i], mvs'[i], xs'[i + 1], i == 0, inits, alpha, m, less, t0, fuel)
    {
      if i < |mvs| {
        assert xs'[i] == xs[i] && mvs'[i] == mvs[i] && xs'[i + 1] == xs[i + 1];
      }
    }
  }

  /** Every red state other than `root` was reached from a red state of
      smaller depth, its parent, through a transition of the counts `c`:
      the red states lie on paths from the root. */
  ghost predicate RedTree<S, Y>(c: Counts<S, Y>, reds: set<S>, root: S, parent: map<S, S>, depth: map<S, nat>) {
    && root in reds && reds <= depth.Keys
    && forall q :: q in reds && q != root ==>
         q in parent && parent[q] in reds && parent[q] in depth && depth[parent[q]] < depth[q] && q in DestsOf(c, parent[q])
  }

  /** The red states lie in every set holding the root and closed under
      successors. */
  lemma RedInClosed<S, Y>(c: Counts<S, Y>, reds: set<S>, root: S, parent: map<S, S>, depth: map<S, nat>, k: set<S>)
    requires RedTree(c, reds, root, parent, depth) && root in k && Succs(c, k) <= k
    ensures reds <= k
  {
    forall q | q in reds
      ensures q in k
    {
      RedIn(c, reds, root, parent, depth, k, q);
    }
  }

  /** One red state lies in such a set, by induction on its depth. */
  lemma {:induction false} RedIn<S, Y>(c: Counts<S, Y>, reds: set<S>, root: S, parent: map<S, S>, depth: map<S, nat>, k: set<S>, q: S)
    requires RedTree(c, reds, root, parent, depth) && root in k && Succs(c, k) <= k && q in reds
    ensures q in k
    decreases depth[q]
  {
    if q != root {
      RedIn(c, reds, root, parent, depth, k, parent[q]);
      DestIsSucc(c, k, parent[q], q);
    }
  }

  /** A promoted blue state is a successor of a red state, so it can be
      added to the tree. */
  lemma RedTreePromote<S, Y>(c: Counts<S, Y>, reds: set<S>, root: S, parent: map<S, S>, depth: map<S, nat>, b: S)
    returns (parent': map<S, S>, depth': map<S, nat>)
    requires RedTree(c, reds, root, parent, depth) && b in Succs(c, reds)
    ensures RedTree(c, reds + {b}, root, parent', depth')
  {
    if b in reds {
      return parent, depth;
    }
    var p, e :| p in reds && e in OutOf(c, p) && e.dest == b;
    parent' := parent[b := p];
    depth' := depth[b := depth[p] + 1];
    assert b in DestsOf(c, p);
  }

  /** Sending the transition `e` elsewhere keeps every transition that did
      not lead to `e`'s destination. */
  lemma RetargetKeepsDests<S, Y>(c: Counts<S, Y>, e: Trans<S, Y>, rd: S, p: S, q: S)
    requires e.src in c.trans && e in c.trans[e.src] && RowOf(c.trans[e.src], e.src)
    requires q in DestsOf(c, p) && q != e.dest
    ensures q in DestsOf(Retarget(c, e, rd), p)
  {
    var f :| f in OutOf(c, p) && f.dest == q;
    if p == e.src {
      assert f in OutOf(Retarget(c, e, rd), p);
    }
  }

  /** Adding to a row keeps every destination. */
  lemma BumpKeepsDests<S, Y>(c: Counts<S, Y>, red: S, e: Trans<S, Y>)
    ensures forall p :: DestsOf(c, p) <= DestsOf(Bump(c, red, e), p)
  {
    var row := OutOf(c, red);
    match Find(row, e.symbol)
      case None =>
        assert forall x :: x in row ==> x in OutOf(Bump(c, red, e), red);
      case Some(k) =>
        var bumped := row[k := row[k].(weight := row[k].weight + e.weight)];
        forall x | x in row
          ensures x.dest in DestsOf(Bump(c, red, e), red)
        {
          var i :| 0 <= i < |row| && row[i] == x;
          assert bumped[i] in bumped && bumped[i].dest == x.dest;
        }
  }

  /** Folding keeps every destination. */
  lemma {:induction false} FoldKeepsDests<S, Y>(c: Counts<S, Y>, red: S, blue: S, fuel: nat)
    ensures forall p :: DestsOf(c, p) <= DestsOf(Fold(c, red, blue, fuel), p)
    decreases fuel, 2
  {
    var c1 := Counts(c.trans, c.fin[red := FinOf(c, red) + FinOf(c, blue)]);
    assert forall p :: OutOf(c1, p) == OutOf(c, p);
    FoldRowKeepsDests(c1, red, OutOf(c, blue), fuel);
  }

  /** Folding a row keeps every destination. */
  lemma {:induction false} FoldRowKeepsDests<S, Y>(c: Counts<S, Y>, red: S, row: Row<S, Y>, fuel: nat)
    ensures forall p :: DestsOf(c, p) <= DestsOf(FoldRow(c, red, row, fuel), p)
    decreases fuel, 1, |row|
  {
    if row != [] {
      FoldOneKeepsDests(c, red, row[0], fuel);
      FoldRowKeepsDests(FoldOne(c, red, row[0], fuel), red, row[1..], fuel);
    }
  }

  /** Folding one transition keeps every destination. */
  lemma {:induction false} FoldOneKeepsDests<S, Y>(c: Counts<S, Y>, red: S, e: Trans<S, Y>, fuel: nat)
    ensures forall p :: DestsOf(c, p) <= DestsOf(FoldOne(c, red, e, fuel), p)
    decreases fuel, 0
  {
    BumpKeepsDests(c, red, e);
    var row := OutOf(c, red);
    match Find(row, e.symbol)
      case None =>
      case Some(k) =>
        if fuel > 0 {
          FoldKeepsDests(Bump(c, red, e), row[k].dest, e.dest, fuel - 1);
        }
  }

  /** A merge followed by a trim keeps the red states and the transitions
      between them, when the blue state is red only if it is the state
      merged into. */
  lemma RedTreeMerge<S, Y>(c: Counts<S, Y>, reds: set<S>, root: S, parent: map<S, S>, depth: map<S, nat>,
                           e: Trans<S, Y>, rd: S, b: S, fuel: nat, inits: set<S>)
    requires RedTree(c, reds, root, parent, depth) && root in inits
    requires e.src in c.trans && e in c.trans[e.src] && RowOf(c.trans[e.src], e.src) && e.dest == b
    requires b in reds ==> b == root
    ensures RedTree(Restrict(Merged(c, e, rd, b, fuel), Reach(Merged(c, e, rd, b, fuel), inits)), reds, root, parent, depth)
    ensures reds <= Reach(Merged(c, e, rd, b, fuel), inits)
  {
    var c2 := Merged(c, e, rd, b, fuel);
    var k := Reach(c2, inits);
    FoldKeepsDests(Retarget(c, e, rd), rd, b, fuel);
    forall q | q in reds && q != root
      ensures q in DestsOf(c2, parent[q])
    {
      RetargetKeepsDests(c, e, rd, parent[q], q);
    }
    assert RedTree(c2, reds, root, parent, depth);
    ReachClosed(c2, inits, k);
    RedInClosed(c2, reds, root, parent, depth, k);
    forall p | p in k
      ensures OutOf(Restrict(c2, k), p) == OutOf(c2, p)
    {
    }
  }

  /** The loop so far: a trace ending at `x`, whose red states are only the
      root before the first round, and lie on paths from the root. */
  ghost predicate Progress<S, Y>(xs: seq<Config<S, Y>>, mvs: seq<Move<S, Y>>, x: Config<S, Y>, root: S,
                                 parent: map<S, S>, depth: map<S, nat>, inits: set<S>,
                                 alpha: real, m: Numerics, less: (S, S) -> bool, t0: int, fuel: nat) {
    && Trace(xs, mvs, inits, alpha, m, less, t0, fuel) && xs[|mvs|] == x
    && (|mvs| == 0 ==> x.red == {root})
    && RedTree(x.c, x.red, root, parent, depth)
  }

  /** A round from the end of the loop so far extends it. */
  lemma ProgressStep<S, Y>(xs: seq<Config<S, Y>>, mvs: seq<Move<S, Y>>, x: Config<S, Y>, mv: Move<S, Y>, y: Config<S, Y>, root: S,
                           parent: map<S, S>, depth: map<S, nat>, inits: set<S>,
                           alpha: real, m: Numerics, less: (S, S) -> bool, t0: int, fuel: nat)
    returns (parent': map<S, S>, depth': map<S, nat>)
    requires Progress(xs, mvs, x, root, parent, depth, inits, alpha, m, less, t0, fuel)
    requires Shaped(x.c) && root in inits
    requires Step(x, mv, y, |mvs| == 0, inits, alpha, m, less, t0, fuel)
    ensures Progress(xs + [y], mvs + [mv], y, root, parent', depth', inits, alpha, m, less, t0, fuel)
    ensures (xs + [y])[0] == xs[0]
  {
    TraceSnoc(xs, mvs, mv, y, inits, alpha, m, less, t0, fuel);
    if mv.Promote? {
      parent', depth' := RedTreePromote(x.c, x.red, root, parent, depth, mv.b);
    } else {
      RedTreeMerge(x.c, x.red, root, parent, depth, mv.e, mv.rd, mv.b, fuel, inits);
      parent', depth' := parent, depth;
    }
  }

  /** The root of a well-formed automaton is an initial state. */
  lemma RootIni<S(!new), Y(!new)>(a: FreqAutomaton<S, Y>)
    requires a.Valid()
    ensures a.root in a.IniKeys()
  {
    var k :| 0 <= k < |a.ini| && a.ini[k].0 == a.root;
    assert a.ini[k] in a.ini;
  }

  /** The error returned when the loop runs out of steps. */
  const OutOfSteps := "Alergia did not finish within the step bound"

  /** One round of the loop of `alergia` for the blue state `b`: `b` is
      merged into the least compatible red state and the automaton is
      trimmed, or, when no red state is compatible, `b` becomes red. The
      ghost `mv` records which, and the round from the old counts, states
      and red states to the new ones is a `Round`. */
  method AlergiaRound<S(==,!new), Y(==,!new)>(a: FreqAutomaton<S, Y>, reds: set<S>, b: S, alpha: real, m: Numerics,
                                             less: (S, S) -> bool, foldFuel: nat)
    returns (r: Result<set<S>, string>, ghost mv: Move<S, Y>)
    requires a.Valid() && StrictTotalOrder(less) && b in a.states
    modifies a
    ensures a.Valid() && a.root == old(a.root) && a.ini == old(a.ini) && a.states <= old(a.states)
    ensures r.Success? ==> mv.b == b
    ensures r.Success? ==>
      Round(Config(old(CountsOf(a)), old(a.states), reds), mv, Config(CountsOf(a), a.states, r.value), a.IniKeys(),
            alpha, m, less, foldFuel)
    ensures NonNeg(old(CountsOf(a))) ==> NonNeg(CountsOf(a))
    ensures NonNeg(old(CountsOf(a))) ==> forall q :: q in a.states ==> Freq(CountsOf(a), q) >= Freq(old(CountsOf(a)), q)
  {
    mv := Promote(b);
    var chosen := ChooseRedState(a, reds, b, alpha, m, less);
    if chosen.Failure? {
      return Failure(chosen.error), mv;
    }
    if chosen.value.None? {
      return Success(reds + {b}), mv;
    }
    var rd := chosen.value.value;
    CompatibleKnown(a, rd, b, alpha, m);
    ghost var c1 := CountsOf(a);
    var merged := StochasticMerge(a, rd, b, foldFuel);
    if merged.Failure? {
      return Failure(merged.error), mv;
    }
    if NonNeg(c1) {
      MergeGrows(c1, merged.value, rd, b, foldFuel);
    }
    ghost var c2 := CountsOf(a);
    ReachAgrees(a, a.IniKeys());
    a.Trim();
    TrimKeepsFreq(c2, CountsOf(a), a.states);
    RestrictOf(c2, CountsOf(a), a.states);
    r, mv := Success(reds), Merge(b, rd, merged.value);
  }

  /** No count is negative, and no frequency of a state in `states` is
      below its value in `c0`, when `c0` has no negative count. */
  ghost predicate NoneLower<S, Y>(c0: Counts<S, Y>, c: Counts<S, Y>, states: set<S>) {
    NonNeg(c0) ==> NonNeg(c) && forall q :: q in states ==> Freq(c, q) >= Freq(c0, q)
  }

  /** Frequencies that do not drop in two stages do not drop overall. */
  lemma NoneLowerTrans<S, Y>(c0: Counts<S, Y>, c1: Counts<S, Y>, c2: Counts<S, Y>, s1: set<S>, s2: set<S>)
    requires NoneLower(c0, c1, s1) && s2 <= s1
    requires NonNeg(c1) ==> NonNeg(c2) && forall q :: q in s2 ==> Freq(c2, q) >= Freq(c1, q)
    ensures NoneLower(c0, c2, s2)
  {
  }

  /** The blue states after a round: the successors of the red states
      that are not red, and the least of them with frequency `t0` or more. */
  method NextBlue<S(==,!new), Y(==,!new)>(a: FreqAutomaton<S, Y>, reds: set<S>, t0: int, less: (S, S) -> bool)
    returns (blueSet: set<S>, blue: Option<S>)
    requires StrictTotalOrder(less)
    ensures blueSet == a.SuccOf(reds) - reds
    ensures blueSet == Blue(Config(CountsOf(a), a.states, reds), false)
    ensures blue.Some? ==> LeastBlue(Config(CountsOf(a), a.states, reds), false, blue.value, t0, less)
    ensures blue.None? ==> NoBlue(Config(CountsOf(a), a.states, reds), false, t0)
  {
    blueSet := a.SuccessorsSet(reds);
    blueSet := blueSet - reds;
    SuccsOf(a, reds);
    blue := ChooseBlueState(a, blueSet, t0, less);
  }

  /** The blue states before the first round: the successors of the root,
      and the least of them with frequency `t0` or more. */
  method FirstBlue<S(==,!new), Y(==,!new)>(a: FreqAutomaton<S, Y>, t0: int, less: (S, S) -> bool)
    returns (blueSet: set<S>, blue: Option<S>)
    requires StrictTotalOrder(less)
    ensures blueSet == a.Succ(a.root)
    ensures blueSet == Blue(Config(CountsOf(a), a.states, {a.root}), true)
    ensures blue.Some? ==> LeastBlue(Config(CountsOf(a), a.states, {a.root}), true, blue.value, t0, less)
    ensures blue.None? ==> NoBlue(Config(CountsOf(a), a.states, {a.root}), true, t0)
  {
    blueSet := a.Successors(a.root);
    SuccOfOne(a, a.root);
    SuccsOf(a, {a.root});
    blue := ChooseBlueState(a, blueSet, t0, less);
  }

  /** A blue state of a well-formed automaton is one of its states, and
      its counts are shaped. */
  lemma BlueInStates<S(!new), Y(!new)>(a: FreqAutomaton<S, Y>, reds: set<S>, first: bool, b: S, t0: int, less: (S, S) -> bool)
    requires a.Valid() && LeastBlue(Config(CountsOf(a), a.states, reds), first, b, t0, less)
    ensures b in a.states && Shaped(CountsOf(a))
  {
    SuccsOf(a, reds);
    SuccInStates(a, reds);
    ValidShaped(a);
  }

  /** The red states of a well-formed automaton, on paths from its root,
      are among its states. */
  lemma RedInStates<S(!new), Y(!new)>(a: FreqAutomaton<S, Y>, reds: set<S>, parent: map<S, S>, depth: map<S, nat>)
    requires a.Valid() && RedTree(CountsOf(a), reds, a.root, parent, depth)
    ensures reds <= a.states
  {
    SuccsOf(a, a.states);
    SuccInStates(a, a.states);
    RedInClosed(CountsOf(a), reds, a.root, parent, depth, a.states);
  }

  /** `alergia`: the red/blue loop, mutating `a` in place and returning it.
      At most `steps` blue states are handled, and each fold recurses at
      most `foldFuel` deep. On success the ghost `xs` and `mvs` are the
      configurations and the rounds of a `Run` from the input, with the
      root as the only red state, to the result with the red states `red`;
      the red states are states of the result. With no negative counts, no
      frequency of a remaining state drops below its value in the input. */
  method RunAlergia<S(==,!new), Y(==,!new)>(a: FreqAutomaton<S, Y>, alpha: real, t0: int, m: Numerics, less: (S, S) -> bool,
                                           steps: nat, foldFuel: nat)
    returns (r: Result<FreqAutomaton<S, Y>, string>, ghost red: set<S>, ghost xs: seq<Config<S, Y>>, ghost mvs: seq<Move<S, Y>>)
    requires a.Valid() && StrictTotalOrder(less)
    modifies a
    ensures a.Valid() && a.root == old(a.root) && a.ini == old(a.ini) && a.states <= old(a.states)
    ensures r.Success? ==> r.value == a && a.root in red && red <= a.states
    ensures r.Success? ==>
      Run(Config(old(CountsOf(a)), old(a.states), {a.root}), Config(CountsOf(a), a.states, red), a.IniKeys(),
          alpha, m, less, t0, foldFuel, xs, mvs)
    ensures NoneLower(old(CountsOf(a)), CountsOf(a), a.states)
  {
    ghost var c0 := CountsOf(a);
    ghost var states0 := a.states;
    ghost var inits := a.IniKeys();
    RootIni(a);
    var reds := {a.root};
    var blueSet, blue := FirstBlue(a, t0, less);
    xs, mvs := [Config(c0, states0, reds)], [];
    ghost var parent: map<S, S>, depth: map<S, nat> := map[], map[a.root := 0];
    var left := steps;
    while blue.Some?
      invariant a.Valid() && a.root == old(a.root) && a.ini == old(a.ini) && a.states <= states0
      invariant Progress(xs, mvs, Config(CountsOf(a), a.states, reds), a.root, parent, depth, inits, alpha, m, less, t0, foldFuel)
      invariant xs[0] == Config(c0, states0, {a.root}) && a.root in inits
      invariant blueSet == Blue(Config(CountsOf(a), a.states, reds), |mvs| == 0)
      invariant blue.Some? ==> LeastBlue(Config(CountsOf(a), a.states, reds), |mvs| == 0, blue.value, t0, less)
      invariant blue.None? ==> NoBlue(Config(CountsOf(a), a.states, reds), |mvs| == 0, t0)
      invariant NoneLower(c0, CountsOf(a), a.states)
      decreases left
    {
      if left == 0 {
        return Failure(OutOfSteps), reds, xs, mvs;
      }
      left := left - 1;
      BlueInStates(a, reds, |mvs| == 0, blue.value, t0, less);
      ghost var c1 := CountsOf(a);
      ghost var s1 := a.states;
      var next, mv := AlergiaRound(a, reds, blue.value, alpha, m, less, foldFuel);
      NoneLowerTrans(c0, c1, CountsOf(a), s1, a.states);
      if next.Failure? {
        return Failure(next.error), reds, xs, mvs;
      }
      ghost var y := Config(CountsOf(a), a.states, next.value);
      parent, depth := ProgressStep(xs, mvs, Config(c1, s1, reds), mv, y, a.root, parent, depth, inits, alpha, m, less, t0, foldFuel);
      xs, mvs := xs + [y], mvs + [mv];
      reds := next.value;
      blueSet, blue := NextBlue(a, reds, t0, less);
    }
    RedInStates(a, reds, parent, depth);
    r, red := Success(a), reds;
  }

  /** Keeping some states with their rows and final counts keeps their
      frequencies and leaves no count negative. */
  lemma TrimKeepsFreq<S, Y>(c: Counts<S, Y>, d: Counts<S, Y>, kept: set<S>)
    requires d.trans.Keys == kept && d.fin.Keys == kept
    requires forall q :: q in kept ==> q in c.trans && q in c.fin && d.trans[q] == c.trans[q] && d.fin[q] == c.fin[q]
    ensures forall q :: q in kept ==> Freq(d, q) == Freq(c, q)
    ensures NonNeg(c) ==> NonNeg(d)
  {
  }
}
