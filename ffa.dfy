/** Frequency automata (`FFA`): the structure the learning stage builds and
    rewrites, and the operations that `DFFA` and `FPT` inherit. States and
    symbols are type parameters; weights are integer frequencies. */
module Ffa {
  import opened Wrappers
  import CoreWfa
  import CoreWfaExport

  /** `FFATrans`. */
  datatype Trans<S, Y> = Trans(src: S, dest: S, weight: int, symbol: Y)

  /** The transitions leaving one state: the symbol-keyed dictionary of that
      state, in insertion order. */
  type Row<S, Y> = seq<Trans<S, Y>>

  /** A well-formed row of `q`: every transition leaves `q`, and no symbol has
      two transitions. */
  predicate RowOf<S(==), Y(==)>(row: Row<S, Y>, q: S) {
    && (forall e :: e in row ==> e.src == q)
    && forall i, j :: 0 <= i < j < |row| ==> row[i].symbol != row[j].symbol
  }

  /** The position of the transition on `sym` in a row, if there is one. */
  function Find<S, Y(==)>(row: Row<S, Y>, sym: Y): (r: Option<nat>)
    ensures r.Some? ==> r.value < |row| && row[r.value].symbol == sym
    ensures r.None? ==> forall e :: e in row ==> e.symbol != sym
  {
    if row == [] then None
    else if row[0].symbol == sym then Some(0)
    else match Find(row[1..], sym)
      case None => None
      case Some(k) => Some(k + 1)
  }

  /** The sum of the weights of a row. */
  function RowWeight<S, Y>(row: Row<S, Y>): int {
    if row == [] then 0 else row[0].weight + RowWeight(row[1..])
  }

  /** Adding a transition at the end of a row adds its weight. */
  lemma {:induction false} RowWeightSnoc<S, Y>(row: Row<S, Y>, e: Trans<S, Y>)
    ensures RowWeight(row + [e]) == RowWeight(row) + e.weight
  {
    if row != [] {
      assert (row + [e])[1..] == row[1..] + [e];
      RowWeightSnoc(row[1..], e);
    }
  }

  /** Replacing one transition of a row changes the row's weight by the
      difference of the two weights. */
  lemma {:induction false} RowWeightUpdate<S, Y>(row: Row<S, Y>, k: nat, x: Trans<S, Y>)
    requires k < |row|
    ensures RowWeight(row[k := x]) == RowWeight(row) - row[k].weight + x.weight
  {
    if k > 0 {
      assert row[k := x][1..] == row[1..][k - 1 := x];
      RowWeightUpdate(row[1..], k - 1, x);
    }
  }

  /** `row[sym] = e`: the transition on `e`'s symbol is replaced where it
      stands, or `e` is added at the end when the row has none. */
  function Put<S, Y(==)>(row: Row<S, Y>, e: Trans<S, Y>): (r: Row<S, Y>)
    ensures e in r
    ensures forall x :: x in r ==> x == e || x in row
    ensures forall x :: x in row && x.symbol != e.symbol ==> x in r
  {
    match Find(row, e.symbol)
      case None => row + [e]
      case Some(k) =>
        assert forall x :: x in row && x.symbol != e.symbol ==> x in row[k := e] by {
          forall x | x in row && x.symbol != e.symbol
            ensures x in row[k := e]
          {
            var j :| 0 <= j < |row| && row[j] == x;
            assert row[k := e][j] == x;
          }
        }
        assert forall x :: x in row[k := e] ==> x == e || x in row by {
          forall x | x in row[k := e]
            ensures x == e || x in row
          {
            var j :| 0 <= j < |row| && row[k := e][j] == x;
            assert j != k ==> row[j] == x;
          }
        }
        assert row[k := e][k] == e;
        row[k := e]
  }

  /** Putting a transition of `q` into a row of `q` keeps it a row of `q`. */
  lemma PutRowOf<S, Y>(row: Row<S, Y>, e: Trans<S, Y>, q: S)
    requires RowOf(row, q) && e.src == q
    ensures RowOf(Put(row, e), q)
  {
    var r := Put(row, e);
    match Find(row, e.symbol)
      case None =>
      case Some(k) =>
        forall i, j | 0 <= i < j < |r|
          ensures r[i].symbol != r[j].symbol
        {
          assert r[i].symbol == row[i].symbol && r[j].symbol == row[j].symbol;
        }
  }

  /** The row with every state renamed by `d`. */
  function RenamedRow<S(==), Y>(row: Row<S, Y>, d: map<S, int>): (r: Row<int, Y>)
    requires forall e :: e in row ==> e.src in d && e.dest in d
    ensures |r| == |row|
    ensures forall i :: 0 <= i < |row| ==> r[i] == Trans(d[row[i].src], d[row[i].dest], row[i].weight, row[i].symbol)
  {
    seq(|row|, i requires 0 <= i < |row| => Trans(d[row[i].src], d[row[i].dest], row[i].weight, row[i].symbol))
  }

  /** Renaming keeps the total weight of a row. */
  lemma {:induction false} RenamedRowWeight<S(!new), Y>(row: Row<S, Y>, d: map<S, int>)
    requires forall e :: e in row ==> e.src in d && e.dest in d
    ensures RowWeight(RenamedRow(row, d)) == RowWeight(row)
    decreases |row|
  {
    if row != [] {
      assert RenamedRow(row, d)[1..] == RenamedRow(row[1..], d);
      RenamedRowWeight(row[1..], d);
    }
  }

  /** The initial dictionary with every state renamed by `d`, in order. */
  function RenamedIni<S(==)>(ini: seq<(S, int)>, d: map<S, int>): (r: seq<(int, int)>)
    requires forall p :: p in ini ==> p.0 in d
    ensures |r| == |ini|
    ensures forall i :: 0 <= i < |ini| ==> r[i] == (d[ini[i].0], ini[i].1)
  {
    seq(|ini|, i requires 0 <= i < |ini| => (d[ini[i].0], ini[i].1))
  }

  /** The frequency transition as a weighted one. */
  function AsTransition<S, Y>(e: Trans<S, Y>): CoreWfa.Transition<S, Y> {
    CoreWfa.Transition(e.src, e.dest, e.symbol, e.weight as real)
  }

  /** A row as weighted transitions, in order. */
  function AsTransitions<S, Y>(row: Row<S, Y>): (r: seq<CoreWfa.Transition<S, Y>>)
    ensures |r| == |row| && forall i :: 0 <= i < |row| ==> r[i] == AsTransition(row[i])
  {
    seq(|row|, i requires 0 <= i < |row| => AsTransition(row[i]))
  }

  /** The final counts as weights. */
  function RealFinals<S>(fin: map<S, int>): (r: map<S, real>)
    ensures r.Keys == fin.Keys && forall q :: q in fin ==> r[q] == fin[q] as real
  {
    map q | q in fin :: fin[q] as real
  }

  /** The initial counts as weights, in order. */
  function RealIni<S>(ini: seq<(S, int)>): (r: seq<(S, real)>)
    ensures |r| == |ini| && forall i :: 0 <= i < |ini| ==> r[i] == (ini[i].0, ini[i].1 as real)
  {
    seq(|ini|, i requires 0 <= i < |ini| => (ini[i].0, ini[i].1 as real))
  }

  /** A numbering of `n` states takes exactly the values 0..n-1. */
  lemma NumberingImage<S(!new)>(d: map<S, int>, ks: set<S>, n: nat)
    requires CoreWfa.Numbering(d, n) && d.Keys == ks
    ensures (set q | q in ks :: d[q]) == Ids(n)
  {
    forall k | k in Ids(n)
      ensures k in set q | q in ks :: d[q]
    {
      assert k in d.Values;
      var q :| q in d && d[q] == k;
    }
  }

  /** Removing one element of `u` missing from `a` shrinks what `a` leaves of `u`. */
  lemma Shrink<T>(u: set<T>, a: set<T>, b: set<T>, x: T)
    requires x in u && x in b && x !in a
    ensures |u - (a + b)| < |u - a|
  {
    SubsetCard(u - (a + b), (u - a) - {x});
  }

  /** A subset is no larger. */
  lemma {:induction false} SubsetCard<T>(x: set<T>, y: set<T>)
    requires x <= y
    ensures |x| <= |y|
  {
    if x != {} {
      var e :| e in x;
      SubsetCard(x - {e}, y - {e});
    }
  }

  /** The numbers 0..n-1. */
  function Ids(n: nat): (r: set<int>)
    ensures forall k :: k in r <==> 0 <= k < n
  {
    if n == 0 then {} else Ids(n - 1) + {n - 1}
  }

  /** Every state has a row, each row leaves its state, and every
      transition stays among the states. */
  ghost predicate RowsWellFormed<S(!new), Y(!new)>(states: set<S>, trans: map<S, Row<S, Y>>) {
    && trans.Keys == states
    && (forall q :: q in trans ==> RowOf(trans[q], q))
    && (forall q, e :: q in trans && e in trans[q] ==> e.dest in states)
  }

  /** The initial dictionary has distinct keys among the states, one of them the root. */
  ghost predicate IniWellFormed<S(!new)>(states: set<S>, ini: seq<(S, int)>, root: S) {
    && CoreWfa.DistinctKeys(ini)
    && (forall p :: p in ini ==> p.0 in states)
    && exists k :: 0 <= k < |ini| && ini[k].0 == root
  }

  /** Rows and final counts are kept for exactly the states, transitions
      stay among the states, and the root is an initial state. */
  ghost predicate WellFormed<S(!new), Y(!new)>(states: set<S>, trans: map<S, Row<S, Y>>, ini: seq<(S, int)>, fin: map<S, int>, root: S) {
    RowsWellFormed(states, trans) && fin.Keys == states && IniWellFormed(states, ini, root)
  }

  /** A renamed row is a row of the renamed state, leading to renamed states. */
  lemma RenamedRowOf<S(!new), Y(!new)>(row: Row<S, Y>, q: S, d: map<S, int>)
    requires RowOf(row, q) && q in d && forall e :: e in row ==> e.dest in d
    ensures RowOf(RenamedRow(row, d), d[q])
    ensures forall e :: e in RenamedRow(row, d) ==> e.dest in d.Values
  {
    var r := RenamedRow(row, d);
    forall e | e in r
      ensures e.src == d[q] && e.dest in d.Values
    {
      var j :| 0 <= j < |r| && r[j] == e;
      assert row[j] in row;
    }
  }

  /** Renaming by a numbering keeps the rows well formed. */
  lemma RenamedRowsWellFormed<S(!new), Y(!new)>(states: set<S>, trans: map<S, Row<S, Y>>, d: map<S, int>, t: map<int, Row<int, Y>>)
    requires d.Keys == states && CoreWfa.Numbering(d, |states|)
    requires RowsWellFormed(states, trans)
    requires t.Keys == Ids(|states|)
    requires forall q :: q in states ==> RowOf(trans[q], q) && t[d[q]] == RenamedRow(trans[q], d)
    ensures RowsWellFormed(Ids(|states|), t)
  {
    forall q | q in t
      ensures RowOf(t[q], q) && forall e :: e in t[q] ==> 0 <= e.dest < |states|
    {
      assert q in d.Values;
      var p :| p in states && d[p] == q;
      RenamedRowOf(trans[p], p, d);
    }
  }

  /** Renaming by an injective map keeps the initial dictionary well formed. */
  lemma RenamedIniWellFormed<S(!new)>(states: set<S>, ini: seq<(S, int)>, root: S, d: map<S, int>)
    requires IniWellFormed(states, ini, root) && d.Keys == states && CoreWfa.Numbering(d, |states|)
    ensures IniWellFormed(Ids(|states|), RenamedIni(ini, d), d[root])
  {
    var i := RenamedIni(ini, d);
    var k :| 0 <= k < |ini| && ini[k].0 == root;
    assert ini[k] in ini;
    assert i[k].0 == d[root];
    forall a, b | 0 <= a < b < |i|
      ensures i[a].0 != i[b].0
    {
      assert ini[a] in ini && ini[b] in ini;
      assert ini[a].0 != ini[b].0;
    }
    forall p | p in i
      ensures 0 <= p.0 < |states|
    {
      var j :| 0 <= j < |i| && i[j] == p;
      assert ini[j] in ini;
    }
  }

  /** Keeping a closed set of states that holds the initial ones keeps an
      automaton well formed. */
  lemma KeptWellFormed<S(!new), Y(!new)>(states: set<S>, trans: map<S, Row<S, Y>>, ini: seq<(S, int)>, fin: map<S, int>, root: S,
                                        reach: set<S>, t: map<S, Row<S, Y>>, f: map<S, int>)
    requires WellFormed(states, trans, ini, fin, root)
    requires reach <= states && (forall p :: p in ini ==> p.0 in reach)
    requires forall q, e :: q in reach && e in trans[q] ==> e.dest in reach
    requires t.Keys == reach && (forall q :: q in reach ==> t[q] == trans[q]) && f.Keys == reach
    ensures WellFormed(reach, t, ini, f, root)
  {
  }

  /** Renaming by a numbering keeps an automaton well formed. */
  lemma RenamedWellFormed<S(!new), Y(!new)>(states: set<S>, trans: map<S, Row<S, Y>>, ini: seq<(S, int)>, fin: map<S, int>, root: S,
                                           d: map<S, int>, t: map<int, Row<int, Y>>, f: map<int, int>)
    requires WellFormed(states, trans, ini, fin, root)
    requires d.Keys == states && CoreWfa.Numbering(d, |states|)
    requires t.Keys == (set q | q in states :: d[q]) && forall q :: q in states ==> t[d[q]] == RenamedRow(trans[q], d)
    requires f.Keys == (set q | q in fin :: d[q])
    ensures WellFormed(Ids(|states|), t, RenamedIni(ini, d), f, d[root])
  {
    NumberingImage(d, states, |states|);
    assert (set q | q in fin :: d[q]) == (set q | q in states :: d[q]);
    RenamedRowsWellFormed(states, trans, d, t);
    RenamedIniWellFormed(states, ini, root, d);
  }

  /** A frequency automaton. `trans` and `fin` are `defaultdict`s in the
      original; here every state has a row (empty by default) and a final
      count (0 by default). `root` is the root of a `DFFA`. */
  class FreqAutomaton<S(==,!new), Y(==,!new)> {
    var states: set<S>
    var trans: map<S, Row<S, Y>>
    var ini: seq<(S, int)>
    var fin: map<S, int>
    var root: S

    constructor (states: set<S>, trans: map<S, Row<S, Y>>, ini: seq<(S, int)>, fin: map<S, int>, root: S)
      ensures this.states == states && this.trans == trans && this.ini == ini && this.fin == fin && this.root == root
    {
      this.states := states;
      this.trans := trans;
      this.ini := ini;
      this.fin := fin;
      this.root := root;
    }

    /** The initial states. */
    function IniKeys(): set<S>
      reads this
    {
      set p | p in ini :: p.0
    }

    /** Rows and final counts are kept for exactly the states, transitions
        stay among the states, and the root is an initial state. */
    ghost predicate Valid()
      reads this
    {
      WellFormed(states, trans, ini, fin, root)
    }

    /** The row of `q`, empty for a state without one. */
    function Out(q: S): Row<S, Y>
      reads this
    {
      if q in trans then trans[q] else []
    }

    /** The destinations of the transitions leaving `q`. */
    function Succ(q: S): set<S>
      reads this
    {
      set e | e in Out(q) :: e.dest
    }

    /** The successors of a set of states. */
    function SuccOf(qs: set<S>): set<S>
      reads this
    {
      set q, x | q in qs && x in Succ(q) :: x
    }

    /** Every destination of a transition. */
    function AllDests(): set<S>
      reads this
    {
      set q, e | q in trans && e in trans[q] :: e.dest
    }

    /** `successors`: the destinations of the transitions leaving `q`. */
    method Successors(q: S) returns (succ: set<S>)
      ensures succ == Succ(q)
    {
      var row := Out(q);
      succ := {};
      for i := 0 to |row|
        invariant succ == set e | e in row[..i] :: e.dest
      {
        assert row[..i + 1] == row[..i] + [row[i]];
        succ := succ + {row[i].dest};
      }
      assert row[..|row|] == row;
    }

    /** `successors_set`: the union of the successors of the states. */
    method SuccessorsSet(qs: set<S>) returns (succ: set<S>)
      ensures succ == SuccOf(qs)
    {
      succ := {};
      var rest := qs;
      while rest != {}
        invariant rest <= qs
        invariant succ == SuccOf(qs - rest)
        decreases rest
      {
        var q :| q in rest;
        var s := Successors(q);
        assert SuccOf(qs - (rest - {q})) == SuccOf(qs - rest) + s;
        succ := succ + s;
        rest := rest - {q};
      }
    }

    /** Adding new successors leaves fewer destinations to add. */
    lemma NextShrinks(qs: set<S>)
      requires !(SuccOf(qs) <= qs)
      ensures |AllDests() - (qs + SuccOf(qs))| < |AllDests() - qs|
    {
      var x :| x in SuccOf(qs) && x !in qs;
      var q :| q in qs && x in Succ(q);
      assert x in AllDests();
      Shrink(AllDests(), qs, SuccOf(qs), x);
    }

    /** `reachable_states`: add successors until nothing new appears. */
    function ReachFrom(qs: set<S>): set<S>
      reads this
      decreases |AllDests() - qs|
    {
      var next := SuccOf(qs);
      if next <= qs then qs
      else
        NextShrinks(qs);
        ReachFrom(qs + next)
    }

    /** The states reached contain the states started from, are closed under
        taking successors, and lie inside every closed superset. */
    lemma {:induction false} ReachLeast(qs: set<S>, c: set<S>)
      ensures qs <= ReachFrom(qs)
      ensures SuccOf(ReachFrom(qs)) <= ReachFrom(qs)
      ensures qs <= c && SuccOf(c) <= c ==> ReachFrom(qs) <= c
      decreases |AllDests() - qs|
    {
      var next := SuccOf(qs);
      if !(next <= qs) {
        NextShrinks(qs);
        if qs <= c && SuccOf(c) <= c {
          assert next <= SuccOf(c);
        }
        ReachLeast(qs + next, c);
      }
    }

    /** The recursion of `reachable_states`, over `successors_set`. */
    method ReachableStates(qs: set<S>) returns (r: set<S>)
      ensures r == ReachFrom(qs)
      decreases |AllDests() - qs|
    {
      var next := SuccessorsSet(qs);
      if next <= qs {
        return qs;
      }
      NextShrinks(qs);
      assert next + qs == qs + next;
      r := ReachableStates(next + qs);
    }

    /** The first loop of `trim`: the rows of the states kept. */
    method KeepRows(reach: set<S>) returns (newTran: map<S, Row<S, Y>>)
      requires reach <= trans.Keys
      ensures newTran.Keys == reach
      ensures forall q :: q in reach ==> newTran[q] == trans[q]
    {
      newTran := map[];
      var rest := reach;
      while rest != {}
        invariant rest <= reach
        invariant newTran.Keys == reach - rest
        invariant forall q :: q in newTran ==> newTran[q] == trans[q]
        decreases rest
      {
        var q :| q in rest;
        newTran := newTran[q := trans[q]];
        rest := rest - {q};
      }
    }

    /** The second loop of `trim`: the final counts of the states dropped are deleted. */
    method DropFinals(stRem: set<S>)
      requires stRem <= fin.Keys
      modifies this
      ensures fin.Keys == old(fin).Keys - stRem
      ensures forall q :: q in fin ==> fin[q] == old(fin)[q]
      ensures states == old(states) && trans == old(trans) && ini == old(ini) && root == old(root)
    {
      var rest := stRem;
      while rest != {}
        invariant rest <= stRem
        invariant fin.Keys == old(fin).Keys - (stRem - rest)
        invariant forall q :: q in fin ==> fin[q] == old(fin)[q]
        invariant states == old(states) && trans == old(trans) && ini == old(ini) && root == old(root)
        decreases rest
      {
        var q :| q in rest;
        fin := fin - {q};
        rest := rest - {q};
      }
    }

    /** `trim`: keep the states reachable from the initial states, with their
        rows and final counts, and drop the others. */
    method Trim()
      requires Valid()
      modifies this
      ensures Valid()
      ensures states == old(ReachFrom(IniKeys())) && states <= old(states)
      ensures forall q :: q in states ==> trans[q] == old(trans)[q] && fin[q] == old(fin)[q]
      ensures ini == old(ini) && root == old(root)
    {
      var reach := ReachableStates(IniKeys());
      ReachLeast(IniKeys(), states);
      forall q, e | q in reach && e in trans[q]
        ensures e.dest in reach
      {
        assert e.dest in Succ(q);
        assert e.dest in SuccOf(reach);
      }
      var newTran := KeepRows(reach);
      DropFinals(states - reach);
      KeptWellFormed(states, trans, ini, old(fin), root, reach, newTran, fin);
      states := reach;
      trans := newTran;
    }

    /** The rows of `rename_states`, each under the number of its state. */
    method RenameRows(d: map<S, int>) returns (t: map<int, Row<int, Y>>)
      requires Valid() && d.Keys == states && CoreWfa.Injective(d)
      ensures t.Keys == set q | q in states :: d[q]
      ensures forall q :: q in states ==> t[d[q]] == RenamedRow(trans[q], d)
    {
      t := map[];
      var rest := states;
      while rest != {}
        invariant rest <= states
        invariant t.Keys == set q | q in states - rest :: d[q]
        invariant forall q :: q in states - rest ==> t[d[q]] == RenamedRow(trans[q], d)
        decreases rest
      {
        var q :| q in rest;
        t := t[d[q] := RenamedRow(trans[q], d)];
        rest := rest - {q};
      }
    }

    /** The final counts of `rename_states`, each under the number of its state. */
    method RenameFinals(d: map<S, int>) returns (f: map<int, int>)
      requires fin.Keys <= d.Keys && CoreWfa.Injective(d)
      ensures f.Keys == set q | q in fin :: d[q]
      ensures forall q :: q in fin ==> f[d[q]] == fin[q]
    {
      f := map[];
      var rest := fin.Keys;
      while rest != {}
        invariant rest <= fin.Keys
        invariant f.Keys == set q | q in fin.Keys - rest :: d[q]
        invariant forall q :: q in fin.Keys - rest ==> f[d[q]] == fin[q]
        decreases rest
      {
        var q :| q in rest;
        f := f[d[q] := fin[q]];
        rest := rest - {q};
      }
    }

    /** The initial counts of `rename_states`, in order. */
    method RenameInitials(d: map<S, int>) returns (r: seq<(int, int)>)
      requires forall p :: p in ini ==> p.0 in d
      ensures r == RenamedIni(ini, d)
    {
      r := [];
      for i := 0 to |ini|
        invariant r == RenamedIni(ini[..i], d)
      {
        assert ini[..i + 1] == ini[..i] + [ini[i]];
        r := r + [(d[ini[i].0], ini[i].1)];
      }
      assert ini[..|ini|] == ini;
    }

    /** `rename_states`: the states are numbered 0..n-1 in the iteration order
        of the state set, and rows, final counts and initial counts carry over
        under the numbering. The original renames in place; here the renamed
        automaton is a new object. */
    method RenameStates() returns (b: FreqAutomaton<int, Y>, d: map<S, int>)
      requires Valid()
      ensures fresh(b) && b.Valid()
      ensures d.Keys == states && CoreWfa.Numbering(d, |states|)
      ensures b.states == Ids(|states|)
      ensures forall q :: q in states ==> b.trans[d[q]] == RenamedRow(trans[q], d) && b.fin[d[q]] == fin[q]
      ensures b.ini == RenamedIni(ini, d) && b.root == d[root]
    {
      d := CoreWfa.NumberRest(map[], states);
      assert |d| == |states| by {
        assert d.Keys == states;
      }
      NumberingImage(d, states, |states|);
      var t := RenameRows(d);
      var f := RenameFinals(d);
      var i := RenameInitials(d);
      RenamedWellFormed(states, trans, ini, fin, root, d, t, f);
      b := new FreqAutomaton(Ids(|states|), t, i, f, d[root]);
    }

    /** The transitions of the rows of `order`, row after row. */
    function Flat(order: seq<S>): seq<CoreWfa.Transition<S, Y>>
      reads this
    {
      if order == [] then [] else Flat(order[..|order| - 1]) + AsTransitions(Out(order[|order| - 1]))
    }

    /** The weighted automaton `to_wfa` builds when it visits the rows in the
        order `order`: the final and initial dictionaries carry over. */
    function AsWfa(order: seq<S>): CoreWfa.Wfa<S, Y>
      reads this
    {
      CoreWfa.Wfa(Flat(order), RealFinals(fin), RealIni(ini), None)
    }

    /** The transitions of `to_wfa` are exactly the entries of the rows
        visited, with the same ends, symbol and weight. */
    lemma {:induction false} FlatMembers(order: seq<S>)
      ensures forall t :: t in Flat(order) ==> exists q, e :: q in order && e in Out(q) && t == AsTransition(e)
      ensures forall q, e :: q in order && e in Out(q) ==> AsTransition(e) in Flat(order)
    {
      if order != [] {
        var front, last := order[..|order| - 1], order[|order| - 1];
        FlatMembers(front);
        assert order == front + [last];
        forall q, e | q in order && e in Out(q)
          ensures AsTransition(e) in Flat(order)
        {
          if q != last {
            assert q in front;
          } else {
            var j :| 0 <= j < |Out(q)| && Out(q)[j] == e;
            assert AsTransitions(Out(q))[j] == AsTransition(e);
          }
        }
        forall t | t in Flat(order)
          ensures exists q, e :: q in order && e in Out(q) && t == AsTransition(e)
        {
          if t !in Flat(front) {
            var j :| 0 <= j < |Out(last)| && AsTransitions(Out(last))[j] == t;
            assert Out(last)[j] in Out(last);
          }
        }
      }
    }

    /** `to_wfa`: one weighted transition per row entry, the rows visited in
        the iteration order of the dictionary; finals and initials carry over. */
    method ToWfa() returns (w: CoreWfa.Wfa<S, Y>, ghost order: seq<S>)
      ensures CoreWfaExport.Enumerates(order, trans.Keys) && w == AsWfa(order)
    {
      var keys := CoreWfaExport.Enumerate(trans.Keys);
      var ts: seq<CoreWfa.Transition<S, Y>> := [];
      for i := 0 to |keys|
        invariant ts == Flat(keys[..i])
      {
        assert keys[..i + 1][..i] == keys[..i];
        ts := ts + AsTransitions(trans[keys[i]]);
      }
      assert keys[..|keys|] == keys;
      order := keys;
      w := CoreWfa.Wfa(ts, RealFinals(fin), RealIni(ini), None);
    }
  }
}
