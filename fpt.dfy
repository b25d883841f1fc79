/** Frequency prefix trees (`FPT`): the deterministic frequency automaton
    whose states are the prefixes of the strings added to it, built one
    string at a time. */
module Fpt {
  import opened Wrappers
  import CoreWfa
  import opened Ffa
  import opened Dffa

  /** Some string of `ws` has `p` as a prefix. */
  ghost function Under<Y>(ws: seq<seq<Y>>, p: seq<Y>): bool {
    ws != [] && (p <= ws[|ws| - 1] || Under(ws[..|ws| - 1], p))
  }

  /** The states of the prefix tree of `ws`: the root and every prefix of
      one of the strings. */
  ghost function Node<Y>(ws: seq<seq<Y>>, p: seq<Y>): bool {
    p == [] || Under(ws, p)
  }

  /** The number of strings of `ws` that pass through `p`, that is, have
      `p` as a prefix. */
  ghost function Through<Y>(ws: seq<seq<Y>>, p: seq<Y>): nat {
    if ws == [] then 0 else Through(ws[..|ws| - 1], p) + if p <= ws[|ws| - 1] then 1 else 0
  }

  lemma UnderSnoc<Y>(ws: seq<seq<Y>>, w: seq<Y>, p: seq<Y>)
    ensures Under(ws + [w], p) <==> Under(ws, p) || p <= w
    ensures Node(ws + [w], p) <==> Node(ws, p) || p <= w
    ensures Through(ws + [w], p) == Through(ws, p) + if p <= w then 1 else 0
  {
    assert (ws + [w])[..|ws|] == ws;
  }

  /** The prefixes of a string reached by `ws` are reached too. */
  lemma {:induction false} UnderPrefix<Y>(ws: seq<seq<Y>>, p: seq<Y>, q: seq<Y>)
    requires Under(ws, q) && p <= q
    ensures Under(ws, p)
    decreases |ws|
  {
    if !(q <= ws[|ws| - 1]) {
      UnderPrefix(ws[..|ws| - 1], p, q);
    }
  }

  /** A prefix no string reaches has no string through it. */
  lemma {:induction false} NotUnderNone<Y>(ws: seq<seq<Y>>, p: seq<Y>)
    requires !Under(ws, p)
    ensures Through(ws, p) == 0
    decreases |ws|
  {
    if ws != [] {
      NotUnderNone(ws[..|ws| - 1], p);
    }
  }

  /** Every added string is reached. */
  lemma {:induction false} MemberUnder<Y>(ws: seq<seq<Y>>, w: seq<Y>)
    requires w in ws
    ensures Under(ws, w)
    decreases |ws|
  {
    if w != ws[|ws| - 1] {
      assert ws == ws[..|ws| - 1] + [ws[|ws| - 1]];
      MemberUnder(ws[..|ws| - 1], w);
    }
  }

  /** A prefix of `q + [y]` is a prefix of `q` or `q + [y]` itself. */
  lemma PrefixSnoc<Y>(p: seq<Y>, q: seq<Y>, y: Y)
    ensures p <= q + [y] <==> p <= q || p == q + [y]
    ensures p < q + [y] <==> p <= q
  {
    if p <= q + [y] && |p| <= |q| {
      assert p == (q + [y])[..|p|] == q[..|p|];
    }
  }

  /** The entry of the root in the initial dictionary grown by `k`; a
      state without an entry gets one (the dictionary defaults to 0). */
  function IniAdd<S(==)>(ini: seq<(S, int)>, q: S, k: int): seq<(S, int)> {
    if ini == [] then [(q, k)]
    else if ini[0].0 == q then [(q, ini[0].1 + k)] + ini[1..]
    else [ini[0]] + IniAdd(ini[1..], q, k)
  }

  /** The shape of the prefix tree of the strings `through`, whose final
      counts are those of the strings `ended` (during `add_string`, a
      string has been walked but not yet ended). */
  ghost predicate Tree<Y(!new)>(states: set<seq<Y>>, trans: map<seq<Y>, Row<seq<Y>, Y>>, ini: seq<(seq<Y>, int)>,
                                 fin: map<seq<Y>, int>, root: seq<Y>, through: seq<seq<Y>>, ended: seq<seq<Y>>) {
    && root == [] && ini == [([], |through|)]
    && trans.Keys == states && fin.Keys == states
    && Nodes(states, through)
    && Edges(states, trans, through)
    && Complete(states, trans)
    && Finals(fin, ended)
  }

  /** The states are the root and the prefixes of the strings. */
  ghost predicate Nodes<Y(!new)>(states: set<seq<Y>>, through: seq<seq<Y>>) {
    forall p {:trigger Node(through, p)} :: p in states <==> Node(through, p)
  }

  /** Each state's final count is the number of strings ending there. */
  ghost predicate Finals<Y(!new)>(fin: map<seq<Y>, int>, ended: seq<seq<Y>>) {
    forall p :: p in fin ==> fin[p] == multiset(ended)[p]
  }

  /** Each transition leads from a prefix to its one-symbol extension, a
      state, and weighs the number of strings through its destination. */
  ghost predicate Edges<Y(!new)>(states: set<seq<Y>>, trans: map<seq<Y>, Row<seq<Y>, Y>>, through: seq<seq<Y>>) {
    && (forall p :: p in trans ==> RowOf(trans[p], p))
    && forall p, e :: p in trans && e in trans[p] ==>
         e.dest == p + [e.symbol] && e.dest in states && e.weight == Through(through, e.dest)
  }

  /** Every one-symbol extension that is a state has its transition. */
  ghost predicate Complete<Y(!new)>(states: set<seq<Y>>, trans: map<seq<Y>, Row<seq<Y>, Y>>) {
    forall p, y :: p in trans && p + [y] in states ==> Find(trans[p], y).Some?
  }

  /** The frequency of each state is the number of `ended` strings
      through it, plus one for the proper prefixes of `walked`, whose
      outgoing transition has been counted and its string not yet ended. */
  ghost predicate Freqs<Y(!new)>(states: set<seq<Y>>, trans: map<seq<Y>, Row<seq<Y>, Y>>, fin: map<seq<Y>, int>,
                                  ended: seq<seq<Y>>, walked: seq<Y>) {
    forall p {:trigger Freq(Counts(trans, fin), p)} :: p in states ==> Freq(Counts(trans, fin), p) == Through(ended, p) + if p < walked then 1 else 0
  }

  /** A row whose symbols are unchanged, position by position, finds the
      same positions. */
  lemma {:induction false} FindSameSymbols<S, Y>(row: Row<S, Y>, row': Row<S, Y>, y: Y)
    requires |row| == |row'| && forall i :: 0 <= i < |row| ==> row[i].symbol == row'[i].symbol
    ensures Find(row, y) == Find(row', y)
    decreases |row|
  {
    if row != [] && row[0].symbol != y {
      FindSameSymbols(row[1..], row'[1..], y);
    }
  }

  /** A row holding a transition on `y` finds one. */
  lemma HasSymbol<S, Y>(row: Row<S, Y>, e: Trans<S, Y>, y: Y)
    requires e in row && e.symbol == y
    ensures Find(row, y).Some?
  {
  }

  /** The tree of no strings: the root alone, with no final count. */
  lemma EmptyTree<Y(!new)>()
    ensures Tree<Y>({[]}, map[[] := []], [([], 0)], map[[] := 0], [], [], [])
    ensures Freqs<Y>({[]}, map[[] := []], map[[] := 0], [], [])
  {
    forall p: seq<Y>
      ensures p in {[]} <==> Node([], p)
    {
    }
    var trans: map<seq<Y>, Row<seq<Y>, Y>> := map[[] := []];
    assert forall p: seq<Y>, y: Y :: |p + [y]| > 0;
  }

  /** Counting the string `add_string` is about to walk at the root. */
  lemma StartStep<Y(!new)>(states: set<seq<Y>>, trans: map<seq<Y>, Row<seq<Y>, Y>>, ini: seq<(seq<Y>, int)>,
                           fin: map<seq<Y>, int>, ws: seq<seq<Y>>)
    requires Tree(states, trans, ini, fin, [], ws, ws)
    ensures Tree(states, trans, IniAdd(ini, [], 1), fin, [], ws + [[]], ws)
  {
    forall p: seq<Y>
      ensures p in states <==> Node(ws + [[]], p)
    {
      UnderSnoc(ws, [], p);
      assert p in states <==> Node(ws, p);
    }
    forall p, e | p in trans && e in trans[p]
      ensures e.weight == Through(ws + [[]], e.dest)
    {
      UnderSnoc(ws, [], e.dest);
    }
  }

  /** Ending the walked string `w` at its state. */
  lemma FinishStep<Y(!new)>(states: set<seq<Y>>, trans: map<seq<Y>, Row<seq<Y>, Y>>, ini: seq<(seq<Y>, int)>,
                            fin: map<seq<Y>, int>, ws: seq<seq<Y>>, w: seq<Y>)
    requires Tree(states, trans, ini, fin, [], ws + [w], ws) && Freqs(states, trans, fin, ws, w)
    ensures w in fin
    ensures Tree(states, trans, ini, fin[w := fin[w] + 1], [], ws + [w], ws + [w])
    ensures Freqs(states, trans, fin[w := fin[w] + 1], ws + [w], [])
  {
    UnderSnoc(ws, w, w);
    assert w in states;
    EndedFinals(fin, ws, w);
    EndedFreqs(states, trans, fin, ws, w);
  }

  lemma EndedFinals<Y>(fin: map<seq<Y>, int>, ws: seq<seq<Y>>, w: seq<Y>)
    requires w in fin && forall p :: p in fin ==> fin[p] == multiset(ws)[p]
    ensures forall p :: p in fin[w := fin[w] + 1] ==> fin[w := fin[w] + 1][p] == multiset(ws + [w])[p]
  {
  }

  lemma EndedFreqs<Y(!new)>(states: set<seq<Y>>, trans: map<seq<Y>, Row<seq<Y>, Y>>, fin: map<seq<Y>, int>, ws: seq<seq<Y>>, w: seq<Y>)
    requires w in fin && fin.Keys == states && Freqs(states, trans, fin, ws, w)
    ensures Freqs(states, trans, fin[w := fin[w] + 1], ws + [w], [])
  {
    var fin' := fin[w := fin[w] + 1];
    forall p | p in states
      ensures Freq(Counts(trans, fin'), p) == Through(ws + [w], p)
    {
      UnderSnoc(ws, w, p);
      assert Freq(Counts(trans, fin), p) == Through(ws, p) + if p < w then 1 else 0;
      assert FinOf(Counts(trans, fin'), p) == FinOf(Counts(trans, fin), p) + if p == w then 1 else 0;
    }
  }

  /** The row with the transition at `k` counted once more. */
  function Incremented<S, Y>(row: Row<S, Y>, k: nat): Row<S, Y>
    requires k < |row|
  {
    row[k := row[k].(weight := row[k].weight + 1)]
  }

  /** Walking on from `act` along `y` to the state `act + [y]` leaves the
      states those of the longer walked prefix. */
  lemma WalkNodes<Y(!new)>(states: set<seq<Y>>, ws: seq<seq<Y>>, act: seq<Y>, y: Y)
    requires Nodes(states, ws + [act]) && act + [y] in states
    ensures Under(ws, act + [y])
    ensures Nodes(states, ws + [act + [y]])
  {
    var dest := act + [y];
    UnderSnoc(ws, act, dest);
    assert !(dest <= act);
    forall p
      ensures p in states <==> Node(ws + [dest], p)
    {
      UnderSnoc(ws, act, p);
      UnderSnoc(ws, dest, p);
      PrefixSnoc(p, act, y);
      if p <= dest {
        UnderPrefix(ws, p, dest);
      }
    }
  }

  /** `p + [z]` determines `p` and `z`. */
  lemma SnocInjective<Y>(p: seq<Y>, z: Y, q: seq<Y>, y: Y)
    requires p + [z] == q + [y]
    ensures p == q && z == y
  {
    assert p == (p + [z])[..|p|] && q == (q + [y])[..|q|];
  }

  /** Walking on to `act + [y]` changes no count but that of `act + [y]`. */
  lemma WalkThrough<Y>(ws: seq<seq<Y>>, act: seq<Y>, y: Y, d: seq<Y>)
    ensures Through(ws + [act + [y]], d) == Through(ws + [act], d) + if d == act + [y] then 1 else 0
  {
    UnderSnoc(ws, act + [y], d);
    UnderSnoc(ws, act, d);
    PrefixSnoc(d, act, y);
    assert !(act + [y] <= act);
  }

  lemma WalkEdges<Y(!new)>(states: set<seq<Y>>, trans: map<seq<Y>, Row<seq<Y>, Y>>, ws: seq<seq<Y>>, act: seq<Y>, y: Y, k: nat)
    requires Edges(states, trans, ws + [act]) && act in trans && Find(trans[act], y) == Some(k)
    ensures trans[act][k].dest == act + [y]
    ensures Edges(states, trans[act := Incremented(trans[act], k)], ws + [act + [y]])
  {
    var row, dest := trans[act], act + [y];
    var row' := Incremented(row, k);
    var trans' := trans[act := row'];
    assert row[k] in row;
    forall i, j | 0 <= i < j < |row'|
      ensures row'[i].symbol != row'[j].symbol
    {
      assert row'[i].symbol == row[i].symbol && row'[j].symbol == row[j].symbol;
    }
    forall e | e in row'
      ensures e.src == act
    {
      var i :| 0 <= i < |row'| && row'[i] == e;
      assert row[i] in row;
    }
    forall p, e: Trans<seq<Y>, Y> | p in trans' && e in trans'[p]
      ensures e.dest == p + [e.symbol] && e.dest in states && e.weight == Through(ws + [dest], e.dest)
    {
      WalkThrough(ws, act, y, e.dest);
      if p == act {
        var i :| 0 <= i < |row'| && row'[i] == e;
        assert row[i] in row;
        if e.dest == dest {
          SnocInjective(act, row[i].symbol, act, y);
        }
      } else if e.dest == dest {
        SnocInjective(p, e.symbol, act, y);
      }
    }
  }

  lemma WalkComplete<Y(!new)>(states: set<seq<Y>>, trans: map<seq<Y>, Row<seq<Y>, Y>>, act: seq<Y>, k: nat)
    requires Complete(states, trans) && act in trans && k < |trans[act]|
    ensures Complete(states, trans[act := Incremented(trans[act], k)])
  {
    var trans' := trans[act := Incremented(trans[act], k)];
    forall p, z | p in trans' && p + [z] in states
      ensures Find(trans'[p], z).Some?
    {
      FindSameSymbols(trans[p], trans'[p], z);
    }
  }

  lemma WalkFreqs<Y(!new)>(states: set<seq<Y>>, trans: map<seq<Y>, Row<seq<Y>, Y>>, fin: map<seq<Y>, int>,
                           ws: seq<seq<Y>>, act: seq<Y>, y: Y, k: nat)
    requires trans.Keys == states && act in trans && k < |trans[act]|
    requires Freqs(states, trans, fin, ws, act)
    ensures Freqs(states, trans[act := Incremented(trans[act], k)], fin, ws, act + [y])
  {
    var row := trans[act];
    var trans' := trans[act := Incremented(row, k)];
    RowWeightUpdate(row, k, row[k].(weight := row[k].weight + 1));
    forall p | p in states
      ensures Freq(Counts(trans', fin), p) == Through(ws, p) + if p < act + [y] then 1 else 0
    {
      PrefixSnoc(p, act, y);
      assert Freq(Counts(trans, fin), p) == Through(ws, p) + if p < act then 1 else 0;
      if p != act {
        assert OutOf(Counts(trans', fin), p) == OutOf(Counts(trans, fin), p);
      }
    }
  }

  /** Following the existing transition on `y` out of the walked prefix
      `act`, counted once more. */
  lemma WalkStep<Y(!new)>(states: set<seq<Y>>, trans: map<seq<Y>, Row<seq<Y>, Y>>, ini: seq<(seq<Y>, int)>,
                          fin: map<seq<Y>, int>, ws: seq<seq<Y>>, act: seq<Y>, y: Y, k: nat)
    requires Tree(states, trans, ini, fin, [], ws + [act], ws) && Freqs(states, trans, fin, ws, act)
    requires act in trans && Find(trans[act], y) == Some(k)
    ensures trans[act][k].dest == act + [y] && act + [y] in states
    ensures Tree(states, trans[act := Incremented(trans[act], k)], ini, fin, [], ws + [act + [y]], ws)
    ensures Freqs(states, trans[act := Incremented(trans[act], k)], fin, ws, act + [y])
  {
    WalkEdges(states, trans, ws, act, y, k);
    WalkNodes(states, ws, act, y);
    WalkComplete(states, trans, act, k);
    WalkFreqs(states, trans, fin, ws, act, y, k);
  }

  /** The rows after `_create_branch` adds the transition on `y` out of
      `act` to the new state `act + [y]`, whose row starts empty. */
  function Grown<Y(==)>(trans: map<seq<Y>, Row<seq<Y>, Y>>, act: seq<Y>, y: Y): map<seq<Y>, Row<seq<Y>, Y>>
    requires act in trans
  {
    trans[act := Put(trans[act], Trans(act, act + [y], 1, y))][act + [y] := []]
  }

  /** A symbol with no transition out of a walked state leads out of the
      tree: no string passes through the extension. */
  lemma GrowFresh<Y(!new)>(states: set<seq<Y>>, trans: map<seq<Y>, Row<seq<Y>, Y>>, ws: seq<seq<Y>>, act: seq<Y>, y: Y)
    requires Nodes(states, ws + [act]) && Complete(states, trans) && act in trans && Find(trans[act], y).None?
    ensures act + [y] !in states && act + [y] !in ws && Through(ws, act + [y]) == 0
  {
    var dest := act + [y];
    UnderSnoc(ws, act, dest);
    NotUnderNone(ws, dest);
    if dest in ws {
      MemberUnder(ws, dest);
    }
  }

  lemma GrowNodes<Y(!new)>(states: set<seq<Y>>, ws: seq<seq<Y>>, act: seq<Y>, y: Y)
    requires Nodes(states, ws + [act])
    ensures Nodes(states + {act + [y]}, ws + [act + [y]])
  {
    forall p
      ensures p in states + {act + [y]} <==> Node(ws + [act + [y]], p)
    {
      UnderSnoc(ws, act, p);
      UnderSnoc(ws, act + [y], p);
      PrefixSnoc(p, act, y);
    }
  }

  lemma GrowEdges<Y(!new)>(states: set<seq<Y>>, trans: map<seq<Y>, Row<seq<Y>, Y>>, ws: seq<seq<Y>>, act: seq<Y>, y: Y)
    requires Edges(states, trans, ws + [act]) && act in trans && Find(trans[act], y).None?
    requires act + [y] !in states && Through(ws, act + [y]) == 0
    ensures Edges(states + {act + [y]}, Grown(trans, act, y), ws + [act + [y]])
  {
    var dest, e := act + [y], Trans(act, act + [y], 1, y);
    var trans' := Grown(trans, act, y);
    PutRowOf(trans[act], e, act);
    forall p, x: Trans<seq<Y>, Y> | p in trans' && x in trans'[p]
      ensures x.dest == p + [x.symbol] && x.dest in states + {dest} && x.weight == Through(ws + [dest], x.dest)
    {
      WalkThrough(ws, act, y, x.dest);
      if x != e {
        assert x in trans[p];
      }
    }
  }

  lemma GrowComplete<Y(!new)>(states: set<seq<Y>>, trans: map<seq<Y>, Row<seq<Y>, Y>>, ws: seq<seq<Y>>, act: seq<Y>, y: Y)
    requires Complete(states, trans) && Nodes(states, ws + [act]) && trans.Keys == states
    requires act in trans && act + [y] !in states
    ensures Complete(states + {act + [y]}, Grown(trans, act, y))
  {
    var dest, e := act + [y], Trans(act, act + [y], 1, y);
    var trans' := Grown(trans, act, y);
    forall p, z | p in trans' && p + [z] in states + {dest}
      ensures Find(trans'[p], z).Some?
    {
      if p + [z] == dest {
        SnocInjective(p, z, act, y);
        HasSymbol(trans'[p], e, z);
      } else if p == dest {
        assert Node(ws + [act], p + [z]);
        UnderPrefix(ws + [act], p, p + [z]);
        assert Node(ws + [act], p);
      } else {
        var x := trans[p][Find(trans[p], z).value];
        assert x in trans[p];
        if p == act {
          HasSymbol(trans'[p], x, z);
        }
      }
    }
  }

  lemma GrowFreqs<Y(!new)>(states: set<seq<Y>>, trans: map<seq<Y>, Row<seq<Y>, Y>>, fin: map<seq<Y>, int>,
                           ws: seq<seq<Y>>, act: seq<Y>, y: Y)
    requires trans.Keys == states && act in trans && Find(trans[act], y).None?
    requires act + [y] !in states && Through(ws, act + [y]) == 0
    requires Freqs(states, trans, fin, ws, act)
    ensures Freqs(states + {act + [y]}, Grown(trans, act, y), fin[act + [y] := 0], ws, act + [y])
  {
    var dest := act + [y];
    var c, c' := Counts(trans, fin), Counts(Grown(trans, act, y), fin[dest := 0]);
    RowWeightSnoc(trans[act], Trans(act, dest, 1, y));
    forall p | p in states + {dest}
      ensures Freq(c', p) == Through(ws, p) + if p < dest then 1 else 0
    {
      PrefixSnoc(p, act, y);
      if p != dest {
        assert Freq(c, p) == Through(ws, p) + if p < act then 1 else 0;
      }
      if p != act && p != dest {
        assert OutOf(c', p) == OutOf(c, p) && FinOf(c', p) == FinOf(c, p);
      }
    }
  }

  /** Adding the transition on `y` out of the walked prefix `act`, which
      has none, and the new state it leads to. */
  lemma GrowStep<Y(!new)>(states: set<seq<Y>>, trans: map<seq<Y>, Row<seq<Y>, Y>>, ini: seq<(seq<Y>, int)>,
                          fin: map<seq<Y>, int>, ws: seq<seq<Y>>, act: seq<Y>, y: Y)
    requires Tree(states, trans, ini, fin, [], ws + [act], ws) && Freqs(states, trans, fin, ws, act)
    requires act in trans && Find(trans[act], y).None?
    ensures act + [y] !in states
    ensures Tree(states + {act + [y]}, Grown(trans, act, y), ini, fin[act + [y] := 0], [], ws + [act + [y]], ws)
    ensures Freqs(states + {act + [y]}, Grown(trans, act, y), fin[act + [y] := 0], ws, act + [y])
  {
    GrowFresh(states, trans, ws, act, y);
    GrowNodes(states, ws, act, y);
    GrowEdges(states, trans, ws, act, y);
    GrowComplete(states, trans, ws, act, y);
    GrowFreqs(states, trans, fin, ws, act, y);
    NewFinal(fin, ws, act + [y]);
    assert Grown(trans, act, y).Keys == states + {act + [y]};
  }

  lemma NewFinal<Y(!new)>(fin: map<seq<Y>, int>, ws: seq<seq<Y>>, q: seq<Y>)
    requires Finals(fin, ws) && q !in ws
    ensures Finals(fin[q := 0], ws)
  {
  }

  /** Every string passes through the root. */
  lemma {:induction false} ThroughRoot<Y>(ws: seq<seq<Y>>)
    ensures Through(ws, []) == |ws|
    decreases |ws|
  {
    if ws != [] {
      ThroughRoot(ws[..|ws| - 1]);
    }
  }

  /** A prefix some string reaches has a string through it. */
  lemma {:induction false} UnderThrough<Y>(ws: seq<seq<Y>>, p: seq<Y>)
    requires Under(ws, p)
    ensures Through(ws, p) >= 1
    decreases |ws|
  {
    if !(p <= ws[|ws| - 1]) {
      UnderThrough(ws[..|ws| - 1], p);
    }
  }

  /** A state with an outgoing transition has a string through it. */
  lemma RowUsed<Y(!new)>(states: set<seq<Y>>, trans: map<seq<Y>, Row<seq<Y>, Y>>, fin: map<seq<Y>, int>, ws: seq<seq<Y>>, p: seq<Y>, e: Trans<seq<Y>, Y>)
    requires Tree(states, trans, [([], |ws|)], fin, [], ws, ws) && p in trans && e in trans[p]
    ensures Through(ws, p) >= 1
  {
    assert e.dest == p + [e.symbol] && e.dest in states;
    assert Node(ws, e.dest);
    UnderPrefix(ws, p, e.dest);
    UnderThrough(ws, p);
  }

  /** A state with a final count has a string through it. */
  lemma FinalUsed<Y(!new)>(states: set<seq<Y>>, trans: map<seq<Y>, Row<seq<Y>, Y>>, fin: map<seq<Y>, int>, ws: seq<seq<Y>>, p: seq<Y>)
    requires Tree(states, trans, [([], |ws|)], fin, [], ws, ws) && p in fin && fin[p] != 0
    ensures Through(ws, p) >= 1
  {
    assert multiset(ws)[p] != 0;
    MemberUnder(ws, p);
    UnderThrough(ws, p);
  }

  /** In a prefix tree, a state no string passes through has no transition
      and no final count. */
  lemma EmptyWhenUnused<Y(!new)>(states: set<seq<Y>>, trans: map<seq<Y>, Row<seq<Y>, Y>>, fin: map<seq<Y>, int>, ws: seq<seq<Y>>, p: seq<Y>)
    requires Tree(states, trans, [([], |ws|)], fin, [], ws, ws) && p in states
    ensures Through(ws, p) == 0 ==> trans[p] == [] && fin[p] == 0
  {
    if trans[p] != [] {
      RowUsed(states, trans, fin, ws, p, trans[p][0]);
    }
    if fin[p] != 0 {
      FinalUsed(states, trans, fin, ws, p);
    }
  }

  /** `a` is the frequency prefix tree of the strings `ws`, added in this
      order. */
  ghost predicate IsFpt<Y(!new)>(a: FreqAutomaton<seq<Y>, Y>, ws: seq<seq<Y>>)
    reads a
  {
    Tree(a.states, a.trans, a.ini, a.fin, a.root, ws, ws) && Freqs(a.states, a.trans, a.fin, ws, [])
  }

  /** A prefix tree is a well-formed frequency automaton, and the
      frequency of each state is the number of strings through it: all of
      them at the root. */
  lemma FptFrequencies<Y(!new)>(a: FreqAutomaton<seq<Y>, Y>, ws: seq<seq<Y>>)
    requires IsFpt(a, ws)
    ensures a.Valid()
    ensures forall p :: p in a.states ==> Freq(CountsOf(a), p) == Through(ws, p)
    ensures a.root in a.states && Freq(CountsOf(a), a.root) == |ws|
    ensures forall p :: p in a.states ==> a.fin[p] == multiset(ws)[p]
  {
    ThroughRoot(ws);
    assert Node(ws, []);
    forall p | p in a.states
      ensures Freq(CountsOf(a), p) == Through(ws, p)
    {
      assert !(p < []);
    }
    assert a.ini[0].0 == a.root;
  }

  lemma SliceSnoc<Y>(state: seq<Y>, rest: seq<Y>, j: nat)
    requires j < |rest|
    ensures state + rest[..j + 1] == (state + rest[..j]) + [rest[j]]
  {
    PrefixStep(rest, j);
  }

  lemma SplitAt<Y>(s: seq<Y>, i: nat)
    requires i <= |s|
    ensures s[..i] + s[i..] == s && s[..|s|] == s
  {
  }

  lemma PrefixStep<Y>(s: seq<Y>, i: nat)
    requires i < |s|
    ensures s[..i + 1] == s[..i] + [s[i]]
  {
  }

  /** `FPT()`: the tree of no strings, the root alone. */
  method NewFpt<Y(==,!new)>() returns (a: FreqAutomaton<seq<Y>, Y>)
    ensures fresh(a) && IsFpt(a, [])
  {
    a := new FreqAutomaton({[]}, map[[] := []], [([], 0)], map[[] := 0], []);
    EmptyTree<Y>();
  }

  /** `_create_branch`: from the walked prefix `state`, which has no
      transition on the first symbol of `rest`, a new branch spelling
      `rest`, each transition counted once, and the string ended at its
      last state. */
  method CreateBranch<Y(==,!new)>(a: FreqAutomaton<seq<Y>, Y>, state: seq<Y>, rest: seq<Y>, ghost ws: seq<seq<Y>>)
    requires Tree(a.states, a.trans, a.ini, a.fin, a.root, ws + [state], ws) && Freqs(a.states, a.trans, a.fin, ws, state)
    requires state in a.trans && (rest == [] || Find(a.trans[state], rest[0]).None?)
    modifies a
    ensures Tree(a.states, a.trans, a.ini, a.fin, a.root, ws + [state + rest], ws + [state + rest])
    ensures Freqs(a.states, a.trans, a.fin, ws + [state + rest], [])
  {
    var act, states, trans, fin := state, a.states, a.trans, a.fin;
    for j := 0 to |rest|
      invariant act == state + rest[..j]
      invariant act in trans
      invariant Tree(states, trans, a.ini, fin, a.root, ws + [act], ws) && Freqs(states, trans, fin, ws, act)
      invariant j < |rest| ==> Find(trans[act], rest[j]).None?
    {
      var dest := act + [rest[j]];
      GrowStep(states, trans, a.ini, fin, ws, act, rest[j]);
      states, trans, fin := states + {dest}, Grown(trans, act, rest[j]), fin[dest := 0];
      SliceSnoc(state, rest, j);
      act := dest;
    }
    SplitAt(rest, |rest|);
    ghost var w := state + rest;
    FinishStep(states, trans, a.ini, fin, ws, w);
    a.states, a.trans, a.fin := states, trans, fin[act := fin[act] + 1];
  }

  /** The loop of `add_string`: from the root, the existing transitions
      spelling `s` are followed and counted, until `s` ends or the tree
      has no transition on its next symbol (`stuck`). The rows are the
      only part of the tree that changes. */
  method Walk<Y(==,!new)>(a: FreqAutomaton<seq<Y>, Y>, s: seq<Y>, ghost ws: seq<seq<Y>>)
    returns (trans: map<seq<Y>, Row<seq<Y>, Y>>, act: seq<Y>, i: nat, stuck: bool)
    requires Tree(a.states, a.trans, a.ini, a.fin, a.root, ws + [[]], ws) && Freqs(a.states, a.trans, a.fin, ws, [])
    ensures i <= |s| && act == s[..i] && act in trans
    ensures Tree(a.states, trans, a.ini, a.fin, a.root, ws + [act], ws) && Freqs(a.states, trans, a.fin, ws, act)
    ensures if stuck then i < |s| && Find(trans[act], s[i]).None? else i == |s|
  {
    trans, act, i, stuck := a.trans, a.root, 0, false;
    UnderSnoc(ws, [], []);
    while i < |s| && !stuck
      invariant 0 <= i <= |s| && act == s[..i] && act in trans
      invariant Tree(a.states, trans, a.ini, a.fin, a.root, ws + [act], ws) && Freqs(a.states, trans, a.fin, ws, act)
      invariant stuck ==> i < |s| && Find(trans[act], s[i]).None?
      decreases |s| - i, if stuck then 0 else 1
    {
      match Find(trans[act], s[i])
      case None =>
        stuck := true;
      case Some(k) =>
        WalkStep(a.states, trans, a.ini, a.fin, ws, act, s[i], k);
        var dest := trans[act][k].dest;
        trans := trans[act := Incremented(trans[act], k)];
        PrefixStep(s, i);
        act, i := dest, i + 1;
    }
  }

  /** `add_string`: the string is counted at the root, walked along the
      existing transitions, counting each, and, where the tree ends, a new
      branch holds the rest of it; it ends at its last state. */
  method AddString<Y(==,!new)>(a: FreqAutomaton<seq<Y>, Y>, s: seq<Y>, ghost ws: seq<seq<Y>>)
    requires IsFpt(a, ws)
    modifies a
    ensures IsFpt(a, ws + [s])
  {
    StartStep(a.states, a.trans, a.ini, a.fin, ws);
    a.ini := IniAdd(a.ini, a.root, 1);
    var trans, act, i, stuck := Walk(a, s, ws);
    a.trans := trans;
    SplitAt(s, i);
    if stuck {
      CreateBranch(a, act, s[i..], ws);
    } else {
      FinishStep(a.states, trans, a.ini, a.fin, ws, s);
      a.fin := a.fin[act := a.fin[act] + 1];
    }
  }

  /** `add_string_list`: the strings added one after the other. */
  method AddStringList<Y(==,!new)>(a: FreqAutomaton<seq<Y>, Y>, lst: seq<seq<Y>>, ghost ws: seq<seq<Y>>)
    requires IsFpt(a, ws)
    modifies a
    ensures IsFpt(a, ws + lst)
  {
    assert ws + lst[..0] == ws;
    for i := 0 to |lst|
      invariant IsFpt(a, ws + lst[..i])
    {
      AddString(a, lst[i], ws + lst[..i]);
      assert ws + lst[..i] + [lst[i]] == ws + lst[..i + 1];
    }
    assert lst[..|lst|] == lst;
  }
}
