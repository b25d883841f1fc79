/**
  The learning side of the anomaly checker: messages are abstracted to
  symbols, the conversations of every communication pair (or of every
  time window of it) are learned into probabilistic automata, and those
  automata form the golden map the detectors compare windows with.
 */
module AnomalyCheck {
  import opened Wrappers
  import CoreWfa
  import CoreWfaExport
  import ConversationParser
  import opened Ffa
  import opened Dffa
  import Fpt
  import Alergia
  import Iec104Parser
  import Member

  /** A message abstracted to its ASDU type and cause of transmission, as
      the text of the two CSV fields. */
  type Symbol = (string, string)

  /** The window length, in the unit of the relative time of messages. */
  const Duration := 300

  /** The significance level of the Alergia compatibility test. */
  const Alpha := 0.05

  /** How the golden automata are learned: by Alergia (PA) or as the bare
      prefix tree (PTA). */
  datatype AutType = PA | PTA

  /** `abstraction`: the symbol of a message. */
  function Abstraction(m: Iec104Parser.Message): Symbol {
    (m.asduText, m.cotText)
  }

  /** A conversation abstracted message by message. */
  function AbstractConv(c: seq<Iec104Parser.Message>): (r: seq<Symbol>)
    ensures |r| == |c| && forall j :: 0 <= j < |c| ==> r[j] == Abstraction(c[j])
  {
    if c == [] then [] else [Abstraction(c[0])] + AbstractConv(c[1..])
  }

  /** `get_all_conversations(abstraction)`: every conversation abstracted. */
  function AbstractAll(convs: seq<seq<Iec104Parser.Message>>): (r: seq<seq<Symbol>>)
    ensures |r| == |convs| && forall i :: 0 <= i < |convs| ==> r[i] == AbstractConv(convs[i])
  {
    if convs == [] then [] else [AbstractConv(convs[0])] + AbstractAll(convs[1..])
  }

  function Pow2(k: nat): nat {
    if k == 0 then 1 else 2 * Pow2(k - 1)
  }

  /** `int(math.log(n, 2))`: the integer part of the binary logarithm. */
  function Log2Floor(n: nat): (r: nat)
    requires n > 0
    ensures Pow2(r) <= n < Pow2(r + 1)
  {
    if n < 2 then 0 else 1 + Log2Floor(n / 2)
  }

  /** The Alergia frequency threshold for `n` training strings. */
  function Threshold(n: nat): (t0: nat)
    ensures n > 0 ==> Pow2(t0) <= n < Pow2(t0 + 1)
    ensures n == 0 ==> t0 == 1
  {
    if n > 0 then Log2Floor(n) else 1
  }

  /** Python's order on tuples of symbols, which are pairs of strings. */
  predicate SymbolsLess(x: seq<Symbol>, y: seq<Symbol>) {
    Alergia.LexLess(Alergia.PairLess, x, y)
  }

  lemma SymbolsStrictTotal()
    ensures Alergia.StrictTotalOrder(SymbolsLess)
  {
    Alergia.PairStrictTotal();
    forall x: seq<Symbol>
      ensures !SymbolsLess(x, x)
    {
      Alergia.LexIrreflexive(Alergia.PairLess, x);
    }
    forall x: seq<Symbol>, y: seq<Symbol> | x != y
      ensures SymbolsLess(x, y) || SymbolsLess(y, x)
    {
      Alergia.LexTotal(Alergia.PairLess, x, y);
    }
    forall x: seq<Symbol>, y: seq<Symbol>, z: seq<Symbol> | SymbolsLess(x, y) && SymbolsLess(y, z)
      ensures SymbolsLess(x, z)
    {
      Alergia.LexTransitive(Alergia.PairLess, x, y, z);
    }
  }

  /** What every learning procedure returns: a probabilistic automaton,
      whose single initial state has weight 1. */
  ghost predicate Learned<S(!new), Y>(w: CoreWfa.Wfa<S, Y>) {
    Stochastic(w) && |w.start| == 1 && w.start[0].1 == 1.0
  }

  /** A single-entry initial dictionary normalised to weight 1. */
  lemma NormalizedStart<S(!new), Y(!new)>(c: Counts<S, Y>, ini: seq<(S, int)>, ts: seq<CoreWfa.Transition<S, Y>>)
    requires |ini| == 1 && Normalized(c, ini, ts).Success?
    ensures |Normalized(c, ini, ts).value.start| == 1 && Normalized(c, ini, ts).value.start[0].1 == 1.0
  {
  }

  /** The counts `c` over `states` are those of the frequency prefix tree
      of the strings `ws`. */
  ghost predicate PrefixTree(c: Counts<seq<Symbol>, Symbol>, states: set<seq<Symbol>>, ws: seq<seq<Symbol>>) {
    Fpt.Tree(states, c.trans, [([], |ws|)], c.fin, [], ws, ws) && Fpt.Freqs(states, c.trans, c.fin, ws, [])
  }

  /** `cb` holds the rows and final counts of `c` on `states`, every state
      renamed by `d`, a numbering of the states onto 0..n-1. */
  ghost predicate RenamedCounts<S(!new)>(c: Counts<S, Symbol>, states: set<S>, d: map<S, int>, cb: Counts<int, Symbol>) {
    && RowsWellFormed(states, c.trans) && c.fin.Keys == states
    && d.Keys == states && CoreWfa.Numbering(d, |states|)
    && cb.trans.Keys == Ids(|states|) && cb.fin.Keys == Ids(|states|)
    && forall q :: q in states ==> cb.trans[d[q]] == RenamedRow(c.trans[q], d) && cb.fin[d[q]] == c.fin[q]
  }

  /** `w` is what `rename_states` and then `normalize` make of the counts
      `c` over `states`, whose initial dictionary is `{root: n}`. */
  ghost predicate NormalizedRenaming<S(!new)>(c: Counts<S, Symbol>, states: set<S>, root: S, n: int, w: CoreWfa.Wfa<int, Symbol>) {
    exists d: map<S, int>, cb: Counts<int, Symbol>, order: seq<int> ::
      && RenamedCounts(c, states, d, cb) && root in d
      && CoreWfaExport.Enumerates(order, cb.trans.Keys)
      && Normalized(cb, [(d[root], n)], FlatOf(cb, order)) == Success(w)
  }

  /** `w` is the prefix tree of `ws`, renamed and normalised. */
  ghost predicate PtaOf(ws: seq<seq<Symbol>>, w: CoreWfa.Wfa<int, Symbol>) {
    exists c, states :: PrefixTree(c, states, ws) && NormalizedRenaming(c, states, [], |ws|, w)
  }

  /** `w` is the result of Alergia on the prefix tree of `ws`, with
      significance 0.05 and the threshold `Threshold(|ws|)`: a run of the
      red/blue loop from the tree, with the root `()` as the only red state,
      to counts over states that hold every red state, then renamed and
      normalised. */
  ghost predicate PaOf(ws: seq<seq<Symbol>>, w: CoreWfa.Wfa<int, Symbol>, m: Numerics, foldFuel: nat) {
    exists c0, states0, y: Alergia.Config<seq<Symbol>, Symbol>, xs, mvs ::
      && PrefixTree(c0, states0, ws)
      && Alergia.Run(Alergia.Config(c0, states0, {[]}), y, {[]}, Alpha, m, SymbolsLess, Threshold(|ws|), foldFuel, xs, mvs)
      && y.red <= y.states
      && NormalizedRenaming(y.c, y.states, [], |ws|, w)
  }

  /** `w` is what the learning procedure `autType` makes of the strings `ws`. */
  ghost predicate LearnedFrom(autType: AutType, ws: seq<seq<Symbol>>, w: CoreWfa.Wfa<int, Symbol>, m: Numerics, foldFuel: nat) {
    LearnedAt(autType, ws, w, 2, m, foldFuel)
  }

  /** The meaning of `LearnedFrom`, held `depth` calls deep so that the
      verifier unfolds it only where a proof asks for it
      (`LearnedFromIntro`, `LearnedFromLearned`). */
  ghost predicate LearnedAt(autType: AutType, ws: seq<seq<Symbol>>, w: CoreWfa.Wfa<int, Symbol>, depth: nat, m: Numerics, foldFuel: nat)
    decreases depth
  {
    if depth == 0 then
      Learned(w) && match autType
        case PA => PaOf(ws, w, m, foldFuel)
        case PTA => PtaOf(ws, w)
    else LearnedAt(autType, ws, w, depth - 1, m, foldFuel)
  }

  /** A learned automaton that the procedure makes of `ws` is learned from `ws`. */
  lemma LearnedFromIntro(autType: AutType, ws: seq<seq<Symbol>>, w: CoreWfa.Wfa<int, Symbol>, m: Numerics, foldFuel: nat)
    requires Learned(w)
    requires autType == PA ==> PaOf(ws, w, m, foldFuel)
    requires autType == PTA ==> PtaOf(ws, w)
    ensures LearnedFrom(autType, ws, w, m, foldFuel)
  {
    assert LearnedAt(autType, ws, w, 0, m, foldFuel);
    assert LearnedAt(autType, ws, w, 1, m, foldFuel);
  }

  /** What is learned from some strings is a learned automaton. */
  lemma LearnedFromLearned(autType: AutType, ws: seq<seq<Symbol>>, w: CoreWfa.Wfa<int, Symbol>, m: Numerics, foldFuel: nat)
    requires LearnedFrom(autType, ws, w, m, foldFuel)
    ensures Learned(w)
    ensures autType == PA ==> PaOf(ws, w, m, foldFuel)
    ensures autType == PTA ==> PtaOf(ws, w)
  {
    assert LearnedAt(autType, ws, w, 1, m, foldFuel);
    assert LearnedAt(autType, ws, w, 0, m, foldFuel);
  }

  /** Renaming keeps the frequency of every state. */
  lemma RenamedFreq<S(!new)>(c: Counts<S, Symbol>, states: set<S>, d: map<S, int>, cb: Counts<int, Symbol>, q: S)
    requires RenamedCounts(c, states, d, cb) && q in states
    ensures d[q] in cb.trans && Freq(cb, d[q]) == Freq(c, q)
  {
    RenamedRowWeight(c.trans[q], d);
  }

  /** Every renamed state is the renaming of a state. */
  lemma RenamedFrom<S(!new)>(c: Counts<S, Symbol>, states: set<S>, d: map<S, int>, cb: Counts<int, Symbol>, k: int) returns (q: S)
    requires RenamedCounts(c, states, d, cb) && k in cb.trans
    ensures q in states && d[q] == k
  {
    assert k in d.Values;
    q :| q in d && d[q] == k;
  }

  /** In the renamed prefix tree, a state of frequency 0 has no transition
      and no final count, so normalising it divides by no zero. */
  lemma PtaNoZero(c: Counts<seq<Symbol>, Symbol>, states: set<seq<Symbol>>, ws: seq<seq<Symbol>>, d: map<seq<Symbol>, int>, cb: Counts<int, Symbol>)
    requires PrefixTree(c, states, ws) && RenamedCounts(c, states, d, cb)
    ensures forall k :: k in cb.trans && Freq(cb, k) == 0 ==> cb.trans[k] == [] && cb.fin[k] == 0
  {
    forall k | k in cb.trans && Freq(cb, k) == 0
      ensures cb.trans[k] == [] && cb.fin[k] == 0
    {
      var q := RenamedFrom(c, states, d, cb, k);
      RenamedFreq(c, states, d, cb, q);
      assert c == Counts(c.trans, c.fin);
      assert Freq(Counts(c.trans, c.fin), q) == Fpt.Through(ws, q);
      Fpt.EmptyWhenUnused(states, c.trans, c.fin, ws, q);
    }
  }
  /** Transition `j` of the renamed row `k` is transition `j` of the row
      of the state numbered `k`, renamed. */
  lemma RenamedEdge<S(!new)>(c: Counts<S, Symbol>, states: set<S>, d: map<S, int>, cb: Counts<int, Symbol>, k: int, j: nat) returns (q: S)
    requires RenamedCounts(c, states, d, cb) && k in cb.trans && j < |cb.trans[k]|
    ensures q in states && d[q] == k && j < |c.trans[q]| && c.trans[q][j] in c.trans[q]
    ensures var e := c.trans[q][j]; cb.trans[k][j] == Trans(d[e.src], d[e.dest], e.weight, e.symbol)
  {
    q := RenamedFrom(c, states, d, cb, k);
  }

  /** A transition of the prefix tree of `ws` goes from a prefix to its
      one-symbol extension and weighs the strings through the extension. */
  lemma PrefixEdge(c: Counts<seq<Symbol>, Symbol>, states: set<seq<Symbol>>, ws: seq<seq<Symbol>>, p: seq<Symbol>, e: Trans<seq<Symbol>, Symbol>)
    requires PrefixTree(c, states, ws) && p in c.trans && e in c.trans[p]
    ensures e.src == p && e.dest == p + [e.symbol] && e.weight == Fpt.Through(ws, e.dest)
  {
  }

  /** A state of the prefix tree of `ws` has the frequency of the strings
      through it and the final count of the strings equal to it. */
  lemma PrefixFreq(c: Counts<seq<Symbol>, Symbol>, states: set<seq<Symbol>>, ws: seq<seq<Symbol>>, p: seq<Symbol>)
    requires PrefixTree(c, states, ws) && p in states
    ensures Freq(c, p) == Fpt.Through(ws, p) && c.fin[p] == multiset(ws)[p]
  {
    assert c == Counts(c.trans, c.fin);
    assert Freq(Counts(c.trans, c.fin), p) == Fpt.Through(ws, p);
  }

  /** In the renamed and normalised prefix tree of `ws`, a transition on
      `y` leads from the number of a prefix `p` to the number of `p + [y]`
      and weighs the share of the strings through `p` that go on through
      `p + [y]`. */
  lemma PtaTransition(c: Counts<seq<Symbol>, Symbol>, states: set<seq<Symbol>>, ws: seq<seq<Symbol>>, d: map<seq<Symbol>, int>,
                      cb: Counts<int, Symbol>, ini: seq<(int, int)>, order: seq<int>, w: CoreWfa.Wfa<int, Symbol>, t: CoreWfa.Transition<int, Symbol>)
    returns (p: seq<Symbol>)
    requires PrefixTree(c, states, ws) && RenamedCounts(c, states, d, cb)
    requires Normalized(cb, ini, FlatOf(cb, order)) == Success(w) && t in w.transitions
    ensures p in d && p + [t.symbol] in d && t.src == d[p] && t.dest == d[p + [t.symbol]]
    ensures Fpt.Through(ws, p) != 0 && t.weight == Fpt.Through(ws, p + [t.symbol]) as real / Fpt.Through(ws, p) as real
  {
    var k, j := NormalizedTransition(cb, ini, order, w, t);
    p := RenamedEdge(c, states, d, cb, k, j);
    var e := c.trans[p][j];
    PrefixEdge(c, states, ws, p, e);
    RenamedFreq(c, states, d, cb, p);
    PrefixFreq(c, states, ws, p);
  }

  /** In the renamed and normalised prefix tree of `ws`, the final weight
      of the number of a prefix `p` is the share of the strings through `p`
      that end there. */
  lemma PtaFinal(c: Counts<seq<Symbol>, Symbol>, states: set<seq<Symbol>>, ws: seq<seq<Symbol>>, d: map<seq<Symbol>, int>,
                 cb: Counts<int, Symbol>, ini: seq<(int, int)>, order: seq<int>, w: CoreWfa.Wfa<int, Symbol>, p: seq<Symbol>)
    requires PrefixTree(c, states, ws) && RenamedCounts(c, states, d, cb)
    requires Normalized(cb, ini, FlatOf(cb, order)) == Success(w) && p in d
    ensures d[p] in w.finals <==> multiset(ws)[p] != 0
    ensures d[p] in w.finals ==> Fpt.Through(ws, p) != 0 && w.finals[d[p]] == multiset(ws)[p] as real / Fpt.Through(ws, p) as real
  {
    NormalizedFinal(cb, ini, FlatOf(cb, order), w, d[p]);
    RenamedFreq(c, states, d, cb, p);
    PrefixFreq(c, states, ws, p);
  }

  /** `c` over `states` is the prefix tree of `ws`, `d` and `cb` its
      renaming, and `w` the normalisation of `cb` over the rows in `order`,
      starting at the number of the root. */
  ghost predicate PtaBasis(ws: seq<seq<Symbol>>, w: CoreWfa.Wfa<int, Symbol>, c: Counts<seq<Symbol>, Symbol>, states: set<seq<Symbol>>,
                           d: map<seq<Symbol>, int>, cb: Counts<int, Symbol>, order: seq<int>) {
    PtaBasisAt(ws, w, c, states, d, cb, order, 2)
  }

  /** The meaning of `PtaBasis`, held `depth` calls deep so that the
      verifier unfolds it only in `PtaBasisOpen`. */
  ghost predicate PtaBasisAt(ws: seq<seq<Symbol>>, w: CoreWfa.Wfa<int, Symbol>, c: Counts<seq<Symbol>, Symbol>, states: set<seq<Symbol>>,
                             d: map<seq<Symbol>, int>, cb: Counts<int, Symbol>, order: seq<int>, depth: nat)
    decreases depth
  {
    if depth == 0 then
      && PrefixTree(c, states, ws) && RenamedCounts(c, states, d, cb) && [] in d
      && Normalized(cb, [(d[[]], |ws|)], FlatOf(cb, order)) == Success(w)
    else PtaBasisAt(ws, w, c, states, d, cb, order, depth - 1)
  }

  /** What `PtaBasis` says. */
  lemma PtaBasisOpen(ws: seq<seq<Symbol>>, w: CoreWfa.Wfa<int, Symbol>, c: Counts<seq<Symbol>, Symbol>, states: set<seq<Symbol>>,
                     d: map<seq<Symbol>, int>, cb: Counts<int, Symbol>, order: seq<int>)
    requires PtaBasis(ws, w, c, states, d, cb, order)
    ensures PrefixTree(c, states, ws) && RenamedCounts(c, states, d, cb) && [] in d
    ensures Normalized(cb, [(d[[]], |ws|)], FlatOf(cb, order)) == Success(w)
  {
    assert PtaBasisAt(ws, w, c, states, d, cb, order, 1);
  }

  /** The learned prefix tree automaton numbers the prefixes of the
      strings, one number each. */
  lemma PtaNumbering(c: Counts<seq<Symbol>, Symbol>, states: set<seq<Symbol>>, ws: seq<seq<Symbol>>, d: map<seq<Symbol>, int>,
                     cb: Counts<int, Symbol>, order: seq<int>, w: CoreWfa.Wfa<int, Symbol>)
    requires PtaBasis(ws, w, c, states, d, cb, order)
    ensures forall p :: p in d <==> Fpt.Node(ws, p)
    ensures forall p, q :: p in d && q in d && p != q ==> d[p] != d[q]
  {
    PtaBasisOpen(ws, w, c, states, d, cb, order);
    assert CoreWfa.Injective(d);
    forall p
      ensures p in d <==> Fpt.Node(ws, p)
    {
      assert p in states <==> Fpt.Node(ws, p);
    }
  }

  /** Every transition of the learned prefix tree automaton leaves the
      number of a prefix. */
  lemma PtaSources(c: Counts<seq<Symbol>, Symbol>, states: set<seq<Symbol>>, ws: seq<seq<Symbol>>, d: map<seq<Symbol>, int>,
                   cb: Counts<int, Symbol>, order: seq<int>, w: CoreWfa.Wfa<int, Symbol>)
    requires PtaBasis(ws, w, c, states, d, cb, order)
    ensures forall t :: t in w.transitions ==> t.src in d.Values
  {
    PtaBasisOpen(ws, w, c, states, d, cb, order);
    forall t | t in w.transitions
      ensures t.src in d.Values
    {
      var p := PtaTransition(c, states, ws, d, cb, [(d[[]], |ws|)], order, w, t);
    }
  }

  /** In the learned prefix tree automaton, a transition on `y` from the
      number of a prefix `p` leads to the number of `p + [y]` and weighs
      `Through(ws, p + [y]) / Through(ws, p)`. */
  lemma PtaTransitions(c: Counts<seq<Symbol>, Symbol>, states: set<seq<Symbol>>, ws: seq<seq<Symbol>>, d: map<seq<Symbol>, int>,
                       cb: Counts<int, Symbol>, order: seq<int>, w: CoreWfa.Wfa<int, Symbol>)
    requires PtaBasis(ws, w, c, states, d, cb, order)
    ensures forall p, t :: p in d && t in w.transitions && t.src == d[p] ==>
      && p + [t.symbol] in d && t.dest == d[p + [t.symbol]] && Fpt.Through(ws, p) != 0
      && t.weight == Fpt.Through(ws, p + [t.symbol]) as real / Fpt.Through(ws, p) as real
  {
    PtaBasisOpen(ws, w, c, states, d, cb, order);
    assert CoreWfa.Injective(d);
    forall p, t | p in d && t in w.transitions && t.src == d[p]
      ensures && p + [t.symbol] in d && t.dest == d[p + [t.symbol]] && Fpt.Through(ws, p) != 0
              && t.weight == Fpt.Through(ws, p + [t.symbol]) as real / Fpt.Through(ws, p) as real
    {
      var p' := PtaTransition(c, states, ws, d, cb, [(d[[]], |ws|)], order, w, t);
      assert p' == p;
    }
  }

  /** In the learned prefix tree automaton, the number of a prefix `p` is
      final exactly when some string equals `p`, with weight the number of
      such strings over `Through(ws, p)`. */
  lemma PtaFinals(c: Counts<seq<Symbol>, Symbol>, states: set<seq<Symbol>>, ws: seq<seq<Symbol>>, d: map<seq<Symbol>, int>,
                  cb: Counts<int, Symbol>, order: seq<int>, w: CoreWfa.Wfa<int, Symbol>)
    requires PtaBasis(ws, w, c, states, d, cb, order)
    ensures forall p :: p in d ==> (d[p] in w.finals <==> multiset(ws)[p] != 0)
    ensures forall p :: p in d && d[p] in w.finals ==>
      Fpt.Through(ws, p) != 0 && w.finals[d[p]] == multiset(ws)[p] as real / Fpt.Through(ws, p) as real
  {
    PtaBasisOpen(ws, w, c, states, d, cb, order);
    forall p | p in d
      ensures d[p] in w.finals <==> multiset(ws)[p] != 0
      ensures d[p] in w.finals ==> Fpt.Through(ws, p) != 0 && w.finals[d[p]] == multiset(ws)[p] as real / Fpt.Through(ws, p) as real
    {
      PtaFinal(c, states, ws, d, cb, [(d[[]], |ws|)], order, w, p);
    }
  }

  /** An automaton learned from `ws` by the `PTA` procedure is the
      normalisation of a renaming `d`, `cb` of the prefix tree `c` of
      `ws`. */
  lemma PtaWitness(ws: seq<seq<Symbol>>, w: CoreWfa.Wfa<int, Symbol>, m: Numerics, foldFuel: nat)
    returns (c: Counts<seq<Symbol>, Symbol>, states: set<seq<Symbol>>, d: map<seq<Symbol>, int>, cb: Counts<int, Symbol>, order: seq<int>)
    requires LearnedFrom(PTA, ws, w, m, foldFuel)
    ensures PtaBasis(ws, w, c, states, d, cb, order)
  {
    LearnedFromLearned(PTA, ws, w, m, foldFuel);
    c, states :| PrefixTree(c, states, ws) && NormalizedRenaming(c, states, [], |ws|, w);
    d, cb, order :|
      && RenamedCounts(c, states, d, cb) && [] in d
      && CoreWfaExport.Enumerates(order, cb.trans.Keys)
      && Normalized(cb, [(d[[]], |ws|)], FlatOf(cb, order)) == Success(w);
    assert PtaBasisAt(ws, w, c, states, d, cb, order, 0);
    assert PtaBasisAt(ws, w, c, states, d, cb, order, 1);
  }

  /** `rename_states`, stated on the counts: the rows and final counts of a
      well-formed automaton, every state renamed by a numbering onto
      0..n-1, and the initial dictionary renamed in order. */
  method RenameCounts<S(==,!new)>(a: FreqAutomaton<S, Symbol>) returns (b: FreqAutomaton<int, Symbol>, ghost d: map<S, int>)
    requires a.Valid() && |a.ini| == 1
    ensures fresh(b) && b.Valid() && Shaped(CountsOf(b))
    ensures RenamedCounts(CountsOf(a), a.states, d, CountsOf(b)) && a.ini[0].0 in d
    ensures b.ini == [(d[a.ini[0].0], a.ini[0].1)]
  {
    b, d := a.RenameStates();
    ValidShaped(b);
  }

  /** `rename_states` followed by `normalize`, on a well-formed automaton
      with one initial state: the result is the normalisation of the
      renamed counts, with the transitions listed row by row. */
  method RenameAndNormalize<S(==,!new)>(a: FreqAutomaton<S, Symbol>)
    returns (r: Result<CoreWfa.Wfa<int, Symbol>, string>, ghost d: map<S, int>, ghost cb: Counts<int, Symbol>, ghost order: seq<int>)
    requires a.Valid() && |a.ini| == 1
    ensures RenamedCounts(CountsOf(a), a.states, d, cb) && Shaped(cb) && a.ini[0].0 in d
    ensures CoreWfaExport.Enumerates(order, cb.trans.Keys)
    ensures r == Normalized(cb, [(d[a.ini[0].0], a.ini[0].1)], FlatOf(cb, order))
    ensures r.Success? ==> Learned(r.value)
  {
    ghost var ca, sa := CountsOf(a), a.states;
    var b;
    b, d := RenameCounts(a);
    cb := CountsOf(b);
    ghost var ini := b.ini;
    r, order := Normalize(b);
    assert CountsOf(a) == ca && a.states == sa;
    if r.Success? {
      NormalizedStochastic(cb, ini, order, r.value);
      NormalizedStart(cb, ini, FlatOf(cb, order));
    }
  }

  /** `learn_proc_pta`: the prefix tree of the training strings, renamed and
      normalised, with no state merged. It never fails. */
  method LearnProcPta(training: seq<seq<Symbol>>) returns (r: Result<CoreWfa.Wfa<int, Symbol>, string>)
    ensures r.Success? && Learned(r.value) && PtaOf(training, r.value)
  {
    var tree := Fpt.NewFpt<Symbol>();
    Fpt.AddStringList(tree, training, []);
    assert [] + training == training;
    Fpt.FptFrequencies(tree, training);
    ghost var c, states := CountsOf(tree), tree.states;
    assert PrefixTree(c, states, training);
    ghost var d, cb, order;
    r, d, cb, order := RenameAndNormalize(tree);
    PtaNoZero(c, states, training, d, cb);
    NormalizedSucceeds(cb, [(d[[]], |training|)], order);
    assert NormalizedRenaming(c, states, [], |training|, r.value);
  }

  /** An initial dictionary with one entry has that entry's state as its
      only initial state. */
  lemma SingleIni<S(!new)>(a: FreqAutomaton<S, Symbol>, q: S, n: int)
    requires a.ini == [(q, n)]
    ensures a.IniKeys() == {q}
  {
    assert (q, n) in a.ini;
  }

  /** `learn_proc_pa`: Alergia on the prefix tree of the training strings,
      with significance 0.05 and the threshold `int(log2 n)` (1 with no
      training string), then renamed and normalised. */
  method LearnProcPa(training: seq<seq<Symbol>>, m: Numerics, steps: nat, foldFuel: nat) returns (r: Result<CoreWfa.Wfa<int, Symbol>, string>)
    ensures r.Success? ==> Learned(r.value) && PaOf(training, r.value, m, foldFuel)
  {
    var tree := Fpt.NewFpt<Symbol>();
    Fpt.AddStringList(tree, training, []);
    assert [] + training == training;
    Fpt.FptFrequencies(tree, training);
    ghost var c0, states0 := CountsOf(tree), tree.states;
    assert PrefixTree(c0, states0, training);
    var t0 := Threshold(|training|);
    SymbolsStrictTotal();
    var aut;
    ghost var red, xs, mvs;
    SingleIni(tree, [], |training|);
    aut, red, xs, mvs := Alergia.RunAlergia(tree, Alpha, t0, m, SymbolsLess, steps, foldFuel);
    if aut.Failure? {
      return Failure(aut.error);
    }
    ghost var d, cb, order;
    r, d, cb, order := RenameAndNormalize(aut.value);
    if r.Success? {
      ghost var y := Alergia.Config(CountsOf(tree), tree.states, red);
      assert NormalizedRenaming(y.c, y.states, [], |training|, r.value);
      assert PaOf(training, r.value, m, foldFuel);
    }
  }

  /** The learning procedure chosen by the automaton type. */
  method Learn(autType: AutType, training: seq<seq<Symbol>>, m: Numerics, steps: nat, foldFuel: nat) returns (r: Result<CoreWfa.Wfa<int, Symbol>, string>)
    ensures r.Success? ==> LearnedFrom(autType, training, r.value, m, foldFuel)
    ensures autType == PTA ==> r.Success?
  {
    match autType
    case PA => r := LearnProcPa(training, m, steps, foldFuel);
    case PTA => r := LearnProcPta(training);
    if r.Success? {
      LearnedFromIntro(autType, training, r.value, m, foldFuel);
    }
  }

  /** Unpacking fewer than two endpoints. */
  function NotEnoughValues(n: nat): string
    requires n < 2
  {
    "ValueError: not enough values to unpack (expected 2, got " + (if n == 0 then "0" else "1") + ")"
  }

  const TooManyValues := "ValueError: too many values to unpack (expected 2)"

  /** `ip:port -- ip:port`. */
  function Render(e1: Iec104Parser.Endpoint, e2: Iec104Parser.Endpoint): string {
    e1.0 + ":" + e1.1 + " -- " + e2.0 + ":" + e2.1
  }

  /** `ent_format`: a communication pair of two endpoints, rendered in the
      iteration order of the set; a pair that is not two endpoints cannot be
      unpacked. */
  method EntFormat(k: set<Iec104Parser.Endpoint>) returns (r: Result<string, string>)
    ensures r.Success? <==> |k| == 2
    ensures r.Success? ==> exists e1, e2 :: k == {e1, e2} && e1 != e2 && r.value == Render(e1, e2)
    ensures |k| < 2 ==> r == Failure(NotEnoughValues(|k|))
    ensures |k| > 2 ==> r == Failure(TooManyValues)
  {
    var items := CoreWfaExport.Enumerate(k);
    CountEnumerated(items, k);
    if |items| < 2 {
      return Failure(NotEnoughValues(|items|));
    }
    if |items| > 2 {
      return Failure(TooManyValues);
    }
    var e1, e2 := items[0], items[1];
    assert k == {e1, e2} by {
      assert forall x :: x in k <==> x in items;
      assert items == [e1, e2];
    }
    r := Success(Render(e1, e2));
  }

  /** A list enumerating a set is as long as the set is large. */
  lemma {:induction false} CountEnumerated<T(!new)>(items: seq<T>, s: set<T>)
    requires CoreWfaExport.Enumerates(items, s)
    ensures |items| == |s|
    decreases |items|
  {
    if items != [] {
      var x := items[|items| - 1];
      var front := items[..|items| - 1];
      assert items == front + [x];
      assert CoreWfaExport.Enumerates(front, s - {x}) by {
        forall y ensures y in front <==> y in s - {x} {
          if y in front {
            var j :| 0 <= j < |front| && front[j] == y;
            assert items[j] == y && items[|items| - 1] == x;
          }
        }
      }
      CountEnumerated(front, s - {x});
    }
  }

  /** The training strings of a parser: its conversations, abstracted. */
  method Training(p: Iec104Parser.Iec104Parser) returns (training: seq<seq<Symbol>>)
    requires p.Valid()
    modifies p
    ensures training == AbstractAll(Iec104Parser.AllConvs(p.input, old(p.index), old(p.buffer)))
  {
    p.ParseConversations();
    training := AbstractAll(p.conversations);
  }

  /** The conversations a fresh parser over `msgs` finds, abstracted. */
  ghost function ConvTraining(msgs: seq<Iec104Parser.Message>): seq<seq<Symbol>> {
    AbstractAll(Iec104Parser.AllConvs(Iec104Parser.KeepInform(msgs), 0, []))
  }

  /** The training strings of a fresh parser over `msgs`. */
  method TrainingOf(msgs: seq<Iec104Parser.Message>, compair: Option<set<Iec104Parser.Endpoint>>) returns (training: seq<seq<Symbol>>)
    ensures training == ConvTraining(msgs)
  {
    var p := new Iec104Parser.Iec104Parser(msgs, compair);
    training := Training(p);
  }

  /** One automaton learned per window, in window order, each from the
      conversations of its own window. */
  method LearnWindows(compair: set<Iec104Parser.Endpoint>, windows: seq<seq<Iec104Parser.Message>>, autType: AutType, m: Numerics, steps: nat, foldFuel: nat)
    returns (r: Result<seq<CoreWfa.Wfa<int, Symbol>>, string>)
    ensures autType == PTA ==> r.Success?
    ensures r.Success? ==> |r.value| == |windows| && forall i :: 0 <= i < |windows| ==> LearnedFrom(autType, ConvTraining(windows[i]), r.value[i], m, foldFuel)
  {
    var out: seq<CoreWfa.Wfa<int, Symbol>> := [];
    for i := 0 to |windows|
      invariant |out| == i && forall j :: 0 <= j < i ==> LearnedFrom(autType, ConvTraining(windows[j]), out[j], m, foldFuel)
    {
      var training := TrainingOf(windows[i], Some(compair));
      var fa := Learn(autType, training, m, steps, foldFuel);
      if fa.Failure? {
        return Failure(fa.error);
      }
      ghost var prev := out;
      out := out + [fa.value];
      forall j | 0 <= j < i + 1
        ensures LearnedFrom(autType, ConvTraining(windows[j]), out[j], m, foldFuel)
      {
        if j < i {
          assert out[j] == prev[j];
        }
      }
    }
    return Success(out);
  }

  /** The number of windows `split_to_windows(dur)` returns for `s`. */
  function WindowCount(s: seq<Iec104Parser.Message>, dur: real): nat
    requires dur != 0.0
  {
    if s == [] then 0
    else if Iec104Parser.MaxBucket(s, dur) > 0 then Iec104Parser.MaxBucket(s, dur) else 0
  }

  /** The windows of 300 and then those of 600 that `split_to_windows` cuts
      `s` into. */
  ghost function PairWindows(s: seq<Iec104Parser.Message>): seq<seq<Iec104Parser.Message>> {
    Iec104Parser.Windows(s, WindowCount(s, (1 * Duration) as real), (1 * Duration) as real)
      + Iec104Parser.Windows(s, WindowCount(s, (2 * Duration) as real), (2 * Duration) as real)
  }

  /** The messages the parser of the pair `k` is built from. */
  function PairInput(p: Iec104Parser.Iec104Parser, k: set<Iec104Parser.Endpoint>): seq<Iec104Parser.Message>
    reads p
  {
    Iec104Parser.KeepInform(Iec104Parser.WithPair(p.input, k))
  }

  /** The automata of the pair `k`, learned without smoothing (from all its
      conversations) or with it (one per window of 300, then one per
      window of 600, each from the conversations of its window). */
  method LearnPair(k: set<Iec104Parser.Endpoint>, v: seq<Iec104Parser.Message>, autType: AutType, smoothing: bool, m: Numerics, steps: nat, foldFuel: nat)
    returns (r: Result<seq<CoreWfa.Wfa<int, Symbol>>, string>)
    ensures autType == PTA ==> r.Success?
    ensures r.Success? && !smoothing ==> |r.value| == 1 && LearnedFrom(autType, ConvTraining(v), r.value[0], m, foldFuel)
    ensures r.Success? && smoothing ==>
      && |r.value| == |PairWindows(Iec104Parser.KeepInform(v))|
      && |r.value| == WindowCount(Iec104Parser.KeepInform(v), (1 * Duration) as real) + WindowCount(Iec104Parser.KeepInform(v), (2 * Duration) as real)
      && forall j :: 0 <= j < |r.value| ==> LearnedFrom(autType, ConvTraining(PairWindows(Iec104Parser.KeepInform(v))[j]), r.value[j], m, foldFuel)
  {
    var item := new Iec104Parser.Iec104Parser(v, Some(k));
    if smoothing {
      var wins1 := item.SplitToWindows((1 * Duration) as real);
      var wins2 := item.SplitToWindows((2 * Duration) as real);
      Iec104Parser.WindowsAt(item.input, WindowCount(item.input, (1 * Duration) as real), (1 * Duration) as real);
      Iec104Parser.WindowsAt(item.input, WindowCount(item.input, (2 * Duration) as real), (2 * Duration) as real);
      assert wins1.value + wins2.value == PairWindows(item.input);
      r := LearnWindows(k, wins1.value + wins2.value, autType, m, steps, foldFuel);
    } else {
      var training := Training(item);
      var fa := Learn(autType, training, m, steps, foldFuel);
      if fa.Failure? {
        return Failure(fa.error);
      }
      r := Success([fa.value]);
    }
  }

  /** The groups of `split_communication_pairs` hold every pair of the
      input once, each with its own messages. */
  lemma GroupsOf(input: seq<Iec104Parser.Message>, groups: seq<(set<Iec104Parser.Endpoint>, seq<Iec104Parser.Message>)>)
    requires groups == Iec104Parser.PairGroups(input, ConversationParser.Distinct(Iec104Parser.PairsOf(input)))
    ensures forall i :: 0 <= i < |groups| ==> groups[i].1 == Iec104Parser.WithPair(input, groups[i].0) && groups[i].0 in Iec104Parser.PairsOf(input)
    ensures forall k :: k in Iec104Parser.PairsOf(input) ==> exists i :: 0 <= i < |groups| && groups[i].0 == k
  {
    var keys := ConversationParser.Distinct(Iec104Parser.PairsOf(input));
    Iec104Parser.PairGroupsAt(input, keys);
    ConversationParser.DistinctSameValues(Iec104Parser.PairsOf(input));
    forall k | k in Iec104Parser.PairsOf(input)
      ensures exists i :: 0 <= i < |groups| && groups[i].0 == k
    {
      var i :| 0 <= i < |keys| && keys[i] == k;
      assert groups[i].0 == k;
    }
  }

  /** Storing the group `i` keeps the keys of the groups before it. */
  lemma PutKeys<K, W, V>(prev: map<K, V>, groups: seq<(K, W)>, i: nat, v: V)
    requires i < |groups| && forall j :: 0 <= j < i ==> groups[j].0 in prev
    ensures forall j :: 0 <= j < i + 1 ==> groups[j].0 in prev[groups[i].0 := v]
  {
    forall j | 0 <= j < i + 1
      ensures groups[j].0 in prev[groups[i].0 := v]
    {
      if j < i {
        assert groups[j].0 in prev;
      }
    }
  }

  /** The pairs of the input, with what the golden map holds for each. */
  ghost predicate CoversPairs<V>(p: Iec104Parser.Iec104Parser, ret: map<set<Iec104Parser.Endpoint>, V>)
    reads p
  {
    && (forall k :: k in ret ==> k in Iec104Parser.PairsOf(p.input))
    && (forall k :: k in Iec104Parser.PairsOf(p.input) ==> k in ret)
  }

  /** The training strings of the pair `k`: the conversations of its own
      messages, abstracted. */
  ghost function PairTraining(p: Iec104Parser.Iec104Parser, k: set<Iec104Parser.Endpoint>): seq<seq<Symbol>>
    reads p
  {
    ConvTraining(Iec104Parser.WithPair(p.input, k))
  }

  /** The list `learn_golden_distr` stores for the pair `k`: the automaton
      learned from the pair's conversations, or when smoothing one automaton
      per window of the pair's messages, learned from that window's
      conversations. */
  ghost predicate DistrEntry(p: Iec104Parser.Iec104Parser, k: set<Iec104Parser.Endpoint>, lst: seq<CoreWfa.Wfa<int, Symbol>>, autType: AutType, smoothing: bool, m: Numerics, foldFuel: nat)
    reads p
  {
    && (!smoothing ==> |lst| == 1 && LearnedFrom(autType, PairTraining(p, k), lst[0], m, foldFuel))
    && (smoothing ==>
      && |lst| == WindowCount(PairInput(p, k), (1 * Duration) as real) + WindowCount(PairInput(p, k), (2 * Duration) as real)
      && |lst| == |PairWindows(PairInput(p, k))|
      && forall j :: 0 <= j < |lst| ==> LearnedFrom(autType, ConvTraining(PairWindows(PairInput(p, k))[j]), lst[j], m, foldFuel))
  }

  /** Storing an entry for `k` keeps every stored entry. */
  lemma DistrPut(ret: map<set<Iec104Parser.Endpoint>, seq<CoreWfa.Wfa<int, Symbol>>>, k: set<Iec104Parser.Endpoint>, lst: seq<CoreWfa.Wfa<int, Symbol>>,
                 p: Iec104Parser.Iec104Parser, autType: AutType, smoothing: bool, ret': map<set<Iec104Parser.Endpoint>, seq<CoreWfa.Wfa<int, Symbol>>>, m: Numerics, foldFuel: nat)
    requires ret' == ret[k := lst]
    requires forall k' :: k' in ret ==> DistrEntry(p, k', ret[k'], autType, smoothing, m, foldFuel)
    requires DistrEntry(p, k, lst, autType, smoothing, m, foldFuel)
    ensures forall k' :: k' in ret' ==> DistrEntry(p, k', ret'[k'], autType, smoothing, m, foldFuel)
  {
  }

  /** `learn_golden_distr`: every communication pair of the input gets the
      list of automata learned for it. Pairs that are not in the input are
      read as `[None]`. */
  method LearnGoldenDistr(p: Iec104Parser.Iec104Parser, autType: AutType, smoothing: bool, m: Numerics, steps: nat, foldFuel: nat)
    returns (r: Result<map<set<Iec104Parser.Endpoint>, seq<CoreWfa.Wfa<int, Symbol>>>, string>)
    ensures autType == PTA ==> r.Success?
    ensures r.Success? ==> CoversPairs(p, r.value)
    ensures r.Success? ==> forall k :: k in r.value ==> DistrEntry(p, k, r.value[k], autType, smoothing, m, foldFuel)
  {
    var groups := p.SplitCommunicationPairs();
    ghost var input := p.input;
    GroupsOf(input, groups);
    var ret: map<set<Iec104Parser.Endpoint>, seq<CoreWfa.Wfa<int, Symbol>>> := map[];
    for i := 0 to |groups|
      invariant forall k :: k in ret ==> k in Iec104Parser.PairsOf(input)
      invariant forall j :: 0 <= j < i ==> groups[j].0 in ret
      invariant forall k :: k in ret ==> DistrEntry(p, k, ret[k], autType, smoothing, m, foldFuel)
    {
      var k, v := groups[i].0, groups[i].1;
      var lst := LearnPair(k, v, autType, smoothing, m, steps, foldFuel);
      if lst.Failure? {
        return Failure(lst.error);
      }
      DistrPut(ret, k, lst.value, p, autType, smoothing, ret[k := lst.value], m, foldFuel);
      PutKeys(ret, groups, i, lst.value);
      ret := ret[k := lst.value];
    }
    return Success(ret);
  }

  /** A one-element list holding the automaton learned from `ws`. */
  ghost predicate MemberEntry(g: Member.Golden<int, Symbol>, autType: AutType, ws: seq<seq<Symbol>>, m: Numerics, foldFuel: nat) {
    g.ListOf? && |g.items| == 1 && g.items[0].Some? && LearnedFrom(autType, ws, g.items[0].value, m, foldFuel)
  }

  /** The entry `learn_golden_member` stores for one pair: the automaton
      learned from the pair's conversations, in a one-element list. */
  method LearnMemberPair(k: set<Iec104Parser.Endpoint>, v: seq<Iec104Parser.Message>, autType: AutType, m: Numerics, steps: nat, foldFuel: nat)
    returns (r: Result<Member.Golden<int, Symbol>, string>)
    ensures autType == PTA ==> r.Success?
    ensures r.Success? ==> MemberEntry(r.value, autType, ConvTraining(v), m, foldFuel)
  {
    var training := TrainingOf(v, Some(k));
    var fa := Learn(autType, training, m, steps, foldFuel);
    if fa.Failure? {
      return Failure(fa.error);
    }
    r := Success(Member.ListOf([Some(fa.value)]));
  }

  /** Storing an entry for `k` keeps every stored entry. */
  lemma MemberPut(ret: map<set<Iec104Parser.Endpoint>, Member.Golden<int, Symbol>>, k: set<Iec104Parser.Endpoint>, g: Member.Golden<int, Symbol>,
                  p: Iec104Parser.Iec104Parser, autType: AutType, ret': map<set<Iec104Parser.Endpoint>, Member.Golden<int, Symbol>>, m: Numerics, foldFuel: nat)
    requires ret' == ret[k := g]
    requires forall k' :: k' in ret ==> MemberEntry(ret[k'], autType, PairTraining(p, k'), m, foldFuel)
    requires MemberEntry(g, autType, PairTraining(p, k), m, foldFuel)
    ensures forall k' :: k' in ret' ==> MemberEntry(ret'[k'], autType, PairTraining(p, k'), m, foldFuel)
  {
  }

  /** `learn_golden_member`: every communication pair of the input gets a
      one-element list holding the automaton learned from its
      conversations. */
  method LearnGoldenMember(p: Iec104Parser.Iec104Parser, autType: AutType, m: Numerics, steps: nat, foldFuel: nat)
    returns (r: Result<map<set<Iec104Parser.Endpoint>, Member.Golden<int, Symbol>>, string>)
    ensures autType == PTA ==> r.Success?
    ensures r.Success? ==> CoversPairs(p, r.value)
    ensures r.Success? ==> forall k :: k in r.value ==> MemberEntry(r.value[k], autType, PairTraining(p, k), m, foldFuel)
  {
    var groups := p.SplitCommunicationPairs();
    ghost var input := p.input;
    GroupsOf(input, groups);
    var ret: map<set<Iec104Parser.Endpoint>, Member.Golden<int, Symbol>> := map[];
    for i := 0 to |groups|
      invariant forall k :: k in ret ==> k in Iec104Parser.PairsOf(input)
      invariant forall j :: 0 <= j < i ==> groups[j].0 in ret
      invariant forall k :: k in ret ==> MemberEntry(ret[k], autType, PairTraining(p, k), m, foldFuel)
    {
      var k, v := groups[i].0, groups[i].1;
      var entry := LearnMemberPair(k, v, autType, m, steps, foldFuel);
      if entry.Failure? {
        return Failure(entry.error);
      }
      MemberPut(ret, k, entry.value, p, autType, ret[k := entry.value], m, foldFuel);
      PutKeys(ret, groups, i, entry.value);
      ret := ret[k := entry.value];
    }
    return Success(ret);
  }

  /** The member detector cannot use what `learn_golden_member` stores: a
      one-element list is not an automaton, so any non-empty window
      raises. */
  lemma {:induction false} MemberGoldenRaises(g: Member.Golden<int, Symbol>, window: seq<seq<Symbol>>, ln: real -> real)
    requires g.ListOf? && window != []
    ensures Member.Detection(g, window, ln) == Failure(Member.NoStringProb)
  {
  }

  /** The entry the member detector can use: the automaton learned from
      `ws` itself. */
  ghost predicate FixedMemberEntry(g: Member.Golden<int, Symbol>, autType: AutType, ws: seq<seq<Symbol>>, m: Numerics, foldFuel: nat) {
    g.One? && LearnedFrom(autType, ws, g.aut, m, foldFuel)
  }

  /** The entry `learn_golden_member` is evidently meant to store for one
      pair: the automaton learned from the pair's conversations. */
  method LearnFixedPair(k: set<Iec104Parser.Endpoint>, v: seq<Iec104Parser.Message>, autType: AutType, m: Numerics, steps: nat, foldFuel: nat)
    returns (r: Result<Member.Golden<int, Symbol>, string>)
    ensures autType == PTA ==> r.Success?
    ensures r.Success? ==> FixedMemberEntry(r.value, autType, ConvTraining(v), m, foldFuel)
  {
    var training := TrainingOf(v, Some(k));
    var fa := Learn(autType, training, m, steps, foldFuel);
    if fa.Failure? {
      return Failure(fa.error);
    }
    r := Success(Member.One(fa.value));
  }

  /** Storing an entry for `k` keeps every stored entry. */
  lemma FixedPut(ret: map<set<Iec104Parser.Endpoint>, Member.Golden<int, Symbol>>, k: set<Iec104Parser.Endpoint>, g: Member.Golden<int, Symbol>,
                 p: Iec104Parser.Iec104Parser, autType: AutType, ret': map<set<Iec104Parser.Endpoint>, Member.Golden<int, Symbol>>, m: Numerics, foldFuel: nat)
    requires ret' == ret[k := g]
    requires forall k' :: k' in ret ==> FixedMemberEntry(ret[k'], autType, PairTraining(p, k'), m, foldFuel)
    requires FixedMemberEntry(g, autType, PairTraining(p, k), m, foldFuel)
    ensures forall k' :: k' in ret' ==> FixedMemberEntry(ret'[k'], autType, PairTraining(p, k'), m, foldFuel)
  {
  }

  /** `learn_golden_member` as evidently intended: every communication pair
      of the input gets the automaton learned from its conversations, not a
      list holding it. */
  method LearnGoldenMemberFixed(p: Iec104Parser.Iec104Parser, autType: AutType, m: Numerics, steps: nat, foldFuel: nat)
    returns (r: Result<map<set<Iec104Parser.Endpoint>, Member.Golden<int, Symbol>>, string>)
    ensures autType == PTA ==> r.Success?
    ensures r.Success? ==> CoversPairs(p, r.value)
    ensures r.Success? ==> forall k :: k in r.value ==> FixedMemberEntry(r.value[k], autType, PairTraining(p, k), m, foldFuel)
  {
    var groups := p.SplitCommunicationPairs();
    ghost var input := p.input;
    GroupsOf(input, groups);
    var ret: map<set<Iec104Parser.Endpoint>, Member.Golden<int, Symbol>> := map[];
    for i := 0 to |groups|
      invariant forall k :: k in ret ==> k in Iec104Parser.PairsOf(input)
      invariant forall j :: 0 <= j < i ==> groups[j].0 in ret
      invariant forall k :: k in ret ==> FixedMemberEntry(ret[k], autType, PairTraining(p, k), m, foldFuel)
    {
      var k, v := groups[i].0, groups[i].1;
      var entry := LearnFixedPair(k, v, autType, m, steps, foldFuel);
      if entry.Failure? {
        return Failure(entry.error);
      }
      FixedPut(ret, k, entry.value, p, autType, ret[k := entry.value], m, foldFuel);
      PutKeys(ret, groups, i, entry.value);
      ret := ret[k := entry.value];
    }
    return Success(ret);
  }

  /** With the intended entries, member detection never raises: it reports
      exactly the conversations of the window the golden automaton rejects. */
  lemma FixedMemberReports(g: Member.Golden<int, Symbol>, window: seq<seq<Symbol>>, ln: real -> real)
    requires g.One? && Learned(g.aut)
    ensures Member.Detection(g, window, ln).Success?
    ensures forall c :: c in Member.Detection(g, window, ln).value <==> c in window && CoreWfa.StringProb(g.aut, c, ln) == CoreWfa.Rejected
  {
    Member.UnacceptedRaises(g.aut, window, ln);
    Member.UnacceptedMembers(g.aut, window, ln);
  }

}
