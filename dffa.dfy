/** Deterministic frequency automata (`DFFA`): state frequencies, merging
    one state into another with the folding of its subtree, the Alergia
    compatibility test, and normalisation to a probabilistic automaton. */
module Dffa {
  import opened Wrappers
  import CoreWfa
  import CoreWfaExport
  import opened Ffa

  /** What merging and folding rewrite: the rows and the final counts. */
  datatype Counts<S, Y> = Counts(trans: map<S, Row<S, Y>>, fin: map<S, int>)

  /** The counts of an automaton. */
  function CountsOf<S(==,!new), Y(==,!new)>(a: FreqAutomaton<S, Y>): Counts<S, Y>
    reads a
  {
    Counts(a.trans, a.fin)
  }

  /** The final count of `q`, 0 by default. */
  function FinOf<S, Y>(c: Counts<S, Y>, q: S): int {
    if q in c.fin then c.fin[q] else 0
  }

  /** The row of `q`, empty by default. */
  function OutOf<S, Y>(c: Counts<S, Y>, q: S): Row<S, Y> {
    if q in c.trans then c.trans[q] else []
  }

  /** The frequency of a state: the strings ending there plus the strings
      leaving it. */
  function Freq<S, Y>(c: Counts<S, Y>, q: S): int {
    FinOf(c, q) + RowWeight(OutOf(c, q))
  }

  /** Final counts and rows are kept for the same states, every row is a
      row of its state, and every transition leads to a state with a row. */
  predicate Shaped<S(==), Y(==)>(c: Counts<S, Y>) {
    && c.fin.Keys == c.trans.Keys
    && (forall q :: q in c.trans ==> RowOf(c.trans[q], q))
    && (forall q, e :: q in c.trans && e in c.trans[q] ==> e.dest in c.trans)
  }

  /** A well-formed automaton has shaped counts over its states. */
  lemma ValidShaped<S(!new), Y(!new)>(a: FreqAutomaton<S, Y>)
    requires a.Valid()
    ensures Shaped(CountsOf(a)) && a.trans.Keys == a.states
  {
  }

  /** Shaped counts over the states, with the initial dictionary of an
      automaton, make it well formed again. */
  lemma ShapedValid<S(!new), Y(!new)>(a: FreqAutomaton<S, Y>)
    requires Shaped(CountsOf(a)) && a.trans.Keys == a.states && IniWellFormed(a.states, a.ini, a.root)
    ensures a.Valid()
  {
  }

  /** `state_freq`: the final count plus the weights of the row. */
  method StateFreq<S(==,!new), Y(==,!new)>(a: FreqAutomaton<S, Y>, q: S) returns (f: int)
    ensures f == Freq(CountsOf(a), q)
  {
    f := 0;
    f := f + (if q in a.fin then a.fin[q] else 0);
    var row := if q in a.trans then a.trans[q] else [];
    for i := 0 to |row|
      invariant f == FinOf(CountsOf(a), q) + RowWeight(row[..i])
    {
      RowWeightSnoc(row[..i], row[i]);
      assert row[..i + 1] == row[..i] + [row[i]];
      f := f + row[i].weight;
    }
    assert row[..|row|] == row;
  }

  /** Some transition leads to `q`. */
  ghost predicate HasPred<S, Y>(c: Counts<S, Y>, q: S) {
    exists p, e :: p in c.trans && e in c.trans[p] && e.dest == q
  }

  /** `_find_pred`: a transition leading to `q`, or `None` when there is
      none. Rows are searched in an unspecified order. */
  method FindPred<S(==,!new), Y(==,!new)>(a: FreqAutomaton<S, Y>, q: S) returns (r: Option<Trans<S, Y>>)
    ensures r.None? <==> !HasPred(CountsOf(a), q)
    ensures r.Some? ==> r.value.dest == q && exists p :: p in a.trans && r.value in a.trans[p]
  {
    var rest := a.trans.Keys;
    while rest != {}
      invariant rest <= a.trans.Keys
      invariant forall p, e :: p in a.trans && p !in rest && e in a.trans[p] ==> e.dest != q
      decreases rest
    {
      var p :| p in rest;
      var row := a.trans[p];
      for i := 0 to |row|
        invariant forall e :: e in row[..i] ==> e.dest != q
      {
        if row[i].dest == q {
          return Some(row[i]);
        }
        assert row[..i + 1] == row[..i] + [row[i]];
      }
      assert row[..|row|] == row;
      rest := rest - {p};
    }
    return None;
  }

  /** The counts with the transition `e` sent to `red` instead, keeping its
      source, symbol and weight. */
  function Retarget<S, Y(==)>(c: Counts<S, Y>, e: Trans<S, Y>, red: S): Counts<S, Y>
    requires e.src in c.trans
  {
    Counts(c.trans[e.src := Put(c.trans[e.src], Trans(e.src, red, e.weight, e.symbol))], c.fin)
  }

  /** `stochastic_fold`: the final count of `blue` is added to `red`'s, then
      `blue`'s row is folded into `red`'s. Missing rows and final counts
      read as empty and 0, as the `defaultdict`s do. Recursion stops when
      `fuel` runs out. */
  function Fold<S(==), Y(==)>(c: Counts<S, Y>, red: S, blue: S, fuel: nat): Counts<S, Y>
    decreases fuel, 2
  {
    FoldRow(Counts(c.trans, c.fin[red := FinOf(c, red) + FinOf(c, blue)]), red, OutOf(c, blue), fuel)
  }

  /** The loop of `stochastic_fold` over a snapshot of `blue`'s row. */
  function FoldRow<S(==), Y(==)>(c: Counts<S, Y>, red: S, row: Row<S, Y>, fuel: nat): Counts<S, Y>
    decreases fuel, 1, |row|
  {
    if row == [] then c
    else FoldRow(FoldOne(c, red, row[0], fuel), red, row[1..], fuel)
  }

  /** The first half of folding one transition `e` into `red`: when `red`
      has the symbol, `e`'s weight is added to that transition's; otherwise
      `red` gets a transition to `e`'s destination with `e`'s weight. */
  function Bump<S(==), Y(==)>(c: Counts<S, Y>, red: S, e: Trans<S, Y>): Counts<S, Y> {
    var row := OutOf(c, red);
    match Find(row, e.symbol)
      case None => Counts(c.trans[red := row + [Trans(red, e.dest, e.weight, e.symbol)]], c.fin)
      case Some(k) => Counts(c.trans[red := row[k := row[k].(weight := row[k].weight + e.weight)]], c.fin)
  }

  /** One transition `e` of `blue` folded into `red`: after `Bump`, when
      `red` had the symbol the two destinations are folded in turn. */
  function FoldOne<S(==), Y(==)>(c: Counts<S, Y>, red: S, e: Trans<S, Y>, fuel: nat): Counts<S, Y>
    decreases fuel, 0
  {
    var row := OutOf(c, red);
    match Find(row, e.symbol)
      case None => Bump(c, red, e)
      case Some(k) => if fuel == 0 then Bump(c, red, e) else Fold(Bump(c, red, e), row[k].dest, e.dest, fuel - 1)
  }

  /** `stochastic_fold`, in place. */
  method StochasticFold<S(==,!new), Y(==,!new)>(a: FreqAutomaton<S, Y>, red: S, blue: S, fuel: nat)
    modifies a
    ensures CountsOf(a) == Fold(old(CountsOf(a)), red, blue, fuel)
    ensures a.states == old(a.states) && a.ini == old(a.ini) && a.root == old(a.root)
    decreases fuel, 1
  {
    ghost var c0 := CountsOf(a);
    a.fin := a.fin[red := (if red in a.fin then a.fin[red] else 0) + (if blue in a.fin then a.fin[blue] else 0)];
    var row := if blue in a.trans then a.trans[blue] else [];
    for i := 0 to |row|
      invariant FoldRow(CountsOf(a), red, row[i..], fuel) == Fold(c0, red, blue, fuel)
      invariant a.states == old(a.states) && a.ini == old(a.ini) && a.root == old(a.root)
    {
      assert row[i..][1..] == row[i + 1..];
      FoldStep(a, red, row[i], fuel);
    }
  }

  /** The body of the loop of `stochastic_fold`, for one transition `e` of `blue`. */
  method FoldStep<S(==,!new), Y(==,!new)>(a: FreqAutomaton<S, Y>, red: S, e: Trans<S, Y>, fuel: nat)
    modifies a
    ensures CountsOf(a) == FoldOne(old(CountsOf(a)), red, e, fuel)
    ensures a.states == old(a.states) && a.ini == old(a.ini) && a.root == old(a.root)
    decreases fuel, 0
  {
    var redRow := if red in a.trans then a.trans[red] else [];
    match Find(redRow, e.symbol) {
      case None =>
        a.trans := a.trans[red := redRow + [Trans(red, e.dest, e.weight, e.symbol)]];
      case Some(k) =>
        a.trans := a.trans[red := redRow[k := redRow[k].(weight := redRow[k].weight + e.weight)]];
        if fuel > 0 {
          StochasticFold(a, redRow[k].dest, e.dest, fuel - 1);
        }
    }
  }

  /** Replacing the row of a state by another row of that state, leading to
      states with rows, keeps the counts shaped. */
  lemma ShapedUpdate<S, Y>(c: Counts<S, Y>, red: S, row: Row<S, Y>)
    requires Shaped(c) && red in c.trans
    requires RowOf(row, red) && forall e :: e in row ==> e.dest in c.trans
    ensures Shaped(Counts(c.trans[red := row], c.fin))
  {
  }

  /** Folding a transition of a state into a state with a row keeps the
      counts shaped, over the same states. */
  lemma BumpShaped<S, Y>(c: Counts<S, Y>, red: S, e: Trans<S, Y>)
    requires Shaped(c) && red in c.trans && e.dest in c.trans
    ensures Shaped(Bump(c, red, e)) && Bump(c, red, e).trans.Keys == c.trans.Keys
  {
    var row := c.trans[red];
    match Find(row, e.symbol)
      case None =>
        var added := Trans(red, e.dest, e.weight, e.symbol);
        assert Bump(c, red, e) == Counts(c.trans[red := row + [added]], c.fin);
        PutRowOf(row, added, red);
        ShapedUpdate(c, red, row + [added]);
      case Some(k) =>
        var bumped := row[k := row[k].(weight := row[k].weight + e.weight)];
        assert Bump(c, red, e) == Counts(c.trans[red := bumped], c.fin);
        ReweighRowOf(row, red, k, row[k].weight + e.weight, c.trans.Keys);
        ShapedUpdate(c, red, bumped);
  }

  /** Changing the weight of one transition keeps a row a row of its state,
      with the same destinations. */
  lemma ReweighRowOf<S, Y>(row: Row<S, Y>, q: S, k: nat, w: int, dests: set<S>)
    requires RowOf(row, q) && k < |row| && forall e :: e in row ==> e.dest in dests
    ensures RowOf(row[k := row[k].(weight := w)], q)
    ensures forall e :: e in row[k := row[k].(weight := w)] ==> e.dest in dests
  {
    var r := row[k := row[k].(weight := w)];
    forall x | x in r
      ensures x.src == q && x.dest in dests
    {
      var i :| 0 <= i < |r| && r[i] == x;
      assert row[i] in row;
    }
    forall i, j | 0 <= i < j < |r|
      ensures r[i].symbol != r[j].symbol
    {
      assert r[i].symbol == row[i].symbol && r[j].symbol == row[j].symbol;
    }
  }

  /** Folding keeps the counts shaped, over the same states. */
  lemma {:induction false} FoldShaped<S, Y>(c: Counts<S, Y>, red: S, blue: S, fuel: nat)
    requires Shaped(c) && red in c.trans && blue in c.trans
    ensures Shaped(Fold(c, red, blue, fuel)) && Fold(c, red, blue, fuel).trans.Keys == c.trans.Keys
    decreases fuel, 2
  {
    FoldRowShaped(Counts(c.trans, c.fin[red := FinOf(c, red) + FinOf(c, blue)]), red, OutOf(c, blue), fuel);
  }

  /** Folding a row keeps the counts shaped, over the same states. */
  lemma {:induction false} FoldRowShaped<S, Y>(c: Counts<S, Y>, red: S, row: Row<S, Y>, fuel: nat)
    requires Shaped(c) && red in c.trans && forall e :: e in row ==> e.dest in c.trans
    ensures Shaped(FoldRow(c, red, row, fuel)) && FoldRow(c, red, row, fuel).trans.Keys == c.trans.Keys
    decreases fuel, 1, |row|
  {
    if row != [] {
      FoldOneShaped(c, red, row[0], fuel);
      FoldRowShaped(FoldOne(c, red, row[0], fuel), red, row[1..], fuel);
    }
  }

  /** Folding one transition keeps the counts shaped, over the same states. */
  lemma {:induction false} FoldOneShaped<S, Y>(c: Counts<S, Y>, red: S, e: Trans<S, Y>, fuel: nat)
    requires Shaped(c) && red in c.trans && e.dest in c.trans
    ensures Shaped(FoldOne(c, red, e, fuel)) && FoldOne(c, red, e, fuel).trans.Keys == c.trans.Keys
    decreases fuel, 0
  {
    BumpShaped(c, red, e);
    var row := OutOf(c, red);
    match Find(row, e.symbol)
      case None =>
      case Some(k) =>
        if fuel > 0 {
          assert row[k] in row;
          FoldShaped(Bump(c, red, e), row[k].dest, e.dest, fuel - 1);
        }
  }

  /** No count is negative. */
  ghost predicate NonNeg<S, Y>(c: Counts<S, Y>) {
    && (forall q :: q in c.fin ==> c.fin[q] >= 0)
    && (forall q, e :: q in c.trans && e in c.trans[q] ==> e.weight >= 0)
  }

  /** Folding one transition into `red` adds its weight to the frequency
      of `red` and leaves every other frequency as it was. */
  lemma BumpFreq<S, Y>(c: Counts<S, Y>, red: S, e: Trans<S, Y>)
    ensures Freq(Bump(c, red, e), red) == Freq(c, red) + e.weight
    ensures forall q :: q != red ==> Freq(Bump(c, red, e), q) == Freq(c, q)
    ensures NonNeg(c) && e.weight >= 0 ==> NonNeg(Bump(c, red, e))
  {
    var row := OutOf(c, red);
    match Find(row, e.symbol)
      case None =>
        RowWeightSnoc(row, Trans(red, e.dest, e.weight, e.symbol));
      case Some(k) =>
        RowWeightUpdate(row, k, row[k].(weight := row[k].weight + e.weight));
        if NonNeg(c) && e.weight >= 0 {
          var bumped := row[k := row[k].(weight := row[k].weight + e.weight)];
          forall x | x in bumped
            ensures x.weight >= 0
          {
            var i :| 0 <= i < |bumped| && bumped[i] == x;
            assert row[i] in row;
          }
        }
  }

  /** With no negative count, folding never lowers a frequency, and the
      frequency of `red` grows by at least the frequency of `blue`. */
  lemma {:induction false} FoldGrows<S, Y>(c: Counts<S, Y>, red: S, blue: S, fuel: nat)
    requires NonNeg(c)
    ensures NonNeg(Fold(c, red, blue, fuel))
    ensures forall q :: Freq(Fold(c, red, blue, fuel), q) >= Freq(c, q)
    ensures Freq(Fold(c, red, blue, fuel), red) >= Freq(c, red) + Freq(c, blue)
    decreases fuel, 2
  {
    var c1 := Counts(c.trans, c.fin[red := FinOf(c, red) + FinOf(c, blue)]);
    assert NonNeg(c1);
    assert forall q :: Freq(c1, q) >= Freq(c, q);
    FoldRowGrows(c1, red, OutOf(c, blue), fuel);
  }

  /** With no negative count, folding a row never lowers a frequency, and
      the frequency of `red` grows by at least the weight of the row. */
  lemma {:induction false} FoldRowGrows<S, Y>(c: Counts<S, Y>, red: S, row: Row<S, Y>, fuel: nat)
    requires NonNeg(c) && forall e :: e in row ==> e.weight >= 0
    ensures NonNeg(FoldRow(c, red, row, fuel))
    ensures forall q :: Freq(FoldRow(c, red, row, fuel), q) >= Freq(c, q)
    ensures Freq(FoldRow(c, red, row, fuel), red) >= Freq(c, red) + RowWeight(row)
    decreases fuel, 1, |row|
  {
    if row != [] {
      FoldOneGrows(c, red, row[0], fuel);
      FoldRowGrows(FoldOne(c, red, row[0], fuel), red, row[1..], fuel);
    }
  }

  /** With no negative count, folding one transition never lowers a
      frequency, and the frequency of `red` grows by at least its weight. */
  lemma {:induction false} FoldOneGrows<S, Y>(c: Counts<S, Y>, red: S, e: Trans<S, Y>, fuel: nat)
    requires NonNeg(c) && e.weight >= 0
    ensures NonNeg(FoldOne(c, red, e, fuel))
    ensures forall q :: Freq(FoldOne(c, red, e, fuel), q) >= Freq(c, q)
    ensures Freq(FoldOne(c, red, e, fuel), red) >= Freq(c, red) + e.weight
    decreases fuel, 0
  {
    BumpFreq(c, red, e);
    var row := OutOf(c, red);
    match Find(row, e.symbol)
      case None =>
      case Some(k) =>
        if fuel > 0 {
          FoldGrows(Bump(c, red, e), row[k].dest, e.dest, fuel - 1);
        }
  }

  /** A state with a self-loop: folding into it can count the subtree of
      `blue` twice, so the frequency of `red` can grow by more than that of
      `blue`. State 0 has a loop on symbol 7; state 1 goes to state 2 on 7. */
  function SelfLoopCounts(): Counts<int, int> {
    Counts(map[0 := [Trans(0, 0, 1, 7)], 1 := [Trans(1, 2, 1, 7)], 2 := []], map[0 := 0, 1 := 0, 2 := 1])
  }

  /** In the counts above, folding 1 into 0 raises the frequency of 0 from
      1 to 3, not to 1 + 1. */
  lemma FoldSelfLoop()
    ensures Freq(SelfLoopCounts(), 0) == 1 && Freq(SelfLoopCounts(), 1) == 1
    ensures Freq(Fold(SelfLoopCounts(), 0, 1, 1), 0) == 3
  {
    var c := SelfLoopCounts();
    var c1 := Counts(c.trans, c.fin[0 := 0]);
    assert Find([Trans(0, 0, 1, 7)], 7) == Some(0);
    var c2 := Bump(c1, 0, Trans(1, 2, 1, 7));
    assert c2.trans[0] == [Trans(0, 0, 2, 7)];
    assert FoldOne(c1, 0, Trans(1, 2, 1, 7), 1) == Fold(c2, 0, 2, 0);
    assert Fold(c2, 0, 2, 0) == Counts(c2.trans, c2.fin[0 := 1]);
    assert [Trans(1, 2, 1, 7)][1..] == [];
    assert Fold(c, 0, 1, 1) == FoldRow(FoldOne(c1, 0, Trans(1, 2, 1, 7), 1), 0, [], 1);
  }

  /** Sending the transition `e` of its source's row to `red` keeps the
      counts shaped. */
  lemma RetargetShaped<S, Y>(c: Counts<S, Y>, e: Trans<S, Y>, red: S)
    requires Shaped(c) && e.src in c.trans && red in c.trans
    ensures Shaped(Retarget(c, e, red)) && Retarget(c, e, red).trans.Keys == c.trans.Keys
  {
    var row := c.trans[e.src];
    var x := Trans(e.src, red, e.weight, e.symbol);
    PutRowOf(row, x, e.src);
    ShapedUpdate(c, e.src, Put(row, x));
  }

  /** Sending a transition of a row elsewhere keeps every frequency and
      leaves no count negative that was not. */
  lemma RetargetFreq<S, Y>(c: Counts<S, Y>, e: Trans<S, Y>, red: S)
    requires e.src in c.trans && e in c.trans[e.src] && RowOf(c.trans[e.src], e.src)
    ensures forall q :: Freq(Retarget(c, e, red), q) == Freq(c, q)
    ensures NonNeg(c) ==> NonNeg(Retarget(c, e, red))
  {
    var row := c.trans[e.src];
    var x := Trans(e.src, red, e.weight, e.symbol);
    var j :| 0 <= j < |row| && row[j] == e;
    match Find(row, e.symbol)
      case None =>
      case Some(k) =>
        assert k == j;
        RowWeightUpdate(row, k, x);
  }

  /** The error `stochastic_merge` raises when `blue` has no predecessor. */
  const NoPredecessor := "State has no predecessors"

  /** `stochastic_merge`: the predecessor transition of `blue` is sent to
      `red`, keeping its source, symbol and weight, then `blue` is folded
      into `red`. The transition sent is returned. */
  method StochasticMerge<S(==,!new), Y(==,!new)>(a: FreqAutomaton<S, Y>, red: S, blue: S, fuel: nat)
    returns (r: Result<Trans<S, Y>, string>)
    requires a.Valid() && red in a.states && blue in a.states
    modifies a
    ensures r.Failure? <==> !HasPred(old(CountsOf(a)), blue)
    ensures r.Failure? ==> r.error == NoPredecessor && CountsOf(a) == old(CountsOf(a))
    ensures r.Success? ==> r.value.dest == blue && r.value.src in old(a.trans) && r.value in old(a.trans)[r.value.src]
    ensures r.Success? ==> CountsOf(a) == Fold(Retarget(old(CountsOf(a)), r.value, red), red, blue, fuel)
    ensures a.Valid() && a.states == old(a.states) && a.ini == old(a.ini) && a.root == old(a.root)
  {
    var pred := FindPred(a, blue);
    if pred.None? {
      return Failure(NoPredecessor);
    }
    var e := pred.value;
    ghost var p :| p in a.trans && e in a.trans[p];
    assert e.src == p;
    ghost var c := CountsOf(a);
    SendTo(a, e, red);
    StochasticFold(a, red, blue, fuel);
    FoldShaped(Retarget(c, e, red), red, blue, fuel);
    ShapedValid(a);
    r := Success(e);
  }

  /** The assignment of `stochastic_merge`: the transition `e` is sent to `red`. */
  method SendTo<S(==,!new), Y(==,!new)>(a: FreqAutomaton<S, Y>, e: Trans<S, Y>, red: S)
    requires Shaped(CountsOf(a)) && e.src in a.trans && red in a.trans
    modifies a
    ensures CountsOf(a) == Retarget(old(CountsOf(a)), e, red)
    ensures Shaped(CountsOf(a)) && a.trans.Keys == old(a.trans.Keys)
    ensures a.states == old(a.states) && a.ini == old(a.ini) && a.root == old(a.root)
  {
    RetargetShaped(CountsOf(a), e, red);
    a.trans := a.trans[e.src := Put(a.trans[e.src], Trans(e.src, red, e.weight, e.symbol))];
  }

  /** With no negative count, a merge raises the frequency of `red` by at
      least the frequency of `blue`, and lowers no frequency. */
  lemma MergeGrows<S, Y>(c: Counts<S, Y>, e: Trans<S, Y>, red: S, blue: S, fuel: nat)
    requires NonNeg(c) && e.src in c.trans && e in c.trans[e.src] && RowOf(c.trans[e.src], e.src)
    ensures NonNeg(Fold(Retarget(c, e, red), red, blue, fuel))
    ensures forall q :: Freq(Fold(Retarget(c, e, red), red, blue, fuel), q) >= Freq(c, q)
    ensures Freq(Fold(Retarget(c, e, red), red, blue, fuel), red) >= Freq(c, red) + Freq(c, blue)
  {
    RetargetFreq(c, e, red);
    FoldGrows(Retarget(c, e, red), red, blue, fuel);
  }

  /** The error raised on a division by zero. */
  const ZeroDivision := "ZeroDivisionError"

  /** The error `math.sqrt` and `math.log10` raise outside their domain. */
  const MathDomain := "ValueError: math domain error"

  /** The square root and the decimal logarithm, as the caller provides them. */
  datatype Numerics = Numerics(sqrt: real -> real, log10: real -> real)

  /** What the Alergia bound needs of them: square roots of positive numbers
      are positive, and so are logarithms of numbers above 1. */
  ghost predicate Sound(m: Numerics) {
    && (forall x :: x > 0.0 ==> m.sqrt(x) > 0.0)
    && (forall x :: x > 1.0 ==> m.log10(x) > 0.0)
  }

  /** The absolute value of a real. */
  function Abs(x: real): real {
    if x < 0.0 then -x else x
  }

  /** `alergia_test`: the difference of the two rates `f1/n1` and `f2/n2`
      lies below the Hoeffding bound for `alpha`. A zero count or `alpha`
      is a division by zero; a negative count, or an `alpha` that makes the
      logarithm or the last root undefined, is a domain error. */
  function AlergiaTest(f1: int, n1: int, f2: int, n2: int, alpha: real, m: Numerics): Result<bool, string> {
    if n1 == 0 || n2 == 0 then Failure(ZeroDivision)
    else if n1 < 0 || n2 < 0 then Failure(MathDomain)
    else if alpha == 0.0 then Failure(ZeroDivision)
    else if 2.0 / alpha <= 0.0 || 0.5 * m.log10(2.0 / alpha) < 0.0 then Failure(MathDomain)
    else
      var gamma := Abs(f1 as real / n1 as real - f2 as real / n2 as real);
      Success(gamma < (m.sqrt(1.0 / n1 as real) + m.sqrt(1.0 / n2 as real)) * m.sqrt(0.5 * m.log10(2.0 / alpha)))
  }

  /** Two equal rates always pass the test when `0 < alpha < 2`: the bound
      is then positive. */
  lemma AlergiaTestEqualRates(f1: int, n1: int, f2: int, n2: int, alpha: real, m: Numerics)
    requires Sound(m) && n1 > 0 && n2 > 0 && 0.0 < alpha < 2.0
    requires f1 * n2 == f2 * n1
    ensures AlergiaTest(f1, n1, f2, n2, alpha, m) == Success(true)
  {
    assert 2.0 / alpha > 1.0;
    var h := 0.5 * m.log10(2.0 / alpha);
    assert h > 0.0;
    assert f1 as real / n1 as real == f2 as real / n2 as real by {
      assert (f1 * n2) as real == (f2 * n1) as real;
    }
    var b := m.sqrt(1.0 / n1 as real) + m.sqrt(1.0 / n2 as real);
    assert b > 0.0 && m.sqrt(h) > 0.0;
    assert b * m.sqrt(h) > 0.0;
  }

  /** The test does not depend on the order of the two states. */
  lemma AlergiaTestSymmetric(f1: int, n1: int, f2: int, n2: int, alpha: real, m: Numerics)
    ensures AlergiaTest(f1, n1, f2, n2, alpha, m) == AlergiaTest(f2, n2, f1, n1, alpha, m)
  {
    if n1 > 0 && n2 > 0 {
      AbsSwap(f1 as real / n1 as real, f2 as real / n2 as real);
    }
  }

  /** The distance between two reals does not depend on their order. */
  lemma AbsSwap(x: real, y: real)
    ensures Abs(x - y) == Abs(y - x)
  {
  }

  /** The weight of the transition on `sym`, 0 when there is none. */
  function Weight<S, Y(==)>(row: Row<S, Y>, sym: Y): int {
    match Find(row, sym)
      case None => 0
      case Some(k) => row[k].weight
  }

  /** The symbols of a row. */
  function Symbols<S(==), Y(==)>(row: Row<S, Y>): set<Y> {
    set e | e in row :: e.symbol
  }

  /** `alergia_compatible`: the final counts pass the test, and so do the
      weights on every symbol either state has, a missing transition
      counting as 0. */
  function Compatible<S(==), Y(==)>(c: Counts<S, Y>, qa: S, qb: S, alpha: real, m: Numerics): Result<bool, string> {
    var na := Freq(c, qa);
    var nb := Freq(c, qb);
    var ra := OutOf(c, qa);
    var rb := OutOf(c, qb);
    match AlergiaTest(FinOf(c, qa), na, FinOf(c, qb), nb, alpha, m)
      case Failure(err) => Failure(err)
      case Success(ok) =>
        Success(ok && forall y :: y in Symbols(ra) + Symbols(rb) ==> AlergiaTest(Weight(ra, y), na, Weight(rb, y), nb, alpha, m) == Success(true))
  }

  /** Compatibility does not depend on the order of the two states. */
  lemma CompatibleSymmetric<S, Y>(c: Counts<S, Y>, qa: S, qb: S, alpha: real, m: Numerics)
    ensures Compatible(c, qa, qb, alpha, m) == Compatible(c, qb, qa, alpha, m)
  {
    var na := Freq(c, qa);
    var nb := Freq(c, qb);
    var ra := OutOf(c, qa);
    var rb := OutOf(c, qb);
    AlergiaTestSymmetric(FinOf(c, qa), na, FinOf(c, qb), nb, alpha, m);
    forall y
      ensures AlergiaTest(Weight(ra, y), na, Weight(rb, y), nb, alpha, m) == AlergiaTest(Weight(rb, y), nb, Weight(ra, y), na, alpha, m)
    {
      AlergiaTestSymmetric(Weight(ra, y), na, Weight(rb, y), nb, alpha, m);
    }
    assert Symbols(ra) + Symbols(rb) == Symbols(rb) + Symbols(ra);
  }

  /** A state with positive frequency is compatible with itself when
      `0 < alpha < 2`. */
  lemma CompatibleSelf<S, Y>(c: Counts<S, Y>, q: S, alpha: real, m: Numerics)
    requires Sound(m) && Freq(c, q) > 0 && 0.0 < alpha < 2.0
    ensures Compatible(c, q, q, alpha, m) == Success(true)
  {
    var n := Freq(c, q);
    var row := OutOf(c, q);
    AlergiaTestEqualRates(FinOf(c, q), n, FinOf(c, q), n, alpha, m);
    forall y
      ensures AlergiaTest(Weight(row, y), n, Weight(row, y), n, alpha, m) == Success(true)
    {
      AlergiaTestEqualRates(Weight(row, y), n, Weight(row, y), n, alpha, m);
    }
  }

  /** `alergia_compatible`, looping over the symbols in an unspecified order. */
  method AlergiaCompatible<S(==,!new), Y(==,!new)>(a: FreqAutomaton<S, Y>, qa: S, qb: S, alpha: real, m: Numerics)
    returns (r: Result<bool, string>)
    ensures r == Compatible(CountsOf(a), qa, qb, alpha, m)
  {
    var cntA := StateFreq(a, qa);
    var cntB := StateFreq(a, qb);
    var c := CountsOf(a);
    var t := AlergiaTest(FinOf(c, qa), cntA, FinOf(c, qb), cntB, alpha, m);
    if t.Failure? {
      return Failure(t.error);
    }
    if !t.value {
      return Success(false);
    }
    var ra := OutOf(c, qa);
    var rb := OutOf(c, qb);
    var alph := Symbols(ra) + Symbols(rb);
    var rest := alph;
    while rest != {}
      invariant rest <= alph
      invariant forall y :: y in alph - rest ==> AlergiaTest(Weight(ra, y), cntA, Weight(rb, y), cntB, alpha, m) == Success(true)
      decreases rest
    {
      var y :| y in rest;
      var w1 := Weight(ra, y);
      var w2 := Weight(rb, y);
      if AlergiaTest(w1, cntA, w2, cntB, alpha, m) != Success(true) {
        return Success(false);
      }
      rest := rest - {y};
    }
    return Success(true);
  }

  /** The error raised when there is no initial state. */
  const NoInitial := "IndexError: list index out of range"

  /** No transition of `ts` leaves a state of frequency 0. */
  predicate NoZeroSource<S(==,!new), Y(==,!new)>(c: Counts<S, Y>, ts: seq<CoreWfa.Transition<S, Y>>) {
    forall t :: t in ts ==> Freq(c, t.src) != 0
  }

  /** No non-zero final count belongs to a state of frequency 0. */
  predicate NoZeroFinal<S(==,!new), Y(==,!new)>(c: Counts<S, Y>) {
    forall q :: q in c.fin && c.fin[q] != 0 ==> Freq(c, q) != 0
  }

  /** Every weight divided by the frequency of its transition's source. */
  function Divided<S(==,!new), Y(==,!new)>(c: Counts<S, Y>, ts: seq<CoreWfa.Transition<S, Y>>): (r: seq<CoreWfa.Transition<S, Y>>)
    requires NoZeroSource(c, ts)
    ensures |r| == |ts|
    ensures forall i :: 0 <= i < |ts| ==> r[i] == ts[i].(weight := ts[i].weight / Freq(c, ts[i].src) as real)
  {
    seq(|ts|, i requires 0 <= i < |ts| => ts[i].(weight := ts[i].weight / Freq(c, ts[i].src) as real))
  }

  /** The non-zero final counts, each divided by the frequency of its state. */
  function DividedFinals<S(==,!new), Y(==,!new)>(c: Counts<S, Y>): (r: map<S, real>)
    requires NoZeroFinal(c)
    ensures forall q :: q in r <==> q in c.fin && c.fin[q] != 0
    ensures forall q :: q in r ==> r[q] == c.fin[q] as real / Freq(c, q) as real
  {
    map q | q in c.fin && c.fin[q] != 0 :: c.fin[q] as real / Freq(c, q) as real
  }

  /** `normalize`, on the transitions `ts` that `to_wfa` lists: transition
      weights and non-zero finals are divided by the frequency of their
      state, zero finals are dropped, and the first initial state gets
      weight 1. A frequency of 0 where a division needs it, or an empty
      initial dictionary, is an error. */
  function Normalized<S(==,!new), Y(==,!new)>(c: Counts<S, Y>, ini: seq<(S, int)>, ts: seq<CoreWfa.Transition<S, Y>>): Result<CoreWfa.Wfa<S, Y>, string> {
    if !NoZeroSource(c, ts) || !NoZeroFinal(c) then Failure(ZeroDivision)
    else if ini == [] then Failure(NoInitial)
    else Success(CoreWfa.Wfa(Divided(c, ts), DividedFinals(c), RealIni(ini)[0 := (ini[0].0, 1.0)], None))
  }

  /** The first loop of `normalize`: each transition weight divided by the
      frequency of its source. */
  method DivideTransitions<S(==,!new), Y(==,!new)>(a: FreqAutomaton<S, Y>, ts: seq<CoreWfa.Transition<S, Y>>)
    returns (r: Option<seq<CoreWfa.Transition<S, Y>>>)
    ensures r.None? <==> !NoZeroSource(CountsOf(a), ts)
    ensures r.Some? ==> r.value == Divided(CountsOf(a), ts)
  {
    var out := [];
    for i := 0 to |ts|
      invariant NoZeroSource(CountsOf(a), ts[..i]) && out == Divided(CountsOf(a), ts[..i])
    {
      var w := StateFreq(a, ts[i].src);
      if w == 0 {
        assert ts[i] in ts;
        return None;
      }
      assert ts[..i + 1] == ts[..i] + [ts[i]];
      out := out + [ts[i].(weight := ts[i].weight / w as real)];
    }
    assert ts[..|ts|] == ts;
    return Some(out);
  }

  /** The second loop of `normalize`: the non-zero finals divided by the
      frequency of their state, in an unspecified order. */
  method DivideFinals<S(==,!new), Y(==,!new)>(a: FreqAutomaton<S, Y>) returns (r: Option<map<S, real>>)
    ensures r.None? <==> !NoZeroFinal(CountsOf(a))
    ensures r.Some? ==> r.value == DividedFinals(CountsOf(a))
  {
    var finNew := map[];
    var rest := a.fin.Keys;
    while rest != {}
      invariant rest <= a.fin.Keys
      invariant forall q :: q in a.fin && q !in rest && a.fin[q] != 0 ==> Freq(CountsOf(a), q) != 0
      invariant forall q :: q in finNew <==> q in a.fin && q !in rest && a.fin[q] != 0
      invariant forall q :: q in finNew ==> finNew[q] == a.fin[q] as real / Freq(CountsOf(a), q) as real
      decreases rest
    {
      var q :| q in rest;
      var w := StateFreq(a, q);
      if a.fin[q] != 0 {
        if w == 0 {
          return None;
        }
        finNew := finNew[q := a.fin[q] as real / w as real];
      }
      rest := rest - {q};
    }
    return Some(finNew);
  }

  /** `normalize`: the probabilistic automaton of `to_wfa`'s transitions,
      rows visited in the order `order`. As the initial dictionary is shared
      with the result, the automaton's own first initial count becomes 1 too. */
  method Normalize<S(==,!new), Y(==,!new)>(a: FreqAutomaton<S, Y>) returns (r: Result<CoreWfa.Wfa<S, Y>, string>, ghost order: seq<S>)
    modifies a
    ensures CoreWfaExport.Enumerates(order, old(a.trans).Keys)
    ensures r == Normalized(old(CountsOf(a)), old(a.ini), old(a.Flat(order)))
    ensures r == Normalized(old(CountsOf(a)), old(a.ini), FlatOf(old(CountsOf(a)), order))
    ensures a.ini == (if r.Success? then old(a.ini)[0 := (old(a.ini)[0].0, 1)] else old(a.ini))
    ensures a.trans == old(a.trans) && a.fin == old(a.fin) && a.states == old(a.states) && a.root == old(a.root)
  {
    var w;
    w, order := a.ToWfa();
    FlatIsFlatOf(a, order);
    var ts := DivideTransitions(a, w.transitions);
    if ts.None? {
      return Failure(ZeroDivision), order;
    }
    var fs := DivideFinals(a);
    if fs.None? {
      return Failure(ZeroDivision), order;
    }
    if |w.start| == 0 {
      return Failure(NoInitial), order;
    }
    a.ini := a.ini[0 := (a.ini[0].0, 1)];
    r := Success(CoreWfa.Wfa(ts.value, fs.value, w.start[0 := (w.start[0].0, 1.0)], None));
  }

  /** The total weight of the transitions of `ts` leaving `q`. */
  function SumFrom<S(==), Y>(ts: seq<CoreWfa.Transition<S, Y>>, q: S): real {
    if ts == [] then 0.0
    else SumFrom(ts[..|ts| - 1], q) + (if ts[|ts| - 1].src == q then ts[|ts| - 1].weight else 0.0)
  }

  /** The weight leaving `q` adds up over a concatenation. */
  lemma {:induction false} SumFromConcat<S, Y>(xs: seq<CoreWfa.Transition<S, Y>>, ys: seq<CoreWfa.Transition<S, Y>>, q: S)
    ensures SumFrom(xs + ys, q) == SumFrom(xs, q) + SumFrom(ys, q)
    decreases |ys|
  {
    if ys != [] {
      assert (xs + ys)[..|xs + ys| - 1] == xs + ys[..|ys| - 1];
      assert (xs + ys)[|xs + ys| - 1] == ys[|ys| - 1];
      SumFromConcat(xs, ys[..|ys| - 1], q);
    } else {
      assert xs + ys == xs;
    }
  }

  /** Dividing the weights of a concatenation divides each part. */
  lemma DividedConcat<S(!new), Y(!new)>(c: Counts<S, Y>, xs: seq<CoreWfa.Transition<S, Y>>, ys: seq<CoreWfa.Transition<S, Y>>)
    requires NoZeroSource(c, xs + ys)
    ensures NoZeroSource(c, xs) && NoZeroSource(c, ys)
    ensures Divided(c, xs + ys) == Divided(c, xs) + Divided(c, ys)
  {
    assert forall t :: t in xs ==> t in xs + ys;
    assert forall t :: t in ys ==> t in xs + ys;
  }

  /** Two shares of the same whole add up. */
  lemma DivAdd(x: real, y: real, f: real)
    requires f != 0.0
    ensures x / f + y / f == (x + y) / f
  {
  }

  /** Adding a share `w / f` to a sum `r1 / f` gives `(r1 + w) / f`. */
  lemma ShareAdd(lhs: real, x: real, r1: real, w: real, total: real, f: real)
    requires f != 0.0 && x == r1 / f && lhs == x + w / f && total == r1 + w
    ensures lhs == total / f
  {
    DivAdd(r1, w, f);
  }

  lemma DivSelf(f: real)
    requires f != 0.0
    ensures f / f == 1.0
  {
  }

  /** One divided transition gives its source its weight over the source's
      frequency, and nothing to any other state. */
  lemma OneShare<S(!new), Y(!new)>(c: Counts<S, Y>, e: Trans<S, Y>, q: S)
    requires Freq(c, e.src) != 0
    ensures NoZeroSource(c, [AsTransition(e)])
    ensures SumFrom(Divided(c, [AsTransition(e)]), q) == if e.src == q then e.weight as real / Freq(c, e.src) as real else 0.0
  {
    assert [AsTransition(e)][..0] == [];
  }

  /** The transitions of a row of a state of non-zero frequency leave no
      state of frequency 0. */
  lemma RowNoZero<S(!new), Y(!new)>(c: Counts<S, Y>, row: Row<S, Y>, p: S)
    requires (forall e :: e in row ==> e.src == p) && Freq(c, p) != 0
    ensures NoZeroSource(c, AsTransitions(row))
  {
    forall t | t in AsTransitions(row)
      ensures Freq(c, t.src) != 0
    {
      var j :| 0 <= j < |row| && AsTransitions(row)[j] == t;
      assert row[j] in row;
    }
  }

  /** One more divided transition adds its share to the sum of its source. */
  lemma SnocShare<S(!new), Y(!new)>(c: Counts<S, Y>, xs: seq<CoreWfa.Transition<S, Y>>, e: Trans<S, Y>, q: S)
    requires NoZeroSource(c, xs) && Freq(c, e.src) != 0
    ensures NoZeroSource(c, xs + [AsTransition(e)])
    ensures SumFrom(Divided(c, xs + [AsTransition(e)]), q)
         == SumFrom(Divided(c, xs), q) + if e.src == q then e.weight as real / Freq(c, e.src) as real else 0.0
  {
    var ys := [AsTransition(e)];
    OneShare(c, e, q);
    DividedConcat(c, xs, ys);
    SumFromConcat(Divided(c, xs), Divided(c, ys), q);
  }

  /** Of the divided transitions of a row of `p`, those leaving `q` weigh
      the row's weight over the frequency of `p` when `q` is `p`, and
      nothing otherwise. */
  lemma {:induction false} RowShare<S(!new), Y(!new)>(c: Counts<S, Y>, row: Row<S, Y>, p: S, q: S)
    requires (forall e :: e in row ==> e.src == p) && Freq(c, p) != 0
    ensures NoZeroSource(c, AsTransitions(row))
    ensures SumFrom(Divided(c, AsTransitions(row)), q) == if p == q then RowWeight(row) as real / Freq(c, p) as real else 0.0
    decreases |row|
  {
    if row == [] {
      assert AsTransitions(row) == [];
      assert Divided(c, AsTransitions(row)) == [];
    } else {
      var front, last := row[..|row| - 1], row[|row| - 1];
      assert row == front + [last];
      assert forall e :: e in front ==> e in row;
      assert last in row;
      RowShare(c, front, p, q);
      assert AsTransitions(row) == AsTransitions(front) + [AsTransition(last)];
      SnocShare(c, AsTransitions(front), last, q);
      RowWeightSnoc(front, last);
      var lhs := SumFrom(Divided(c, AsTransitions(row)), q);
      var x := SumFrom(Divided(c, AsTransitions(front)), q);
      if p == q {
        var r1, w, f := RowWeight(front) as real, last.weight as real, Freq(c, p) as real;
        assert x == r1 / f && last.src == q;
        assert lhs == x + w / f;
        ShareAdd(lhs, x, r1, w, RowWeight(row) as real, f);
      } else {
        assert lhs == x + 0.0 && x == 0.0;
      }
    }
  }

  /** The transitions `to_wfa` lists when it visits the rows of `c` in the
      order `order`. */
  function FlatOf<S, Y>(c: Counts<S, Y>, order: seq<S>): seq<CoreWfa.Transition<S, Y>> {
    if order == [] then [] else FlatOf(c, order[..|order| - 1]) + AsTransitions(OutOf(c, order[|order| - 1]))
  }

  lemma {:induction false} FlatIsFlatOf<S(!new), Y(!new)>(a: FreqAutomaton<S, Y>, order: seq<S>)
    ensures a.Flat(order) == FlatOf(CountsOf(a), order)
    decreases |order|
  {
    if order != [] {
      FlatIsFlatOf(a, order[..|order| - 1]);
    }
  }

  /** Appending the row of `p` to the transitions adds that row's share to
      the sum of `p` and nothing to the others. */
  lemma AppendShare<S(!new), Y(!new)>(c: Counts<S, Y>, fs: seq<CoreWfa.Transition<S, Y>>, row: Row<S, Y>, p: S, q: S)
    requires (forall e :: e in row ==> e.src == p) && Freq(c, q) != 0
    requires NoZeroSource(c, fs + AsTransitions(row))
    ensures NoZeroSource(c, fs)
    ensures SumFrom(Divided(c, fs + AsTransitions(row)), q)
         == SumFrom(Divided(c, fs), q) + if p == q then RowWeight(row) as real / Freq(c, q) as real else 0.0
  {
    var ts := AsTransitions(row);
    DividedConcat(c, fs, ts);
    SumFromConcat(Divided(c, fs), Divided(c, ts), q);
    if p == q {
      RowShare(c, row, p, q);
    } else if row == [] {
      assert ts == [] && Divided(c, ts) == [];
    } else {
      assert ts[0] in ts;
      RowShare(c, row, p, q);
    }
  }

  /** Of the divided transitions of `to_wfa` over the distinct rows
      `order`, those leaving `q` weigh the weight of `q`'s row over its
      frequency when `q`'s row was visited, and nothing otherwise. */
  lemma {:induction false} FlatShare<S(!new), Y(!new)>(c: Counts<S, Y>, order: seq<S>, q: S)
    requires forall p, e :: p in c.trans && e in c.trans[p] ==> e.src == p
    requires (forall p :: p in order ==> p in c.trans) && forall i, j :: 0 <= i < j < |order| ==> order[i] != order[j]
    requires Freq(c, q) != 0 && NoZeroSource(c, FlatOf(c, order))
    ensures SumFrom(Divided(c, FlatOf(c, order)), q) == if q in order then RowWeight(c.trans[q]) as real / Freq(c, q) as real else 0.0
    decreases |order|
  {
    if order != [] {
      var front, last := order[..|order| - 1], order[|order| - 1];
      assert order == front + [last];
      var row := c.trans[last];
      assert FlatOf(c, order) == FlatOf(c, front) + AsTransitions(row);
      AppendShare(c, FlatOf(c, front), row, last, q);
      FlatShare(c, front, q);
      var x := SumFrom(Divided(c, FlatOf(c, front)), q);
      if q == last {
        assert q !in front;
        assert x == 0.0;
      } else {
        assert q in order <==> q in front;
      }
    } else {
      assert Divided(c, []) == [];
    }
  }

  /** After `normalize`, the weights leaving a state of non-zero frequency
      and its final weight add up to 1. */
  lemma NormalizedSumsToOne<S(!new), Y(!new)>(c: Counts<S, Y>, ini: seq<(S, int)>, order: seq<S>, w: CoreWfa.Wfa<S, Y>, q: S)
    requires Shaped(c) && CoreWfaExport.Enumerates(order, c.trans.Keys)
    requires Normalized(c, ini, FlatOf(c, order)) == Success(w)
    requires q in c.trans && Freq(c, q) != 0
    ensures SumFrom(w.transitions, q) + (if q in w.finals then w.finals[q] else 0.0) == 1.0
  {
    assert w.transitions == Divided(c, FlatOf(c, order)) && w.finals == DividedFinals(c);
    FlatShare(c, order, q);
    assert q in order;
    var f, r, fi := Freq(c, q) as real, RowWeight(c.trans[q]) as real, c.fin[q] as real;
    assert f == r + fi && f != 0.0;
    var x := SumFrom(w.transitions, q);
    assert x == r / f;
    if c.fin[q] != 0 {
      assert w.finals[q] == fi / f;
      DivAdd(r, fi, f);
      DivSelf(f);
    } else {
      assert q !in w.finals && r == f;
      DivSelf(f);
    }
  }

  /** The states a probabilistic automaton gives weight to: the sources
      of its transitions and its final states. */
  function Weighted<S(==), Y>(w: CoreWfa.Wfa<S, Y>): set<S> {
    (set t | t in w.transitions :: t.src) + w.finals.Keys
  }

  /** The final weight of `q`, 0 when it is not final. */
  function FinalWeight<S, Y>(w: CoreWfa.Wfa<S, Y>, q: S): real {
    if q in w.finals then w.finals[q] else 0.0
  }

  /** Every state given weight has outgoing weights and final weight
      adding up to 1. */
  ghost predicate Stochastic<S(!new), Y>(w: CoreWfa.Wfa<S, Y>) {
    forall q :: q in Weighted(w) ==> SumFrom(w.transitions, q) + FinalWeight(w, q) == 1.0
  }

  /** The transitions `to_wfa` lists leave the states visited. */
  lemma {:induction false} FlatOfSources<S(!new), Y(!new)>(c: Counts<S, Y>, order: seq<S>)
    requires Shaped(c)
    ensures forall t :: t in FlatOf(c, order) ==> t.src in order && t.src in c.trans && c.trans[t.src] != []
    decreases |order|
  {
    if order != [] {
      var front, last := order[..|order| - 1], order[|order| - 1];
      FlatOfSources(c, front);
      var ts := AsTransitions(OutOf(c, last));
      forall t | t in FlatOf(c, order)
        ensures t.src in order && t.src in c.trans && c.trans[t.src] != []
      {
        if t in ts {
          var i :| 0 <= i < |ts| && ts[i] == t;
          assert OutOf(c, last)[i] in OutOf(c, last);
        } else {
          assert t in FlatOf(c, front);
          assert t.src in front;
        }
      }
    }
  }

  /** Every transition `to_wfa` lists is transition `i` of the row of a
      visited state `q`. */
  lemma {:induction false} FlatOfRows<S(!new), Y(!new)>(c: Counts<S, Y>, order: seq<S>, t: CoreWfa.Transition<S, Y>) returns (q: S, i: nat)
    requires t in FlatOf(c, order)
    ensures q in order && q in c.trans && i < |c.trans[q]| && t == AsTransition(c.trans[q][i])
    decreases |order|
  {
    var front, last := order[..|order| - 1], order[|order| - 1];
    var ts := AsTransitions(OutOf(c, last));
    if t in ts {
      var j :| 0 <= j < |ts| && ts[j] == t;
      q, i := last, j;
    } else {
      q, i := FlatOfRows(c, front, t);
      assert q in front;
    }
  }

  /** A transition of the normalised automaton is transition `i` of the
      row of a state `q`, its weight divided by the frequency of its
      source. */
  lemma NormalizedTransition<S(!new), Y(!new)>(c: Counts<S, Y>, ini: seq<(S, int)>, order: seq<S>, w: CoreWfa.Wfa<S, Y>, t: CoreWfa.Transition<S, Y>)
    returns (q: S, i: nat)
    requires Normalized(c, ini, FlatOf(c, order)) == Success(w) && t in w.transitions
    ensures q in c.trans && i < |c.trans[q]| && Freq(c, c.trans[q][i].src) != 0
    ensures var e := c.trans[q][i]; t == CoreWfa.Transition(e.src, e.dest, e.symbol, e.weight as real / Freq(c, e.src) as real)
  {
    var ts := FlatOf(c, order);
    assert w.transitions == Divided(c, ts);
    var n :| 0 <= n < |w.transitions| && w.transitions[n] == t;
    assert ts[n] in ts;
    q, i := FlatOfRows(c, order, ts[n]);
  }

  /** The final weights of the normalised automaton are the non-zero final
      counts over the frequency of their state. */
  lemma NormalizedFinal<S(!new), Y(!new)>(c: Counts<S, Y>, ini: seq<(S, int)>, ts: seq<CoreWfa.Transition<S, Y>>, w: CoreWfa.Wfa<S, Y>, q: S)
    requires Normalized(c, ini, ts) == Success(w)
    ensures q in w.finals <==> q in c.fin && c.fin[q] != 0
    ensures q in w.finals ==> Freq(c, q) != 0 && w.finals[q] == c.fin[q] as real / Freq(c, q) as real
  {
    assert w.finals == DividedFinals(c);
  }

  /** `normalize` divides by no zero, and so succeeds, when every state of
      frequency 0 has no transition and no final count. */
  lemma NormalizedSucceeds<S(!new), Y(!new)>(c: Counts<S, Y>, ini: seq<(S, int)>, order: seq<S>)
    requires Shaped(c) && ini != []
    requires forall q :: q in c.trans && Freq(c, q) == 0 ==> c.trans[q] == [] && c.fin[q] == 0
    ensures Normalized(c, ini, FlatOf(c, order)).Success?
  {
    FlatOfSources(c, order);
  }

  /** After a successful `normalize`, the automaton is stochastic: every
      state with an outgoing transition or a final weight has total weight
      1. */
  lemma NormalizedStochastic<S(!new), Y(!new)>(c: Counts<S, Y>, ini: seq<(S, int)>, order: seq<S>, w: CoreWfa.Wfa<S, Y>)
    requires Shaped(c) && CoreWfaExport.Enumerates(order, c.trans.Keys)
    requires Normalized(c, ini, FlatOf(c, order)) == Success(w)
    ensures Stochastic(w)
  {
    var ts := FlatOf(c, order);
    FlatOfSources(c, order);
    forall q | q in Weighted(w)
      ensures SumFrom(w.transitions, q) + FinalWeight(w, q) == 1.0
    {
      if q in w.finals {
        assert q in c.fin && c.fin[q] != 0;
      } else {
        var t :| t in w.transitions && t.src == q;
        var i :| 0 <= i < |w.transitions| && w.transitions[i] == t;
        assert ts[i] in ts && ts[i].src == q;
      }
      NormalizedSumsToOne(c, ini, order, w, q);
    }
  }
}
