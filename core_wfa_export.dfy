/**
  Exporting weighted automata: transitions aggregated per pair of states,
  the `.fa` text format, the final-state list of the DOT output and the
  labels of DOT edges. Numbers are rendered by parameters standing for
  Python's `str`, `round` and `hex`.
 */
module CoreWfaExport {
  import opened Wrappers
  import opened PyBuiltins
  import opened AuxFunctions
  import opened CoreWfa

  // ---------------------------------------------------------------------
  // Aggregated transitions

  /** The symbols of the transitions from `p` to `q`, in transition order. */
  function SymbolsBetween<S(==,!new), Y(==,!new)>(ts: seq<Transition<S, Y>>, p: S, q: S): (r: seq<Y>)
    ensures |r| <= |ts|
  {
    if ts == [] then []
    else
      var t := ts[|ts| - 1];
      SymbolsBetween(ts[..|ts| - 1], p, q) + (if t.src == p && t.dest == q then [t.symbol] else [])
  }

  /** The summed weight of the transitions from `p` to `q`. */
  function WeightBetween<S(==,!new), Y(==,!new)>(ts: seq<Transition<S, Y>>, p: S, q: S): real {
    if ts == [] then 0.0
    else
      var t := ts[|ts| - 1];
      WeightBetween(ts[..|ts| - 1], p, q) + (if t.src == p && t.dest == q then t.weight else 0.0)
  }

  function Pairs<S(==,!new), Y(==,!new)>(ts: seq<Transition<S, Y>>): set<(S, S)> {
    set t | t in ts :: (t.src, t.dest)
  }

  /** One entry per pair of states joined by a transition: its symbols and
      summed weight. */
  function Aggregate<S(==,!new), Y(==,!new)>(ts: seq<Transition<S, Y>>): map<(S, S), (seq<Y>, real)> {
    map k | k in Pairs(ts) :: (SymbolsBetween(ts, k.0, k.1), WeightBetween(ts, k.0, k.1))
  }

  /** A symbol is listed for `(p, q)` exactly when some transition from `p`
      to `q` carries it. */
  lemma {:induction false} SymbolsBetweenMembers<S(!new), Y(!new)>(ts: seq<Transition<S, Y>>, p: S, q: S, y: Y)
    ensures y in SymbolsBetween(ts, p, q) <==> exists t :: t in ts && t.src == p && t.dest == q && t.symbol == y
  {
    if ts != [] {
      var init := ts[..|ts| - 1];
      SymbolsBetweenMembers(init, p, q, y);
      assert ts == init + [ts[|ts| - 1]];
    }
  }

  /** A pair that no transition joins has no symbols and weight zero. */
  lemma {:induction false} NoPairNoSymbols<S(!new), Y(!new)>(ts: seq<Transition<S, Y>>, p: S, q: S)
    requires (p, q) !in Pairs(ts)
    ensures SymbolsBetween(ts, p, q) == [] && WeightBetween(ts, p, q) == 0.0
  {
    if ts != [] {
      var init := ts[..|ts| - 1];
      assert forall t :: t in init ==> t in ts;
      NoPairNoSymbols(init, p, q);
    }
  }

  /** Every aggregated pair is joined by a transition, lists at least one
      symbol, and lists exactly the symbols of the transitions joining it. */
  lemma AggregateSpec<S(!new), Y(!new)>(ts: seq<Transition<S, Y>>, p: S, q: S)
    ensures (p, q) in Aggregate(ts) <==> exists t :: t in ts && t.src == p && t.dest == q
    ensures (p, q) in Aggregate(ts) ==> |Aggregate(ts)[(p, q)].0| >= 1
    ensures (p, q) in Aggregate(ts) ==> forall y :: y in Aggregate(ts)[(p, q)].0 <==> exists t :: t in ts && t.src == p && t.dest == q && t.symbol == y
  {
    if (p, q) in Aggregate(ts) {
      var t :| t in ts && (t.src, t.dest) == (p, q);
      SymbolsBetweenMembers(ts, p, q, t.symbol);
      forall y ensures y in Aggregate(ts)[(p, q)].0 <==> exists t :: t in ts && t.src == p && t.dest == q && t.symbol == y {
        SymbolsBetweenMembers(ts, p, q, y);
      }
    }
  }

  /** The symbols and weight of a pair after one more transition. */
  lemma BetweenSnoc<S(!new), Y(!new)>(ts: seq<Transition<S, Y>>, t: Transition<S, Y>, p: S, q: S)
    ensures SymbolsBetween(ts + [t], p, q) == SymbolsBetween(ts, p, q) + (if t.src == p && t.dest == q then [t.symbol] else [])
    ensures WeightBetween(ts + [t], p, q) == WeightBetween(ts, p, q) + (if t.src == p && t.dest == q then t.weight else 0.0)
  {
    assert (ts + [t])[..|ts|] == ts;
  }

  /** One step of the aggregation loop: the transition's symbol and weight
      join the entry of its pair, or start it. */
  function AddToAggregate<S(==,!new), Y(==,!new)>(agg: map<(S, S), (seq<Y>, real)>, t: Transition<S, Y>): map<(S, S), (seq<Y>, real)> {
    var k := (t.src, t.dest);
    agg[k := if k in agg then (agg[k].0 + [t.symbol], agg[k].1 + t.weight) else ([t.symbol], t.weight)]
  }

  /** The entry of one pair after one more transition. */
  lemma AggregateStepAt<S(!new), Y(!new)>(ts: seq<Transition<S, Y>>, t: Transition<S, Y>, k': (S, S))
    requires k' in Pairs(ts + [t])
    ensures k' in AddToAggregate(Aggregate(ts), t) && Aggregate(ts + [t])[k'] == AddToAggregate(Aggregate(ts), t)[k']
  {
    var k := (t.src, t.dest);
    var old_ := Aggregate(ts);
    BetweenSnoc(ts, t, k'.0, k'.1);
    if k' != k {
      var u :| u in ts + [t] && (u.src, u.dest) == k';
      assert u in ts;
      assert k' in Pairs(ts);
      assert SymbolsBetween(ts, k'.0, k'.1) + [] == SymbolsBetween(ts, k'.0, k'.1);
    } else if k !in old_ {
      NoPairNoSymbols(ts, k.0, k.1);
      assert [] + [t.symbol] == [t.symbol];
    }
  }

  /** Adding one transition to the aggregate is one step of the loop. */
  lemma AggregateStep<S(!new), Y(!new)>(ts: seq<Transition<S, Y>>, t: Transition<S, Y>)
    ensures Aggregate(ts + [t]) == AddToAggregate(Aggregate(ts), t)
  {
    var ts' := ts + [t];
    var new_ := AddToAggregate(Aggregate(ts), t);
    assert Pairs(ts') == Pairs(ts) + {(t.src, t.dest)} by {
      assert forall u :: u in ts' <==> u in ts || u == t;
    }
    forall k' | k' in Pairs(ts') ensures k' in new_ && Aggregate(ts')[k'] == new_[k'] {
      AggregateStepAt(ts, t, k');
    }
    assert Aggregate(ts').Keys == new_.Keys;
  }

  /** The aggregate of one more prefix of the transitions. */
  lemma AggregatePrefix<S(!new), Y(!new)>(ts: seq<Transition<S, Y>>, i: nat)
    requires i < |ts|
    ensures Aggregate(ts[..i + 1]) == AddToAggregate(Aggregate(ts[..i]), ts[i])
  {
    assert ts[..i + 1] == ts[..i] + [ts[i]];
    AggregateStep(ts[..i], ts[i]);
  }

  /** `get_aggregated_transitions`, as written: a loop filling a dictionary. */
  method GetAggregatedTransitions<S(==,!new), Y(==,!new)>(a: Wfa<S, Y>) returns (agg: map<(S, S), (seq<Y>, real)>)
    ensures agg == Aggregate(a.transitions)
  {
    agg := map[];
    var ts := a.transitions;
    var i := 0;
    while i < |ts|
      invariant 0 <= i <= |ts|
      invariant agg == Aggregate(ts[..i])
    {
      var t := ts[i];
      AggregatePrefix(ts, i);
      var k := (t.src, t.dest);
      if k !in agg {
        agg := agg[k := ([t.symbol], t.weight)];
      } else {
        agg := agg[k := (agg[k].0 + [t.symbol], agg[k].1 + t.weight)];
      }
      i := i + 1;
    }
    assert ts[..i] == ts;
  }

  // ---------------------------------------------------------------------
  // The `.fa` text format

  /** `xs` lists every element of `s` exactly once. */
  ghost predicate Enumerates<T(!new)>(xs: seq<T>, s: set<T>) {
    (forall x :: x in xs <==> x in s) && forall i, j :: 0 <= i < j < |xs| ==> xs[i] != xs[j]
  }

  /** The elements of a set in some order; Python's iteration order over
      sets and dictionaries is not modelled. */
  method Enumerate<T(==,!new)>(s: set<T>) returns (xs: seq<T>)
    ensures Enumerates(xs, s)
  {
    xs := [];
    var rest := s;
    while rest != {}
      invariant rest <= s
      invariant forall x :: x in xs <==> x in s - rest
      invariant forall i, j :: 0 <= i < j < |xs| ==> xs[i] != xs[j]
      decreases rest
    {
      var x :| x in rest;
      assert x !in xs;
      xs := xs + [x];
      rest := rest - {x};
      assert forall y :: y in xs <==> y in xs[..|xs| - 1] || y == x;
    }
  }

  function StartLine(q: int): string {
    IntToString(q) + "\n"
  }

  /** The `hex` renderings of the symbols, each followed by a space. */
  function HexList<Y>(syms: seq<Y>, hexSym: Y -> string): string {
    if syms == [] then "" else HexList(syms[..|syms| - 1], hexSym) + hexSym(syms[|syms| - 1]) + " "
  }

  function AlphabetLine<Y>(syms: seq<Y>, hexSym: Y -> string): string {
    ":" + HexList(syms, hexSym) + "\n"
  }

  /** `src dest "symbol" weight`. */
  function TransitionLine<Y>(t: Transition<int, Y>, showSym: Y -> string, showReal: real -> string): string {
    IntToString(t.src) + " " + IntToString(t.dest) + " \"" + showSym(t.symbol) + "\" " + showReal(t.weight) + "\n"
  }

  /** One line per transition, in order. */
  function TransitionLines<Y>(ts: seq<Transition<int, Y>>, showSym: Y -> string, showReal: real -> string): seq<string> {
    seq(|ts|, i requires 0 <= i < |ts| => TransitionLine(ts[i], showSym, showReal))
  }

  /** `state weight`. */
  function FinalLine(q: int, w: real, showReal: real -> string): string {
    IntToString(q) + " " + showReal(w) + "\n"
  }

  /** One line per final state, in the order given. */
  function FinalLines(order: seq<int>, finals: map<int, real>, showReal: real -> string): seq<string>
    requires forall q :: q in order ==> q in finals
  {
    seq(|order|, i requires 0 <= i < |order| => FinalLine(order[i], finals[order[i]], showReal))
  }

  /** The lines of `to_fa_format`, for given iteration orders of the
      alphabet and of the final states: the start state (if `initial`), the
      alphabet (if `alphabet`), one line per transition, one per final state. */
  function FaText<Y>(a: Wfa<int, Y>, initial: bool, alphabet: bool, syms: seq<Y>, order: seq<int>,
                     showSym: Y -> string, showReal: real -> string, hexSym: Y -> string): seq<string>
    requires |a.start| == 1 && forall q :: q in order ==> q in a.finals
  {
    Header(a, initial, alphabet, syms, hexSym) + TransitionLines(a.transitions, showSym, showReal) + FinalLines(order, a.finals, showReal)
  }

  /** The optional start and alphabet lines. */
  function Header<Y>(a: Wfa<int, Y>, initial: bool, alphabet: bool, syms: seq<Y>, hexSym: Y -> string): seq<string>
    requires |a.start| == 1
  {
    (if initial then [StartLine(a.start[0].0)] else []) + (if alphabet then [AlphabetLine(syms, hexSym)] else [])
  }

  const SingleStartOnly := "Only WFA with a single initial state can be converted to FA format."

  /** The alphabet line of `to_fa_format`. */
  method WriteAlphabet<Y(==,!new)>(a: Wfa<int, Y>, hexSym: Y -> string) returns (syms: seq<Y>, line: string)
    ensures Enumerates(syms, Alphabet(a)) && line == AlphabetLine(syms, hexSym)
  {
    var alph := GetAlphabet(a);
    syms := Enumerate(alph);
    line := ":";
    var i := 0;
    while i < |syms|
      invariant 0 <= i <= |syms|
      invariant line == ":" + HexList(syms[..i], hexSym)
    {
      assert syms[..i + 1][..i] == syms[..i];
      line := line + hexSym(syms[i]) + " ";
      i := i + 1;
    }
    assert syms[..i] == syms;
    line := line + "\n";
  }

  /** Appending the next element of `s` extends the prefix taken. */
  lemma PrefixSnoc<T>(a: seq<T>, s: seq<T>, i: nat)
    requires i < |s|
    ensures a + s[..i] + [s[i]] == a + s[..i + 1]
  {
    assert s[..i + 1] == s[..i] + [s[i]];
  }

  /** The transition lines of `to_fa_format`, appended to `fa`. */
  method WriteTransitions<Y>(fa: seq<string>, ts: seq<Transition<int, Y>>, showSym: Y -> string, showReal: real -> string)
    returns (out: seq<string>)
    ensures out == fa + TransitionLines(ts, showSym, showReal)
  {
    ghost var lines := TransitionLines(ts, showSym, showReal);
    out := fa;
    var i := 0;
    while i < |ts|
      invariant 0 <= i <= |ts| && out == fa + lines[..i]
    {
      PrefixSnoc(fa, lines, i);
      out := out + [TransitionLine(ts[i], showSym, showReal)];
      i := i + 1;
    }
    assert lines[..i] == lines;
  }

  /** The final-state lines of `to_fa_format`, appended to `fa`. */
  method WriteFinals(fa: seq<string>, finals: map<int, real>, order: seq<int>, showReal: real -> string)
    returns (out: seq<string>)
    requires forall q :: q in order ==> q in finals
    ensures out == fa + FinalLines(order, finals, showReal)
  {
    ghost var lines := FinalLines(order, finals, showReal);
    out := fa;
    var j := 0;
    while j < |order|
      invariant 0 <= j <= |order| && out == fa + lines[..j]
    {
      PrefixSnoc(fa, lines, j);
      out := out + [FinalLine(order[j], finals[order[j]], showReal)];
      j := j + 1;
    }
    assert lines[..j] == lines;
  }

  /** `to_fa_format`, as written, returning the text as its lines (each
      ending in a newline): it raises unless there is exactly one initial
      state. */
  method ToFaFormat<Y(==,!new)>(a: Wfa<int, Y>, initial: bool, alphabet: bool,
                               showSym: Y -> string, showReal: real -> string, hexSym: Y -> string)
    returns (r: Result<seq<string>, string>)
    ensures r.Failure? <==> |a.start| != 1
    ensures r.Success? ==> exists syms: seq<Y>, order: seq<int> ::
      (alphabet ==> Enumerates(syms, Alphabet(a))) && Enumerates(order, a.finals.Keys)
      && r.value == FaText(a, initial, alphabet, syms, order, showSym, showReal, hexSym)
  {
    if |a.start| != 1 {
      return Failure(SingleStartOnly);
    }
    var fa: seq<string> := [];
    if initial {
      fa := fa + [StartLine(a.start[0].0)];
    }
    var syms: seq<Y> := [];
    if alphabet {
      var line;
      syms, line := WriteAlphabet(a, hexSym);
      fa := fa + [line];
    }
    assert fa == Header(a, initial, alphabet, syms, hexSym);
    fa := WriteTransitions(fa, a.transitions, showSym, showReal);
    var order := Enumerate(a.finals.Keys);
    fa := WriteFinals(fa, a.finals, order, showReal);
    assert fa == FaText(a, initial, alphabet, syms, order, showSym, showReal, hexSym);
    return Success(fa);
  }

  // ---------------------------------------------------------------------
  // DOT output: the final-state list and edge labels

  /** The final states the DOT output lists: those of non-zero weight,
      each once, in the map's iteration order. */
  method DotFinalStates(finals: map<int, real>) returns (listed: seq<int>)
    ensures forall q :: q in listed <==> q in finals && finals[q] != 0.0
    ensures forall i, j :: 0 <= i < j < |listed| ==> listed[i] != listed[j]
  {
    var keys := Enumerate(finals.Keys);
    listed := [];
    var i := 0;
    while i < |keys|
      invariant 0 <= i <= |keys|
      invariant forall q :: q in listed <==> q in keys[..i] && finals[q] != 0.0
      invariant forall i, j :: 0 <= i < j < |listed| ==> listed[i] != listed[j]
    {
      var q := keys[i];
      assert q !in keys[..i];
      assert keys[..i + 1] == keys[..i] + [q];
      if finals[q] != 0.0 {
        listed := listed + [q];
      }
      i := i + 1;
    }
    assert keys[..i] == keys;
  }

  /** How many symbols a label shows before it is cut short. */
  const MaxLabelSymbols := 25
  /** Decimal places of the weight in a label of aggregated symbols. */
  const Precise := 3

  /** An edge label: one symbol, or the symbol list of an aggregated edge. */
  datatype LabelSymbols = One(sym: int) | Many(syms: seq<int>)

  const ChrRange := "chr() arg not in range(0x110000)"

  /** `convert_to_pritable(chr(c), True)` for a code point `c`. */
  function EscapeCode(c: nat): string {
    if c < 30 || c > 127 || c == 39 || c == 34 then "\\" + Hex(c) else [c as char]
  }

  /** On characters, the code-point version is the character escaping of
      DOT output. */
  lemma EscapeCodeAgrees(ch: char)
    ensures EscapeCode(ch as int) == EscapeChar(ch, true)
  {
    assert [(ch as int) as char] == [ch];
  }

  predicate IsSorted(s: seq<int>) {
    forall i, j :: 0 <= i < j < |s| ==> s[i] <= s[j]
  }

  function Insert(x: int, s: seq<int>): (r: seq<int>)
    ensures |r| == |s| + 1
  {
    if s == [] || x <= s[0] then [x] + s else [s[0]] + Insert(x, s[1..])
  }

  /** Python's `sorted` on integers. */
  function Sort(s: seq<int>): (r: seq<int>)
    ensures |r| == |s|
  {
    if s == [] then [] else Insert(s[0], Sort(s[1..]))
  }

  lemma {:induction false} InsertSorted(x: int, s: seq<int>)
    requires IsSorted(s)
    ensures IsSorted(Insert(x, s))
    ensures s != [] ==> Insert(x, s)[0] == x || Insert(x, s)[0] == s[0]
  {
    if s != [] && x > s[0] {
      InsertSorted(x, s[1..]);
      var r := Insert(x, s[1..]);
      assert Insert(x, s) == [s[0]] + r;
      assert r != [] && (r[0] == x || r[0] == s[1]);
    }
  }

  lemma {:induction false} InsertPermutes(x: int, s: seq<int>)
    ensures multiset(Insert(x, s)) == multiset{x} + multiset(s)
  {
    if s != [] && x > s[0] {
      InsertPermutes(x, s[1..]);
      assert s == [s[0]] + s[1..];
    }
  }

  /** `sorted` returns the same symbols in non-decreasing order. */
  lemma {:induction false} SortSpec(s: seq<int>)
    ensures IsSorted(Sort(s)) && multiset(Sort(s)) == multiset(s)
  {
    if s != [] {
      var t := Sort(s[1..]);
      assert Sort(s) == Insert(s[0], t);
      SortSpec(s[1..]);
      InsertSorted(s[0], t);
      InsertPermutes(s[0], t);
      assert multiset(s) == multiset{s[0]} + multiset(s[1..]) by {
        assert s == [s[0]] + s[1..];
      }
    }
  }

  /** The escaped symbols, in order; `None` when one is not a code point. */
  function EscapeAll(cs: seq<int>): Option<string> {
    if cs == [] then Some("")
    else match EscapeAll(cs[..|cs| - 1])
      case None => None
      case Some(front) =>
        var c := cs[|cs| - 1];
        if 0 <= c < 0x110000 then Some(front + EscapeCode(c)) else None
  }

  /** Escaping succeeds exactly when every symbol is a code point. */
  lemma {:induction false} EscapeAllDefined(cs: seq<int>)
    ensures EscapeAll(cs).Some? <==> forall i :: 0 <= i < |cs| ==> 0 <= cs[i] < 0x110000
  {
    if cs != [] {
      var front, c := cs[..|cs| - 1], cs[|cs| - 1];
      assert EscapeAll(cs).Some? <==> EscapeAll(front).Some? && 0 <= c < 0x110000;
      EscapeAllDefined(front);
      assert forall i :: 0 <= i < |front| ==> front[i] == cs[i];
    }
  }

  /** The text between the brackets: the first 25 sorted symbols escaped,
      then `... n` when there are more. */
  function LabelBody(sorted: seq<int>): Option<string> {
    if |sorted| <= MaxLabelSymbols then EscapeAll(sorted)
    else match EscapeAll(sorted[..MaxLabelSymbols])
      case None => None
      case Some(b) => Some(b + "... " + IntToString(|sorted|))
  }

  /** `_format_label`: `round3` and `round2` stand for `str(round(w, 3))`
      and `str(round(w, 2))`. */
  function FormatLabel(sym: LabelSymbols, w: real, alphabet: set<int>, round2: real -> string, round3: real -> string): Result<string, string> {
    match sym
    case One(c) => Success(IntToString(c) + " " + round2(w))
    case Many(syms) =>
      if (set i | i in syms) == alphabet then Success("^[] " + round3(w))
      else match LabelBody(Sort(syms))
        case None => Failure(ChrRange)
        case Some(b) => Success("[" + b + "] " + round3(w))
  }

  /** The loop of `_format_label` over the sorted symbols, with its
      decrementing counter. */
  method FormatSymbols(sorted: seq<int>) returns (r: Option<string>)
    ensures r == LabelBody(sorted)
  {
    var maxSymbols := MaxLabelSymbols;
    var body := "";
    var i := 0;
    while i < |sorted|
      invariant 0 <= i <= |sorted| && i <= MaxLabelSymbols && maxSymbols == MaxLabelSymbols - i
      invariant EscapeAll(sorted[..i]) == Some(body)
    {
      if maxSymbols > 0 {
        var c := sorted[i];
        EscapeNext(sorted, i, body);
        if !(0 <= c < 0x110000) {
          LabelFails(sorted, i + 1);
          return None;
        }
        body := body + EscapeCode(c);
        maxSymbols := maxSymbols - 1;
        i := i + 1;
      } else {
        body := body + "... " + IntToString(|sorted|);
        return Some(body);
      }
    }
    LabelWhole(sorted);
    return Some(body);
  }

  /** One more symbol escaped: the prefix grows by its encoding, or fails. */
  lemma EscapeNext(cs: seq<int>, i: nat, body: string)
    requires i < |cs| && EscapeAll(cs[..i]) == Some(body)
    ensures EscapeAll(cs[..i + 1]) == if 0 <= cs[i] < 0x110000 then Some(body + EscapeCode(cs[i])) else None
  {
    assert cs[..i + 1][..i] == cs[..i];
    assert cs[..i + 1][i] == cs[i];
  }

  /** A failed prefix within the first 25 symbols fails the label. */
  lemma LabelFails(sorted: seq<int>, i: nat)
    requires i <= |sorted| && i <= MaxLabelSymbols && EscapeAll(sorted[..i]) == None
    ensures LabelBody(sorted) == None
  {
    EscapeAllPrefixNone(sorted, i, if |sorted| <= MaxLabelSymbols then |sorted| else MaxLabelSymbols);
    assert sorted[..|sorted|] == sorted;
  }

  /** A label of at most 25 symbols escapes them all. */
  lemma LabelWhole(sorted: seq<int>)
    requires |sorted| <= MaxLabelSymbols
    ensures LabelBody(sorted) == EscapeAll(sorted[..|sorted|])
  {
    assert sorted[..|sorted|] == sorted;
  }

  /** A symbol out of range in a prefix makes every longer prefix fail. */
  lemma {:induction false} EscapeAllPrefixNone(cs: seq<int>, i: nat, j: nat)
    requires i <= j <= |cs| && EscapeAll(cs[..i]) == None
    ensures EscapeAll(cs[..j]) == None
    decreases j - i
  {
    if i < j {
      assert cs[..i + 1][..i] == cs[..i];
      EscapeAllPrefixNone(cs, i + 1, j);
    }
  }

  /** `_format_label` computed as the source does, on the sorted symbols. */
  method FormatLabelLoop(sym: LabelSymbols, w: real, alphabet: set<int>, round2: real -> string, round3: real -> string)
    returns (r: Result<string, string>)
    ensures r == FormatLabel(sym, w, alphabet, round2, round3)
  {
    match sym {
      case One(c) =>
        return Success(IntToString(c) + " " + round2(w));
      case Many(syms) =>
        if (set i | i in syms) == alphabet {
          return Success("^[] " + round3(w));
        }
        var body := FormatSymbols(Sort(syms));
        if body.None? {
          return Failure(ChrRange);
        }
        return Success("[" + body.value + "] " + round3(w));
    }
  }

  lemma EscapeCodeNoQuote(c: nat)
    ensures '"' !in EscapeCode(c)
  {
    HexHasNoQuote(c);
  }

  lemma {:induction false} EscapeAllNoQuote(cs: seq<int>)
    ensures EscapeAll(cs).Some? ==> '"' !in EscapeAll(cs).value
  {
    if cs != [] {
      EscapeAllNoQuote(cs[..|cs| - 1]);
      if cs[|cs| - 1] >= 0 {
        EscapeCodeNoQuote(cs[|cs| - 1]);
      }
    }
  }

  /** A label never holds a double quote of its own, so the quoted DOT
      label it is written into stays well formed. */
  lemma LabelNoQuote(sym: LabelSymbols, w: real, alphabet: set<int>, round2: real -> string, round3: real -> string)
    requires forall x :: '"' !in round2(x) && '"' !in round3(x)
    ensures FormatLabel(sym, w, alphabet, round2, round3).Success? ==> '"' !in FormatLabel(sym, w, alphabet, round2, round3).value
  {
    match sym
    case One(c) =>
      var d := IntToString(c);
      assert forall i :: 0 <= i < |d| ==> d[i] != '"';
    case Many(syms) =>
      var sorted := Sort(syms);
      if |sorted| <= MaxLabelSymbols {
        EscapeAllNoQuote(sorted);
      } else {
        EscapeAllNoQuote(sorted[..MaxLabelSymbols]);
        var d := IntToString(|sorted|);
        assert forall i :: 0 <= i < |d| ==> d[i] != '"';
      }
  }

  /** Two sorted sequences with the same elements are equal. */
  lemma {:induction false} SortedUnique(a: seq<int>, b: seq<int>)
    requires IsSorted(a) && IsSorted(b) && multiset(a) == multiset(b)
    ensures a == b
    decreases |a|
  {
    if a == [] {
      assert |b| == |multiset(b)| == 0;
    } else {
      assert |b| == |multiset(b)| == |multiset(a)| == |a|;
      assert a[0] in multiset(b);
      assert b[0] in multiset(a);
      assert a[0] == b[0];
      assert a == [a[0]] + a[1..];
      assert b == [b[0]] + b[1..];
      assert multiset(a) == multiset{a[0]} + multiset(a[1..]);
      assert multiset(b) == multiset{b[0]} + multiset(b[1..]);
      forall x ensures multiset(a[1..])[x] == multiset(b[1..])[x] {
        assert multiset(a)[x] == multiset{a[0]}[x] + multiset(a[1..])[x];
        assert multiset(b)[x] == multiset{b[0]}[x] + multiset(b[1..])[x];
      }
      assert multiset(a[1..]) == multiset(b[1..]);
      SortedUnique(a[1..], b[1..]);
    }
  }

  /** The label of an aggregated edge depends only on which symbols it
      carries and how often, not on the order of the transitions. */
  lemma LabelOrderInsensitive(s1: seq<int>, s2: seq<int>, w: real, alphabet: set<int>, round2: real -> string, round3: real -> string)
    requires multiset(s1) == multiset(s2)
    ensures FormatLabel(Many(s1), w, alphabet, round2, round3) == FormatLabel(Many(s2), w, alphabet, round2, round3)
  {
    SortSpec(s1);
    SortSpec(s2);
    SortedUnique(Sort(s1), Sort(s2));
    assert forall i :: i in s1 <==> i in multiset(s1);
    assert (set i | i in s1) == (set i | i in s2);
  }
}
