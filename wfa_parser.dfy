/**
  Reading automata from text: the `.fa` line tokenizer (bare tokens end at
  white space, quoted tokens at the closing quote), the `.fa` reader and the
  line classification of the Treba reader. A file is the sequence of its
  lines; a number is read by a `parseReal` parameter standing for Python's
  `float`.
 */
module WfaParser {
  import opened Wrappers
  import opened PyBuiltins
  import opened CoreWfa
  import opened CoreWfaExport

  /** Where a token ends: the closing quote in quoted mode, white space otherwise. */
  predicate IsStop(c: char, quoted: bool) {
    if quoted then c == '"' else IsSpace(c)
  }

  /** The index of the first stop character of `s`, or `|s|`. */
  function StopAt(s: string, quoted: bool): (k: nat)
    ensures k <= |s|
    ensures forall j :: 0 <= j < k ==> !IsStop(s[j], quoted)
    ensures k < |s| ==> IsStop(s[k], quoted)
  {
    if s == [] || IsStop(s[0], quoted) then 0 else 1 + StopAt(s[1..], quoted)
  }

  /** The error `_parse_item` raises on a line that is a lone quote: its
      loop index is read without the loop having run. */
  const UnboundIndex := "local variable 'i' referenced before assignment"

  /** The first token of an already stripped line and the text after it. */
  function ItemOf(l: string): (r: Result<(string, string), string>)
    ensures r.Success? ==> |r.value.1| < |l| || r.value.1 == []
  {
    if l == [] then Success(("", ""))
    else
      var quoted := l[0] == '"';
      var body := if quoted then l[1..] else l;
      if body == [] then Failure(UnboundIndex)
      else
        var k := StopAt(body, quoted);
        Success((body[..k], if k < |body| then body[k + 1..] else ""))
  }

  /** `_parse_item`: the first token of a line and the text after it. */
  function Item(line: string): (r: Result<(string, string), string>)
    ensures r.Success? && line != [] ==> |r.value.1| < |line|
  {
    ItemOf(Strip(line))
  }

  /** `_parse_item` fails exactly on a lone quote, and a blank line is one
      empty token. */
  lemma ItemFailure(line: string)
    ensures Item(line).Failure? <==> Strip(line) == "\""
    ensures Strip(line) == [] ==> Item(line) == Success(("", ""))
  {
  }

  /** The token holds no stop character. */
  lemma ItemNoStop(line: string)
    requires Item(line).Success? && Strip(line) != []
    ensures forall j :: 0 <= j < |Item(line).value.0| ==> !IsStop(Item(line).value.0[j], Strip(line)[0] == '"')
  {
  }

  lemma TokenSplit(body: string, quoted: bool) returns (d: string)
    ensures |d| <= 1 && forall j :: 0 <= j < |d| ==> IsStop(d[j], quoted)
    ensures var k := StopAt(body, quoted); body == body[..k] + d + (if k < |body| then body[k + 1..] else "")
  {
    var k := StopAt(body, quoted);
    d := if k < |body| then [body[k]] else [];
  }

  /** A stripped line is the optional opening quote, the token, the
      delimiter `d` that ended it (if any) and the rest. */
  lemma ItemReassembles(l: string) returns (d: string)
    requires ItemOf(l).Success? && l != []
    ensures |d| <= 1 && forall j :: 0 <= j < |d| ==> IsStop(d[j], l[0] == '"')
    ensures l == (if l[0] == '"' then "\"" else "") + ItemOf(l).value.0 + d + ItemOf(l).value.1
  {
    var quoted := l[0] == '"';
    var body := if quoted then l[1..] else l;
    d := TokenSplit(body, quoted);
    var q := if quoted then "\"" else "";
    assert l == q + body;
    var name, rest := ItemOf(l).value.0, ItemOf(l).value.1;
    assert body == name + d + rest;
    ConcatAssoc(q, name, d, rest);
  }

  lemma Assoc3(a: string, b: string, c: string)
    ensures a + b + c == a + (b + c)
  {
  }

  lemma ConcatAssoc(a: string, b: string, c: string, e: string)
    ensures a + b + c + e == a + (b + c + e)
  {
  }

  /** `_parse_item`, as written: a character loop building the token. */
  method ParseItem(line: string) returns (r: Result<(string, string), string>)
    ensures r == Item(line)
  {
    var l := Strip(line);
    if |l| == 0 {
      return Success((l, ""));
    }
    var quoted := false;
    if l[0] == '"' {
      l := l[1..];
      quoted := true;
    }
    if |l| == 0 {
      return Failure(UnboundIndex);
    }
    var name := "";
    var i := 0;
    while i < |l| && !IsStop(l[i], quoted)
      invariant 0 <= i <= |l|
      invariant name == l[..i]
      invariant forall j :: 0 <= j < i ==> !IsStop(l[j], quoted)
    {
      name := name + [l[i]];
      i := i + 1;
    }
    assert i == StopAt(l, quoted);
    var rest := if i < |l| then l[i + 1..] else "";
    r := Success((name, rest));
  }

  /** `_parse_line`: the tokens of a line, in order. */
  function Items(line: string): Result<seq<string>, string>
    decreases |line|
  {
    if line == [] then Success([])
    else
      var item := Item(line);
      if item.Failure? then Failure(item.error)
      else
        var more := Items(item.value.1);
        if more.Failure? then more else Success([item.value.0] + more.value)
  }

  /** The token loop of `_parse_line`, threading the rest of the line. */
  method ParseLine(line: string) returns (r: Result<seq<string>, string>)
    ensures r == Items(line)
  {
    var items: seq<string> := [];
    var rest := line;
    while |rest| > 0
      invariant Items(line).Success? <==> Items(rest).Success?
      invariant Items(line).Success? ==> Items(line).value == items + Items(rest).value
      invariant Items(line).Failure? ==> Items(line) == Items(rest)
      decreases |rest|
    {
      var item := ParseItem(rest);
      if item.Failure? {
        return Failure(item.error);
      }
      assert Items(rest) == if Items(item.value.1).Failure? then Items(item.value.1) else Success([item.value.0] + Items(item.value.1).value);
      items := items + [item.value.0];
      rest := item.value.1;
    }
    assert Items(rest) == Success([]);
    assert items + [] == items;
    return Success(items);
  }

  /** A white-space-only line is one empty token. */
  lemma BlankLineIsOneEmptyToken(line: string)
    requires line != [] && forall j :: 0 <= j < |line| ==> IsSpace(line[j])
    ensures Items(line) == Success([""])
  {
    StripAllSpace(line);
    StrippedEmpty(line);
  }

  lemma StrippedEmpty(line: string)
    requires line != [] && Strip(line) == []
    ensures Items(line) == Success([""])
  {
    assert Item(line) == Success(("", ""));
    ItemsUnfold(line);
    assert Items("") == Success([]);
    assert [""] + [] == [""];
  }

  lemma ItemsUnfold(line: string)
    requires line != [] && Item(line).Success?
    ensures var rest := Items(Item(line).value.1);
      Items(line) == if rest.Failure? then rest else Success([Item(line).value.0] + rest.value)
  {
  }

  /** A token as a printer writes it: bare, or between double quotes. */
  datatype Token = Bare(text: string) | Quoted(text: string)

  /** A bare token is non-empty, has no white space and does not open with a
      quote; a quoted token holds no quote. */
  predicate WellFormed(t: Token) {
    match t
    case Bare(s) => s != [] && s[0] != '"' && forall j :: 0 <= j < |s| ==> !IsSpace(s[j])
    case Quoted(s) => '"' !in s
  }

  function Rendered(t: Token): string {
    match t
    case Bare(s) => s
    case Quoted(s) => "\"" + s + "\""
  }

  /** Tokens written one after another, separated by single spaces. */
  function RenderTokens(toks: seq<Token>): string
    requires toks != []
  {
    if |toks| == 1 then Rendered(toks[0]) else Rendered(toks[0]) + " " + RenderTokens(toks[1..])
  }

  function Texts(toks: seq<Token>): (r: seq<string>)
    ensures |r| == |toks| && forall i :: 0 <= i < |toks| ==> r[i] == toks[i].text
  {
    if toks == [] then [] else [toks[0].text] + Texts(toks[1..])
  }

  /** A well-formed token renders to text with no white space at its ends. */
  lemma TokenEnds(t: Token)
    requires WellFormed(t)
    ensures var r := Rendered(t); r != [] && !IsSpace(r[0]) && !IsSpace(r[|r| - 1])
  {
  }

  /** The ends of `a + " " + b` are the first of `a` and the last of `b`. */
  lemma SpacedEnds(a: string, b: string)
    requires a != [] && b != []
    ensures var r := a + " " + b; r[0] == a[0] && r[|r| - 1] == b[|b| - 1]
  {
  }

  lemma {:induction false} RenderedEnds(toks: seq<Token>)
    requires toks != [] && forall i :: 0 <= i < |toks| ==> WellFormed(toks[i])
    ensures var r := RenderTokens(toks); r != [] && !IsSpace(r[0]) && !IsSpace(r[|r| - 1])
    ensures RenderTokens(toks)[0] == Rendered(toks[0])[0]
    decreases |toks|
  {
    TokenEnds(toks[0]);
    if |toks| > 1 {
      assert forall i :: 0 <= i < |toks| - 1 ==> toks[1..][i] == toks[i + 1];
      RenderedEnds(toks[1..]);
      SpacedEnds(Rendered(toks[0]), RenderTokens(toks[1..]));
    }
  }

  /** Reading the first token of a rendered (stripped) line. */
  lemma FirstItem(t: Token, tail: string)
    requires WellFormed(t) && (tail == [] || tail[0] == ' ')
    ensures ItemOf(Rendered(t) + tail) == Success((t.text, match t case Bare(_) => (if tail == [] then "" else tail[1..]) case Quoted(_) => tail))
  {
    match t
    case Bare(s) => FirstBare(s, tail);
    case Quoted(s) => FirstQuoted(s, tail);
  }

  /** The stop position is the first stop character. */
  lemma StopAtFirst(s: string, n: nat, quoted: bool)
    requires n <= |s| && forall j :: 0 <= j < n ==> !IsStop(s[j], quoted)
    requires n < |s| ==> IsStop(s[n], quoted)
    ensures StopAt(s, quoted) == n
  {
  }

  lemma FirstBare(s: string, tail: string)
    requires WellFormed(Bare(s)) && (tail == [] || tail[0] == ' ')
    ensures ItemOf(s + tail) == Success((s, if tail == [] then "" else tail[1..]))
  {
    var l := s + tail;
    assert l[0] == s[0];
    assert forall j :: 0 <= j < |s| ==> l[j] == s[j];
    StopAtFirst(l, |s|, false);
    assert l[..|s|] == s;
    if tail != [] {
      assert l[|s| + 1..] == tail[1..];
    }
  }

  lemma FirstQuoted(s: string, tail: string)
    requires '"' !in s
    ensures ItemOf("\"" + s + "\"" + tail) == Success((s, tail))
  {
    var l := "\"" + s + "\"" + tail;
    var body := l[1..];
    assert body == s + "\"" + tail;
    assert forall j :: 0 <= j < |s| ==> body[j] == s[j];
    assert body[|s|] == '"';
    StopAtFirst(body, |s|, true);
    assert body[..|s|] == s;
    assert body[|s| + 1..] == tail;
  }

  /** A line holding one well-formed token reads back as its text. */
  lemma ItemsOfOne(t: Token, line: string)
    requires WellFormed(t) && line != [] && Strip(line) == Rendered(t)
    ensures Items(line) == Success([t.text])
  {
    assert Rendered(t) + "" == Rendered(t);
    FirstItem(t, "");
    ItemsUnfold(line);
    assert Items("") == Success([]);
    assert [t.text] + [] == [t.text];
  }

  /** A line of well-formed tokens, with any white space around it, reads
      back as the tokens' texts. */
  lemma {:induction false} ItemsOfRendered(toks: seq<Token>, line: string)
    requires toks != [] && forall i :: 0 <= i < |toks| ==> WellFormed(toks[i])
    requires Strip(line) == RenderTokens(toks)
    ensures Items(line) == Success(Texts(toks))
    decreases |toks|
  {
    RenderedEnds(toks);
    assert line != [];
    if |toks| == 1 {
      ItemsOfOne(toks[0], line);
      assert Texts(toks) == [toks[0].text];
    } else {
      var rest := RestOfRendered(toks);
      ItemsOfRendered(toks[1..], rest);
      ItemsUnfold(line);
      assert Texts(toks) == [toks[0].text] + Texts(toks[1..]);
    }
  }

  /** After the first token of a rendered line, the rest strips to the
      rendering of the remaining tokens. */
  lemma RestOfRendered(toks: seq<Token>) returns (rest: string)
    requires |toks| > 1 && forall i :: 0 <= i < |toks| ==> WellFormed(toks[i])
    ensures ItemOf(RenderTokens(toks)) == Success((toks[0].text, rest)) && Strip(rest) == RenderTokens(toks[1..])
  {
    var tail := RenderTokens(toks[1..]);
    assert tail != [] && !IsSpace(tail[0]) && !IsSpace(tail[|tail| - 1]) by {
      assert forall i :: 0 <= i < |toks| - 1 ==> toks[1..][i] == toks[i + 1];
      RenderedEnds(toks[1..]);
    }
    assert RenderTokens(toks) == Rendered(toks[0]) + (" " + tail) by {
      Assoc3(Rendered(toks[0]), " ", tail);
    }
    rest := TokenThenTail(toks[0], tail);
  }

  /** A token, a space and a non-blank tail: the token is read and the rest
      strips to the tail. */
  lemma TokenThenTail(t: Token, tail: string) returns (rest: string)
    requires WellFormed(t) && tail != [] && !IsSpace(tail[0]) && !IsSpace(tail[|tail| - 1])
    ensures ItemOf(Rendered(t) + (" " + tail)) == Success((t.text, rest)) && Strip(rest) == tail
  {
    FirstItem(t, " " + tail);
    if t.Quoted? {
      rest := " " + tail;
      StripSpacePrefix(tail);
    } else {
      rest := tail;
      assert (" " + tail)[1..] == tail;
      StripNoEdges(tail);
    }
  }

  /** What the `.fa` reader has collected so far. */
  datatype FaState = FaState(trans: seq<Transition<int, string>>, finals: map<int, real>, start: Option<int>)

  /** One line of `fa_to_wfa`: four tokens are a transition, two a final
      state (a later line for the same state wins), one the start state,
      any other count is ignored; an unreadable number raises. */
  function FaStep(st: FaState, line: string, parseReal: string -> Option<real>): Result<FaState, string> {
    match Items(line)
    case Failure(e) => Failure(e)
    case Success(items) =>
      if |items| == 4 then
        match (ParseInt(items[0]), ParseInt(items[1]), parseReal(items[3]))
        case (Some(src), Some(dest), Some(w)) => Success(st.(trans := st.trans + [Transition(src, dest, items[2], w)]))
        case _ => Failure("invalid number in a transition line")
      else if |items| == 2 then
        match (ParseInt(items[0]), parseReal(items[1]))
        case (Some(q), Some(w)) => Success(st.(finals := st.finals[q := w]))
        case _ => Failure("invalid number in a final line")
      else if |items| == 1 then
        match ParseInt(items[0])
        case Some(q) => Success(st.(start := Some(q)))
        case None => Failure("invalid start state")
      else Success(st)
  }

  /** The reader's state after a sequence of lines. */
  function FaFold(lines: seq<string>, parseReal: string -> Option<real>): Result<FaState, string> {
    if lines == [] then Success(FaState([], map[], None))
    else match FaFold(lines[..|lines| - 1], parseReal)
      case Failure(e) => Failure(e)
      case Success(st) => FaStep(st, lines[|lines| - 1], parseReal)
  }

  /** `fa_to_wfa`: the automaton a `.fa` text describes. Without a start
      line the first transition's source is the start state, and the start
      weight is always 1.0. */
  function FaRead(lines: seq<string>, parseReal: string -> Option<real>): (r: Result<Wfa<int, string>, string>)
    ensures r.Success? ==> |r.value.start| == 1 && r.value.start[0].1 == 1.0 && r.value.alphabet.None?
    ensures r.Success? ==> FaFold(lines, parseReal).Success? && r.value.transitions == FaFold(lines, parseReal).value.trans
  {
    match FaFold(lines, parseReal)
    case Failure(e) => Failure(e)
    case Success(st) =>
      if st.start.None? && st.trans == [] then Failure("list index out of range")
      else
        var q := if st.start.Some? then st.start.value else st.trans[0].src;
        Success(Wfa(st.trans, st.finals, [(q, 1.0)], None))
  }

  /** The body of the loop of `fa_to_wfa`: one line read into the state. */
  method ReadFaLine(st: FaState, line: string, parseReal: string -> Option<real>) returns (r: Result<FaState, string>)
    ensures r == FaStep(st, line, parseReal)
  {
    var items := ParseLine(line);
    if items.Failure? {
      return Failure(items.error);
    }
    var it := items.value;
    if |it| == 4 {
      var src, dest, w := ParseInt(it[0]), ParseInt(it[1]), parseReal(it[3]);
      if src.None? || dest.None? || w.None? {
        return Failure("invalid number in a transition line");
      }
      return Success(st.(trans := st.trans + [Transition(src.value, dest.value, it[2], w.value)]));
    } else if |it| == 2 {
      var q, w := ParseInt(it[0]), parseReal(it[1]);
      if q.None? || w.None? {
        return Failure("invalid number in a final line");
      }
      return Success(st.(finals := st.finals[q.value := w.value]));
    } else if |it| == 1 {
      var q := ParseInt(it[0]);
      if q.None? {
        return Failure("invalid start state");
      }
      return Success(st.(start := Some(q.value)));
    }
    return Success(st);
  }

  /** The loop of `fa_to_wfa`: the lines read one after another. */
  method ReadFaLines(lines: seq<string>, parseReal: string -> Option<real>) returns (r: Result<FaState, string>)
    ensures r == FaFold(lines, parseReal)
  {
    var st := FaState([], map[], None);
    var i := 0;
    while i < |lines|
      invariant 0 <= i <= |lines|
      invariant FaFold(lines[..i], parseReal) == Success(st)
    {
      var next := ReadFaLine(st, lines[i], parseReal);
      FoldNext(lines, i, st, parseReal);
      if next.Failure? {
        FoldFailureSticks(lines, i + 1, parseReal);
        return Failure(next.error);
      }
      st := next.value;
      i := i + 1;
    }
    assert lines[..i] == lines;
    r := Success(st);
  }

  lemma FoldNext(lines: seq<string>, i: nat, st: FaState, parseReal: string -> Option<real>)
    requires i < |lines| && FaFold(lines[..i], parseReal) == Success(st)
    ensures FaFold(lines[..i + 1], parseReal) == FaStep(st, lines[i], parseReal)
  {
    assert lines[..i + 1][..i] == lines[..i];
  }

  /** `fa_to_wfa`, as written: the lines read, then the start state chosen. */
  method FaToWfa(lines: seq<string>, parseReal: string -> Option<real>) returns (r: Result<Wfa<int, string>, string>)
    ensures r == FaRead(lines, parseReal)
  {
    var st := ReadFaLines(lines, parseReal);
    if st.Failure? {
      return Failure(st.error);
    }
    var start := st.value.start;
    if start.None? {
      if |st.value.trans| == 0 {
        return Failure("list index out of range");
      }
      start := Some(st.value.trans[0].src);
    }
    r := Success(Wfa(st.value.trans, st.value.finals, [(start.value, 1.0)], None));
  }

  /** Once a prefix of the lines fails, the whole text fails with the same error. */
  lemma {:induction false} FoldFailureSticks(lines: seq<string>, n: nat, parseReal: string -> Option<real>)
    requires n <= |lines| && FaFold(lines[..n], parseReal).Failure?
    ensures FaFold(lines, parseReal) == FaFold(lines[..n], parseReal)
    ensures FaRead(lines, parseReal) == Failure(FaFold(lines[..n], parseReal).error)
    decreases |lines| - n
  {
    if n < |lines| {
      assert lines[..n + 1][..n] == lines[..n];
      FoldFailureSticks(lines, n + 1, parseReal);
    } else {
      assert lines[..n] == lines;
    }
  }

  /** What the Treba reader has collected so far. */
  datatype TrebaState = TrebaState(trans: seq<Transition<int, int>>, finals: map<int, real>)

  const BadFormat := "Bad WFA input format."

  /** One line of `treba_to_wfa`, split at single spaces: four fields are a
      transition and two a final state, each kept only when its weight is
      positive (the integers are read only then); any other field count or
      an unreadable number raises. */
  function TrebaStep(st: TrebaState, line: string, parseReal: string -> Option<real>): Result<TrebaState, string> {
    var spl := Split(line, ' ');
    if |spl| == 4 then
      match parseReal(spl[3])
      case None => Failure(BadFormat)
      case Some(w) =>
        if w > 0.0 then
          match (ParseInt(spl[0]), ParseInt(spl[1]), ParseInt(spl[2]))
          case (Some(src), Some(dest), Some(sym)) => Success(st.(trans := st.trans + [Transition(src, dest, sym, w)]))
          case _ => Failure(BadFormat)
        else Success(st)
    else if |spl| == 2 then
      match parseReal(spl[1])
      case None => Failure(BadFormat)
      case Some(w) =>
        if w > 0.0 then
          match ParseInt(spl[0])
          case Some(q) => Success(st.(finals := st.finals[q := w]))
          case None => Failure(BadFormat)
        else Success(st)
    else Failure(BadFormat)
  }

  function TrebaFold(lines: seq<string>, parseReal: string -> Option<real>): Result<TrebaState, string> {
    if lines == [] then Success(TrebaState([], map[]))
    else match TrebaFold(lines[..|lines| - 1], parseReal)
      case Failure(e) => Failure(e)
      case Success(st) => TrebaStep(st, lines[|lines| - 1], parseReal)
  }

  /** `treba_to_wfa`: the start state is always 0 with weight 1.0. */
  function TrebaRead(lines: seq<string>, parseReal: string -> Option<real>): (r: Result<Wfa<int, int>, string>)
    ensures r.Success? ==> r.value.start == [(0, 1.0)] && r.value.alphabet.None?
  {
    match TrebaFold(lines, parseReal)
    case Failure(e) => Failure(e)
    case Success(st) => Success(Wfa(st.trans, st.finals, [(0, 1.0)], None))
  }

  /** `treba_to_wfa`, as written: a loop over the lines. */
  method TrebaToWfa(lines: seq<string>, parseReal: string -> Option<real>) returns (r: Result<Wfa<int, int>, string>)
    ensures r == TrebaRead(lines, parseReal)
  {
    var st := TrebaState([], map[]);
    var i := 0;
    while i < |lines|
      invariant 0 <= i <= |lines|
      invariant TrebaFold(lines[..i], parseReal) == Success(st)
    {
      assert lines[..i + 1][..i] == lines[..i];
      var next := TrebaStep(st, lines[i], parseReal);
      if next.Failure? {
        TrebaFailureSticks(lines, i + 1, parseReal);
        return Failure(next.error);
      }
      st := next.value;
      i := i + 1;
    }
    assert lines[..i] == lines;
    r := Success(Wfa(st.trans, st.finals, [(0, 1.0)], None));
  }

  lemma {:induction false} TrebaFailureSticks(lines: seq<string>, n: nat, parseReal: string -> Option<real>)
    requires n <= |lines| && TrebaFold(lines[..n], parseReal).Failure?
    ensures TrebaFold(lines, parseReal) == TrebaFold(lines[..n], parseReal)
    ensures TrebaRead(lines, parseReal) == Failure(TrebaFold(lines[..n], parseReal).error)
    decreases |lines| - n
  {
    if n < |lines| {
      assert lines[..n + 1][..n] == lines[..n];
      TrebaFailureSticks(lines, n + 1, parseReal);
    } else {
      assert lines[..n] == lines;
    }
  }

  predicate AllPositive(st: TrebaState) {
    (forall t :: t in st.trans ==> t.weight > 0.0) && (forall q :: q in st.finals ==> st.finals[q] > 0.0)
  }

  /** Transitions and final states of weight zero or less are dropped. */
  lemma {:induction false} TrebaKeepsPositive(lines: seq<string>, parseReal: string -> Option<real>)
    ensures TrebaFold(lines, parseReal).Success? ==> AllPositive(TrebaFold(lines, parseReal).value)
  {
    if lines != [] {
      TrebaKeepsPositive(lines[..|lines| - 1], parseReal);
    }
  }

  /** The automaton `treba_to_wfa` builds has only positive weights. */
  lemma TrebaReadPositive(lines: seq<string>, parseReal: string -> Option<real>)
    ensures TrebaRead(lines, parseReal).Success? ==>
      (forall t :: t in TrebaRead(lines, parseReal).value.transitions ==> t.weight > 0.0)
      && (forall q :: q in TrebaRead(lines, parseReal).value.finals ==> TrebaRead(lines, parseReal).value.finals[q] > 0.0)
  {
    TrebaKeepsPositive(lines, parseReal);
  }

  /** A line whose field count is neither 2 nor 4 makes the whole read fail. */
  lemma TrebaRejectsBadLine(lines: seq<string>, i: nat, parseReal: string -> Option<real>)
    requires i < |lines| && |Split(lines[i], ' ')| != 2 && |Split(lines[i], ' ')| != 4
    ensures TrebaRead(lines, parseReal).Failure?
  {
    if TrebaFold(lines[..i], parseReal).Failure? {
      TrebaFailureSticks(lines, i, parseReal);
    } else {
      assert lines[..i + 1][..i] == lines[..i];
      TrebaFailureSticks(lines, i + 1, parseReal);
    }
  }

  // ---------------------------------------------------------------------
  // Reading back what `to_fa_format` writes

  /** Python's `format` of a string symbol: the symbol itself. */
  function Verbatim(s: string): string {
    s
  }

  /** How the weights are printed and read: every printed weight is a bare
      token that reads back as the weight. */
  ghost predicate SoundReals(showReal: real -> string, parseReal: string -> Option<real>) {
    forall w :: WellFormed(Bare(showReal(w))) && parseReal(showReal(w)) == Some(w)
  }

  lemma IntTokenWellFormed(n: int)
    ensures WellFormed(Bare(IntToString(n)))
  {
    var s := IntToString(n);
    forall j | 0 <= j < |s| ensures !IsSpace(s[j]) {
      assert IsDigit(s[j]) || s[j] == '-';
    }
  }

  /** A line made of rendered tokens and a newline reads back as the tokens. */
  lemma ReadRenderedLine(toks: seq<Token>)
    requires toks != [] && forall i :: 0 <= i < |toks| ==> WellFormed(toks[i])
    ensures Items(RenderTokens(toks) + "\n") == Success(Texts(toks))
  {
    var r := RenderTokens(toks);
    RenderedEnds(toks);
    assert r != [] && !IsSpace(r[0]) && !IsSpace(r[|r| - 1]);
    StripNewline(r);
    ItemsOfRendered(toks, r + "\n");
  }

  function TransitionTokens(t: Transition<int, string>, showReal: real -> string): seq<Token> {
    [Bare(IntToString(t.src)), Bare(IntToString(t.dest)), Quoted(t.symbol), Bare(showReal(t.weight))]
  }

  lemma LineShape(a: string, b: string, sym: string, w: string)
    ensures a + " " + b + " \"" + sym + "\" " + w + "\n" == a + " " + (b + " " + ("\"" + sym + "\"" + " " + w)) + "\n"
  {
  }

  lemma TransitionLineShape(t: Transition<int, string>, showReal: real -> string)
    ensures TransitionLine(t, Verbatim, showReal) == RenderTokens(TransitionTokens(t, showReal)) + "\n"
  {
    var a, b, w := IntToString(t.src), IntToString(t.dest), showReal(t.weight);
    var toks := TransitionTokens(t, showReal);
    assert RenderTokens(toks[3..]) == w;
    assert RenderTokens(toks[2..]) == "\"" + t.symbol + "\"" + " " + w;
    assert RenderTokens(toks[1..]) == b + " " + ("\"" + t.symbol + "\"" + " " + w);
    assert RenderTokens(toks) == a + " " + (b + " " + ("\"" + t.symbol + "\"" + " " + w));
    LineShape(a, b, t.symbol, w);
  }

  lemma ReadTransitionLine(t: Transition<int, string>, showReal: real -> string, parseReal: string -> Option<real>)
    requires SoundReals(showReal, parseReal) && '"' !in t.symbol
    ensures Items(TransitionLine(t, Verbatim, showReal)) == Success([IntToString(t.src), IntToString(t.dest), t.symbol, showReal(t.weight)])
  {
    var toks := TransitionTokens(t, showReal);
    IntTokenWellFormed(t.src);
    IntTokenWellFormed(t.dest);
    assert WellFormed(toks[3]);
    TransitionLineShape(t, showReal);
    ReadRenderedLine(toks);
    assert Texts(toks) == [IntToString(t.src), IntToString(t.dest), t.symbol, showReal(t.weight)];
  }

  /** A transition line adds its transition to the reader's state. */
  lemma TransitionStep(st: FaState, t: Transition<int, string>, showReal: real -> string, parseReal: string -> Option<real>)
    requires SoundReals(showReal, parseReal) && '"' !in t.symbol
    ensures FaStep(st, TransitionLine(t, Verbatim, showReal), parseReal) == Success(st.(trans := st.trans + [t]))
  {
    var line := TransitionLine(t, Verbatim, showReal);
    ReadTransitionLine(t, showReal, parseReal);
    IntRoundTrip(t.src);
    IntRoundTrip(t.dest);
    FourItemsStep(st, line, [IntToString(t.src), IntToString(t.dest), t.symbol, showReal(t.weight)], t, parseReal);
  }

  /** A line of four readable items appends a transition. */
  lemma FourItemsStep(st: FaState, line: string, items: seq<string>, t: Transition<int, string>, parseReal: string -> Option<real>)
    requires Items(line) == Success(items) && |items| == 4
    requires ParseInt(items[0]) == Some(t.src) && ParseInt(items[1]) == Some(t.dest)
    requires items[2] == t.symbol && parseReal(items[3]) == Some(t.weight)
    ensures FaStep(st, line, parseReal) == Success(st.(trans := st.trans + [t]))
  {
  }

  /** A line of two readable items sets a final weight. */
  lemma TwoItemsStep(st: FaState, line: string, items: seq<string>, q: int, w: real, parseReal: string -> Option<real>)
    requires Items(line) == Success(items) && |items| == 2
    requires ParseInt(items[0]) == Some(q) && parseReal(items[1]) == Some(w)
    ensures FaStep(st, line, parseReal) == Success(st.(finals := st.finals[q := w]))
  {
  }

  /** A final line sets the weight of its state. */
  lemma FinalStep(st: FaState, q: int, w: real, showReal: real -> string, parseReal: string -> Option<real>)
    requires SoundReals(showReal, parseReal)
    ensures FaStep(st, FinalLine(q, w, showReal), parseReal) == Success(st.(finals := st.finals[q := w]))
  {
    ReadFinalLine(q, w, showReal, parseReal);
    IntRoundTrip(q);
    TwoItemsStep(st, FinalLine(q, w, showReal), [IntToString(q), showReal(w)], q, w, parseReal);
  }

  lemma ReadFinalLine(q: int, w: real, showReal: real -> string, parseReal: string -> Option<real>)
    requires SoundReals(showReal, parseReal)
    ensures Items(FinalLine(q, w, showReal)) == Success([IntToString(q), showReal(w)])
  {
    var toks := [Bare(IntToString(q)), Bare(showReal(w))];
    IntTokenWellFormed(q);
    assert RenderTokens(toks[1..]) == showReal(w);
    assert FinalLine(q, w, showReal) == RenderTokens(toks) + "\n";
    ReadRenderedLine(toks);
    assert Texts(toks) == [IntToString(q), showReal(w)];
  }

  lemma ReadStartLine(q: int)
    ensures Items(StartLine(q)) == Success([IntToString(q)])
  {
    var toks := [Bare(IntToString(q))];
    IntTokenWellFormed(q);
    ReadRenderedLine(toks);
    assert Texts(toks) == [IntToString(q)];
  }

  /** A line whose step is known extends a known fold. */
  lemma FoldStep(front: seq<string>, st: FaState, line: string, st2: FaState, parseReal: string -> Option<real>)
    requires FaFold(front, parseReal) == Success(st) && FaStep(st, line, parseReal) == Success(st2)
    ensures FaFold(front + [line], parseReal) == Success(st2)
  {
    FoldSnoc(front, line, parseReal);
  }

  lemma FoldSnoc(lines: seq<string>, line: string, parseReal: string -> Option<real>)
    ensures FaFold(lines + [line], parseReal) == match FaFold(lines, parseReal) case Failure(e) => Failure(e) case Success(st) => FaStep(st, line, parseReal)
  {
    assert (lines + [line])[..|lines|] == lines;
  }

  /** Folding lines whose steps are known, one state after another. */
  lemma {:induction false} FoldKnown(pre: seq<string>, lines: seq<string>, states: seq<FaState>, parseReal: string -> Option<real>)
    requires |states| == |lines| + 1 && FaFold(pre, parseReal) == Success(states[0])
    requires forall i :: 0 <= i < |lines| ==> FaStep(states[i], lines[i], parseReal) == Success(states[i + 1])
    ensures FaFold(pre + lines, parseReal) == Success(states[|lines|])
    decreases |lines|
  {
    if lines == [] {
      assert pre + lines == pre;
    } else {
      var n := |lines|;
      FoldKnown(pre, lines[..n - 1], states[..n], parseReal);
      FoldStep(pre + lines[..n - 1], states[n - 1], lines[n - 1], states[n], parseReal);
      PrefixSnoc(pre, lines, n - 1);
      assert lines[..n] == lines;
    }
  }

  lemma FoldTransitionLines(pre: seq<string>, st: FaState, ts: seq<Transition<int, string>>,
                            showReal: real -> string, parseReal: string -> Option<real>)
    requires SoundReals(showReal, parseReal) && forall i :: 0 <= i < |ts| ==> '"' !in ts[i].symbol
    requires FaFold(pre, parseReal) == Success(st)
    ensures FaFold(pre + TransitionLines(ts, Verbatim, showReal), parseReal) == Success(st.(trans := st.trans + ts))
  {
    var lines := TransitionLines(ts, Verbatim, showReal);
    var states := seq(|ts| + 1, i requires 0 <= i <= |ts| => st.(trans := st.trans + ts[..i]));
    assert st.trans + ts[..0] == st.trans;
    forall i | 0 <= i < |lines| ensures FaStep(states[i], lines[i], parseReal) == Success(states[i + 1]) {
      PrefixSnoc(st.trans, ts, i);
      TransitionStep(states[i], ts[i], showReal, parseReal);
    }
    FoldKnown(pre, lines, states, parseReal);
    assert ts[..|ts|] == ts;
  }

  /** The final weights of the states in `order`. */
  function FinalsOf(order: seq<int>, finals: map<int, real>): map<int, real>
    requires forall q :: q in order ==> q in finals
  {
    map q | q in order :: finals[q]
  }

  lemma FinalsOfSnoc(order: seq<int>, finals: map<int, real>, i: nat)
    requires i < |order| && forall j :: 0 <= j < |order| ==> order[j] in finals
    ensures FinalsOf(order[..i], finals)[order[i] := finals[order[i]]] == FinalsOf(order[..i + 1], finals)
  {
    assert order[..i + 1] == order[..i] + [order[i]];
  }

  lemma FinalStepAt(st: FaState, order: seq<int>, finals: map<int, real>, i: nat,
                    showReal: real -> string, parseReal: string -> Option<real>)
    requires SoundReals(showReal, parseReal) && i < |order| && forall j :: 0 <= j < |order| ==> order[j] in finals
    ensures FaStep(st.(finals := FinalsOf(order[..i], finals)), FinalLine(order[i], finals[order[i]], showReal), parseReal)
         == Success(st.(finals := FinalsOf(order[..i + 1], finals)))
  {
    FinalStep(st.(finals := FinalsOf(order[..i], finals)), order[i], finals[order[i]], showReal, parseReal);
    FinalsOfSnoc(order, finals, i);
  }

  lemma FoldFinalLines(pre: seq<string>, st: FaState, order: seq<int>, finals: map<int, real>,
                       showReal: real -> string, parseReal: string -> Option<real>)
    requires SoundReals(showReal, parseReal) && forall i :: 0 <= i < |order| ==> order[i] in finals
    requires FaFold(pre, parseReal) == Success(st) && st.finals == map[]
    ensures FaFold(pre + FinalLines(order, finals, showReal), parseReal) == Success(st.(finals := FinalsOf(order, finals)))
  {
    var lines := FinalLines(order, finals, showReal);
    var states := seq(|order| + 1, i requires 0 <= i <= |order| => st.(finals := FinalsOf(order[..i], finals)));
    assert FinalsOf(order[..0], finals) == map[];
    forall i | 0 <= i < |lines| ensures FaStep(states[i], lines[i], parseReal) == Success(states[i + 1]) {
      FinalStepAt(st, order, finals, i, showReal, parseReal);
    }
    FoldKnown(pre, lines, states, parseReal);
    assert order[..|order|] == order;
  }

  /** The start line alone sets the start state. */
  lemma FoldStartLine(q: int, parseReal: string -> Option<real>)
    ensures FaFold([StartLine(q)], parseReal) == Success(FaState([], map[], Some(q)))
  {
    FoldSnoc([], StartLine(q), parseReal);
    assert [] + [StartLine(q)] == [StartLine(q)];
    ReadStartLine(q);
    IntRoundTrip(q);
  }

  /** The start line and the transition lines fold to the start state and
      the transitions. */
  lemma FoldHeadTransitions(a: Wfa<int, string>, hexSym: string -> string,
                            showReal: real -> string, parseReal: string -> Option<real>)
    requires |a.start| == 1 && forall t :: t in a.transitions ==> '"' !in t.symbol
    requires SoundReals(showReal, parseReal)
    ensures FaFold(Header(a, true, false, [], hexSym) + TransitionLines(a.transitions, Verbatim, showReal), parseReal)
      == Success(FaState(a.transitions, map[], Some(a.start[0].0)))
  {
    var q := a.start[0].0;
    assert Header(a, true, false, [], hexSym) == [StartLine(q)];
    FoldStartLine(q, parseReal);
    FoldTransitionLines([StartLine(q)], FaState([], map[], Some(q)), a.transitions, showReal, parseReal);
    assert [] + a.transitions == a.transitions;
  }

  /** Listing every final state once gives back the final map. */
  lemma FinalsOfAll(order: seq<int>, finals: map<int, real>)
    requires Enumerates(order, finals.Keys)
    ensures FinalsOf(order, finals) == finals
  {
  }

  /** The lines of `to_fa_format(initial=True)` fold to the automaton's
      transitions, final weights and start state. */
  lemma FoldFaText(a: Wfa<int, string>, order: seq<int>, hexSym: string -> string,
                   showReal: real -> string, parseReal: string -> Option<real>)
    requires |a.start| == 1 && Enumerates(order, a.finals.Keys)
    requires forall t :: t in a.transitions ==> '"' !in t.symbol
    requires SoundReals(showReal, parseReal)
    ensures FaFold(FaText(a, true, false, [], order, Verbatim, showReal, hexSym), parseReal)
      == Success(FaState(a.transitions, a.finals, Some(a.start[0].0)))
  {
    var mid := Header(a, true, false, [], hexSym) + TransitionLines(a.transitions, Verbatim, showReal);
    var st1 := FaState(a.transitions, map[], Some(a.start[0].0));
    FoldHeadTransitions(a, hexSym, showReal, parseReal);
    FoldFinalLines(mid, st1, order, a.finals, showReal, parseReal);
    FinalsOfAll(order, a.finals);
  }

  /** Reading back what `to_fa_format(initial=True)` writes for an automaton
      with string symbols free of `"`: the same transitions, in order, and
      the same final weights, whatever the order of the final lines; the
      start state comes back with weight 1.0. */
  lemma FaRoundTrip(a: Wfa<int, string>, order: seq<int>, hexSym: string -> string,
                    showReal: real -> string, parseReal: string -> Option<real>)
    requires |a.start| == 1 && Enumerates(order, a.finals.Keys)
    requires forall t :: t in a.transitions ==> '"' !in t.symbol
    requires SoundReals(showReal, parseReal)
    ensures FaRead(FaText(a, true, false, [], order, Verbatim, showReal, hexSym), parseReal)
      == Success(Wfa(a.transitions, a.finals, [(a.start[0].0, 1.0)], None))
  {
    FoldFaText(a, order, hexSym, showReal, parseReal);
  }
}
