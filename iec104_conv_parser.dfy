/**
  Reading conversations that are already divided into lines: each line's
  `Data` field lists the messages of one conversation as comma-separated
  `<asduType.cot>` pieces.
 */
module Iec104ConvParser {
  import opened Wrappers
  import opened PyBuiltins

  /** One input row; only its `Data` field is read, which may be missing. */
  datatype Row = Row(data: Option<string>)

  /** A parsed message: the two digit strings of `<a.b>`. */
  type Pair = (string, string)

  /** The error raised when a piece does not start with `<digits.digits>`:
      `re.match` gives `None`, whose `group` does not exist. */
  const NoMatch := "'NoneType' object has no attribute 'group'"

  /** The number of ASCII digits at the start of `s`. */
  function DigitRun(s: string): (n: nat)
    ensures n <= |s| && (forall i :: 0 <= i < n ==> IsDigit(s[i])) && (n < |s| ==> !IsDigit(s[n]))
  {
    if s != [] && IsDigit(s[0]) then
      var n := 1 + DigitRun(s[1..]);
      assert forall i :: 1 <= i < n ==> s[i] == s[1..][i - 1];
      n
    else 0
  }

  /** A non-empty digit run followed by `c`: the digits and what follows `c`. */
  function DigitsThen(s: string, c: char): Option<(string, string)> {
    var n := DigitRun(s);
    if n == 0 || n == |s| || s[n] != c then None else Some((s[..n], s[n + 1..]))
  }

  /** `re.match(r"\<([0-9]+)\.([0-9]+)\>", it)`: the two groups of a match
      at the start of the piece. The digit runs are greedy, and a `.` or `>`
      is not a digit, so there is no other way to match. */
  function MatchPair(it: string): Option<Pair> {
    if it == [] || it[0] != '<' then None
    else match DigitsThen(it[1..], '.')
      case None => None
      case Some((a, rest)) =>
        match DigitsThen(rest, '>')
        case None => None
        case Some((b, _)) => Some((a, b))
  }

  /** The pairs of the pieces, in order; the first unmatched piece fails. */
  function PairsOf(pieces: seq<string>): Result<seq<Pair>, string> {
    if pieces == [] then Success([])
    else match PairsOf(pieces[..|pieces| - 1])
      case Failure(e) => Failure(e)
      case Success(front) =>
        match MatchPair(pieces[|pieces| - 1])
        case None => Failure(NoMatch)
        case Some(p) => Success(front + [p])
  }

  /** `parse_data`: one pair per comma-separated piece. */
  method ParseData(data: string) returns (r: Result<seq<Pair>, string>)
    ensures r == PairsOf(Split(data, ','))
  {
    var ret: seq<Pair> := [];
    var lst := Split(data, ',');
    for i := 0 to |lst|
      invariant PairsOf(lst[..i]) == Success(ret)
    {
      assert lst[..i + 1][..i] == lst[..i];
      var m := MatchPair(lst[i]);
      if m.None? {
        PairsFailureSticks(lst, i + 1);
        return Failure(NoMatch);
      }
      ret := ret + [m.value];
    }
    assert lst[..|lst|] == lst;
    return Success(ret);
  }

  lemma {:induction false} PairsFailureSticks(pieces: seq<string>, n: nat)
    requires n <= |pieces| && PairsOf(pieces[..n]).Failure?
    ensures PairsOf(pieces) == PairsOf(pieces[..n])
    decreases |pieces| - n
  {
    if n < |pieces| {
      assert pieces[..n + 1][..n] == pieces[..n];
      PairsFailureSticks(pieces, n + 1);
    } else {
      assert pieces[..n] == pieces;
    }
  }

  /** Parsing succeeds exactly when every piece matches. */
  lemma {:induction false} PairsOfSucceeds(pieces: seq<string>)
    ensures PairsOf(pieces).Success? <==> forall i :: 0 <= i < |pieces| ==> MatchPair(pieces[i]).Some?
  {
    if pieces != [] {
      var front := pieces[..|pieces| - 1];
      PairsOfSucceeds(front);
      assert forall i :: 0 <= i < |front| ==> front[i] == pieces[i];
    }
  }

  /** A successful parse yields one pair per piece, in order. */
  lemma {:induction false} PairsOfValues(pieces: seq<string>)
    requires PairsOf(pieces).Success?
    ensures |PairsOf(pieces).value| == |pieces|
    ensures forall i :: 0 <= i < |pieces| ==> MatchPair(pieces[i]).Some? && PairsOf(pieces).value[i] == MatchPair(pieces[i]).value
  {
    PairsOfSucceeds(pieces);
    if pieces != [] {
      var front := pieces[..|pieces| - 1];
      PairsOfValues(front);
      var v, f := PairsOf(pieces).value, PairsOf(front).value;
      assert v == f + [MatchPair(pieces[|pieces| - 1]).value];
      assert forall i :: 0 <= i < |front| ==> front[i] == pieces[i];
    }
  }

  /** How a message is written: `<a.b>`. */
  function PairText(p: Pair): string {
    "<" + p.0 + "." + p.1 + ">"
  }

  predicate DigitPair(p: Pair) {
    p.0 != [] && p.1 != [] && AllDigits(p.0) && AllDigits(p.1)
  }

  /** A digit run stops at the first non-digit after it. */
  lemma DigitRunOf(d: string, tail: string)
    requires AllDigits(d) && (tail != [] ==> !IsDigit(tail[0]))
    ensures DigitRun(d + tail) == |d|
  {
    var s := d + tail;
    assert forall i :: 0 <= i < |d| ==> s[i] == d[i];
    if tail != [] {
      assert s[|d|] == tail[0];
    }
  }

  /** A digit string followed by `c` is read as that string and the rest. */
  lemma DigitsThenOf(d: string, c: char, tail: string)
    requires d != [] && AllDigits(d) && !IsDigit(c)
    ensures DigitsThen(d + [c] + tail, c) == Some((d, tail))
  {
    var s := d + [c] + tail;
    assert s == d + ([c] + tail);
    DigitRunOf(d, [c] + tail);
    assert s[..|d|] == d && s[|d| + 1..] == tail;
  }

  /** The match reads a written message back, whatever follows it: text after
      the `>` is ignored. */
  lemma MatchPairText(p: Pair, tail: string)
    requires DigitPair(p)
    ensures MatchPair(PairText(p) + tail) == Some(p)
  {
    var rest := p.1 + ">" + tail;
    var it := PairText(p) + tail;
    assert it[1..] == p.0 + "." + rest;
    DigitsThenOf(p.0, '.', rest);
    DigitsThenOf(p.1, '>', tail);
  }

  /** A written message holds no comma. */
  lemma PairTextNoComma(p: Pair)
    requires DigitPair(p)
    ensures ',' !in PairText(p)
  {
    var t := PairText(p);
    forall i | 0 <= i < |t|
      ensures t[i] != ','
    {
      if 1 <= i < 1 + |p.0| {
        assert t[i] == p.0[i - 1];
      } else if 2 + |p.0| <= i < 2 + |p.0| + |p.1| {
        assert t[i] == p.1[i - 2 - |p.0|];
      }
    }
  }

  function Texts(ps: seq<Pair>): (r: seq<string>)
    ensures |r| == |ps| && forall i :: 0 <= i < |ps| ==> r[i] == PairText(ps[i])
  {
    if ps == [] then [] else [PairText(ps[0])] + Texts(ps[1..])
  }

  /** Each written message is free of commas and reads back as itself. */
  lemma TextsParse(ps: seq<Pair>)
    requires forall i :: 0 <= i < |ps| ==> DigitPair(ps[i])
    ensures forall i :: 0 <= i < |ps| ==> ',' !in Texts(ps)[i] && MatchPair(Texts(ps)[i]) == Some(ps[i])
  {
    forall i | 0 <= i < |ps|
      ensures ',' !in PairText(ps[i]) && MatchPair(PairText(ps[i])) == Some(ps[i])
    {
      PairTextNoComma(ps[i]);
      MatchPairText(ps[i], []);
      assert PairText(ps[i]) + [] == PairText(ps[i]);
    }
  }

  /** Parsing the written pieces gives the messages back. */
  lemma PairsOfTexts(ps: seq<Pair>)
    requires forall i :: 0 <= i < |ps| ==> DigitPair(ps[i])
    ensures PairsOf(Texts(ps)) == Success(ps)
  {
    var texts := Texts(ps);
    TextsParse(ps);
    PairsOfSucceeds(texts);
    PairsOfValues(texts);
    var r := PairsOf(texts).value;
    assert r == ps;
  }

  /** Writing messages as comma-separated `<a.b>` pieces and parsing the
      line gives the messages back. */
  lemma ParseDataRoundTrip(ps: seq<Pair>)
    requires ps != [] && forall i :: 0 <= i < |ps| ==> DigitPair(ps[i])
    ensures PairsOf(Split(Join(Texts(ps), ','), ',')) == Success(ps)
  {
    var texts := Texts(ps);
    assert forall i :: 0 <= i < |texts| ==> ',' !in texts[i] by {
      TextsParse(ps);
    }
    JoinSplit(texts, ',');
    PairsOfTexts(ps);
  }

  /** A piece that does not start with a message makes parsing fail. */
  lemma BadPieceFails(pieces: seq<string>, i: nat)
    requires i < |pieces| && MatchPair(pieces[i]).None?
    ensures PairsOf(pieces).Failure?
  {
    PairsOfSucceeds(pieces);
  }

  predicate HasData(row: Row) {
    row.data.Some? && row.data.value != []
  }

  /** The conversations of the rows, one per row with non-empty `Data`; the
      first row that does not parse raises. */
  function ConvsOf(rows: seq<Row>): Result<seq<seq<Pair>>, string> {
    if rows == [] then Success([])
    else match ConvsOf(rows[..|rows| - 1])
      case Failure(e) => Failure(e)
      case Success(front) =>
        var row := rows[|rows| - 1];
        if !HasData(row) then Success(front)
        else match PairsOf(Split(row.data.value, ','))
          case Failure(e) => Failure(e)
          case Success(c) => Success(front + [c])
  }

  /** The first row at or after `i` with non-empty `Data`, or `|rows|`. */
  function NextData(rows: seq<Row>, i: nat): (j: nat)
    requires i <= |rows|
    ensures i <= j <= |rows| && (j < |rows| ==> HasData(rows[j]))
    ensures forall k :: i <= k < j ==> !HasData(rows[k])
    decreases |rows| - i
  {
    if i == |rows| || HasData(rows[i]) then i else NextData(rows, i + 1)
  }

  /** Rows without data add no conversation. */
  lemma {:induction false} SkipEmpty(rows: seq<Row>, i: nat, j: nat)
    requires i <= j <= |rows| && forall k :: i <= k < j ==> !HasData(rows[k])
    ensures ConvsOf(rows[..j]) == ConvsOf(rows[..i])
    decreases j - i
  {
    if i < j {
      SkipEmpty(rows, i, j - 1);
      assert rows[..j][..j - 1] == rows[..j - 1];
    }
  }

  lemma {:induction false} ConvsFailureSticks(rows: seq<Row>, n: nat)
    requires n <= |rows| && ConvsOf(rows[..n]).Failure?
    ensures ConvsOf(rows) == ConvsOf(rows[..n])
    decreases |rows| - n
  {
    if n < |rows| {
      assert rows[..n + 1][..n] == rows[..n];
      ConvsFailureSticks(rows, n + 1);
    } else {
      assert rows[..n] == rows;
    }
  }

  /** Every row with non-empty `Data` gives exactly one conversation. */
  lemma {:induction false} OneConversationPerRow(rows: seq<Row>)
    ensures ConvsOf(rows).Success? ==> |ConvsOf(rows).value| == |set k | 0 <= k < |rows| && HasData(rows[k])|
  {
    if rows != [] {
      var front := rows[..|rows| - 1];
      OneConversationPerRow(front);
      var n := |rows| - 1;
      var before := set k | 0 <= k < n && HasData(rows[k]);
      var after := set k | 0 <= k < |rows| && HasData(rows[k]);
      assert before == set k | 0 <= k < |front| && HasData(front[k]) by {
        forall k | 0 <= k < n ensures front[k] == rows[k] { }
      }
      if HasData(rows[n]) {
        assert after == before + {n};
      } else {
        assert after == before;
      }
    }
  }

  class Iec104ConvParser {
    /** The input rows. */
    const input: seq<Row>
    /** The next row to read. */
    var index: nat
    var conversations: seq<seq<Pair>>

    ghost predicate Valid()
      reads this
    {
      index <= |input|
    }

    constructor(inp: seq<Row>)
      ensures input == inp && index == 0 && conversations == [] && Valid()
    {
      input := inp;
      index := 0;
      conversations := [];
    }

    /** `get_line`: the next row, or `IndexError` (here `None`) at the end. */
    method GetLine() returns (r: Option<Row>)
      requires Valid()
      modifies this
      ensures Valid() && conversations == old(conversations)
      ensures old(index) == |input| ==> r.None? && index == old(index)
      ensures old(index) < |input| ==> r == Some(input[old(index)]) && index == old(index) + 1
    {
      if index >= |input| {
        return None;
      }
      index := index + 1;
      return Some(input[index - 1]);
    }

    /** `get_conversation`: skips rows without data; `None` at the end of
        the input. */
    method GetConversation() returns (r: Result<Option<seq<Pair>>, string>)
      requires Valid()
      modifies this
      ensures Valid() && conversations == old(conversations)
      ensures var j := NextData(input, old(index));
        && (j == |input| ==> r == Success(None) && index == |input|)
        && (j < |input| ==> index == j + 1 && r == (match PairsOf(Split(input[j].data.value, ','))
                                                   case Failure(e) => Failure(e)
                                                   case Success(c) => Success(Some(c))))
    {
      var ln := GetLine();
      while ln.Some? && !HasData(ln.value)
        invariant Valid() && conversations == old(conversations) && old(index) <= index
        invariant NextData(input, old(index)) == NextData(input, if ln.Some? then index - 1 else index)
        invariant ln.Some? ==> index >= 1 && ln.value == input[index - 1]
        invariant ln.None? ==> index == |input|
        decreases |input| - index, ln.Some?
      {
        ln := GetLine();
      }
      if ln.None? {
        return Success(None);
      }
      var conv := ParseData(ln.value.data.value);
      if conv.Failure? {
        return Failure(conv.error);
      }
      return Success(Some(conv.value));
    }

    /** `parse_conversations`: the index is reset first, so the result does
        not depend on earlier calls. */
    method ParseConversations() returns (r: Result<(), string>)
      requires Valid()
      modifies this
      ensures Valid()
      ensures r.Success? <==> ConvsOf(input).Success?
      ensures r.Success? ==> conversations == ConvsOf(input).value && index == |input|
    {
      index := 0;
      conversations := [];
      while true
        invariant Valid() && ConvsOf(input[..index]) == Success(conversations)
        decreases |input| - index
      {
        ghost var i := index;
        var conv := GetConversation();
        ghost var j := NextData(input, i);
        SkipEmpty(input, i, j);
        if conv.Failure? {
          assert input[..j + 1][..j] == input[..j];
          ConvsFailureSticks(input, j + 1);
          return Failure(conv.error);
        }
        if conv.value.None? {
          assert input[..index] == input;
          return Success(());
        }
        assert input[..j + 1][..j] == input[..j];
        conversations := conversations + [conv.value.value];
      }
    }
  }
}
