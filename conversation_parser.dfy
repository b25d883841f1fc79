/**
  Splitting a stream of IEC 104 messages into conversations by the message
  types and causes of transmission, with the helpers that cut CSV rows into
  conversations and number the values that occur.
 */
module ConversationParser {
  import opened Wrappers

  /** A message row: its ASDU type, its cause of transmission and its frame
      format. The format is `None` when the field is the empty string and
      otherwise the field read as a hexadecimal number. */
  datatype Row = Row(asduType: int, cot: int, fmt: Option<nat>)

  /** `is_inform_message`: an I-format frame (format 0). */
  predicate IsInform(row: Row) {
    row.fmt == Some(0)
  }

  /** `is_initial_message`: 1 when an activation (type 120) follows a type
      122 message, so both start the next conversation; 0 otherwise. */
  function IsInitial(conv: seq<Row>, row: Row): (ini: nat)
    ensures ini <= 1
    ensures ini == 1 <==> conv != [] && row.asduType == 120 && conv[|conv| - 1].asduType == 122
  {
    if conv == [] then 0
    else if row.asduType == 120 && conv[|conv| - 1].asduType == 122 then 1
    else 0
  }

  /** `is_strict_initial_message`: 0 for an activation (cause 6), -1 otherwise. */
  function IsStrictInitial(row: Row): (r: int)
    ensures r == 0 <==> row.cot == 6
    ensures r == 0 || r == -1
  {
    if row.cot == 6 then 0 else -1
  }

  /** `is_spontaneous`: cause of transmission 3. */
  predicate IsSpontaneous(row: Row) {
    row.cot == 3
  }

  /** `is_block_final_message`: the last four types are 123, 124, 123, 124. */
  predicate IsBlockFinal(buffer: seq<Row>) {
    && |buffer| >= 4
    && buffer[|buffer| - 4].asduType == 123 && buffer[|buffer| - 3].asduType == 124
    && buffer[|buffer| - 2].asduType == 123 && buffer[|buffer| - 1].asduType == 124
  }

  /** `is_single_final_message`: end of initialisation (type 70) or
      activation termination (cause 10). */
  predicate IsSingleFinal(row: Row) {
    row.asduType == 70 || row.cot == 10
  }

  /** The three answers of `is_final_message`: `True`, `False` and `None`. */
  datatype Finality = Final | NotFinal | SetAside

  /** `is_final_message`: a final message ends the conversation; a
      spontaneous message ends an empty one and is set aside otherwise. */
  function IsFinal(conv: seq<Row>, row: Row): (f: Finality)
    ensures f == Final <==> IsSingleFinal(row) || IsBlockFinal(conv + [row]) || (IsSpontaneous(row) && conv == [])
    ensures f == SetAside <==> !IsSingleFinal(row) && !IsBlockFinal(conv + [row]) && IsSpontaneous(row) && conv != []
  {
    if IsSingleFinal(row) then Final
    else if IsBlockFinal(conv + [row]) then Final
    else if IsSpontaneous(row) && conv == [] then Final
    else if IsSpontaneous(row) then SetAside
    else NotFinal
  }

  /** Where the loop of `get_conversation` stands: the conversation so far,
      the messages set aside and the input not yet read. */
  datatype Scan = Scan(conv: seq<Row>, buff: seq<Row>, input: seq<Row>)

  /** The loop of `get_conversation` from a given state to the state it
      breaks in. */
  function Run(s: Scan): Scan
    decreases |s.input|
  {
    if s.input == [] then s
    else
      var row, rest := s.input[0], s.input[1..];
      if !IsInform(row) then Run(Scan(s.conv, s.buff, rest))
      else if IsStrictInitial(row) == 0 && |s.conv| > 0 then s
      else match IsFinal(s.conv, row)
        case Final => Scan(s.conv + [row], s.buff, rest)
        case SetAside => Run(Scan(s.conv, s.buff + [row], rest))
        case NotFinal =>
          var ini := IsInitial(s.conv, row);
          if ini != 0 && |s.conv| > ini then
            Scan(s.conv[..|s.conv| - ini], s.buff, s.conv[|s.conv| - ini..] + [row] + rest)
          else Run(Scan(s.conv + [row], s.buff, rest))
  }

  /** What `get_conversation` returns, and the input it leaves: the messages
      set aside go back in front of the input. */
  function NextConversation(input: seq<Row>): (Option<seq<Row>>, seq<Row>) {
    if input == [] then (None, input)
    else
      var e := Run(Scan([], [], input));
      if e.conv == [] && e.buff == [] then (None, e.input)
      else (Some(e.conv), e.buff + e.input)
  }

  /** Messages that are not I-format frames are popped and dropped. */
  lemma {:induction false} SkipNonInform(s: Scan)
    requires forall i :: 0 <= i < |s.input| ==> !IsInform(s.input[i])
    ensures Run(s) == s.(input := [])
    decreases |s.input|
  {
    if s.input != [] {
      SkipNonInform(s.(input := s.input[1..]));
    }
  }

  /** A conversation that has a message keeps one: pushing back the
      activation pair needs at least two messages. */
  lemma {:induction false} ConvStaysNonEmpty(s: Scan)
    requires s.conv != []
    ensures Run(s).conv != []
    decreases |s.input|
  {
    if s.input != [] {
      var row, rest := s.input[0], s.input[1..];
      if !IsInform(row) {
        ConvStaysNonEmpty(s.(input := rest));
      } else if !(IsStrictInitial(row) == 0 && |s.conv| > 0) {
        match IsFinal(s.conv, row)
        case Final =>
        case SetAside => ConvStaysNonEmpty(Scan(s.conv, s.buff + [row], rest));
        case NotFinal =>
          var ini := IsInitial(s.conv, row);
          if !(ini != 0 && |s.conv| > ini) {
            ConvStaysNonEmpty(Scan(s.conv + [row], s.buff, rest));
          }
      }
    }
  }

  /** The messages of a scan state: those of the conversation are I-format,
      those set aside are spontaneous I-format messages, and a message is set
      aside only once the conversation has one. */
  ghost predicate Sound(s: Scan) {
    && (forall i :: 0 <= i < |s.conv| ==> IsInform(s.conv[i]))
    && (forall i :: 0 <= i < |s.buff| ==> IsInform(s.buff[i]) && IsSpontaneous(s.buff[i]))
    && (s.buff != [] ==> s.conv != [])
  }

  /** The loop keeps its state sound. */
  lemma {:induction false} RunKeepsSound(s: Scan)
    requires Sound(s)
    ensures Sound(Run(s))
    decreases |s.input|
  {
    if s.input != [] {
      var row, rest := s.input[0], s.input[1..];
      if !IsInform(row) {
        RunKeepsSound(s.(input := rest));
      } else if !(IsStrictInitial(row) == 0 && |s.conv| > 0) {
        match IsFinal(s.conv, row)
        case Final =>
        case SetAside => RunKeepsSound(Scan(s.conv, s.buff + [row], rest));
        case NotFinal =>
          var ini := IsInitial(s.conv, row);
          if !(ini != 0 && |s.conv| > ini) {
            RunKeepsSound(Scan(s.conv + [row], s.buff, rest));
          }
      }
    }
  }

  /** From an empty conversation, the first I-format message is always taken. */
  lemma {:induction false} FirstInformTaken(input: seq<Row>, k: nat)
    requires k < |input| && IsInform(input[k])
    ensures Run(Scan([], [], input)).conv != []
    decreases |input|
  {
    var row, rest := input[0], input[1..];
    var empty: seq<Row> := [];
    assert empty + [row] == [row];
    if !IsInform(row) {
      FirstInformTaken(rest, k - 1);
    } else if IsFinal(empty, row) == NotFinal {
      assert Run(Scan(empty, empty, input)) == Run(Scan([row], empty, rest));
      ConvStaysNonEmpty(Scan([row], empty, rest));
    }
  }

  /** `get_conversation` returns `None` exactly when no message left is an
      I-format frame, the empty input included. */
  lemma NoneIffNoInform(input: seq<Row>)
    ensures NextConversation(input).0.None? <==> forall i :: 0 <= i < |input| ==> !IsInform(input[i])
  {
    if forall i :: 0 <= i < |input| ==> !IsInform(input[i]) {
      if input != [] {
        SkipNonInform(Scan([], [], input));
      }
    } else {
      var k :| 0 <= k < |input| && IsInform(input[k]);
      FirstInformTaken(input, k);
    }
  }

  /** A returned conversation is not empty and holds only I-format messages;
      the messages pushed back in front of the input that were set aside are
      spontaneous ones. */
  lemma ConversationInform(input: seq<Row>)
    ensures NextConversation(input).0.Some? ==>
      var c := NextConversation(input).0.value;
      c != [] && forall i :: 0 <= i < |c| ==> IsInform(c[i])
  {
    if input != [] {
      RunKeepsSound(Scan([], [], input));
    }
  }

  /** The messages of `s` are those of `e` and the dropped ones. */
  ghost predicate Kept(s: Scan, e: Scan, dropped: multiset<Row>) {
    multiset(s.conv) + multiset(s.buff) + multiset(s.input) == multiset(e.conv) + multiset(e.buff) + multiset(e.input) + dropped
  }

  /** Dropping the first input message of a state. */
  lemma KeptDrop(s: Scan, e: Scan, d: multiset<Row>)
    requires s.input != [] && Kept(Scan(s.conv, s.buff, s.input[1..]), e, d)
    ensures Kept(s, e, d + multiset{s.input[0]})
  {
    var x, rest := s.input[0], s.input[1..];
    assert s.input == [x] + rest;
    assert multiset(s.conv) + multiset(s.buff) + multiset(s.input) == (multiset(s.conv) + multiset(s.buff) + multiset(rest)) + multiset{x};
  }

  lemma KeptTrans(s: Scan, t: Scan, e: Scan, d: multiset<Row>)
    requires Kept(s, t, multiset{}) && Kept(t, e, d)
    ensures Kept(s, e, d)
  {
    assert multiset(t.conv) + multiset(t.buff) + multiset(t.input) + multiset{} == multiset(t.conv) + multiset(t.buff) + multiset(t.input);
  }

  /** Moving the first input message to the end of the conversation. */
  lemma KeptToConv(s: Scan)
    requires s.input != []
    ensures Kept(s, Scan(s.conv + [s.input[0]], s.buff, s.input[1..]), multiset{})
  {
    var x, rest := s.input[0], s.input[1..];
    assert s.input == [x] + rest;
    assert multiset(s.conv) + multiset(s.buff) + multiset(s.input) == (multiset(s.conv) + multiset{x}) + multiset(s.buff) + multiset(rest);
  }

  /** Moving the first input message to the end of the messages set aside. */
  lemma KeptToBuff(s: Scan)
    requires s.input != []
    ensures Kept(s, Scan(s.conv, s.buff + [s.input[0]], s.input[1..]), multiset{})
  {
    var x, rest := s.input[0], s.input[1..];
    assert s.input == [x] + rest;
    assert multiset(s.conv) + multiset(s.buff) + multiset(s.input) == multiset(s.conv) + (multiset(s.buff) + multiset{x}) + multiset(rest);
  }

  /** Putting the conversation's tail from `n` and the first input message
      back in front of the input. */
  lemma KeptPushBack(s: Scan, n: nat)
    requires s.input != [] && n <= |s.conv|
    ensures Kept(s, Scan(s.conv[..n], s.buff, s.conv[n..] + [s.input[0]] + s.input[1..]), multiset{})
  {
    var x, rest := s.input[0], s.input[1..];
    assert s.input == [x] + rest;
    assert s.conv == s.conv[..n] + s.conv[n..];
    assert multiset(s.conv) + multiset(s.buff) + multiset(s.input)
      == multiset(s.conv[..n]) + multiset(s.buff) + (multiset(s.conv[n..]) + multiset{x} + multiset(rest));
  }

  /** Every message read is either in the conversation returned, back in the
      input, or dropped; only non-I-format messages are dropped. */
  lemma {:induction false} RunConserves(s: Scan) returns (dropped: multiset<Row>)
    ensures Kept(s, Run(s), dropped)
    ensures forall x :: x in dropped ==> !IsInform(x)
    decreases |s.input|, 1
  {
    dropped := multiset{};
    if s.input == [] {
      return;
    }
    var row, rest := s.input[0], s.input[1..];
    if !IsInform(row) {
      var t := Scan(s.conv, s.buff, rest);
      assert Run(s) == Run(t);
      var d := RunConserves(t);
      dropped := d + multiset{row};
      KeptDrop(s, Run(t), d);
    } else if IsStrictInitial(row) == 0 && |s.conv| > 0 {
      assert Run(s) == s;
    } else {
      dropped := TakenConserves(s);
    }
  }

  /** The same, once the first input message is taken into the scan. */
  lemma {:induction false} TakenConserves(s: Scan) returns (dropped: multiset<Row>)
    requires s.input != [] && IsInform(s.input[0]) && !(IsStrictInitial(s.input[0]) == 0 && |s.conv| > 0)
    ensures Kept(s, Run(s), dropped)
    ensures forall x :: x in dropped ==> !IsInform(x)
    decreases |s.input|, 0
  {
    var row, rest := s.input[0], s.input[1..];
    var f := IsFinal(s.conv, row);
    var ini := IsInitial(s.conv, row);
    if f == SetAside {
      var t := Scan(s.conv, s.buff + [row], rest);
      assert Run(s) == Run(t);
      dropped := RunConserves(t);
      KeptToBuff(s);
      KeptTrans(s, t, Run(t), dropped);
    } else if f == NotFinal && !(ini != 0 && |s.conv| > ini) {
      var t := Scan(s.conv + [row], s.buff, rest);
      assert Run(s) == Run(t);
      dropped := RunConserves(t);
      KeptToConv(s);
      KeptTrans(s, t, Run(t), dropped);
    } else {
      dropped := multiset{};
      StopConserves(s);
    }
  }

  /** A message that ends the conversation loses nothing. */
  lemma StopConserves(s: Scan)
    requires s.input != [] && IsInform(s.input[0]) && !(IsStrictInitial(s.input[0]) == 0 && |s.conv| > 0)
    requires var ini := IsInitial(s.conv, s.input[0]);
      IsFinal(s.conv, s.input[0]) == Final || (IsFinal(s.conv, s.input[0]) == NotFinal && ini != 0 && |s.conv| > ini)
    ensures Kept(s, Run(s), multiset{})
  {
    var row, rest := s.input[0], s.input[1..];
    var ini := IsInitial(s.conv, row);
    if IsFinal(s.conv, row) == Final {
      assert Run(s) == Scan(s.conv + [row], s.buff, rest);
      KeptToConv(s);
    } else {
      assert Run(s) == Scan(s.conv[..|s.conv| - ini], s.buff, s.conv[|s.conv| - ini..] + [row] + rest);
      KeptPushBack(s, |s.conv| - ini);
    }
  }

  /** Over one call: the input is the conversation returned, the input left
      and some dropped non-I-format messages. */
  lemma NextConserves(input: seq<Row>) returns (dropped: multiset<Row>)
    ensures var (r, left) := NextConversation(input);
      multiset(input) == (if r.Some? then multiset(r.value) else multiset{}) + multiset(left) + dropped
    ensures forall x :: x in dropped ==> !IsInform(x)
  {
    dropped := multiset{};
    if input != [] {
      var e := Run(Scan([], [], input));
      dropped := RunConserves(Scan([], [], input));
      var none: seq<Row> := [];
      assert multiset(none) + multiset(none) + multiset(input) == multiset(input);
      assert multiset(input) == multiset(e.conv) + multiset(e.buff) + multiset(e.input) + dropped;
      if e.conv == [] && e.buff == [] {
        assert multiset(input) == multiset{} + multiset(e.input) + dropped;
      } else {
        assert multiset(input) == multiset(e.conv) + (multiset(e.buff) + multiset(e.input)) + dropped;
        assert multiset(e.buff + e.input) == multiset(e.buff) + multiset(e.input);
      }
    }
  }

  /** Each conversation returned consumes input, so repeated calls end. */
  lemma NextShrinks(input: seq<Row>)
    ensures NextConversation(input).0.Some? ==> |NextConversation(input).1| < |input|
  {
    var dropped := NextConserves(input);
    ConversationInform(input);
    var (r, left) := NextConversation(input);
    if r.Some? {
      assert |multiset(input)| == |multiset(r.value)| + |multiset(left)| + |dropped|;
    }
  }

  /** An activation arriving in a started conversation is pushed back and
      ends it. */
  lemma ActivationEnds(s: Scan)
    requires s.conv != [] && s.input != [] && IsInform(s.input[0]) && s.input[0].cot == 6
    ensures Run(s) == s
  {
  }

  /** A final message, alone or ending the block 123, 124, 123, 124, is taken
      and ends the conversation. */
  lemma FinalEnds(s: Scan)
    requires s.input != [] && IsInform(s.input[0]) && (s.conv == [] || s.input[0].cot != 6)
    requires IsSingleFinal(s.input[0]) || IsBlockFinal(s.conv + [s.input[0]])
    ensures Run(s) == Scan(s.conv + [s.input[0]], s.buff, s.input[1..])
  {
  }

  /** A spontaneous message first in the input is a conversation of its own. */
  lemma SpontaneousAlone(input: seq<Row>)
    requires input != [] && IsInform(input[0]) && IsSpontaneous(input[0])
    ensures NextConversation(input) == (Some([input[0]]), input[1..])
  {
    var empty: seq<Row> := [];
    assert empty + [input[0]] == [input[0]];
    assert Run(Scan(empty, empty, input)) == Scan([input[0]], empty, input[1..]);
    assert empty + input[1..] == input[1..];
  }

  /** A spontaneous message in a started conversation is set aside and the
      scan goes on. */
  lemma SpontaneousSetAside(s: Scan)
    requires s.conv != [] && s.input != [] && IsInform(s.input[0]) && IsSpontaneous(s.input[0])
    requires !IsSingleFinal(s.input[0]) && !IsBlockFinal(s.conv + [s.input[0]])
    ensures Run(s) == Run(Scan(s.conv, s.buff + [s.input[0]], s.input[1..]))
  {
  }

  /** An activation (type 120) after a type 122 message, with at least two
      messages collected, puts both back in front of the input and ends the
      conversation before them. */
  lemma ActivationPairPushedBack(s: Scan)
    requires |s.conv| >= 2 && s.input != [] && IsInform(s.input[0])
    requires s.input[0].asduType == 120 && s.conv[|s.conv| - 1].asduType == 122
    requires s.input[0].cot != 6 && s.input[0].cot != 10 && !IsSpontaneous(s.input[0])
    ensures Run(s) == Scan(s.conv[..|s.conv| - 1], s.buff, [s.conv[|s.conv| - 1], s.input[0]] + s.input[1..])
  {
    var row := s.input[0];
    assert IsFinal(s.conv, row) == NotFinal;
    assert IsInitial(s.conv, row) == 1;
    assert s.conv[|s.conv| - 1..] + [row] == [s.conv[|s.conv| - 1], row];
  }

  /** A CSV row: its fields by column name. */
  type CsvRow = map<string, string>

  /** The selected fields of a row, as `tuple([row[k] for k in rows_filter])`;
      a missing column raises `KeyError`. */
  function Project(row: CsvRow, keys: seq<string>): (r: Option<seq<string>>)
    ensures r.Some? <==> forall i :: 0 <= i < |keys| ==> keys[i] in row
    ensures r.Some? ==> |r.value| == |keys| && forall i :: 0 <= i < |keys| ==> r.value[i] == row[keys[i]]
  {
    if keys == [] then Some([])
    else if keys[0] !in row then None
    else match Project(row, keys[1..])
      case None => None
      case Some(rest) => Some([row[keys[0]]] + rest)
  }

  /** `all(item)` on strings: no field is empty. */
  predicate Filled(item: seq<string>) {
    forall i :: 0 <= i < |item| ==> item[i] != ""
  }

  /** The selected fields of all rows; the first row missing a column raises. */
  function Items(reader: seq<CsvRow>, keys: seq<string>): (r: Option<seq<seq<string>>>)
    ensures r.Some? ==> |r.value| == |reader|
  {
    if reader == [] then Some([])
    else match Items(reader[..|reader| - 1], keys)
      case None => None
      case Some(front) =>
        match Project(reader[|reader| - 1], keys)
        case None => None
        case Some(item) => Some(front + [item])
  }

  /** The conversations closed so far and the one still open: a row with an
      empty selected field closes the open conversation, any other row joins
      it. */
  function Close(items: seq<seq<string>>): (seq<seq<seq<string>>>, seq<seq<string>>) {
    if items == [] then ([], [])
    else
      var (lines, open) := Close(items[..|items| - 1]);
      var item := items[|items| - 1];
      if !Filled(item) then (lines + [open], []) else (lines, open + [item])
  }

  /** `filter_to_conversations`: the conversations closed by rows with an
      empty selected field. */
  method FilterToConversations(reader: seq<CsvRow>, rowsFilter: seq<string>) returns (r: Result<seq<seq<seq<string>>>, string>)
    ensures r.Failure? <==> Items(reader, rowsFilter).None?
    ensures r.Success? ==> r.value == Close(Items(reader, rowsFilter).value).0
  {
    var lines: seq<seq<seq<string>>> := [];
    var conversation: seq<seq<string>> := [];
    ghost var items: seq<seq<string>> := [];
    for n := 0 to |reader|
      invariant Items(reader[..n], rowsFilter) == Some(items)
      invariant Close(items) == (lines, conversation)
    {
      assert reader[..n + 1][..n] == reader[..n];
      var item := Project(reader[n], rowsFilter);
      if item.None? {
        ItemsFailureSticks(reader, rowsFilter, n + 1);
        return Failure("KeyError");
      }
      ghost var prev := items;
      items := items + [item.value];
      assert items[..|items| - 1] == prev;
      if !Filled(item.value) {
        lines := lines + [conversation];
        conversation := [];
      } else {
        conversation := conversation + [item.value];
      }
    }
    assert reader[..|reader|] == reader;
    return Success(lines);
  }

  lemma {:induction false} ItemsFailureSticks(reader: seq<CsvRow>, keys: seq<string>, n: nat)
    requires n <= |reader| && Items(reader[..n], keys).None?
    ensures Items(reader, keys).None?
    decreases |reader| - n
  {
    if n < |reader| {
      assert reader[..n + 1][..n] == reader[..n];
      ItemsFailureSticks(reader, keys, n + 1);
    } else {
      assert reader[..n] == reader;
    }
  }

  /** The conversations followed by their closing rows, in order. */
  function Interleave(convs: seq<seq<seq<string>>>, closers: seq<seq<string>>): seq<seq<string>>
    requires |closers| == |convs|
  {
    if convs == [] then [] else Interleave(convs[..|convs| - 1], closers[..|convs| - 1]) + convs[|convs| - 1] + [closers[|convs| - 1]]
  }

  /** Appending filled rows only extends the open conversation. */
  lemma {:induction false} CloseFilled(items: seq<seq<string>>, more: seq<seq<string>>)
    requires forall i :: 0 <= i < |more| ==> Filled(more[i])
    ensures Close(items + more) == (Close(items).0, Close(items).1 + more)
    decreases |more|
  {
    if more == [] {
      assert items + more == items;
      assert Close(items).1 + more == Close(items).1;
    } else {
      var front := more[..|more| - 1];
      CloseFilled(items, front);
      assert (items + more)[..|items + more| - 1] == items + front;
      assert Close(items).1 + front + [more[|more| - 1]] == Close(items).1 + more;
    }
  }

  /** Cutting conversations of filled rows, each followed by a row with an
      empty field, gives the conversations back. */
  lemma {:induction false} FilterRoundTrip(convs: seq<seq<seq<string>>>, closers: seq<seq<string>>)
    requires |closers| == |convs|
    requires forall k :: 0 <= k < |convs| ==> forall i :: 0 <= i < |convs[k]| ==> Filled(convs[k][i])
    requires forall k :: 0 <= k < |closers| ==> !Filled(closers[k])
    ensures Close(Interleave(convs, closers)) == (convs, [])
    decreases |convs|
  {
    if convs != [] {
      var m := |convs| - 1;
      var front := Interleave(convs[..m], closers[..m]);
      FilterRoundTrip(convs[..m], closers[..m]);
      CloseFilled(front, convs[m]);
      var whole := front + convs[m] + [closers[m]];
      assert whole[..|whole| - 1] == front + convs[m];
      assert [] + convs[m] == convs[m];
      assert convs[..m] + [convs[m]] == convs;
    }
  }

  /** Rows after the last row with an empty field are not returned. */
  lemma TrailingRowsDropped(items: seq<seq<string>>, tail: seq<seq<string>>)
    requires forall i :: 0 <= i < |tail| ==> Filled(tail[i])
    ensures Close(items + tail).0 == Close(items).0
  {
    CloseFilled(items, tail);
  }

  /** One conversation per row with an empty field, empty ones included. */
  lemma {:induction false} OneConversationPerCloser(items: seq<seq<string>>)
    ensures |Close(items).0| == |set k | 0 <= k < |items| && !Filled(items[k])|
  {
    if items != [] {
      var n := |items| - 1;
      var front := items[..n];
      OneConversationPerCloser(front);
      var before := set k | 0 <= k < n && !Filled(items[k]);
      assert before == set k | 0 <= k < |front| && !Filled(front[k]) by {
        forall k | 0 <= k < n ensures front[k] == items[k] { }
      }
      if !Filled(items[n]) {
        assert (set k | 0 <= k < |items| && !Filled(items[k])) == before + {n};
      } else {
        assert (set k | 0 <= k < |items| && !Filled(items[k])) == before;
      }
    }
  }

  /** The values of the rows, row after row. */
  function Flatten<T>(vals: seq<seq<T>>): seq<T> {
    if vals == [] then [] else Flatten(vals[..|vals| - 1]) + vals[|vals| - 1]
  }

  /** The distinct values of `s`, each at its first occurrence. */
  function Distinct<T(==)>(s: seq<T>): seq<T> {
    if s == [] then []
    else
      var d := Distinct(s[..|s| - 1]);
      if s[|s| - 1] in d then d else d + [s[|s| - 1]]
  }

  /** The position of the first occurrence of `x` in `s`. */
  function FirstIndex<T(==)>(s: seq<T>, x: T): (k: nat)
    requires x in s
    ensures k < |s| && s[k] == x && forall j :: 0 <= j < k ==> s[j] != x
  {
    if s[0] == x then 0 else 1 + FirstIndex(s[1..], x)
  }

  /** `dct` numbers the values of `d` by their positions. */
  ghost predicate NumbersInOrder<T>(dct: map<T, nat>, d: seq<T>) {
    && (forall x :: x in dct ==> dct[x] < |d| && d[dct[x]] == x)
    && (forall k :: 0 <= k < |d| ==> d[k] in dct && dct[d[k]] == k)
  }

  /** `values_bidict`: each value gets the next number the first time it
      occurs. The number given is always new, so the bidirectional map never
      refuses it. */
  method ValuesBidict<T(==)>(vals: seq<seq<T>>) returns (dct: map<T, nat>)
    ensures NumbersInOrder(dct, Distinct(Flatten(vals)))
  {
    dct := map[];
    var cnt: nat := 0;
    for i := 0 to |vals|
      invariant NumbersInOrder(dct, Distinct(Flatten(vals[..i]))) && cnt == |Distinct(Flatten(vals[..i]))|
    {
      ghost var before := Flatten(vals[..i]);
      var row := vals[i];
      assert before + row[..0] == before;
      for j := 0 to |row|
        invariant NumbersInOrder(dct, Distinct(before + row[..j])) && cnt == |Distinct(before + row[..j])|
      {
        var item := row[j];
        ghost var p := before + row[..j];
        assert before + row[..j + 1] == p + [item];
        NumberNext(dct, p, item);
        if item !in dct {
          dct := dct[item := cnt];
          cnt := cnt + 1;
        }
      }
      assert vals[..i + 1][..i] == vals[..i];
      assert row[..|row|] == row;
    }
    assert vals[..|vals|] == vals;
  }

  /** One more value keeps the numbering: a new value gets the next number. */
  lemma NumberNext<T>(dct: map<T, nat>, p: seq<T>, item: T)
    requires NumbersInOrder(dct, Distinct(p))
    ensures item in dct ==> NumbersInOrder(dct, Distinct(p + [item])) && |Distinct(p + [item])| == |Distinct(p)|
    ensures item !in dct ==> NumbersInOrder(dct[item := |Distinct(p)|], Distinct(p + [item])) && |Distinct(p + [item])| == |Distinct(p)| + 1
  {
    assert (p + [item])[..|p|] == p;
  }

  /** The distinct values hold no value twice. */
  lemma {:induction false} DistinctNoDuplicates<T>(s: seq<T>)
    ensures forall i, j :: 0 <= i < j < |Distinct(s)| ==> Distinct(s)[i] != Distinct(s)[j]
  {
    if s != [] {
      DistinctNoDuplicates(s[..|s| - 1]);
    }
  }

  /** The distinct values are exactly the values. */
  lemma {:induction false} DistinctSameValues<T>(s: seq<T>)
    ensures forall x :: x in Distinct(s) ==> x in s
    ensures forall x :: x in s ==> x in Distinct(s)
  {
    if s != [] {
      var front := s[..|s| - 1];
      DistinctSameValues(front);
      assert s == front + [s[|s| - 1]];
    }
  }

  /** The distinct values come in the order of their first occurrences. */
  lemma {:induction false} DistinctFirstOccurrence<T>(s: seq<T>, i: nat, j: nat)
    requires i < j < |Distinct(s)|
    ensures Distinct(s)[i] in s && Distinct(s)[j] in s
    ensures FirstIndex(s, Distinct(s)[i]) < FirstIndex(s, Distinct(s)[j])
    decreases |s|
  {
    var front, x := s[..|s| - 1], s[|s| - 1];
    var d := Distinct(front);
    DistinctSameValues(front);
    DistinctSameValues(s);
    assert s == front + [x];
    if j < |d| {
      DistinctFirstOccurrence(front, i, j);
      FirstIndexSnoc(front, x, d[i]);
      FirstIndexSnoc(front, x, d[j]);
    } else {
      assert x !in d && Distinct(s) == d + [x];
      assert i < |d| && d[i] in d;
      FirstIndexSnoc(front, x, d[i]);
    }
  }

  /** Appending leaves the first occurrence of a value already present. */
  lemma FirstIndexSnoc<T>(s: seq<T>, x: T, y: T)
    requires y in s
    ensures FirstIndex(s + [x], y) == FirstIndex(s, y)
  {
    var k := FirstIndex(s, y);
    var t := s + [x];
    assert t[k] == y;
    assert forall j :: 0 <= j < k ==> t[j] == s[j];
  }

  /** The numbering is one-to-one, its numbers are exactly `0 .. n - 1` for
      `n` distinct values, and a value occurring earlier gets a smaller
      number. */
  lemma BidictSpec<T>(dct: map<T, nat>, vals: seq<seq<T>>)
    requires NumbersInOrder(dct, Distinct(Flatten(vals)))
    ensures forall x :: x in dct ==> x in Flatten(vals)
    ensures forall x :: x in Flatten(vals) ==> x in dct
    ensures forall x, y :: x in dct && y in dct && dct[x] == dct[y] ==> x == y
    ensures forall k :: k in dct.Values <==> 0 <= k < |Distinct(Flatten(vals))|
    ensures forall x, y :: x in dct && y in dct && dct[x] < dct[y] ==> FirstIndex(Flatten(vals), x) < FirstIndex(Flatten(vals), y)
  {
    var s := Flatten(vals);
    var d := Distinct(s);
    DistinctSameValues(s);
    forall k | k in dct.Values
      ensures 0 <= k < |d|
    {
      var x :| x in dct && dct[x] == k;
    }
    forall k | 0 <= k < |d|
      ensures k in dct.Values
    {
      assert dct[d[k]] == k;
    }
    forall x, y | x in dct && y in dct && dct[x] < dct[y]
      ensures FirstIndex(s, x) < FirstIndex(s, y)
    {
      DistinctFirstOccurrence(s, dct[x], dct[y]);
    }
  }

  class ConvParser {
    /** The messages not yet consumed. */
    var input: seq<Row>

    constructor(inp: seq<Row>)
      ensures input == inp
    {
      input := inp;
    }

    /** `get_conversation`: pops messages from the front of the input until
        the conversation ends, pushing back the messages that start the
        next one and the spontaneous messages set aside. */
    method GetConversation() returns (r: Option<seq<Row>>)
      modifies this
      ensures (r, input) == NextConversation(old(input))
    {
      if |input| == 0 {
        return None;
      }
      var conv: seq<Row> := [];
      var buff: seq<Row> := [];
      ghost var last := Run(Scan([], [], input));
      while true
        invariant Run(Scan(conv, buff, input)) == last
        decreases |input|
      {
        if |input| == 0 {
          break;
        }
        var row := input[0];
        input := input[1..];
        if !IsInform(row) {
          continue;
        }
        var ini := IsStrictInitial(row);
        if ini == 0 && |conv| > 0 {
          input := [row] + input;
          break;
        }
        var finality := IsFinal(conv, row);
        if finality == Final {
          conv := conv + [row];
          break;
        }
        if finality == SetAside {
          buff := buff + [row];
        }
        if finality == NotFinal {
          ini := IsInitial(conv, row);
          if ini != 0 && |conv| > ini {
            input := [row] + input;
            input := conv[|conv| - ini..] + input;
            conv := conv[..|conv| - ini];
            break;
          } else {
            conv := conv + [row];
          }
        }
      }
      assert last == Scan(conv, buff, input);
      if |conv| == 0 && |buff| == 0 {
        return None;
      }
      input := buff + input;
      return Some(conv);
    }
  }
}
