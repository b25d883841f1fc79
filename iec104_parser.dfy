/**
  The IEC 104 conversation scanner: a cursor over the I-format messages, a
  one-message pushback, a side buffer of spontaneous messages and a latch
  that ends a conversation after its middle part. Also the split of the
  messages by communication pair and by time window.
 */
module Iec104Parser {
  import opened Wrappers
  import ConversationParser

  /** An endpoint: IP address and port, as read from the CSV. */
  type Endpoint = (string, string)

  /** A message: ASDU type and cause of transmission as numbers (what `int()`
      makes of the CSV fields, for the classifiers) and as the CSV text
      itself (what the abstraction keeps), frame format (`None` for the
      empty field, otherwise its hexadecimal value), the two endpoints and
      the relative time. */
  datatype Message = Message(asduType: int, cot: int, asduText: string, cotText: string,
                             fmt: Option<nat>, src: Endpoint, dst: Endpoint, time: real)

  /** `is_inform_message`: an I-format frame. */
  predicate IsInform(m: Message) {
    m.fmt == Some(0)
  }

  /** `is_spontaneous`: cause of transmission 3. */
  predicate IsSpontaneous(m: Message) {
    m.cot == 3
  }

  datatype ConvType = FileTransfer | General | GeneralAct | Spontaneous | Unknown

  /** `get_initial_type`: the kind of conversation a first message opens. */
  function InitialType(m: Message): (tp: ConvType)
    ensures tp == FileTransfer <==> m.asduType == 122
    ensures tp == GeneralAct <==> m.asduType != 122 && m.cot == 6
    ensures tp == Spontaneous <==> m.asduType != 122 && m.cot == 3
    ensures tp == General <==> m.asduType != 122 && m.cot == 7
    ensures tp == Unknown <==> m.asduType != 122 && m.cot !in {3, 6, 7}
  {
    if m.asduType == 122 then FileTransfer
    else if m.cot == 6 then GeneralAct
    else if m.cot == 3 then Spontaneous
    else if m.cot == 7 then General
    else Unknown
  }

  /** `in_middle_range`: the message belongs to the middle part of a
      conversation of kind `tp`. */
  predicate InMiddleRange(m: Message, tp: ConvType) {
    || (tp == FileTransfer && 123 <= m.asduType < 128)
    || (tp == General && m.cot != 6 && m.cot != 7)
    || (tp == GeneralAct && m.cot != 6)
  }

  /** No message is in the middle of a spontaneous conversation or of one of
      unknown kind. */
  lemma NoMiddleRange(m: Message, tp: ConvType)
    requires tp == Spontaneous || tp == Unknown
    ensures !InMiddleRange(m, tp)
  {
  }

  /** `is_conversation_complete`: judged by the last message. */
  predicate IsComplete(conv: seq<Message>)
    requires conv != []
  {
    var last := conv[|conv| - 1];
    last.asduType in {123, 124, 70, 36} || last.cot in {3, 10, 44, 45, 46, 47}
  }

  /** The I-format messages of `s`, in order. */
  function KeepInform(s: seq<Message>): seq<Message> {
    if s == [] then []
    else KeepInform(s[..|s| - 1]) + (if IsInform(s[|s| - 1]) then [s[|s| - 1]] else [])
  }

  /** The parser keeps exactly the I-format messages of its input. */
  lemma {:induction false} KeepInformMembers(s: seq<Message>)
    ensures forall m :: m in KeepInform(s) <==> m in s && IsInform(m)
    ensures |KeepInform(s)| <= |s|
  {
    if s != [] {
      KeepInformMembers(s[..|s| - 1]);
      assert s == s[..|s| - 1] + [s[|s| - 1]];
    }
  }

  /** What one call of `get_conversation` takes from the messages it reads:
      the conversation, the spontaneous messages set aside and how many
      messages it consumed (a message pushed back is not consumed). */
  datatype Taken = Taken(conv: seq<Message>, buff: seq<Message>, k: nat)

  /** The `while True` loop from position `i` of the messages read, with the
      latch `final`. Running out of messages ends it, as the `IndexError`
      does. */
  function Loop(src: seq<Message>, i: nat, tp: ConvType, final: bool, conv: seq<Message>, buff: seq<Message>): (t: Taken)
    requires i <= |src|
    ensures i <= t.k <= |src| && |conv| <= |t.conv|
    decreases |src| - i
  {
    if i == |src| then Taken(conv, buff, i)
    else
      var row := src[i];
      if IsSpontaneous(row) then Loop(src, i + 1, tp, final, conv, buff + [row])
      else if InMiddleRange(row, tp) then Loop(src, i + 1, tp, true, conv + [row], buff)
      else if final then Taken(conv, buff, i)
      else Loop(src, i + 1, tp, final, conv + [row], buff)
  }

  /** `get_conversation` on the messages it reads: a spontaneous first
      message alone, otherwise the loop with the first message's kind. */
  function Take(src: seq<Message>): (t: Taken)
    ensures t.k <= |src|
  {
    if src == [] then Taken([], [], 0)
    else if IsSpontaneous(src[0]) then Taken([src[0]], [], 1)
    else Loop(src, 1, InitialType(src[0]), false, [src[0]], [])
  }

  /** The messages a call reads: the side buffer when it is not empty,
      otherwise the input from the cursor. */
  function Source(input: seq<Message>, index: nat, buffer: seq<Message>): seq<Message>
    requires index <= |input|
  {
    if buffer != [] then buffer else input[index..]
  }

  /** The result of `get_conversation` and the new cursor and side buffer. */
  function NextConv(input: seq<Message>, index: nat, buffer: seq<Message>): (r: (Option<seq<Message>>, nat, seq<Message>))
    requires index <= |input|
    ensures r.1 <= |input|
  {
    var t := Take(Source(input, index, buffer));
    var index' := if buffer != [] then index else index + t.k;
    var rest := if buffer != [] then buffer[t.k..] else buffer;
    if t.conv == [] && t.buff == [] then (None, index', rest)
    else (Some(t.conv), index', rest + t.buff)
  }

  /** The spontaneous messages of `s`, in order. */
  function SpontaneousOf(s: seq<Message>): (r: seq<Message>)
    ensures forall m :: m in r ==> m in s && IsSpontaneous(m)
  {
    if s == [] then []
    else (if IsSpontaneous(s[0]) then [s[0]] else []) + SpontaneousOf(s[1..])
  }

  /** The other messages of `s`, in order. */
  function OthersOf(s: seq<Message>): (r: seq<Message>)
    ensures forall m :: m in r ==> m in s && !IsSpontaneous(m)
  {
    if s == [] then []
    else (if IsSpontaneous(s[0]) then [] else [s[0]]) + OthersOf(s[1..])
  }

  /** Every message is either spontaneous or not: the two filters share the
      messages out. */
  lemma {:induction false} FiltersShareOut(s: seq<Message>)
    ensures multiset(s) == multiset(SpontaneousOf(s)) + multiset(OthersOf(s))
    ensures |s| == |SpontaneousOf(s)| + |OthersOf(s)|
  {
    if s != [] {
      FiltersShareOut(s[1..]);
      assert s == [s[0]] + s[1..];
    }
  }

  /** One turn of the loop that does not end it: the message read goes to
      the conversation or, when spontaneous, to the side buffer. */
  lemma LoopStep(src: seq<Message>, i: nat, tp: ConvType, final: bool, conv: seq<Message>, buff: seq<Message>)
    requires i < |src| && Loop(src, i, tp, final, conv, buff).k > i
    ensures var row := src[i];
      var spont := IsSpontaneous(row);
      Loop(src, i, tp, final, conv, buff) ==
        Loop(src, i + 1, tp, final || (!spont && InMiddleRange(row, tp)),
             conv + (if spont then [] else [row]), buff + (if spont then [row] else []))
  {
    assert conv + [] == conv && buff + [] == buff;
  }

  /** The loop appends the messages it reads that are not spontaneous to
      the conversation and the spontaneous ones to the side buffer. */
  lemma {:induction false} LoopPartition(src: seq<Message>, i: nat, tp: ConvType, final: bool, conv: seq<Message>, buff: seq<Message>)
    requires i <= |src|
    ensures var t := Loop(src, i, tp, final, conv, buff);
      t.conv == conv + OthersOf(src[i..t.k]) && t.buff == buff + SpontaneousOf(src[i..t.k])
    decreases |src| - i
  {
    var t := Loop(src, i, tp, final, conv, buff);
    if t.k == i {
      assert src[i..t.k] == [];
    } else {
      var row := src[i];
      var spont := IsSpontaneous(row);
      var convPart, buffPart := if spont then [] else [row], if spont then [row] else [];
      var fin := final || (!spont && InMiddleRange(row, tp));
      LoopStep(src, i, tp, final, conv, buff);
      LoopPartition(src, i + 1, tp, fin, conv + convPart, buff + buffPart);
      var rest := src[i..t.k];
      assert rest[0] == row && rest[1..] == src[i + 1..t.k];
      ConcatRegroup(conv, convPart, OthersOf(rest[1..]));
      ConcatRegroup(buff, buffPart, SpontaneousOf(rest[1..]));
    }
  }

  /** One call takes a prefix of what it reads: the first message and the
      later messages that are not spontaneous make the conversation, the
      later spontaneous ones are set aside. */
  lemma TakePartition(src: seq<Message>)
    requires src != []
    ensures var t := Take(src);
      1 <= t.k && t.conv == [src[0]] + OthersOf(src[1..t.k]) && t.buff == SpontaneousOf(src[1..t.k])
  {
    if !IsSpontaneous(src[0]) {
      LoopPartition(src, 1, InitialType(src[0]), false, [src[0]], []);
    } else {
      assert src[1..1] == [];
    }
  }

  /** Nothing is lost or duplicated: the messages consumed are those of the
      conversation and of the side buffer. */
  lemma TakeConserves(src: seq<Message>)
    ensures var t := Take(src);
      multiset(src[..t.k]) == multiset(t.conv) + multiset(t.buff) && t.k == |t.conv| + |t.buff|
    ensures Take(src).conv == [] <==> src == []
  {
    if src != [] {
      TakePartition(src);
      var t := Take(src);
      FiltersShareOut(src[1..t.k]);
      assert src[..t.k] == [src[0]] + src[1..t.k];
    }
  }

  /** A conversation opened by a message of no known kind never reaches its
      middle part, so it runs to the end of what is read. */
  lemma {:induction false} UnknownLoopRunsToEnd(src: seq<Message>, i: nat, conv: seq<Message>, buff: seq<Message>)
    requires i <= |src|
    ensures Loop(src, i, Unknown, false, conv, buff).k == |src|
    decreases |src| - i
  {
    if i < |src| {
      var row := src[i];
      if IsSpontaneous(row) {
        UnknownLoopRunsToEnd(src, i + 1, conv, buff + [row]);
      } else {
        UnknownLoopRunsToEnd(src, i + 1, conv + [row], buff);
      }
    }
  }

  lemma UnknownRunsToEnd(src: seq<Message>)
    requires src != [] && !IsSpontaneous(src[0]) && InitialType(src[0]) == Unknown
    ensures Take(src).k == |src|
  {
    UnknownLoopRunsToEnd(src, 1, [src[0]], []);
  }

  /** The latch: the loop stops before the end only at a message that is
      neither spontaneous nor in the middle range, after one that was in
      the middle range. */
  lemma {:induction false} LoopStopsAfterMiddle(src: seq<Message>, i: nat, tp: ConvType, final: bool, conv: seq<Message>, buff: seq<Message>)
    requires 1 <= i <= |src|
    requires final ==> exists j :: 1 <= j < i && InMiddleRange(src[j], tp)
    ensures var t := Loop(src, i, tp, final, conv, buff);
      t.k < |src| ==> !IsSpontaneous(src[t.k]) && !InMiddleRange(src[t.k], tp) && exists j :: 1 <= j < t.k && InMiddleRange(src[j], tp)
    decreases |src| - i
  {
    if i < |src| {
      var row := src[i];
      if IsSpontaneous(row) {
        LoopStopsAfterMiddle(src, i + 1, tp, final, conv, buff + [row]);
      } else if InMiddleRange(row, tp) {
        LoopStopsAfterMiddle(src, i + 1, tp, true, conv + [row], buff);
      } else if !final {
        LoopStopsAfterMiddle(src, i + 1, tp, final, conv + [row], buff);
      }
    }
  }

  lemma StopsAfterMiddle(src: seq<Message>)
    requires src != [] && !IsSpontaneous(src[0]) && Take(src).k < |src|
    ensures var k, tp := Take(src).k, InitialType(src[0]);
      !IsSpontaneous(src[k]) && !InMiddleRange(src[k], tp) && exists j :: 1 <= j < k && InMiddleRange(src[j], tp)
  {
    LoopStopsAfterMiddle(src, 1, InitialType(src[0]), false, [src[0]], []);
  }

  predicate AllSpontaneous(s: seq<Message>) {
    forall m :: m in s ==> IsSpontaneous(m)
  }

  /** `get_conversation` returns nothing exactly when the side buffer and the
      input are both exhausted, and then it changes nothing. */
  lemma NextConvNone(input: seq<Message>, index: nat, buffer: seq<Message>)
    requires index <= |input|
    ensures NextConv(input, index, buffer).0.None? <==> buffer == [] && index == |input|
    ensures NextConv(input, index, buffer).0.None? ==> NextConv(input, index, buffer) == (None, index, buffer)
  {
    TakeConserves(Source(input, index, buffer));
  }

  /** A conversation it returns is never empty, and it starts with the first
      message read. */
  lemma NextConvStart(input: seq<Message>, index: nat, buffer: seq<Message>)
    requires index <= |input|
    ensures var (r, _, _) := NextConv(input, index, buffer);
      r.Some? ==> r.value != [] && r.value[0] == Source(input, index, buffer)[0]
  {
    var src := Source(input, index, buffer);
    if src != [] {
      TakePartition(src);
    }
  }

  /** The measure of what is left to read. */
  function Pending(input: seq<Message>, index: nat, buffer: seq<Message>): nat
    requires index <= |input|
  {
    |buffer| + 2 * (|input| - index)
  }

  /** A call that returns a conversation shrinks what is left to read: in
      buffer mode the buffer loses at least one message, in input mode the
      cursor moves by at least one and the buffer gains fewer than that. */
  lemma NextShrinks(input: seq<Message>, index: nat, buffer: seq<Message>)
    requires index <= |input|
    ensures var (r, index', buffer') := NextConv(input, index, buffer);
      r.Some? ==> Pending(input, index', buffer') < Pending(input, index, buffer)
  {
    TakeConserves(Source(input, index, buffer));
  }

  /** Every message is kept: the messages left to read before the call are
      those of the conversation returned plus those left to read after it. */
  lemma NextConserves(input: seq<Message>, index: nat, buffer: seq<Message>)
    requires index <= |input|
    ensures var (r, index', buffer') := NextConv(input, index, buffer);
      multiset(buffer) + multiset(input[index..]) ==
        (if r.Some? then multiset(r.value) else multiset{}) + multiset(buffer') + multiset(input[index'..])
  {
    var src := Source(input, index, buffer);
    var t := Take(src);
    TakeConserves(src);
    var got := if t.conv == [] && t.buff == [] then multiset{} else multiset(t.conv);
    assert multiset(src) == multiset(src[..t.k]) + multiset(src[t.k..]) by {
      assert src == src[..t.k] + src[t.k..];
    }
    assert multiset(src[..t.k]) == got + multiset(t.buff);
    if buffer == [] {
      assert src[t.k..] == input[index + t.k..];
      assert NextConv(input, index, buffer).1 == index + t.k;
      assert multiset(NextConv(input, index, buffer).2) == multiset(t.buff);
    } else {
      assert NextConv(input, index, buffer).1 == index;
      assert multiset(NextConv(input, index, buffer).2) == multiset(src[t.k..]) + multiset(t.buff);
    }
  }

  /** The side buffer only ever holds spontaneous messages, and while it
      is not empty each call returns its first message alone. */
  lemma BufferDrains(input: seq<Message>, index: nat, buffer: seq<Message>)
    requires index <= |input| && AllSpontaneous(buffer)
    ensures AllSpontaneous(NextConv(input, index, buffer).2)
    ensures buffer != [] ==> NextConv(input, index, buffer) == (Some([buffer[0]]), index, buffer[1..])
  {
    var src := Source(input, index, buffer);
    var t := Take(src);
    if src != [] {
      TakePartition(src);
      assert forall m :: m in t.buff ==> IsSpontaneous(m);
    }
    if buffer != [] {
      assert buffer[0] in buffer;
      assert buffer[1..] + [] == buffer[1..];
    }
  }

  /** `parse_conversations`: the conversations of successive calls, until
      one returns nothing. */
  function AllConvs(input: seq<Message>, index: nat, buffer: seq<Message>): seq<seq<Message>>
    requires index <= |input|
    decreases Pending(input, index, buffer)
  {
    var (r, index', buffer') := NextConv(input, index, buffer);
    if r.None? then []
    else
      NextShrinks(input, index, buffer);
      [r.value] + AllConvs(input, index', buffer')
  }

  /** Parsing again after a parse yields nothing: the cursor and the side
      buffer are not reset. */
  lemma ParseAgainEmpty(input: seq<Message>)
    ensures AllConvs(input, |input|, []) == []
  {
    AllConvsStep(input, |input|, []);
  }

  /** The messages of a list of conversations. */
  ghost function MessagesOf(convs: seq<seq<Message>>): multiset<Message> {
    if convs == [] then multiset{} else multiset(convs[0]) + MessagesOf(convs[1..])
  }

  /** Parsing places every message left to read in exactly one
      conversation, and no conversation is empty. */
  lemma {:induction false} AllConvsConserve(input: seq<Message>, index: nat, buffer: seq<Message>)
    requires index <= |input|
    ensures MessagesOf(AllConvs(input, index, buffer)) == multiset(buffer) + multiset(input[index..])
    ensures forall c :: c in AllConvs(input, index, buffer) ==> c != []
    decreases Pending(input, index, buffer)
  {
    var (r, index', buffer') := NextConv(input, index, buffer);
    NextConvNone(input, index, buffer);
    NextConserves(input, index, buffer);
    if r.Some? {
      NextShrinks(input, index, buffer);
      NextConvStart(input, index, buffer);
      AllConvsConserve(input, index', buffer');
      var all := AllConvs(input, index, buffer);
      assert all == [r.value] + AllConvs(input, index', buffer');
      assert all[1..] == AllConvs(input, index', buffer');
    }
  }

  /** The conversations whose last message does not complete them. */
  function Incomplete(convs: seq<seq<Message>>): (r: seq<seq<Message>>)
    requires forall c :: c in convs ==> c != []
    ensures forall c :: c in r ==> c in convs && !IsComplete(c)
  {
    if convs == [] then []
    else
      var front, c := convs[..|convs| - 1], convs[|convs| - 1];
      assert c in convs && forall d :: d in front ==> d in convs;
      Incomplete(front) + (if IsComplete(c) then [] else [c])
  }

  /** One step of parsing: a call that returns nothing ends it without
      changing anything; one that returns a conversation leaves less to read. */
  lemma AllConvsStep(input: seq<Message>, index: nat, buffer: seq<Message>)
    requires index <= |input|
    ensures var n := NextConv(input, index, buffer);
      n.0.None? ==> AllConvs(input, index, buffer) == [] && buffer == [] && index == |input| && n.1 == index && n.2 == buffer
    ensures var n := NextConv(input, index, buffer);
      n.0.Some? ==> AllConvs(input, index, buffer) == [n.0.value] + AllConvs(input, n.1, n.2) && Pending(input, n.1, n.2) < Pending(input, index, buffer)
  {
    NextConvNone(input, index, buffer);
    NextShrinks(input, index, buffer);
  }

  lemma ConcatRegroup<T>(a: seq<T>, b: seq<T>, c: seq<T>)
    ensures a + (b + c) == (a + b) + c
  {
  }

  lemma IncompleteSnoc(convs: seq<seq<Message>>, c: seq<Message>)
    requires c != [] && forall d :: d in convs ==> d != []
    ensures forall d :: d in convs + [c] ==> d != []
    ensures Incomplete(convs + [c]) == Incomplete(convs) + (if IsComplete(c) then [] else [c])
  {
    assert (convs + [c])[..|convs|] == convs;
  }

  /** The communication pair of a message: its two endpoints, unordered. */
  function PairOf(m: Message): set<Endpoint> {
    {m.src, m.dst}
  }

  /** `is_msg_match`: the message travels between the endpoints `compair`. */
  predicate IsMsgMatch(compair: set<Endpoint>, m: Message) {
    compair == PairOf(m)
  }

  /** The communication pairs of `s`, message by message. */
  function PairsOf(s: seq<Message>): (r: seq<set<Endpoint>>)
    ensures |r| == |s| && forall j :: 0 <= j < |s| ==> r[j] == PairOf(s[j])
  {
    if s == [] then [] else PairsOf(s[..|s| - 1]) + [PairOf(s[|s| - 1])]
  }

  /** The messages of `s` between the endpoints `pair`, in order. */
  function WithPair(s: seq<Message>, pair: set<Endpoint>): seq<Message> {
    if s == [] then []
    else WithPair(s[..|s| - 1], pair) + (if PairOf(s[|s| - 1]) == pair then [s[|s| - 1]] else [])
  }

  /** The group of `pair` holds exactly the messages between those endpoints. */
  lemma {:induction false} WithPairMembers(s: seq<Message>, pair: set<Endpoint>)
    ensures forall m :: m in WithPair(s, pair) <==> m in s && PairOf(m) == pair
  {
    if s != [] {
      WithPairMembers(s[..|s| - 1], pair);
      assert s == s[..|s| - 1] + [s[|s| - 1]];
    }
  }

  /** The group of each pair in `keys`, in that order. */
  function PairGroups(s: seq<Message>, keys: seq<set<Endpoint>>): seq<(set<Endpoint>, seq<Message>)> {
    if keys == [] then [] else PairGroups(s, keys[..|keys| - 1]) + [(keys[|keys| - 1], WithPair(s, keys[|keys| - 1]))]
  }

  /** Entry `i` of the groups is the pair `keys[i]` with its messages. */
  lemma {:induction false} PairGroupsAt(s: seq<Message>, keys: seq<set<Endpoint>>)
    ensures |PairGroups(s, keys)| == |keys|
    ensures forall i :: 0 <= i < |keys| ==> PairGroups(s, keys)[i] == (keys[i], WithPair(s, keys[i]))
  {
    if keys != [] {
      PairGroupsAt(s, keys[..|keys| - 1]);
    }
  }

  /** Splitting by pair loses no message: each one lands in the group of its
      own pair, and the groups' pairs are all different. */
  lemma PairGroupsCover(s: seq<Message>)
    ensures forall m :: m in s ==> PairOf(m) in ConversationParser.Distinct(PairsOf(s)) && m in WithPair(s, PairOf(m))
    ensures var keys := ConversationParser.Distinct(PairsOf(s));
      forall i, j :: 0 <= i < j < |keys| ==> keys[i] != keys[j]
  {
    ConversationParser.DistinctSameValues(PairsOf(s));
    ConversationParser.DistinctNoDuplicates(PairsOf(s));
    forall m | m in s
      ensures PairOf(m) in PairsOf(s) && m in WithPair(s, PairOf(m))
    {
      var j :| 0 <= j < |s| && s[j] == m;
      assert PairsOf(s)[j] == PairOf(m);
      WithPairMembers(s, PairOf(m));
    }
  }

  /** A parser split off for a pair holds only messages that match it. */
  lemma PairGroupMatches(s: seq<Message>, k: set<Endpoint>)
    ensures forall m :: m in WithPair(s, k) ==> m in s && IsMsgMatch(k, m)
  {
    WithPairMembers(s, k);
  }

  /** `int()` of a float: truncation toward zero. */
  function Trunc(x: real): (n: int)
    ensures 0.0 <= x ==> n as real <= x < n as real + 1.0
    ensures x < 0.0 ==> n as real - 1.0 < x <= n as real
  {
    if 0.0 <= x then x.Floor else -((-x).Floor)
  }

  /** The time window of a message, for windows of length `dur`. */
  function Bucket(m: Message, dur: real): int
    requires dur != 0.0
  {
    Trunc(m.time / dur)
  }

  /** The messages of `s` in window `b`, in order. */
  function InBucket(s: seq<Message>, b: int, dur: real): seq<Message>
    requires dur != 0.0
  {
    if s == [] then []
    else InBucket(s[..|s| - 1], b, dur) + (if Bucket(s[|s| - 1], dur) == b then [s[|s| - 1]] else [])
  }

  /** Window `b` holds exactly the messages whose window number is `b`. */
  lemma {:induction false} InBucketMembers(s: seq<Message>, b: int, dur: real)
    requires dur != 0.0
    ensures forall m :: m in InBucket(s, b, dur) <==> m in s && Bucket(m, dur) == b
  {
    if s != [] {
      InBucketMembers(s[..|s| - 1], b, dur);
      assert s == s[..|s| - 1] + [s[|s| - 1]];
    }
  }

  /** The largest window number of `s`, as `max` of the keys. */
  function MaxBucket(s: seq<Message>, dur: real): int
    requires s != [] && dur != 0.0
  {
    if |s| == 1 then Bucket(s[0], dur)
    else
      var front := MaxBucket(s[..|s| - 1], dur);
      var last := Bucket(s[|s| - 1], dur);
      if last > front then last else front
  }

  /** `max` of the window numbers: no message is later, and some message is
      in that window. */
  lemma {:induction false} MaxBucketIsMax(s: seq<Message>, dur: real)
    requires s != [] && dur != 0.0
    ensures forall m :: m in s ==> Bucket(m, dur) <= MaxBucket(s, dur)
    ensures exists j :: 0 <= j < |s| && Bucket(s[j], dur) == MaxBucket(s, dur)
  {
    if |s| > 1 {
      var front := s[..|s| - 1];
      MaxBucketIsMax(front, dur);
      assert forall m :: m in s ==> m in front || m == s[|s| - 1];
      var j :| 0 <= j < |front| && Bucket(front[j], dur) == MaxBucket(front, dur);
      assert s[j] == front[j];
    }
  }

  /** As written, the windows run from 0 to one below the largest window
      number: the messages of the last window, and of any negative one, are
      in none of them. */
  lemma LastWindowDropped(s: seq<Message>, dur: real)
    requires s != [] && dur != 0.0
    ensures exists j :: 0 <= j < |s| && Bucket(s[j], dur) == MaxBucket(s, dur) &&
                        forall i :: 0 <= i < MaxBucket(s, dur) ==> s[j] !in InBucket(s, i, dur)
  {
    MaxBucketIsMax(s, dur);
    var j :| 0 <= j < |s| && Bucket(s[j], dur) == MaxBucket(s, dur);
    forall i | 0 <= i < MaxBucket(s, dur)
      ensures s[j] !in InBucket(s, i, dur)
    {
      InBucketMembers(s, i, dur);
    }
  }

  const ZeroDivision := "ZeroDivisionError"

  /** Windows 0 to `n - 1` of `s`. */
  function Windows(s: seq<Message>, n: nat, dur: real): seq<seq<Message>>
    requires dur != 0.0
  {
    if n == 0 then [] else Windows(s, n - 1, dur) + [InBucket(s, n - 1, dur)]
  }

  /** Window list entry `t` is window `t`. */
  lemma {:induction false} WindowsAt(s: seq<Message>, n: nat, dur: real)
    requires dur != 0.0
    ensures |Windows(s, n, dur)| == n && forall t :: 0 <= t < n ==> Windows(s, n, dur)[t] == InBucket(s, t, dur)
  {
    if n > 0 {
      WindowsAt(s, n - 1, dur);
    }
  }

  /** The `(key, messages)` list of the groups, in key order. */
  method ListGroups(groups: map<set<Endpoint>, seq<Message>>, keys: seq<set<Endpoint>>, s: seq<Message>) returns (r: seq<(set<Endpoint>, seq<Message>)>)
    requires forall k :: k in keys ==> k in groups && groups[k] == WithPair(s, k)
    ensures r == PairGroups(s, keys)
  {
    r := [];
    for j := 0 to |keys|
      invariant r == PairGroups(s, keys[..j])
    {
      var k := keys[j];
      assert PairGroups(s, keys[..j + 1]) == PairGroups(s, keys[..j]) + [(k, WithPair(s, k))] by {
        assert keys[..j + 1][..j] == keys[..j];
      }
      r := r + [(k, groups[k])];
    }
    assert keys[..|keys|] == keys;
  }

  /** `groups` and `keys` are the `defaultdict` of `split_communication_pairs`
      after the messages `s`. */
  ghost predicate Grouped(groups: map<set<Endpoint>, seq<Message>>, keys: seq<set<Endpoint>>, s: seq<Message>) {
    && keys == ConversationParser.Distinct(PairsOf(s))
    && (forall k :: k in keys <==> k in groups)
    && (forall k :: k in groups ==> groups[k] == WithPair(s, k))
    && (forall k :: k !in groups ==> WithPair(s, k) == [])
  }

  lemma WithPairSnoc(s: seq<Message>, m: Message)
    ensures forall k :: WithPair(s + [m], k) == WithPair(s, k) + (if PairOf(m) == k then [m] else [])
  {
    assert (s + [m])[..|s|] == s;
  }

  lemma DistinctPairsSnoc(s: seq<Message>, m: Message)
    ensures var d := ConversationParser.Distinct(PairsOf(s));
      ConversationParser.Distinct(PairsOf(s + [m])) == if PairOf(m) in d then d else d + [PairOf(m)]
  {
    assert (s + [m])[..|s|] == s;
    assert PairsOf(s + [m]) == PairsOf(s) + [PairOf(m)];
    assert (PairsOf(s) + [PairOf(m)])[..|s|] == PairsOf(s);
  }

  /** Appending a message to the open group of its pair keeps the dictionary
      in step with the messages read. */
  lemma GroupExtend(groups: map<set<Endpoint>, seq<Message>>, keys: seq<set<Endpoint>>, s: seq<Message>, m: Message)
    requires Grouped(groups, keys, s) && PairOf(m) in groups
    ensures Grouped(groups[PairOf(m) := groups[PairOf(m)] + [m]], keys, s + [m])
  {
    WithPairSnoc(s, m);
    DistinctPairsSnoc(s, m);
  }

  /** So does opening the group of a new pair with the message. */
  lemma GroupOpen(groups: map<set<Endpoint>, seq<Message>>, keys: seq<set<Endpoint>>, s: seq<Message>, m: Message)
    requires Grouped(groups, keys, s) && PairOf(m) !in groups
    ensures Grouped(groups[PairOf(m) := [m]], keys + [PairOf(m)], s + [m])
  {
    WithPairSnoc(s, m);
    DistinctPairsSnoc(s, m);
  }

  lemma InBucketSnoc(s: seq<Message>, i: nat, dur: real)
    requires i < |s| && dur != 0.0
    ensures forall b :: InBucket(s[..i + 1], b, dur) == InBucket(s[..i], b, dur) + (if Bucket(s[i], dur) == b then [s[i]] else [])
  {
    assert s[..i + 1][..i] == s[..i];
  }

  class Iec104Parser {
    /** The I-format messages of the input. */
    const input: seq<Message>
    /** The communication pair, if the parser was split off for one. */
    const compair: Option<set<Endpoint>>
    /** The cursor into `input`. */
    var index: nat
    /** Spontaneous messages set aside, read before the input. */
    var buffer: seq<Message>
    var conversations: seq<seq<Message>>
    var incomplete: seq<seq<Message>>

    ghost predicate Valid()
      reads this
    {
      index <= |input|
    }

    constructor(inp: seq<Message>, pr: Option<set<Endpoint>>)
      ensures input == KeepInform(inp) && compair == pr
      ensures index == 0 && buffer == [] && conversations == [] && incomplete == [] && Valid()
    {
      input := KeepInform(inp);
      compair := pr;
      index := 0;
      buffer := [];
      conversations := [];
      incomplete := [];
    }

    /** The messages still to read: the side buffer in buffer mode,
        otherwise the input from the cursor. */
    ghost function Unread(buffRead: bool): seq<Message>
      requires Valid()
      reads this
    {
      if buffRead then buffer else input[index..]
    }

    /** `get_symbol`: the next message of the side buffer or of the input;
        `None` stands for the `IndexError` raised when there is none. */
    method GetSymbol(buffRead: bool) returns (r: Option<Message>)
      requires Valid()
      modifies this
      ensures Valid() && conversations == old(conversations) && incomplete == old(incomplete)
      ensures buffRead ==> index == old(index)
      ensures !buffRead ==> buffer == old(buffer)
      ensures r.None? <==> old(Unread(buffRead)) == []
      ensures r.None? ==> index == old(index) && buffer == old(buffer)
      ensures r.Some? ==> r.value == old(Unread(buffRead))[0] && Unread(buffRead) == old(Unread(buffRead))[1..]
      ensures !buffRead && r.Some? ==> index == old(index) + 1
    {
      if buffRead {
        if buffer == [] {
          return None;
        }
        r := Some(buffer[0]);
        buffer := buffer[1..];
        return;
      }
      if index >= |input| {
        return None;
      }
      index := index + 1;
      return Some(input[index - 1]);
    }

    /** `return_symbol`: pushes the message just read back. */
    method ReturnSymbol(val: Message, buffRead: bool)
      requires Valid() && (!buffRead ==> index >= 1)
      modifies this
      ensures Valid() && conversations == old(conversations) && incomplete == old(incomplete)
      ensures buffRead ==> buffer == [val] + old(buffer) && index == old(index)
      ensures !buffRead ==> index == old(index) - 1 && buffer == old(buffer)
    {
      if buffRead {
        buffer := [val] + buffer;
      } else {
        index := index - 1;
      }
    }

    /** The `while True` loop of `get_conversation`, after its first message
        `first` opened a conversation of kind `tp`. */
    method ReadRest(ghost src: seq<Message>, buffRead: bool, tp: ConvType, first: Message)
      returns (conv: seq<Message>, buff: seq<Message>, ghost k: nat)
      requires Valid() && 1 <= |src| && Unread(buffRead) == src[1..]
      modifies this
      ensures Valid() && conversations == old(conversations) && incomplete == old(incomplete)
      ensures buffRead ==> index == old(index)
      ensures !buffRead ==> buffer == old(buffer)
      ensures k <= |src| && Taken(conv, buff, k) == Loop(src, 1, tp, false, [first], []) && Unread(buffRead) == src[k..]
    {
      conv, buff := [first], [];
      var final := false;
      ghost var last := Loop(src, 1, tp, final, conv, buff);
      ghost var i0, b0 := index, buffer;
      k := 1;
      while true
        invariant Valid() && conversations == old(conversations) && incomplete == old(incomplete)
        invariant buffRead ==> index == i0
        invariant !buffRead ==> buffer == b0
        invariant 1 <= k <= |src| && Loop(src, k, tp, final, conv, buff) == last
        invariant Unread(buffRead) == src[k..]
        decreases |src| - k
      {
        ghost var before := Unread(buffRead);
        var row := GetSymbol(buffRead);
        if row.None? {
          assert k == |src|;
          break;
        }
        var m := row.value;
        if final && !IsSpontaneous(m) && !InMiddleRange(m, tp) {
          ReturnSymbol(m, buffRead);
          assert Unread(buffRead) == before by {
            if buffRead {
              assert before == [before[0]] + before[1..];
            }
          }
          break;
        }
        if IsSpontaneous(m) {
          buff := buff + [m];
        } else {
          final := final || InMiddleRange(m, tp);
          conv := conv + [m];
        }
        k := k + 1;
      }
    }

    /** `get_conversation`. */
    method GetConversation() returns (r: Option<seq<Message>>)
      requires Valid()
      modifies this
      ensures Valid() && conversations == old(conversations) && incomplete == old(incomplete)
      ensures (r, index, buffer) == NextConv(input, old(index), old(buffer))
    {
      var buffRead := |buffer| > 0;
      ghost var src := Source(input, index, buffer);
      ghost var i0, b0 := index, buffer;
      assert Unread(buffRead) == src;
      var row := GetSymbol(buffRead);
      if row.None? {
        assert src == [] && Take(src) == Taken([], [], 0);
        return None;
      }
      if IsSpontaneous(row.value) {
        assert Take(src) == Taken([row.value], [], 1);
        assert !buffRead ==> index == i0 + 1 && buffer == b0 + [];
        assert buffRead ==> buffer == b0[1..] + [];
        return Some([row.value]);
      }
      var conv, buff, k := ReadRest(src, buffRead, InitialType(row.value), row.value);
      assert Take(src) == Taken(conv, buff, k);
      assert !buffRead ==> |input[index..]| == |src[k..]| && index == i0 + k;
      buffer := buffer + buff;
      return Some(conv);
    }

    /** `parse_conversations`: every conversation until the input and the
        side buffer are exhausted, and those that are not complete. */
    method ParseConversations()
      requires Valid()
      modifies this
      ensures Valid() && index == |input| && buffer == []
      ensures conversations == AllConvs(input, old(index), old(buffer))
      ensures forall c :: c in conversations ==> c != []
      ensures incomplete == Incomplete(conversations)
    {
      ghost var whole := AllConvs(input, index, buffer);
      AllConvsConserve(input, index, buffer);
      conversations := [];
      incomplete := [];
      while true
        invariant Valid() && forall c :: c in whole ==> c != []
        invariant whole == conversations + AllConvs(input, index, buffer)
        invariant forall c :: c in conversations ==> c != []
        invariant incomplete == Incomplete(conversations)
        decreases Pending(input, index, buffer)
      {
        ghost var rest := AllConvs(input, index, buffer);
        AllConvsStep(input, index, buffer);
        var conv := GetConversation();
        if conv.None? {
          assert whole == conversations + [];
          break;
        }
        var c := conv.value;
        assert rest == [c] + rest[1..] && c in whole;
        ConcatRegroup(conversations, [c], rest[1..]);
        IncompleteSnoc(conversations, c);
        if !IsComplete(c) {
          incomplete := incomplete + [c];
        }
        conversations := conversations + [c];
      }
    }

    /** The `defaultdict` of `split_communication_pairs`: the messages of
        each pair, and the pairs in the order they first occur. */
    method GroupByPair() returns (groups: map<set<Endpoint>, seq<Message>>, keys: seq<set<Endpoint>>)
      ensures keys == ConversationParser.Distinct(PairsOf(input))
      ensures forall k :: k in keys ==> k in groups && groups[k] == WithPair(input, k)
    {
      groups, keys := map[], [];
      for i := 0 to |input|
        invariant Grouped(groups, keys, input[..i])
      {
        var m := input[i];
        var id := PairOf(m);
        assert input[..i + 1] == input[..i] + [m];
        if id in groups {
          GroupExtend(groups, keys, input[..i], m);
          groups := groups[id := groups[id] + [m]];
        } else {
          GroupOpen(groups, keys, input[..i], m);
          groups := groups[id := [m]];
          keys := keys + [id];
        }
      }
      assert input[..|input|] == input;
    }

    /** `split_communication_pairs`: the messages grouped by communication
        pair, the groups in the order their pairs first occur. Each group
        stands for the parser made from it. */
    method SplitCommunicationPairs() returns (r: seq<(set<Endpoint>, seq<Message>)>)
      ensures r == PairGroups(input, ConversationParser.Distinct(PairsOf(input)))
    {
      var groups, keys := GroupByPair();
      r := ListGroups(groups, keys, input);
    }

    /** The `defaultdict` of `split_to_windows`: the messages of each window
        number that occurs. */
    method GroupByWindow(dur: real) returns (chunks: map<int, seq<Message>>)
      requires dur != 0.0
      ensures forall b :: b in chunks ==> chunks[b] == InBucket(input, b, dur)
      ensures forall b :: b !in chunks ==> InBucket(input, b, dur) == []
    {
      chunks := map[];
      for i := 0 to |input|
        invariant forall b :: b in chunks ==> chunks[b] == InBucket(input[..i], b, dur)
        invariant forall b :: b !in chunks ==> InBucket(input[..i], b, dur) == []
      {
        var m := input[i];
        var b := Bucket(m, dur);
        InBucketSnoc(input, i, dur);
        if b in chunks {
          chunks := chunks[b := chunks[b] + [m]];
        } else {
          chunks := chunks[b := [m]];
        }
      }
      assert input[..|input|] == input;
    }

    /** `split_to_windows`: the messages of windows 0, 1, ... up to one below
        the largest window number; a window with no message is empty.
        Windows of length 0 divide by zero as soon as there is a message. */
    method SplitToWindows(dur: real) returns (r: Result<seq<seq<Message>>, string>)
      ensures input == [] ==> r == Success([])
      ensures input != [] && dur == 0.0 ==> r == Failure(ZeroDivision)
      ensures input != [] && dur != 0.0 ==>
        && r.Success?
        && r.value == Windows(input, if MaxBucket(input, dur) > 0 then MaxBucket(input, dur) else 0, dur)
    {
      if input == [] {
        return Success([]);
      }
      if dur == 0.0 {
        return Failure(ZeroDivision);
      }
      var chunks := GroupByWindow(dur);
      var top := MaxBucket(input, dur);
      var ret: seq<seq<Message>> := [];
      var i := 0;
      while i < top
        invariant 0 <= i <= (if top > 0 then top else 0)
        invariant ret == Windows(input, i, dur)
      {
        var window := if i in chunks then chunks[i] else [];
        ret := ret + [window];
        i := i + 1;
      }
      return Success(ret);
    }
  }
}
