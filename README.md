# detano in Dafny

A model of detano, an anomaly detector for IEC 60870-5-104 traffic. It
learns probabilistic automata from conversations between SCADA stations and
checks new traffic against them. This model covers the following.

* **Weighted automata** (`CoreWfa`, `core_wfa.dfy`). This module covers:
  * collecting states and the alphabet;
  * dense renaming;
  * the synchronised product;
  * breadth-first search, forward and backward;
  * restriction and trimming;
  * the determinism test;
  * deterministic acceptance.

  An automaton is a value: `rename_states` returns the renamed automaton and
  its numbering instead of rewriting the object.
* **Export** (`CoreWfaExport`, `core_wfa_export.dfy`). This module covers:
  * transitions aggregated per pair of states;
  * the `.fa` text writer;
  * the final-state list of the DOT output;
  * DOT edge labels.
* **Parsers of automata** (`WfaParser`, `wfa_parser.dfy`). This module
  covers:
  * the `.fa` line tokenizer, as functions and as the original's character
    loops;
  * the `.fa` reader;
  * the Treba reader;
  * a proof that writing an automaton with `to_fa_format(initial=True)` and
    reading it back gives the same transitions, final weights and start
    state.
* **Escaping** (`AuxFunctions`, `aux_functions.dfy`): `convert_to_pritable`.
* **Python built-ins** (`PyBuiltins`, `py_builtins.dfy`). The parsers and
  printers rely on `str.isspace`, `str.strip`, `str(int)`, `int(str)` and
  `str.split`, and these are written out here with their round trips.
* **Packet loss** (`PacketLoss`, `packet_loss.dfy`): the dynamic-programming
  table of `compatible_strings`, proved to decide "is a subsequence of".
* **Member-based detection** (`Member`, `member.dfy`): the conversations a
  golden automaton rejects.
* **Pruning of golden automata** (`Distance`, `distance.dfy`): the greedy
  removal under an error bound.
* **Reading divided conversations** (`Iec104ConvParser`,
  `iec104_conv_parser.dfy`): a class over the input rows and an index that
  parses each row's `Data` field of `<asduType.cot>` pieces, with the round
  trip from messages to a line and back.
* **Splitting message streams** (`ConversationParser`,
  `conversation_parser.dfy`): `ConvParser.get_conversation` as a class over
  the remaining messages, its message classifiers, `filter_to_conversations`
  and `values_bidict`.
* **The IEC 104 conversation scanner** (`Iec104Parser`, `iec104_parser.dfy`).
  `IEC104Parser` is a class with a cursor into the I-format messages and a
  side buffer of spontaneous messages. Its `get_conversation` is proved
  against a specification of one call, and `parse_conversations` against
  the list of all calls. The module also has the split by communication
  pair and by time window.

* **Frequency automata** (`Ffa`, `ffa.dfy`). `FFA` is a class over its
  states, rows of transitions, initial and final counts. The module covers
  successors, the reachable states, `trim`, `rename_states` and `to_wfa`.
* **Deterministic frequency automata** (`Dffa`, `dffa.dfy`). This module
  covers:
  * state frequencies and the predecessor search;
  * `stochastic_fold` and `stochastic_merge`, in place;
  * the Alergia compatibility test;
  * `normalize`, proved to give a stochastic automaton: at every state the
    outgoing weights and the final weight add up to 1.
* **Frequency prefix trees** (`Fpt`, `fpt.dfy`). `add_string` and
  `add_string_list` are proved to keep the object the prefix tree of the
  strings added so far. The frequency of every state is the number of
  strings passing through it.
* **Alergia** (`Alergia`, `alergia.dfy`). This module covers:
  * `sorted` over states, which are tuples of symbols, with Python's order
    on tuples and on the strings of the CSV fields;
  * the choice of the blue and the red state;
  * the red/blue loop, stated as a run: a sequence of configurations
    (counts, states, red states) in which each round takes the least blue
    state with enough frequency and either makes it red, when the
    compatibility test rejects it for every red state, or merges it into
    the least red state the test accepts and trims the automaton. The loop
    keeps the automaton well formed, keeps the red states among its states,
    and never lowers the frequency of a state.
* **Distribution comparison** (`DistrComparison`, `distr_comparison.dfy`).
  This module covers:
  * `euclid_distance` over the trimmed, renamed products, with the fallback
    from the exact to the iterated solver and the final clamp to [0, 1];
  * `apply_detection` and `detect`;
  * `remove_identical` and `remove_euclid_similar`, on a class whose golden
    map is updated in place.
* **The detection driver** (`AnomalyCheck`, `anomaly_check.dfy`). This
  module covers:
  * the message abstraction;
  * messages abstracted to the text of their ASDU type and cause of
    transmission fields;
  * the two learning procedures, proved to return a stochastic automaton
    with a single initial state of weight 1. The `PTA` procedure is the
    renamed and normalised prefix tree of the training strings: a transition
    on `y` from the number of a prefix `p` weighs the share of the strings
    through `p` that go on through `p + [y]`. The `PA` procedure is the
    renamed and normalised end of an Alergia run on that tree, with
    significance 0.05 and the threshold of the original. An automaton
    "learned from" some strings is one of these two results on them;
  * the training strings of a pair or of a window: the conversations a
    parser over its messages finds, abstracted;
  * `ent_format`;
  * the golden maps of both detection methods, each entry learned from the
    training strings of its own pair or window.

Weights are real numbers. Everything that turns reals into text or back
(`str(float)`, `float(str)`, `round`) is a function parameter. So are
Python's `hex` on symbols and the natural logarithm. A parameter comes with
a predicate of the properties a proof needs, such as `SoundReals`: printing
a real gives a single white-space-free token that parses back to the same
real.

## Model

| member | source | states |
|---|---|---|
| CoreWfa.GetAlphabet | src/wfa/core_wfa.py:121-133 | the explicit alphabet when one was given, otherwise exactly the symbols that occur on transitions |
| CoreWfa.GetStates | src/wfa/core_wfa.py:143-167 | the states are the union of the initial and final states and the sources and destinations of all transitions |
| CoreWfa.StatesCover | src/wfa/core_wfa.py:143-167 | every initial, final, source and destination state is among the collected states |
| CoreWfa.FilterTransitions | src/wfa/core_wfa.py:386-389 | a transition is kept iff both its ends are in the state set |
| CoreWfa.FilterStart | src/wfa/core_wfa.py:398-400 | an initial entry is kept iff its state is in the set; the result is empty iff no initial survives |
| CoreWfa.RestrictStart | src/wfa/core_wfa.py:398-403 | surviving initials are kept; if none survives but there was one, the first original initial is kept alone |
| CoreWfa.KeepTransitions | src/wfa/core_wfa.py:386-389 | the transition loop of the restriction computes the filtered transitions |
| CoreWfa.KeepFinals | src/wfa/core_wfa.py:391-393 | the finals kept are exactly those in the state set, with their weights |
| CoreWfa.KeepEntries | src/wfa/core_wfa.py:398-400 | the loop over the initials keeps exactly the entries whose state is in the set, in their order |
| CoreWfa.KeepStart | src/wfa/core_wfa.py:398-403 | the initial loop computes the restricted initials |
| CoreWfa.GetAutomataRestriction | src/wfa/core_wfa.py:375-406 | the restriction keeps transitions and finals inside the set and the initials as above |
| CoreWfa.ReachableStep | src/wfa/core_wfa.py:329-347 | the destination of a transition leaving a reachable state is reachable |
| CoreWfa.ClosedContainsReachable | src/wfa/core_wfa.py:329-347 | a set closed under transitions that holds the sources holds every reachable state |
| CoreWfa.ReachableIsState | src/wfa/core_wfa.py:329-347 | a reachable state is a source or a state of the automaton |
| CoreWfa.EnqueueSuccessors | src/wfa/core_wfa.py:344-347 | the loop over the head's transitions only appends, after the old queue, successors of the head that are neither visited nor queued; afterwards every successor of the head is visited or queued |
| CoreWfa.SearchStep | src/wfa/core_wfa.py:341-347 | one round of the search keeps every queued state reachable, keeps the visited states closed up to the queue, and decreases the measure of unvisited states and queue length |
| CoreWfa.BreadthFirstSearch | src/wfa/core_wfa.py:329-347 | the visited set grows to exactly the old visited states plus the states reachable from `state`, and stays closed under transitions |
| CoreWfa.ReachableUnion | src/wfa/core_wfa.py:363-372 | reachability from a union of sources is reachability from one of them, so searching from each initial in turn is enough |
| CoreWfa.GetAccessibleStates | src/wfa/core_wfa.py:363-372 | the accessible states are exactly those reachable from an initial state |
| CoreWfa.Reversed | src/wfa/core_wfa.py:231-240 | the reversed automaton has every transition with its ends swapped, in the same order, with finals, initials and alphabet carried over |
| CoreWfa.GetRevTransitionsAut | src/wfa/core_wfa.py:231-240 | the construction loop builds the reversed automaton |
| CoreWfa.ReversedEdge | src/wfa/core_wfa.py:231-240 | an edge of the reversed automaton is an edge of the original read backwards |
| CoreWfa.BackwardsPath | src/wfa/core_wfa.py:231-240 | a path read backwards is a path of the reversed automaton, and conversely |
| CoreWfa.ReversedReachable | src/wfa/core_wfa.py:350-360 | reachability in the reversed automaton is co-reachability in the original |
| CoreWfa.GetCoaccessibleStates | src/wfa/core_wfa.py:350-360 | the co-accessible states are exactly those from which a final state is reachable |
| CoreWfa.GetTrimAutomaton | src/wfa/core_wfa.py:409-416 | trimming is the restriction to the states that are both accessible and co-accessible |
| CoreWfa.GetPredecessors | src/wfa/core_wfa.py:419-430 | the predecessors of a state are exactly the sources of transitions into it |
| CoreWfa.AddToGroups | src/wfa/core_wfa.py:216-228 | adding one transition keeps the dictionary equal to the grouping by source and symbol of the transitions seen so far |
| CoreWfa.GetStateSymbolDict | src/wfa/core_wfa.py:216-228 | every state has an entry; under each symbol, a state holds exactly its transitions on that symbol, never an empty set |
| CoreWfa.AtMostOne | src/wfa/core_wfa.py:448-456 | a set has at most one element iff any two of its elements are equal |
| CoreWfa.IsDeterministic | src/wfa/core_wfa.py:448-456 | true iff there is at most one initial state and no state has two distinct transitions on one symbol |
| CoreWfa.FirstTransition | src/wfa/core_wfa.py:459-474 | the transition taken on a symbol, when there is one, leaves the state on that symbol; there is none iff no transition does |
| CoreWfa.RunFrom | src/wfa/core_wfa.py:459-474 | a run from a state never raises; only an empty start or a non-positive first initial weight does |
| CoreWfa.StringProbDeterministic | src/wfa/core_wfa.py:459-474 | the loop computes the deterministic acceptance of the word |
| CoreWfa.AcceptedHasRun | src/wfa/core_wfa.py:459-474 | an accepted word has a run of positive-weight transitions ending in a positive final state |
| CoreWfa.RunIsAccepted | src/wfa/core_wfa.py:459-474 | in a deterministic automaton such a run makes the word accepted |
| CoreWfa.DeterministicRejection | src/wfa/core_wfa.py:459-474 | a deterministic automaton with a positive initial weight rejects a word iff the word has no positive run |
| CoreWfa.RenamedTransitions | src/wfa/core_wfa.py:268-272 | each transition keeps its symbol and weight, with both ends renamed |
| CoreWfa.RenamedStart | src/wfa/core_wfa.py:254-257 | each initial keeps its weight and position, with its state renamed |
| CoreWfa.RenamedFinals | src/wfa/core_wfa.py:264-266 | each final keeps its weight under the new name, and no other names are final |
| CoreWfa.ExtendNumbering | src/wfa/core_wfa.py:254-262 | numbering one more state with the next number keeps the numbering a bijection onto 0..n |
| CoreWfa.NumberInitials | src/wfa/core_wfa.py:254-257 | the initials get 0, 1, 2, … in start order |
| CoreWfa.NumberRest | src/wfa/core_wfa.py:259-262 | the remaining states get the next numbers, and the numbering stays a bijection onto 0..n-1 |
| CoreWfa.NumberStates | src/wfa/core_wfa.py:254-262 | every state gets a number, numbers are 0..n-1 without repetition, and the initials come first in start order |
| CoreWfa.RenameInitials | src/wfa/core_wfa.py:254-257 | the loop renames the initials |
| CoreWfa.RenameFinals | src/wfa/core_wfa.py:264-266 | the loop renames the finals |
| CoreWfa.RenameTransitions | src/wfa/core_wfa.py:268-272 | the loop renames the transitions |
| CoreWfa.RenameStates | src/wfa/core_wfa.py:243-277 | the result is the automaton renamed by a bijection onto 0..n-1 that numbers the initials first |
| CoreWfa.RenamedFirstTransition | src/wfa/core_wfa.py:243-277 | renaming maps the transition taken on a symbol to the renamed transition |
| CoreWfa.RenamedFinal | src/wfa/core_wfa.py:243-277 | a state is final with a weight iff its new name is, with the same weight |
| CoreWfa.RenamedRun | src/wfa/core_wfa.py:243-277 | a run from a renamed state gives the same result as from the original state |
| CoreWfa.RenamePreservesStringProb | src/wfa/core_wfa.py:243-277 | renaming does not change the acceptance of any word |
| CoreWfa.DistinctConcat | src/wfa/core_wfa.py:296-302 | joining two initial lists with disjoint keys keeps the keys distinct |
| CoreWfa.StartRowMembers | src/wfa/core_wfa.py:296-302 | one row of product initials pairs a state with every initial of the second automaton, with the weights multiplied |
| CoreWfa.StartRowDistinct | src/wfa/core_wfa.py:296-302 | a row of product initials has distinct keys |
| CoreWfa.ProductStartMembers | src/wfa/core_wfa.py:296-302 | the product initials are exactly the pairs of initials, with weight w1·w2 |
| CoreWfa.ProductStartFrom | src/wfa/core_wfa.py:296-299 | every product initial is a pair of initials with the product of their weights |
| CoreWfa.ProductStartHas | src/wfa/core_wfa.py:296-299 | every pair of initials is a product initial, with the product of their weights |
| CoreWfa.ProductStartDistinct | src/wfa/core_wfa.py:296-302 | the product initials have distinct keys |
| CoreWfa.CountFinishedAppend | src/wfa/core_wfa.py:314-326 | the count of finished states in a queue adds up over concatenation |
| CoreWfa.PairStatesMember | src/wfa/core_wfa.py:280-326 | a pair is a candidate product state iff both components are states |
| CoreWfa.ExpandWith | src/wfa/core_wfa.py:315-324 | each matching second transition adds one combined transition, and its target joins the queue |
| CoreWfa.Expand | src/wfa/core_wfa.py:314-324 | expanding a pair adds every combination of transitions with equal symbols leaving its components |
| CoreWfa.ProductInitials | src/wfa/core_wfa.py:296-302 | the initial loop builds the product initials and queues their states |
| CoreWfa.ProductStep | src/wfa/core_wfa.py:305-324 | one round of the worklist keeps the product invariant and finishes one more pair |
| CoreWfa.ProductStepKeepsInv | src/wfa/core_wfa.py:305-324 | after one round of the worklist, every transition found combines two transitions with equal symbols, every combination from a finished pair is found, and the finals are correct |
| CoreWfa.ProductExplore | src/wfa/core_wfa.py:305-324 | the worklist loop ends with an empty queue and the product invariant holding |
| CoreWfa.ProductDone | src/wfa/core_wfa.py:305-326 | once the queue is empty, every state of the product is a finished pair |
| CoreWfa.Product | src/wfa/core_wfa.py:280-326 | initials are pairs of initials with weight w1·w2; every transition pairs two transitions with equal symbols and weight w1·w2, and every such pair from a reached state is present; a reached pair is final iff both components are final, with weight f1·f2; the alphabet is the intersection |
| AuxFunctions.HexDigitsRoundTrip | src/wfa/aux_functions.py:34-35 | the hexadecimal digits of a code read back as the code |
| AuxFunctions.SecondBranchUnreachable | src/wfa/aux_functions.py:34-39 | the `elif` branch can never be taken, because its condition implies the first branch's |
| AuxFunctions.HexHasNoQuote | src/wfa/aux_functions.py:34-35 | an escape sequence contains no quote |
| AuxFunctions.EscapeCharSpec | src/wfa/aux_functions.py:33-40 | printable characters other than quotes, and backslashes outside DOT output, are copied; the rest become a backslash and `hex` of their code, which reads back as the code; a backslash is kept in DOT output |
| AuxFunctions.EscapeCharNoQuote | src/wfa/aux_functions.py:33-40 | no character's encoding contains a quote |
| AuxFunctions.ConvertToPrintable | src/wfa/aux_functions.py:23-40 | the loop output is the concatenation of the per-character encodings |
| AuxFunctions.ConvertedConcat | src/wfa/aux_functions.py:23-40 | converting `a + b` gives the conversion of `a` followed by that of `b` |
| AuxFunctions.ConvertedShape | src/wfa/aux_functions.py:23-40 | the output is never shorter than the input and contains no quote |
| AuxFunctions.ConvertedNotInjective | src/wfa/aux_functions.py:23-40 | two different inputs can have the same output |
| PyBuiltins.LStripSlice | src/parser/wfa_parser.py:93 | left stripping removes exactly a prefix of white space |
| PyBuiltins.RStripSlice | src/parser/wfa_parser.py:93 | right stripping removes exactly a suffix of white space |
| PyBuiltins.StripSlice | src/parser/wfa_parser.py:93 | `strip` returns the slice of the input between white-space-only ends |
| PyBuiltins.StripEnds | src/parser/wfa_parser.py:93 | a stripped string neither starts nor ends with white space |
| PyBuiltins.StripNoEdges | src/parser/wfa_parser.py:93 | a string without white space at its ends is unchanged by `strip` |
| PyBuiltins.StripNewline | src/parser/wfa_parser.py:93 | a line written with a trailing newline strips back to its text |
| PyBuiltins.StripAllSpace | src/parser/wfa_parser.py:93 | a white-space-only string strips to the empty string |
| PyBuiltins.DecimalDigits | src/wfa/core_wfa_export.py:135 | `str` of a natural number is a non-empty string of digits |
| PyBuiltins.IntToString | src/wfa/core_wfa_export.py:135 | `str` of an integer is digits with an optional leading minus sign |
| PyBuiltins.IntRoundTrip | src/parser/wfa_parser.py:118-124 | `int(str(n)) == n` for every integer |
| PyBuiltins.FindChar | src/parser/wfa_parser.py:65 | the first separator position: nothing before it is the separator |
| PyBuiltins.Split | src/parser/wfa_parser.py:65 | `split` returns at least one piece, and no piece contains the separator |
| PyBuiltins.SplitJoin | src/parser/wfa_parser.py:65 | joining the pieces with the separator gives the string back |
| PyBuiltins.JoinSplit | src/parser/wfa_parser.py:65 | splitting the join of separator-free pieces gives the pieces back |
| WfaParser.StopAt | src/parser/wfa_parser.py:95-103 | the token ends at the first stop character: a space, or `"` in quoted mode |
| WfaParser.ItemFailure | src/parser/wfa_parser.py:87-104 | `_parse_item` fails exactly on a line that strips to a lone `"`; a blank line gives an empty token and an empty rest |
| WfaParser.ItemNoStop | src/parser/wfa_parser.py:95-103 | a token contains no stop character of its mode |
| WfaParser.ItemReassembles | src/parser/wfa_parser.py:87-104 | the stripped line is the opening quote if any, the token, at most one delimiter and the rest, in that order |
| WfaParser.ParseItem | src/parser/wfa_parser.py:87-104 | the character loop computes the token and the rest |
| WfaParser.ParseLine | src/parser/wfa_parser.py:108-113 | the token loop computes the tokens of the line |
| WfaParser.BlankLineIsOneEmptyToken | src/parser/wfa_parser.py:108-113 | a non-empty white-space-only line yields the single empty token |
| WfaParser.ItemsOfRendered | src/parser/wfa_parser.py:87-113 | a line of rendered bare and quoted tokens, however padded, yields exactly the tokens' texts |
| WfaParser.FirstItem | src/parser/wfa_parser.py:87-104 | the first token of a rendered line is read whole; after a bare token the rest starts past its space, after a quoted one at the closing quote's successor |
| WfaParser.RestOfRendered | src/parser/wfa_parser.py:108-113 | after the first token of a rendered line, the rest strips to the rendering of the remaining tokens |
| WfaParser.ItemsOfOne | src/parser/wfa_parser.py:108-113 | a line holding one well-formed token, however padded, reads back as that token |
| WfaParser.FaRead | src/parser/wfa_parser.py:127-141 | the start state has weight 1.0 and the transitions are those read, in order |
| WfaParser.FaToWfa | src/parser/wfa_parser.py:127-141 | the reading loop computes the `.fa` reader's result |
| WfaParser.ReadFaLine | src/parser/wfa_parser.py:130-138 | one pass of the loop computes the line step: four tokens add a transition, two set a final weight, one sets the start, an unreadable number fails |
| WfaParser.ReadFaLines | src/parser/wfa_parser.py:129-138 | the loop computes the fold of the line steps, and stops at the first line that fails |
| WfaParser.FoldNext | src/parser/wfa_parser.py:129-138 | reading one more line applies that line's step to the state read so far |
| WfaParser.FoldFailureSticks | src/parser/wfa_parser.py:127-141 | a line that fails makes the whole read fail with its error |
| WfaParser.TrebaRead | src/parser/wfa_parser.py:45-83 | the start is state 0 with weight 1.0 |
| WfaParser.TrebaToWfa | src/parser/wfa_parser.py:45-83 | the reading loop computes the Treba reader's result |
| WfaParser.TrebaFailureSticks | src/parser/wfa_parser.py:45-83 | a failing line makes the whole read fail with its error |
| WfaParser.TrebaKeepsPositive | src/parser/wfa_parser.py:60-81 | every transition and final weight kept is positive |
| WfaParser.TrebaReadPositive | src/parser/wfa_parser.py:60-81 | the automaton read has only positive transition and final weights |
| WfaParser.TrebaRejectsBadLine | src/parser/wfa_parser.py:78-81 | a line with neither 2 nor 4 fields makes the read fail |
| WfaParser.ReadRenderedLine | src/parser/wfa_parser.py:108-113 | a written line of tokens reads back as the tokens' texts |
| WfaParser.ReadTransitionLine | src/wfa/core_wfa_export.py:141-143 | a written transition line tokenizes to source, destination, symbol and weight |
| WfaParser.ReadFinalLine | src/wfa/core_wfa_export.py:144-145 | a written final line tokenizes to the state and its weight |
| WfaParser.ReadStartLine | src/wfa/core_wfa_export.py:134-135 | a written start line tokenizes to the state |
| WfaParser.TransitionLineShape | src/wfa/core_wfa_export.py:141-143 | a transition line is its four tokens, the symbol quoted, separated by single spaces and ended by a newline |
| WfaParser.TransitionStep | src/parser/wfa_parser.py:131-134 | reading a written transition line appends exactly that transition |
| WfaParser.FinalStep | src/parser/wfa_parser.py:135-136 | reading a written final line sets exactly that state's weight |
| WfaParser.FoldKnown | src/parser/wfa_parser.py:130-138 | lines whose steps are known take the reader through the corresponding states |
| WfaParser.FoldTransitionLines | src/parser/wfa_parser.py:131-134 | reading the written transition lines appends the transitions in order |
| WfaParser.FoldFinalLines | src/parser/wfa_parser.py:135-136 | reading the written final lines yields the final weights of the listed states |
| WfaParser.FoldStartLine | src/parser/wfa_parser.py:137-138 | reading a written start line sets the start state |
| WfaParser.FoldHeadTransitions | src/parser/wfa_parser.py:127-141 | reading the start line and the transition lines gives the start state and the transitions in order, with no finals yet |
| WfaParser.FoldFaText | src/parser/wfa_parser.py:127-141 | reading the whole written text gives the transitions in order, the final weights and the start state |
| WfaParser.FaRoundTrip | src/parser/wfa_parser.py:127-141 | reading what `to_fa_format(initial=True)` writes gives back the transitions in order, the final weights and the start state with weight 1.0, for any order of the final lines |
| CoreWfaExport.SymbolsBetweenMembers | src/wfa/core_wfa_export.py:37-53 | a symbol is aggregated for a pair iff some transition between the pair carries it |
| CoreWfaExport.AggregateSpec | src/wfa/core_wfa_export.py:37-53 | there is one entry per pair joined by a transition; it holds the pair's symbols in transition order, at least one, and their summed weight |
| CoreWfaExport.AggregateStep | src/wfa/core_wfa_export.py:42-52 | one loop step adds the transition's symbol and weight to its pair's entry and leaves the other entries alone |
| CoreWfaExport.AggregatePrefix | src/wfa/core_wfa_export.py:42-52 | the aggregate after one more transition of the list adds that transition to its pair's entry |
| CoreWfaExport.GetAggregatedTransitions | src/wfa/core_wfa_export.py:37-53 | the loop computes the aggregation of the transitions |
| CoreWfaExport.Enumerate | src/wfa/core_wfa_export.py:138 | iterating a set visits each element exactly once |
| CoreWfaExport.WriteAlphabet | src/wfa/core_wfa_export.py:136-140 | the alphabet line lists every symbol of the alphabet once |
| CoreWfaExport.WriteTransitions | src/wfa/core_wfa_export.py:141-143 | the loop appends one line per transition, in list order, after the text written so far |
| CoreWfaExport.WriteFinals | src/wfa/core_wfa_export.py:144-145 | the loop appends one line per final state, in the given order, each with the state's weight |
| CoreWfaExport.ToFaFormat | src/wfa/core_wfa_export.py:124-147 | fails iff there is not exactly one initial state; otherwise the output is the optional start line, the optional alphabet line, the transition lines in order and one line per final state |
| CoreWfaExport.DotFinalStates | src/wfa/core_wfa_export.py:68-80 | the DOT final-state list holds each final state of non-zero weight exactly once, and no other |
| CoreWfaExport.EscapeCodeAgrees | src/wfa/core_wfa_export.py:167-168 | escaping a symbol's code is the DOT escaping of its character |
| CoreWfaExport.InsertSorted | src/wfa/core_wfa_export.py:165 | inserting into a sorted sequence keeps it sorted |
| CoreWfaExport.InsertPermutes | src/wfa/core_wfa_export.py:165 | inserting adds exactly the one element |
| CoreWfaExport.SortSpec | src/wfa/core_wfa_export.py:165 | `sorted` returns a non-decreasing permutation of its input |
| CoreWfaExport.EscapeAllDefined | src/wfa/core_wfa_export.py:165-172 | the symbols escape without error iff every one is a code point |
| CoreWfaExport.FormatSymbols | src/wfa/core_wfa_export.py:158-174 | the loop with its decrementing counter escapes the first 25 sorted symbols and then writes `... n` |
| CoreWfaExport.EscapeAllPrefixNone | src/wfa/core_wfa_export.py:165-172 | a symbol that is not a code point makes every longer prefix fail |
| CoreWfaExport.FormatLabelLoop | src/wfa/core_wfa_export.py:150-175 | a single symbol gets weight to 2 places; symbols equal to the alphabet give `^[]`; otherwise the bracketed capped list with weight to 3 places |
| CoreWfaExport.EscapeCodeNoQuote | src/wfa/core_wfa_export.py:167-168 | an escaped symbol contains no `"` |
| CoreWfaExport.EscapeAllNoQuote | src/wfa/core_wfa_export.py:165-172 | the escaped symbols contain no `"` |
| CoreWfaExport.LabelNoQuote | src/wfa/core_wfa_export.py:114-121 | a label contains no `"`, so the quoted DOT label stays well formed |
| CoreWfaExport.SortedUnique | src/wfa/core_wfa_export.py:165 | two sorted sequences with the same elements are equal |
| CoreWfaExport.LabelOrderInsensitive | src/wfa/core_wfa_export.py:160-175 | the label of an aggregated edge does not depend on the order of its transitions |
| PacketLoss.CompatibleStrings | src/detection/packet_loss.py:23-34 | the table method returns true iff the first conversation is a subsequence of the second |
| PacketLoss.FillRow | src/detection/packet_loss.py:29-33 | filling a row keeps every filled cell at 1 exactly when that prefix of the first conversation is a subsequence of that prefix of the second, and leaves later rows at 0 |
| PacketLoss.SubCell | src/detection/packet_loss.py:30-33 | a cell is 1 iff its left neighbour is, or the elements match and its upper-left neighbour is |
| PacketLoss.SubHasEmbedding | src/detection/packet_loss.py:23-34 | when the table's recurrence holds, the first sequence maps into the second by strictly increasing positions holding equal elements |
| PacketLoss.EmbeddingGivesSub | src/detection/packet_loss.py:23-34 | any such increasing map makes the recurrence hold |
| PacketLoss.SubIffEmbedding | src/detection/packet_loss.py:23-34 | compatibility is exactly "obtainable by dropping elements", in both directions |
| PacketLoss.SubNotLonger | src/detection/packet_loss.py:26-34 | a compatible conversation is never longer than the other |
| PacketLoss.LongerIncompatible | src/detection/packet_loss.py:26-34 | a longer conversation is never compatible |
| PacketLoss.SubReflexive | src/detection/packet_loss.py:23-34 | every conversation is compatible with itself |
| PacketLoss.SubAppend | src/detection/packet_loss.py:29-31 | compatibility survives appending any suffix to the second conversation |
| Member.ApplyDetection | src/detection/member.py:55-66 | the filter loop computes the detection; with no automaton the whole window is returned |
| Member.UnacceptedFailureSticks | src/detection/member.py:60-64 | once a conversation raises, the whole detection raises |
| Member.UnacceptedRaises | src/detection/member.py:60-66 | detection with one automaton raises iff the window is not empty and the automaton has no positive first initial weight |
| Member.UnacceptedMembers | src/detection/member.py:60-66 | otherwise the result holds exactly the window's conversations that are rejected |
| Member.UnacceptedOrdered | src/detection/member.py:60-66 | the result keeps window order: it is a subsequence of the window |
| Member.ReportedIffNoRun | src/detection/member.py:60-66 | for a deterministic automaton, a conversation is reported iff it has no run of positive weights ending in a positive final state |
| Member.EmptyWindow | src/detection/member.py:55-66 | an empty window gives no anomalies |
| Member.Detect | src/detection/member.py:39-48 | detection uses the pair's golden entry; a pair missing from the map raises |
| Distance.InsertByValueSorted | src/algorithms/distance.py:51 | inserting an item into items sorted by distance keeps them sorted |
| Distance.InsertByValuePerm | src/algorithms/distance.py:51 | inserting adds exactly that item |
| Distance.SortByValueSpec | src/algorithms/distance.py:51 | the sorted items are a permutation of the dictionary items in non-decreasing order of distance |
| Distance.FirstJoin | src/algorithms/distance.py:38-41 | the value found is 0 or the distance of one of the edges |
| Distance.SumJoinsRemove | src/algorithms/distance.py:37-41 | the error bound does not depend on the order in which the removed set is iterated |
| Distance.FindJoin | src/algorithms/distance.py:38-41 | the inner loop with its `break` finds the first edge joining the point to a surviving point |
| Distance.GetErrorBound | src/algorithms/distance.py:35-42 | the loop over the removed set computes the error bound, in any iteration order |
| Distance.ComputeSubsetError | src/algorithms/distance.py:48-61 | the result is the points minus those the greedy loop removes, so a subset of the points |
| Distance.RemovalGrows | src/algorithms/distance.py:53-60 | the loop only adds points, each an end of a visited edge |
| Distance.RemovalWithinBound | src/algorithms/distance.py:57-59 | after every addition the bound of the removed set is at most the maximum error |
| Distance.SumJoinsNonNegative | src/algorithms/distance.py:35-42 | with non-negative distances the bound is not negative |
| Distance.NegativeBoundRemovesNothing | src/algorithms/distance.py:57-59 | a negative maximum error removes nothing |
| Distance.PruningCanEmpty | src/algorithms/distance.py:35-61 | two automata within the maximum error of each other, with both ordered pairs present, are both removed and nothing remains |
| Iec104ConvParser.DigitRun | src/parser/IEC104_conv_parser.py:103 | the run is the longest prefix of ASCII digits: all digits, and the next character, if any, is not one |
| Iec104ConvParser.ParseData | src/parser/IEC104_conv_parser.py:92-105 | the loop over the comma-separated pieces computes the pairs of the pieces, failing at the first piece that does not match |
| Iec104ConvParser.PairsFailureSticks | src/parser/IEC104_conv_parser.py:102-104 | once a piece fails to match, the whole parse fails with that error |
| Iec104ConvParser.PairsOfSucceeds | src/parser/IEC104_conv_parser.py:102-105 | parsing succeeds iff every piece matches |
| Iec104ConvParser.PairsOfValues | src/parser/IEC104_conv_parser.py:102-105 | a successful parse has one pair per piece, the i-th being the match of the i-th piece |
| Iec104ConvParser.BadPieceFails | src/parser/IEC104_conv_parser.py:103-104 | a piece that does not start with `<digits.digits>` makes the parse fail |
| Iec104ConvParser.DigitsThenOf | src/parser/IEC104_conv_parser.py:103 | a digit group followed by its delimiter is read as exactly that group |
| Iec104ConvParser.MatchPairText | src/parser/IEC104_conv_parser.py:103-104 | the match reads `<a.b>` back as the pair of digit strings, whatever follows the `>` |
| Iec104ConvParser.PairTextNoComma | src/parser/IEC104_conv_parser.py:101 | a written message holds no comma, so splitting never cuts it |
| Iec104ConvParser.TextsParse | src/parser/IEC104_conv_parser.py:101-104 | every written message is comma-free and reads back as itself |
| Iec104ConvParser.PairsOfTexts | src/parser/IEC104_conv_parser.py:102-105 | parsing the written pieces gives the messages back |
| Iec104ConvParser.ParseDataRoundTrip | src/parser/IEC104_conv_parser.py:92-105 | writing messages as comma-separated `<a.b>` pieces and parsing the line gives the messages back |
| Iec104ConvParser.NextData | src/parser/IEC104_conv_parser.py:116-118 | the row found is the first at or after the index with non-empty data, every row skipped has none |
| Iec104ConvParser.SkipEmpty | src/parser/IEC104_conv_parser.py:117-118 | rows without data add no conversation |
| Iec104ConvParser.ConvsFailureSticks | src/parser/IEC104_conv_parser.py:63-66 | once a row fails to parse, parsing all conversations fails with that error |
| Iec104ConvParser.OneConversationPerRow | src/parser/IEC104_conv_parser.py:57-66 | on success there is exactly one conversation per row with non-empty data |
| Iec104ConvParser.Iec104ConvParser.constructor | src/parser/IEC104_conv_parser.py:44-54 | the parser starts at the first row with no conversations |
| Iec104ConvParser.Iec104ConvParser.GetLine | src/parser/IEC104_conv_parser.py:80-89 | returns the row at the index and advances it, or reports the end of the input and leaves it |
| Iec104ConvParser.Iec104ConvParser.GetConversation | src/parser/IEC104_conv_parser.py:108-122 | skips rows without data, parses the next one and leaves the index just after it; at the end of the input it returns `None` |
| Iec104ConvParser.Iec104ConvParser.ParseConversations | src/parser/IEC104_conv_parser.py:57-66 | after resetting the index, stores one parsed conversation per row with data, and fails exactly when some such row does not parse |
| ConversationParser.IsInitial | src/parser/conversation_parser.py:86-91 | 1 exactly when an activation (type 120) follows a type 122 message ending a non-empty conversation, otherwise 0 |
| ConversationParser.IsStrictInitial | src/parser/conversation_parser.py:95-98 | 0 exactly for cause of transmission 6, otherwise -1 |
| ConversationParser.IsFinal | src/parser/conversation_parser.py:102-113 | final exactly for a single final message, a completed 123, 124, 123, 124 block or a spontaneous message opening a conversation; set aside exactly for a spontaneous message in a started one |
| ConversationParser.SkipNonInform | src/parser/conversation_parser.py:53-55 | messages that are not I-format frames are popped and dropped |
| ConversationParser.ConvStaysNonEmpty | src/parser/conversation_parser.py:68-76 | once the conversation holds a message the loop never empties it: pushing back the activation pair needs more messages than it removes |
| ConversationParser.RunKeepsSound | src/parser/conversation_parser.py:53-76 | the conversation holds only I-format messages, the set-aside list only spontaneous I-format ones, and nothing is set aside before the conversation starts |
| ConversationParser.FirstInformTaken | src/parser/conversation_parser.py:57-76 | from an empty conversation the first I-format message is always taken |
| ConversationParser.NoneIffNoInform | src/parser/conversation_parser.py:43-82 | `None` is returned exactly when no I-format message is left, the empty input included |
| ConversationParser.ConversationInform | src/parser/conversation_parser.py:43-82 | a returned conversation is non-empty and holds only I-format messages |
| ConversationParser.RunConserves | src/parser/conversation_parser.py:50-76 | every message read ends in the conversation, in the set-aside list or back in the input, or is dropped; only non-I-format messages are dropped |
| ConversationParser.TakenConserves | src/parser/conversation_parser.py:62-76 | the same for a message the loop takes into the conversation or sets aside |
| ConversationParser.StopConserves | src/parser/conversation_parser.py:62-74 | a message that ends the conversation, taken or pushed back, loses nothing |
| ConversationParser.NextConserves | src/parser/conversation_parser.py:43-82 | over one call, the input is the returned conversation, the input left and some dropped non-I-format messages |
| ConversationParser.NextShrinks | src/parser/conversation_parser.py:43-82 | a call that returns a conversation leaves strictly less input, so calling until `None` ends |
| ConversationParser.ActivationEnds | src/parser/conversation_parser.py:57-60 | an activation (cause 6) arriving in a started conversation is pushed back and ends it |
| ConversationParser.FinalEnds | src/parser/conversation_parser.py:62-65 | a single final message, or one completing the 123, 124, 123, 124 block, is appended and ends the conversation |
| ConversationParser.SpontaneousAlone | src/parser/conversation_parser.py:62-65 | a spontaneous message first in the input is returned as a conversation of its own |
| ConversationParser.SpontaneousSetAside | src/parser/conversation_parser.py:66-67 | a spontaneous message in a started conversation is set aside and the scan goes on |
| ConversationParser.ActivationPairPushedBack | src/parser/conversation_parser.py:68-74 | an activation after a type 122 message, with two or more messages collected, puts both back in front of the input and ends the conversation before them |
| ConversationParser.ConvParser.constructor | src/parser/conversation_parser.py:35-36 | the parser holds the given messages |
| ConversationParser.ConvParser.GetConversation | src/parser/conversation_parser.py:43-82 | the popping, pushing-back and setting-aside loop returns the next conversation and leaves the input the scan describes |
| ConversationParser.Project | src/parser/conversation_parser.py:155 | the selected fields in filter order; `KeyError` exactly when a selected column is missing |
| ConversationParser.Items | src/parser/conversation_parser.py:154-155 | one item per row, or `KeyError` |
| ConversationParser.FilterToConversations | src/parser/conversation_parser.py:151-161 | the loop fails exactly on a missing column and otherwise returns the conversations closed by rows with an empty selected field |
| ConversationParser.ItemsFailureSticks | src/parser/conversation_parser.py:154-155 | a row missing a column makes the whole call raise |
| ConversationParser.CloseFilled | src/parser/conversation_parser.py:159-160 | rows with all fields filled only extend the open conversation |
| ConversationParser.FilterRoundTrip | src/parser/conversation_parser.py:151-161 | conversations of filled rows, each followed by a row with an empty field, are cut back into exactly those conversations |
| ConversationParser.TrailingRowsDropped | src/parser/conversation_parser.py:154-161 | rows after the last row with an empty field are not returned |
| ConversationParser.OneConversationPerCloser | src/parser/conversation_parser.py:156-158 | there is one conversation per row with an empty field, empty conversations included |
| ConversationParser.ValuesBidict | src/parser/conversation_parser.py:164-173 | the loop numbers the distinct values by position in first-occurrence order |
| ConversationParser.NumberNext | src/parser/conversation_parser.py:169-172 | one more value keeps the numbering, and a new value gets the next unused number, so the bidirectional map never refuses it |
| ConversationParser.DistinctNoDuplicates | src/parser/conversation_parser.py:164-173 | each value is numbered once |
| ConversationParser.DistinctSameValues | src/parser/conversation_parser.py:164-173 | every value that occurs is numbered, and nothing else |
| ConversationParser.DistinctFirstOccurrence | src/parser/conversation_parser.py:164-173 | values are numbered in the order of their first occurrences |
| ConversationParser.BidictSpec | src/parser/conversation_parser.py:164-173 | the numbering is one-to-one, covers exactly the values, uses exactly the numbers 0 to n - 1, and gives a value occurring earlier a smaller number |
| Iec104Parser.InitialType | src/parser/IEC104_parser.py:115-124 | type 122 opens a file transfer; otherwise cause 6, 3 and 7 open an activation, a spontaneous and a general conversation, and any other cause an unknown one |
| Iec104Parser.NoMiddleRange | src/parser/IEC104_parser.py:131-138 | no message is in the middle range of a spontaneous conversation or of one of unknown kind |
| Iec104Parser.KeepInformMembers | src/parser/IEC104_parser.py:103-108 | the parser keeps exactly the messages whose frame format is present and reads as 0, and no more messages than it was given |
| Iec104Parser.Iec104Parser.constructor | src/parser/IEC104_parser.py:47-53 | the input is the I-format messages of the argument, the cursor is 0 and the buffer and both lists are empty |
| Iec104Parser.Iec104Parser.GetSymbol | src/parser/IEC104_parser.py:144-150 | reads the first message of the buffer in buffer mode and the message at the cursor otherwise; nothing left to read raises `IndexError` and changes nothing |
| Iec104Parser.Iec104Parser.ReturnSymbol | src/parser/IEC104_parser.py:156-160 | puts the message back at the head of the buffer in buffer mode, and moves the cursor back one otherwise |
| Iec104Parser.Iec104Parser.ReadRest | src/parser/IEC104_parser.py:186-202 | the `while True` loop consumes exactly the messages the specification's loop consumes, and leaves the message that ends the conversation unread |
| Iec104Parser.Iec104Parser.GetConversation | src/parser/IEC104_parser.py:173-207 | returns the conversation and leaves the cursor and the buffer as one step of the specification does |
| Iec104Parser.LoopStep | src/parser/IEC104_parser.py:188-202 | a turn that does not end the loop sends a spontaneous message to the side buffer and any other to the conversation, setting the latch on a middle-range message |
| Iec104Parser.LoopPartition | src/parser/IEC104_parser.py:188-202 | the loop appends the messages it reads that are not spontaneous to the conversation and the spontaneous ones to the side buffer, each in order |
| Iec104Parser.TakePartition | src/parser/IEC104_parser.py:173-202 | one call consumes a prefix of what it reads: the first message plus the later ones that are not spontaneous form the conversation, and the later spontaneous ones are set aside |
| Iec104Parser.TakeConserves | src/parser/IEC104_parser.py:173-202 | the messages consumed are exactly those of the conversation and of the side buffer, and the conversation is empty only when there is nothing to read |
| Iec104Parser.UnknownRunsToEnd | src/parser/IEC104_parser.py:188-202 | a conversation of unknown kind never sets the latch, so it runs to the end of what is read |
| Iec104Parser.StopsAfterMiddle | src/parser/IEC104_parser.py:193-199 | a call stops before the end only at a message that is neither spontaneous nor in the middle range, and only after a middle-range message |
| Iec104Parser.NextConvNone | src/parser/IEC104_parser.py:204-205 | `None` is returned exactly when the buffer is empty and the cursor is at the end of the input, and then nothing changes |
| Iec104Parser.NextConvStart | src/parser/IEC104_parser.py:176-185 | a returned conversation is never empty and starts with the first message read |
| Iec104Parser.NextShrinks | src/parser/IEC104_parser.py:173-207 | a call that returns a conversation leaves strictly less to read, so `parse_conversations` ends |
| Iec104Parser.NextConserves | src/parser/IEC104_parser.py:173-207 | over one call, the messages left to read before the call are the conversation plus those left to read after it |
| Iec104Parser.BufferDrains | src/parser/IEC104_parser.py:176-206 | the buffer holds only spontaneous messages, and while it is not empty each call returns its first message alone and moves no cursor |
| Iec104Parser.AllConvsStep | src/parser/IEC104_parser.py:59-67 | parsing stops at the first `None`, which consumes nothing; otherwise it continues with less to read |
| Iec104Parser.AllConvsConserve | src/parser/IEC104_parser.py:59-67 | parsing places every message left to read in exactly one conversation, and no conversation is empty |
| Iec104Parser.ParseAgainEmpty | src/parser/IEC104_parser.py:59-67 | a second parse yields nothing, because the cursor and the buffer are not reset |
| Iec104Parser.IncompleteSnoc | src/parser/IEC104_parser.py:63-66 | a conversation that is not complete is appended to the incomplete list, after the earlier ones |
| Iec104Parser.Iec104Parser.ParseConversations | src/parser/IEC104_parser.py:59-67 | the conversations are those of successive calls until `None`; the input and the buffer are then exhausted, and `incomplete` is the sub-list that `is_conversation_complete` rejects |
| Iec104Parser.WithPairMembers | src/parser/IEC104_parser.py:216-218 | the group of a pair holds exactly the messages between its two endpoints |
| Iec104Parser.PairGroupMatches | src/parser/IEC104_parser.py:74-77 | every message in a pair's group matches that pair |
| Iec104Parser.PairGroupsCover | src/parser/IEC104_parser.py:213-222 | every message lands in the group of its own pair, and no pair has two groups |
| Iec104Parser.PairGroupsAt | src/parser/IEC104_parser.py:219-222 | group `i` is the `i`-th pair with its messages |
| Iec104Parser.Iec104Parser.GroupByPair | src/parser/IEC104_parser.py:214-218 | the dictionary holds, for every pair that occurs, its messages in order, and the pairs in first-occurrence order |
| Iec104Parser.Iec104Parser.SplitCommunicationPairs | src/parser/IEC104_parser.py:213-222 | one group per pair, in the order the pairs first occur, each holding that pair's messages in order |
| Iec104Parser.ListGroups | src/parser/IEC104_parser.py:219-222 | listing the dictionary's groups in key order gives, for each key, the pair with its own messages |
| Iec104Parser.Trunc | src/parser/IEC104_parser.py:231 | `int()` truncates toward zero, for negative quotients too |
| Iec104Parser.InBucketMembers | src/parser/IEC104_parser.py:229-231 | window `b` holds exactly the messages whose truncated time quotient is `b` |
| Iec104Parser.MaxBucketIsMax | src/parser/IEC104_parser.py:235 | `max` of the keys: no message has a later window, and some message is in that window |
| Iec104Parser.WindowsAt | src/parser/IEC104_parser.py:236-238 | entry `i` of the result is window `i` |
| Iec104Parser.Iec104Parser.GroupByWindow | src/parser/IEC104_parser.py:229-231 | the dictionary maps each window number that occurs to its messages, and a missing number has none |
| Iec104Parser.Iec104Parser.SplitToWindows | src/parser/IEC104_parser.py:228-239 | no messages give no windows; a zero length with messages raises `ZeroDivisionError`; otherwise the result is windows 0 up to one below the largest window number, or none when that number is not positive |
| Iec104Parser.LastWindowDropped | src/parser/IEC104_parser.py:235-238 | as written, a message of the largest window is in none of the windows returned |
| Ffa.Put | src/learning/dffa.py:62-63 | `row[sym] = e` replaces the transition on `e`'s symbol or adds `e`; every other transition is kept and nothing else appears |
| Ffa.FreqAutomaton.constructor | src/learning/ffa.py:37-42 | the object holds exactly the states, rows, initial and final counts (and root) it is given |
| Ffa.FreqAutomaton.Successors | src/learning/ffa.py:56-63 | the result is the set of destinations of the transitions leaving the state |
| Ffa.FreqAutomaton.SuccessorsSet | src/learning/ffa.py:66-70 | the result is the union of the successors of the given states |
| Ffa.FreqAutomaton.NextShrinks | src/learning/ffa.py:73-77 | each recursive call of `reachable_states` adds a new destination, so the recursion ends |
| Ffa.FreqAutomaton.ReachLeast | src/learning/ffa.py:73-77 | the states reached contain the start states, are closed under successors, and lie inside every closed superset of the start states |
| Ffa.FreqAutomaton.ReachableStates | src/learning/ffa.py:73-77 | the recursion returns the least successor-closed set containing the start states |
| Ffa.FreqAutomaton.KeepRows | src/learning/ffa.py:88-92 | the new rows are exactly the old rows of the reachable states |
| Ffa.FreqAutomaton.DropFinals | src/learning/ffa.py:94-95 | the final counts of the removed states are deleted and the others kept |
| Ffa.FreqAutomaton.Trim | src/learning/ffa.py:83-97 | the states become the reachable ones, each keeping its row and final count, and the automaton stays well formed |
| Ffa.KeptWellFormed | src/learning/ffa.py:83-97 | keeping a successor-closed set of states that holds the initial states keeps the automaton well formed |
| Ffa.FreqAutomaton.RenameRows | src/learning/ffa.py:124-136 | every row is stored under the number of its state, with source and destination numbered |
| Ffa.RenamedRowWeight | src/learning/ffa.py:124-136 | renaming the states of a row keeps its total weight, so a renamed state keeps its frequency |
| Ffa.FreqAutomaton.RenameFinals | src/learning/ffa.py:116-118 | every final count is stored under the number of its state |
| Ffa.FreqAutomaton.RenameInitials | src/learning/ffa.py:120-122 | the initial counts are renamed entry by entry, in order |
| Ffa.FreqAutomaton.RenameStates | src/learning/ffa.py:103-141 | the states are numbered 0..n-1 by a bijection, and rows, final counts, initial counts and root are carried over under it to a well-formed automaton |
| Ffa.RenamedWellFormed | src/learning/ffa.py:103-141 | renaming by a numbering of the states keeps the automaton well formed |
| Ffa.FreqAutomaton.FlatMembers | src/learning/ffa.py:202-213 | the transitions `to_wfa` lists are exactly the entries of the rows visited, as weighted transitions |
| Ffa.FreqAutomaton.ToWfa | src/learning/ffa.py:202-213 | the rows are visited once each, in some order, and the result holds their transitions with the final and initial counts as weights |
| Dffa.StateFreq | src/learning/dffa.py:95-100 | the frequency is the final count plus the weights of the state's row |
| Dffa.FindPred | src/learning/dffa.py:45-50 | `None` exactly when no transition leads to the state; otherwise a transition of some row leading to it |
| Dffa.StochasticFold | src/learning/dffa.py:71-81 | the rows and final counts become those of the recursive fold of `blue` into `red`; states, initial counts and root are unchanged |
| Dffa.FoldStep | src/learning/dffa.py:73-81 | one transition of `blue` is folded into `red`: its weight is added to `red`'s transition on the symbol, or the transition is copied, and the destinations are folded in turn |
| Dffa.FoldShaped | src/learning/dffa.py:71-81 | folding keeps every row a row of its state, every destination a state, and the same states |
| Dffa.BumpFreq | src/learning/dffa.py:76-79 | folding one transition into `red` adds its weight to `red`'s frequency and leaves every other frequency unchanged |
| Dffa.FoldGrows | src/learning/dffa.py:71-81 | with no negative count, no frequency drops, and `red` gains at least the frequency of `blue` |
| Dffa.FoldSelfLoop | src/learning/dffa.py:71-81 | with a self-loop on `red`, folding can count part of the subtree twice: a frequency of 1 folded into 1 gives 3 |
| Dffa.RetargetFreq | src/learning/dffa.py:62-63 | redirecting a transition to `red` changes no frequency |
| Dffa.SendTo | src/learning/dffa.py:62-63 | the predecessor transition is replaced, in its row, by one leading to `red` with the same weight and symbol |
| Dffa.StochasticMerge | src/learning/dffa.py:57-64 | with no predecessor of `blue` the call raises and changes nothing; otherwise the predecessor is redirected to `red` and `blue` is folded into `red`, and the automaton stays well formed |
| Dffa.MergeGrows | src/learning/dffa.py:57-64 | with no negative count, a merge lowers no frequency and `red` gains at least the frequency of `blue` |
| Dffa.AlergiaTestEqualRates | src/learning/dffa.py:85-87 | two equal rates always pass the test for `0 < alpha < 2` |
| Dffa.AlergiaTestSymmetric | src/learning/dffa.py:85-87 | swapping the two rates gives the same outcome |
| Dffa.CompatibleSymmetric | src/learning/dffa.py:107-122 | compatibility of two states does not depend on their order |
| Dffa.CompatibleSelf | src/learning/dffa.py:107-122 | a state of positive frequency is compatible with itself |
| Dffa.AlergiaCompatible | src/learning/dffa.py:107-122 | the loop answers whether the final counts and the weights on every symbol of either state pass the test, a missing transition counting 0, and propagates the test's errors |
| Dffa.DivideTransitions | src/learning/dffa.py:131-133 | fails exactly when some transition leaves a state of frequency 0; otherwise every weight is divided by its source's frequency |
| Dffa.DivideFinals | src/learning/dffa.py:134-140 | fails exactly when a non-zero final count belongs to a state of frequency 0; otherwise the non-zero final counts are divided by the frequency |
| Dffa.Normalize | src/learning/dffa.py:129-143 | the result is built from the transitions `to_wfa` lists in some order of the rows, with divided weights and finals and the first initial state set to 1 |
| Dffa.FlatShare | src/learning/dffa.py:131-133 | after division, the weights leaving a state add up to its row weight over its frequency |
| Dffa.NormalizedSumsToOne | src/learning/dffa.py:129-143 | at every state of non-zero frequency, the normalized outgoing weights and final weight add up to 1 |
| Dffa.NormalizedStochastic | src/learning/dffa.py:129-143 | a successful `normalize` gives a stochastic automaton: at every state with weight the outgoing weights and the final weight add up to 1 |
| Dffa.FlatOfRows | src/learning/ffa.py:202-213 | every transition `to_wfa` lists is an entry of the row of some visited state |
| Dffa.NormalizedTransition | src/learning/dffa.py:129-133 | every transition of the normalised automaton is a row entry whose weight is divided by the non-zero frequency of its source |
| Dffa.NormalizedFinal | src/learning/dffa.py:134-140 | a state is final in the normalised automaton iff its final count is non-zero, and its final weight is that count over its non-zero frequency |
| Dffa.NormalizedSucceeds | src/learning/dffa.py:129-143 | `normalize` does not raise when every state of frequency 0 has no transition and a zero final count |
| Fpt.NewFpt | src/learning/fpt.py:33-37 | the new object is the prefix tree of no strings: the root alone |
| Fpt.EmptyTree | src/learning/fpt.py:33-37 | the root alone, with a zero initial and final count, is the tree of no strings |
| Fpt.StartStep | src/learning/fpt.py:74-75 | counting a string at the root keeps the tree invariant |
| Fpt.WalkStep | src/learning/fpt.py:78-80 | following an existing transition leads to the one-symbol extension, and counting it keeps the invariant |
| Fpt.GrowStep | src/learning/fpt.py:62-66 | a missing transition leads to a new state, and adding it with weight 1 keeps the invariant |
| Fpt.FinishStep | src/learning/fpt.py:84 | counting the string at its end state completes the tree of the strings added |
| Fpt.Walk | src/learning/fpt.py:76-83 | the loop follows existing transitions along the string, counting each, until the string ends or a symbol has no transition |
| Fpt.CreateBranch | src/learning/fpt.py:59-67 | the branch for the rest of the string is added and its end counted, completing the tree of the strings added |
| Fpt.AddString | src/learning/fpt.py:73-84 | after the call the object is the prefix tree of the strings added before plus this one |
| Fpt.AddStringList | src/learning/fpt.py:87-89 | after the call the object is the prefix tree of the earlier strings followed by the list |
| Fpt.FptFrequencies | src/learning/fpt.py:73-89 | a prefix tree is well formed, the frequency of every state is the number of strings passing through it (all of them at the root), and each final count is the number of strings ending there |
| Fpt.UnderThrough | src/learning/fpt.py:73-89 | a prefix of some added string has at least one string through it |
| Fpt.RowUsed | src/learning/fpt.py:59-66 | a state of the prefix tree with an outgoing transition has a string through it |
| Fpt.FinalUsed | src/learning/fpt.py:84 | a state of the prefix tree with a non-zero final count has a string through it |
| Fpt.EmptyWhenUnused | src/learning/fpt.py:73-89 | a state of the prefix tree that no string passes through has no transition and a zero final count |
| Alergia.LexStrictTotal | src/learning/alergia.py:28 | Python's tuple order is a strict total order when the order on items is |
| Alergia.PairStrictTotal | src/learning/alergia.py:28 | Python's order on pairs of strings (the first string decides, then the second, each compared by code point with a proper prefix first) is a strict total order |
| Alergia.TextNotNumeric | src/learning/alergia.py:28 | the symbols are compared as text, not as numbers: `('100', '6')` comes before `('36', '6')`, and `('03', '6')` is a different symbol from `('3', '6')`, ordered before it |
| Alergia.Sorted | src/learning/alergia.py:28 | `sorted` lists every element of the set once, in increasing order |
| Alergia.ChooseBlueState | src/learning/alergia.py:27-31 | the result is the least blue state of frequency at least `t0`, and `None` exactly when there is none |
| Alergia.ChooseRedState | src/learning/alergia.py:34-38 | the result is the least red state compatible with `blue`, `None` when none is, or the error of the first test that raises |
| Alergia.AlergiaRound | src/learning/alergia.py:56-62 | on success the round is a `Round` for the blue state `b`: `b` becomes red, with the counts and states unchanged, only when the compatibility test rejects `b` for every red state; otherwise the predecessor transition of `b` is sent to the least red state (in sorted order) the test accepts, `b` is folded into it, and only the states reachable from the initial states are kept, with their rows and final counts. The automaton stays well formed, keeps its root and initial states, and no frequency drops |
| Alergia.TrimKeepsFreq | src/learning/alergia.py:60 | trimming keeps the frequencies of the states kept |
| Alergia.NextBlue | src/learning/alergia.py:64-65 | the blue states are the successors of the red ones that are not red; the chosen one is the least of them with frequency at least `t0`, and there is none exactly when every blue state is below `t0` |
| Alergia.RunAlergia | src/learning/alergia.py:49-68 | on success the loop returns the same object, and its configurations and rounds form a `Run`: it starts from the input with only the root red, each round handles the least blue state of frequency `t0` or more (the successors of the root in the first round, then the successors of the red states that are not red) as `AlergiaRound` states, and it stops when no blue state reaches `t0`; the root is red and every red state is a state of the result, which is well formed, and no frequency is lowered |
| Alergia.FirstBlue | src/learning/alergia.py:51-54 | before the first round the blue states are the successors of the root, and the chosen one is the least of them with frequency at least `t0`, none exactly when every one is below |
| Alergia.DestIsSucc | src/learning/ffa.py:66-70 | a destination of a state in a set is a successor of that set |
| Alergia.SuccsShrink | src/learning/ffa.py:73-77 | while new successors appear, fewer destinations are left to add, so `reachable_states` terminates |
| Alergia.ReachClosed | src/learning/ffa.py:73-77 | the states reachable from a set contain it, are closed under successors, and lie inside every closed superset of it |
| Alergia.SuccsOf | src/learning/ffa.py:66-70 | `successors_set` on the automaton is the successor set of its counts |
| Alergia.ReachAgrees | src/learning/ffa.py:73-77 | `reachable_states` on the automaton is the set reachable under its counts |
| Alergia.RestrictOf | src/learning/ffa.py:83-100 | counts kept for exactly some states, unchanged there, are the counts restricted to those states: what `trim` leaves |
| Alergia.TraceSnoc | src/learning/alergia.py:55-65 | a trace of the loop extended by one more round is a trace, with the same start and the new configuration at its end |
| Alergia.RedInClosed | src/learning/alergia.py:51-62 | red states on paths from the root lie in every set that holds the root and is closed under successors |
| Alergia.RedIn | src/learning/alergia.py:51-62 | one red state lies in such a set, by induction on its depth in the tree of red states |
| Alergia.RedTreePromote | src/learning/alergia.py:62 | a blue state made red is a successor of a red state, so the red states stay on paths from the root |
| Alergia.RetargetKeepsDests | src/learning/dffa.py:62-63 | sending the predecessor transition of `blue` elsewhere keeps every transition of the automaton that did not lead to `blue` |
| Alergia.BumpKeepsDests | src/learning/dffa.py:76-79 | adding a weight to `red`'s transition, or a new transition to `red`'s row, keeps every destination |
| Alergia.FoldKeepsDests | src/learning/dffa.py:71-81 | folding `blue` into `red` keeps every transition's destination |
| Alergia.FoldRowKeepsDests | src/learning/dffa.py:73-81 | folding a row keeps every transition's destination |
| Alergia.FoldOneKeepsDests | src/learning/dffa.py:74-81 | folding one transition keeps every transition's destination |
| Alergia.RedTreeMerge | src/learning/alergia.py:59-60 | a merge followed by `trim` keeps every red state and the transitions between red states, when the blue state is red only if it is the root |
| Alergia.ProgressStep | src/learning/alergia.py:55-65 | one more round extends the loop so far: the trace, and the red states on paths from the root |
| Alergia.RootIni | src/learning/dffa.py:31-33 | the root of a well-formed automaton is one of its initial states |
| Alergia.BlueInStates | src/learning/alergia.py:64 | a blue state of a well-formed automaton is one of its states |
| Alergia.RedInStates | src/learning/alergia.py:49-68 | the red states, on paths from the root, are states of a well-formed automaton |
| DistrComparison.Clamp | src/detection/distr_comparison.py:154 | `min(1.0, sqrt(max(0.0, x)))` is at most 1, and not negative for a sound square root |
| DistrComparison.Combined | src/detection/distr_comparison.py:145-154 | raises `ValueError` exactly when both the exact and the iterated solver fail on some product; otherwise the value lies in [0, 1] |
| DistrComparison.TrimOfProduct | src/detection/distr_comparison.py:133-135 | restricting a product to some states keeps it a product of the two automata |
| DistrComparison.Prepare | src/detection/distr_comparison.py:133-139 | the result is the trimmed product of the two automata with its states renamed to 0, 1, 2, ... |
| DistrComparison.EuclidDistance | src/detection/distr_comparison.py:120-154 | 1.0 when exactly one automaton has no transition; otherwise the combined value over the three prepared products; the only error is `ValueError`; the value is at most 1 |
| DistrComparison.ApplyDetection | src/detection/distr_comparison.py:157-183 | 0.0 or 1.0 without a golden automaton; 1.0 for an empty window and more than one golden transition; otherwise the distance to the learned automaton, retried with the arguments swapped on `ValueError` |
| DistrComparison.Scores | src/detection/distr_comparison.py:81 | one score per golden entry, in order, or the error of some entry |
| DistrComparison.DistrDetector.constructor | src/detection/distr_comparison.py:44-54 | the detector holds the given golden map and learning procedure |
| DistrComparison.DistrDetector.DpaSelection | src/detection/distr_comparison.py:58-68 | the golden list of the pair; a missing pair reads `[None]` and is inserted, as in a `defaultdict` |
| DistrComparison.DistrDetector.Detect | src/detection/distr_comparison.py:71-81 | one score per golden entry of the pair (each in [0, 1] for a sound square root), or the error of some entry; a missing pair is inserted with `[None]` |
| DistrComparison.DistrDetector.RemoveIdentical | src/detection/distr_comparison.py:84-89 | every golden list is replaced by a list of its distinct entries, keys unchanged |
| DistrComparison.DictSet | src/detection/distr_comparison.py:114 | a repeated key keeps its first position, a new key goes last, and no other item appears |
| DistrComparison.PairsSpec | src/detection/distr_comparison.py:114 | the comprehension visits exactly the ordered pairs of distinct entries |
| DistrComparison.DistanceRow | src/detection/distr_comparison.py:114 | the distances from one entry to every other entry are added, or a `None` entry or the distance raises |
| DistrComparison.PairedAreSome | src/detection/distr_comparison.py:114 | once every pair has a distance, no entry with a distinct partner is `None` |
| DistrComparison.RemoveEuclidSimilarIt | src/detection/distr_comparison.py:104-116 | the dictionary holds the distance of every ordered pair of distinct entries, and the result is the entries minus those `compute_subset_error` removes |
| DistrComparison.PrunedOf | src/detection/distr_comparison.py:99-101 | pruning after deduplication relates the new list to the old one through the distances of its distinct entries |
| DistrComparison.DistrDetector.RemoveEuclidSimilar | src/detection/distr_comparison.py:92-101 | every golden list becomes the deduplicated list pruned under the error bound, keys unchanged |
| AnomalyCheck.AbstractConv | src/anomaly_check.py:82-83 | each message is replaced, in order, by the pair of the texts of its `asduType` and `cot` fields, as read from the CSV |
| AnomalyCheck.AbstractAll | src/anomaly_check.py:135 | every conversation is abstracted, in order |
| AnomalyCheck.Log2Floor | src/anomaly_check.py:94 | the result is the integer part of the binary logarithm: `2^r <= n < 2^(r+1)` |
| AnomalyCheck.Threshold | src/anomaly_check.py:93-96 | the integer part of the binary logarithm of the number of strings, and 1 with no strings |
| AnomalyCheck.SymbolsStrictTotal | src/learning/alergia.py:28 | Python's order on tuples of symbols, each a pair of strings, is a strict total order |
| AnomalyCheck.NormalizedStart | src/learning/dffa.py:141-142 | normalising a one-entry initial dictionary gives one initial state of weight 1 |
| AnomalyCheck.LearnedFromIntro | src/anomaly_check.py:89-110 | a stochastic automaton with one initial state of weight 1 that is the `PA` (or `PTA`) result on some strings is learned from them |
| AnomalyCheck.LearnedFromLearned | src/anomaly_check.py:89-110 | an automaton learned from some strings is stochastic with one initial state of weight 1, and is the `PA` (or `PTA`) result on them |
| AnomalyCheck.RenamedFreq | src/learning/ffa.py:103-141 | renaming keeps the frequency of every state |
| AnomalyCheck.RenamedFrom | src/learning/ffa.py:103-141 | every number of the renamed automaton is the number of a state |
| AnomalyCheck.RenamedEdge | src/learning/ffa.py:124-136 | entry `j` of the renamed row `k` is entry `j` of the row of the state numbered `k`, with both ends renamed and the same weight and symbol |
| AnomalyCheck.PtaNoZero | src/anomaly_check.py:105-110 | in the renamed prefix tree, a state of frequency 0 has no transition and a zero final count, so `normalize` divides by no zero |
| AnomalyCheck.PrefixEdge | src/learning/fpt.py:59-80 | a transition of the prefix tree leads from a prefix `p` to `p + [y]` and weighs the number of strings through `p + [y]` |
| AnomalyCheck.PrefixFreq | src/learning/fpt.py:73-89 | a prefix has the frequency of the strings through it and the final count of the strings equal to it |
| AnomalyCheck.PtaTransition | src/anomaly_check.py:105-110 | a transition of the renamed, normalised prefix tree leads from the number of `p` to the number of `p + [y]` and weighs `Through(p + [y]) / Through(p)`, with `Through(p)` non-zero |
| AnomalyCheck.PtaFinal | src/anomaly_check.py:105-110 | the number of a prefix `p` is final iff some string equals `p`, with weight the number of such strings over `Through(p)` |
| AnomalyCheck.PtaBasisOpen | src/anomaly_check.py:105-110 | the learned prefix tree automaton is the normalisation, from the root with weight the number of strings, of a renaming of the prefix tree of the strings |
| AnomalyCheck.PtaWitness | src/anomaly_check.py:105-110 | every automaton learned by the `PTA` procedure comes from the prefix tree of its training strings in that way |
| AnomalyCheck.PtaNumbering | src/anomaly_check.py:105-110 | the states of the learned prefix tree automaton number the prefixes of the training strings, one number each |
| AnomalyCheck.PtaSources | src/anomaly_check.py:105-110 | every transition of the learned prefix tree automaton leaves the number of a prefix |
| AnomalyCheck.PtaTransitions | src/anomaly_check.py:105-110 | from the number of a prefix `p`, the transition on `y` leads to the number of `p + [y]` and weighs the share of the strings through `p` that go on through `p + [y]` |
| AnomalyCheck.PtaFinals | src/anomaly_check.py:105-110 | the number of a prefix `p` is final iff some training string equals `p`, with weight the share of the strings through `p` that end there |
| AnomalyCheck.RenameCounts | src/learning/ffa.py:103-141 | the new automaton holds the rows and final counts of the old one under a numbering of its states onto 0..n-1, and its one initial state renamed |
| AnomalyCheck.RenameAndNormalize | src/anomaly_check.py:98-99 | the result is exactly `normalize` of the renamed counts, with the transitions listed row by row and the initial state renamed; when it succeeds it is stochastic with one initial state of weight 1 |
| AnomalyCheck.LearnProcPta | src/anomaly_check.py:105-110 | never fails; the result is stochastic with one initial state of weight 1, and is the prefix tree of the training strings, renamed and normalised |
| AnomalyCheck.SingleIni | src/learning/fpt.py:33-37 | a prefix tree's initial dictionary, with its one entry `()`, has `()` as its only initial state |
| AnomalyCheck.LearnProcPa | src/anomaly_check.py:89-99 | on success, the result is stochastic with one initial state of weight 1, and is `PaOf` the training strings: a `Run` of the Alergia loop with significance 0.05 and threshold `Threshold(n)` from the prefix tree of the training strings, with the root `()` as the only red state, ending on states that hold every red state, renamed and normalised |
| AnomalyCheck.Learn | src/anomaly_check.py:194-205 | the procedure selected by the automaton type returns an automaton learned from the training strings by that procedure: for `PA` the renamed, normalised result of an Alergia `Run` on their prefix tree (`PaOf`), for `PTA` the renamed, normalised prefix tree itself (`PtaOf`); the `PTA` procedure never fails |
| AnomalyCheck.EntFormat | src/anomaly_check.py:116-118 | succeeds exactly for two endpoints, rendering both; fewer or more raise the unpacking `ValueError` |
| AnomalyCheck.CountEnumerated | src/anomaly_check.py:117 | `list(k)` is as long as the set has elements |
| AnomalyCheck.Training | src/anomaly_check.py:140-141 | the training strings are all conversations of the parser, abstracted |
| AnomalyCheck.TrainingOf | src/anomaly_check.py:140-141 | the training strings of a new parser over the messages are the conversations of their I-format messages, abstracted |
| AnomalyCheck.LearnWindows | src/anomaly_check.py:133-138 | one automaton per window, in order, each learned from the conversations of its own window; the `PTA` procedure never fails |
| AnomalyCheck.LearnPair | src/anomaly_check.py:128-143 | without smoothing one automaton learned from the pair's conversations; with smoothing one per window of 300 and then of 600, each learned from its window's conversations; the `PTA` procedure never fails |
| AnomalyCheck.GroupsOf | src/anomaly_check.py:126 | the groups hold every pair of the input once, each with its own messages |
| AnomalyCheck.PutKeys | src/anomaly_check.py:128-143 | storing group `i` keeps the keys of the groups stored before it |
| AnomalyCheck.DistrPut | src/anomaly_check.py:128-143 | storing an entry learned for its pair keeps every stored entry learned for its own pair |
| AnomalyCheck.LearnGoldenDistr | src/anomaly_check.py:124-145 | every communication pair of the input, and no other, gets the automata learned from its own conversations, or from each of its windows with smoothing; the `PTA` procedure never fails |
| AnomalyCheck.LearnMemberPair | src/anomaly_check.py:156-160 | the entry is a one-element list holding the automaton learned from the pair's conversations |
| AnomalyCheck.MemberPut | src/anomaly_check.py:155-160 | storing an entry learned for its pair keeps every stored entry learned for its own pair |
| AnomalyCheck.LearnGoldenMember | src/anomaly_check.py:151-162 | every communication pair of the input, and no other, gets a one-element list holding the automaton learned from its own conversations |
| AnomalyCheck.MemberGoldenRaises | src/anomaly_check.py:160 | member detection on such a list raises for every non-empty window |
| AnomalyCheck.LearnFixedPair | src/anomaly_check.py:156-160 | the intended entry: the automaton learned from the pair's conversations itself |
| AnomalyCheck.FixedPut | src/anomaly_check.py:155-160 | storing an intended entry for its pair keeps every stored entry learned for its own pair |
| AnomalyCheck.LearnGoldenMemberFixed | src/anomaly_check.py:151-162 | every communication pair of the input, and no other, gets the automaton learned from its own conversations itself |
| AnomalyCheck.FixedMemberReports | src/detection/member.py:55-66 | with a learned automaton as entry, detection never raises and reports exactly the conversations the automaton rejects |

## Left out

- Files are modelled as sequences of lines, and written files as the
  sequence of lines written. Opening, reading and closing files is not
  modelled.
- Python's iteration order over dictionaries and sets is not modelled. Where
  output follows it, the model lists the elements in some order, each once.
  This affects the alphabet line, the final lines and the DOT final-state
  list.
- Floating point is not modelled. Weights are reals, and the conversions
  between reals and text are parameters. This covers `str(float)`,
  `float(str)` and `round`. A NaN weight cannot occur.
- `int()` of a string accepts surrounding white space, an optional sign and
  ASCII digits. Underscores between digits and non-ASCII digits are not
  accepted here, although Python accepts both.
- CoreWfaExport.FormatLabel: symbols that are neither integers nor lists
  take Python's `str`, which is not modelled; the model's labels are over
  integer symbols.
- CoreWfaExport.DotFinalStates: only which final states the DOT output lists
  is modelled. The rest of `to_dot` is presentation and is not modelled.
- CoreWfa.FirstTransition: takes the first matching transition in list
  order, where `list(...)[0]` of a set takes whichever element the set yields
  first. The two differ only on a nondeterministic automaton.
- CoreWfa.GetAlphabet: returns the alphabet as a set, where `get_alphabet`
  returns a list in first-occurrence order.
- `CoreWfa.rename_alphabet`, `map_symbols` and the dictionary helpers that
  only feed the DOT output are not modelled.
- A natural logarithm is a parameter of the acceptance functions; its
  accuracy is not modelled.
- `Distance.ComputeSubsetError` takes the distance dictionary as a sequence
  of its items, because the insertion order of a Python dictionary is not
  modelled. Its sort is stable, as Python's is.
- `Member.Detect` takes the golden automata as a map. A missing pair raises
  `KeyError`, as with a plain dictionary; a `defaultdict` would instead
  insert a default value, and that is not modelled.
- `IEC104ConvParser.get_all_conversations` returns the stored conversations
  and ignores its projection argument, so it is not modelled separately.
  `split_communication_pairs` and `split_to_windows` of that class have
  empty bodies and are not modelled.
- Iec104ConvParser.Row: a row is modelled by its `Data` field alone. A row
  without that key raises `KeyError` in the original; here the field is
  `None`, which is skipped like an empty one.
- ConversationParser.Row: the `asduType` and `cot` fields are integers and
  `fmt` is the field's value read as hexadecimal (or `None` for the empty
  string). In the original, `int()` raises `ValueError` on a field that is
  not a number; that path is not modelled.
- `filter_to_conversations` treats a selected field as false exactly when it
  is the empty string, as for CSV text fields. `rename_values` returns lazy
  `map` objects and is not modelled. The `bidict` library is modelled by a
  map whose numbers are shown to be distinct.
- Iec104Parser.Message: the `asduType` and `cot` fields are kept both as the
  CSV text, from which symbols are made, and as the number `int()` reads from
  it, which the classifiers use. That the two agree is not checked. The
  relative time is a number, and `fmt` is the field read as hexadecimal
  (`None` for the empty string). In the original, `int()` or `float()` raises
  `ValueError` on a field that is not a number; that path is not modelled.
- Iec104Parser.Iec104Parser.ReturnSymbol: in input mode it requires that a
  message has been read (cursor at least 1). `get_conversation` only pushes
  back a message it has just read, so this always holds there.
- `split_communication_pairs` and `split_to_windows` return new
  `IEC104Parser` objects. The model returns the message lists (with the pair)
  they are built from. The constructor's I-format filter keeps all of them.
- Iec104Parser.Bucket: the relative time and the window length are reals,
  and the floating-point rounding of the division is not modelled.
- `IEC104Parser.get_all_conversations` returns the stored conversations,
  optionally with a caller-supplied function applied to every message. That
  function is arbitrary Python, so it is not modelled. `get_messages` reads a
  CSV file and is not modelled.
- `filter_to_conversations`, `values_bidict` and `rename_values` appear
  again at the end of `src/parser/IEC104_parser.py`, identical to those of
  `src/parser/conversation_parser.py`. They are modelled once, in
  `ConversationParser`.
- `FFA`, `DFFA` and `FPT` are one class, `Ffa.FreqAutomaton`, because the
  model has no inheritance. The `FPT` operations are methods over
  `FreqAutomaton<seq<Y>, Y>`, whose states are the prefixes of the strings.
- The `defaultdict`s of rows and final counts are total over the states. A
  state has an empty row and a final count of 0 from its creation. In the
  prefix tree, intermediate states therefore carry a final count of 0 where
  Python has no key, and the row of a new state is created at once.
- The first `__init__` of `DFFA` and of `FPT` is replaced by the second
  definition in the same class, so only the second is modelled. `FPT.show`,
  `__str__` and `FFA.to_graphiwiz` produce text for people and are not
  modelled.
- Ffa.FreqAutomaton.RenameStates: returns a new object and the numbering
  instead of rewriting the object, because the type of the states changes.
  The numbering follows some iteration order of the states.
- FFA rows are lists of transitions. The branches of `successors`,
  `rename_states` and `to_wfa` for a row that is a set of transitions are not
  modelled; the learners never build such a row.
- Ffa.FreqAutomaton.Trim: requires a well-formed automaton. On a final-count
  dictionary without an entry for a removed state, `del` raises `KeyError`;
  such an automaton is not well formed here.
- Integer weights become reals in `to_wfa` and `normalize` through `as real`;
  floating-point rounding of the divisions is not modelled.
- Dffa.FindPred: the rows are searched in some order; Python searches them in
  insertion order and returns the first transition found.
- Dffa.Fold: `stochastic_fold` can recurse forever on a cyclic automaton, so
  the model has a fuel bound and stops folding when it runs out.
- Dffa.FoldGrows: states `>=` for the frequency of `red`, not `=`. With a
  self-loop on `red`, folding can count part of `blue`'s subtree twice
  (`FoldSelfLoop` shows an instance).
- Dffa.StochasticMerge: requires a well-formed automaton whose states include
  `red` and `blue`.
- Alergia.RunAlergia: the red/blue loop has a step bound and fails with an
  error when the bound runs out. Termination of the original loop is not
  modelled. Each merge round sends some transition into the blue state to
  the red state; which one `_find_pred` finds first is not fixed (see
  `Dffa.FindPred`).
- The `get_states()` call at the start of `alergia` has no effect and is not
  modelled.
- The Alergia test's square root and decimal logarithm are parameters
  (`Dffa.Numerics`), as are the square root and the two language-probability
  solvers of `euclid_distance` (`DistrComparison.Solver`). The matrix
  computations of `MatrixWFA` are not part of this model.
- AnomalyCheck.Log2Floor: `int(math.log(n, 2))` is modelled as the exact
  integer part of the binary logarithm. Floating-point error that could make
  the float logarithm of a power of two fall just below it is not modelled.
- The local `SPARSE = True` in `apply_detection` assigns a local variable and
  has no effect on `euclid_distance`, so the model has no sparse mode.
- Automata in a golden list compare by identity, as Python objects do. They
  are modelled as `DistrComparison.Ref`, an automaton with an identifier.
- DistrComparison.DistrDetector: the learning procedure is a function
  parameter. The learners of `AnomalyCheck` are methods that allocate
  objects, so they cannot be passed to the detector directly.
- AnomalyCheck.LearnGoldenDistr returns the learned automata as values, not
  as `Ref` objects. It returns a map, and a missing pair is read as `[None]`
  by `DistrComparison.DistrDetector.DpaSelection`.
- The iteration order over sets in `remove_identical`,
  `compute_subset_error` and `ent_format` is not modelled. The model lists
  the elements in some order, each once.
- The driver `main` and `print_help` are not modelled: option parsing,
  reading CSV files, printing results and exiting. The choice of learning
  procedure is modelled as `AnomalyCheck.AutType`.
- AnomalyCheck.LearnProcPa: the Alergia step bound and the fold fuel are
  parameters, and `PaOf` names the numeric functions and the fold fuel. The
  threshold and `alpha = 0.05` are as in the original.

## Findings

| source | as written | input that shows it | evidently intended | confidence | as-written member | corrected member |
|---|---|---|---|---|---|---|
| src/anomaly_check.py:160 | `learn_golden_member` stores `[fa]`, a one-element list, for each pair (and `[None]` by default), but member detection calls `string_prob_deterministic` on the entry | any pair with a non-empty test window: `apply_detection` raises `AttributeError` on the list | store the automaton itself, `ret[item.compair] = fa`, so detection reports the rejected conversations | high, not executed | AnomalyCheck.MemberGoldenRaises | AnomalyCheck.LearnGoldenMemberFixed |
