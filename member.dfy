/**
  Member-based anomaly detection: the conversations of a window that the
  golden automaton of the communication pair does not accept.
 */
module Member {
  import opened Wrappers
  import opened CoreWfa
  import PacketLoss

  /** What a golden map holds for a pair. The map is dynamically typed: the
      detector expects `None` or one automaton, but a learner may also store
      a list of them. */
  datatype Golden<S, Y> = NoAutomaton | One(aut: Wfa<S, Y>) | ListOf(items: seq<Option<Wfa<S, Y>>>)

  /** The error raised when a list is used as an automaton. */
  const NoStringProb := "'list' object has no attribute 'string_prob_deterministic'"

  /** The error raised when `string_prob_deterministic` itself raises. */
  const AcceptanceRaised := "string_prob_deterministic raised"

  /** The conversations `a` rejects, in window order; the first call that
      raises makes the whole detection raise. */
  function Unaccepted<S(==,!new), Y(==,!new)>(a: Wfa<S, Y>, window: seq<seq<Y>>, ln: real -> real): Result<seq<seq<Y>>, string>
    decreases |window|
  {
    if window == [] then Success([])
    else match Unaccepted(a, window[..|window| - 1], ln)
      case Failure(e) => Failure(e)
      case Success(front) =>
        var conv := window[|window| - 1];
        match StringProb(a, conv, ln)
        case Raised => Failure(AcceptanceRaised)
        case Rejected => Success(front + [conv])
        case Accepted(_) => Success(front)
  }

  /** `apply_detection` on whatever the golden map holds. */
  function Detection<S(==,!new), Y(==,!new)>(g: Golden<S, Y>, window: seq<seq<Y>>, ln: real -> real): Result<seq<seq<Y>>, string> {
    match g
    case NoAutomaton => Success(window)
    case One(a) => Unaccepted(a, window, ln)
    case ListOf(_) => if window == [] then Success([]) else Failure(NoStringProb)
  }

  /** `apply_detection`, as written: the filter loop over the window. */
  method ApplyDetection<S(==,!new), Y(==,!new)>(g: Golden<S, Y>, window: seq<seq<Y>>, ln: real -> real)
    returns (r: Result<seq<seq<Y>>, string>)
    ensures r == Detection(g, window, ln)
    ensures g.NoAutomaton? ==> r == Success(window)
  {
    if g.NoAutomaton? {
      return Success(window);
    }
    var ret: seq<seq<Y>> := [];
    var i := 0;
    while i < |window|
      invariant 0 <= i <= |window|
      invariant g.One? ==> Unaccepted(g.aut, window[..i], ln) == Success(ret)
      invariant g.ListOf? ==> i == 0 && ret == []
    {
      if g.ListOf? {
        return Failure(NoStringProb);
      }
      var prob := StringProbDeterministic(g.aut, window[i], ln);
      assert window[..i + 1][..i] == window[..i];
      if prob.Raised? {
        UnacceptedFailureSticks(g.aut, window, i + 1, ln);
        return Failure(AcceptanceRaised);
      }
      if prob.Rejected? {
        ret := ret + [window[i]];
      }
      i := i + 1;
    }
    assert window[..i] == window;
    return Success(ret);
  }

  /** Once a prefix raises, the whole window raises with the same error. */
  lemma {:induction false} UnacceptedFailureSticks<S(!new), Y(!new)>(a: Wfa<S, Y>, window: seq<seq<Y>>, n: nat, ln: real -> real)
    requires n <= |window| && Unaccepted(a, window[..n], ln).Failure?
    ensures Unaccepted(a, window, ln) == Unaccepted(a, window[..n], ln)
    decreases |window| - n
  {
    if n < |window| {
      assert window[..n + 1][..n] == window[..n];
      UnacceptedFailureSticks(a, window, n + 1, ln);
    } else {
      assert window[..n] == window;
    }
  }

  /** Detection with one automaton raises exactly when the window is not
      empty and the automaton has no positive first initial weight. */
  lemma {:induction false} UnacceptedRaises<S(!new), Y(!new)>(a: Wfa<S, Y>, window: seq<seq<Y>>, ln: real -> real)
    ensures Unaccepted(a, window, ln).Failure? <==> window != [] && (a.start == [] || a.start[0].1 <= 0.0)
    decreases |window|
  {
    if window != [] {
      UnacceptedRaises(a, window[..|window| - 1], ln);
    }
  }

  /** Otherwise the result holds the rejected conversations of the window
      and no other. */
  lemma {:induction false} UnacceptedMembers<S(!new), Y(!new)>(a: Wfa<S, Y>, window: seq<seq<Y>>, ln: real -> real)
    ensures Unaccepted(a, window, ln).Success? ==>
      forall c :: c in Unaccepted(a, window, ln).value <==> c in window && StringProb(a, c, ln) == Rejected
    decreases |window|
  {
    if window != [] {
      var front, conv := window[..|window| - 1], window[|window| - 1];
      UnacceptedMembers(a, front, ln);
      assert window == front + [conv];
    }
  }

  /** The reported conversations keep their window order: the result is a
      subsequence of the window. */
  lemma {:induction false} UnacceptedOrdered<S(!new), Y(!new)>(a: Wfa<S, Y>, window: seq<seq<Y>>, ln: real -> real)
    ensures Unaccepted(a, window, ln).Success? ==> PacketLoss.Sub(Unaccepted(a, window, ln).value, window)
    decreases |window|
  {
    if window != [] {
      var front, conv := window[..|window| - 1], window[|window| - 1];
      UnacceptedOrdered(a, front, ln);
      var u := Unaccepted(a, front, ln);
      if u.Success? && StringProb(a, conv, ln) != Raised {
        var f := PacketLoss.SubHasEmbedding(u.value, front);
        var r := Unaccepted(a, window, ln).value;
        var g := if StringProb(a, conv, ln) == Rejected then f + [|front|] else f;
        assert PacketLoss.Embedding(r, window, g) by {
          assert forall k :: 0 <= k < |f| ==> window[f[k]] == front[f[k]];
        }
        PacketLoss.EmbeddingGivesSub(r, window, g);
      }
    }
  }

  /** With a usable automaton, a conversation of a deterministic automaton is
      reported exactly when it has no run of positive weights ending in a
      positive final state. */
  lemma ReportedIffNoRun<S(!new), Y(!new)>(a: Wfa<S, Y>, window: seq<seq<Y>>, conv: seq<Y>, ln: real -> real)
    requires DeterministicTransitions(a) && a.start != [] && a.start[0].1 > 0.0 && conv in window
    ensures Unaccepted(a, window, ln).Success?
    ensures conv in Unaccepted(a, window, ln).value <==> !exists ts :: PositiveRun(a, a.start[0].0, conv, ts)
  {
    UnacceptedRaises(a, window, ln);
    UnacceptedMembers(a, window, ln);
    DeterministicRejection(a, conv, ln);
  }

  /** An empty window yields no anomalies whatever the golden map holds,
      except that with no automaton the (empty) window itself is returned. */
  lemma EmptyWindow<S(!new), Y(!new)>(g: Golden<S, Y>, ln: real -> real)
    ensures Detection(g, [], ln) == Success([])
  {
  }

  /** `dpa_selection`: the golden map's entry for the pair; a missing pair
      raises `KeyError`. */
  function DpaSelection<P(==), G>(golden: map<P, G>, compair: P): (r: Result<G, string>)
    ensures r.Success? <==> compair in golden
    ensures r.Success? ==> r.value == golden[compair]
  {
    if compair in golden then Success(golden[compair]) else Failure("KeyError")
  }

  /** `detect`: detection with the pair's golden entry. */
  method Detect<P(==), S(==,!new), Y(==,!new)>(golden: map<P, Golden<S, Y>>, window: seq<seq<Y>>, compair: P, ln: real -> real)
    returns (r: Result<seq<seq<Y>>, string>)
    ensures compair !in golden ==> r.Failure?
    ensures compair in golden ==> r == Detection(golden[compair], window, ln)
  {
    var aut := DpaSelection(golden, compair);
    if aut.Failure? {
      return Failure(aut.error);
    }
    r := ApplyDetection(aut.value, window, ln);
  }
}
