/**
  Packet-loss detection: a conversation is compatible with a longer one when
  it can be obtained from it by dropping messages, that is, when it is a
  (not necessarily contiguous) subsequence of it.
 */
module PacketLoss {

  /** The recurrence the table of `compatible_strings` follows: `s` is a
      subsequence of `t` when it is empty, or it is one of `t` without its
      last element, or both end in the same element and the fronts match. */
  ghost predicate Sub<T>(s: seq<T>, t: seq<T>)
    decreases |t|
  {
    if s == [] then true
    else if t == [] then false
    else Sub(s, t[..|t| - 1]) || (s[|s| - 1] == t[|t| - 1] && Sub(s[..|s| - 1], t[..|t| - 1]))
  }

  /** An independent reading of "subsequence": `f` sends each position of
      `s` to a position of `t` holding the same element, strictly increasing. */
  ghost predicate Embedding<T>(s: seq<T>, t: seq<T>, f: seq<nat>) {
    && |f| == |s|
    && (forall k :: 0 <= k < |f| ==> f[k] < |t| && t[f[k]] == s[k])
    && (forall i, j :: 0 <= i < j < |f| ==> f[i] < f[j])
  }

  /** The table cell `mat[i][j]` is 1 exactly when `s[:i]` is a subsequence
      of `t[:j]`, for the rows and columns filled so far. */
  ghost predicate RowsDone<T>(mat: array2<int>, s: seq<T>, t: seq<T>, rows: nat)
    reads mat
    requires mat.Length0 == |s| + 1 && mat.Length1 == |t| + 1 && rows <= |s| + 1
  {
    forall i, j :: 0 <= i < rows && 0 <= j <= |t| ==> (mat[i, j] == 1 <==> Sub(s[..i], t[..j]))
  }

  ghost predicate RowsZero(mat: array2<int>, from: nat)
    reads mat
  {
    forall i, j :: from <= i < mat.Length0 && 0 <= j < mat.Length1 ==> mat[i, j] == 0
  }

  /** The cell recurrence, for a row after the first and a column after the first. */
  lemma SubCell<T>(s: seq<T>, t: seq<T>, i: nat, j: nat)
    requires 1 <= i <= |s| && 1 <= j <= |t|
    ensures Sub(s[..i], t[..j]) <==> Sub(s[..i], t[..j - 1]) || (s[i - 1] == t[j - 1] && Sub(s[..i - 1], t[..j - 1]))
  {
    assert s[..i][..i - 1] == s[..i - 1];
    assert t[..j][..j - 1] == t[..j - 1];
  }

  /** The inner loop of `compatible_strings`: fills row `i` from row `i - 1`. */
  method FillRow<T(==)>(mat: array2<int>, s: seq<T>, t: seq<T>, i: nat)
    requires mat.Length0 == |s| + 1 && mat.Length1 == |t| + 1 && 1 <= i <= |s|
    requires RowsDone(mat, s, t, i) && RowsZero(mat, i)
    modifies mat
    ensures RowsDone(mat, s, t, i + 1) && RowsZero(mat, i + 1)
  {
    assert !Sub(s[..i], t[..0]);
    for j := 1 to |t| + 1
      invariant RowsDone(mat, s, t, i) && RowsZero(mat, i + 1)
      invariant forall j' :: 0 <= j' < j ==> (mat[i, j'] == 1 <==> Sub(s[..i], t[..j']))
      invariant forall j' :: j <= j' <= |t| ==> mat[i, j'] == 0
    {
      if mat[i, j - 1] == 1 {
        mat[i, j] := 1;
      }
      if mat[i - 1, j - 1] == 1 && s[i - 1] == t[j - 1] {
        mat[i, j] := 1;
      }
      SubCell(s, t, i, j);
    }
  }

  /** `compatible_strings`: true iff `s` is a subsequence of `t`, computed
      with the dynamic-programming table of the original. */
  method CompatibleStrings<T(==)>(s: seq<T>, t: seq<T>) returns (r: bool)
    ensures r <==> Sub(s, t)
  {
    var m, n := |s|, |t|;
    var mat := new int[m + 1, n + 1]((i, j) => 0);
    for j := 0 to n + 1
      invariant forall j' :: 0 <= j' < j ==> mat[0, j'] == 1
      invariant forall j' :: j <= j' <= n ==> mat[0, j'] == 0
      invariant RowsZero(mat, 1)
    {
      mat[0, j] := 1;
    }
    for i := 1 to m + 1
      invariant RowsDone(mat, s, t, i) && RowsZero(mat, i)
    {
      FillRow(mat, s, t, i);
    }
    assert s[..m] == s && t[..n] == t;
    r := mat[m, n] == 1;
  }

  /** A subsequence is never longer than the sequence it comes from. */
  lemma {:induction false} SubNotLonger<T>(s: seq<T>, t: seq<T>)
    requires Sub(s, t)
    ensures |s| <= |t|
    decreases |t|
  {
    if s != [] {
      if Sub(s, t[..|t| - 1]) {
        SubNotLonger(s, t[..|t| - 1]);
      } else {
        SubNotLonger(s[..|s| - 1], t[..|t| - 1]);
      }
    }
  }

  /** An embedding can be read off the recurrence. */
  lemma {:induction false} SubHasEmbedding<T>(s: seq<T>, t: seq<T>) returns (f: seq<nat>)
    requires Sub(s, t)
    ensures Embedding(s, t, f)
    decreases |t|
  {
    if s == [] {
      f := [];
    } else if Sub(s, t[..|t| - 1]) {
      f := SubHasEmbedding(s, t[..|t| - 1]);
    } else {
      var g := SubHasEmbedding(s[..|s| - 1], t[..|t| - 1]);
      f := g + [|t| - 1];
    }
  }

  /** An embedding whose last position is below `n` stays inside `t[..n]`. */
  lemma EmbeddingBelow<T>(s: seq<T>, t: seq<T>, f: seq<nat>, n: nat)
    requires Embedding(s, t, f) && n <= |t| && (f != [] ==> f[|f| - 1] < n)
    ensures Embedding(s, t[..n], f)
  {
    forall k | 0 <= k < |f|
      ensures f[k] < n && t[..n][f[k]] == s[k]
    {
      assert k == |f| - 1 || f[k] < f[|f| - 1];
    }
  }

  /** The recurrence holds whenever an embedding exists. */
  lemma {:induction false} EmbeddingGivesSub<T>(s: seq<T>, t: seq<T>, f: seq<nat>)
    requires Embedding(s, t, f)
    ensures Sub(s, t)
    decreases |t|
  {
    if s != [] {
      var last := f[|f| - 1];
      if last == |t| - 1 {
        var g := f[..|f| - 1];
        EmbeddingBelow(s[..|s| - 1], t, g, |t| - 1) by {
          assert Embedding(s[..|s| - 1], t, g);
          if g != [] {
            assert g[|g| - 1] < last;
          }
        }
        EmbeddingGivesSub(s[..|s| - 1], t[..|t| - 1], g);
      } else {
        EmbeddingBelow(s, t, f, |t| - 1);
        EmbeddingGivesSub(s, t[..|t| - 1], f);
      }
    }
  }

  /** The table's recurrence is exactly "obtainable by dropping elements". */
  lemma SubIffEmbedding<T>(s: seq<T>, t: seq<T>)
    ensures Sub(s, t) <==> exists f :: Embedding(s, t, f)
  {
    if Sub(s, t) {
      var f := SubHasEmbedding(s, t);
    }
    forall f | Embedding(s, t, f)
      ensures Sub(s, t)
    {
      EmbeddingGivesSub(s, t, f);
    }
  }

  /** The empty conversation is compatible with any other. */
  lemma EmptyCompatible<T>(t: seq<T>)
    ensures Sub([], t)
  {
  }

  /** Every conversation is compatible with itself. */
  lemma SubReflexive<T>(s: seq<T>)
    ensures Sub(s, s)
  {
    var f := seq(|s|, k requires 0 <= k < |s| => k as nat);
    EmbeddingGivesSub(s, s, f);
  }

  /** Compatibility survives appending messages to the longer conversation. */
  lemma SubAppend<T>(s: seq<T>, t: seq<T>, u: seq<T>)
    requires Sub(s, t)
    ensures Sub(s, t + u)
  {
    var f := SubHasEmbedding(s, t);
    assert forall k :: 0 <= k < |f| ==> (t + u)[f[k]] == t[f[k]];
    EmbeddingGivesSub(s, t + u, f);
  }

  /** A conversation longer than the other is never compatible with it. */
  lemma LongerIncompatible<T>(s: seq<T>, t: seq<T>)
    requires |s| > |t|
    ensures !Sub(s, t)
  {
    if Sub(s, t) {
      SubNotLonger(s, t);
    }
  }
}
