/**
 * Sequence helpers that mirror the numpy reductions used by the converter:
 * flattening a list of rows, summing, and the running (prefix) sum.
 */
module Seqs {

  /** The rows of `parts` laid end to end (numpy's row-major `flatten`). */
  function Concat<T>(parts: seq<seq<T>>): seq<T>
  {
    if parts == [] then [] else parts[0] + Concat(parts[1..])
  }

  /** Flattening distributes over appending lists of rows. */
  lemma {:induction false} ConcatAppend<T>(a: seq<seq<T>>, b: seq<seq<T>>)
    ensures Concat(a + b) == Concat(a) + Concat(b)
  {
    if a == [] {
      assert a + b == b;
    } else {
      assert (a + b)[1..] == a[1..] + b;
      ConcatAppend(a[1..], b);
    }
  }

  /**
   * Row `r` of a flattened list of rows sits between the lengths of the
   * first `r` and the first `r + 1` rows.
   */
  lemma ConcatSlice<T>(parts: seq<seq<T>>, r: nat)
    requires r < |parts|
    ensures |Concat(parts[..r + 1])| == |Concat(parts[..r])| + |parts[r]|
    ensures |Concat(parts[..r + 1])| <= |Concat(parts)|
    ensures Concat(parts)[|Concat(parts[..r])|..|Concat(parts[..r + 1])|] == parts[r]
  {
    var pre, rest := parts[..r], parts[r + 1..];
    assert parts[..r + 1] == pre + [parts[r]];
    assert parts == parts[..r + 1] + rest;
    ConcatAppend(pre, [parts[r]]);
    ConcatAppend(parts[..r + 1], rest);
    assert Concat([parts[r]]) == parts[r] by {
      assert [parts[r]][1..] == [];
    }
  }

  function Sum(s: seq<int>): int
  {
    if s == [] then 0 else s[0] + Sum(s[1..])
  }

  lemma {:induction false} SumAppend(a: seq<int>, b: seq<int>)
    ensures Sum(a + b) == Sum(a) + Sum(b)
  {
    if a == [] {
      assert a + b == b;
    } else {
      assert (a + b)[1..] == a[1..] + b;
      SumAppend(a[1..], b);
    }
  }

  /** numpy's `cumsum`: entry `k` is the sum of the first `k + 1` entries. */
  function CumSum(s: seq<int>): (r: seq<int>)
    ensures |r| == |s|
    ensures |s| > 0 ==> r[0] == s[0] && r[|s| - 1] == Sum(s)
  {
    assert |s| > 0 ==> s[..|s|] == s && s[..1] == [s[0]] && Sum([s[0]]) == s[0] + Sum([]);
    seq(|s|, k requires 0 <= k < |s| => Sum(s[..k + 1]))
  }

  /** numpy's `diff`: the differences of neighbouring entries. */
  function Diff(s: seq<int>): (r: seq<int>)
    ensures |s| > 0 ==> |r| == |s| - 1
  {
    if |s| == 0 then [] else seq(|s| - 1, k requires 0 <= k < |s| - 1 => s[k + 1] - s[k])
  }

  /** `diff` undoes `cumsum` up to its first entry: the differences of the running sums are the entries after the first. */
  lemma DiffCumSum(s: seq<int>)
    ensures Diff(CumSum(s)) == if s == [] then [] else s[1..]
  {
    forall k | 0 <= k < |s| - 1
      ensures CumSum(s)[k + 1] - CumSum(s)[k] == s[k + 1]
    {
      CumSumStep(s, k);
    }
  }

  lemma CumSumStep(s: seq<int>, k: nat)
    requires k + 1 < |s|
    ensures CumSum(s)[k + 1] - CumSum(s)[k] == s[k + 1]
  {
    assert s[..k + 2] == s[..k + 1] + [s[k + 1]];
    SumAppend(s[..k + 1], [s[k + 1]]);
  }
}
