/**
 * `dense_to_sparse`: a dense matrix (a list of rows) to the four CSR
 * arrays `values`, `row_indices`, `row_offsets` and `column_indices`.
 * Each numpy step is modelled by its own function; the reference
 * functions `Nonzeros` and `NonzeroColumns` describe one row directly,
 * and the lemmas connect the two.
 */
module Sparse {
  import opened Seqs
  import opened Sorting

  /** Every row has `ncols` entries. */
  ghost predicate IsMatrix(m: seq<seq<int>>, ncols: nat)
  {
    forall r :: 0 <= r < |m| ==> |m[r]| == ncols
  }

  /** `a.compress((a != 0).flatten())` on a flat array: its nonzero entries, in order. */
  function Nonzeros(xs: seq<int>): (r: seq<int>)
    ensures |r| <= |xs|
    ensures forall k :: 0 <= k < |r| ==> r[k] != 0
  {
    if xs == [] then [] else (if xs[0] != 0 then [xs[0]] else []) + Nonzeros(xs[1..])
  }

  /** `(row != 0).astype(np.int32)` for one row. */
  function MaskRow(row: seq<int>): (r: seq<int>)
    ensures |r| == |row|
    ensures forall c :: 0 <= c < |row| ==> r[c] == if row[c] != 0 then 1 else 0
  {
    if row == [] then [] else [if row[0] != 0 then 1 else 0] + MaskRow(row[1..])
  }

  /** `(matrix != 0).astype(np.int32)`: 1 at every nonzero entry, 0 elsewhere. */
  function Mask(m: seq<seq<int>>): (r: seq<seq<int>>)
    ensures |r| == |m|
    ensures forall i, c :: 0 <= i < |m| && 0 <= c < |m[i]| ==> |r[i]| == |m[i]| && r[i][c] == if m[i][c] != 0 then 1 else 0
  {
    seq(|m|, r requires 0 <= r < |m| => MaskRow(m[r]))
  }

  /** `np.add.reduce(a, axis=1)`: the sum of each row. */
  function RowSums(a: seq<seq<int>>): (r: seq<int>)
    ensures |r| == |a|
  {
    seq(|a|, r requires 0 <= r < |a| => Sum(a[r]))
  }

  /** One row of `mask * (np.arange(ncols) + 1)`, the row's first entry being column `c0`. */
  function WeightFrom(row: seq<int>, c0: nat): (r: seq<int>)
    ensures |r| == |row|
    ensures forall c :: 0 <= c < |row| ==> r[c] == row[c] * (c0 + c + 1)
  {
    if row == [] then [] else [row[0] * (c0 + 1)] + WeightFrom(row[1..], c0 + 1)
  }

  /** `mask * (np.arange(ncols) + 1)`: entry `(i, c)` is the mask entry times `c + 1`. */
  function Weighted(mask: seq<seq<int>>): (r: seq<seq<int>>)
    ensures |r| == |mask|
    ensures forall i, c :: 0 <= i < |mask| && 0 <= c < |mask[i]| ==> |r[i]| == |mask[i]| && r[i][c] == mask[i][c] * (c + 1)
  {
    seq(|mask|, r requires 0 <= r < |mask| => WeightFrom(mask[r], 0))
  }

  /** `xs - 1`, entrywise. */
  function Decrement(xs: seq<int>): (r: seq<int>)
    ensures |r| == |xs|
    ensures forall k :: 0 <= k < |xs| ==> r[k] == xs[k] - 1
  {
    if xs == [] then [] else [xs[0] - 1] + Decrement(xs[1..])
  }

  /** `-1 * xs`, entrywise. */
  function Negate(xs: seq<int>): (r: seq<int>)
    ensures |r| == |xs|
    ensures forall k :: 0 <= k < |xs| ==> r[k] == -xs[k]
  {
    if xs == [] then [] else [-xs[0]] + Negate(xs[1..])
  }

  /** The converter's result (values kept as integers, indices unbounded). */
  datatype SparseBundle = SparseBundle(
    values: seq<int>,
    rowIndices: seq<nat>,
    rowOffsets: seq<int>,
    columnIndices: seq<int>)

  /** `np.concatenate(([0], np.cumsum(np.add.reduce(mask, axis=1))))`. */
  function RowOffsets(m: seq<seq<int>>): (r: seq<int>)
    ensures |r| == |m| + 1 && r[0] == 0
  {
    [0] + CumSum(RowSums(Mask(m)))
  }

  /** `matrix.compress((matrix != 0).flatten())`. */
  function Values(m: seq<seq<int>>): (r: seq<int>)
    ensures forall k :: 0 <= k < |r| ==> r[k] != 0
  {
    Nonzeros(Concat(m))
  }

  /** `np.argsort(-1 * np.diff(row_offsets))`. */
  function RowIndices(m: seq<seq<int>>): (r: seq<nat>)
    ensures IsPermutation(r, |m|)
  {
    Argsort(Negate(Diff(RowOffsets(m))))
  }

  /** `x.compress((x != 0).flatten()) - 1` for `x = mask * (np.arange(ncols) + 1)`. */
  function ColumnIndices(m: seq<seq<int>>): seq<int>
  {
    Decrement(Nonzeros(Concat(Weighted(Mask(m)))))
  }

  /** `dense_to_sparse(matrix)`, step by step as the numpy expressions compute it. */
  function DenseToSparse(m: seq<seq<int>>): SparseBundle
  {
    SparseBundle(Values(m), RowIndices(m), RowOffsets(m), ColumnIndices(m))
  }

  // ---------------------------------------------------------------------
  // Reference description of one row

  /**
   * The columns `c0 + c` of the nonzero entries `row[c]`, ascending: the
   * positions a direct left-to-right scan of the row emits.
   */
  function ColumnsFrom(row: seq<int>, c0: nat): (r: seq<int>)
    ensures |r| == |Nonzeros(row)|
    ensures forall k :: 0 <= k < |r| ==> c0 <= r[k] < c0 + |row| && row[r[k] - c0] == Nonzeros(row)[k]
    ensures forall k, l :: 0 <= k < l < |r| ==> r[k] < r[l]
  {
    if row == [] then []
    else
      var rest := ColumnsFrom(row[1..], c0 + 1);
      (if row[0] != 0 then [c0] else []) + rest
  }

  function NonzeroColumns(row: seq<int>): seq<int>
  {
    ColumnsFrom(row, 0)
  }

  /** Number of nonzero entries of a row. */
  function Count(row: seq<int>): nat
  {
    |Nonzeros(row)|
  }

  /** Every nonzero entry's column is listed by the scan. */
  lemma {:induction false} ColumnsComplete(row: seq<int>, c0: nat, c: int)
    requires c0 <= c < c0 + |row| && row[c - c0] != 0
    ensures c in ColumnsFrom(row, c0)
  {
    var head: seq<int> := if row[0] != 0 then [c0] else [];
    assert ColumnsFrom(row, c0) == head + ColumnsFrom(row[1..], c0 + 1);
    if c > c0 {
      assert row[1..][c - (c0 + 1)] == row[c - c0];
      ColumnsComplete(row[1..], c0 + 1, c);
    } else {
      assert c in head;
    }
  }

  function RowNonzeros(m: seq<seq<int>>): seq<seq<int>>
  {
    seq(|m|, r requires 0 <= r < |m| => Nonzeros(m[r]))
  }

  function RowColumns(m: seq<seq<int>>): seq<seq<int>>
  {
    seq(|m|, r requires 0 <= r < |m| => NonzeroColumns(m[r]))
  }

  function Counts(m: seq<seq<int>>): seq<int>
  {
    seq(|m|, r requires 0 <= r < |m| => Count(m[r]))
  }

  // ---------------------------------------------------------------------
  // The numpy steps against the reference

  lemma {:induction false} NonzerosAppend(a: seq<int>, b: seq<int>)
    ensures Nonzeros(a + b) == Nonzeros(a) + Nonzeros(b)
  {
    if a != [] {
      var h := if a[0] != 0 then [a[0]] else [];
      assert (a + b)[0] == a[0] && (a + b)[1..] == a[1..] + b;
      NonzerosAppend(a[1..], b);
      assert Nonzeros(a + b) == h + (Nonzeros(a[1..]) + Nonzeros(b));
      assert h + (Nonzeros(a[1..]) + Nonzeros(b)) == (h + Nonzeros(a[1..])) + Nonzeros(b);
    } else {
      assert a + b == b;
    }
  }

  /** Compressing the flattened matrix is compressing each row and laying the results end to end. */
  lemma {:induction false} NonzerosConcat(m: seq<seq<int>>)
    ensures Nonzeros(Concat(m)) == Concat(RowNonzeros(m))
  {
    if m != [] {
      NonzerosAppend(m[0], Concat(m[1..]));
      NonzerosConcat(m[1..]);
      assert RowNonzeros(m)[1..] == RowNonzeros(m[1..]);
    }
  }

  lemma {:induction false} DecrementAppend(a: seq<int>, b: seq<int>)
    ensures Decrement(a + b) == Decrement(a) + Decrement(b)
  {
    if a != [] {
      assert (a + b)[1..] == a[1..] + b;
      DecrementAppend(a[1..], b);
    } else {
      assert a + b == b;
    }
  }

  function RowWeightedColumns(m: seq<seq<int>>): seq<seq<int>>
  {
    seq(|m|, r requires 0 <= r < |m| => Decrement(Nonzeros(WeightFrom(MaskRow(m[r]), 0))))
  }

  lemma {:induction false} WeightedColumnsConcat(m: seq<seq<int>>)
    ensures Decrement(Nonzeros(Concat(Weighted(Mask(m))))) == Concat(RowWeightedColumns(m))
  {
    if m != [] {
      var x := Weighted(Mask(m));
      var rc := RowWeightedColumns(m);
      WeightedSplit(m);
      NonzerosAppend(x[0], Concat(x[1..]));
      DecrementAppend(Nonzeros(x[0]), Nonzeros(Concat(x[1..])));
      WeightedColumnsConcat(m[1..]);
      assert Concat(x) == x[0] + Concat(x[1..]);
      assert Concat(rc) == rc[0] + Concat(rc[1..]);
    }
  }

  /** The weighted mask and the per-row trick, split into the first row and the rest. */
  lemma WeightedSplit(m: seq<seq<int>>)
    requires m != []
    ensures Weighted(Mask(m))[0] == WeightFrom(MaskRow(m[0]), 0)
    ensures Weighted(Mask(m))[1..] == Weighted(Mask(m[1..]))
    ensures RowWeightedColumns(m)[0] == Decrement(Nonzeros(WeightFrom(MaskRow(m[0]), 0)))
    ensures RowWeightedColumns(m)[1..] == RowWeightedColumns(m[1..])
  {
  }

  /**
   * The column trick: weighting a row's 0/1 mask by `column + 1`,
   * keeping the nonzero weights and subtracting 1 lists exactly the
   * columns a direct scan of the row finds.
   */
  lemma {:induction false} ColumnTrick(row: seq<int>, c0: nat)
    ensures Decrement(Nonzeros(WeightFrom(MaskRow(row), c0))) == ColumnsFrom(row, c0)
  {
    if row != [] {
      var head := [(if row[0] != 0 then 1 else 0) * (c0 + 1)];
      var tail := WeightFrom(MaskRow(row[1..]), c0 + 1);
      TrickHead(row, c0);
      NonzerosAppend(head, tail);
      DecrementAppend(Nonzeros(head), Nonzeros(tail));
      ColumnTrick(row[1..], c0 + 1);
    }
  }

  /** The weighted mask of a non-empty row is its first weight followed by the rest, and the first weight yields column `c0` exactly when the first entry is nonzero. */
  lemma TrickHead(row: seq<int>, c0: nat)
    requires row != []
    ensures var head := [(if row[0] != 0 then 1 else 0) * (c0 + 1)];
      && WeightFrom(MaskRow(row), c0) == head + WeightFrom(MaskRow(row[1..]), c0 + 1)
      && Decrement(Nonzeros(head)) == if row[0] != 0 then [c0] else []
  {
    var b := if row[0] != 0 then 1 else 0;
    assert MaskRow(row) == [b] + MaskRow(row[1..]);
    assert ([b] + MaskRow(row[1..]))[1..] == MaskRow(row[1..]);
  }

  /** `column_indices` is the direct scan of every row, rows laid end to end. */
  lemma ColumnIndicesByRow(m: seq<seq<int>>)
    ensures ColumnIndices(m) == Concat(RowColumns(m))
  {
    WeightedColumnsConcat(m);
    forall r | 0 <= r < |m|
      ensures RowWeightedColumns(m)[r] == RowColumns(m)[r]
    {
      ColumnTrick(m[r], 0);
    }
    assert RowWeightedColumns(m) == RowColumns(m);
  }

  /** `values` is the nonzero entries of every row, rows laid end to end. */
  lemma ValuesByRow(m: seq<seq<int>>)
    ensures Values(m) == Concat(RowNonzeros(m))
  {
    NonzerosConcat(m);
  }

  /** The sum of a row's mask is its number of nonzero entries. */
  lemma {:induction false} MaskSum(row: seq<int>)
    ensures Sum(MaskRow(row)) == Count(row)
  {
    if row != [] {
      assert MaskRow(row)[1..] == MaskRow(row[1..]);
      MaskSum(row[1..]);
    }
  }

  lemma RowSumsAreCounts(m: seq<seq<int>>)
    ensures RowSums(Mask(m)) == Counts(m)
  {
    forall r | 0 <= r < |m|
      ensures RowSums(Mask(m))[r] == Counts(m)[r]
    {
      MaskSum(m[r]);
    }
  }

  /** Laying rows end to end gives as many entries as their lengths add up to. */
  lemma {:induction false} ConcatLength(parts: seq<seq<int>>, lens: seq<int>)
    requires |parts| == |lens|
    requires forall i :: 0 <= i < |parts| ==> |parts[i]| == lens[i]
    ensures |Concat(parts)| == Sum(lens)
  {
    if parts != [] {
      ConcatLength(parts[1..], lens[1..]);
    }
  }

  lemma {:induction false} SumNonnegative(s: seq<int>)
    requires forall i :: 0 <= i < |s| ==> s[i] >= 0
    ensures Sum(s) >= 0
  {
    if s != [] {
      SumNonnegative(s[1..]);
    }
  }

  /** `row_offsets[r]` is the number of nonzero entries in the rows above `r`. */
  lemma OffsetAt(m: seq<seq<int>>, r: nat)
    requires r <= |m|
    ensures |RowOffsets(m)| == |m| + 1
    ensures RowOffsets(m)[r] == Sum(Counts(m)[..r])
  {
    RowSumsAreCounts(m);
    if r == 0 {
      assert Counts(m)[..0] == [];
    }
  }

  lemma OffsetStep(m: seq<seq<int>>, r: nat)
    requires r < |m|
    ensures RowOffsets(m)[r + 1] - RowOffsets(m)[r] == Count(m[r])
  {
    var c := Counts(m);
    OffsetAt(m, r);
    OffsetAt(m, r + 1);
    assert c[..r + 1] == c[..r] + [c[r]];
    SumAppend(c[..r], [c[r]]);
  }

  lemma OffsetsMonotone(m: seq<seq<int>>, a: nat, b: nat)
    requires a <= b <= |m|
    ensures RowOffsets(m)[a] <= RowOffsets(m)[b]
  {
    var c := Counts(m);
    OffsetAt(m, a);
    OffsetAt(m, b);
    assert c[..b] == c[..a] + c[a..b];
    SumAppend(c[..a], c[a..b]);
    SumNonnegative(c[a..b]);
  }

  lemma OffsetsTotal(m: seq<seq<int>>)
    ensures RowOffsets(m)[|m|] == |Values(m)| == |ColumnIndices(m)|
  {
    var c := Counts(m);
    OffsetAt(m, |m|);
    assert c[..|m|] == c;
    ValuesByRow(m);
    ColumnIndicesByRow(m);
    ConcatLength(RowNonzeros(m), c);
    ConcatLength(RowColumns(m), c);
  }

  /**
   * `row_offsets` has `nrows + 1` entries, starts at 0, never decreases,
   * and each step is the number of nonzero entries of that row; its last
   * entry is the length of `values` and of `column_indices`.
   */
  lemma RowOffsetsShape(m: seq<seq<int>>)
    ensures var o := DenseToSparse(m).rowOffsets;
      && |o| == |m| + 1
      && o[0] == 0
      && (forall r :: 0 <= r < |m| ==> o[r + 1] - o[r] == Count(m[r]))
      && (forall a, b :: 0 <= a <= b <= |m| ==> o[a] <= o[b])
      && o[|m|] == |DenseToSparse(m).values| == |DenseToSparse(m).columnIndices|
  {
    OffsetAt(m, 0);
    forall r | 0 <= r < |m|
      ensures RowOffsets(m)[r + 1] - RowOffsets(m)[r] == Count(m[r])
    {
      OffsetStep(m, r);
    }
    forall a, b | 0 <= a <= b <= |m|
      ensures RowOffsets(m)[a] <= RowOffsets(m)[b]
    {
      OffsetsMonotone(m, a, b);
    }
    OffsetsTotal(m);
  }

  /** Part `r` of rows laid end to end sits between the summed lengths of the rows before it and up to it. */
  lemma PartSlice(parts: seq<seq<int>>, lens: seq<int>, r: nat)
    requires |parts| == |lens| && r < |parts|
    requires forall i :: 0 <= i < |parts| ==> |parts[i]| == lens[i]
    ensures 0 <= Sum(lens[..r]) <= Sum(lens[..r + 1]) <= |Concat(parts)|
    ensures Concat(parts)[Sum(lens[..r])..Sum(lens[..r + 1])] == parts[r]
  {
    ConcatSlice(parts, r);
    ConcatLength(parts[..r], lens[..r]);
    ConcatLength(parts[..r + 1], lens[..r + 1]);
  }

  /**
   * Row `r`'s slice `row_offsets[r] .. row_offsets[r+1]` of `values` and
   * of `column_indices` holds exactly that row's nonzero entries and
   * their columns.
   */
  lemma RowSlice(m: seq<seq<int>>, r: nat)
    requires r < |m|
    ensures var s := DenseToSparse(m);
      && 0 <= s.rowOffsets[r] <= s.rowOffsets[r + 1] <= |s.values| == |s.columnIndices|
      && s.values[s.rowOffsets[r]..s.rowOffsets[r + 1]] == Nonzeros(m[r])
      && s.columnIndices[s.rowOffsets[r]..s.rowOffsets[r + 1]] == NonzeroColumns(m[r])
  {
    var c := Counts(m);
    OffsetAt(m, 0);
    OffsetsMonotone(m, 0, r);
    OffsetAt(m, r);
    OffsetAt(m, r + 1);
    OffsetsTotal(m);
    ValuesByRow(m);
    ColumnIndicesByRow(m);
    PartSlice(RowNonzeros(m), c, r);
    PartSlice(RowColumns(m), c, r);
  }

  /**
   * The direct scan of one row: each listed column is below `ncols` and
   * holds the matching nonzero entry, the columns rise strictly, and
   * every nonzero entry is listed.
   */
  lemma ScanFacts(row: seq<int>, ncols: nat)
    requires |row| == ncols
    ensures var (vals, cols) := (Nonzeros(row), NonzeroColumns(row));
      && |vals| == |cols|
      && (forall k :: 0 <= k < |cols| ==> 0 <= cols[k] < ncols && row[cols[k]] == vals[k] != 0)
      && (forall k, l :: 0 <= k < l < |cols| ==> cols[k] < cols[l])
      && (forall c :: 0 <= c < ncols && row[c] != 0 ==> c in cols)
  {
    forall c | 0 <= c < ncols && row[c] != 0
      ensures c in NonzeroColumns(row)
    {
      ColumnsComplete(row, 0, c);
    }
  }

  /**
   * Every position `k` of row `r`'s slice holds a column below `ncols`
   * at which the row's entry is `values[k]`, which is nonzero; the
   * columns rise strictly along the slice; and every nonzero entry of
   * the row appears in it.
   */
  lemma RowEntries(m: seq<seq<int>>, ncols: nat, r: nat)
    requires IsMatrix(m, ncols) && r < |m|
    ensures var s := DenseToSparse(m);
      var (lo, hi) := (s.rowOffsets[r], s.rowOffsets[r + 1]);
      && 0 <= lo <= hi <= |s.values| == |s.columnIndices|
      && (forall k :: lo <= k < hi ==>
            && 0 <= s.columnIndices[k] < ncols
            && m[r][s.columnIndices[k]] == s.values[k] != 0)
      && (forall k, l :: lo <= k < l < hi ==> s.columnIndices[k] < s.columnIndices[l])
      && (forall c :: 0 <= c < ncols && m[r][c] != 0 ==>
            exists k :: lo <= k < hi && s.columnIndices[k] == c)
  {
    var (values, cols) := (Values(m), ColumnIndices(m));
    var (lo, hi) := (RowOffsets(m)[r], RowOffsets(m)[r + 1]);
    RowSlice(m, r);
    ScanFacts(m[r], ncols);
    SliceShift(values, lo, hi);
    SliceShift(cols, lo, hi);
    forall c | 0 <= c < ncols && m[r][c] != 0
      ensures exists k :: lo <= k < hi && cols[k] == c
    {
      var t :| 0 <= t < |cols[lo..hi]| && cols[lo..hi][t] == c;
      assert cols[lo + t] == c;
    }
  }

  lemma SliceShift(s: seq<int>, lo: nat, hi: nat)
    requires lo <= hi <= |s|
    ensures forall k :: lo <= k < hi ==> s[k] == s[lo..hi][k - lo]
  {
  }

  /**
   * `row_indices` is a permutation of the rows along which the per-row
   * nonzero counts never increase.
   */
  lemma RowIndicesByCount(m: seq<seq<int>>)
    ensures var ri := DenseToSparse(m).rowIndices;
      && IsPermutation(ri, |m|)
      && forall i, j :: 0 <= i < j < |m| ==> Count(m[ri[i]]) >= Count(m[ri[j]])
  {
    var keys := Negate(Diff(RowOffsets(m)));
    var ri := Argsort(keys);
    assert |keys| == |m| by {
      OffsetAt(m, 0);
    }
    forall r | 0 <= r < |m|
      ensures keys[r] + Count(m[r]) == 0
    {
      OffsetStep(m, r);
    }
    forall i, j | 0 <= i < j < |m|
      ensures Count(m[ri[i]]) >= Count(m[ri[j]])
    {
      assert keys[ri[i]] <= keys[ri[j]];
    }
  }

  /**
   * Concrete case: the matrix `[[0,1,0],[1,0,1]]`. Only the offsets are
   * computed; the other arrays follow from the contracts above.
   */
  lemma TwoByThree(m: seq<seq<int>>)
    requires m == [[0, 1, 0], [1, 0, 1]]
    ensures DenseToSparse(m) == SparseBundle([1, 1, 1], [1, 0], [0, 1, 3], [1, 0, 2])
  {
    TwoByThreeOffsets(m);
    TwoByThreeEntries(m);
    // Row 1 has more nonzero entries than row 0, so it comes first.
    RowIndicesByCount(m);
    var ri := RowIndices(m);
    assert |ri| == 2 && 0 in ri && 1 in ri;
    assert ri[0] == 1 && ri[1] == 0;
    assert ri == [ri[0], ri[1]];
  }

  lemma TwoByThreeEntries(m: seq<seq<int>>)
    requires m == [[0, 1, 0], [1, 0, 1]]
    requires RowOffsets(m) == [0, 1, 3]
    ensures Values(m) == [1, 1, 1] && ColumnIndices(m) == [1, 0, 2]
  {
    OffsetsTotal(m);
    TwoByThreeFirstRow(m);
    TwoByThreeSecondRow(m);
    var (vals, cols) := (Values(m), ColumnIndices(m));
    assert cols == [cols[0], cols[1], cols[2]];
    assert vals == [vals[0], vals[1], vals[2]];
  }

  lemma TwoByThreeFirstRow(m: seq<seq<int>>)
    requires m == [[0, 1, 0], [1, 0, 1]]
    requires RowOffsets(m) == [0, 1, 3]
    ensures |ColumnIndices(m)| == |Values(m)| == 3
    ensures ColumnIndices(m)[0] == 1 && Values(m)[0] == 1
  {
    OffsetsTotal(m);
    RowEntries(m, 3, 0);
  }

  lemma TwoByThreeSecondRow(m: seq<seq<int>>)
    requires m == [[0, 1, 0], [1, 0, 1]]
    requires RowOffsets(m) == [0, 1, 3]
    ensures |ColumnIndices(m)| == |Values(m)| == 3
    ensures ColumnIndices(m)[1] == 0 && ColumnIndices(m)[2] == 2
    ensures Values(m)[1] == 1 && Values(m)[2] == 1
  {
    OffsetsTotal(m);
    RowEntries(m, 3, 1);
    var cols := ColumnIndices(m);
    assert m[1][cols[1]] != 0 && m[1][cols[2]] != 0 && cols[1] < cols[2];
  }

  lemma TwoByThreeOffsets(m: seq<seq<int>>)
    requires m == [[0, 1, 0], [1, 0, 1]]
    ensures RowOffsets(m) == [0, 1, 3]
  {
    OffsetAt(m, 0);
    OffsetStep(m, 0);
    OffsetStep(m, 1);
    assert Count(m[0]) == 1 && Count(m[1]) == 2;
  }

  /**
   * An all-zero matrix has no values and no columns, all offsets 0, and
   * `row_indices` is some permutation of the rows.
   */
  lemma AllZero(m: seq<seq<int>>)
    requires forall r, c :: 0 <= r < |m| && 0 <= c < |m[r]| ==> m[r][c] == 0
    ensures var s := DenseToSparse(m);
      && s.values == [] && s.columnIndices == []
      && |s.rowOffsets| == |m| + 1
      && (forall r :: 0 <= r <= |m| ==> s.rowOffsets[r] == 0)
      && IsPermutation(s.rowIndices, |m|)
  {
    forall r | 0 <= r < |m|
      ensures Count(m[r]) == 0
    {
      ZeroRow(m[r]);
    }
    RowOffsetsShape(m);
    RowIndicesByCount(m);
    forall r | 0 <= r <= |m|
      ensures RowOffsets(m)[r] == 0
    {
      OffsetZero(m, r);
    }
  }

  lemma {:induction false} ZeroRow(row: seq<int>)
    requires forall c :: 0 <= c < |row| ==> row[c] == 0
    ensures Count(row) == 0
  {
    if row != [] {
      ZeroRow(row[1..]);
    }
  }

  lemma {:induction false} OffsetZero(m: seq<seq<int>>, r: nat)
    requires r <= |m|
    requires forall i :: 0 <= i < |m| ==> Count(m[i]) == 0
    ensures RowOffsets(m)[r] == 0
  {
    if r == 0 {
      OffsetAt(m, 0);
    } else {
      OffsetStep(m, r - 1);
      OffsetZero(m, r - 1);
    }
  }
}
