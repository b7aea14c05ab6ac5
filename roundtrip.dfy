/**
 * The converter's output read back as a pattern: `(nrows, ncols,
 * row_offsets, column_indices)` densified by `pattern_to_dense` gives
 * the nonzero mask of the matrix it came from.
 */
module RoundTrip {
  import opened Wrappers
  import opened Text
  import opened Pattern
  import opened Densify
  import opened Sparse

  /** The pattern formed from `dense_to_sparse(m)` for an `|m| × ncols` matrix. */
  function SparsePattern(m: seq<seq<int>>, ncols: nat): CSRPattern
  {
    var s := DenseToSparse(m);
    CSRPattern(|m|, ncols, |s.values|, s.rowOffsets, s.columnIndices)
  }

  /** Every visit of the densifier on that pattern is in range. */
  lemma SparsePatternInRange(m: seq<seq<int>>, ncols: nat)
    requires IsMatrix(m, ncols)
    ensures InRange(SparsePattern(m, ncols))
  {
    var p := SparsePattern(m, ncols);
    RowOffsetsShape(m);
    assert VisitedRows(p) == |m|;
    forall i: nat, j: int | Before(p, i, j, VisitedRows(p), 0)
      ensures 0 <= j < |p.colIndices| && i < p.nrows && 0 <= p.colIndices[j] < p.ncols
    {
      RowEntries(m, ncols, i);
    }
  }

  /**
   * Densifying the converter's pattern raises nothing, and entry
   * `(r, c)` is 1 exactly where `m[r][c]` is nonzero.
   */
  lemma DensifySparseRoundTrip(m: seq<seq<int>>, ncols: nat)
    requires IsMatrix(m, ncols)
    ensures PatternFault(SparsePattern(m, ncols)) == None
    ensures forall r: nat, c: nat :: r < |m| && c < ncols ==>
      DenseValue(SparsePattern(m, ncols), r, c) == if m[r][c] != 0 then 1 else 0
  {
    var p := SparsePattern(m, ncols);
    SparsePatternInRange(m, ncols);
    DensifyInRange(p);
    RowOffsetsShape(m);
    forall r: nat, c: nat | r < |m| && c < ncols
      ensures DenseValue(p, r, c) == if m[r][c] != 0 then 1 else 0
    {
      RowEntries(m, ncols, r);
    }
  }

  /** The matrix `pattern_to_dense(p)` returns, as rows of `DenseValue`s. */
  ghost function DenseOf(p: CSRPattern): (m: seq<seq<int>>)
    requires p.nrows >= 0 && p.ncols >= 0
    ensures |m| == p.nrows && IsMatrix(m, p.ncols)
    ensures forall r, c :: 0 <= r < p.nrows && 0 <= c < p.ncols ==> m[r][c] == DenseValue(p, r, c)
  {
    seq(p.nrows, r requires 0 <= r < p.nrows => seq(p.ncols, c requires 0 <= c < p.ncols => DenseValue(p, r, c)))
  }

  /** Row `r`'s slice of `column_indices` lists exactly the columns where the row is nonzero. */
  lemma SliceColumns(m: seq<seq<int>>, ncols: nat, r: nat, c: int)
    requires IsMatrix(m, ncols) && r < |m|
    ensures var s := DenseToSparse(m);
      (exists k :: s.rowOffsets[r] <= k < s.rowOffsets[r + 1] && 0 <= k < |s.columnIndices| && s.columnIndices[k] == c) <==>
      (0 <= c < ncols && m[r][c] != 0)
  {
    RowEntries(m, ncols, r);
  }

  /**
   * The other round trip: densifying an in-range pattern and converting the
   * result back with `dense_to_sparse` gives every row the same set of
   * columns as the pattern lists for it (duplicates and order aside).
   */
  lemma PatternSparseRoundTrip(p: CSRPattern, r: nat, c: int)
    requires InRange(p) && r < p.nrows
    ensures var s := DenseToSparse(DenseOf(p));
      (exists k :: s.rowOffsets[r] <= k < s.rowOffsets[r + 1] && 0 <= k < |s.columnIndices| && s.columnIndices[k] == c) <==>
      (r < VisitedRows(p) &&
       exists j :: p.rowPtrs[r] <= j < p.rowPtrs[r + 1] && 0 <= j < |p.colIndices| && p.colIndices[j] == c)
  {
    var m := DenseOf(p);
    SliceColumns(m, p.ncols, r, c);
    DensifyInRange(p);
    if r < VisitedRows(p) && exists j :: p.rowPtrs[r] <= j < p.rowPtrs[r + 1] && 0 <= j < |p.colIndices| && p.colIndices[j] == c {
      var j :| p.rowPtrs[r] <= j < p.rowPtrs[r + 1] && 0 <= j < |p.colIndices| && p.colIndices[j] == c;
      assert Before(p, r, j, VisitedRows(p), 0);
    }
  }

  /** `pattern_to_dense` applied to the pattern built from `dense_to_sparse(m)`. */
  method DensifyConverted(m: seq<seq<int>>, ncols: nat) returns (result: array2<int>, err: Option<DensifyError>)
    requires IsMatrix(m, ncols)
    ensures err == None
    ensures result.Length0 == |m| && result.Length1 == ncols
    ensures forall r, c :: 0 <= r < |m| && 0 <= c < ncols ==> result[r, c] == if m[r][c] != 0 then 1 else 0
  {
    DensifySparseRoundTrip(m, ncols);
    result, err := PatternToDense(SparsePattern(m, ncols));
  }

  /** The file `2, 3, 3` / `0 1 3` / `1 0 2` reads as the pattern of `[[0,1,0],[1,0,1]]`. */
  lemma ReadTwoByThree(lines: seq<string>)
    requires lines == ["2, 3, 3", "0 1 3", "1 0 2"]
    ensures ParseLines(lines) == Ok(CSRPattern(2, 3, 3, [0, 1, 3], [1, 0, 2]))
  {
    var p := CSRPattern(2, 3, 3, [0, 1, 3], [1, 0, 2]);
    FormatParseRoundTrip(p);
    FormatTwoByThree(p);
  }

  lemma FormatTwoByThree(p: CSRPattern)
    requires p == CSRPattern(2, 3, 3, [0, 1, 3], [1, 0, 2])
    ensures FormatPattern(p) == ["2, 3, 3", "0 1 3", "1 0 2"]
  {
    assert ShowAll([2, 3, 3]) == ["2", "3", "3"];
    assert ShowAll([0, 1, 3]) == ["0", "1", "3"];
    assert ShowAll([1, 0, 2]) == ["1", "0", "2"];
    Join3("2", "3", "3", ", ");
    Join3("0", "1", "3", " ");
    Join3("1", "0", "2", " ");
    ConcreteLines();
  }

  lemma ConcreteLines()
    ensures "2" + ", " + "3" + ", " + "3" == "2, 3, 3"
    ensures "0" + " " + "1" + " " + "3" == "0 1 3"
    ensures "1" + " " + "0" + " " + "2" == "1 0 2"
  {
  }

  /**
   * Densifying that pattern raises nothing and gives `[[0,1,0],[1,0,1]]`.
   */
  lemma DensifyTwoByThree(m: seq<seq<int>>)
    requires m == [[0, 1, 0], [1, 0, 1]]
    ensures var p := CSRPattern(2, 3, 3, [0, 1, 3], [1, 0, 2]);
      && PatternFault(p) == None
      && forall r: nat, c: nat :: r < 2 && c < 3 ==> DenseValue(p, r, c) == m[r][c]
  {
    TwoByThree(m);
    assert SparsePattern(m, 3) == CSRPattern(2, 3, 3, [0, 1, 3], [1, 0, 2]);
    DensifySparseRoundTrip(m, 3);
  }
}
