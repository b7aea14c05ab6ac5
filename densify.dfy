/**
 * `pattern_to_dense`: expand a pattern-only CSR record into a zero-filled
 * `nrows x ncols` matrix with a 1 at every listed position, stopping at the
 * first position that cannot be written.
 *
 * The loop visits rows `0 .. len(row_ptrs) - 2` (not `0 .. nrows - 1`) and,
 * in row `i`, the offsets `row_ptrs[i] .. row_ptrs[i+1] - 1` in order.  Each
 * visit reads `col_indices[j]` and writes `result[i, col]`, with Python's
 * indexing: a negative index counts from the end.
 */
module Densify {
  import opened Wrappers
  import opened Pattern

  datatype DensifyError =
    | NegativeDimension                          // `np.zeros` refuses a negative shape
    | ColumnOutOfRange(row: int, col: int)       // the `ValueError(i, col)` raised when `result[i, col]` does not exist
    | ColumnIndexMissing(row: int, offset: int)  // `col_indices[j]` does not exist: the handler itself raises `IndexError`

  /** What one visit of the loop does: write a 1 in a column of its row, or raise. */
  datatype Visit = Write(col: nat) | Raise(error: DensifyError)

  /** The number of rows the loop visits: `len(row_ptrs) - 1`, or none. */
  function VisitedRows(p: CSRPattern): nat
  {
    if |p.rowPtrs| > 0 then |p.rowPtrs| - 1 else 0
  }

  /** Python's index `j` into a sequence of length `n` exists ... */
  predicate PyValid(n: int, j: int)
  {
    -n <= j < n
  }

  /** ... and this is the position it denotes. */
  function PyWrap(n: int, j: int): (k: nat)
    requires PyValid(n, j)
    ensures k < n && (k == j || k == j + n)
  {
    if j < 0 then j + n else j
  }

  /** The visit of offset `j` in row `i`: `result[i, col_indices[j]] = 1`. */
  function VisitAt(p: CSRPattern, i: nat, j: int): (v: Visit)
    ensures v.Write? <==>
      (PyValid(|p.colIndices|, j) && i < p.nrows && PyValid(p.ncols, p.colIndices[PyWrap(|p.colIndices|, j)]))
    ensures v.Write? ==> v.col < p.ncols
  {
    if !PyValid(|p.colIndices|, j) then Raise(ColumnIndexMissing(i, j))
    else
      var c := p.colIndices[PyWrap(|p.colIndices|, j)];
      if i < p.nrows && PyValid(p.ncols, c) then Write(PyWrap(p.ncols, c))
      else Raise(ColumnOutOfRange(i, c))
  }

  /** Offset `j` of row `i` is visited before the loop reaches offset `j0` of row `i0`. */
  ghost predicate Before(p: CSRPattern, i: nat, j: int, i0: nat, j0: int)
  {
    i < VisitedRows(p) && p.rowPtrs[i] <= j < p.rowPtrs[i + 1] && (i < i0 || (i == i0 && j < j0))
  }

  /** No visit before position `(i0, j0)` raises. */
  ghost predicate Clean(p: CSRPattern, i0: nat, j0: int)
  {
    forall i: nat, j: int :: Before(p, i, j, i0, j0) ==> VisitAt(p, i, j).Write?
  }

  /** Some visit before position `(i0, j0)` writes a 1 at `(r, c)`. */
  ghost predicate Painted(p: CSRPattern, r: nat, c: nat, i0: nat, j0: int)
  {
    exists j: int :: Before(p, r, j, i0, j0) && VisitAt(p, r, j) == Write(c)
  }

  /** Where row `i`'s offsets start (`0` past the last row pointer). */
  function RowStart(p: CSRPattern, i: nat): int
  {
    if i < |p.rowPtrs| then p.rowPtrs[i] else 0
  }

  /** The first raising visit at or after offset `j` of row `i`, in loop order. */
  function FirstFaultFrom(p: CSRPattern, i: nat, j: int): (r: Option<(nat, int)>)
    requires i < VisitedRows(p) ==> p.rowPtrs[i] <= j
    ensures r.Some? ==> Before(p, r.value.0, r.value.1, r.value.0, r.value.1 + 1)
    ensures r.Some? ==> VisitAt(p, r.value.0, r.value.1).Raise?
    decreases VisitedRows(p) - i, if i < VisitedRows(p) && j < p.rowPtrs[i + 1] then p.rowPtrs[i + 1] - j else 0
  {
    if i >= VisitedRows(p) then None
    else if j < p.rowPtrs[i + 1] then
      if VisitAt(p, i, j).Raise? then Some((i, j)) else FirstFaultFrom(p, i, j + 1)
    else FirstFaultFrom(p, i + 1, RowStart(p, i + 1))
  }

  /** The first raising visit of the whole loop, if any. */
  function FirstFault(p: CSRPattern): Option<(nat, int)>
  {
    FirstFaultFrom(p, 0, RowStart(p, 0))
  }

  /** Where the loop stops: at its first raising visit, or after its last row. */
  function Stop(p: CSRPattern): (nat, int)
  {
    match FirstFault(p)
    case Some(s) => s
    case None => (VisitedRows(p), 0)
  }

  /** The error `pattern_to_dense(p)` raises, if any. */
  function PatternFault(p: CSRPattern): (r: Option<DensifyError>)
    ensures p.nrows < 0 || p.ncols < 0 ==> r == Some(NegativeDimension)
    ensures r.Some? && r.value != NegativeDimension ==> FirstFault(p).Some?
  {
    if p.nrows < 0 || p.ncols < 0 then Some(NegativeDimension)
    else
      match FirstFault(p)
      case Some((i, j)) => Some(VisitAt(p, i, j).error)
      case None => None
  }

  /** The entry at `(r, c)` once the loop has stopped: 1 if a visit before the stop wrote it, else the initial 0. */
  ghost function DenseValue(p: CSRPattern, r: nat, c: nat): int
  {
    if Painted(p, r, c, Stop(p).0, Stop(p).1) then 1 else 0
  }

  /**
   * `pattern_to_dense(p)`.  On success `err` is `None` and `result` is the
   * matrix; otherwise `err` is what the source raises and `result` holds the
   * writes made before the raise (nothing is rolled back).
   */
  method PatternToDense(p: CSRPattern) returns (result: array2<int>, err: Option<DensifyError>)
    ensures fresh(result)
    ensures err == PatternFault(p)
    ensures p.nrows >= 0 && p.ncols >= 0 ==> result.Length0 == p.nrows && result.Length1 == p.ncols
    ensures forall r, c :: 0 <= r < result.Length0 && 0 <= c < result.Length1 ==>
      result[r, c] == DenseValue(p, r, c) && (result[r, c] == 0 || result[r, c] == 1)
  {
    if p.nrows < 0 || p.ncols < 0 {
      result := new int[0, 0];
      err := Some(NegativeDimension);
      return;
    }
    result := new int[p.nrows, p.ncols]((_, _) => 0);
    err := None;
    var i: nat := 0;
    while i + 1 < |p.rowPtrs|
      invariant i <= VisitedRows(p)
      invariant Clean(p, i, RowStart(p, i))
      invariant FirstFault(p) == FirstFaultFrom(p, i, RowStart(p, i))
      invariant forall r, c :: 0 <= r < p.nrows && 0 <= c < p.ncols ==>
        result[r, c] == if Painted(p, r, c, i, RowStart(p, i)) then 1 else 0
    {
      var start, end := p.rowPtrs[i], p.rowPtrs[i + 1];
      var j := start;
      while j < end
        invariant start <= j
        invariant Clean(p, i, j)
        invariant FirstFault(p) == FirstFaultFrom(p, i, j)
        invariant forall r, c :: 0 <= r < p.nrows && 0 <= c < p.ncols ==>
          result[r, c] == if Painted(p, r, c, i, j) then 1 else 0
      {
        if !(-|p.colIndices| <= j < |p.colIndices|) {
          err := Some(ColumnIndexMissing(i, j));
          return;
        }
        var col := p.colIndices[if j < 0 then j + |p.colIndices| else j];
        if !(i < p.nrows && -p.ncols <= col < p.ncols) {
          err := Some(ColumnOutOfRange(i, col));
          return;
        }
        var c := if col < 0 then col + p.ncols else col;
        result[i, c] := 1;
        StepPainted(p, i, j, c);
        j := j + 1;
      }
      NextRow(p, i, j);
      i := i + 1;
    }
    assert i == VisitedRows(p);
  }

  /** Writing a 1 at `(i, c)` from visit `(i, j)` adds exactly that cell to the painted ones. */
  lemma StepPainted(p: CSRPattern, i: nat, j: int, c: nat)
    requires i < VisitedRows(p) && p.rowPtrs[i] <= j < p.rowPtrs[i + 1]
    requires VisitAt(p, i, j) == Write(c)
    requires Clean(p, i, j)
    ensures Clean(p, i, j + 1)
    ensures FirstFaultFrom(p, i, j) == FirstFaultFrom(p, i, j + 1)
    ensures forall r: nat, c': nat :: Painted(p, r, c', i, j + 1) == (Painted(p, r, c', i, j) || (r == i && c' == c))
  {
    forall r: nat, c': nat
      ensures Painted(p, r, c', i, j + 1) == (Painted(p, r, c', i, j) || (r == i && c' == c))
    {
      if r == i && c' == c {
        assert Before(p, r, j, i, j + 1);
      }
      if Painted(p, r, c', i, j + 1) {
        var j' :| Before(p, r, j', i, j + 1) && VisitAt(p, r, j') == Write(c');
        if !(r == i && j' == j) {
          assert Before(p, r, j', i, j);
        }
      }
      if Painted(p, r, c', i, j) {
        var j' :| Before(p, r, j', i, j) && VisitAt(p, r, j') == Write(c');
        assert Before(p, r, j', i, j + 1);
      }
    }
  }

  /** Leaving row `i` at offset `j` past its end is the same position as the start of row `i + 1`. */
  lemma NextRow(p: CSRPattern, i: nat, j: int)
    requires i < VisitedRows(p) && p.rowPtrs[i] <= j && p.rowPtrs[i + 1] <= j
    ensures forall r: nat, j': int :: Before(p, r, j', i, j) == Before(p, r, j', i + 1, RowStart(p, i + 1))
    ensures FirstFaultFrom(p, i, j) == FirstFaultFrom(p, i + 1, RowStart(p, i + 1))
  {
  }

  /** `FirstFaultFrom` finds the first raising visit: every visit before it writes, and if there is none, every visit writes. */
  lemma {:induction false} FirstFaultFromSpec(p: CSRPattern, i: nat, j: int)
    requires i < VisitedRows(p) ==> p.rowPtrs[i] <= j
    requires Clean(p, i, j)
    ensures FirstFaultFrom(p, i, j).None? ==> Clean(p, VisitedRows(p), 0)
    ensures FirstFaultFrom(p, i, j).Some? ==> Clean(p, FirstFaultFrom(p, i, j).value.0, FirstFaultFrom(p, i, j).value.1)
    decreases VisitedRows(p) - i, if i < VisitedRows(p) && j < p.rowPtrs[i + 1] then p.rowPtrs[i + 1] - j else 0
  {
    if i >= VisitedRows(p) {
      forall r: nat, j': int | Before(p, r, j', VisitedRows(p), 0)
        ensures VisitAt(p, r, j').Write?
      {
        assert Before(p, r, j', i, j);
      }
    } else if j < p.rowPtrs[i + 1] {
      if VisitAt(p, i, j).Write? {
        StepPainted(p, i, j, VisitAt(p, i, j).col);
        FirstFaultFromSpec(p, i, j + 1);
      }
    } else {
      NextRow(p, i, j);
      FirstFaultFromSpec(p, i + 1, RowStart(p, i + 1));
    }
  }

  /**
   * `pattern_to_dense(p)` raises nothing exactly when the shape is not
   * negative and every visit of the loop writes; when it raises for a
   * visit, that visit is the first one that cannot write.
   */
  lemma PatternFaultSpec(p: CSRPattern)
    ensures PatternFault(p).None? <==> p.nrows >= 0 && p.ncols >= 0 && Clean(p, VisitedRows(p), 0)
    ensures p.nrows >= 0 && p.ncols >= 0 && PatternFault(p).Some? ==>
      var (i, j) := Stop(p);
      && Before(p, i, j, i, j + 1)
      && Clean(p, i, j)
      && VisitAt(p, i, j).Raise?
      && PatternFault(p) == Some(VisitAt(p, i, j).error)
  {
    FirstFaultFromSpec(p, 0, RowStart(p, 0));
    if FirstFault(p).Some? {
      var (i, j) := FirstFault(p).value;
      assert Before(p, i, j, VisitedRows(p), 0);
    }
  }

  /** A visit that cannot write, with every earlier visit writing, decides the error and the stop. */
  lemma FirstRaiseDecides(p: CSRPattern, i: nat, j: int)
    requires p.nrows >= 0 && p.ncols >= 0
    requires Before(p, i, j, i, j + 1) && Clean(p, i, j) && VisitAt(p, i, j).Raise?
    ensures PatternFault(p) == Some(VisitAt(p, i, j).error)
    ensures Stop(p) == (i, j)
  {
    PatternFaultSpec(p);
    assert Before(p, i, j, VisitedRows(p), 0);
  }

  /**
   * A visited column index that is at least `ncols` raises
   * `ValueError(i, col)`, provided no earlier visit raised first.
   */
  lemma OversizedColumnRaises(p: CSRPattern, i: nat, j: int)
    requires p.nrows >= 0 && p.ncols >= 0
    requires Before(p, i, j, i, j + 1) && Clean(p, i, j)
    requires 0 <= j < |p.colIndices| && p.colIndices[j] >= p.ncols
    ensures PatternFault(p) == Some(ColumnOutOfRange(i, p.colIndices[j]))
  {
    FirstRaiseDecides(p, i, j);
  }

  /**
   * A visited offset `j` of a row at or past `nrows` (more than
   * `nrows + 1` row pointers, with that row's offset range non-empty)
   * raises `ValueError(i, col)`, provided no earlier visit raised first.
   * A row pointer sequence whose extra rows have empty ranges raises
   * nothing for them.
   */
  lemma ExtraRowRaises(p: CSRPattern, i: nat, j: int)
    requires p.nrows >= 0 && p.ncols >= 0 && i >= p.nrows
    requires Before(p, i, j, i, j + 1) && Clean(p, i, j)
    requires 0 <= j < |p.colIndices|
    ensures PatternFault(p) == Some(ColumnOutOfRange(i, p.colIndices[j]))
  {
    FirstRaiseDecides(p, i, j);
  }

  /** Every visited offset is an index of `col_indices`, every visited row is below `nrows`, and every visited column below `ncols`. */
  ghost predicate InRange(p: CSRPattern)
  {
    && p.nrows >= 0 && p.ncols >= 0
    && forall i: nat, j: int :: Before(p, i, j, VisitedRows(p), 0) ==>
         0 <= j < |p.colIndices| && i < p.nrows && 0 <= p.colIndices[j] < p.ncols
  }

  /**
   * For in-range data nothing is raised, and `result[r][c]` is 1 exactly
   * when some offset in `row_ptrs[r] .. row_ptrs[r+1] - 1` holds column
   * `c`; every other entry keeps its initial 0.
   */
  lemma DensifyInRange(p: CSRPattern)
    requires InRange(p)
    ensures PatternFault(p) == None
    ensures forall r: nat, c: nat :: r < p.nrows && c < p.ncols ==>
      (DenseValue(p, r, c) == 1 <==>
         r < VisitedRows(p) && exists j :: p.rowPtrs[r] <= j < p.rowPtrs[r + 1] && 0 <= j < |p.colIndices| && p.colIndices[j] == c)
  {
    forall i: nat, j: int | Before(p, i, j, VisitedRows(p), 0)
      ensures VisitAt(p, i, j) == Write(p.colIndices[j])
    {
    }
    PatternFaultSpec(p);
    assert Stop(p) == (VisitedRows(p), 0);
    forall r: nat, c: nat | r < p.nrows && c < p.ncols && r < VisitedRows(p) &&
        exists j :: p.rowPtrs[r] <= j < p.rowPtrs[r + 1] && 0 <= j < |p.colIndices| && p.colIndices[j] == c
      ensures DenseValue(p, r, c) == 1
    {
      var j :| p.rowPtrs[r] <= j < p.rowPtrs[r + 1] && 0 <= j < |p.colIndices| && p.colIndices[j] == c;
      assert Before(p, r, j, VisitedRows(p), 0);
    }
  }

  /** A row whose pointers do not increase, or that the loop never reaches, stays all zero. */
  lemma UntouchedRowsZero(p: CSRPattern, r: nat)
    requires r >= VisitedRows(p) || p.rowPtrs[r] >= p.rowPtrs[r + 1]
    ensures forall c: nat :: DenseValue(p, r, c) == 0
  {
  }

  datatype MtxError = ParseFailed(parse: ParseError) | DensifyFailed(densify: DensifyError)

  /**
   * `get_mtx`: parse the file's lines and densify the pattern they describe
   * with the same loop as `pattern_to_dense`.
   */
  method GetMtx(lines: seq<string>) returns (result: array2<int>, err: Option<MtxError>)
    ensures fresh(result)
    ensures ParseLines(lines).Err? ==> err == Some(ParseFailed(ParseLines(lines).error))
    ensures ParseLines(lines).Ok? ==>
      var p := ParseLines(lines).value;
      && (err.None? <==> PatternFault(p).None?)
      && (err.Some? ==> err == Some(DensifyFailed(PatternFault(p).value)))
      && (p.nrows >= 0 && p.ncols >= 0 ==> result.Length0 == p.nrows && result.Length1 == p.ncols)
      && forall r, c :: 0 <= r < result.Length0 && 0 <= c < result.Length1 ==> result[r, c] == DenseValue(p, r, c)
  {
    match ParseLines(lines)
    case Err(e) =>
      result := new int[0, 0];
      err := Some(ParseFailed(e));
    case Ok(p) =>
      var e;
      result, e := PatternToDense(p);
      err := if e.Some? then Some(DensifyFailed(e.value)) else None;
  }
}
