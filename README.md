# mtx: sparse-pattern reader, densifier and dense-to-sparse converter, in Dafny

This project models `src/mtx.py`. The file holds three small algorithms over integer sequences:

- **The pattern-file parse.** A file has three lines: `nrows, ncols, nnz`, then the CSR row pointers, then the column indices. `get_mtx` turns the file's lines into a `CSRPattern` record. `read_pattern` parses the header line in its own way.
- **The densifier.** `pattern_to_dense`, repeated inline in `get_mtx`, expands a pattern into an `nrows × ncols` matrix of 0s and 1s. It raises `ValueError(i, col)` when a position cannot be written.
- **The converter.** `dense_to_sparse` turns a dense matrix into `values`, `row_indices`, `row_offsets` and `column_indices`.

Modules, one file each:

| file | module | what it holds |
|---|---|---|
| `wrappers.dfy` | `Wrappers` | `Option`, `Result` |
| `seqs.dfy` | `Seqs` | flattening, `Sum`, numpy's `cumsum` and `diff` |
| `text.dfy` | `Text` | Python's `str.strip`, `str.split(sep)`, `sep.join`, and a decimal `int()` with its printer |
| `pattern.dfy` | `Pattern` | the `CSRPattern` record, the parse in `get_mtx`, the header parse in `read_pattern` |
| `densify.dfy` | `Densify` | `pattern_to_dense` as a method over an `array2`, its specification functions and lemmas, `get_mtx` |
| `sorting.dfy` | `Sorting` | an argsort (insertion by key) with its permutation and order lemmas |
| `sparse.dfy` | `Sparse` | `dense_to_sparse`, one function per numpy step, and a direct row scan it is proved against |
| `roundtrip.dfy` | `RoundTrip` | densifying the converter's output gives the matrix's nonzero mask; the concrete cases |

## How the densifier is specified

The loop visits the rows `0 .. len(row_ptrs) - 2`, not `0 .. nrows - 1`. In row `i` it visits the offsets `row_ptrs[i] .. row_ptrs[i+1] - 1`.

- `VisitAt(p, i, j)` is the outcome of one visit. It reads `col_indices[j]` and writes `result[i, col]`, with Python's indexing, so a negative index counts from the end.
- `FirstFault` is the first visit that cannot write, and `Stop(p)` is where the loop ends.
- `PatternFault(p)` is the error the loop or a negative shape raises, if any. Allocation failures of `np.zeros` for a huge shape are outside the model (see "Left out").
- `DenseValue(p, r, c)` is 1 exactly when a visit before the stop wrote `(r, c)`.

`PatternToDense` is proved to return exactly `PatternFault(p)`, and a matrix whose cells are `DenseValue`. Writes made before an error stay in the matrix.

Three kinds of error are distinguished:

- `NegativeDimension`: `np.zeros` refuses a negative shape.
- `ColumnOutOfRange(i, col)`: the source's `ValueError`.
- `ColumnIndexMissing(i, j)`: `col_indices[j]` itself does not exist, so the handler's own re-indexing raises `IndexError`.

## Observations

- The parse in `get_mtx` cannot read a pattern with no nonzero entries. An empty array line splits into the single token `""`, which `int()` refuses (`Pattern.EmptyArrayLineRejected`). The write-out/read-back round trip (`Pattern.FormatParseRoundTrip`) therefore needs both arrays to be non-empty.
- Nothing checks the header's `nnz`, or `nrows` against `len(row_ptrs) - 1`.
  - Extra row pointers make the loop visit rows at or past `nrows`. Such a row `i` whose range `row_ptrs[i] .. row_ptrs[i+1] - 1` is non-empty raises at its first offset, provided no earlier visit raised (`Densify.ExtraRowRaises`). An extra row with an empty range raises nothing.
  - Missing row pointers leave the later rows at 0 (`Densify.UntouchedRowsZero`).
- `read_pattern` splits its header on `,` and `get_mtx` splits it on `", "`. `Pattern.HeaderReadersAgree` proves that `read_pattern`'s header parse gives the same result on every header that `get_mtx` accepts.
- The error for a column that does not fit is a `ValueError` carrying the row and the column value, as the code raises it. It is not a dedicated index error.

## Model

| member | source | states |
|---|---|---|
| Pattern.ParseLines | src/mtx.py:50-59 | Succeeds iff there are exactly three lines, every `" "`-separated token of stripped lines 2 and 3 is an integer literal, and stripped line 1 splits on `", "` into exactly three integer literals. On success the fields are those integers in order. Fewer or more lines give `WrongLineCount`. Otherwise the first failing step decides the error: the row pointers (their first refused token), then the column indices, then the header |
| Pattern.ParseArray | src/mtx.py:52-55 | Succeeds iff every single-space token parses, and then gives their values in order. Otherwise the error names the first token `int()` refuses |
| Pattern.ParseHeader | src/mtx.py:57-59 | Succeeds iff the `", "` split has three tokens and all parse. Three parsing tokens give the three values; a different count of parsing tokens gives `WrongHeaderArity`; a refused token is reported before the count, and it is the first refused one |
| Pattern.EmptyArrayLineRejected | src/mtx.py:52-55 | An array line that strips to empty makes the parse fail with an invalid literal |
| Pattern.FormatParseRoundTrip | src/mtx.py:50-59 | Writing any pattern with non-empty arrays as the three lines and parsing them gives back the pattern |
| Pattern.ReadPatternHeader | src/mtx.py:18 | `read_pattern`'s header parse (split on `,`, `int()` of each stripped piece). Succeeds iff there are three pieces whose stripped forms all parse, and gives their values |
| Pattern.HeaderReadersAgree | src/mtx.py:18 | On every line whose stripped form `get_mtx` accepts as a header, `read_pattern`'s header parse gives the same three numbers |
| Text.Strip | src/mtx.py:50 | The stripped line is no longer than the line and neither starts nor ends with whitespace; with `Text.StripFrame` and `Text.StripPadded` this pins it down |
| Text.StripPadded | src/mtx.py:50 | A line that is whitespace, then text with no whitespace at its ends, then whitespace strips to that text |
| Text.Split | src/mtx.py:52 | `str.split(sep)` gives at least one piece; `Text.JoinSplit` and `Text.SplitJoin` relate it to `sep.join` |
| Text.StripFrame | src/mtx.py:50 | `strip()` removes only whitespace, and only from the two ends: the line is whitespace + stripped line + whitespace |
| Text.JoinSplit | src/mtx.py:52 | `str.split(sep)` loses nothing: joining its pieces with `sep` gives back the string |
| Text.SplitJoin | src/mtx.py:52 | Splitting a join of pieces none of which contains the separator's first character gives back the pieces |
| Text.ParseInt | src/mtx.py:53 | `int(token)` succeeds exactly on an optional `-` followed by one or more digits, and an unsigned literal gives a non-negative value |
| Text.ParseShow | src/mtx.py:53 | Every integer's decimal form parses back to it |
| Text.ParseAll | src/mtx.py:53 | `[int(i) for i in tokens]` succeeds iff every token parses. It then gives their values in order; otherwise it reports a token that does not parse |
| Densify.PyWrap | src/mtx.py:39 | A valid Python index denotes a position below the length, either the index itself or the index plus the length |
| Densify.VisitedRows | src/mtx.py:35 | `range(len(row_ptrs) - 1)` visits `len(row_ptrs) - 1` rows, none when there are no row pointers; `Densify.DensifyInRange` and `Densify.UntouchedRowsZero` use it as the visited-row bound |
| Densify.VisitAt | src/mtx.py:38-41 | One visit writes iff `col_indices[j]` exists (Python indexing), the row is below `nrows` and the column is a valid index into `ncols`; a write lands below `ncols` |
| Densify.PatternFault | src/mtx.py:34-41 | A negative shape raises the `np.zeros` error; any other error comes from a raising visit. `Densify.PatternFaultSpec` states the rest |
| Densify.FirstFaultFrom | src/mtx.py:35-41 | What it finds is a visited offset of its row whose visit raises |
| Densify.PatternToDense | src/mtx.py:33-43 | The error is exactly `PatternFault(p)`. For a non-negative shape the result is `nrows × ncols`. Every cell is `DenseValue`, hence 0 or 1, and writes before the error are kept |
| Densify.FirstFaultFromSpec | src/mtx.py:35-41 | Every visit before the first raising one writes; if none raises, every visit writes |
| Densify.PatternFaultSpec | src/mtx.py:34-41 | Nothing is raised iff the shape is non-negative and every visit writes. Otherwise the stop is a visited position whose visit raises, all earlier visits write, and the raised error is that visit's |
| Densify.FirstRaiseDecides | src/mtx.py:38-41 | A raising visit with only writing visits before it is where the loop stops, and its error is the one raised |
| Densify.OversizedColumnRaises | src/mtx.py:39-41 | A visited `col_indices[j] >= ncols`, with no earlier raise, raises `ValueError(i, col_indices[j])` |
| Densify.ExtraRowRaises | src/mtx.py:35-41 | A visited offset `j` of a row `i >= nrows` (more than `nrows + 1` row pointers, and row `i`'s range non-empty), with no earlier raise, raises `ValueError(i, col_indices[j])` |
| Densify.DensifyInRange | src/mtx.py:34-39 | For in-range data nothing is raised, and `result[r][c] == 1` iff `r` is a visited row and some offset in `row_ptrs[r] .. row_ptrs[r+1] - 1` holds column `c`; every other entry stays 0 |
| Densify.UntouchedRowsZero | src/mtx.py:35-37 | A row with descending (or equal) pointers, or beyond the visited rows, stays all zero |
| Densify.GetMtx | src/mtx.py:47-69 | A parse error is reported as such. Otherwise the result and the error are those of `PatternToDense` on the parsed pattern |
| Sorting.InsertPos | src/mtx.py:86 | Every position before the insertion place has a key `<= keys[x]`, and the position at the place, if any, has a larger key |
| Sorting.InsertMembers | src/mtx.py:86 | Inserting adds exactly the new position |
| Sorting.InsertDistinct | src/mtx.py:86 | Inserting a new position keeps the order free of duplicates |
| Sorting.InsertSorted | src/mtx.py:86 | Inserting keeps the keys ascending |
| Sorting.ArgsortPrefix | src/mtx.py:86 | The first `n` positions, inserted in turn, form a permutation of `0 .. n-1` with ascending keys |
| Sorting.Argsort | src/mtx.py:86 | `np.argsort(keys)` is a permutation of the positions with ascending keys |
| Sorting.SortedKeysUnique | src/mtx.py:86 | Any two key-sorted permutations read the same key sequence, so tie order cannot matter to it |
| Seqs.Concat | src/mtx.py:78 | `.flatten()` lays the rows end to end; `Seqs.ConcatAppend` and `Seqs.ConcatSlice` give its structure |
| Seqs.ConcatAppend | src/mtx.py:78 | Flattening two row lists laid end to end is flattening each and concatenating |
| Seqs.ConcatSlice | src/mtx.py:78 | In the flattened rows, row `r` sits exactly between the total length of the rows before it and that length plus its own |
| Seqs.Sum | src/mtx.py:82 | The reduction of one row; `Seqs.SumAppend` says it adds over concatenation |
| Seqs.SumAppend | src/mtx.py:82 | The sum of a concatenation is the sum of the sums |
| Seqs.CumSum | src/mtx.py:82 | Running sums: as long as the input, starting at its first entry and ending at its total |
| Seqs.Diff | src/mtx.py:86 | One entry fewer than a non-empty input; `Seqs.DiffCumSum` relates it to `cumsum` |
| Seqs.DiffCumSum | src/mtx.py:82-86 | The differences of the running sums are the entries after the first |
| Sparse.DenseToSparse | src/mtx.py:73-99 | The four arrays, one function per numpy step; described by `Sparse.RowOffsetsShape`, `Sparse.RowIndicesByCount`, `Sparse.RowEntries` and `Sparse.RowSlice` |
| Sparse.Values | src/mtx.py:78 | Every value is nonzero; `Sparse.ValuesByRow` says they are the rows' nonzero entries in order |
| Sparse.RowOffsets | src/mtx.py:81-83 | `nrows + 1` offsets starting at 0; `Sparse.RowOffsetsShape` states the rest |
| Sparse.RowIndices | src/mtx.py:86 | A permutation of the rows; `Sparse.RowIndicesByCount` adds the order by count |
| Sparse.ColumnIndices | src/mtx.py:89-91 | Described by `Sparse.ColumnTrick` and `Sparse.ColumnIndicesByRow`: the direct scan of every row, rows in order |
| Sparse.WeightFrom | src/mtx.py:89 | Entry `c` of a row starting at column `c0` is the mask entry times `c0 + c + 1` |
| Sparse.Decrement | src/mtx.py:91 | `xs - 1` subtracts 1 from every entry |
| Sparse.Mask | src/mtx.py:81 | `(matrix != 0).astype(np.int32)`: same shape, 1 at every nonzero entry and 0 elsewhere |
| Sparse.RowSums | src/mtx.py:82 | `np.add.reduce(mask, axis=1)`: one sum per row; `Sparse.RowSumsAreCounts` says the sums of the mask are the rows' nonzero counts |
| Sparse.RowSumsAreCounts | src/mtx.py:81-82 | The row sums of the mask are the rows' nonzero counts |
| Sparse.Weighted | src/mtx.py:89 | `mask * (np.arange(ncols) + 1)`: same shape, entry `(i, c)` the mask entry times `c + 1` |
| Sparse.Nonzeros | src/mtx.py:78 | The compress keeps only nonzero entries and no more entries than it is given |
| Sparse.MaskRow | src/mtx.py:81 | `(row != 0).astype(int)` has the row's length, with 1 exactly at the nonzero entries and 0 elsewhere |
| Sparse.Negate | src/mtx.py:86 | `-1 * xs` negates every entry |
| Sparse.ColumnsFrom | src/mtx.py:89-91 | The direct scan lists one column per nonzero entry, in range, strictly increasing, and the entry at each listed column is the matching nonzero value |
| Sparse.ColumnsComplete | src/mtx.py:89-91 | Every nonzero entry's column is listed by the scan |
| Sparse.NonzerosConcat | src/mtx.py:78 | Compressing the flattened matrix is compressing each row and concatenating |
| Sparse.ColumnTrick | src/mtx.py:89-91 | Weighting the 0/1 mask by `column + 1`, keeping the nonzero weights and subtracting 1 lists exactly the scan's columns |
| Sparse.WeightedColumnsConcat | src/mtx.py:89-91 | The trick applied to the flattened matrix is the trick applied row by row, concatenated |
| Sparse.ColumnIndicesByRow | src/mtx.py:89-91 | `column_indices` is the direct scan of every row, rows in order |
| Sparse.ValuesByRow | src/mtx.py:78 | `values` is every row's nonzero entries, rows in order |
| Sparse.MaskSum | src/mtx.py:81-82 | The sum of a row's mask is its number of nonzero entries |
| Sparse.OffsetAt | src/mtx.py:82-83 | `row_offsets` has `nrows + 1` entries, and entry `r` is the number of nonzero entries in rows `0 .. r-1` |
| Sparse.OffsetStep | src/mtx.py:82-83 | Consecutive offsets differ by that row's nonzero count |
| Sparse.OffsetsMonotone | src/mtx.py:82-83 | `row_offsets` never decreases |
| Sparse.OffsetsTotal | src/mtx.py:78-91 | The last offset is the length of `values` and of `column_indices` |
| Sparse.RowOffsetsShape | src/mtx.py:81-83 | Length `nrows + 1`, first entry 0, each step equal to that row's nonzero count, non-decreasing, last entry the length of `values` and `column_indices` |
| Sparse.RowSlice | src/mtx.py:78-91 | Row `r`'s offset slice of `values` and of `column_indices` is exactly that row's nonzero entries and their columns |
| Sparse.ScanFacts | src/mtx.py:89-91 | For one row: the scan's columns are below `ncols`, hold the listed nonzero values, rise strictly, and include every nonzero column |
| Sparse.RowEntries | src/mtx.py:78-91 | Every `k` in row `r`'s slice has `0 <= column_indices[k] < ncols` and `m[r][column_indices[k]] == values[k] != 0`. The columns rise strictly within the slice, and every nonzero entry of the row is in it |
| Sparse.RowIndicesByCount | src/mtx.py:82-86 | `row_indices` is a permutation of the rows along which the nonzero counts never increase |
| Sparse.TwoByThree | src/mtx.py:73-99 | `[[0,1,0],[1,0,1]]` converts to values `[1,1,1]`, row_indices `[1,0]`, row_offsets `[0,1,3]`, column_indices `[1,0,2]` |
| Sparse.AllZero | src/mtx.py:73-99 | An all-zero matrix gives no values and no columns, all-zero offsets of length `nrows + 1`, and a permutation of the rows |
| RoundTrip.SparsePatternInRange | src/mtx.py:81-91 | The pattern built from the converter's offsets and columns is in range for the densifier |
| RoundTrip.DensifySparseRoundTrip | src/mtx.py:33-43 | Densifying that pattern raises nothing and gives 1 exactly where the matrix is nonzero |
| RoundTrip.DenseOf | src/mtx.py:33-43 | The densified matrix as rows: `nrows` rows of `ncols` entries, entry `(r, c)` being `DenseValue(p, r, c)` |
| RoundTrip.SliceColumns | src/mtx.py:78-91 | Row `r`'s slice of `column_indices` holds column `c` iff `c` is a column of the matrix and `m[r][c]` is nonzero |
| RoundTrip.PatternSparseRoundTrip | src/mtx.py:33-43 | Pattern → dense → sparse: for an in-range pattern, row `r`'s slice of the converter's `column_indices` holds column `c` iff the pattern's slice `row_ptrs[r] .. row_ptrs[r+1] - 1` of row `r` does (same set of columns; order and duplicates are not kept) |
| RoundTrip.DensifyConverted | src/mtx.py:33-43 | Running `PatternToDense` on that pattern returns no error and the matrix's 0/1 mask |
| RoundTrip.ReadTwoByThree | src/mtx.py:50-59 | The lines `2, 3, 3` / `0 1 3` / `1 0 2` parse to that pattern |
| RoundTrip.DensifyTwoByThree | src/mtx.py:33-43 | That pattern densifies without error to `[[0,1,0],[1,0,1]]` |

## Left out

- Opening and reading files (`src/mtx.py:16-17`, `src/mtx.py:48-49`): I/O. The model starts from the list of lines that `readlines()` returns.
- The `__main__` script, `imshow` and `savefig` (`src/mtx.py:102-106`): a hard-coded path and plotting.
- `pattern_to_scipy_csr` (`src/mtx.py:27-30`): scipy's `csr_matrix` is not part of this model.
- `np.fromstring` in `read_pattern` (`src/mtx.py:20-21`): numpy's own tokenising and error handling are not part of this model. Only `read_pattern`'s header line is modelled.
- Text.ParseInt: accepts only an optional `-` followed by ASCII digits. Python's `int()` also allows surrounding whitespace, `+`, underscores and non-ASCII digits; these are not modelled. Python 3.11 and later also refuse a literal of more than 4300 digits (`sys.int_info.default_max_str_digits`); the model has no such limit.
- Text.Strip: strips the ASCII whitespace characters (codes 9-13, 28-31 and 32) only. Python's `str.strip` also strips other Unicode whitespace.
- The `len(matrix.shape) == 2` assertion in `dense_to_sparse` (`src/mtx.py:75`): a matrix is a list of rows here, so it always holds. `IsMatrix` states that every row has `ncols` entries.
- The float32 and uint32 casts (`src/mtx.py:94-98`): values and indices stay mathematical integers. There is no float rounding and no unsigned wrap-around. The matrix's entries are integers rather than floats.
- Sorting.Argsort: numpy's default sort is not stable, so its tie order is not modelled. The model sorts by stable insertion. Its contracts, and `Sparse.RowIndicesByCount`, promise only a permutation with non-increasing counts, which is what the source guarantees.
- `np.zeros((nrows, ncols))` (`src/mtx.py:34`, `src/mtx.py:60`) fails on a shape too big for the platform: "array is too big", "maximum allowed dimension exceeded", an `intp` overflow, or `MemoryError` (for example `nrows = ncols = 2**40`). Size and memory limits on the shape are not modelled: `PatternToDense` always allocates, and `PatternFault` only knows the negative-shape error and the loop's errors.
- The dense matrix of `pattern_to_dense` holds floats in the source; here it holds the integers 0 and 1.
