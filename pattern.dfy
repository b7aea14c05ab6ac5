/**
 * The three-line pattern file: the `CSRPattern` record, the parse that
 * `get_mtx` performs on the file's lines, and the header parse of
 * `read_pattern`.
 *
 *   line 1: nrows, ncols, nnz
 *   line 2: the row pointers, separated by single spaces
 *   line 3: the column indices, separated by single spaces
 */
module Pattern {
  import opened Wrappers
  import opened Text

  /** A pattern-only CSR matrix: no values are stored, every listed position is a 1. */
  datatype CSRPattern = CSRPattern(nrows: int, ncols: int, nnz: int, rowPtrs: seq<int>, colIndices: seq<int>)

  datatype ParseError =
    | WrongLineCount(count: nat)    // unpacking the lines into three names failed
    | InvalidLiteral(token: string) // `int()` refused this token
    | WrongHeaderArity(count: nat)  // unpacking the header into three names failed

  /** Every token is a literal that `int()` accepts. */
  predicate Literals(tokens: seq<string>)
  {
    forall k :: 0 <= k < |tokens| ==> ParseInt(tokens[k]).Some?
  }

  /** The values in `xs` are the values of `tokens`, one for one and in order. */
  predicate ValuesOf(xs: seq<int>, tokens: seq<string>)
  {
    |xs| == |tokens| && forall k :: 0 <= k < |tokens| ==> ParseInt(tokens[k]) == Some(xs[k])
  }

  /** `token` is the first of `tokens` that `int()` refuses. */
  predicate FirstInvalid(token: string, tokens: seq<string>)
  {
    exists k :: (0 <= k < |tokens| && tokens[k] == token && ParseInt(tokens[k]).None? &&
                 forall i :: 0 <= i < k ==> ParseInt(tokens[i]).Some?)
  }

  /** `[int(i) for i in line.split(" ")]`. */
  function ParseArray(line: string): (r: Result<seq<int>, ParseError>)
    ensures r.Ok? <==> Literals(Split(line, " "))
    ensures r.Ok? ==> ValuesOf(r.value, Split(line, " "))
    ensures r.Err? ==> r.error.InvalidLiteral? && FirstInvalid(r.error.token, Split(line, " "))
  {
    match ParseAll(Split(line, " "))
    case Ok(xs) => Ok(xs)
    case Err(t) => Err(InvalidLiteral(t))
  }

  /** `n_row, n_col, nnz = [int(i) for i in info.split(", ")]`. */
  function ParseHeader(info: string): (r: Result<(int, int, int), ParseError>)
    ensures r.Ok? <==> |Split(info, ", ")| == 3 && Literals(Split(info, ", "))
    ensures r.Ok? ==> ValuesOf([r.value.0, r.value.1, r.value.2], Split(info, ", "))
    ensures Literals(Split(info, ", ")) && |Split(info, ", ")| != 3 ==>
      r == Err(WrongHeaderArity(|Split(info, ", ")|))
    ensures !Literals(Split(info, ", ")) ==>
      r.Err? && r.error.InvalidLiteral? && FirstInvalid(r.error.token, Split(info, ", "))
  {
    match ParseAll(Split(info, ", "))
    case Err(t) => Err(InvalidLiteral(t))
    case Ok(h) => if |h| == 3 then Ok((h[0], h[1], h[2])) else Err(WrongHeaderArity(|h|))
  }

  /**
   * The parse in `get_mtx`: strip every line, require exactly three, read
   * the row pointers, then the column indices, then the header; the first
   * of these that fails decides the error reported.  Nothing
   * checks that the header's counts agree with the arrays.
   */
  function ParseLines(lines: seq<string>): (r: Result<CSRPattern, ParseError>)
    ensures |lines| != 3 ==> r == Err(WrongLineCount(|lines|))
    ensures r.Ok? <==>
      && |lines| == 3
      && Literals(Split(Strip(lines[1]), " "))
      && Literals(Split(Strip(lines[2]), " "))
      && |Split(Strip(lines[0]), ", ")| == 3
      && Literals(Split(Strip(lines[0]), ", "))
    ensures |lines| == 3 && !Literals(Split(Strip(lines[1]), " ")) ==>
      r.Err? && r.error.InvalidLiteral? && FirstInvalid(r.error.token, Split(Strip(lines[1]), " "))
    ensures |lines| == 3 && Literals(Split(Strip(lines[1]), " ")) && !Literals(Split(Strip(lines[2]), " ")) ==>
      r.Err? && r.error.InvalidLiteral? && FirstInvalid(r.error.token, Split(Strip(lines[2]), " "))
    ensures (|lines| == 3 && Literals(Split(Strip(lines[1]), " ")) && Literals(Split(Strip(lines[2]), " ")) &&
             ParseHeader(Strip(lines[0])).Err?) ==>
      r == Err(ParseHeader(Strip(lines[0])).error)
    ensures r.Ok? ==>
      && ValuesOf([r.value.nrows, r.value.ncols, r.value.nnz], Split(Strip(lines[0]), ", "))
      && ValuesOf(r.value.rowPtrs, Split(Strip(lines[1]), " "))
      && ValuesOf(r.value.colIndices, Split(Strip(lines[2]), " "))
  {
    if |lines| != 3 then Err(WrongLineCount(|lines|))
    else
      var info, rowPt, colIndx := Strip(lines[0]), Strip(lines[1]), Strip(lines[2]);
      match ParseArray(rowPt)
      case Err(e) => Err(e)
      case Ok(rows) =>
        match ParseArray(colIndx)
        case Err(e) => Err(e)
        case Ok(cols) =>
          match ParseHeader(info)
          case Err(e) => Err(e)
          case Ok((n, m, z)) => Ok(CSRPattern(n, m, z, rows, cols))
  }

  /**
   * An empty array line splits into the single token "", which `int()`
   * refuses: a pattern with no nonzeros cannot be read this way.
   */
  lemma EmptyArrayLineRejected(lines: seq<string>)
    requires |lines| == 3 && (Strip(lines[1]) == "" || Strip(lines[2]) == "")
    ensures ParseLines(lines).Err? && ParseLines(lines).error.InvalidLiteral?
  {
    assert Split("", " ") == [""];
    assert ParseInt([""][0]).None?;
    if Strip(lines[1]) == "" {
      assert ParseArray(Strip(lines[1])).Err?;
    } else {
      assert ParseArray(Strip(lines[2])).Err?;
    }
  }

  /** The three lines of the file that describes `p`. */
  function FormatPattern(p: CSRPattern): seq<string>
  {
    [Join(ShowAll([p.nrows, p.ncols, p.nnz]), ", "),
     Join(ShowAll(p.rowPtrs), " "),
     Join(ShowAll(p.colIndices), " ")]
  }

  /** The first character of a join is that of its first part, the last that of its last part. */
  lemma {:induction false} JoinEnds(parts: seq<string>, sep: string)
    requires |parts| > 0 && forall i :: 0 <= i < |parts| ==> |parts[i]| > 0
    ensures var s := Join(parts, sep);
      |s| > 0 && s[0] == parts[0][0] && s[|s| - 1] == parts[|parts| - 1][|parts[|parts| - 1]| - 1]
  {
    if |parts| > 1 {
      JoinEnds(parts[1..], sep);
    }
  }

  /** A line of printed integers reads back as those integers. */
  lemma FormatParses(xs: seq<int>, sep: string)
    requires |xs| > 0 && |sep| > 0 && !IsDigit(sep[0]) && sep[0] != '-'
    ensures var line := Join(ShowAll(xs), sep); Strip(line) == line && ParseAll(Split(line, sep)) == Ok(xs)
  {
    var parts := ShowAll(xs);
    var line := Join(parts, sep);
    assert forall i :: 0 <= i < |parts| ==> |parts[i]| > 0 && Free(sep[0], parts[i]);
    JoinEnds(parts, sep);
    assert !IsSpace(line[0]) && !IsSpace(line[|line| - 1]);
    StripPadded("", line, "");
    assert "" + line + "" == line;
    SplitJoin(parts, sep);
    ParseAllShowAll(xs);
  }

  /** Writing a pattern out and reading it back with `get_mtx`'s parse gives the pattern, whenever both arrays are non-empty. */
  lemma FormatParseRoundTrip(p: CSRPattern)
    requires |p.rowPtrs| > 0 && |p.colIndices| > 0
    ensures ParseLines(FormatPattern(p)) == Ok(p)
  {
    var lines := FormatPattern(p);
    FormatParses(p.rowPtrs, " ");
    FormatParses(p.colIndices, " ");
    FormatParses([p.nrows, p.ncols, p.nnz], ", ");
    var rows := ParseArray(Strip(lines[1]));
    var cols := ParseArray(Strip(lines[2]));
    var header := ParseHeader(Strip(lines[0]));
    assert rows == Ok(p.rowPtrs);
    assert cols == Ok(p.colIndices);
    assert header == Ok((p.nrows, p.ncols, p.nnz));
  }

  /** `strip()` applied to every token. */
  function StripAll(ts: seq<string>): (r: seq<string>)
    ensures |r| == |ts| && forall k :: 0 <= k < |ts| ==> r[k] == Strip(ts[k])
  {
    if ts == [] then [] else [Strip(ts[0])] + StripAll(ts[1..])
  }

  /** `n_row, n_col, nnz = [int(x) for x in line.split(',')]`, with `int()` ignoring surrounding white space. */
  function ReadPatternHeader(line: string): (r: Result<(int, int, int), ParseError>)
    ensures var ts := Split(line, ",");
      r.Ok? <==> |ts| == 3 && forall k :: 0 <= k < 3 ==> ParseInt(Strip(ts[k])).Some?
    ensures var ts := Split(line, ",");
      r.Ok? ==> forall k :: 0 <= k < 3 ==> ParseInt(Strip(ts[k])) == Some([r.value.0, r.value.1, r.value.2][k])
  {
    var ts := Split(line, ",");
    var stripped := StripAll(ts);
    match ParseAll(stripped)
    case Err(t) => Err(InvalidLiteral(t))
    case Ok(h) => if |h| == 3 then Ok((h[0], h[1], h[2])) else Err(WrongHeaderArity(|h|))
  }

  lemma Join3(a: string, b: string, c: string, sep: string)
    ensures Join([a, b, c], sep) == a + sep + b + sep + c
  {
    assert [a, b, c][1..] == [b, c];
    assert [b, c][1..] == [c];
    assert Join([b, c], sep) == b + sep + c;
    assert Join([a, b, c], sep) == a + sep + (b + sep + c);
  }

  /** Moving the header's separators from get_mtx's `", "` to read_pattern's `","` pieces. */
  lemma Regroup(w1: string, t0: string, t1: string, t2: string, w2: string)
    ensures w1 + (t0 + ", " + t1 + ", " + t2) + w2 == (w1 + t0) + "," + (" " + t1) + "," + (" " + t2 + w2)
  {
    var sep := ", ";
    assert sep == "," + " ";
    calc {
      w1 + (t0 + sep + t1 + sep + t2) + w2;
      (w1 + t0) + sep + t1 + sep + (t2 + w2);
      (w1 + t0) + ("," + " ") + t1 + ("," + " ") + (t2 + w2);
      (w1 + t0) + "," + (" " + t1) + "," + (" " + t2 + w2);
    }
  }

  /** A literal has no white space at its ends and no comma. */
  lemma LiteralShape(t: string)
    requires ParseInt(t).Some?
    ensures t != [] && !IsSpace(t[0]) && !IsSpace(t[|t| - 1]) && Free(',', t)
  {
  }

  /** The pieces read_pattern's split of a padded header yields: the padding stays outside, a space leads the inner ones. */
  function CommaPieces(w1: string, t0: string, t1: string, t2: string, w2: string): seq<string>
  {
    [w1 + t0, " " + t1, " " + t2 + w2]
  }

  lemma CommaPiecesJoin(w1: string, t0: string, t1: string, t2: string, w2: string)
    ensures Join(CommaPieces(w1, t0, t1, t2, w2), ",") == w1 + (t0 + ", " + t1 + ", " + t2) + w2
  {
    var pieces := CommaPieces(w1, t0, t1, t2, w2);
    Regroup(w1, t0, t1, t2, w2);
    Join3(pieces[0], pieces[1], pieces[2], ",");
  }

  lemma CommaPiecesFree(w1: string, t0: string, t1: string, t2: string, w2: string)
    requires AllSpace(w1) && AllSpace(w2)
    requires ParseInt(t0).Some? && ParseInt(t1).Some? && ParseInt(t2).Some?
    ensures var pieces := CommaPieces(w1, t0, t1, t2, w2);
      forall i :: 0 <= i < |pieces| ==> Free(","[0], pieces[i])
  {
    LiteralShape(t0);
    LiteralShape(t1);
    LiteralShape(t2);
    FreeAppend(',', w1, t0);
    FreeAppend(',', " ", t1);
    FreeAppend(',', " ", t2);
    FreeAppend(',', " " + t2, w2);
  }

  lemma PaddedHeaderSplit(w1: string, t0: string, t1: string, t2: string, w2: string)
    requires AllSpace(w1) && AllSpace(w2)
    requires ParseInt(t0).Some? && ParseInt(t1).Some? && ParseInt(t2).Some?
    ensures Split(w1 + (t0 + ", " + t1 + ", " + t2) + w2, ",") == CommaPieces(w1, t0, t1, t2, w2)
  {
    CommaPiecesJoin(w1, t0, t1, t2, w2);
    CommaPiecesFree(w1, t0, t1, t2, w2);
    SplitJoin(CommaPieces(w1, t0, t1, t2, w2), ",");
  }

  /** read_pattern's tokens of a padded header, once stripped, are the three literals. */
  lemma PaddedHeaderTokens(w1: string, t0: string, t1: string, t2: string, w2: string)
    requires AllSpace(w1) && AllSpace(w2)
    requires ParseInt(t0).Some? && ParseInt(t1).Some? && ParseInt(t2).Some?
    ensures StripAll(CommaPieces(w1, t0, t1, t2, w2)) == [t0, t1, t2]
  {
    LiteralShape(t0);
    LiteralShape(t1);
    LiteralShape(t2);
    StripPadded(w1, t0, "");
    assert w1 + t0 + "" == w1 + t0;
    StripPadded(" ", t1, "");
    assert " " + t1 + "" == " " + t1;
    StripPadded(" ", t2, w2);
    StripAll3(w1 + t0, " " + t1, " " + t2 + w2);
  }

  lemma StripAll3(a: string, b: string, c: string)
    ensures StripAll([a, b, c]) == [Strip(a), Strip(b), Strip(c)]
  {
  }

  /** get_mtx's tokens of three literals joined by `", "` are the literals. */
  lemma JoinedHeaderTokens(t0: string, t1: string, t2: string)
    requires ParseInt(t0).Some? && ParseInt(t1).Some? && ParseInt(t2).Some?
    ensures Split(t0 + ", " + t1 + ", " + t2, ", ") == [t0, t1, t2]
  {
    LiteralShape(t0);
    LiteralShape(t1);
    LiteralShape(t2);
    Join3(t0, t1, t2, ", ");
    SplitJoin([t0, t1, t2], ", ");
  }

  /** Three literals joined by `", "` and padded with white space read the same through both header parsers. */
  lemma PaddedHeaderAgrees(w1: string, t0: string, t1: string, t2: string, w2: string)
    requires AllSpace(w1) && AllSpace(w2)
    requires ParseInt(t0).Some? && ParseInt(t1).Some? && ParseInt(t2).Some?
    ensures ReadPatternHeader(w1 + (t0 + ", " + t1 + ", " + t2) + w2) == ParseHeader(t0 + ", " + t1 + ", " + t2)
  {
    PaddedHeaderSplit(w1, t0, t1, t2, w2);
    PaddedHeaderTokens(w1, t0, t1, t2, w2);
    JoinedHeaderTokens(t0, t1, t2);
  }

  /**
   * Every header line that `get_mtx` accepts (after its `strip()`) is read
   * by `read_pattern` as the same three integers, trailing newline or not.
   */
  lemma HeaderReadersAgree(line: string)
    requires ParseHeader(Strip(line)).Ok?
    ensures ReadPatternHeader(line) == ParseHeader(Strip(line))
  {
    var S := Strip(line);
    var ts := Split(S, ", ");
    JoinSplit(S, ", ");
    assert ts == [ts[0], ts[1], ts[2]];
    Join3(ts[0], ts[1], ts[2], ", ");
    var w1, w2 := StripFrame(line);
    PaddedHeaderAgrees(w1, ts[0], ts[1], ts[2], w2);
  }
}
