/**
 * The pieces of Python's `str` and `int` that the pattern-file reader uses:
 * `strip()`, `split(sep)`, and `int()` restricted to an optional minus sign
 * followed by decimal digits.
 */
module Text {
  import opened Wrappers

  /** Python's `str.isspace` on the ASCII range: tab to carriage return, 0x1c to 0x1f, and space. */
  predicate IsSpace(ch: char)
  {
    var n := ch as int;
    n == 32 || 9 <= n <= 13 || 28 <= n <= 31
  }

  predicate AllSpace(s: string)
  {
    forall k :: 0 <= k < |s| ==> IsSpace(s[k])
  }

  /** The number of white-space characters `s` starts with. */
  function LeadingSpace(s: string): (n: nat)
    ensures n <= |s| && AllSpace(s[..n]) && (n < |s| ==> !IsSpace(s[n]))
  {
    if s != [] && IsSpace(s[0]) then 1 + LeadingSpace(s[1..]) else 0
  }

  /** The number of white-space characters `s` ends with. */
  function TrailingSpace(s: string): (n: nat)
    ensures n <= |s| && AllSpace(s[|s| - n..]) && (n < |s| ==> !IsSpace(s[|s| - n - 1]))
  {
    if s != [] && IsSpace(s[|s| - 1]) then 1 + TrailingSpace(s[..|s| - 1]) else 0
  }

  /** `s.lstrip()`. */
  function StripLeft(s: string): string
  {
    s[LeadingSpace(s)..]
  }

  /** `s.rstrip()`. */
  function StripRight(s: string): string
  {
    s[..|s| - TrailingSpace(s)]
  }

  /** `s.strip()`. */
  function Strip(s: string): (r: string)
    ensures |r| <= |s|
    ensures r != [] ==> !IsSpace(r[0]) && !IsSpace(r[|r| - 1])
  {
    StripRight(StripLeft(s))
  }

  /** `strip()` gives back `t` from `t` padded on both sides with white space, when `t` has no white space at its ends. */
  lemma StripPadded(w1: string, t: string, w2: string)
    requires AllSpace(w1) && AllSpace(w2)
    requires t != [] && !IsSpace(t[0]) && !IsSpace(t[|t| - 1])
    ensures Strip(w1 + t + w2) == t
  {
    AppendAssoc(w1, t, w2);
    LeadingPadded(w1, t + w2);
    assert StripLeft(w1 + (t + w2)) == t + w2;
    TrailingPadded(t, w2);
  }

  lemma {:induction false} LeadingPadded(w: string, t: string)
    requires AllSpace(w) && t != [] && !IsSpace(t[0])
    ensures LeadingSpace(w + t) == |w|
  {
    if w != [] {
      assert (w + t)[1..] == w[1..] + t;
      LeadingPadded(w[1..], t);
    } else {
      assert w + t == t;
    }
  }

  lemma {:induction false} TrailingPadded(t: string, w: string)
    requires AllSpace(w) && t != [] && !IsSpace(t[|t| - 1])
    ensures TrailingSpace(t + w) == |w|
    decreases |w|
  {
    if w != [] {
      assert (t + w)[..|t + w| - 1] == t + w[..|w| - 1];
      TrailingPadded(t, w[..|w| - 1]);
    } else {
      assert t + w == t;
    }
  }

  lemma AppendAssoc<T>(a: seq<T>, b: seq<T>, c: seq<T>)
    ensures a + b + c == a + (b + c)
  {
  }

  /** `strip()` only removes white space from the two ends. */
  lemma StripFrame(line: string) returns (w1: string, w2: string)
    ensures AllSpace(w1) && AllSpace(w2) && line == w1 + Strip(line) + w2
  {
    var n := LeadingSpace(line);
    var m := TrailingSpace(line[n..]);
    w1 := line[..n];
    w2 := line[n..][|line[n..]| - m..];
    Frame(line, n, m);
  }

  /** A sequence is its first `n` elements, a middle part, and its last `m` elements after those. */
  lemma Frame<T>(s: seq<T>, n: nat, m: nat)
    requires n <= |s| && m <= |s| - n
    ensures s == s[..n] + s[n..][..|s[n..]| - m] + s[n..][|s[n..]| - m..]
  {
    var rest := s[n..];
    assert s == s[..n] + rest;
    assert rest == rest[..|rest| - m] + rest[|rest| - m..];
  }

  /** `sep` occurs in `s` starting at index `k`. */
  predicate OccursAt(sep: string, s: string, k: int)
  {
    0 <= k && k + |sep| <= |s| && s[k..k + |sep|] == sep
  }

  /**
   * Python's `s.split(sep)` for a non-empty separator: scanning from the left,
   * every occurrence of `sep` ends one piece and starts the next.  There is
   * always at least one piece; the empty string splits into `[""]`.
   */
  function Split(s: string, sep: string): (r: seq<string>)
    requires |sep| > 0
    ensures |r| > 0
    decreases |s|
  {
    if OccursAt(sep, s, 0) then [""] + Split(s[|sep|..], sep)
    else if s == [] then [""]
    else
      var rest := Split(s[1..], sep);
      [[s[0]] + rest[0]] + rest[1..]
  }

  /** Python's `sep.join(parts)`. */
  function Join(parts: seq<string>, sep: string): string
  {
    if |parts| == 0 then ""
    else if |parts| == 1 then parts[0]
    else parts[0] + sep + Join(parts[1..], sep)
  }

  /** Joining the pieces of a split with the same separator gives back the string. */
  lemma {:induction false} JoinSplit(s: string, sep: string)
    requires |sep| > 0
    ensures Join(Split(s, sep), sep) == s
    decreases |s|
  {
    if OccursAt(sep, s, 0) {
      var rest := Split(s[|sep|..], sep);
      JoinSplit(s[|sep|..], sep);
      assert ([""] + rest)[1..] == rest;
      assert s == sep + s[|sep|..];
    } else if s == [] {
    } else {
      JoinSplit(s[1..], sep);
      JoinConsHead(s[0], Split(s[1..], sep), sep);
      assert s == [s[0]] + s[1..];
    }
  }

  /** Prefixing the first part of a join with `c` prefixes the join with `c`. */
  lemma JoinConsHead(c: char, rest: seq<string>, sep: string)
    requires |rest| > 0
    ensures Join([[c] + rest[0]] + rest[1..], sep) == [c] + Join(rest, sep)
  {
    var r := [[c] + rest[0]] + rest[1..];
    assert r[1..] == rest[1..];
    if |rest| == 1 {
      assert rest == [rest[0]];
    } else {
      AppendAssoc([c], rest[0], sep);
      AppendAssoc([c], rest[0] + sep, Join(rest[1..], sep));
    }
  }

  /** `ch` does not occur in `s`. */
  predicate Free(ch: char, s: string)
  {
    forall k :: 0 <= k < |s| ==> s[k] != ch
  }

  lemma FreeAppend(ch: char, a: string, b: string)
    requires (Free(ch, a) || (AllSpace(a) && !IsSpace(ch))) && (Free(ch, b) || (AllSpace(b) && !IsSpace(ch)))
    ensures Free(ch, a + b)
  {
    assert forall k :: 0 <= k < |a + b| ==> (a + b)[k] == if k < |a| then a[k] else b[k - |a|];
  }

  /** Splitting a string in which the separator's first character never occurs gives one piece. */
  lemma {:induction false} SplitFree(s: string, sep: string)
    requires |sep| > 0 && Free(sep[0], s)
    ensures Split(s, sep) == [s]
    decreases |s|
  {
    if s != [] {
      assert !OccursAt(sep, s, 0) by {
        if |sep| <= |s| {
          assert s[0] == s[..|sep|][0];
        }
      }
      SplitFree(s[1..], sep);
      assert [s[0]] + s[1..] == s;
    }
  }

  /** A piece free of the separator's first character, then the separator, splits off as the first piece. */
  lemma {:induction false} SplitAfterFree(a: string, sep: string, b: string)
    requires |sep| > 0 && Free(sep[0], a)
    ensures Split(a + sep + b, sep) == [a] + Split(b, sep)
    decreases |a|
  {
    var s := a + sep + b;
    if a == [] {
      assert s == sep + b;
      assert OccursAt(sep, s, 0) by {
        assert s[..|sep|] == sep;
      }
      assert s[|sep|..] == b;
    } else {
      assert !OccursAt(sep, s, 0) by {
        assert s[0] == a[0];
        assert s[..|sep|][0] == s[0];
      }
      assert s[1..] == a[1..] + sep + b;
      SplitAfterFree(a[1..], sep, b);
      assert [a[0]] + a[1..] == a;
    }
  }

  /**
   * Splitting a join gives back the parts whenever none of the parts holds
   * the separator's first character.
   */
  lemma {:induction false} SplitJoin(parts: seq<string>, sep: string)
    requires |sep| > 0 && |parts| > 0
    requires forall i :: 0 <= i < |parts| ==> Free(sep[0], parts[i])
    ensures Split(Join(parts, sep), sep) == parts
  {
    if |parts| == 1 {
      SplitFree(parts[0], sep);
    } else {
      SplitAfterFree(parts[0], sep, Join(parts[1..], sep));
      SplitJoin(parts[1..], sep);
      assert [parts[0]] + parts[1..] == parts;
    }
  }

  predicate IsDigit(ch: char)
  {
    '0' <= ch <= '9'
  }

  predicate AllDigits(s: string)
  {
    forall k :: 0 <= k < |s| ==> IsDigit(s[k])
  }

  /** The decimal value of a string of digits, most significant first. */
  function DigitsValue(ds: string): nat
    requires AllDigits(ds)
  {
    if ds == [] then 0 else 10 * DigitsValue(ds[..|ds| - 1]) + (ds[|ds| - 1] as int - '0' as int)
  }

  /** What `int()` accepts here: an optional `-` and then one or more decimal digits. */
  predicate IsIntLiteral(s: string)
  {
    && |s| > 0
    && (s[0] == '-' ==> |s| > 1)
    && forall k :: 0 <= k < |s| ==> IsDigit(s[k]) || (k == 0 && s[k] == '-')
  }

  /** `int(s)`, failing exactly when `s` is not a literal. */
  function ParseInt(s: string): (r: Option<int>)
    ensures r.Some? <==> IsIntLiteral(s)
    ensures r.Some? && s[0] != '-' ==> r.value >= 0
  {
    if s == [] then None
    else if s[0] == '-' then
      if |s| > 1 && AllDigits(s[1..]) then var v: int := DigitsValue(s[1..]); Some(-v) else None
    else if AllDigits(s) then Some(DigitsValue(s))
    else None
  }

  function DigitChar(d: nat): (ch: char)
    requires d < 10
    ensures IsDigit(ch) && ch as int - '0' as int == d
  {
    ('0' as int + d) as char
  }

  /** The decimal digits of `n`, without leading zeros. */
  function ShowNat(n: nat): (s: string)
    ensures |s| > 0 && AllDigits(s)
  {
    if n < 10 then [DigitChar(n)] else ShowNat(n / 10) + [DigitChar(n % 10)]
  }

  /** `str(n)`. */
  function Show(n: int): (s: string)
    ensures |s| > 0 && (s[0] == '-' || IsDigit(s[0])) && IsDigit(s[|s| - 1])
    ensures forall k :: 0 <= k < |s| ==> IsDigit(s[k]) || s[k] == '-'
  {
    if n < 0 then "-" + ShowNat(-n) else ShowNat(n)
  }

  lemma {:induction false} ShowNatValue(n: nat)
    ensures DigitsValue(ShowNat(n)) == n
  {
    if n >= 10 {
      var s := ShowNat(n / 10) + [DigitChar(n % 10)];
      assert s[..|s| - 1] == ShowNat(n / 10);
      ShowNatValue(n / 10);
    }
  }

  /** `int(str(n)) == n`. */
  lemma ParseShow(n: int)
    ensures ParseInt(Show(n)) == Some(n)
  {
    if n < 0 {
      assert Show(n)[1..] == ShowNat(-n);
      ShowNatValue(-n);
    } else {
      ShowNatValue(n);
    }
  }

  /**
   * `[int(t) for t in tokens]`: all the values, in order, or the first token
   * that is not a literal (the one named by Python's `ValueError`).
   */
  function ParseAll(tokens: seq<string>): (r: Result<seq<int>, string>)
    ensures r.Ok? <==> forall k :: 0 <= k < |tokens| ==> ParseInt(tokens[k]).Some?
    ensures r.Ok? ==> |r.value| == |tokens|
    ensures r.Ok? ==> forall k :: 0 <= k < |tokens| ==> ParseInt(tokens[k]) == Some(r.value[k])
    ensures r.Err? ==>
      exists k :: (0 <= k < |tokens| && tokens[k] == r.error && ParseInt(tokens[k]).None? &&
                   forall i :: 0 <= i < k ==> ParseInt(tokens[i]).Some?)
  {
    if tokens == [] then Ok([])
    else
      match ParseInt(tokens[0])
      case None => Err(tokens[0])
      case Some(v) =>
        match ParseAll(tokens[1..])
        case Err(t) =>
          assert forall k :: 1 <= k < |tokens| ==> tokens[k] == tokens[1..][k - 1];
          Err(t)
        case Ok(vs) => Ok([v] + vs)
  }

  /** `sep.join(str(x) for x in xs)`. */
  function ShowAll(xs: seq<int>): (r: seq<string>)
    ensures |r| == |xs| && forall k :: 0 <= k < |xs| ==> r[k] == Show(xs[k])
  {
    if xs == [] then [] else [Show(xs[0])] + ShowAll(xs[1..])
  }

  /** Printing integers and reading them back with `int()` gives the integers. */
  lemma ParseAllShowAll(xs: seq<int>)
    ensures ParseAll(ShowAll(xs)) == Ok(xs)
  {
    forall k | 0 <= k < |xs| {
      ParseShow(xs[k]);
    }
    var r := ParseAll(ShowAll(xs));
    assert r.value == xs;
  }
}
