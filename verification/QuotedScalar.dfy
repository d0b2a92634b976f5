/**
 The search for the quote that closes a YAML flow scalar: double-quoted scalars escape
 with a backslash (section 7.3.1 of YAML 1.2.2), single-quoted ones double the quote
 (section 7.3.2).
 */
module QuotedScalar {
  import opened Text

  /** The scan of `quoteEnd` from `i`. */
  function QuoteEndFrom(s: string, q: char, i: nat): (r: int)
    ensures r == -1 || (i <= r < |s| && s[r] == q)
    decreases |s| - i
  {
    if i >= |s| then -1
    else if q == '"' && s[i] == '\\' then QuoteEndFrom(s, q, i + 2)
    else if s[i] == q && q == '\'' && i + 1 < |s| && s[i + 1] == '\'' then QuoteEndFrom(s, q, i + 2)
    else if s[i] == q then i
    else QuoteEndFrom(s, q, i + 1)
  }

  function QuoteEndOf(s: string, q: char): int {
    QuoteEndFrom(s, q, 0)
  }

  /** Index of the quote `q` that closes the scalar continued in `s`, or -1. */
  method QuoteEnd(s: string, q: char) returns (r: int)
    ensures r == QuoteEndOf(s, q)
  {
    var i := 0;
    while i < |s|
      invariant 0 <= i
      invariant QuoteEndOf(s, q) == QuoteEndFrom(s, q, i)
    {
      if q == '"' && s[i] == '\\' {
        i := i + 1;
      } else if s[i] == q && q == '\'' && i + 1 < |s| && s[i + 1] == '\'' {
        i := i + 1;
      } else if s[i] == q {
        return i;
      }
      i := i + 1;
    }
    return -1;
  }

  // ---------- What a closing quote is ----------

  /** Length of the run of `c` that ends just before `i`. */
  function RunBefore(s: string, c: char, i: nat): (n: nat)
    requires i <= |s|
  {
    if i > 0 && s[i - 1] == c then RunBefore(s, c, i - 1) + 1 else 0
  }

  /**
   A double quote closes when an even number of backslashes stands before it. A single
   quote closes when it ends a run of quotes of odd length.
   */
  predicate Closes(s: string, q: char, i: nat)
    requires i < |s|
  {
    && s[i] == q
    && (q == '"' ==> RunBefore(s, '\\', i) % 2 == 0)
    && (q == '\'' ==> RunBefore(s, q, i) % 2 == 0 && !(i + 1 < |s| && s[i + 1] == q))
  }

  /** The scan finds the first closing quote, and reports -1 exactly when there is none. */
  lemma QuoteEndIsFirstCloser(s: string, q: char)
    requires q == '"' || q == '\''
    ensures var r := QuoteEndOf(s, q);
            && (r != -1 ==> Closes(s, q, r))
            && forall i | 0 <= i < |s| && (r == -1 || i < r) :: !Closes(s, q, i)
  {
    ScanFindsCloser(s, q, 0);
  }

  lemma {:induction false} ScanFindsCloser(s: string, q: char, i: nat)
    requires q == '"' || q == '\''
    requires i <= |s| && RunBefore(s, if q == '"' then '\\' else q, i) % 2 == 0
    ensures var r := QuoteEndFrom(s, q, i);
            && (r != -1 ==> Closes(s, q, r))
            && forall k | i <= k < |s| && (r == -1 || k < r) :: !Closes(s, q, k)
    decreases |s| - i
  {
    if i < |s| {
      if (q == '"' && s[i] == '\\') || (q == '\'' && s[i] == q && i + 1 < |s| && s[i + 1] == q) {
        if i + 1 < |s| {
          var c := if q == '"' then '\\' else q;
          assert RunBefore(s, c, i + 1) == RunBefore(s, c, i) + 1;
          assert s[i + 1] == c ==> RunBefore(s, c, i + 2) == RunBefore(s, c, i) + 2;
          ScanFindsCloser(s, q, i + 2);
        }
      } else if s[i] != q {
        ScanFindsCloser(s, q, i + 1);
      }
    }
  }

  // ---------- Line by line against one scan of the text ----------

  /** A line break ends the scan of a line and the next line is scanned afresh. */
  lemma {:induction false} ScanLineBreak(a: string, b: string, q: char, i: nat)
    requires (q == '"' || q == '\'') && i <= |a| + 1
    ensures var s := a + "\n" + b;
            QuoteEndFrom(s, q, i) ==
            if QuoteEndFrom(a, q, i) != -1 then QuoteEndFrom(a, q, i)
            else if QuoteEndOf(b, q) != -1 then |a| + 1 + QuoteEndOf(b, q) else -1
    decreases |a| + 1 - i
  {
    var s := a + "\n" + b;
    if i == |a| + 1 {
      ScanSuffix(a + "\n", b, q, 0);
    } else if i == |a| {
      ScanLineBreak(a, b, q, i + 1);
    } else if q == '"' && a[i] == '\\' {
      ScanLineBreak(a, b, q, i + 2);
    } else if a[i] == q && q == '\'' && i + 1 < |a| && a[i + 1] == '\'' {
      ScanLineBreak(a, b, q, i + 2);
    } else if a[i] != q {
      ScanLineBreak(a, b, q, i + 1);
    }
  }

  lemma {:induction false} ScanSuffix(a: string, b: string, q: char, i: nat)
    ensures QuoteEndFrom(a + b, q, |a| + i) == if QuoteEndFrom(b, q, i) == -1 then -1 else |a| + QuoteEndFrom(b, q, i)
    decreases |b| - i
  {
    if i < |b| {
      ScanSuffix(a, b, q, i + 1);
      ScanSuffix(a, b, q, i + 2);
    }
  }

  /** White space after the text of a line does not change whether and where the scalar closes. */
  lemma {:induction false} ScanTrailingSpace(a: string, w: string, q: char, i: nat)
    requires (q == '"' || q == '\'') && AllSpace(w)
    ensures QuoteEndFrom(a + w, q, i) == QuoteEndFrom(a, q, i)
    decreases |a| + |w| - i
  {
    var s := a + w;
    if i < |s| {
      ScanTrailingSpace(a, w, q, i + 1);
      ScanTrailingSpace(a, w, q, i + 2);
      if i >= |a| { assert s[i] in w; }
      if i + 1 == |a| && i + 1 < |s| { assert s[i + 1] in w; }
    }
  }

  /** Where line `n` starts in the joined text. */
  function LineStart(lines: seq<string>, n: nat): nat
    requires n <= |lines|
  {
    if n == 0 then 0 else LineStart(lines, n - 1) + |lines[n - 1]| + 1
  }

  /** The first line on which the line-by-line search finds the closing quote, or the number of lines. */
  function ClosingLine(lines: seq<string>, q: char): (n: nat)
    ensures n <= |lines|
    ensures n < |lines| ==> QuoteEndOf(lines[n], q) != -1
    ensures forall k | 0 <= k < n :: QuoteEndOf(lines[k], q) == -1
  {
    if lines == [] || QuoteEndOf(lines[0], q) != -1 then 0 else ClosingLine(lines[1..], q) + 1
  }

  /**
   A single scan of the text closes exactly on the line, and at the column, where the
   search that restarts on each line does, whatever the lines end with.
   */
  lemma {:induction false} LineSearchIsTextSearch(lines: seq<string>, q: char)
    requires (q == '"' || q == '\'') && lines != []
    ensures var n := ClosingLine(lines, q);
            QuoteEndOf(Join(lines), q) ==
            if n == |lines| then -1 else LineStart(lines, n) + QuoteEndOf(lines[n], q)
  {
    if |lines| > 1 {
      ScanLineBreak(lines[0], Join(lines[1..]), q, 0);
      if QuoteEndOf(lines[0], q) == -1 {
        LineSearchIsTextSearch(lines[1..], q);
        LineStartTail(lines, ClosingLine(lines[1..], q));
      }
    }
  }

  lemma {:induction false} LineStartTail(lines: seq<string>, n: nat)
    requires n + 1 <= |lines|
    ensures LineStart(lines, n + 1) == |lines[0]| + 1 + LineStart(lines[1..], n)
  {
    if n > 0 { LineStartTail(lines, n - 1); }
  }
}
