/**
 Finding the lines of the `spec` fields that a new API version dropped, by indentation,
 in a manifest that may hold several documents.
 */
module FieldRemoval {
  import opened Options
  import opened Text
  import opened Words
  import opened QuotedScalar

  datatype Field = Field(name: string, hint: string)

  /** The lines `line..endLine` hold the field and its value. */
  datatype Removal = Removal(field: string, hint: string, line: nat, endLine: nat)

  // ---------- Lines ----------

  /** The number of space characters at the start of the line. */
  function LineIndent(l: string): (n: nat)
    ensures n <= |l|
  {
    if l != "" && l[0] == ' ' then LineIndent(l[1..]) + 1 else 0
  }

  lemma {:induction false} LineIndentTrims(l: string)
    ensures l[LineIndent(l)..] == TrimLeft(l, c => c == ' ')
  {
    if l != "" && l[0] == ' ' {
      LineIndentTrims(l[1..]);
      assert l[LineIndent(l)..] == l[1..][LineIndent(l[1..])..];
    }
  }

  predicate IsDocumentSeparator(l: string) {
    var t := TrimRight(l, c => c in {' ', '\t', '\r'});
    t == "---" || "--- " <= t || "---\t" <= t
  }

  /** Blank lines, comments and template directives do not affect the structure. */
  predicate IsSkippable(l: string) {
    var t := TrimSpace(l);
    Blank(l) || "#" <= t || "{{" <= t
  }

  /** Whether `content` starts with the mapping key `key`. */
  predicate IsYamlKey(content: string, key: string) {
    var c := TrimRight(content, c => c == '\r');
    var k := key + ":";
    k <= c && (|c| == |k| || c[|k|] in {' ', '\t'})
  }

  predicate IsKeyLine(l: string, key: string) {
    IsYamlKey(l[LineIndent(l)..], key)
  }

  // ---------- What the tests of a line mean ----------

  /** A separator is three dashes with only trailing blanks, or with a blank and anything after them. */
  lemma SeparatorExactly(l: string)
    ensures IsDocumentSeparator(l) <==> "---" <= l && EndsDashes(l[3..])
  {
    var t := TrimRight(l, c => c in {' ', '\t', '\r'});
    if "---" <= l {
      var rest := l[3..];
      assert l[2] == "---"[2] == '-';
      assert |t| >= 3;
      assert forall i | 3 <= i < |l| :: l[i] == rest[i - 3] && rest[i - 3] in rest;
      if forall c <- rest :: c in {' ', '\t', '\r'} {
        assert forall i | 3 <= i < |l| :: l[i] in {' ', '\t', '\r'};
        assert |t| == 3 && t == l[..3];
      } else {
        var i :| 0 <= i < |rest| && rest[i] !in {' ', '\t', '\r'};
        assert l[i + 3] == rest[i];
        assert |t| > i + 3;
        assert t[3] == rest[0] && t[..3] == "---";
      }
    }
  }

  predicate EndsDashes(rest: string) {
    (forall c <- rest :: c in {' ', '\t', '\r'}) || rest[0] in {' ', '\t'}
  }

  /** A skippable line is blank, or its first character that is no space starts a comment or a directive. */
  lemma SkippableExactly(l: string)
    ensures IsSkippable(l) <==> AllSpace(l) || exists k: nat :: StartsCommentAt(l, k)
  {
    hide IsSpace, StartsCommentAt, TrimLeft, TrimRight, Blank;
    BlankIsAllSpace(l);
    var u := TrimLeft(l, IsSpace);
    if AllSpace(l) { NoCommentInSpace(l); }
    if u != "" {
      assert !AllSpace(l) by { assert u[0] in l; }
      CommentSurvivesTrim(u);
      CommentIsFirst(l, u, |l| - |u|);
    } else {
      assert forall c <- l :: IsSpace(c);
    }
  }

  lemma NoCommentInSpace(l: string)
    requires AllSpace(l)
    ensures !exists k: nat :: StartsCommentAt(l, k)
  {
    hide IsSpace;
    CommentIsNoSpace();
    forall k: nat ensures !StartsCommentAt(l, k) {
      if k < |l| { assert l[k..][0] == l[k] && l[k] in l; }
    }
  }

  lemma CommentIsFirst(l: string, u: string, k: nat)
    requires k <= |l| && u == l[k..] && u != "" && !IsSpace(u[0]) && forall i | 0 <= i < k :: IsSpace(l[i])
    ensures (exists j: nat :: StartsCommentAt(l, j)) <==> "#" <= u || "{{" <= u
  {
    hide IsSpace;
    CommentIsNoSpace();
    assert StartsCommentAt(l, k) <==> "#" <= u || "{{" <= u;
    forall j: nat | StartsCommentAt(l, j) ensures j == k {
      assert l[j] == l[j..][0];
      assert l[k] == u[0];
    }
  }

  predicate StartsCommentAt(l: string, k: nat) {
    k <= |l| && (forall i | 0 <= i < k :: IsSpace(l[i])) && ("#" <= l[k..] || "{{" <= l[k..])
  }

  lemma CommentIsNoSpace()
    ensures !IsSpace('#') && !IsSpace('{')
  {
  }

  lemma CommentSurvivesTrim(u: string)
    requires u != ""
    ensures var t := TrimRight(u, IsSpace); ("#" <= t <==> "#" <= u) && ("{{" <= t <==> "{{" <= u)
  {
    hide IsSpace;
    CommentIsNoSpace();
    var t := TrimRight(u, IsSpace);
    assert forall i | |t| <= i < |u| :: IsSpace(u[i]);
    assert "#" <= u ==> u[0] == '#';
    assert "{{" <= u ==> u[0] == '{' && u[1] == '{';
  }

  /** A key line is spaces, the key, a colon, and then carriage returns only, or a blank and anything. */
  lemma KeyLineExactly(l: string, key: string)
    requires key != "" && key[0] != ' '
    ensures IsKeyLine(l, key) <==> exists n: nat :: HasKeyAt(l, key, n)
  {
    hide EndsKey, IsYamlKey;
    IndentIsSpaces(l);
    KeyExactly(l[LineIndent(l)..], key);
    forall n: nat | HasKeyAt(l, key, n) ensures n == LineIndent(l) {
      assert l[n] == l[n..][0] == (key + ":")[0] == key[0];
      IndentIs(l, n);
    }
    assert IsKeyLine(l, key) <==> HasKeyAt(l, key, LineIndent(l));
  }

  predicate HasKeyAt(l: string, key: string, n: nat) {
    && n <= |l| && (forall i | 0 <= i < n :: l[i] == ' ') && key + ":" <= l[n..]
    && EndsKey(l[n..][|key| + 1..])
  }

  /** What may follow the colon of a key. */
  predicate EndsKey(rest: string) {
    (forall c <- rest :: c == '\r') || rest[0] in {' ', '\t'}
  }

  lemma KeyExactly(content: string, key: string)
    ensures IsYamlKey(content, key) <==> key + ":" <= content && EndsKey(content[|key| + 1..])
  {
    var k := key + ":";
    var c := TrimRight(content, x => x == '\r');
    if k <= content {
      assert content[|key|] == k[|key|] == ':';
      assert |c| >= |k|;
      assert k <= c;
      var rest := content[|k|..];
      assert forall i | 0 <= i < |rest| :: rest[i] == content[|k| + i];
      if |c| > |k| {
        assert c[|c| - 1] == rest[|c| - 1 - |k|] && rest[|c| - 1 - |k|] in rest;
        assert c[|k|] == rest[0];
      } else {
        assert forall x <- rest :: x == '\r';
      }
    }
  }

  lemma {:induction false} IndentIs(l: string, n: nat)
    requires n < |l| && (forall k | 0 <= k < n :: l[k] == ' ') && l[n] != ' '
    ensures LineIndent(l) == n
  {
    if n > 0 { IndentIs(l[1..], n - 1); }
  }

  lemma {:induction false} IndentIsSpaces(l: string)
    ensures forall k | 0 <= k < LineIndent(l) :: l[k] == ' '
  {
    if l != "" && l[0] == ' ' {
      IndentIsSpaces(l[1..]);
      assert forall k | 1 <= k < |l| :: l[k] == l[1..][k - 1];
    }
  }

  lemma KeyLineIsNotBlank(l: string, key: string)
    requires IsKeyLine(l, key)
    ensures !Blank(l)
  {
    BlankIsAllSpace(l);
    var c := TrimRight(l[LineIndent(l)..], c => c == '\r');
    assert c[|key|] == (key + ":")[|key|];
    assert l[LineIndent(l) + |key|] == ':';
    assert !IsSpace(':');
  }

  lemma SeparatorIsAtColumnZero(l: string)
    requires IsDocumentSeparator(l)
    ensures LineIndent(l) == 0 && !Blank(l)
  {
    BlankIsAllSpace(l);
    assert l[0] == '-';
  }

  // ---------- The end of a value ----------

  /** The value on the key's line, as the code trims it. */
  function ValueOn(l: string): string {
    var t := TrimRight(l, c => c == '\r');
    var i := Index(t, ":");
    if i == -1 then "" else TrimSpace(t[i + 1..])
  }

  /** Whether a value opens a quoted scalar and does not close it. */
  predicate OpensQuote(value: string) {
    value != "" && (value[0] == '"' || value[0] == '\'') && QuoteEndOf(value[1..], value[0]) == -1
  }

  /** The line after the quoted scalar that `value` opens on `keyLine`, or else the next line. */
  function AfterQuote(lines: seq<string>, keyLine: nat, value: string): (end: nat)
    requires keyLine < |lines|
    ensures keyLine < end <= |lines|
  {
    if !OpensQuote(value) then keyLine + 1
    else
      var n := ClosingLine(lines[keyLine + 1..], value[0]);
      if keyLine + 1 + n == |lines| then keyLine + 1 else keyLine + n + 2
  }

  function QuotedEnd(lines: seq<string>, keyLine: nat): (end: nat)
    requires keyLine < |lines|
    ensures keyLine < end <= |lines|
  {
    AfterQuote(lines, keyLine, ValueOn(lines[keyLine]))
  }

  /** The line after the last line from `end` on that is deeper, up to the first that is not. */
  function DeeperEnd(lines: seq<string>, i: nat, end: nat, indent: nat): (r: nat)
    requires end <= i <= |lines|
    ensures end <= r <= |lines|
    decreases |lines| - i
  {
    if i == |lines| then end
    else if Blank(lines[i]) then DeeperEnd(lines, i + 1, end, indent)
    else if LineIndent(lines[i]) <= indent then end
    else DeeperEnd(lines, i + 1, i + 1, indent)
  }

  function ValueEnd(lines: seq<string>, keyLine: nat, indent: nat): (end: nat)
    requires keyLine < |lines|
    ensures keyLine < end <= |lines|
  {
    var end := QuotedEnd(lines, keyLine);
    DeeperEnd(lines, end, end, indent)
  }

  /** The search for the line that closes a quoted scalar. */
  method SkipQuotedScalar(lines: seq<string>, keyLine: nat, value: string) returns (end: nat)
    requires keyLine < |lines|
    ensures end == AfterQuote(lines, keyLine, value)
  {
    end := keyLine + 1;
    if value == "" || (value[0] != '"' && value[0] != '\'') {
      return;
    }
    var e := QuoteEnd(value[1..], value[0]);
    if e != -1 {
      return;
    }
    ghost var below := lines[keyLine + 1..];
    var i := keyLine + 1;
    while i < |lines|
      invariant keyLine < i <= |lines|
      invariant i <= keyLine + 1 + ClosingLine(below, value[0])
    {
      e := QuoteEnd(lines[i], value[0]);
      assert lines[i] == below[i - keyLine - 1];
      if e != -1 {
        return i + 1;
      }
      i := i + 1;
    }
  }

  /** The line after the last line of the value of the key at `keyLine`. */
  method YamlValueEnd(lines: seq<string>, keyLine: nat, indent: nat) returns (end: nat)
    requires keyLine < |lines|
    ensures end == ValueEnd(lines, keyLine, indent)
  {
    end := SkipQuotedScalar(lines, keyLine, ValueOn(lines[keyLine]));
    var i := end;
    while i < |lines|
      invariant end <= i <= |lines|
      invariant DeeperEnd(lines, i, end, indent) == ValueEnd(lines, keyLine, indent)
    {
      if !Blank(lines[i]) {
        if LineIndent(lines[i]) <= indent {
          break;
        }
        end := i + 1;
      }
      i := i + 1;
    }
  }

  /** The first line from `i` on that is not blank, or the number of lines. */
  function NextContent(lines: seq<string>, i: nat): (n: nat)
    requires i <= |lines|
    ensures i <= n <= |lines| && (n < |lines| ==> !Blank(lines[n]))
    ensures forall k | i <= k < n :: Blank(lines[k])
    decreases |lines| - i
  {
    if i < |lines| && Blank(lines[i]) then NextContent(lines, i + 1) else i
  }

  /**
   What it means for `end` to end the value, outside the quoted lines: everything before it
   is blank or deeper, it does not end with blank lines, and what follows is not deeper.
   */
  ghost predicate EndsValue(lines: seq<string>, quotedEnd: nat, indent: nat, end: nat) {
    && quotedEnd <= end <= |lines|
    && (forall i | quotedEnd <= i < end :: Blank(lines[i]) || LineIndent(lines[i]) > indent)
    && (quotedEnd < end ==> !Blank(lines[end - 1]))
    && (var next := NextContent(lines, end); next < |lines| ==> LineIndent(lines[next]) <= indent)
  }

  /** The value ends where `EndsValue` says, and nowhere else. */
  lemma ValueEndExactly(lines: seq<string>, keyLine: nat, indent: nat, end: nat)
    requires keyLine < |lines|
    ensures EndsValue(lines, QuotedEnd(lines, keyLine), indent, end) <==> end == ValueEnd(lines, keyLine, indent)
  {
    var q := QuotedEnd(lines, keyLine);
    DeeperEndEnds(lines, q, q, indent);
    if EndsValue(lines, q, indent, end) {
      EndIsUnique(lines, q, indent, end, ValueEnd(lines, keyLine, indent));
    }
  }

  lemma {:induction false} DeeperEndEnds(lines: seq<string>, i: nat, end: nat, indent: nat)
    requires end <= i <= |lines| && NextContent(lines, end) == NextContent(lines, i)
    requires forall k | end <= k < i :: Blank(lines[k])
    ensures EndsValue(lines, end, indent, DeeperEnd(lines, i, end, indent))
    decreases |lines| - i
  {
    hide Blank, LineIndent;
    if i < |lines| {
      if Blank(lines[i]) {
        DeeperEndEnds(lines, i + 1, end, indent);
      } else if LineIndent(lines[i]) > indent {
        DeeperEndEnds(lines, i + 1, i + 1, indent);
      }
    }
  }

  lemma EndIsUnique(lines: seq<string>, q: nat, indent: nat, a: nat, b: nat)
    requires EndsValue(lines, q, indent, a) && EndsValue(lines, q, indent, b)
    ensures a == b
  {
    assert NextContent(lines, a) <= |lines| && NextContent(lines, b) <= |lines|;
  }

  /** The lines of a multi-line quoted scalar are those that a scan of the whole text takes. */
  lemma AfterQuoteIsTextSearch(lines: seq<string>, keyLine: nat, value: string)
    requires keyLine < |lines| && OpensQuote(value)
    ensures var text := [value[1..]] + lines[keyLine + 1..];
            var at := QuoteEndOf(Join(text), value[0]);
            var n := AfterQuote(lines, keyLine, value) - keyLine - 1;
            && (at == -1 ==> n == 0)
            && (at != -1 ==> 0 < n < |text| && LineStart(text, n) <= at < LineStart(text, n) + |text[n]|)
  {
    var text := [value[1..]] + lines[keyLine + 1..];
    LineSearchIsTextSearch(text, value[0]);
    assert text[1..] == lines[keyLine + 1..];
  }

  // ---------- The value on a key's line ----------

  /** `v` is what stands after the first colon of the line, between white space. */
  ghost predicate HasValue(l: string, v: string) {
    exists lead, ws, tail :: ValueBetween(l, lead, ws, v, tail)
  }

  ghost predicate ValueBetween(l: string, lead: string, ws: string, v: string, tail: string) {
    && l == lead + ":" + ws + v + tail
    && ':' !in lead && AllSpace(ws) && AllSpace(tail)
    && (v != "" ==> !IsSpace(v[0]) && !IsSpace(v[|v| - 1]))
  }

  /** Cutting and trimming give exactly the value that stands there, and nothing without a colon. */
  lemma ValueOnExactly(l: string, v: string)
    ensures ':' in l ==> (ValueOn(l) == v <==> HasValue(l, v))
    ensures ':' !in l ==> ValueOn(l) == ""
  {
    if lead, ws, tail :| ValueBetween(l, lead, ws, v, tail) { ValueIsRead(l, lead, ws, v, tail); }
    if ':' in l {
      var lead, ws, tail := ValueStands(l);
    } else {
      var t := TrimRight(l, c => c == '\r');
      forall k | 0 <= k ensures !OccursAt(t, ":", k) { if k < |t| { assert t[k..k + 1] == [l[k]] && l[k] in l; } }
    }
  }

  lemma ColonOf(l: string, lead: string, rest: string) returns (cr: string)
    requires l == lead + ":" + rest && ':' !in lead
    ensures var t := TrimRight(l, c => c == '\r');
            |lead| < |t| && Index(t, ":") == |lead| && rest == t[|lead| + 1..] + cr
    ensures forall k | 0 <= k < |cr| :: cr[k] == '\r'
  {
    var t := TrimRight(l, c => c == '\r');
    assert l[|lead|] == ':';
    assert |t| > |lead|;
    forall k | 0 <= k < |lead| ensures !OccursAt(t, ":", k) { assert t[k..k + 1] == [l[k]] && l[k] == lead[k]; }
    assert t[|lead|..|lead| + 1] == [l[|lead|]] == ":";
    IndexIsFirst(t, ":", |lead|);
    cr := l[|t|..];
    assert rest == t[|lead| + 1..] + cr;
  }

  lemma ValueIsRead(l: string, lead: string, ws: string, v: string, tail: string)
    requires ValueBetween(l, lead, ws, v, tail)
    ensures ValueOn(l) == v
  {
    hide IsSpace, Index, TrimSpace;
    var rest := ws + v + tail;
    assert l == lead + ":" + rest;
    var cr := ColonOf(l, lead, rest);
    var t := TrimRight(l, c => c == '\r');
    TrimmedIs(ws, v, tail, t[|lead| + 1..], cr);
  }

  /** Carriage returns at the end of a line belong to the white space. */
  lemma TrimmedIs(ws: string, v: string, tail: string, u: string, cr: string)
    requires ws + v + tail == u + cr && forall k | 0 <= k < |cr| :: cr[k] == '\r'
    requires AllSpace(ws) && AllSpace(tail) && (v != "" ==> !IsSpace(v[0]) && !IsSpace(v[|v| - 1]))
    ensures TrimSpace(u) == v
  {
    hide IsSpace, TrimSpace, TrimLeft, TrimRight;
    ReturnIsSpace();
    var rest, n := u + cr, |ws| + |v|;
    assert forall k | |u| <= k < |rest| :: rest[k] == cr[k - |u|] && IsSpace(rest[k]);
    assert forall k | 0 <= k < |ws| :: rest[k] == ws[k] && ws[k] in ws;
    assert forall k | n <= k < |rest| :: rest[k] == tail[k - n] && tail[k - n] in tail;
    if v == "" {
      assert forall k | 0 <= k < |u| :: u[k] == rest[k] && IsSpace(rest[k]);
      NothingIsLeft(u);
    } else {
      assert rest[n - 1] == v[|v| - 1];
      assert n <= |u|;
      assert u[..n] == rest[..n] == ws + v;
      assert u == ws + v + u[n..];
      assert forall k | 0 <= k < |u[n..]| :: u[n..][k] == rest[n + k];
      TrimSpaceOf(ws, v, u[n..]);
    }
  }

  lemma ReturnIsSpace()
    ensures IsSpace('\r')
  {
  }

  lemma NothingIsLeft(u: string)
    requires forall k | 0 <= k < |u| :: IsSpace(u[k])
    ensures TrimSpace(u) == ""
  {
    hide IsSpace;
    BlankIsAllSpace(u);
    BlankTrimsToNothing(u);
  }

  /** Every line with a colon has a value. */
  lemma ValueStands(l: string) returns (lead: string, ws: string, tail: string)
    requires ':' in l
    ensures ValueBetween(l, lead, ws, ValueOn(l), tail)
  {
    hide IsSpace, TrimSpace, Index;
    var k := FirstColon(l);
    lead := l[..k];
    var rest := l[k + 1..];
    assert l == lead + ":" + rest;
    var v;
    ws, v, tail := Around(rest);
    assert ValueBetween(l, lead, ws, v, tail);
    ValueIsRead(l, lead, ws, v, tail);
  }

  lemma {:induction false} FirstColon(l: string) returns (k: nat)
    requires ':' in l
    ensures k < |l| && l[k] == ':' && ':' !in l[..k]
  {
    if l[0] == ':' {
      k := 0;
    } else {
      k := FirstColon(l[1..]);
      k := k + 1;
      assert l[..k] == [l[0]] + l[1..][..k - 1];
    }
  }

  lemma Around(s: string) returns (ws: string, v: string, tail: string)
    ensures s == ws + v + tail && AllSpace(ws) && AllSpace(tail)
    ensures v != "" ==> !IsSpace(v[0]) && !IsSpace(v[|v| - 1])
  {
    hide IsSpace, TrimLeft, TrimRight;
    var t := TrimLeft(s, IsSpace);
    v := TrimRight(t, IsSpace);
    ws, tail := s[..|s| - |t|], t[|v|..];
    SpacesAround(s, t, v);
    assert s == ws + t && t == v + tail;
    assert v != "" ==> v[0] == t[0];
  }

  lemma SpacesAround(s: string, t: string, v: string)
    requires |t| <= |s| && t == s[|s| - |t|..] && forall i | 0 <= i < |s| - |t| :: IsSpace(s[i])
    requires v <= t && forall i | |v| <= i < |t| :: IsSpace(t[i])
    ensures AllSpace(s[..|s| - |t|]) && AllSpace(t[|v|..])
  {
    hide IsSpace;
    assert forall k | 0 <= k < |t| - |v| :: t[|v|..][k] == t[|v| + k];
  }

  /**
   `end` is the line after the quoted scalar that the value `v` on the key's line opens: the line
   after the one on which a single scan of the joined text, from the opening quote on, closes. It
   is the next line when no quote is opened or none closes.
   */
  ghost predicate EndsQuoted(lines: seq<string>, keyLine: nat, v: string, end: nat)
    requires keyLine < |lines|
  {
    if v == "" || v[0] !in {'"', '\''} then end == keyLine + 1
    else
      var text := [v[1..]] + lines[keyLine + 1..];
      var at := QuoteEndOf(Join(text), v[0]);
      if at == -1 then end == keyLine + 1
      else
        && keyLine < end <= |lines|
        && var n := end - keyLine - 1;
           LineStart(text, n) <= at < LineStart(text, n) + |text[n]|
  }

  lemma QuotedEndExactly(lines: seq<string>, keyLine: nat, v: string, end: nat)
    requires keyLine < |lines| && HasValue(lines[keyLine], v)
    ensures QuotedEnd(lines, keyLine) == end <==> EndsQuoted(lines, keyLine, v, end)
  {
    hide ValueOn, HasValue, QuoteEndOf, ClosingLine, LineStart;
    assert ':' in lines[keyLine] by { HasColon(lines[keyLine], v); }
    ValueOnExactly(lines[keyLine], v);
    if v != "" && v[0] in {'"', '\''} {
      var text := [v[1..]] + lines[keyLine + 1..];
      LineSearchIsTextSearch(text, v[0]);
      ClosingOfTail(text, v[0]);
      assert text[1..] == lines[keyLine + 1..];
      var n := ClosingLine(text, v[0]);
      if n < |text| {
        assert EndsQuoted(lines, keyLine, v, keyLine + 1 + n);
        if EndsQuoted(lines, keyLine, v, end) {
          OneLine(text, n, end - keyLine - 1, QuoteEndOf(Join(text), v[0]));
        }
      }
    }
  }

  lemma HasColon(l: string, v: string)
    requires HasValue(l, v)
    ensures ':' in l
  {
    var lead, ws, tail :| ValueBetween(l, lead, ws, v, tail);
    assert l[|lead|] == ':';
  }

  lemma ClosingOfTail(text: seq<string>, q: char)
    requires text != []
    ensures ClosingLine(text, q) == if QuoteEndOf(text[0], q) != -1 then 0 else ClosingLine(text[1..], q) + 1
    ensures ClosingLine(text, q) < |text| ==>
      0 <= QuoteEndOf(text[ClosingLine(text, q)], q) < |text[ClosingLine(text, q)]|
  {
  }

  lemma OneLine(text: seq<string>, m: nat, n: nat, at: int)
    requires m < |text| && n < |text|
    requires LineStart(text, m) <= at < LineStart(text, m) + |text[m]|
    requires LineStart(text, n) <= at < LineStart(text, n) + |text[n]|
    ensures m == n
  {
    hide LineStart;
    if m < n { LineStartGrows(text, m, n); } else if n < m { LineStartGrows(text, n, m); }
  }

  lemma {:induction false} LineStartGrows(text: seq<string>, m: nat, n: nat)
    requires m < n <= |text|
    ensures LineStart(text, m) + |text[m]| < LineStart(text, n)
  {
    if m < n - 1 { LineStartGrows(text, m, n - 1); }
  }

  // ---------- The spec block of an object ----------

  /** The line of the object's `spec` key, searched from `i`, or the number of lines. */
  function SpecLine(lines: seq<string>, i: nat, indent: nat): (n: nat)
    requires i <= |lines|
    ensures i <= n <= |lines|
    decreases |lines| - i
  {
    if i == |lines| || IsDocumentSeparator(lines[i]) then |lines|
    else if IsSkippable(lines[i]) then SpecLine(lines, i + 1, indent)
    else if LineIndent(lines[i]) < indent then |lines|
    else if LineIndent(lines[i]) == indent && IsKeyLine(lines[i], "spec") then i
    else SpecLine(lines, i + 1, indent)
  }

  /** The line holds the object's `spec` key at its indent. */
  predicate IsSpecKey(l: string, indent: nat) {
    !IsDocumentSeparator(l) && !IsSkippable(l) && LineIndent(l) == indent && IsKeyLine(l, "spec")
  }

  /** The `spec` line is the first one, with nothing before it that ends the object. */
  lemma {:induction false} SpecLineExactly(lines: seq<string>, i: nat, indent: nat, n: nat)
    requires i <= n < |lines|
    ensures SpecLine(lines, i, indent) == n <==>
            && IsSpecKey(lines[n], indent)
            && forall k | i <= k < n ::
                 !IsDocumentSeparator(lines[k]) && (IsSkippable(lines[k]) || LineIndent(lines[k]) >= indent)
                 && !IsSpecKey(lines[k], indent)
    decreases n - i
  {
    hide IsDocumentSeparator, IsSkippable, LineIndent, IsKeyLine;
    if i < n { SpecLineExactly(lines, i + 1, indent, n); }
  }

  /** The first listed field whose key the line holds. */
  function ListedField(l: string, fields: seq<Field>): (f: Option<Field>)
    ensures f.Some? ==> f.value in fields && IsKeyLine(l, f.value.name)
    ensures f.None? ==> forall g <- fields :: !IsKeyLine(l, g.name)
  {
    if fields == [] then None
    else if IsKeyLine(l, fields[0].name) then Some(fields[0])
    else ListedField(l, fields[1..])
  }

  /** Of several fields of the same name the first one counts, with its hint. */
  lemma {:induction false} ListedFieldIsFirst(l: string, fields: seq<Field>, k: nat)
    requires k < |fields| && IsKeyLine(l, fields[k].name) && forall j | 0 <= j < k :: !IsKeyLine(l, fields[j].name)
    ensures ListedField(l, fields) == Some(fields[k])
  {
    hide IsKeyLine;
    if k > 0 { ListedFieldIsFirst(l, fields[1..], k - 1); }
  }

  /**
   The walk over the children of `spec` from line `i`; `child` is their indent once the
   first one was seen.
   */
  function Removals(lines: seq<string>, i: nat, indent: nat, child: Option<nat>, fields: seq<Field>): (rs: seq<Removal>)
    requires i <= |lines|
    decreases |lines| - i
  {
    if i == |lines| || IsDocumentSeparator(lines[i]) then []
    else if IsSkippable(lines[i]) then Removals(lines, i + 1, indent, child, fields)
    else if LineIndent(lines[i]) <= indent then []
    else
      var ind := LineIndent(lines[i]);
      var c := if child.Some? then child.value else ind;
      var f := if ind == c then ListedField(lines[i], fields) else None;
      if f.None? then Removals(lines, i + 1, indent, Some(c), fields)
      else
        var end := ValueEnd(lines, i, c);
        [Removal(f.value.name, f.value.hint, i, end)] + Removals(lines, end, indent, Some(c), fields)
  }

  function RemovedSpecFields(lines: seq<string>, apiVersionLine: nat, indent: nat, fields: seq<Field>): seq<Removal>
    requires apiVersionLine < |lines|
  {
    var spec := SpecLine(lines, apiVersionLine + 1, indent);
    if spec == |lines| then [] else Removals(lines, spec + 1, indent, None, fields)
  }

  /** The line ranges of the listed spec fields of the object whose apiVersion is given. */
  method FindRemovedSpecFields(lines: seq<string>, apiVersionLine: nat, indent: nat, fields: seq<Field>)
    returns (removals: seq<Removal>)
    requires apiVersionLine < |lines|
    ensures removals == RemovedSpecFields(lines, apiVersionLine, indent, fields)
  {
    hide IsDocumentSeparator, IsSkippable, IsKeyLine, LineIndent;
    var specLine := |lines|;
    var i := apiVersionLine + 1;
    while i < |lines|
      invariant apiVersionLine < i <= |lines| && specLine == |lines|
      invariant SpecLine(lines, i, indent) == SpecLine(lines, apiVersionLine + 1, indent)
    {
      if IsDocumentSeparator(lines[i]) {
        break;
      }
      if !IsSkippable(lines[i]) {
        if LineIndent(lines[i]) < indent {
          break;
        }
        if LineIndent(lines[i]) == indent && IsKeyLine(lines[i], "spec") {
          specLine := i;
          break;
        }
      }
      i := i + 1;
    }
    if specLine == |lines| {
      return [];
    }
    removals := RemoveChildren(lines, specLine, indent, fields);
  }

  /** The second loop of the search: the listed fields among the direct children of `spec`. */
  method RemoveChildren(lines: seq<string>, specLine: nat, indent: nat, fields: seq<Field>)
    returns (removals: seq<Removal>)
    requires specLine < |lines|
    ensures removals == Removals(lines, specLine + 1, indent, None, fields)
  {
    hide IsDocumentSeparator, IsSkippable, ListedField, LineIndent, ValueEnd;
    removals := [];
    var childIndent: Option<nat> := None;
    var i := specLine + 1;
    while i < |lines|
      invariant specLine < i <= |lines|
      invariant Removals(lines, specLine + 1, indent, None, fields)
                == removals + Removals(lines, i, indent, childIndent, fields)
    {
      if IsDocumentSeparator(lines[i]) {
        break;
      }
      if IsSkippable(lines[i]) {
        i := i + 1;
        continue;
      }
      var ind := LineIndent(lines[i]);
      if ind <= indent {
        break;
      }
      if childIndent == None {
        childIndent := Some(ind);
      }
      var field := if ind == childIndent.value then ListedField(lines[i], fields) else None;
      if field.Some? {
        var end := YamlValueEnd(lines, i, childIndent.value);
        removals := removals + [Removal(field.value.name, field.value.hint, i, end)];
        i := end;
      } else {
        i := i + 1;
      }
    }
  }

  // ---------- The ranges are sound ----------

  /** Lines `from..i` all belong to the block under `indent`: no separator, nothing shallower. */
  ghost predicate InBlock(lines: seq<string>, from: nat, i: nat, indent: nat)
    requires i <= |lines|
  {
    forall k | from <= k < i ::
      !IsDocumentSeparator(lines[k]) && (IsSkippable(lines[k]) || LineIndent(lines[k]) > indent)
  }

  /** The indent of the first significant line of the block that `ls` starts with. */
  function ChildIndent(ls: seq<string>, indent: nat): (c: Option<nat>)
    ensures c.Some? ==> c.value > indent
  {
    if ls == [] || IsDocumentSeparator(ls[0]) then None
    else if IsSkippable(ls[0]) then ChildIndent(ls[1..], indent)
    else if LineIndent(ls[0]) > indent then Some(LineIndent(ls[0])) else None
  }

  /**
   A range starts at a listed key at the children's indent and ends where its value ends: it has
   all lines of a quoted scalar that the value opens, and then only blank and deeper lines and no
   separator.
   */
  ghost predicate SoundRange(lines: seq<string>, r: Removal, child: nat, fields: seq<Field>) {
    && r.line < r.endLine <= |lines|
    && LineIndent(lines[r.line]) == child
    && Field(r.field, r.hint) in fields && IsKeyLine(lines[r.line], r.field)
    && (exists v :: HasValue(lines[r.line], v) && EndsQuoted(lines, r.line, v, QuotedEnd(lines, r.line)))
    && EndsValue(lines, QuotedEnd(lines, r.line), child, r.endLine)
    && !Blank(lines[r.endLine - 1])
    && (forall k | QuotedEnd(lines, r.line) <= k < r.endLine :: !IsDocumentSeparator(lines[k]))
  }

  /** Ranges follow each other from line `i` on without overlap, and what lies between is in the block. */
  ghost predicate Chained(lines: seq<string>, i: nat, rs: seq<Removal>, indent: nat)
    decreases |rs|
  {
    rs != [] ==>
      && i <= rs[0].line < rs[0].endLine <= |lines|
      && InBlock(lines, i, rs[0].line, indent)
      && Chained(lines, rs[0].endLine, rs[1..], indent)
  }

  lemma {:induction false} RemovalsSound(lines: seq<string>, i: nat, indent: nat, child: Option<nat>,
      fields: seq<Field>)
    requires i <= |lines| && (child.Some? ==> child.value > indent)
    ensures var rs := Removals(lines, i, indent, child, fields);
            var c := if child.Some? then child else ChildIndent(lines[i..], indent);
            && Chained(lines, i, rs, indent)
            && (rs != [] ==> c.Some?)
            && forall r <- rs :: SoundRange(lines, r, c.value, fields)
    decreases |lines| - i
  {
    hide LineIndent, ListedField, ValueEnd, IsKeyLine, IsDocumentSeparator, IsSkippable, SoundRange;
    if i < |lines| && !IsDocumentSeparator(lines[i]) {
      assert lines[i..][1..] == lines[i + 1..];
      var ind := LineIndent(lines[i]);
      if IsSkippable(lines[i]) {
        RemovalsSound(lines, i + 1, indent, child, fields);
        ChainedBack(lines, i, Removals(lines, i + 1, indent, child, fields), indent);
      } else if ind > indent {
        var c := if child.Some? then child.value else ind;
        var f := if ind == c then ListedField(lines[i], fields) else None;
        if f.None? {
          RemovalsSound(lines, i + 1, indent, Some(c), fields);
          ChainedBack(lines, i, Removals(lines, i + 1, indent, Some(c), fields), indent);
        } else {
          var end := ValueEnd(lines, i, c);
          RangeIsSound(lines, Removal(f.value.name, f.value.hint, i, end), c, fields);
          RemovalsSound(lines, end, indent, Some(c), fields);
        }
      }
    }
  }

  lemma ChainedBack(lines: seq<string>, i: nat, rs: seq<Removal>, indent: nat)
    requires i < |lines| && Chained(lines, i + 1, rs, indent)
    requires !IsDocumentSeparator(lines[i]) && (IsSkippable(lines[i]) || LineIndent(lines[i]) > indent)
    ensures Chained(lines, i, rs, indent)
  {
  }

  lemma RangeIsSound(lines: seq<string>, r: Removal, child: nat, fields: seq<Field>)
    requires r.line < |lines| && LineIndent(lines[r.line]) == child && child > 0
    requires Field(r.field, r.hint) in fields && IsKeyLine(lines[r.line], r.field)
    requires r.endLine == ValueEnd(lines, r.line, child)
    ensures SoundRange(lines, r, child, fields)
  {
    hide LineIndent, Blank, QuotedEnd, ValueEnd, IsKeyLine, IsDocumentSeparator, HasValue, EndsQuoted, ValueOn;
    var q := QuotedEnd(lines, r.line);
    KeyLineHasValue(lines[r.line], r.field);
    QuotedEndExactly(lines, r.line, ValueOn(lines[r.line]), q);
    ValueEndExactly(lines, r.line, child, r.endLine);
    QuotedEndIsNotBlank(lines, r.line, r.field);
    forall k | q <= k < r.endLine ensures !IsDocumentSeparator(lines[k]) {
      if IsDocumentSeparator(lines[k]) { SeparatorIsAtColumnZero(lines[k]); }
    }
  }

  lemma KeyLineHasValue(l: string, key: string)
    requires IsKeyLine(l, key)
    ensures HasValue(l, ValueOn(l))
  {
    hide ValueOn;
    var c := TrimRight(l[LineIndent(l)..], c => c == '\r');
    assert c[|key|] == (key + ":")[|key|];
    assert l[LineIndent(l) + |key|] == ':';
    var lead, ws, tail := ValueStands(l);
  }

  lemma QuotedEndIsNotBlank(lines: seq<string>, keyLine: nat, key: string)
    requires keyLine < |lines| && IsKeyLine(lines[keyLine], key)
    ensures !Blank(lines[QuotedEnd(lines, keyLine) - 1])
  {
    hide Blank, AfterQuote, IsKeyLine, ValueOn;
    AfterQuoteIsNotBlank(lines, keyLine, key, ValueOn(lines[keyLine]));
  }

  lemma AfterQuoteIsNotBlank(lines: seq<string>, keyLine: nat, key: string, value: string)
    requires keyLine < |lines| && IsKeyLine(lines[keyLine], key)
    ensures !Blank(lines[AfterQuote(lines, keyLine, value) - 1])
  {
    var end := AfterQuote(lines, keyLine, value);
    if end == keyLine + 1 {
      KeyLineIsNotBlank(lines[keyLine], key);
    } else {
      var l, q := lines[end - 1], value[0];
      assert l == lines[keyLine + 1..][end - keyLine - 2];
      assert l[QuoteEndOf(l, q)] == q && !IsSpace(q);
      BlankIsAllSpace(l);
    }
  }

  // ---------- Several objects ----------

  /** A line that ends the object whose keys are at `indent`: a separator, or a shallower line. */
  predicate EndsObject(l: string, indent: nat) {
    IsDocumentSeparator(l) || (!IsSkippable(l) && LineIndent(l) < indent)
  }

  /** A line that ends the object stops the walk, and no range goes over it but by a quoted scalar. */
  lemma {:induction false} RangesEndBefore(lines: seq<string>, i: nat, indent: nat, child: Option<nat>,
      fields: seq<Field>, s: nat)
    requires i <= s < |lines| && EndsObject(lines[s], indent) && (child.Some? ==> child.value > indent)
    requires forall r <- Removals(lines, i, indent, child, fields) ::
               r.line < |lines| && (r.line < s ==> QuotedEnd(lines, r.line) <= s)
    ensures forall r <- Removals(lines, i, indent, child, fields) :: r.line < s && r.endLine <= s
    decreases |lines| - i
  {
    hide IsDocumentSeparator, IsSkippable, IsKeyLine, LineIndent, Blank, ValueOn, QuotedEnd, ListedField;
    EndIsContent(lines[s], indent);
    if i < s && !IsDocumentSeparator(lines[i]) {
      if IsSkippable(lines[i]) {
        RangesEndBefore(lines, i + 1, indent, child, fields, s);
      } else if LineIndent(lines[i]) > indent {
        var ind := LineIndent(lines[i]);
        var c := if child.Some? then child.value else ind;
        var f := if ind == c then ListedField(lines[i], fields) else None;
        if f.None? {
          RangesEndBefore(lines, i + 1, indent, Some(c), fields, s);
        } else {
          var end := ValueEnd(lines, i, c);
          var r := Removal(f.value.name, f.value.hint, i, end);
          assert r in Removals(lines, i, indent, child, fields);
          DeeperEndBefore(lines, QuotedEnd(lines, i), QuotedEnd(lines, i), c, s);
          RangesEndBefore(lines, end, indent, Some(c), fields, s);
        }
      }
    }
  }

  lemma EndIsContent(l: string, indent: nat)
    requires EndsObject(l, indent)
    ensures !Blank(l) && LineIndent(l) <= indent
  {
    hide IsDocumentSeparator, LineIndent, Blank;
    if IsDocumentSeparator(l) { SeparatorIsAtColumnZero(l); }
  }

  lemma {:induction false} DeeperEndBefore(lines: seq<string>, i: nat, end: nat, c: nat, s: nat)
    requires end <= i <= s < |lines| && !Blank(lines[s]) && LineIndent(lines[s]) <= c
    ensures DeeperEnd(lines, i, end, c) <= s
    decreases s - i
  {
    hide Blank, LineIndent;
    if i < s {
      if Blank(lines[i]) {
        DeeperEndBefore(lines, i + 1, end, c, s);
      } else if LineIndent(lines[i]) > c {
        DeeperEndBefore(lines, i + 1, i + 1, c, s);
      }
    }
  }

  /** All ranges of an object lie before the line that ends it. */
  lemma ObjectRangesEndBefore(lines: seq<string>, apiVersionLine: nat, indent: nat, fields: seq<Field>, s: nat)
    requires apiVersionLine < s < |lines| && EndsObject(lines[s], indent)
    requires forall r <- RemovedSpecFields(lines, apiVersionLine, indent, fields) ::
               r.line < |lines| && (r.line < s ==> QuotedEnd(lines, r.line) <= s)
    ensures forall r <- RemovedSpecFields(lines, apiVersionLine, indent, fields) :: r.line < s && r.endLine <= s
  {
    hide EndsObject, SpecLine, Removals, QuotedEnd;
    var spec := SpecLine(lines, apiVersionLine + 1, indent);
    if spec < |lines| {
      SpecBefore(lines, apiVersionLine + 1, indent, s);
      RangesEndBefore(lines, spec + 1, indent, None, fields, s);
    }
  }

  lemma {:induction false} SpecBefore(lines: seq<string>, i: nat, indent: nat, s: nat)
    requires i <= s < |lines| && EndsObject(lines[s], indent)
    ensures SpecLine(lines, i, indent) < s || SpecLine(lines, i, indent) == |lines|
    decreases |lines| - i
  {
    hide IsDocumentSeparator, LineIndent, IsKeyLine, IsSkippable;
    if i < s && !IsDocumentSeparator(lines[i]) { SpecBefore(lines, i + 1, indent, s); }
  }

  // ---------- Removing twice ----------

  ghost predicate Ordered(i: nat, rs: seq<Removal>, n: nat)
    decreases |rs|
  {
    i <= n && (rs != [] ==> i <= rs[0].line < rs[0].endLine <= n && Ordered(rs[0].endLine, rs[1..], n))
  }

  lemma {:induction false} ChainedIsOrdered(lines: seq<string>, i: nat, rs: seq<Removal>, indent: nat)
    requires i <= |lines| && Chained(lines, i, rs, indent)
    ensures Ordered(i, rs, |lines|)
    decreases |rs|
  {
    if rs != [] { ChainedIsOrdered(lines, rs[0].endLine, rs[1..], indent); }
  }

  /** The lines from `i` on that lie in none of the ranges. */
  ghost function Outside(lines: seq<string>, i: nat, rs: seq<Removal>): seq<string>
    requires Ordered(i, rs, |lines|)
    decreases |rs|
  {
    if rs == [] then lines[i..]
    else lines[i..rs[0].line] + Outside(lines, rs[0].endLine, rs[1..])
  }

  /** The walk over `ls` meets no listed field. */
  predicate NoHit(ls: seq<string>, indent: nat, child: Option<nat>, fields: seq<Field>) {
    if ls == [] || IsDocumentSeparator(ls[0]) then true
    else if IsSkippable(ls[0]) then NoHit(ls[1..], indent, child, fields)
    else if LineIndent(ls[0]) <= indent then true
    else
      var c := if child.Some? then child.value else LineIndent(ls[0]);
      (LineIndent(ls[0]) == c ==> ListedField(ls[0], fields).None?) && NoHit(ls[1..], indent, Some(c), fields)
  }

  lemma {:induction false} NothingToRemove(lines: seq<string>, i: nat, indent: nat, child: Option<nat>,
      fields: seq<Field>)
    requires i <= |lines|
    ensures Removals(lines, i, indent, child, fields) == [] <==> NoHit(lines[i..], indent, child, fields)
    decreases |lines| - i
  {
    hide IsDocumentSeparator, IsSkippable, LineIndent, ListedField, ValueEnd;
    if i < |lines| {
      assert lines[i..][0] == lines[i] && lines[i..][1..] == lines[i + 1..];
      NothingToRemove(lines, i + 1, indent, child, fields);
      var c := if child.Some? then child.value else LineIndent(lines[i]);
      NothingToRemove(lines, i + 1, indent, Some(c), fields);
    }
  }

  /** What the walk keeps, walked again at the same indent, has no listed field. */
  lemma {:induction false} KeptHasNoHit(lines: seq<string>, i: nat, indent: nat, c: nat, fields: seq<Field>)
    requires i <= |lines|
    ensures var rs := Removals(lines, i, indent, Some(c), fields);
            Ordered(i, rs, |lines|) && NoHit(Outside(lines, i, rs), indent, Some(c), fields)
    decreases |lines| - i
  {
    hide IsDocumentSeparator, IsSkippable, LineIndent, ListedField, ValueEnd;
    var rs := Removals(lines, i, indent, Some(c), fields);
    if i == |lines| || IsDocumentSeparator(lines[i]) || (!IsSkippable(lines[i]) && LineIndent(lines[i]) <= indent) {
      assert Outside(lines, i, rs) == lines[i..];
    } else if !IsSkippable(lines[i]) && LineIndent(lines[i]) == c && ListedField(lines[i], fields).Some? {
      var end := ValueEnd(lines, i, c);
      KeptHasNoHit(lines, end, indent, c, fields);
      assert rs[1..] == Removals(lines, end, indent, Some(c), fields);
      assert Outside(lines, i, rs) == Outside(lines, end, rs[1..]);
    } else {
      KeptHasNoHit(lines, i + 1, indent, c, fields);
      OutsideStep(lines, i, rs);
    }
  }

  lemma OutsideStep(lines: seq<string>, i: nat, rs: seq<Removal>)
    requires i < |lines| && Ordered(i + 1, rs, |lines|)
    ensures Ordered(i, rs, |lines|) && Outside(lines, i, rs) == [lines[i]] + Outside(lines, i + 1, rs)
  {
    OutsideFrom(lines, i, i + 1, rs);
    assert lines[i..i + 1] == [lines[i]];
  }

  lemma OutsideFrom(lines: seq<string>, i: nat, j: nat, rs: seq<Removal>)
    requires i <= j && Ordered(j, rs, |lines|)
    ensures Ordered(i, rs, |lines|) && Outside(lines, i, rs) == lines[i..j] + Outside(lines, j, rs)
  {
    if rs == [] {
      assert lines[i..] == lines[i..j] + lines[j..];
    } else {
      var first, rest := rs[0].line, Outside(lines, rs[0].endLine, rs[1..]);
      assert lines[i..first] == lines[i..j] + lines[j..first];
      assert lines[i..j] + lines[j..first] + rest == lines[i..j] + (lines[j..first] + rest);
    }
  }

  /** The same for the walk that still has to learn the indent. */
  lemma {:induction false} KeptHasNoHitAtChild(lines: seq<string>, i: nat, indent: nat, fields: seq<Field>)
    requires i <= |lines|
    ensures var rs := Removals(lines, i, indent, None, fields);
            var c := ChildIndent(lines[i..], indent);
            && Ordered(i, rs, |lines|)
            && (c.None? ==> ChildIndent(Outside(lines, i, rs), indent).None?)
            && (c.Some? ==> NoHit(Outside(lines, i, rs), indent, c, fields))
    decreases |lines| - i
  {
    hide IsDocumentSeparator, IsSkippable, LineIndent, ListedField, ValueEnd;
    var rs := Removals(lines, i, indent, None, fields);
    if i < |lines| && !IsDocumentSeparator(lines[i]) {
      assert lines[i..][0] == lines[i] && lines[i..][1..] == lines[i + 1..];
      if IsSkippable(lines[i]) {
        KeptHasNoHitAtChild(lines, i + 1, indent, fields);
        OutsideStep(lines, i, rs);
      } else if LineIndent(lines[i]) > indent {
        var c := LineIndent(lines[i]);
        assert rs == Removals(lines, i, indent, Some(c), fields);
        KeptHasNoHit(lines, i, indent, c, fields);
      } else {
        assert Outside(lines, i, rs) == lines[i..];
      }
    } else {
      assert Outside(lines, i, rs) == lines[i..];
    }
  }

  lemma {:induction false} NoHitFindsChild(ls: seq<string>, indent: nat, fields: seq<Field>)
    ensures var c := ChildIndent(ls, indent);
            NoHit(ls, indent, None, fields) <==> c.None? || NoHit(ls, indent, c, fields)
  {
    hide IsDocumentSeparator, IsSkippable, LineIndent, ListedField;
    if ls != [] { NoHitFindsChild(ls[1..], indent, fields); }
  }

  lemma {:induction false} SpecLineOfPrefix(lines: seq<string>, kept: seq<string>, i: nat, indent: nat)
    requires i <= |lines| && SpecLine(lines, i, indent) < |lines| && SpecLine(lines, i, indent) < |kept|
    requires lines[..SpecLine(lines, i, indent) + 1] == kept[..SpecLine(lines, i, indent) + 1]
    ensures SpecLine(kept, i, indent) == SpecLine(lines, i, indent)
    decreases |lines| - i
  {
    hide IsDocumentSeparator, IsSkippable, LineIndent, IsKeyLine;
    var n := SpecLine(lines, i, indent);
    assert lines[i] == lines[..n + 1][i] == kept[i];
    if i < n { SpecLineOfPrefix(lines, kept, i + 1, indent); }
  }

  /** The lines of the file after the object's removed fields are deleted. */
  ghost function AfterRemoval(lines: seq<string>, apiVersionLine: nat, indent: nat, fields: seq<Field>): seq<string>
    requires apiVersionLine < |lines|
    requires Ordered(0, RemovedSpecFields(lines, apiVersionLine, indent, fields), |lines|)
  {
    Outside(lines, 0, RemovedSpecFields(lines, apiVersionLine, indent, fields))
  }

  lemma RemovedFieldsAreOrdered(lines: seq<string>, apiVersionLine: nat, indent: nat, fields: seq<Field>)
    requires apiVersionLine < |lines|
    ensures Ordered(0, RemovedSpecFields(lines, apiVersionLine, indent, fields), |lines|)
  {
    hide IsDocumentSeparator, IsSkippable, LineIndent, NoHit, Removals, ChildIndent, Outside, SpecLine;
    var spec := SpecLine(lines, apiVersionLine + 1, indent);
    if spec < |lines| {
      KeptHasNoHitAtChild(lines, spec + 1, indent, fields);
      OutsideFrom(lines, 0, spec + 1, Removals(lines, spec + 1, indent, None, fields));
    }
  }

  ghost predicate OutsideRanges(rs: seq<Removal>, k: nat) {
    forall r <- rs :: !(r.line <= k < r.endLine)
  }

  /** The first significant line of the block from `i` on that lies in none of the ranges. */
  function FirstKept(lines: seq<string>, i: nat, rs: seq<Removal>, indent: nat): (f: Option<nat>)
    requires i <= |lines| && Ordered(i, rs, |lines|)
    ensures f.Some? ==> f.value < |lines|
    decreases |lines| - i
  {
    if rs != [] && i == rs[0].line then FirstKept(lines, rs[0].endLine, rs[1..], indent)
    else if i == |lines| || IsDocumentSeparator(lines[i]) then None
    else if IsSkippable(lines[i]) then FirstKept(lines, i + 1, rs, indent)
    else if LineIndent(lines[i]) > indent then Some(i) else None
  }

  /** Line `j` is a listed key at indent `c`, outside the ranges and in the block that starts at `i`. */
  ghost predicate ListedOutside(
    lines: seq<string>, i: nat, rs: seq<Removal>, indent: nat, c: nat, fields: seq<Field>, j: nat)
  {
    && i <= j < |lines| && OutsideRanges(rs, j)
    && (forall k: nat | i <= k <= j && OutsideRanges(rs, k) ::
          !IsDocumentSeparator(lines[k]) && (IsSkippable(lines[k]) || LineIndent(lines[k]) > indent))
    && !IsSkippable(lines[j]) && LineIndent(lines[j]) == c && ListedField(lines[j], fields).Some?
  }

  lemma {:induction false} FirstKeptIsLeft(lines: seq<string>, i: nat, rs: seq<Removal>, indent: nat)
    requires i <= |lines| && Ordered(i, rs, |lines|)
    ensures var f := FirstKept(lines, i, rs, indent);
            ChildIndent(Outside(lines, i, rs), indent) == if f.None? then None else Some(LineIndent(lines[f.value]))
    decreases |lines| - i
  {
    hide IsDocumentSeparator, IsSkippable, LineIndent;
    if rs != [] && i == rs[0].line {
      FirstKeptIsLeft(lines, rs[0].endLine, rs[1..], indent);
      assert Outside(lines, i, rs) == Outside(lines, rs[0].endLine, rs[1..]);
    } else if i < |lines| {
      OutsideStep(lines, i, rs);
      if IsSkippable(lines[i]) { FirstKeptIsLeft(lines, i + 1, rs, indent); }
    } else {
      assert Outside(lines, i, rs) == [];
    }
  }

  lemma LineIsOutside(i: nat, rs: seq<Removal>, n: nat, k: nat)
    requires Ordered(i, rs, n) && (k < i || (rs != [] && k < rs[0].line) || rs == [])
    ensures OutsideRanges(rs, k)
    decreases |rs|
  {
    if rs != [] {
      LineIsOutside(rs[0].endLine, rs[1..], n, k);
      assert forall r :: r in rs <==> r == rs[0] || r in rs[1..];
    }
  }

  /** Listed lines outside are the same from the end of a range as from its start. */
  lemma ListedPastRange(
    lines: seq<string>, rs: seq<Removal>, indent: nat, c: nat, fields: seq<Field>, j: nat)
    requires rs != [] && Ordered(rs[0].line, rs, |lines|)
    ensures ListedOutside(lines, rs[0].line, rs, indent, c, fields, j)
            <==> ListedOutside(lines, rs[0].endLine, rs[1..], indent, c, fields, j)
  {
    hide IsDocumentSeparator, IsSkippable, LineIndent, ListedField;
    var r, rest := rs[0], rs[1..];
    assert forall x :: x in rs <==> x == r || x in rest;
    assert forall k: nat :: OutsideRanges(rs, k) <==> !(r.line <= k < r.endLine) && OutsideRanges(rest, k);
  }

  /** Listed lines outside, one line on. */
  lemma ListedPastLine(
    lines: seq<string>, i: nat, rs: seq<Removal>, indent: nat, c: nat, fields: seq<Field>, j: nat)
    requires i < |lines| && Ordered(i, rs, |lines|) && (rs != [] ==> i < rs[0].line)
    ensures i < j ==> (ListedOutside(lines, i, rs, indent, c, fields, j) <==>
              InBlock(lines, i, i + 1, indent) && ListedOutside(lines, i + 1, rs, indent, c, fields, j))
    ensures ListedOutside(lines, i, rs, indent, c, fields, i) <==>
              InBlock(lines, i, i + 1, indent) && !IsSkippable(lines[i]) && LineIndent(lines[i]) == c
              && ListedField(lines[i], fields).Some?
  {
    hide IsDocumentSeparator, IsSkippable, LineIndent, ListedField;
    LineIsOutside(i, rs, |lines|, i);
  }

  ghost predicate NothingListedOutside(
    lines: seq<string>, i: nat, rs: seq<Removal>, indent: nat, c: nat, fields: seq<Field>)
  {
    forall j: nat :: !ListedOutside(lines, i, rs, indent, c, fields, j)
  }

  lemma {:induction false} NoHitOutside(
    lines: seq<string>, i: nat, rs: seq<Removal>, indent: nat, c: nat, fields: seq<Field>)
    requires i <= |lines| && Ordered(i, rs, |lines|)
    ensures NoHit(Outside(lines, i, rs), indent, Some(c), fields)
            <==> NothingListedOutside(lines, i, rs, indent, c, fields)
    decreases |lines| - i
  {
    hide IsDocumentSeparator, IsSkippable, LineIndent, ListedField, ListedOutside;
    if rs != [] && i == rs[0].line {
      NoHitOutside(lines, rs[0].endLine, rs[1..], indent, c, fields);
      assert Outside(lines, i, rs) == Outside(lines, rs[0].endLine, rs[1..]);
      forall j: nat ensures ListedOutside(lines, i, rs, indent, c, fields, j)
                            <==> ListedOutside(lines, rs[0].endLine, rs[1..], indent, c, fields, j) {
        ListedPastRange(lines, rs, indent, c, fields, j);
      }
    } else if i < |lines| {
      OutsideStep(lines, i, rs);
      NoHitOutside(lines, i + 1, rs, indent, c, fields);
      NoHitOutsideLine(lines, i, rs, indent, c, fields);
    } else {
      assert Outside(lines, i, rs) == [];
      forall j: nat ensures !ListedOutside(lines, i, rs, indent, c, fields, j) {
        NotPastTheEnd(lines, i, rs, indent, c, fields, j);
      }
    }
  }

  lemma NotPastTheEnd(lines: seq<string>, i: nat, rs: seq<Removal>, indent: nat, c: nat, fields: seq<Field>, j: nat)
    requires i == |lines| || j < i
    ensures !ListedOutside(lines, i, rs, indent, c, fields, j)
  {
  }

  lemma NoHitOutsideLine(lines: seq<string>, i: nat, rs: seq<Removal>, indent: nat, c: nat, fields: seq<Field>)
    requires i < |lines| && Ordered(i, rs, |lines|) && (rs != [] ==> i < rs[0].line)
    ensures NothingListedOutside(lines, i, rs, indent, c, fields) <==>
              (InBlock(lines, i, i + 1, indent) ==>
                 && NothingListedOutside(lines, i + 1, rs, indent, c, fields)
                 && (!IsSkippable(lines[i]) && LineIndent(lines[i]) == c ==> ListedField(lines[i], fields).None?))
  {
    hide IsDocumentSeparator, IsSkippable, LineIndent, ListedField, ListedOutside, InBlock;
    ListedPastLine(lines, i, rs, indent, c, fields, i);
    forall j: nat
      ensures j != i ==> (ListedOutside(lines, i, rs, indent, c, fields, j) <==>
                InBlock(lines, i, i + 1, indent) && ListedOutside(lines, i + 1, rs, indent, c, fields, j))
      ensures !ListedOutside(lines, i + 1, rs, indent, c, fields, i)
    {
      if i < j {
        ListedPastLine(lines, i, rs, indent, c, fields, j);
      } else if j < i {
        NotPastTheEnd(lines, i, rs, indent, c, fields, j);
        NotPastTheEnd(lines, i + 1, rs, indent, c, fields, j);
      }
      NotPastTheEnd(lines, i + 1, rs, indent, c, fields, i);
    }
    if !NothingListedOutside(lines, i + 1, rs, indent, c, fields) {
      var j: nat :| ListedOutside(lines, i + 1, rs, indent, c, fields, j);
      assert InBlock(lines, i, i + 1, indent) ==> ListedOutside(lines, i, rs, indent, c, fields, j);
    }
    if !NothingListedOutside(lines, i, rs, indent, c, fields) {
      var j: nat :| ListedOutside(lines, i, rs, indent, c, fields, j);
      assert j != i ==> ListedOutside(lines, i + 1, rs, indent, c, fields, j);
    }
  }

  /**
   Running the search again after the deletion finds something, exactly when the first
   significant line of the block outside the ranges is not at the children's indent, and a
   listed key stands outside the ranges at the indent of that line.
   */
  lemma RemovalIsFixpointExactly(lines: seq<string>, apiVersionLine: nat, indent: nat, fields: seq<Field>)
    requires apiVersionLine < |lines|
    requires SpecLine(lines, apiVersionLine + 1, indent) < |lines|
    ensures var i := SpecLine(lines, apiVersionLine + 1, indent) + 1;
            var rs := RemovedSpecFields(lines, apiVersionLine, indent, fields);
            && Ordered(0, rs, |lines|) && Ordered(i, rs, |lines|)
            && var kept, f := AfterRemoval(lines, apiVersionLine, indent, fields), FirstKept(lines, i, rs, indent);
            && apiVersionLine < |kept|
            && (RemovedSpecFields(kept, apiVersionLine, indent, fields) != [] <==>
                  && f.Some? && Some(LineIndent(lines[f.value])) != ChildIndent(lines[i..], indent)
                  && exists j: nat :: ListedOutside(lines, i, rs, indent, LineIndent(lines[f.value]), fields, j))
  {
    hide IsDocumentSeparator, IsSkippable, LineIndent, ListedField, ValueEnd, NoHit, Removals, ChildIndent;
    hide SpecLine, Outside, Ordered, ListedOutside;
    var i := SpecLine(lines, apiVersionLine + 1, indent) + 1;
    var rs := RemovedSpecFields(lines, apiVersionLine, indent, fields);
    KeptHasNoHitAtChild(lines, i, indent, fields);
    RerunSearchesRest(lines, apiVersionLine, indent, fields);
    var rest := Outside(lines, i, rs);
    NothingToRemove(rest, 0, indent, None, fields);
    assert rest[0..] == rest;
    NoHitFindsChild(rest, indent, fields);
    FirstKeptIsLeft(lines, i, rs, indent);
    var f := FirstKept(lines, i, rs, indent);
    if f.Some? { NoHitOutside(lines, i, rs, indent, LineIndent(lines[f.value]), fields); }
  }

  /** The second search walks over the lines outside the ranges. */
  lemma RerunSearchesRest(lines: seq<string>, apiVersionLine: nat, indent: nat, fields: seq<Field>)
    requires apiVersionLine < |lines| && SpecLine(lines, apiVersionLine + 1, indent) < |lines|
    ensures var i := SpecLine(lines, apiVersionLine + 1, indent) + 1;
            var rs := RemovedSpecFields(lines, apiVersionLine, indent, fields);
            && Ordered(0, rs, |lines|) && Ordered(i, rs, |lines|)
            && var kept := AfterRemoval(lines, apiVersionLine, indent, fields);
            && apiVersionLine < |kept|
            && (RemovedSpecFields(kept, apiVersionLine, indent, fields) == [] <==>
                  Removals(Outside(lines, i, rs), 0, indent, None, fields) == [])
  {
    hide IsDocumentSeparator, IsSkippable, LineIndent, ListedField, ValueEnd, NoHit, Removals, ChildIndent;
    hide SpecLine, Outside, Ordered;
    var spec := SpecLine(lines, apiVersionLine + 1, indent);
    var rs := RemovedSpecFields(lines, apiVersionLine, indent, fields);
    RemovedFieldsAreOrdered(lines, apiVersionLine, indent, fields);
    KeptHasNoHitAtChild(lines, spec + 1, indent, fields);
    var kept, rest := Outside(lines, 0, rs), Outside(lines, spec + 1, rs);
    OutsideFrom(lines, 0, spec + 1, rs);
    assert kept == lines[..spec + 1] + rest && kept[spec + 1..] == rest;
    assert kept[..spec + 1] == lines[..spec + 1];
    SpecLineOfPrefix(lines, kept, apiVersionLine + 1, indent);
    NothingToRemove(kept, spec + 1, indent, None, fields);
    NothingToRemove(rest, 0, indent, None, fields);
    assert rest[0..] == rest;
  }

  // ---------- Conditions on the file that make the removal a fixpoint ----------

  /** Where a value ended, the next significant line of the block, if any, is at the children's indent. */
  predicate ResumesAtChild(lines: seq<string>, r: Removal, indent: nat, c: nat)
    requires r.endLine <= |lines|
  {
    ChildIndent(lines[r.endLine..], indent) in {None, Some(c)}
  }

  lemma {:induction false} FirstKeptAtChild(lines: seq<string>, i: nat, rs: seq<Removal>, indent: nat, c: nat)
    requires i <= |lines| && Ordered(i, rs, |lines|) && ChildIndent(lines[i..], indent) in {None, Some(c)}
    requires forall r <- rs :: r.endLine <= |lines| && ResumesAtChild(lines, r, indent, c)
    ensures var f := FirstKept(lines, i, rs, indent); f.None? || LineIndent(lines[f.value]) == c
    decreases |lines| - i
  {
    hide IsDocumentSeparator, IsSkippable, LineIndent;
    if rs != [] && i == rs[0].line {
      assert rs[0] in rs;
      FirstKeptAtChild(lines, rs[0].endLine, rs[1..], indent, c);
    } else if i < |lines| {
      assert lines[i..][0] == lines[i] && lines[i..][1..] == lines[i + 1..];
      if !IsDocumentSeparator(lines[i]) && IsSkippable(lines[i]) { FirstKeptAtChild(lines, i + 1, rs, indent, c); }
    }
  }

  /** If every removed value ends before a line at the children's indent, a second search finds nothing. */
  lemma CleanEndsAreFixpoint(lines: seq<string>, apiVersionLine: nat, indent: nat, fields: seq<Field>, c: nat)
    requires apiVersionLine < |lines| && SpecLine(lines, apiVersionLine + 1, indent) < |lines|
    requires ChildIndent(lines[SpecLine(lines, apiVersionLine + 1, indent) + 1..], indent) == Some(c)
    requires forall r <- RemovedSpecFields(lines, apiVersionLine, indent, fields) ::
               r.endLine <= |lines| && ResumesAtChild(lines, r, indent, c)
    ensures Ordered(0, RemovedSpecFields(lines, apiVersionLine, indent, fields), |lines|)
    ensures var kept := AfterRemoval(lines, apiVersionLine, indent, fields);
            apiVersionLine < |kept| && RemovedSpecFields(kept, apiVersionLine, indent, fields) == []
  {
    hide SpecLine, RemovedSpecFields, ResumesAtChild, ChildIndent, FirstKept, ListedOutside, LineIndent;
    RemovalIsFixpointExactly(lines, apiVersionLine, indent, fields);
    var i := SpecLine(lines, apiVersionLine + 1, indent) + 1;
    FirstKeptAtChild(lines, i, RemovedSpecFields(lines, apiVersionLine, indent, fields), indent, c);
  }

  /**
   The file alone: every line of the spec block with content that is not deeper than the
   children is followed by, or is itself, a significant line at their indent, or ends the
   block; and no listed key opens a quoted scalar that goes on after its line.
   */
  ghost predicate IsWellIndented(lines: seq<string>, from: nat, indent: nat, c: nat, fields: seq<Field>) {
    && (forall k: nat | from <= k < |lines| && InBlock(lines, from, k, indent) ::
          !Blank(lines[k]) && LineIndent(lines[k]) <= c ==> ChildIndent(lines[k..], indent) in {None, Some(c)})
    && (forall k: nat | from <= k < |lines| && ListedField(lines[k], fields).Some? :: !OpensQuote(ValueOn(lines[k])))
  }

  /** The search of a well indented file, run twice, removes no more than run once. */
  lemma WellIndentedIsFixpoint(lines: seq<string>, apiVersionLine: nat, indent: nat, fields: seq<Field>, c: nat)
    requires apiVersionLine < |lines| && SpecLine(lines, apiVersionLine + 1, indent) < |lines|
    requires ChildIndent(lines[SpecLine(lines, apiVersionLine + 1, indent) + 1..], indent) == Some(c)
    requires IsWellIndented(lines, SpecLine(lines, apiVersionLine + 1, indent) + 1, indent, c, fields)
    ensures Ordered(0, RemovedSpecFields(lines, apiVersionLine, indent, fields), |lines|)
    ensures var kept := AfterRemoval(lines, apiVersionLine, indent, fields);
            apiVersionLine < |kept| && RemovedSpecFields(kept, apiVersionLine, indent, fields) == []
  {
    hide SpecLine, Removals, ResumesAtChild, ChildIndent, SoundRange, Chained, InBlock, IsWellIndented;
    var i := SpecLine(lines, apiVersionLine + 1, indent) + 1;
    var rs := RemovedSpecFields(lines, apiVersionLine, indent, fields);
    RemovalsSound(lines, i, indent, None, fields);
    NothingBeforeStart(lines, i, indent);
    RangesResume(lines, i, i, rs, indent, c, fields);
    CleanEndsAreFixpoint(lines, apiVersionLine, indent, fields, c);
  }

  lemma NothingBeforeStart(lines: seq<string>, i: nat, indent: nat)
    requires i <= |lines|
    ensures InBlock(lines, i, i, indent)
  {
  }

  lemma {:induction false} RangesResume(
    lines: seq<string>, from: nat, i: nat, rs: seq<Removal>, indent: nat, c: nat, fields: seq<Field>)
    requires from <= i <= |lines| && InBlock(lines, from, i, indent) && Chained(lines, i, rs, indent) && indent < c
    requires IsWellIndented(lines, from, indent, c, fields) && forall r <- rs :: SoundRange(lines, r, c, fields)
    ensures forall r <- rs :: r.endLine <= |lines| && ResumesAtChild(lines, r, indent, c)
    decreases |rs|
  {
    hide IsDocumentSeparator, IsSkippable, LineIndent, IsWellIndented, SoundRange, ResumesAtChild;
    if rs != [] {
      assert rs[0] in rs;
      assert forall r :: r in rs <==> r == rs[0] || r in rs[1..];
      RangeStaysInBlock(lines, from, i, rs[0], indent, c, fields);
      RangeResumes(lines, from, rs[0], indent, c, fields);
      RangesResume(lines, from, rs[0].endLine, rs[1..], indent, c, fields);
    }
  }

  /** The lines of a range without a quoted continuation belong to the block. */
  lemma RangeStaysInBlock(lines: seq<string>, from: nat, i: nat, r: Removal, indent: nat, c: nat, fields: seq<Field>)
    requires from <= i <= r.line < r.endLine <= |lines| && indent < c
    requires InBlock(lines, from, i, indent) && InBlock(lines, i, r.line, indent)
    requires IsWellIndented(lines, from, indent, c, fields) && SoundRange(lines, r, c, fields)
    ensures InBlock(lines, from, r.endLine, indent) && QuotedEnd(lines, r.line) == r.line + 1
  {
    hide IsSkippable, LineIndent, IsDocumentSeparator, IsKeyLine, Blank, ListedField, ValueOn, OpensQuote;
    RangeHasNoQuote(lines, r, fields);
    var l := lines[r.line];
    if IsDocumentSeparator(l) { SeparatorIsAtColumnZero(l); }
    forall k | r.line < k < r.endLine ensures IsSkippable(lines[k]) || LineIndent(lines[k]) > indent {
      if Blank(lines[k]) { BlankIsSkippable(lines[k]); }
    }
  }

  lemma BlankIsSkippable(l: string)
    requires Blank(l)
    ensures IsSkippable(l)
  {
  }

  lemma RangeHasNoQuote(lines: seq<string>, r: Removal, fields: seq<Field>)
    requires r.line < |lines| && Field(r.field, r.hint) in fields && IsKeyLine(lines[r.line], r.field)
    requires ListedField(lines[r.line], fields).Some? ==> !OpensQuote(ValueOn(lines[r.line]))
    ensures QuotedEnd(lines, r.line) == r.line + 1
  {
    hide IsKeyLine, ValueOn, OpensQuote;
  }

  /** After a range the block goes on at the children's indent. */
  lemma RangeResumes(lines: seq<string>, from: nat, r: Removal, indent: nat, c: nat, fields: seq<Field>)
    requires from <= r.line < r.endLine <= |lines| && InBlock(lines, from, r.endLine, indent)
    requires IsWellIndented(lines, from, indent, c, fields) && SoundRange(lines, r, c, fields)
    ensures ResumesAtChild(lines, r, indent, c)
  {
    hide IsSkippable, LineIndent, IsDocumentSeparator, IsKeyLine, Blank, ListedField, ChildIndent;
    var k := NextContent(lines, r.endLine);
    ChildPastBlanks(lines, r.endLine, k, indent);
    BlanksStayInBlock(lines, from, r.endLine, k, indent);
    if k == |lines| {
      assert lines[k..] == [];
      NoChildInNothing(indent);
    }
  }

  lemma NoChildInNothing(indent: nat)
    ensures ChildIndent([], indent) == None
  {
  }

  lemma BlanksStayInBlock(lines: seq<string>, from: nat, i: nat, k: nat, indent: nat)
    requires from <= i <= k <= |lines| && InBlock(lines, from, i, indent) && forall j | i <= j < k :: Blank(lines[j])
    ensures InBlock(lines, from, k, indent)
  {
    hide LineIndent, IsDocumentSeparator, IsSkippable, Blank;
    forall j | i <= j < k ensures !IsDocumentSeparator(lines[j]) && IsSkippable(lines[j]) {
      BlankIsSkippable(lines[j]);
      if IsDocumentSeparator(lines[j]) { SeparatorIsAtColumnZero(lines[j]); }
    }
  }

  lemma {:induction false} ChildPastBlanks(lines: seq<string>, i: nat, k: nat, indent: nat)
    requires i <= k <= |lines| && forall j | i <= j < k :: Blank(lines[j])
    ensures ChildIndent(lines[i..], indent) == ChildIndent(lines[k..], indent)
    decreases k - i
  {
    hide LineIndent, IsDocumentSeparator, IsSkippable, Blank;
    if i < k {
      assert lines[i..][0] == lines[i] && lines[i..][1..] == lines[i + 1..];
      BlankIsSkippable(lines[i]);
      if IsDocumentSeparator(lines[i]) { SeparatorIsAtColumnZero(lines[i]); }
      ChildPastBlanks(lines, i + 1, k, indent);
    }
  }

  lemma {:induction false} TrimLeftAt(l: string, i: nat)
    requires i < |l| && !IsSpace(l[i]) && forall k | 0 <= k < i :: IsSpace(l[k])
    ensures TrimLeft(l, IsSpace) == l[i..]
  {
    if i > 0 {
      TrimLeftAt(l[1..], i - 1);
      assert l[1..][i - 1..] == l[i..];
    }
  }

  /** A line with content that starts neither a comment nor a directive is significant. */
  lemma Significant(l: string, i: nat)
    requires i < |l| && !IsSpace(l[i]) && l[i] !in {'#', '{'} && forall k | 0 <= k < i :: IsSpace(l[k])
    ensures !IsSkippable(l)
  {
    hide IsSpace;
    BlankIsAllSpace(l);
    TrimLeftAt(l, i);
    var t := TrimSpace(l);
    assert t <= l[i..];
    if t != "" { assert t[0] == l[i]; }
  }

  lemma SpecExample()
    ensures !IsDocumentSeparator("spec:") && !IsSkippable("spec:") && LineIndent("spec:") == 0
  {
    Significant("spec:", 0);
  }

  lemma SpecKeyExample()
    ensures IsKeyLine("spec:", "spec")
  {
    hide IsDocumentSeparator, IsSkippable;
    assert "spec" + ":" == "spec:";
  }

  lemma ChildExample()
    ensures !IsDocumentSeparator(" a:") && !IsSkippable(" a:") && LineIndent(" a:") == 1
  {
    assert " a:"[1..] == "a:";
    Significant(" a:", 1);
  }

  lemma ChildKeyExample()
    ensures LineIndent(" a:") == 1 && IsKeyLine(" a:", "a")
  {
    assert " a:"[1..] == "a:" && "a" + ":" == "a:";
  }

  lemma ChildValueExample()
    ensures ValueOn(" a:") == ""
  {
    var l := " a:";
    assert l[0] != ':' && l[1] != ':' && l[2..3] == ":";
    assert l[0..1][0] == l[0] && l[1..2][0] == l[1];
    IndexIsFirst(l, ":", 2);
    assert " a:"[3..] == "";
  }

  lemma CommentExample()
    ensures !IsDocumentSeparator("#") && IsSkippable("#") && !Blank("#") && LineIndent("#") == 0
  {
    assert TrimSpace("#") == "#";
  }

  lemma DeeperExample()
    ensures !IsDocumentSeparator("  b:") && !IsSkippable("  b:") && LineIndent("  b:") == 2
  {
    Significant("  b:", 2);
    DeeperIndentExample();
    NoSeparator("  b:");
  }

  lemma DeeperIndentExample()
    ensures LineIndent("  b:") == 2
  {
    assert "  b:"[1..] == " b:" && " b:"[1..] == "b:";
  }

  lemma NoSeparator(l: string)
    requires LineIndent(l) > 0
    ensures !IsDocumentSeparator(l)
  {
    hide Blank;
    if IsDocumentSeparator(l) { SeparatorIsAtColumnZero(l); }
  }

  lemma DeeperKeyExample()
    ensures IsKeyLine("  b:", "b")
  {
    hide LineIndent;
    DeeperIndentExample();
    assert "  b:"[2..] == "b:" && "b" + ":" == "b:";
  }

  /**
   A comment that is not indented ends a removed value early. What was under it is then
   read as the children of spec, and a second search removes from it.
   */
  lemma CommentCanLeaveField() returns (lines: seq<string>, fields: seq<Field>)
    ensures |lines| > 0 && Ordered(0, RemovedSpecFields(lines, 0, 0, fields), |lines|)
    ensures var kept := AfterRemoval(lines, 0, 0, fields);
            |kept| > 0 && RemovedSpecFields(kept, 0, 0, fields) != []
  {
    hide RemovedSpecFields;
    lines := ["v", "spec:", " a:", "#", "  b:"];
    fields := [Field("a", ""), Field("b", "")];
    var rs := ExampleRemovals(lines, fields);
    var kept := AfterRemoval(lines, 0, 0, fields);
    assert kept == lines[0..2] + lines[3..];
    ExampleLeft(kept, fields);
  }

  lemma ExampleRemovals(lines: seq<string>, fields: seq<Field>) returns (rs: seq<Removal>)
    requires lines == ["v", "spec:", " a:", "#", "  b:"] && fields == [Field("a", ""), Field("b", "")]
    ensures rs == [Removal("a", "", 2, 3)] == RemovedSpecFields(lines, 0, 0, fields)
  {
    hide IsDocumentSeparator, IsSkippable, LineIndent, IsKeyLine, Blank, ValueOn;
    SpecExample(); SpecKeyExample(); ChildExample(); ChildKeyExample(); ChildValueExample();
    CommentExample(); DeeperExample();
    rs := [Removal("a", "", 2, 3)];
    assert SpecLine(lines, 1, 0) == 1;
    assert ListedField(lines[2], fields) == Some(fields[0]);
    assert ValueEnd(lines, 2, 1) == 3;
    assert Removals(lines, 5, 0, Some(1), fields) == [];
    assert Removals(lines, 4, 0, Some(1), fields) == [];
    assert Removals(lines, 3, 0, Some(1), fields) == [];
    assert Removals(lines, 2, 0, None, fields) == rs;
  }

  lemma ExampleLeft(kept: seq<string>, fields: seq<Field>)
    requires kept == ["v", "spec:", "#", "  b:"] && fields == [Field("a", ""), Field("b", "")]
    ensures RemovedSpecFields(kept, 0, 0, fields) != []
  {
    hide IsDocumentSeparator, IsSkippable, LineIndent, IsKeyLine, Blank, ValueOn, ValueEnd;
    SpecExample(); SpecKeyExample(); CommentExample(); DeeperExample(); DeeperKeyExample();
    assert SpecLine(kept, 1, 0) == 1;
    assert fields[1] in fields;
    assert ListedField(kept[3], fields).Some?;
    assert Removals(kept, 3, 0, None, fields) != [];
    assert Removals(kept, 2, 0, None, fields) != [];
  }
}
