/**
 Words of a line: the first word after the first occurrence of a prefix, which is how the
 manifest migrator reads versions and kinds.
 */
module Words {
  import opened Options
  import opened Text

  /** The first word after the first occurrence of `prefix` in the line. */
  function WordAfter(l: string, prefix: string): Option<string> {
    var i := Index(l, prefix);
    if i == -1 then None else Some(FirstWord(TrimSpace(l[i + |prefix|..])))
  }

  // ---------- Occurrences ----------

  lemma OccursInPrefix(a: string, b: string, sub: string, i: nat)
    requires i + |sub| <= |a|
    ensures OccursAt(a + b, sub, i) <==> OccursAt(a, sub, i)
  {
    assert (a + b)[i..i + |sub|] == a[i..i + |sub|];
  }

  lemma OccursInSuffix(a: string, b: string, sub: string, i: nat)
    ensures OccursAt(a + b, sub, |a| + i) <==> OccursAt(b, sub, i)
  {
    if i + |sub| <= |b| {
      assert (a + b)[|a| + i..|a| + i + |sub|] == b[i..i + |sub|];
    }
  }

  /** A first occurrence that ends within `a` is the first in every continuation of `a`. */
  lemma FirstInPrefix(a: string, b: string, sub: string, i: nat)
    requires i + |sub| <= |a|
    ensures Index(a, sub) == i <==> Index(a + b, sub) == i
  {
    forall k: nat | k <= i ensures OccursAt(a + b, sub, k) <==> OccursAt(a, sub, k) {
      OccursInPrefix(a, b, sub, k);
    }
    if OccursAt(a, sub, i) && forall k | 0 <= k < i :: !OccursAt(a, sub, k) {
      IndexIsFirst(a, sub, i);
      IndexIsFirst(a + b, sub, i);
    }
  }

  // ---------- First words ----------

  /** What follows a word: nothing but white space, or a space character. */
  predicate EndsWord(tail: string) {
    AllSpace(tail) || tail[0] == ' '
  }

  /** A word, not empty, that is read when `tail` follows it. */
  predicate IsWordBefore(w: string, tail: string)
    requires w != ""
  {
    ' ' !in w && !IsSpace(w[0]) && EndsWord(tail) && (AllSpace(tail) ==> !IsSpace(w[|w| - 1]))
  }

  lemma {:induction false} FirstWordOf(w: string, tail: string)
    requires ' ' !in w && (tail == "" || tail[0] == ' ')
    ensures FirstWord(w + tail) == w
  {
    if w == "" {
      assert w + tail == tail;
    } else {
      assert (w + tail)[1..] == w[1..] + tail;
      FirstWordOf(w[1..], tail);
    }
  }

  lemma FirstWordOfPrefix(u: string, x: string)
    requires x == "" || x[0] == ' '
    ensures FirstWord(u + x) == FirstWord(u)
  {
    var w := FirstWord(u);
    assert u + x == w + (u[|w|..] + x);
    FirstWordOf(w, u[|w|..] + x);
  }

  lemma {:induction false} TrimLeftOfConcat(u: string, x: string)
    requires !AllSpace(u)
    ensures TrimLeft(u + x, IsSpace) == TrimLeft(u, IsSpace) + x
  {
    if u != "" && IsSpace(u[0]) {
      assert (u + x)[1..] == u[1..] + x;
      assert forall c :: c in u <==> c == u[0] || c in u[1..];
      TrimLeftOfConcat(u[1..], x);
    }
  }

  lemma {:induction false} TrimRightOfConcat(u: string, x: string)
    requires u != "" && !IsSpace(u[|u| - 1])
    ensures u <= TrimRight(u + x, IsSpace)
    ensures AllSpace(x) ==> TrimRight(u + x, IsSpace) == u
  {
    hide IsSpace;
    if x == "" {
      assert u + x == u;
    } else if IsSpace(x[|x| - 1]) {
      var y := x[..|x| - 1];
      assert (u + x)[..|u + x| - 1] == u + y;
      TrimRightOfConcat(u, y);
    } else {
      assert x[|x| - 1] in x;
    }
  }

  /** The first word before the end of `u` does not depend on what follows `u`. */
  lemma WordBefore(u: string, x: string)
    requires u != "" && !IsSpace(u[|u| - 1]) && EndsWord(x)
    ensures FirstWord(TrimSpace(u + x)) == FirstWord(TrimLeft(u, IsSpace))
  {
    hide IsSpace, TrimLeft, TrimRight, FirstWord, AllSpace;
    var v := TrimLeft(u, IsSpace);
    SpacedEnd(u);
    TrimLeftOfConcat(u, x);
    TrimRightOfConcat(v, x);
    TrimmedWord(v, x, TrimRight(v + x, IsSpace));
  }

  lemma SpacedEnd(u: string)
    requires u != "" && !IsSpace(u[|u| - 1])
    ensures !AllSpace(u)
    ensures var v := TrimLeft(u, IsSpace); v != "" && v[|v| - 1] == u[|u| - 1]
  {
    hide IsSpace;
    assert u[|u| - 1] in u;
  }

  lemma TrimmedWord(v: string, x: string, r: string)
    requires v <= r <= v + x && EndsWord(x) && (AllSpace(x) ==> r == v)
    ensures FirstWord(r) == FirstWord(v)
  {
    hide IsSpace, FirstWord;
    assert r == v + r[|v|..];
    if |r| > |v| { assert r[|v|] == x[0]; }
    FirstWordOfPrefix(v, r[|v|..]);
  }

  lemma {:induction false} TrimLeftOfSpaces(ws: string, w: string)
    requires AllSpace(ws) && w != "" && !IsSpace(w[0])
    ensures TrimLeft(ws + w, IsSpace) == w
  {
    if ws == "" {
      assert ws + w == w;
    } else {
      assert (ws + w)[1..] == ws[1..] + w;
      TrimLeftOfSpaces(ws[1..], w);
    }
  }

  /** Trimming takes away exactly the white space around. */
  lemma TrimSpaceOf(ws: string, v: string, tail: string)
    requires AllSpace(ws) && AllSpace(tail) && v != "" && !IsSpace(v[0]) && !IsSpace(v[|v| - 1])
    ensures TrimSpace(ws + v + tail) == v
  {
    hide IsSpace;
    assert ws + v + tail == ws + (v + tail);
    TrimLeftOfSpaces(ws, v + tail);
    TrimRightOfConcat(v, tail);
  }

  /** A word is read back from between white space. */
  lemma WordOf(ws: string, w: string, tail: string)
    requires AllSpace(ws) && w != "" && IsWordBefore(w, tail)
    ensures FirstWord(TrimSpace(ws + w + tail)) == w
  {
    hide IsSpace, TrimLeft, TrimRight, FirstWord;
    assert ws + w + tail == ws + (w + tail);
    TrimLeftOfSpaces(ws, w + tail);
    var r := TrimRight(w + tail, IsSpace);
    WordIsKept(w, tail, r);
    TrimmedWord(w, tail, r);
    FirstWordOf(w, "");
    assert w + "" == w;
  }

  lemma WordIsKept(w: string, tail: string, r: string)
    requires w != "" && IsWordBefore(w, tail)
    requires r <= w + tail && (forall i | |r| <= i < |w + tail| :: IsSpace((w + tail)[i]))
    requires r != "" ==> !IsSpace(r[|r| - 1])
    ensures w <= r && (AllSpace(tail) ==> r == w)
  {
    hide IsSpace;
    var s := w + tail;
    assert forall k | 0 <= k < |tail| :: s[|w| + k] == tail[k];
    if AllSpace(tail) {
      assert forall k | |w| <= k < |s| :: s[k] == tail[k - |w|] && tail[k - |w|] in tail && IsSpace(s[k]);
      assert s[|w| - 1] == w[|w| - 1];
      assert |r| == |w|;
    } else {
      var k :| 0 <= k < |tail| && !IsSpace(tail[k]);
      assert |r| > |w| + k;
    }
  }

  /** Where the first word of `s` stands. */
  lemma WordParts(s: string) returns (ws: string, w: string, tail: string)
    requires FirstWord(TrimSpace(s)) != ""
    ensures w == FirstWord(TrimSpace(s)) && s == ws + w + tail
    ensures AllSpace(ws) && IsWordBefore(w, tail)
  {
    hide IsSpace, TrimLeft, TrimRight, FirstWord, AllSpace, IsWordBefore;
    var t := TrimLeft(s, IsSpace);
    var r := TrimRight(t, IsSpace);
    w := FirstWord(r);
    ws, tail := PartsAround(s, t, r, w);
  }

  lemma PartsAround(s: string, t: string, r: string, w: string) returns (ws: string, tail: string)
    requires |t| <= |s| && t == s[|s| - |t|..] && (forall i | 0 <= i < |s| - |t| ::
        IsSpace(s[i])) && (t != "" ==> !IsSpace(t[0]))
    requires r <= t && (forall i | |r| <= i < |t| :: IsSpace(t[i])) && (r != "" ==> !IsSpace(r[|r| - 1]))
    requires w != "" && w <= r && ' ' !in w && (|w| < |r| ==> r[|w|] == ' ')
    ensures s == ws + w + tail && AllSpace(ws) && IsWordBefore(w, tail)
  {
    hide IsSpace, EndsWord;
    ws := s[..|s| - |t|];
    tail := t[|w|..];
    assert s == ws + t && t == w + tail;
    assert w[0] == t[0];
    TailEnds(t, r, w);
  }

  lemma TailEnds(t: string, r: string, w: string)
    requires w != "" && w <= r <= t && (|w| < |r| ==> r[|w|] == ' ') && forall i | |r| <= i < |t| :: IsSpace(t[i])
    requires !IsSpace(r[|r| - 1])
    ensures EndsWord(t[|w|..]) && (AllSpace(t[|w|..]) ==> !IsSpace(w[|w| - 1]))
  {
    if |w| < |r| {
      assert t[|w|] == r[|w|];
      assert t[|w|..][|r| - 1 - |w|] == r[|r| - 1];
    }
  }

  // ---------- What `WordAfter` reads ----------

  /**
   The first `prefix` of the line stands after `lead`; then there is white space, the word and
   `tail`. An empty word is read from nothing but white space.
   */
  ghost predicate ReadsBetween(l: string, prefix: string, lead: string, ws: string, w: string, tail: string) {
    && l == lead + prefix + ws + w + tail
    && OccursFirstAtEnd(lead, prefix)
    && AllSpace(ws) && (if w == "" then tail == "" else IsWordBefore(w, tail))
  }

  /** `prefix` occurs in `lead + prefix` at the end only. */
  ghost predicate OccursFirstAtEnd(lead: string, prefix: string) {
    forall k | 0 <= k < |lead| :: !OccursAt(lead + prefix, prefix, k)
  }

  ghost predicate ReadsWord(l: string, prefix: string, lead: string, w: string) {
    exists ws, tail :: ReadsBetween(l, prefix, lead, ws, w, tail)
  }

  ghost predicate ReadsSomewhere(l: string, prefix: string, w: string) {
    exists lead :: ReadsWord(l, prefix, lead, w)
  }

  lemma FirstAtEnd(lead: string, prefix: string, rest: string)
    ensures OccursFirstAtEnd(lead, prefix) <==> Index(lead + prefix + rest, prefix) == |lead|
  {
    FirstInPrefix(lead + prefix, rest, prefix, |lead|);
    if OccursFirstAtEnd(lead, prefix) { IndexIsFirst(lead + prefix, prefix, |lead|); }
  }

  /** The word that the search, the trimming and the splitting give is the one that stands there. */
  lemma WordAfterExactly(l: string, prefix: string, lead: string, w: string)
    ensures WordAfter(l, prefix) == Some(w) && lead == l[..Index(l, prefix)] <==> ReadsWord(l, prefix, lead, w)
  {
    hide IsSpace, TrimSpace, FirstWord, AllSpace, IsWordBefore, Index, OccursFirstAtEnd;
    var i := Index(l, prefix);
    if i >= 0 && lead == l[..i] && WordAfter(l, prefix) == Some(w) {
      var rest := l[i + |prefix|..];
      assert l == lead + prefix + rest;
      FirstAtEnd(lead, prefix, rest);
      if w == "" {
        NoWord(rest);
        assert ReadsBetween(l, prefix, lead, rest, w, "");
      } else {
        var ws, w', tail := WordParts(rest);
        assert ReadsBetween(l, prefix, lead, ws, w, tail);
      }
    }
    if ws, tail :| ReadsBetween(l, prefix, lead, ws, w, tail) {
      ReadsBack(l, prefix, lead, ws, w, tail);
    }
  }

  lemma NoWord(s: string)
    ensures FirstWord(TrimSpace(s)) == "" <==> AllSpace(s)
  {
    BlankIsAllSpace(s);
    BlankTrimsToNothing(s);
    var t := TrimSpace(s);
    if t != "" { assert t[0] == TrimLeft(s, IsSpace)[0]; }
  }

  lemma ReadsBack(l: string, prefix: string, lead: string, ws: string, w: string, tail: string)
    requires ReadsBetween(l, prefix, lead, ws, w, tail)
    ensures WordAfter(l, prefix) == Some(w) && lead == l[..Index(l, prefix)]
  {
    hide IsSpace, TrimSpace, FirstWord, AllSpace, IsWordBefore, Index, OccursFirstAtEnd;
    var rest := ws + w + tail;
    assert l == lead + prefix + rest;
    FirstAtEnd(lead, prefix, rest);
    assert l[|lead| + |prefix|..] == rest;
    if w == "" {
      assert rest == ws;
      NoWord(rest);
    } else {
      WordOf(ws, w, tail);
    }
  }
}
