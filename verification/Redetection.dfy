/**
 What the detection reports on a migrated file: what it reads from a line whose was version
 was replaced, and which lines it reports again.
 */
module Redetection {
  import opened Options
  import opened Text
  import opened Words
  import opened FieldRemoval
  import opened FileMigration

  // ---------- The version token of an apiVersion line ----------

  /** A version as the tables list them: not empty, with no white space, slash or colon. */
  predicate IsPlainVersion(v: string) {
    v != "" && (forall c <- v :: !IsSpace(c)) && '/' !in v && ':' !in v
  }

  predicate HasVersion(l: string) {
    ParseApiVersion(l).Some? && ParseApiVersion(l).value.1 != ""
  }

  /** Where the version token of an apiVersion line starts. */
  function VersionColumn(l: string): (column: nat)
    requires HasVersion(l)
    ensures column + |ParseApiVersion(l).value.1| <= |l|
  {
    var start := Index(l, API_VERSION) + |API_VERSION|;
    var rest := l[start..];
    start + |rest| - |TrimLeft(rest, IsSpace)| + |FirstWord(TrimSpace(rest))| - |ParseApiVersion(l).value.1|
  }

  /**
   An apiVersion line taken apart around its version token: `group` is empty or ends with
   its slash, and the first "apiVersion: " of the line is the one after `lead`.
   */
  datatype VersionLine = VersionLine(lead: string, ws: string, group: string, version: string, after: string) {

    function Stem(): string {
      lead + API_VERSION + ws
    }

    function Before(): string {
      Stem() + group
    }

    function Line(): string {
      Stem() + (group + version) + after
    }

    function Group(): string {
      if group == "" then "" else group[..|group| - 1]
    }

    ghost predicate Valid() {
      && version != "" && '/' !in version
      && (group != "" ==> group[|group| - 1] == '/' && '/' !in Group())
      && ReadsBetween(Line(), API_VERSION, lead, ws, group + version, after)
    }
  }

  /** Every line with a version is a `VersionLine`. */
  lemma TakeApart(l: string) returns (d: VersionLine)
    requires HasVersion(l)
    ensures d.Valid() && d.Line() == l && |d.Before()| == VersionColumn(l)
    ensures ParseApiVersion(l) == Some((d.Group(), d.version))
  {
    hide IsSpace, TrimSpace, FirstWord, AllSpace, ParseGroupVersion, IsWordBefore, Index, OccursFirstAtEnd;
    var (group, version) := ParseApiVersion(l).value;
    var lead, w := l[..Index(l, API_VERSION)], WordAfter(l, API_VERSION).value;
    WordAfterExactly(l, API_VERSION, lead, w);
    var ws, after :| ReadsBetween(l, API_VERSION, lead, ws, w, after);
    ParseExactly(w, group, version);
    var g := if w == group + "/" + version then group + "/" else "";
    d := VersionLine(lead, ws, g, version, after);
    assert w == g + version && l == d.Line();
    ParsesBack(d);
  }

  /** What the detection reads from a `VersionLine`. */
  lemma ParsesBack(d: VersionLine)
    requires d.Valid()
    ensures ParseApiVersion(d.Line()) == Some((d.Group(), d.version))
    ensures VersionColumn(d.Line()) == |d.Before()|
    ensures Index(d.Line(), API_VERSION) == |d.lead|
  {
    hide IsSpace, TrimSpace, FirstWord, AllSpace, ParseGroupVersion, Index, OccursFirstAtEnd;
    var l, w := d.Line(), d.group + d.version;
    ReadsBack(l, API_VERSION, d.lead, d.ws, w, d.after);
    assert d.group != "" ==> d.group == d.Group() + "/";
    ParsesWhatItNames(w, d.Group(), d.version);
    assert l == d.lead + API_VERSION + (d.ws + (w + d.after));
    FirstAtEnd(d.lead, API_VERSION, d.ws + (w + d.after));
    assert l[|d.lead| + |API_VERSION|..] == d.ws + (w + d.after);
    TrimLeftOfSpaces(d.ws, w + d.after);
  }

  lemma LineAround(d: VersionLine)
    ensures d.Line() == d.Before() + (d.version + d.after) == d.Before() + d.version + d.after
  {
  }

  /** With another version it is still one. */
  lemma OtherVersionIsValid(d: VersionLine, v: string)
    requires d.Valid() && IsPlainVersion(v)
    ensures d.(version := v).Valid()
  {
    hide IsSpace, OccursFirstAtEnd;
    SpaceIsSpace();
    var w := d.group + v;
    assert v[0] in v && v[|v| - 1] in v && w[|w| - 1] == v[|v| - 1];
    assert w[0] == if d.group == "" then v[0] else (d.group + d.version)[0];
    assert ' ' !in w by { assert forall c <- d.group :: c in d.group + d.version; }
  }

  lemma SpaceIsSpace()
    ensures IsSpace(' ')
  {
  }

  /** With its version token replaced a line parses to the same group and the new version. */
  lemma ParsesToNewVersion(d: VersionLine, v: string)
    requires d.Valid() && IsPlainVersion(v)
    ensures ParseApiVersion(d.(version := v).Line()) == Some((d.Group(), v))
  {
    OtherVersionIsValid(d, v);
    ParsesBack(d.(version := v));
  }

  // ---------- What is replaced ----------

  /** The first occurrence of the version is the version token. */
  predicate HitsToken(l: string)
    requires HasVersion(l)
  {
    Index(l, ParseApiVersion(l).value.1) == VersionColumn(l)
  }

  /** The first occurrence of the version lies within the group, which ends before the slash. */
  predicate HitsGroup(l: string)
    requires HasVersion(l)
  {
    var (group, version) := ParseApiVersion(l).value;
    VersionColumn(l) - 1 - |group| <= Index(l, version) && Index(l, version) + |version| < VersionColumn(l)
  }

  lemma ReplacesToken(d: VersionLine, v: string)
    requires Index(d.Line(), d.version) == |d.Before()|
    ensures ReplaceFirst(d.Line(), d.version, v) == d.(version := v).Line()
  {
    hide Index;
    LineAround(d);
    LineAround(d.(version := v));
    var l, i := d.Line(), |d.Before()|;
    assert l[..i] == d.Before() && l[i + |d.version|..] == d.after;
  }

  lemma BeforeEndsToken(d: VersionLine)
    requires d.Valid()
    ensures var a := d.Before(); a != "" && (a[|a| - 1] == '/' || IsSpace(a[|a| - 1]))
  {
    hide OccursFirstAtEnd, IsWordBefore;
    if d.group == "" { StemEndsWithSpace(d.lead, d.ws); }
  }

  lemma StemEndsWithSpace(lead: string, ws: string)
    requires AllSpace(ws)
    ensures var a := lead + API_VERSION + ws; IsSpace(a[|a| - 1])
  {
    if ws != "" {
      assert ws[|ws| - 1] in ws;
    } else {
      assert API_VERSION[11] == ' ';
    }
  }

  /** The replacement gives the line with the new version if and only if the token occurs first. */
  lemma ReplacesTokenExactly(l: string, v: string)
    requires HasVersion(l) && IsPlainVersion(v) && IsPlainVersion(ParseApiVersion(l).value.1)
    requires v != ParseApiVersion(l).value.1
    ensures var was, b := ParseApiVersion(l).value.1, VersionColumn(l);
            b + |was| <= |l| && (ReplaceFirst(l, was, v) == l[..b] + v + l[b + |was|..] <==> HitsToken(l))
  {
    hide IsSpace, ParseApiVersion, VersionColumn, Index, IsPlainVersion, ReplaceFirst;
    var d := TakeApart(l);
    LineAround(d);
    assert l[..|d.Before()|] == d.Before() && l[|d.Before()| + |d.version|..] == d.after;
    TokenOrOther(d, v);
  }

  lemma TokenOrOther(d: VersionLine, v: string)
    requires d.Valid() && IsPlainVersion(v) && IsPlainVersion(d.version) && v != d.version
    ensures ReplaceFirst(d.Line(), d.version, v) == d.Before() + v + d.after
            <==> Index(d.Line(), d.version) == |d.Before()|
  {
    hide IsSpace, Index, OccursFirstAtEnd, IsWordBefore, AllSpace;
    var a, was := d.Before(), d.version;
    LineAround(d);
    LineAround(d.(version := v));
    OccursInSuffix(a, was + d.after, was, 0);
    assert (was + d.after)[..|was|] == was;
    var i := Index(d.Line(), was);
    if i < |a| {
      BeforeEndsToken(d);
      OtherPlaceShows(a, was, d.after, v, i);
    } else {
      ReplacesToken(d, v);
    }
  }

  lemma OtherPlaceShows(a: string, was: string, after: string, v: string, i: nat)
    requires a != "" && a[|a| - 1] !in was && a[|a| - 1] !in v && was != "" && v != "" && v != was
    requires i < |a| && OccursAt(a + (was + after), was, i)
    ensures var l := a + (was + after); l[..i] + v + l[i + |was|..] != a + v + after
  {
    var l, c := a + (was + after), a[|a| - 1];
    var x, y := l[..i] + v + l[i + |was|..], a + v + after;
    assert l[i..i + |was|] == was;
    assert l[|a| - 1] == c;
    assert forall k | i <= k < i + |was| :: l[k] == was[k - i] && l[k] != c;
    assert i + |was| < |a|;
    var n := |a| - 1;
    if |v| > |was| {
      assert x[n + |v| - |was|] == c;
      assert y[n + |v| - |was|] == v[|v| - |was| - 1];
    } else if |v| < |was| {
      assert x[n] == l[n - |v| + |was|] == was[|was| - |v| - 1];
      assert y[n] == c;
    } else {
      assert x[i..i + |v|] == v && y[i..i + |v|] == l[i..i + |v|];
    }
  }

  /**
   On a line of an object at the top level there are only two places, for a version that is
   neither a dash nor a part of the word "apiVersion:".
   */
  lemma TopLevelHits(l: string)
    requires HasVersion(l) && IsTopLevel(l[..Index(l, API_VERSION)])
    requires var was := ParseApiVersion(l).value.1;
             (forall c <- was :: !IsSpace(c)) && was != "-" && Index("apiVersion:", was) == -1
    ensures HitsToken(l) || HitsGroup(l)
  {
    hide IsSpace, ParseApiVersion, VersionColumn, Index, IsTopLevel;
    var d := TakeApart(l);
    ParsesBack(d);
    TopLevelExactly(d.lead);
    LineAround(d);
    assert l[..|d.lead|] == d.lead;
    var a, was := d.Before(), d.version;
    OccursInSuffix(a, was + d.after, was, 0);
    assert (was + d.after)[..|was|] == was;
    var i := Index(l, was);
    if i < |a| { StandsInGroup(d, i); }
  }

  lemma StandsInGroup(d: VersionLine, i: nat)
    requires d.Valid() && (d.lead == "" || IsListItem(d.lead)) && i < |d.Before()| && OccursAt(d.Line(), d.version, i)
    requires (forall c <- d.version :: !IsSpace(c)) && d.version != "-" && Index("apiVersion:", d.version) == -1
    ensures |d.Stem()| <= i && i + |d.version| < |d.Before()|
  {
    hide IsSpace, Index, IsListItem, AllSpace;
    hide VersionLine.Valid, VersionLine.Line, VersionLine.Before, VersionLine.Stem;
    ValidParts(d);
    var l, n, was := d.Line(), |d.version|, d.version;
    SpaceIsSpace();
    assert l[i..i + n] == was;
    assert forall k | i <= k < i + n :: l[k] == was[k - i] && was[k - i] in was && !IsSpace(l[k]) && l[k] != '/';
    if i < |d.lead| {
      NotInLead(d.lead, l, was, i);
    } else if i < |d.lead| + 12 {
      StandsInKey(l, |d.lead|, i, was);
    } else {
      NotInSpace(d, i);
    }
  }

  lemma ValidParts(d: VersionLine)
    requires d.Valid()
    ensures AllSpace(d.ws) && ' ' !in d.group + d.version && EndsWord(d.after)
    ensures d.version != "" && '/' !in d.version && (d.group != "" ==> d.group[|d.group| - 1] == '/')
    ensures d.lead <= d.Line() && |d.lead| + 12 <= |d.Line()|
    ensures forall k | |d.lead| <= k < |d.lead| + 12 :: d.Line()[k] == API_VERSION[k - |d.lead|]
  {
    hide OccursFirstAtEnd, IsSpace;
  }

  lemma NotInLead(lead: string, l: string, was: string, i: nat)
    requires IsListItem(lead) && lead <= l && i < |lead| && OccursAt(l, was, i)
    requires was != "" && forall c <- was :: !IsSpace(c)
    ensures was == "-"
  {
    SpaceIsSpace();
    var x := |lead|;
    assert l[i..i + |was|] == was;
    assert forall k | i <= k < i + |was| :: l[k] == was[k - i] && was[k - i] in was && l[k] != ' ';
    assert lead[x - 2..][0] == '-' && lead[x - 2..][1] == ' ';
    assert l[x - 2] == '-' && l[x - 1] == ' ' && forall k | 0 <= k < x - 2 :: l[k] == ' ';
    assert l[i] == was[0];
    assert i == x - 2 && |was| == 1;
  }

  lemma NotInSpace(d: VersionLine, i: nat)
    requires AllSpace(d.ws) && d.version != "" && |d.lead| + 12 <= i < |d.Before()|
    requires i + |d.version| <= |d.Line()| && (d.group != "" ==> d.group[|d.group| - 1] == '/')
    requires forall k | i <= k < i + |d.version| :: !IsSpace(d.Line()[k]) && d.Line()[k] != '/'
    ensures |d.Stem()| <= i && i + |d.version| < |d.Before()|
  {
    hide IsSpace;
    var l, x := d.Line(), |d.lead|;
    LineAround(d);
    assert forall k | x + 12 <= k < |d.Stem()| :: l[k] == d.ws[k - x - 12] && d.ws[k - x - 12] in d.ws && IsSpace(l[k]);
    assert !IsSpace(l[i]);
    assert |d.Stem()| <= i;
    assert l[|d.Before()| - 1] == d.group[|d.group| - 1] == '/';
  }

  lemma StandsInKey(l: string, x: nat, i: nat, was: string)
    requires x <= i < x + 12 && OccursAt(l, was, i) && was != "" && ' ' !in was && x + 12 <= |l|
    requires forall k | x <= k < x + 12 :: l[k] == API_VERSION[k - x]
    ensures Index("apiVersion:", was) != -1
  {
    hide Index;
    assert l[i..i + |was|] == was && API_VERSION[11] == ' ';
    assert forall k | i <= k < i + |was| :: l[k] == was[k - i] && l[k] != ' ';
    assert l[x + 11] == API_VERSION[11];
    assert i + |was| <= x + 11;
    assert API_VERSION == "apiVersion:" + " ";
    assert "apiVersion:"[i - x..i - x + |was|] == was;
    assert OccursAt("apiVersion:", was, i - x);
  }

  // ---------- The kind read from an apiVersion line ----------

  predicate EndsInKind(w: string) {
    |w| >= 5 && w[|w| - 5..] == "kind:"
  }

  /** Where a "kind: " of the line can stand: before the key, at the end of the word, or after it. */
  lemma KindPlaces(lead: string, ws: string, w: string, after: string, q: nat)
    requires AllSpace(ws) && w != "" && ' ' !in w && EndsWord(after)
    requires OccursAt(lead + API_VERSION + ws + w + after, KIND, q)
    ensures var n := |lead + API_VERSION + ws + w|;
            q + 6 <= |lead| || n <= q || (q + 5 == n && EndsInKind(w) && after != "" && after[0] == ' ')
  {
    hide IsSpace;
    KindHasNoSpace();
    var a := lead + API_VERSION + ws;
    var s, x, n := a + w + after, |lead|, |a| + |w|;
    assert forall k | x <= k < x + 12 :: s[k] == API_VERSION[k - x];
    if q < x + 12 {
      KindIsNotInKey(s, x, q);
    } else {
      assert s[q..q + 6] == KIND;
      assert s[q] == KIND[0] && s[q + 1] == KIND[1] && s[q + 2] == KIND[2];
      assert s[q + 3] == KIND[3] && s[q + 4] == KIND[4] && s[q + 5] == KIND[5];
      assert forall k | x + 12 <= k < |a| :: s[k] == ws[k - x - 12] && ws[k - x - 12] in ws && IsSpace(s[k]);
      assert forall k | |a| <= k < n :: s[k] == w[k - |a|] && s[k] != ' ';
      if after != "" { assert s[n] == after[0] && after[0] in after && IsSpace(after[0]); }
      assert q < n ==> q + 5 == n;
      if q < n { AtTheEnd(s, a, w, after, q); }
    }
  }

  lemma AtTheEnd(s: string, a: string, w: string, after: string, q: nat)
    requires s == a + w + after && |a| <= q && q + 5 == |a| + |w| && OccursAt(s, KIND, q)
    ensures EndsInKind(w) && after != "" && after[0] == ' '
  {
    assert s[q..q + 6] == KIND && KIND == "kind:" + " ";
    assert forall j | 0 <= j < 6 :: s[q + j] == KIND[j];
    assert w[|w| - 5..] == "kind:" by {
      assert forall j | 0 <= j < 5 :: w[|w| - 5..][j] == s[q + j] == KIND[j] == "kind:"[j];
    }
    assert after[0] == s[q + 5];
  }

  lemma KindHasNoSpace()
    ensures forall k | 0 <= k < 5 :: !IsSpace(KIND[k])
    ensures IsSpace(' ') && KIND == ['k', 'i', 'n', 'd', ':', ' ']
  {
  }

  lemma KindIsNotInKey(s: string, x: nat, q: nat)
    requires OccursAt(s, KIND, q) && q < x + 12 <= |s|
    requires forall k | x <= k < x + 12 :: s[k] == API_VERSION[k - x]
    ensures q + 6 <= x
  {
    assert s[q..q + 6] == KIND;
    assert forall j | 0 <= j < 6 :: s[q + j] == KIND[j] && KIND[j] != 'a';
    assert forall k | x <= k < x + 12 :: s[k] == API_VERSION[k - x] && s[k] != 'k';
    assert s[x] == 'a' && s[q] == 'k';
  }

  /** The kind read from a line depends on its word only by the question whether it ends in "kind:". */
  function KindOf(lead: string, w: string, after: string): Option<string> {
    if Index(lead, KIND) != -1 then
      Some(FirstWord(TrimLeft(lead[Index(lead, KIND) + |KIND|..] + "apiVersion:", IsSpace)))
    else if EndsInKind(w) && after != "" && after[0] == ' ' then Some(FirstWord(TrimSpace(after[1..])))
    else WordAfter(after, KIND)
  }

  lemma KindIsRead(lead: string, ws: string, w: string, after: string)
    requires AllSpace(ws) && w != "" && ' ' !in w && EndsWord(after)
    ensures var l := lead + API_VERSION + ws + w + after;
            && WordAfter(l, KIND) == KindOf(lead, w, after)
            && (Index(l, KIND) + 5 == |l| - |after| <==>
                  Index(lead, KIND) == -1 && EndsInKind(w) && after != "" && after[0] == ' ')
  {
    hide IsSpace, AllSpace, TrimSpace, FirstWord, EndsWord, EndsInKind, Index, KindsAt, WordAfter, TrimLeft;
    var s, atEnd := lead + API_VERSION + ws + w, EndsInKind(w) && after != "" && after[0] == ' ';
    AllKindPlaces(lead, ws, w, after);
    LeadAndRest(lead, ws, w, after);
    if Index(lead, KIND) != -1 {
      KindInLead(lead, ws + w + after);
    } else {
      KindNotInLead(lead, API_VERSION + ws + w + after, |s|, atEnd);
      if atEnd {
        KindAtTheEnd(lead + API_VERSION + ws, w, after);
      } else {
        KindIsReadAfter(s, after);
      }
    }
  }

  lemma LeadAndRest(lead: string, ws: string, w: string, after: string)
    ensures var l := lead + API_VERSION + ws + w + after;
            l == lead + API_VERSION + (ws + w + after) == lead + (API_VERSION + ws + w + after)
  {
  }

  /** No "kind: " begins in `l` between `m` and `n`, but for the one that ends in the column `n`. */
  ghost predicate KindsAt(l: string, m: nat, n: nat, atEnd: bool) {
    forall q: nat | OccursAt(l, KIND, q) :: q + 6 <= m || n <= q || (q + 5 == n && atEnd)
  }

  lemma AllKindPlaces(lead: string, ws: string, w: string, after: string)
    requires AllSpace(ws) && w != "" && ' ' !in w && EndsWord(after)
    ensures KindsAt(lead + API_VERSION + ws + w + after, |lead|, |lead + API_VERSION + ws + w|,
                    EndsInKind(w) && after != "" && after[0] == ' ')
  {
    hide EndsWord, EndsInKind;
    forall q: nat | OccursAt(lead + API_VERSION + ws + w + after, KIND, q)
      ensures var n := |lead + API_VERSION + ws + w|;
              q + 6 <= |lead| || n <= q || (q + 5 == n && EndsInKind(w) && after != "" && after[0] == ' ')
    {
      KindPlaces(lead, ws, w, after, q);
    }
  }

  lemma KindInLead(lead: string, rest: string)
    requires Index(lead, KIND) != -1
    ensures var l := lead + API_VERSION + rest;
            && WordAfter(l, KIND)
               == Some(FirstWord(TrimLeft(lead[Index(lead, KIND) + |KIND|..] + "apiVersion:", IsSpace)))
            && Index(l, KIND) + 6 <= |lead|
  {
    hide TrimSpace, FirstWord, TrimLeft;
    var p := Index(lead, KIND);
    assert lead + API_VERSION + rest == lead + (API_VERSION + rest);
    forall q: nat | q <= p ensures OccursAt(lead + (API_VERSION + rest), KIND, q) <==> OccursAt(lead, KIND, q) {
      OccursInPrefix(lead, API_VERSION + rest, KIND, q);
    }
    IndexIsFirst(lead + (API_VERSION + rest), KIND, p);
    WordInLead(lead, rest, p + |KIND|);
  }

  lemma KindNotInLead(lead: string, rest: string, n: nat, atEnd: bool)
    requires Index(lead, KIND) == -1 && KindsAt(lead + rest, |lead|, n, atEnd)
    ensures KindsAt(lead + rest, 0, n, atEnd)
  {
    forall q: nat | OccursAt(lead + rest, KIND, q) ensures n <= q || (q + 5 == n && atEnd) {
      if q + 6 <= |lead| { OccursInPrefix(lead, rest, KIND, q); }
    }
  }

  lemma KindAtTheEnd(a: string, w: string, after: string)
    requires EndsInKind(w) && after != "" && after[0] == ' '
    requires KindsAt(a + w + after, 0, |a + w|, true)
    ensures Index(a + w + after, KIND) + 5 == |a + w|
    ensures WordAfter(a + w + after, KIND) == Some(FirstWord(TrimSpace(after[1..])))
  {
    hide FirstWord, TrimSpace;
    var l, q := a + w + after, |a + w| - 5;
    assert l[q..q + 6] == w[|w| - 5..] + after[..1];
    assert KIND == "kind:" + " ";
    IndexIsFirst(l, KIND, q);
    assert l[q + 6..] == after[1..];
  }

  lemma RestAfter(s: string, after: string, k: nat)
    requires k <= |after|
    ensures (s + after)[|s| + k..] == after[k..]
  {
  }

  lemma KindIsReadAfter(s: string, after: string)
    requires KindsAt(s + after, 0, |s|, false)
    ensures WordAfter(s + after, KIND) == WordAfter(after, KIND)
    ensures Index(s + after, KIND) == -1 || Index(s + after, KIND) >= |s|
  {
    hide FirstWord, TrimSpace;
    var l, j := s + after, Index(after, KIND);
    forall k: nat ensures OccursAt(l, KIND, |s| + k) <==> OccursAt(after, KIND, k) {
      OccursInSuffix(s, after, KIND, k);
    }
    if j == -1 {
      forall q: nat ensures !OccursAt(l, KIND, q) {
        if q >= |s| { assert OccursAt(l, KIND, |s| + (q - |s|)) <==> OccursAt(after, KIND, q - |s|); }
      }
    } else {
      forall q: nat | q < |s| + j ensures !OccursAt(l, KIND, q) {
        if q >= |s| { assert OccursAt(l, KIND, |s| + (q - |s|)) <==> OccursAt(after, KIND, q - |s|); }
      }
      IndexIsFirst(l, KIND, |s| + j);
      RestAfter(s, after, j + |KIND|);
    }
  }

  /** A word that starts in the lead ends there or with the colon of "apiVersion:". */
  lemma WordInLead(lead: string, rest: string, k: nat)
    requires k <= |lead|
    ensures FirstWord(TrimSpace((lead + API_VERSION + rest)[k..]))
            == FirstWord(TrimLeft(lead[k..] + "apiVersion:", IsSpace))
  {
    hide IsSpace, TrimSpace, FirstWord;
    var u := lead[k..] + "apiVersion:";
    var x := " " + rest;
    assert API_VERSION == "apiVersion:" + " ";
    assert (lead + API_VERSION + rest)[k..] == u + x;
    assert u[|u| - 1] == ':' && !IsSpace(':') by { ColonIsNotSpace(); }
    WordBefore(u, x);
  }

  lemma ColonIsNotSpace()
    ensures !IsSpace(':')
  {
  }
  // ---------- What is read from a rewritten line ----------

  /** The group and version of a line whose version was replaced by `v`. */
  function RewrittenVersion(l: string, v: string): (string, string)
    requires HasVersion(l)
  {
    var (group, version) := ParseApiVersion(l).value;
    if HitsToken(l) then (group, v) else (ReplaceFirst(group, version, v), version)
  }

  /** The kind: a "kind: " whose colon ends the version token is lost with it, and the search goes on after it. */
  function RewrittenKind(l: string): Option<string>
    requires HasVersion(l)
  {
    var end := VersionColumn(l) + |ParseApiVersion(l).value.1|;
    if HitsToken(l) && Index(l, KIND) + 5 == end then WordAfter(l[end..], KIND) else WordAfter(l, KIND)
  }

  lemma RewritingReads(l: string, v: string)
    requires HasVersion(l) && IsPlainVersion(v) && (HitsToken(l) || HitsGroup(l))
    ensures var m := ReplaceFirst(l, ParseApiVersion(l).value.1, v);
            ParseApiVersion(m) == Some(RewrittenVersion(l, v)) && WordAfter(m, KIND) == RewrittenKind(l)
  {
    hide IsSpace, ParseApiVersion, VersionColumn, Index, IsPlainVersion, ReplaceFirst, WordAfter;
    hide VersionLine.Valid, VersionLine.Line, VersionLine.Before;
    var d := TakeApart(l);
    ParsesBack(d);
    if HitsToken(l) {
      TokenReads(d, v);
    } else {
      GroupLength(d);
      GroupReads(d, Index(l, d.version) - |d.Stem()|, v);
    }
  }

  lemma GroupLength(d: VersionLine)
    requires d.Valid()
    ensures |d.Before()| == |d.Stem()| + |d.group| && |d.group| <= |d.Group()| + 1
  {
  }

  lemma TokenReads(d: VersionLine, v: string)
    requires d.Valid() && IsPlainVersion(v) && Index(d.Line(), d.version) == |d.Before()|
    ensures var l, m, end := d.Line(), ReplaceFirst(d.Line(), d.version, v), |d.Before()| + |d.version|;
            && ParseApiVersion(m) == Some((d.Group(), v)) && end <= |l|
            && WordAfter(m, KIND) == if Index(l, KIND) + 5 == end then WordAfter(l[end..], KIND) else WordAfter(l, KIND)
  {
    hide IsSpace, ParseApiVersion, Index, IsPlainVersion, ReplaceFirst, WordAfter, ReadsBetween;
    ReplacesToken(d, v);
    ParsesToNewVersion(d, v);
    ValidParts(d);
    ValidParts(d.(version := v)) by { OtherVersionIsValid(d, v); }
    KindIsRead(d.lead, d.ws, d.group + d.version, d.after);
    KindIsRead(d.lead, d.ws, d.group + v, d.after);
    PlainDoesNotEndInKind(d.group, v);
    assert d.Line()[|d.Before()| + |d.version|..] == d.after;
  }

  lemma PlainDoesNotEndInKind(group: string, v: string)
    requires IsPlainVersion(v)
    ensures !EndsInKind(group + v)
  {
    var w := group + v;
    assert w[|w| - 1] == v[|v| - 1] && v[|v| - 1] in v;
    if |w| >= 5 { assert w[|w| - 5..][4] == w[|w| - 1]; }
  }

  /** When the first occurrence lies in the group, the group is rewritten; version and kind are left as they were. */
  lemma GroupReads(d: VersionLine, k: nat, v: string)
    requires d.Valid() && IsPlainVersion(v) && k + |d.version| <= |d.Group()|
    requires Index(d.Line(), d.version) == |d.Stem()| + k
    ensures var m := ReplaceFirst(d.Line(), d.version, v);
            && ParseApiVersion(m) == Some((ReplaceFirst(d.Group(), d.version, v), d.version))
            && WordAfter(m, KIND) == WordAfter(d.Line(), KIND)
  {
    hide IsSpace, ParseApiVersion, Index, IsPlainVersion, ReplaceFirst, WordAfter, ReadsBetween;
    var g := d.Group()[..k] + v + d.Group()[k + |d.version|..];
    var e := d.(group := g + "/");
    OtherGroupIsValid(d, k, v, e);
    RewritesGroup(d, k, v, e);
    ParsesBack(e);
    OtherGroupKeepsKind(d, e.group);
  }

  lemma OtherGroupKeepsKind(d: VersionLine, group: string)
    requires d.Valid() && d.(group := group).Valid() && d.group != "" && group != ""
    requires d.group[|d.group| - 1] == '/' && group[|group| - 1] == '/'
    ensures WordAfter(d.(group := group).Line(), KIND) == WordAfter(d.Line(), KIND)
  {
    hide IsSpace, Index, WordAfter, ReadsBetween, EndsInKind, KindOf, VersionLine.Valid;
    var e := d.(group := group);
    ValidParts(d);
    ValidParts(e);
    KindIsRead(d.lead, d.ws, d.group + d.version, d.after);
    KindIsRead(e.lead, e.ws, e.group + e.version, e.after);
    EndsWithVersion(d.group, e.group, d.version);
    OnlyEndMatters(d.lead, d.group + d.version, e.group + e.version, d.after);
  }

  lemma OnlyEndMatters(lead: string, w: string, x: string, after: string)
    requires EndsInKind(w) <==> EndsInKind(x)
    ensures KindOf(lead, w, after) == KindOf(lead, x, after)
  {
  }

  /** Whether a word with a slash ends in "kind:" depends on what follows the slash. */
  lemma EndsWithVersion(a: string, b: string, version: string)
    requires a != "" && a[|a| - 1] == '/' && b != "" && b[|b| - 1] == '/'
    ensures EndsInKind(a + version) <==> EndsInKind(b + version)
  {
    OnlyVersionEnds(a, version);
    OnlyVersionEnds(b, version);
  }

  lemma OnlyVersionEnds(a: string, version: string)
    requires a != "" ==> a[|a| - 1] == '/'
    ensures EndsInKind(a + version) <==> EndsInKind(version)
  {
    var w := a + version;
    if |version| >= 5 {
      assert w[|w| - 5..] == version[|version| - 5..];
    } else if |w| >= 5 {
      assert w[|w| - 5..][4 - |version|] == '/';
      assert "kind:"[4 - |version|] != '/' by { assert forall j | 0 <= j < 5 :: "kind:"[j] != '/'; }
    }
  }

  lemma OtherGroupIsValid(d: VersionLine, k: nat, v: string, e: VersionLine)
    requires d.Valid() && IsPlainVersion(v) && k + |d.version| <= |d.Group()|
    requires e == d.(group := d.Group()[..k] + v + d.Group()[k + |d.version|..] + "/")
    ensures e.Valid()
  {
    hide IsSpace, OccursFirstAtEnd;
    var g, w := d.Group(), e.group + e.version;
    SpaceIsSpace();
    assert v[0] in v;
    assert d.group == g + "/" && forall c <- d.group + d.version :: c != ' ';
    assert e.Group() == g[..k] + v + g[k + |d.version|..];
    assert w[0] == if k == 0 then v[0] else (d.group + d.version)[0];
    assert w[|w| - 1] == (d.group + d.version)[|d.group + d.version| - 1];
    assert ' ' !in e.group by { assert ' ' !in v && ' ' !in g; }
  }

  lemma RewritesGroup(d: VersionLine, k: nat, v: string, e: VersionLine)
    requires d.Valid() && k + |d.version| <= |d.Group()|
    requires Index(d.Line(), d.version) == |d.Stem()| + k
    requires e == d.(group := d.Group()[..k] + v + d.Group()[k + |d.version|..] + "/")
    ensures ReplaceFirst(d.Line(), d.version, v) == e.Line()
    ensures ReplaceFirst(d.Group(), d.version, v) == e.Group()
  {
    hide IsSpace, Index, AllSpace, ReplaceFirst, ReadsBetween;
    var g := d.Group();
    LineAroundGroup(d);
    LineAroundGroup(e);
    assert e.Group() == g[..k] + v + g[k + |d.version|..];
    ReplaceInMiddle(d.Stem(), g, "/" + d.version + d.after, d.version, v, k);
  }

  lemma LineAroundGroup(d: VersionLine)
    requires d.group != "" && d.group[|d.group| - 1] == '/'
    ensures d.Line() == d.Stem() + d.Group() + ("/" + d.version + d.after)
  {
    assert d.group == d.Group() + "/";
  }

  lemma ReplaceInMiddle(head: string, g: string, tail: string, target: string, v: string, k: nat)
    requires k + |target| <= |g| && Index(head + g + tail, target) == |head| + k
    ensures ReplaceFirst(head + g + tail, target, v) == head + (g[..k] + v + g[k + |target|..]) + tail
    ensures ReplaceFirst(g, target, v) == g[..k] + v + g[k + |target|..]
  {
    hide Index;
    var l := head + g + tail;
    FirstInMiddle(head, g, tail, target, k);
    assert l[..|head| + k] == head + g[..k];
    assert l[|head| + k + |target|..] == g[k + |target|..] + tail;
  }

  lemma FirstInMiddle(head: string, g: string, tail: string, target: string, k: nat)
    requires k + |target| <= |g| && Index(head + g + tail, target) == |head| + k
    ensures Index(g, target) == k
  {
    hide Index;
    var l := head + g + tail;
    forall q: nat | q + |target| <= |g| ensures OccursAt(l, target, |head| + q) <==> OccursAt(g, target, q) {
      assert l[|head| + q..|head| + q + |target|] == g[q..q + |target|];
    }
    IndexIsFirst(g, target, k);
  }

  // ---------- Empty versions ----------

  /**
   An empty old version is "replaced" at the start of the line, so that the same group and the
   empty version are read from it again.
   */
  lemma EmptyVersionStays(l: string, v: string)
    requires IsPlainVersion(v) && ParseApiVersion(l).Some? && ParseApiVersion(l).value.1 == ""
    requires IsTopLevel(l[..Index(l, API_VERSION)])
    ensures ParseApiVersion(ReplaceFirst(l, "", v)) == ParseApiVersion(l)
  {
    hide IsSpace, TrimSpace, FirstWord, ParseGroupVersion, IsTopLevel, Index, ReplaceFirst;
    var i := Index(l, API_VERSION);
    assert l == l[..i] + (API_VERSION + l[i + |API_VERSION|..]);
    EmptyIsReplacedInFront(l, v);
    FrontKeepsColumn(l, v);
    assert (v + l)[|v| + i + |API_VERSION|..] == l[i + |API_VERSION|..];
  }

  /** The kind read from the line stays too. */
  lemma EmptyVersionKeepsKind(l: string, v: string)
    requires IsPlainVersion(v) && Index(l, API_VERSION) >= 0 && IsTopLevel(l[..Index(l, API_VERSION)])
    ensures WordAfter(ReplaceFirst(l, "", v), KIND) == WordAfter(l, KIND)
  {
    hide IsSpace, TrimSpace, FirstWord, IsTopLevel, Index, ReplaceFirst;
    var lead := l[..Index(l, API_VERSION)];
    EmptyIsReplacedInFront(l, v);
    TopLevelExactly(lead);
    SpaceIsSpace();
    FirstOfLine(l, lead);
    NoKindStraddles(v, l);
    var j := Index(l, KIND);
    forall k: nat ensures OccursAt(v + l, KIND, |v| + k) <==> OccursAt(l, KIND, k) { OccursInSuffix(v, l, KIND, k); }
    if j == -1 {
      NoneBehind(v, l);
    } else {
      forall q: nat | q < |v| + j ensures !OccursAt(v + l, KIND, q) {
        if q >= |v| { assert OccursAt(v + l, KIND, |v| + (q - |v|)) <==> OccursAt(l, KIND, q - |v|); }
      }
      IndexIsFirst(v + l, KIND, |v| + j);
      RestAfter(v, l, j + |KIND|);
    }
  }

  lemma NoneBehind(v: string, l: string)
    requires Index(l, KIND) == -1 && forall q: nat | q < |v| :: !OccursAt(v + l, KIND, q)
    ensures Index(v + l, KIND) == -1
  {
    forall q: nat ensures !OccursAt(v + l, KIND, q) {
      if q >= |v| { OccursInSuffix(v, l, KIND, q - |v|); }
    }
  }

  lemma FirstOfLine(l: string, lead: string)
    requires Index(l, API_VERSION) == |lead| && lead <= l && (lead == "" || IsListItem(lead))
    ensures l != "" && l[0] in {'a', ' ', '-'}
  {
    hide Index;
    if lead == "" {
      assert l[0..12][0] == API_VERSION[0];
    } else {
      assert lead[|lead| - 2..][0] == '-';
      assert l[0] == lead[0];
    }
  }

  lemma NoKindStraddles(v: string, l: string)
    requires ':' !in v && l != "" && l[0] in {'a', ' ', '-'}
    ensures forall q: nat | q < |v| :: !OccursAt(v + l, KIND, q)
  {
    var s := v + l;
    assert forall k | 0 <= k < |v| :: s[k] == v[k] && s[k] != ':';
    assert s[|v|] == l[0];
    forall q: nat | q < |v| ensures !OccursAt(s, KIND, q) {
      if q + 6 <= |s| {
        assert s[q..q + 6][4] == s[q + 4];
        assert forall j | 1 <= j < 5 :: KIND[j] !in {'a', ' ', '-'};
        if q + 4 >= |v| { assert s[q..q + 6][|v| - q] == s[|v|]; }
      }
    }
  }

  lemma EmptyIsReplacedInFront(l: string, v: string)
    ensures ReplaceFirst(l, "", v) == v + l
  {
    assert OccursAt(l, "", 0);
  }

  lemma FrontKeepsColumn(l: string, v: string)
    requires IsPlainVersion(v) && Index(l, API_VERSION) >= 0 && IsTopLevel(l[..Index(l, API_VERSION)])
    ensures Index(v + l, API_VERSION) == |v| + Index(l, API_VERSION)
  {
    hide IsSpace, IsTopLevel, Index;
    var i := Index(l, API_VERSION);
    var lead, rest := l[..i], l[i + |API_VERSION|..];
    assert l == lead + (API_VERSION + rest);
    TopLevelExactly(lead);
    SpaceIsSpace();
    forall q | 0 <= q < |v| + i ensures !OccursAt(v + l, API_VERSION, q) {
      if q < |v| {
        NoPrefixStraddles(v, lead, API_VERSION + rest, q);
      } else {
        OccursInSuffix(v, l, API_VERSION, q - |v|);
      }
    }
    OccursInSuffix(v, l, API_VERSION, i);
    IndexIsFirst(v + l, API_VERSION, |v| + i);
  }

  lemma NoPrefixStraddles(v: string, lead: string, rest: string, q: nat)
    requires q < |v| && ' ' !in v && ':' !in v && (lead == "" || IsListItem(lead)) && rest != "" && rest[0] == 'a'
    ensures !OccursAt(v + (lead + rest), API_VERSION, q)
  {
    var s := v + (lead + rest);
    assert forall k | 0 <= k < |v| :: s[k] == v[k] && s[k] != ' ' && s[k] != ':';
    assert s[|v|] == if lead == "" then 'a' else lead[0];
    if lead != "" { assert lead[|lead| - 2..][0] == '-'; assert lead[0] == ' ' || lead[0] == '-'; }
    assert forall k | 1 <= k < 11 :: API_VERSION[k] !in {'a', ' ', '-'};
    if q + 12 <= |s| {
      assert s[q..q + 12][10] == s[q + 10];
      if q + 10 >= |v| { assert s[q..q + 12][|v| - q] == s[|v|]; }
    }
  }

  // ---------- Which lines are reported again ----------

  /**
   What the tables and the line must satisfy: the new version is plain, and the old one is replaced
   in the word, or it is empty and the object is at the top level.
   */
  predicate IsRegular(l: string, u: Upgrade) {
    && IsPlainVersion(u.newVersion)
    && if HasVersion(l) then HitsToken(l) || HitsGroup(l)
       else Index(l, API_VERSION) >= 0 && IsTopLevel(l[..Index(l, API_VERSION)])
  }

  function UpgradeOn(us: seq<Upgrade>, i: nat): (u: Option<Upgrade>)
    ensures u.Some? ==> u.value in us && u.value.line == i
    ensures u.None? ==> forall v <- us :: v.line != i
  {
    if us == [] then None else if us[0].line == i then Some(us[0]) else UpgradeOn(us[1..], i)
  }

  /** What the detection will read from the line `i` after the migration, by what stands in it before. */
  function VersionAfter(lines: seq<string>, us: seq<Upgrade>, i: nat): Option<(string, string)>
    requires i < |lines|
  {
    var u := UpgradeOn(us, i);
    if u.Some? && HasVersion(lines[i]) then Some(RewrittenVersion(lines[i], u.value.newVersion))
    else ParseApiVersion(lines[i])
  }

  function KindAfter(lines: seq<string>, us: seq<Upgrade>, i: nat): Option<string>
    requires i < |lines|
  {
    if UpgradeOn(us, i).Some? && HasVersion(lines[i]) then RewrittenKind(lines[i]) else WordAfter(lines[i], KIND)
  }

  predicate IsOutdated(tables: Tables, gv: Option<(string, string)>, kind: Option<string>) {
    && gv.Some? && kind.Some?
    && (gv.value.0, kind.value) in tables.latest && tables.latest[(gv.value.0, kind.value)] != gv.value.1
  }

  /** The first line from `i` on that is kept, or `n`. */
  function NextKept(removed: set<nat>, n: nat, i: nat): (j: nat)
    ensures i <= j && (i <= n ==> j <= n)
    ensures j < n ==> j !in removed
    ensures forall k | i <= k < j && k < n :: k in removed
    decreases n - i
  {
    if i >= n || i !in removed then i else NextKept(removed, n, i + 1)
  }

  /**
   The line `i` will be reported: it is kept, and with the line that follows it when the ranges are
   deleted it makes an object with an outdated version.
   */
  ghost predicate IsReported(lines: seq<string>, us: seq<Upgrade>, tables: Tables, i: nat) {
    var removed := RemovedLines(us, |lines|);
    && i < |lines| && i !in removed
    && var j := NextKept(removed, |lines|, i + 1);
       j < |lines| && IsOutdated(tables, VersionAfter(lines, us, i), KindAfter(lines, us, j))
  }

  /** Every line after the rewriting. */
  lemma LineAfter(lines: seq<string>, us: seq<Upgrade>, tables: Tables, i: nat)
    requires us == DetectFrom(lines, 0, tables) && i < |lines|
    requires forall u <- us :: u.line < |lines| && IsRegular(lines[u.line], u)
    ensures ParseApiVersion(ApplyUpgrades(lines, us)[i]) == VersionAfter(lines, us, i)
    ensures WordAfter(ApplyUpgrades(lines, us)[i], KIND) == KindAfter(lines, us, i)
  {
    hide ReplaceFirst, ParseApiVersion, WordAfter, HitsToken, HitsGroup, IsPlainVersion, DetectAt;
    hide RewrittenVersion, RewrittenKind, ApplyUpgrades, Index, IsTopLevel;
    DetectedExactly(lines, 0, tables);
    AppliedAt(lines, us, i);
    var u := UpgradeOn(us, i);
    if u.Some? {
      OldVersionIsRead(lines, i, tables, u.value);
      if HasVersion(lines[i]) {
        RewritingReads(lines[i], u.value.newVersion);
      } else {
        EmptyVersionStays(lines[i], u.value.newVersion);
        EmptyVersionKeepsKind(lines[i], u.value.newVersion);
      }
    }
  }

  lemma OldVersionIsRead(lines: seq<string>, i: nat, tables: Tables, u: Upgrade)
    requires i < |lines| && DetectAt(lines, i, tables) == Some(u)
    ensures ParseApiVersion(lines[i]).Some? && ParseApiVersion(lines[i]).value.1 == u.oldVersion
  {
    hide ParseApiVersion, WordAfter;
  }

  /** The lines `p` and `p + 1` make an object with an outdated version. */
  predicate Follows(ls: seq<string>, tables: Tables, p: nat) {
    p + 1 < |ls| && IsOutdated(tables, ParseApiVersion(ls[p]), WordAfter(ls[p + 1], KIND))
  }

  lemma DetectsExactly(ls: seq<string>, tables: Tables)
    ensures DetectFrom(ls, 0, tables) != [] <==> SomeFollows(ls, tables)
  {
    hide ParseApiVersion, WordAfter, DetectFrom, DetectAt;
    DetectedExactly(ls, 0, tables);
    var us := DetectFrom(ls, 0, tables);
    forall p: nat | p < |ls| ensures DetectAt(ls, p, tables).Some? <==> Follows(ls, tables, p) {
      DetectAtFollows(ls, p, tables);
    }
    if us != [] {
      assert us[0] in us;
      assert Follows(ls, tables, us[0].line);
    }
  }

  lemma DetectAtFollows(ls: seq<string>, p: nat, tables: Tables)
    requires p < |ls|
    ensures DetectAt(ls, p, tables).Some? <==> Follows(ls, tables, p)
  {
    hide ParseApiVersion, WordAfter;
  }

  /** As `Follows`, for the line `a` and the one that follows it among the kept lines. */
  predicate FollowsKept(ls: seq<string>, removed: set<nat>, tables: Tables, a: nat) {
    && a < |ls| && a !in removed
    && var j := NextKept(removed, |ls|, a + 1);
       j < |ls| && IsOutdated(tables, ParseApiVersion(ls[a]), WordAfter(ls[j], KIND))
  }

  lemma {:induction false} FirstKeptLine(ls: seq<string>, i: nat, removed: set<nat>)
    requires i <= |ls|
    ensures var j, kept := NextKept(removed, |ls|, i), KeepFrom(ls, i, removed);
            if j < |ls| then kept != [] && kept[0] == ls[j] else kept == []
    decreases |ls| - i
  {
    if i < |ls| && i in removed { FirstKeptLine(ls, i + 1, removed); }
  }

  ghost predicate SomeFollows(ls: seq<string>, tables: Tables) {
    exists p: nat :: Follows(ls, tables, p)
  }

  ghost predicate SomeKeptFollows(ls: seq<string>, i: nat, removed: set<nat>, tables: Tables) {
    exists a: nat :: i <= a && FollowsKept(ls, removed, tables, a)
  }

  lemma {:induction false} KeptFollows(ls: seq<string>, i: nat, removed: set<nat>, tables: Tables)
    requires i <= |ls|
    ensures SomeFollows(KeepFrom(ls, i, removed), tables) <==> SomeKeptFollows(ls, i, removed, tables)
    decreases |ls| - i
  {
    hide IsOutdated, ParseApiVersion, WordAfter, SomeFollows, SomeKeptFollows;
    if i == |ls| {
      NoneFollow(ls, removed, tables);
    } else {
      KeptFollows(ls, i + 1, removed, tables);
      OneMoreLine(ls, i, removed, tables);
      var rest := KeepFrom(ls, i + 1, removed);
      if i in removed {
        assert KeepFrom(ls, i, removed) == rest;
      } else {
        FirstKeptLine(ls, i + 1, removed);
        ShiftFollows(ls[i], rest, tables);
        assert Follows([ls[i]] + rest, tables, 0) <==> FollowsKept(ls, removed, tables, i);
      }
    }
  }

  lemma NoneFollow(ls: seq<string>, removed: set<nat>, tables: Tables)
    ensures !SomeFollows([], tables) && !SomeKeptFollows(ls, |ls|, removed, tables)
  {
  }

  lemma OneMoreLine(ls: seq<string>, i: nat, removed: set<nat>, tables: Tables)
    requires i < |ls|
    ensures SomeKeptFollows(ls, i, removed, tables)
            <==> FollowsKept(ls, removed, tables, i) || SomeKeptFollows(ls, i + 1, removed, tables)
    ensures i in removed ==> !FollowsKept(ls, removed, tables, i)
  {
    hide IsOutdated, ParseApiVersion, WordAfter;
    if a: nat :| i <= a && FollowsKept(ls, removed, tables, a) {
      assert a == i || i + 1 <= a;
    }
  }

  lemma ShiftFollows(l: string, rest: seq<string>, tables: Tables)
    ensures SomeFollows([l] + rest, tables) <==> Follows([l] + rest, tables, 0) || SomeFollows(rest, tables)
  {
    hide IsOutdated, ParseApiVersion, WordAfter;
    if p: nat :| Follows([l] + rest, tables, p) {
      if p > 0 { assert Follows(rest, tables, p - 1); }
    }
    if p: nat :| Follows(rest, tables, p) { assert Follows([l] + rest, tables, p + 1); }
  }

  /**
   Re-running the detection on the new content of a migrated file reports something if and only
   if some line will be reported by what the old content and the ranges say.
   */
  lemma RedetectionExactly(content: string, tables: Tables)
    requires forall u <- DetectFrom(Split(content), 0, tables) ::
               u.line < |Split(content)| && IsRegular(Split(content)[u.line], u)
    ensures var us := DetectFrom(Split(content), 0, tables);
            DetectFrom(Split(Migrated(content, us)), 0, tables) != []
            <==> exists i: nat :: IsReported(Split(content), us, tables, i)
  {
    hide DetectFrom, Split, Migrated, ApplyUpgrades, IsRegular, RemovedLines, NextKept, KeepFrom;
    hide IsReported, FollowsKept, Follows, SomeFollows;
    var lines := Split(content);
    var us := DetectFrom(lines, 0, tables);
    var after := ApplyUpgrades(lines, us);
    var removed := RemovedLines(us, |lines|);
    SplitOfMigrated(content, us, tables);
    DetectsExactly(Kept(after, us), tables);
    KeptFollows(after, 0, removed, tables);
    assert Kept(after, us) == KeepFrom(after, 0, removed);
    forall i: nat ensures IsReported(lines, us, tables, i) <==> FollowsKept(after, removed, tables, i) {
      ReportedFollows(lines, us, tables, i);
    }
    assert SomeKeptFollows(after, 0, removed, tables) <==> exists i: nat :: IsReported(lines, us, tables, i);
  }

  lemma ReportedFollows(lines: seq<string>, us: seq<Upgrade>, tables: Tables, i: nat)
    requires us == DetectFrom(lines, 0, tables)
    requires forall u <- us :: u.line < |lines| && IsRegular(lines[u.line], u)
    ensures IsReported(lines, us, tables, i)
            <==> FollowsKept(ApplyUpgrades(lines, us), RemovedLines(us, |lines|), tables, i)
  {
    hide DetectFrom, ApplyUpgrades, IsRegular, RemovedLines, NextKept, VersionAfter, KindAfter;
    hide IsOutdated, ParseApiVersion, WordAfter;
    if i < |lines| {
      LineAfter(lines, us, tables, i);
      var j := NextKept(RemovedLines(us, |lines|), |lines|, i + 1);
      if j < |lines| { LineAfter(lines, us, tables, j); }
    }
  }

  /** What the detection sees are the kept lines; if there are none, nothing. */
  lemma SplitOfMigrated(content: string, us: seq<Upgrade>, tables: Tables)
    requires forall u <- us :: u.line < |Split(content)| && IsRegular(Split(content)[u.line], u)
    ensures var kept := Kept(ApplyUpgrades(Split(content), us), us);
            DetectFrom(Split(Migrated(content, us)), 0, tables) == DetectFrom(kept, 0, tables)
  {
    hide DetectFrom, Split, ApplyUpgrades, HitsToken, HitsGroup, ParseApiVersion, RemovedLines;
    var lines := Split(content);
    var after := ApplyUpgrades(lines, us);
    var kept := Kept(after, us);
    forall u <- us ensures '\n' !in u.newVersion { NewLineIsSpace(); }
    NoNewBreaks(lines, us);
    KeptIsOfLines(after, 0, RemovedLines(us, |lines|));
    if kept == [] {
      NothingInEmptyText(tables);
    } else {
      SplitJoin(kept);
    }
  }

  lemma NothingInEmptyText(tables: Tables)
    ensures DetectFrom(Split(""), 0, tables) == DetectFrom([], 0, tables)
  {
  }

  lemma NewLineIsSpace()
    ensures IsSpace('\n')
  {
  }

  lemma {:induction false} KeptIsOfLines(ls: seq<string>, i: nat, removed: set<nat>)
    requires i <= |ls|
    ensures forall l <- KeepFrom(ls, i, removed) :: l in ls
    decreases |ls| - i
  {
    if i < |ls| { KeptIsOfLines(ls, i + 1, removed); }
  }

  // ---------- What that means ----------

  /** No range begins right after a line that can be read as an apiVersion. */
  predicate GapsAreSafe(lines: seq<string>, us: seq<Upgrade>) {
    forall u <- us :: forall r <- u.removals :: 0 < r.line <= |lines| ==> ParseApiVersion(lines[r.line - 1]).None?
  }

  /**
   The old version is empty, or it is replaced in the group and the tables list the rewritten group
   with the kind at another version.
   */
  predicate StaysOutdated(l: string, u: Upgrade, tables: Tables) {
    && ParseApiVersion(l).Some?
    && (HasVersion(l) ==>
          && HitsGroup(l)
          && var group := ReplaceFirst(ParseApiVersion(l).value.0, u.oldVersion, u.newVersion);
             IsOutdated(tables, Some((group, u.oldVersion)), Some(u.kind)))
  }

  /**
   Given that no old version ends in "kind:" and no range begins right after an apiVersion line, a
   migrated file is reported again exactly for the kept lines of upgrades that stay outdated.
   */
  lemma StaysOutdatedExactly(content: string, tables: Tables)
    requires var us := DetectFrom(Split(content), 0, tables);
             && GapsAreSafe(Split(content), us)
             && forall u <- us ::
                  u.line < |Split(content)| && IsRegular(Split(content)[u.line], u) && !EndsInKind(u.oldVersion)
    ensures var lines, us := Split(content), DetectFrom(Split(content), 0, tables);
            DetectFrom(Split(Migrated(content, us)), 0, tables) != []
            <==> exists u <- us :: !IsRemoved(us, u.line) && StaysOutdated(lines[u.line], u, tables)
  {
    hide DetectFrom, Split, Migrated, IsRegular, GapsAreSafe, IsReported, IsRemoved, StaysOutdated;
    hide EndsInKind, DetectAt;
    var lines := Split(content);
    var us := DetectFrom(lines, 0, tables);
    RedetectionExactly(content, tables);
    DetectedExactly(lines, 0, tables);
    forall i: nat ensures IsReported(lines, us, tables, i)
      <==> i < |lines| && !IsRemoved(us, i) && UpgradeOn(us, i).Some?
           && StaysOutdated(lines[i], UpgradeOn(us, i).value, tables)
    {
      ReportedIsGroup(lines, us, tables, i);
    }
    if u :| u in us && !IsRemoved(us, u.line) && StaysOutdated(lines[u.line], u, tables) {
      assert UpgradeOn(us, u.line) == Some(u) by { OneUpgradeOnLine(us, u); }
      assert IsReported(lines, us, tables, u.line);
    }
  }

  lemma OneUpgradeOnLine(us: seq<Upgrade>, u: Upgrade)
    requires u in us && forall j, k | 0 <= j < k < |us| :: us[j].line < us[k].line
    ensures UpgradeOn(us, u.line) == Some(u)
  {
  }
  lemma ReportedIsGroup(lines: seq<string>, us: seq<Upgrade>, tables: Tables, i: nat)
    requires us == DetectFrom(lines, 0, tables) && GapsAreSafe(lines, us)
    requires forall u <- us :: u.line < |lines| && IsRegular(lines[u.line], u) && !EndsInKind(u.oldVersion)
    ensures IsReported(lines, us, tables, i)
            <==> i < |lines| && !IsRemoved(us, i) && UpgradeOn(us, i).Some?
                 && StaysOutdated(lines[i], UpgradeOn(us, i).value, tables)
  {
    hide DetectFrom, IsRegular, GapsAreSafe, EndsInKind, DetectAt, IsRemoved, StaysOutdated;
    hide VersionAfter, KindAfter, NextKept, RemovedLines, ParseApiVersion, IsOutdated, UpgradeOn, WordAfter;
    if i < |lines| {
      NextLine(us, |lines|, i);
      DetectedOn(lines, us, tables, i);
      if !IsRemoved(us, i) {
        if i + 1 < |lines| && IsRemoved(us, i + 1) {
          GapIsSafe(lines, us, i);
          NoVersionAfter(lines, us, tables, i);
        } else if i + 1 < |lines| {
          KindStays(lines, us, tables, i + 1);
          NextAfter(lines, us, i, tables);
        }
      }
    }
  }

  lemma DetectedOn(lines: seq<string>, us: seq<Upgrade>, tables: Tables, i: nat)
    requires us == DetectFrom(lines, 0, tables) && i < |lines|
    ensures DetectAt(lines, i, tables) == UpgradeOn(us, i)
    ensures UpgradeOn(us, i).Some? ==> UpgradeOn(us, i).value in us && UpgradeOn(us, i).value.line == i
    ensures UpgradeOn(us, i).Some? ==> i + 1 < |lines|
  {
    hide DetectFrom, DetectAt;
    DetectedExactly(lines, 0, tables);
  }

  lemma NextLine(us: seq<Upgrade>, n: nat, i: nat)
    requires i < n
    ensures var j := NextKept(RemovedLines(us, n), n, i + 1); i + 1 < n && !IsRemoved(us, i + 1) ==> j == i + 1
    ensures i in RemovedLines(us, n) <==> IsRemoved(us, i)
  {
    hide IsRemoved;
  }

  lemma GapIsSafe(lines: seq<string>, us: seq<Upgrade>, i: nat)
    requires GapsAreSafe(lines, us) && i < |lines| && !IsRemoved(us, i) && IsRemoved(us, i + 1)
    ensures ParseApiVersion(lines[i]).None?
  {
    hide ParseApiVersion;
    var u :| u in us && Covers(u.removals, i + 1);
    var r :| r in u.removals && r.line <= i + 1 < r.endLine;
    assert !Covers(u.removals, i);
    assert r.line == i + 1;
  }

  lemma NoVersionAfter(lines: seq<string>, us: seq<Upgrade>, tables: Tables, i: nat)
    requires i < |lines| && ParseApiVersion(lines[i]).None?
    ensures forall kind :: !IsOutdated(tables, VersionAfter(lines, us, i), kind)
    ensures forall u :: !StaysOutdated(lines[i], u, tables)
  {
    hide ParseApiVersion;
  }

  /** Only an old version that ends in "kind:" can take part in a "kind: ". */
  lemma RewrittenKindStays(l: string)
    requires HasVersion(l) && !EndsInKind(ParseApiVersion(l).value.1)
    ensures RewrittenKind(l) == WordAfter(l, KIND)
  {
    hide ParseApiVersion, WordAfter, VersionColumn, Index, VersionLine.Valid, EndsInKind;
    var d := TakeApart(l);
    ValidParts(d);
    KindIsRead(d.lead, d.ws, d.group + d.version, d.after);
    OnlyVersionEnds(d.group, d.version);
  }

  lemma KindStays(lines: seq<string>, us: seq<Upgrade>, tables: Tables, j: nat)
    requires us == DetectFrom(lines, 0, tables) && j < |lines|
    requires forall u <- us :: u.line < |lines| && !EndsInKind(u.oldVersion)
    ensures KindAfter(lines, us, j) == WordAfter(lines[j], KIND)
  {
    hide ParseApiVersion, WordAfter, DetectFrom, DetectAt, RewrittenKind, EndsInKind;
    DetectedExactly(lines, 0, tables);
    var u := UpgradeOn(us, j);
    if u.Some? && HasVersion(lines[j]) {
      OldVersionIsRead(lines, j, tables, u.value);
      RewrittenKindStays(lines[j]);
    }
  }

  lemma NextAfter(lines: seq<string>, us: seq<Upgrade>, i: nat, tables: Tables)
    requires i + 1 < |lines| && DetectAt(lines, i, tables) == UpgradeOn(us, i)
    requires UpgradeOn(us, i).Some? ==> IsRegular(lines[i], UpgradeOn(us, i).value)
    ensures IsOutdated(tables, VersionAfter(lines, us, i), WordAfter(lines[i + 1], KIND))
            <==> UpgradeOn(us, i).Some? && StaysOutdated(lines[i], UpgradeOn(us, i).value, tables)
  {
    hide ParseApiVersion, WordAfter, VersionColumn, Index, ReplaceFirst, IsPlainVersion, RemovalsBelow;
  }

  /** When every version is replaced as the token, nothing is reported any more. */
  lemma NothingIsDetectedAfterMigration(content: string, tables: Tables)
    requires var us := DetectFrom(Split(content), 0, tables);
             && GapsAreSafe(Split(content), us)
             && forall u <- us :: u.line < |Split(content)| && TokenIsReplaced(Split(content)[u.line], u)
    ensures var us := DetectFrom(Split(content), 0, tables);
            DetectFrom(Split(Migrated(content, us)), 0, tables) == []
  {
    hide DetectFrom, Split, Migrated, GapsAreSafe, IsRemoved, EndsInKind, TokenIsReplaced, StaysOutdated, IsRegular;
    var lines := Split(content);
    forall u <- DetectFrom(lines, 0, tables)
      ensures IsRegular(lines[u.line], u) && !EndsInKind(u.oldVersion) && !StaysOutdated(lines[u.line], u, tables)
    {
      ReplacedIsCurrent(lines[u.line], u, tables);
    }
    StaysOutdatedExactly(content, tables);
  }

  predicate TokenIsReplaced(l: string, u: Upgrade) {
    HasVersion(l) && HitsToken(l) && IsPlainVersion(u.newVersion) && !EndsInKind(u.oldVersion)
  }

  lemma ReplacedIsCurrent(l: string, u: Upgrade, tables: Tables)
    requires TokenIsReplaced(l, u)
    ensures IsRegular(l, u) && !EndsInKind(u.oldVersion) && !StaysOutdated(l, u, tables)
  {
    hide ParseApiVersion, VersionColumn, Index, IsPlainVersion, EndsInKind;
  }
}
