/**
 The migration of a manifest file: detecting the objects with an outdated API version,
 and rewriting their version lines and deleting the lines of removed fields.
 */
module FileMigration {
  import opened Options
  import opened Text
  import opened Words
  import opened FieldRemoval

  datatype Upgrade = Upgrade(line: nat, kind: string, oldVersion: string, newVersion: string, removals: seq<Removal>)

  /**
   The latest version of each group and kind, and the spec fields that do not exist in a
   group, version and kind.
   */
  datatype Tables = Tables(latest: map<(string, string), string>, removed: map<(string, string, string), seq<Field>>)

  const API_VERSION := "apiVersion: "
  const KIND := "kind: "

  // ---------- Detection ----------

  /** `schema.ParseGroupVersion`: a group and a version, or None for an error. */
  function ParseGroupVersion(gv: string): Option<(string, string)> {
    if gv == "" || gv == "/" then Some(("", ""))
    else
      var i := Index(gv, "/");
      if i == -1 then Some(("", gv))
      else if '/' in gv[i + 1..] then None
      else Some((gv[..i], gv[i + 1..]))
  }

  function ParseApiVersion(l: string): Option<(string, string)> {
    var w := WordAfter(l, API_VERSION);
    if w.None? then None else ParseGroupVersion(w.value)
  }

  /** The object is at the top level of a document or in a list, by what precedes its apiVersion. */
  predicate IsTopLevel(prefix: string) {
    prefix == "" || TrimLeft(prefix, c => c == ' ') == "- "
  }

  /** Fields are removed from objects at the top level only. */
  function RemovalsBelow(lines: seq<string>, i: nat, lead: string, tables: Tables, key: (string, string, string))
    : seq<Removal>
    requires i < |lines|
  {
    if key in tables.removed && IsTopLevel(lead)
    then RemovedSpecFields(lines, i, |lead|, tables.removed[key]) else []
  }

  function DetectAt(lines: seq<string>, i: nat, tables: Tables): (u: Option<Upgrade>)
    requires i < |lines|
    ensures u.Some? ==> u.value.line == i && i + 1 < |lines|
  {
    var gv := ParseApiVersion(lines[i]);
    if gv.None? || i + 1 >= |lines| then None
    else
      var kind := WordAfter(lines[i + 1], KIND);
      if kind.None? then None
      else
        var (group, version) := gv.value;
        if (group, kind.value) !in tables.latest || tables.latest[(group, kind.value)] == version then None
        else
          var latest := tables.latest[(group, kind.value)];
          var lead := lines[i][..Index(lines[i], API_VERSION)];
          Some(Upgrade(i, kind.value, version, latest,
                       RemovalsBelow(lines, i, lead, tables, (group, latest, kind.value))))
  }

  // ---------- What an upgrade means ----------

  /** `w` is a version, or a group and a version around its only slash. */
  predicate NamesVersion(w: string, group: string, version: string) {
    '/' !in group && '/' !in version && (w == group + "/" + version || (group == "" && w == version))
  }

  lemma SlashAt(w: string, k: nat)
    requires k < |w|
    ensures OccursAt(w, "/", k) <==> w[k] == '/'
  {
    assert w[k..k + 1] == [w[k]];
  }

  lemma ParsesWhatItNames(w: string, group: string, version: string)
    requires NamesVersion(w, group, version)
    ensures ParseGroupVersion(w) == Some((group, version))
  {
    forall k | 0 <= k < |w| ensures OccursAt(w, "/", k) <==> w[k] == '/' { SlashAt(w, k); }
    if w == group + "/" + version {
      assert forall k | 0 <= k < |group| :: w[k] == group[k];
      IndexIsFirst(w, "/", |group|);
      assert w[..|group|] == group && w[|group| + 1..] == version;
    } else {
      assert forall k | 0 <= k < |w| :: w[k] == version[k];
      assert Index(w, "/") == -1;
    }
  }

  /** Parsing gives exactly the group and version that the word names. */
  lemma ParseExactly(w: string, group: string, version: string)
    ensures ParseGroupVersion(w) == Some((group, version)) <==> NamesVersion(w, group, version)
  {
    hide NamesVersion;
    if NamesVersion(w, group, version) { ParsesWhatItNames(w, group, version); }
    if ParseGroupVersion(w).Some? {
      var (g, v) := ParseGroupVersion(w).value;
      NamesWhatItParses(w, g, v);
    }
  }

  lemma NamesWhatItParses(w: string, group: string, version: string)
    requires ParseGroupVersion(w) == Some((group, version))
    ensures NamesVersion(w, group, version)
  {
    var i := Index(w, "/");
    if w == "/" {
      SlashAt(w, 0);
      assert w == "" + "/" + "";
    } else if i == -1 {
      forall k | 0 <= k < |w| ensures w[k] != '/' { assert !OccursAt(w, "/", k); SlashAt(w, k); }
    } else {
      forall k | 0 <= k < i ensures w[k] != '/' { assert !OccursAt(w, "/", k); SlashAt(w, k); }
      assert w == group + "/" + version by { SlashAt(w, i); }
    }
  }

  /** Nothing, or the dash of a list item with one space after it, before an apiVersion. */
  lemma TopLevelExactly(lead: string)
    ensures IsTopLevel(lead) <==> lead == "" || IsListItem(lead)
  {
    if IsListItem(lead) { assert lead[|lead| - 2] == lead[|lead| - 2..][0] == '-'; }
  }

  predicate IsListItem(lead: string) {
    |lead| >= 2 && lead[|lead| - 2..] == "- " && forall k | 0 <= k < |lead| - 2 :: lead[k] == ' '
  }

  /**
   The upgrade, by what stands in the lines: a group and an old version in the word after the
   line's first "apiVersion: ", the kind in the word after the next line's first "kind: ", and a
   table entry for group and kind with another version. When the key stands at the start of its
   line or of a list item, and the table lists fields that the new version dropped, the ranges are
   those of the fields in the spec at its column; otherwise there are none.
   */
  ghost predicate Describes(u: Upgrade, lines: seq<string>, tables: Tables, lead: string, w: string, group: string) {
    && u.line + 1 < |lines|
    && ReadsWord(lines[u.line], API_VERSION, lead, w) && NamesVersion(w, group, u.oldVersion)
    && ReadsSomewhere(lines[u.line + 1], KIND, u.kind)
    && (group, u.kind) in tables.latest && tables.latest[(group, u.kind)] == u.newVersion != u.oldVersion
    && var key := (group, u.newVersion, u.kind);
       u.removals == if (lead == "" || IsListItem(lead)) && key in tables.removed
                     then RemovedSpecFields(lines, u.line, |lead|, tables.removed[key]) else []
  }

  lemma SomewhereExactly(l: string, prefix: string, w: string)
    ensures WordAfter(l, prefix) == Some(w) <==> ReadsSomewhere(l, prefix, w)
  {
    hide ReadsWord, Index, FirstWord, TrimSpace;
    if WordAfter(l, prefix) == Some(w) { WordAfterExactly(l, prefix, l[..Index(l, prefix)], w); }
    if lead :| ReadsWord(l, prefix, lead, w) { WordAfterExactly(l, prefix, lead, w); }
  }

  /** The detection reports exactly the upgrades that the lines describe. */
  lemma DetectAtExactly(lines: seq<string>, i: nat, tables: Tables, u: Upgrade)
    requires i < |lines|
    ensures DetectAt(lines, i, tables) == Some(u) <==>
      u.line == i && exists lead, w, group :: Describes(u, lines, tables, lead, w, group)
  {
    hide ParseGroupVersion, NamesVersion, ReadsWord, Index, FirstWord, TrimSpace, RemovedSpecFields;
    hide IsTopLevel, IsListItem;
    var l := lines[i];
    if DetectAt(lines, i, tables) == Some(u) {
      var (group, version) := ParseApiVersion(l).value;
      var lead, w := l[..Index(l, API_VERSION)], WordAfter(l, API_VERSION).value;
      WordAfterExactly(l, API_VERSION, lead, w);
      SomewhereExactly(lines[i + 1], KIND, u.kind);
      ParseExactly(w, group, version);
      TopLevelExactly(lead);
      assert Describes(u, lines, tables, lead, w, group);
    }
    if lead, w, group :| u.line == i && Describes(u, lines, tables, lead, w, group) {
      WordAfterExactly(l, API_VERSION, lead, w);
      SomewhereExactly(lines[i + 1], KIND, u.kind);
      ParseExactly(w, group, u.oldVersion);
      TopLevelExactly(lead);
      assert ParseApiVersion(l) == Some((group, u.oldVersion));
    }
  }

  function DetectFrom(lines: seq<string>, i: nat, tables: Tables): seq<Upgrade>
    requires i <= |lines|
    decreases |lines| - i
  {
    if i == |lines| then []
    else
      var u := DetectAt(lines, i, tables);
      (if u.Some? then [u.value] else []) + DetectFrom(lines, i + 1, tables)
  }

  /** The upgrades are those of the single lines, in the order of the lines. */
  lemma {:induction false} DetectedExactly(lines: seq<string>, i: nat, tables: Tables)
    requires i <= |lines|
    ensures var us := DetectFrom(lines, i, tables);
            && (forall u <- us :: i <= u.line < |lines|)
            && (forall j, k | 0 <= j < k < |us| :: us[j].line < us[k].line)
            && (forall k | i <= k < |lines| && DetectAt(lines, k, tables).Some? ::
                  DetectAt(lines, k, tables).value in us)
            && forall u <- us :: DetectAt(lines, u.line, tables) == Some(u)
    decreases |lines| - i
  {
    hide DetectAt;
    if i < |lines| {
      DetectedExactly(lines, i + 1, tables);
      var u, rest := DetectAt(lines, i, tables), DetectFrom(lines, i + 1, tables);
      assert forall v :: v in DetectFrom(lines, i, tables) <==> v in rest || u == Some(v);
    }
  }

  /** The upgrades of a file, in the order of their lines. */
  method DetectFileUpgrades(content: string, tables: Tables) returns (upgrades: seq<Upgrade>)
    ensures upgrades == DetectFrom(Split(content), 0, tables)
  {
    hide DetectAt, ParseGroupVersion, FirstWord, TrimSpace, IsTopLevel;
    var lines := Split(content);
    upgrades := [];
    for line := 0 to |lines|
      invariant upgrades + DetectFrom(lines, line, tables) == DetectFrom(lines, 0, tables)
    {
      var u := DetectLine(lines, line, tables);
      if u.Some? {
        upgrades := upgrades + [u.value];
      }
    }
  }

  /** One round of the detection loop; None where the code continues with the next line. */
  method DetectLine(lines: seq<string>, line: nat, tables: Tables) returns (u: Option<Upgrade>)
    requires line < |lines|
    ensures u == DetectAt(lines, line, tables)
  {
    hide ParseGroupVersion, FirstWord, TrimSpace, IsTopLevel, RemovedSpecFields;
    var apiVersionLine := lines[line];
    var idx := Index(apiVersionLine, API_VERSION);
    if idx == -1 {
      return None;
    }
    var objectIndent := idx;
    var gv := ParseGroupVersion(FirstWord(TrimSpace(apiVersionLine[idx + |API_VERSION|..])));
    if gv.None? || line + 1 >= |lines| {
      return None;
    }
    var kindLine := lines[line + 1];
    idx := Index(kindLine, KIND);
    if idx == -1 {
      return None;
    }
    var kind := FirstWord(TrimSpace(kindLine[idx + |KIND|..]));
    var (group, version) := gv.value;
    if (group, kind) !in tables.latest || tables.latest[(group, kind)] == version {
      return None;
    }
    var latest := tables.latest[(group, kind)];
    var removals: seq<Removal> := [];
    if (group, latest, kind) in tables.removed && IsTopLevel(apiVersionLine[..objectIndent]) {
      removals := FindRemovedSpecFields(lines, line, objectIndent, tables.removed[(group, latest, kind)]);
    }
    return Some(Upgrade(line, kind, version, latest, removals));
  }

  // ---------- Rewriting ----------

  function ApplyUpgrades(lines: seq<string>, us: seq<Upgrade>): (r: seq<string>)
    requires forall u <- us :: u.line < |lines|
    ensures |r| == |lines|
    decreases |us|
  {
    if us == [] then lines
    else
      var u := us[0];
      ApplyUpgrades(lines[u.line := ReplaceFirst(lines[u.line], u.oldVersion, u.newVersion)], us[1..])
  }

  predicate Covers(removals: seq<Removal>, i: nat) {
    exists r <- removals :: r.line <= i < r.endLine
  }

  /** The lines that some removal of some upgrade covers. */
  predicate IsRemoved(us: seq<Upgrade>, i: nat) {
    exists u <- us :: Covers(u.removals, i)
  }

  function KeepFrom(lines: seq<string>, i: nat, removed: set<nat>): seq<string>
    requires i <= |lines|
    decreases |lines| - i
  {
    if i == |lines| then []
    else (if i in removed then [] else [lines[i]]) + KeepFrom(lines, i + 1, removed)
  }

  ghost function RemovedLines(us: seq<Upgrade>, n: nat): set<nat> {
    set i: nat | i < n && IsRemoved(us, i)
  }

  /** The lines of `lines` outside the removals, in order. */
  ghost function Kept(lines: seq<string>, us: seq<Upgrade>): seq<string> {
    KeepFrom(lines, 0, RemovedLines(us, |lines|))
  }

  /** What the file must hold after the migration. */
  ghost function Migrated(content: string, us: seq<Upgrade>): string
    requires forall u <- us :: u.line < |Split(content)|
  {
    Join(Kept(ApplyUpgrades(Split(content), us), us))
  }

  /** The new content of a file; the detection ran on the same content. */
  method MigrateFile(content: string, upgrades: seq<Upgrade>) returns (out: string)
    requires forall u <- upgrades :: u.line < |Split(content)|
    ensures out == Migrated(content, upgrades)
  {
    hide ReplaceFirst, Split, Join, IsRemoved;
    var lines := Split(content);
    var removed: set<nat> := {};
    RemovedByNone();
    assert upgrades[..0] == [] && upgrades[0..] == upgrades;
    for k := 0 to |upgrades|
      invariant |lines| == |Split(content)|
      invariant ApplyUpgrades(lines, upgrades[k..]) == ApplyUpgrades(Split(content), upgrades)
      invariant forall i: nat :: i in removed <==> IsRemoved(upgrades[..k], i)
    {
      var u := upgrades[k];
      lines := lines[u.line := ReplaceFirst(lines[u.line], u.oldVersion, u.newVersion)];
      removed := MarkRemovals(u.removals, removed);
      RemovedByOneMore(upgrades, k);
      assert upgrades[k..][0] == u && upgrades[k..][1..] == upgrades[k + 1..];
    }
    assert upgrades[..|upgrades|] == upgrades && upgrades[|upgrades|..] == [];
    MarkedIsKept(lines, upgrades, removed);
    if |removed| > 0 {
      lines := KeepLines(lines, removed);
    }
    out := Join(lines);
  }

  lemma RemovedByNone()
    ensures forall i: nat :: !IsRemoved([], i)
  {
  }

  lemma RemovedByOneMore(us: seq<Upgrade>, k: nat)
    requires k < |us|
    ensures forall i: nat ::
      IsRemoved(us[..k + 1], i) <==> IsRemoved(us[..k], i) || Covers(us[k].removals, i)
  {
    assert forall v :: v in us[..k + 1] <==> v in us[..k] || v == us[k];
  }

  lemma MarkedIsKept(lines: seq<string>, us: seq<Upgrade>, removed: set<nat>)
    requires forall i: nat :: i in removed <==> IsRemoved(us, i)
    ensures Kept(lines, us) == KeepFrom(lines, 0, removed)
    ensures removed == {} ==> Kept(lines, us) == lines
  {
    hide IsRemoved;
    SameKept(lines, 0, removed, RemovedLines(us, |lines|));
    if removed == {} {
      KeepAll(lines, 0, removed);
      assert lines[0..] == lines;
    }
  }

  /** The lines that are not marked, in order. */
  method KeepLines(lines: seq<string>, removed: set<nat>) returns (kept: seq<string>)
    ensures kept == KeepFrom(lines, 0, removed)
  {
    kept := [];
    for i := 0 to |lines|
      invariant kept + KeepFrom(lines, i, removed) == KeepFrom(lines, 0, removed)
    {
      if i !in removed {
        kept := kept + [lines[i]];
      }
    }
  }

  method MarkRemovals(removals: seq<Removal>, removed: set<nat>) returns (r: set<nat>)
    ensures forall i: nat :: i in r <==> i in removed || Covers(removals, i)
  {
    r := removed;
    for k := 0 to |removals|
      invariant forall i: nat :: i in r <==> i in removed || Covers(removals[..k], i)
    {
      var x := removals[k];
      if x.line < x.endLine {
        for i := x.line to x.endLine
          invariant forall j: nat ::
            j in r <==> j in removed || Covers(removals[..k], j) || x.line <= j < i
        {
          r := r + {i};
        }
      }
      CoversOneMore(removals, k);
    }
    assert removals[..|removals|] == removals;
  }

  lemma CoversOneMore(rs: seq<Removal>, k: nat)
    requires k < |rs|
    ensures forall i: nat :: Covers(rs[..k + 1], i) <==> Covers(rs[..k], i) || rs[k].line <= i < rs[k].endLine
  {
    assert rs[..k + 1][k] == rs[k];
    assert forall y :: y in rs[..k + 1] <==> y in rs[..k] || y == rs[k];
    forall i: nat ensures Covers(rs[..k + 1], i) <==> Covers(rs[..k], i) || rs[k].line <= i < rs[k].endLine {
      if Covers(rs[..k], i) {
        var y :| y in rs[..k] && y.line <= i < y.endLine;
        assert y in rs[..k + 1];
      }
      if rs[k].line <= i < rs[k].endLine { assert rs[k] in rs[..k + 1]; }
    }
  }

  lemma {:induction false} SameKept(lines: seq<string>, i: nat, a: set<nat>, b: set<nat>)
    requires i <= |lines| && forall k | 0 <= k < |lines| :: k in a <==> k in b
    ensures KeepFrom(lines, i, a) == KeepFrom(lines, i, b)
    decreases |lines| - i
  {
    if i < |lines| { SameKept(lines, i + 1, a, b); }
  }

  lemma {:induction false} KeepAll(lines: seq<string>, i: nat, removed: set<nat>)
    requires i <= |lines| && forall k | i <= k < |lines| :: k !in removed
    ensures KeepFrom(lines, i, removed) == lines[i..]
    decreases |lines| - i
  {
    if i < |lines| { KeepAll(lines, i + 1, removed); }
  }

  // ---------- What the rewriting keeps ----------

  ghost predicate DistinctLines(us: seq<Upgrade>) {
    forall j, k | 0 <= j < k < |us| :: us[j].line != us[k].line
  }

  /** Each upgraded line has its first occurrence of the version replaced; no other line changes. */
  lemma {:induction false} AppliedAt(lines: seq<string>, us: seq<Upgrade>, i: nat)
    requires (forall u <- us :: u.line < |lines|) && DistinctLines(us) && i < |lines|
    ensures (forall u <- us :: u.line != i) ==> ApplyUpgrades(lines, us)[i] == lines[i]
    ensures forall u <- us | u.line == i ::
      ApplyUpgrades(lines, us)[i] == ReplaceFirst(lines[i], u.oldVersion, u.newVersion)
    decreases |us|
  {
    hide ReplaceFirst;
    if us != [] {
      var u, rest := us[0], us[1..];
      AppliedAt(lines[u.line := ReplaceFirst(lines[u.line], u.oldVersion, u.newVersion)], rest, i);
      assert forall v :: v in us <==> v == u || v in rest;
      assert forall v <- rest :: v.line != u.line;
    }
  }

  /** The result does not depend on the order of the upgrades. */
  lemma OrderDoesNotMatter(content: string, us: seq<Upgrade>, vs: seq<Upgrade>)
    requires multiset(us) == multiset(vs) && DistinctLines(us) && DistinctLines(vs)
    requires forall u <- us :: u.line < |Split(content)|
    ensures (forall v <- vs :: v.line < |Split(content)|) && Migrated(content, us) == Migrated(content, vs)
  {
    hide ReplaceFirst, Split, Join;
    assert forall u :: u in us <==> u in multiset(us);
    assert forall u :: u in vs <==> u in multiset(vs);
    var lines := Split(content);
    forall i | 0 <= i < |lines| ensures ApplyUpgrades(lines, us)[i] == ApplyUpgrades(lines, vs)[i] {
      AppliedAt(lines, us, i);
      AppliedAt(lines, vs, i);
    }
    assert ApplyUpgrades(lines, us) == ApplyUpgrades(lines, vs);
    SameKept(ApplyUpgrades(lines, us), 0, RemovedLines(us, |lines|),
        RemovedLines(vs, |lines|));
  }

  /** Without removals the lines stay lines: splitting the new content gives the rewritten lines. */
  lemma NoRemovalsKeepsLines(content: string, us: seq<Upgrade>)
    requires forall u <- us :: u.line < |Split(content)| && u.removals == [] && '\n' !in u.newVersion
    ensures Split(Migrated(content, us)) == ApplyUpgrades(Split(content), us)
    ensures us == [] ==> Migrated(content, us) == content
  {
    hide ReplaceFirst, Split, Join;
    var lines := ApplyUpgrades(Split(content), us);
    KeepAll(lines, 0, RemovedLines(us, |lines|));
    assert lines[0..] == lines;
    NoNewBreaks(Split(content), us);
    SplitJoin(lines);
    JoinSplit(content);
  }

  lemma {:induction false} NoNewBreaks(lines: seq<string>, us: seq<Upgrade>)
    requires forall u <- us :: u.line < |lines| && '\n' !in u.newVersion
    requires forall l <- lines :: '\n' !in l
    ensures forall l <- ApplyUpgrades(lines, us) :: '\n' !in l
    decreases |us|
  {
    if us != [] {
      var u := us[0];
      var l := ReplaceFirst(lines[u.line], u.oldVersion, u.newVersion);
      assert '\n' !in l by { assert lines[u.line] in lines; }
      NoNewBreaks(lines[u.line := ReplaceFirst(lines[u.line], u.oldVersion, u.newVersion)], us[1..]);
    }
  }

  /** The ranges of all upgrades, in the order of the upgrades. */
  function AllRanges(us: seq<Upgrade>): seq<Removal> {
    if us == [] then [] else us[0].removals + AllRanges(us[1..])
  }

  lemma {:induction false} AllRangesCover(us: seq<Upgrade>, i: nat)
    ensures IsRemoved(us, i) <==> Covers(AllRanges(us), i)
    decreases |us|
  {
    if us != [] {
      AllRangesCover(us[1..], i);
      assert forall u :: u in us <==> u == us[0] || u in us[1..];
      assert forall r :: r in AllRanges(us) <==> r in us[0].removals || r in AllRanges(us[1..]);
    }
  }

  /** When all ranges follow each other, what is kept is what `FieldRemoval` calls the lines outside them. */
  lemma KeptIsOutside(lines: seq<string>, us: seq<Upgrade>)
    requires Ordered(0, AllRanges(us), |lines|)
    ensures Kept(lines, us) == Outside(lines, 0, AllRanges(us))
  {
    hide IsRemoved, Covers, AllRanges;
    forall i: nat ensures IsRemoved(us, i) <==> Covers(AllRanges(us), i) { AllRangesCover(us, i); }
    KeepIsOutside(lines, 0, AllRanges(us), RemovedLines(us, |lines|));
  }

  lemma {:induction false} KeepIsOutside(lines: seq<string>, i: nat, rs: seq<Removal>, removed: set<nat>)
    requires Ordered(i, rs, |lines|)
    requires forall k | i <= k < |lines| :: k in removed <==> Covers(rs, k)
    ensures KeepFrom(lines, i, removed) == Outside(lines, i, rs)
    decreases |rs|
  {
    if rs == [] {
      KeepAll(lines, i, removed);
    } else {
      var r := rs[0];
      OrderedStartsAt(r.endLine, rs[1..], |lines|);
      assert forall x :: x in rs <==> x == r || x in rs[1..];
      KeepIsOutside(lines, r.endLine, rs[1..], removed);
      KeepRange(lines, i, r.line, removed);
      DropRange(lines, r.line, r.endLine, removed);
    }
  }

  lemma {:induction false} OrderedStartsAt(i: nat, rs: seq<Removal>, n: nat)
    requires Ordered(i, rs, n)
    ensures forall r <- rs :: i <= r.line
    decreases |rs|
  {
    if rs != [] { OrderedStartsAt(rs[0].endLine, rs[1..], n); }
  }

  lemma {:induction false} KeepRange(lines: seq<string>, i: nat, j: nat, removed: set<nat>)
    requires i <= j <= |lines| && forall k | i <= k < j :: k !in removed
    ensures KeepFrom(lines, i, removed) == lines[i..j] + KeepFrom(lines, j, removed)
    decreases j - i
  {
    if i < j { KeepRange(lines, i + 1, j, removed); }
  }

  lemma {:induction false} DropRange(lines: seq<string>, i: nat, j: nat, removed: set<nat>)
    requires i <= j <= |lines| && forall k | i <= k < j :: k in removed
    ensures KeepFrom(lines, i, removed) == KeepFrom(lines, j, removed)
    decreases j - i
  {
    if i < j { DropRange(lines, i + 1, j, removed); }
  }
  // ---------- No dropped field is left ----------

  /** A line of the block that starts at `i`, with a listed key at the children's indent `c`. */
  ghost predicate IsListedChild(lines: seq<string>, i: nat, indent: nat, c: nat, fields: seq<Field>, j: nat) {
    && i <= j < |lines| && InBlock(lines, i, j + 1, indent)
    && !IsSkippable(lines[j]) && LineIndent(lines[j]) == c && exists f <- fields :: IsKeyLine(lines[j], f.name)
  }

  /** The ranges of a search leave no listed child of `spec`. */
  ghost predicate LeavesNoField(lines: seq<string>, line: nat, indent: nat, fields: seq<Field>, rs: seq<Removal>) {
    line < |lines| &&
    var i := SpecLine(lines, line + 1, indent) + 1;
    i <= |lines| && ChildIndent(lines[i..], indent).Some? ==>
      var c := ChildIndent(lines[i..], indent).value;
      && NothingListedOutside(lines, i, rs, indent, c, fields)
      && forall j: nat | IsListedChild(lines, i, indent, c, fields, j) :: Covers(rs, j)
  }

  lemma SearchLeavesNoField(lines: seq<string>, line: nat, indent: nat, fields: seq<Field>)
    requires line < |lines|
    ensures LeavesNoField(lines, line, indent, fields, RemovedSpecFields(lines, line, indent, fields))
  {
    hide SpecLine, ChildIndent, NoHit, Outside, Removals, IsListedChild, Covers, NothingListedOutside, Ordered;
    var i, rs := SpecLine(lines, line + 1, indent) + 1, RemovedSpecFields(lines, line, indent, fields);
    if i <= |lines| && ChildIndent(lines[i..], indent).Some? {
      var c := ChildIndent(lines[i..], indent).value;
      KeptHasNoHitAtChild(lines, i, indent, fields);
      NoHitOutside(lines, i, rs, indent, c, fields);
      forall j: nat | IsListedChild(lines, i, indent, c, fields, j) ensures Covers(rs, j) {
        ListedChildIsCovered(lines, i, rs, indent, c, fields, j);
      }
    }
  }

  lemma ListedChildIsCovered(lines: seq<string>, i: nat, rs: seq<Removal>, indent: nat, c: nat,
      fields: seq<Field>, j: nat)
    requires NothingListedOutside(lines, i, rs, indent, c, fields) && IsListedChild(lines, i, indent, c, fields, j)
    ensures Covers(rs, j)
  {
    hide IsDocumentSeparator, IsSkippable, LineIndent, IsKeyLine;
    assert !ListedOutside(lines, i, rs, indent, c, fields, j);
  }

  /**
   Of every reported object at the top level or in a list, each dropped field is deleted: no line
   of its spec block outside the ranges holds a listed key at the children's indent, and the
   ranges are deleted from the file.
   */
  lemma ReportedObjectLosesFields(lines: seq<string>, tables: Tables, u: Upgrade, lead: string, w: string,
      group: string)
    requires u in DetectFrom(lines, 0, tables) && Describes(u, lines, tables, lead, w, group)
    requires (lead == "" || IsListItem(lead)) && (group, u.newVersion, u.kind) in tables.removed
    ensures LeavesNoField(lines, u.line, |lead|, tables.removed[(group, u.newVersion, u.kind)], u.removals)
    ensures forall j: nat | Covers(u.removals, j) :: IsRemoved(DetectFrom(lines, 0, tables), j)
  {
    hide DetectFrom, ReadsWord, ReadsSomewhere, NamesVersion, IsListItem, LeavesNoField, RemovedSpecFields, Covers;
    SearchLeavesNoField(lines, u.line, |lead|, tables.removed[(group, u.newVersion, u.kind)]);
  }

  // ---------- Ranges of several objects ----------

  lemma VersionHasColumn(l: string)
    ensures ParseApiVersion(l).Some? ==> Index(l, API_VERSION) >= 0
  {
    hide FirstWord, TrimSpace, ParseGroupVersion;
  }

  /** The ranges of an upgrade are those that the search finds for its apiVersion line, or there are none. */
  lemma RangesOf(lines: seq<string>, tables: Tables, u: Upgrade) returns (indent: nat, fields: seq<Field>)
    requires u.line < |lines| && DetectAt(lines, u.line, tables) == Some(u)
    ensures Index(lines[u.line], API_VERSION) == indent
    ensures u.removals == [] || u.removals == RemovedSpecFields(lines, u.line, indent, fields)
  {
    hide ParseApiVersion, WordAfter, RemovedSpecFields, Index;
    VersionHasColumn(lines[u.line]);
    indent := Index(lines[u.line], API_VERSION);
    fields := [];
    if u.removals != [] {
      fields :| u.removals == RemovedSpecFields(lines, u.line, indent, fields);
    }
  }

  /** The ranges of an upgrade follow each other below its apiVersion and kind lines. */
  lemma RangesAreBelow(lines: seq<string>, tables: Tables, u: Upgrade)
    requires u.line < |lines| && DetectAt(lines, u.line, tables) == Some(u)
    ensures u.line + 2 <= |lines| && Ordered(u.line + 2, u.removals, |lines|)
  {
    hide DetectAt, RemovedSpecFields;
    var indent, fields := RangesOf(lines, tables, u);
    if u.removals != [] { RemovedFieldsAreBelow(lines, u.line, indent, fields); }
  }

  lemma RemovedFieldsAreBelow(lines: seq<string>, i: nat, indent: nat, fields: seq<Field>)
    requires i + 2 <= |lines|
    ensures Ordered(i + 2, RemovedSpecFields(lines, i, indent, fields), |lines|)
  {
    hide SpecLine, Removals, SoundRange, ChildIndent;
    var spec := SpecLine(lines, i + 1, indent);
    if spec < |lines| {
      var rs := Removals(lines, spec + 1, indent, None, fields);
      RemovalsSound(lines, spec + 1, indent, None, fields);
      ChainedIsOrdered(lines, spec + 1, rs, indent);
      OrderedFrom(i + 2, spec + 1, rs, |lines|);
    }
  }

  /** A line after the object at `u` and not after the line `next` ends that object, outside its quoted scalars. */
  ghost predicate EndsAt(lines: seq<string>, u: Upgrade, next: nat, s: nat)
    requires u.line < next < |lines|
  {
    && u.line < s <= next && Index(lines[u.line], API_VERSION) >= 0
    && EndsObject(lines[s], Index(lines[u.line], API_VERSION))
    && forall r <- u.removals :: r.line < |lines| && (r.line < s ==> QuotedEnd(lines, r.line) <= s)
  }

  /** The objects of a file are separated: each but the last ends before the next one begins. */
  ghost predicate AreSeparated(lines: seq<string>, us: seq<Upgrade>)
    decreases |us|
  {
    |us| <= 1 || (
      && us[0].line < us[1].line < |lines| && (exists s :: EndsAt(lines, us[0], us[1].line, s))
      && AreSeparated(lines, us[1..]))
  }

  /**
   In a file whose objects are separated, by document separators or by the dashes of a list, the
   ranges of all objects follow each other in the order of the lines and do not overlap.
   */
  lemma {:induction false} SeparatedRangesFollow(lines: seq<string>, tables: Tables, us: seq<Upgrade>, from: nat)
    requires AreSeparated(lines, us)
    requires forall u <- us :: u.line < |lines| && DetectAt(lines, u.line, tables) == Some(u)
    requires from <= |lines| && (us != [] ==> from <= us[0].line)
    ensures Ordered(from, AllRanges(us), |lines|)
    decreases |us|
  {
    hide DetectAt, EndsAt;
    if us != [] {
      var u, rest := us[0], us[1..];
      RangesAreBelow(lines, tables, u);
      if rest == [] {
        assert u.removals + [] == u.removals;
        OrderedFrom(from, u.line + 2, u.removals, |lines|);
      } else {
        assert us[1] == rest[0];
        var s :| EndsAt(lines, us[0], us[1].line, s);
        RangesEndAt(lines, tables, u, rest[0].line, s);
        SeparatedRangesFollow(lines, tables, rest, rest[0].line);
        OrderedConcat(from, u.line + 2, u.removals, rest[0].line, AllRanges(rest), |lines|);
      }
    }
  }

  lemma RangesEndAt(lines: seq<string>, tables: Tables, u: Upgrade, next: nat, s: nat)
    requires u.line < next < |lines| && EndsAt(lines, u, next, s) && DetectAt(lines, u.line, tables) == Some(u)
    ensures forall r <- u.removals :: r.endLine <= next
  {
    hide DetectAt, EndsObject, QuotedEnd, RemovedSpecFields;
    var indent, fields := RangesOf(lines, tables, u);
    if u.removals != [] { ObjectRangesEndBefore(lines, u.line, indent, fields, s); }
  }

  lemma OrderedFrom(i: nat, j: nat, rs: seq<Removal>, n: nat)
    requires i <= j && Ordered(j, rs, n)
    ensures Ordered(i, rs, n)
  {
  }

  lemma {:induction false} OrderedConcat(i: nat, j: nat, rs: seq<Removal>, k: nat, qs: seq<Removal>, n: nat)
    requires i <= j && i <= k && Ordered(j, rs, n) && Ordered(k, qs, n) && forall r <- rs :: r.endLine <= k
    ensures Ordered(i, rs + qs, n)
    decreases |rs|
  {
    if rs == [] {
      assert rs + qs == qs;
    } else {
      assert rs[0] in rs && forall r <- rs[1..] :: r in rs;
      OrderedConcat(rs[0].endLine, rs[0].endLine, rs[1..], k, qs, n);
      assert (rs + qs)[1..] == rs[1..] + qs;
    }
  }

  /** What a migration keeps of a file whose objects are separated. */
  lemma SeparatedFileKeepsOutside(content: string, tables: Tables)
    requires AreSeparated(Split(content), DetectFrom(Split(content), 0, tables))
    ensures var lines, us := Split(content), DetectFrom(Split(content), 0, tables);
            && Ordered(0, AllRanges(us), |lines|) && (forall u <- us :: u.line < |lines|)
            && Migrated(content, us) == Join(Outside(ApplyUpgrades(lines, us), 0, AllRanges(us)))
  {
    hide Split, Join, DetectFrom, AreSeparated, ApplyUpgrades, Kept, Outside, DetectAt;
    var lines := Split(content);
    var us := DetectFrom(lines, 0, tables);
    DetectedExactly(lines, 0, tables);
    SeparatedRangesFollow(lines, tables, us, 0);
    KeptIsOutside(ApplyUpgrades(lines, us), us);
  }
}
