/**
 Concrete files: one for each way in which a migrated file is reported again, and one with nested
 ranges of removed lines.
 */
module MigrationExamples {
  import opened Options
  import opened Text
  import opened Words
  import opened FieldRemoval
  import opened FileMigration
  import opened Redetection

  // ---------- Lines of the examples ----------

  lemma FirstNew(before: string, sub: string, after: string)
    requires sub != "" && sub[0] !in before
    ensures Index(before + sub + after, sub) == |before|
  {
    var s := before + sub + after;
    forall k | 0 <= k < |before| ensures !OccursAt(s, sub, k) {
      assert s[k] == before[k];
      if k + |sub| <= |s| { assert s[k..k + |sub|][0] == s[k]; }
    }
    assert s[|before|..|before| + |sub|] == sub;
    IndexIsFirst(s, sub, |before|);
  }

  lemma NoOccurrence(s: string, sub: string)
    requires sub != "" && sub[0] !in s
    ensures Index(s, sub) == -1
  {
    forall k | 0 <= k ensures !OccursAt(s, sub, k) {
      if k + |sub| <= |s| { assert s[k..k + |sub|][0] == s[k]; }
    }
  }

  /** A line without white space before the key. */
  lemma ExampleLine(group: string, version: string, after: string) returns (d: VersionLine)
    requires version != "" && '/' !in version && ' ' !in group + version
    requires group == "" || (group[|group| - 1] == '/' && '/' !in group[..|group| - 1])
    requires !IsSpace((group + version)[0]) && EndsWord(after) && !IsSpace(version[|version| - 1])
    ensures d == VersionLine("", "", group, version, after) && d.Valid()
    ensures d.Line() == API_VERSION + group + version + after
    ensures HasVersion(d.Line()) && VersionColumn(d.Line()) == |API_VERSION + group|
    ensures ParseApiVersion(d.Line()) == Some((d.Group(), version))
  {
    hide IsSpace, EndsWord, ParseApiVersion, VersionColumn;
    d := VersionLine("", "", group, version, after);
    assert d.Line() == API_VERSION + group + version + after;
    ParsesBack(d);
  }

  lemma PlainExamples()
    ensures IsPlainVersion("v1") && IsPlainVersion("v2") && IsPlainVersion("v9")
    ensures !IsSpace('g') && !IsSpace('v') && !IsSpace('1') && !IsSpace(':') && !IsSpace('K') && !IsSpace('A')
    ensures !IsSpace('B')
    ensures IsSpace(' ')
  {
  }

  /** The line "kind: K" holds a kind and no version. */
  lemma KindExample()
    ensures WordAfter("kind: K", KIND) == Some("K") && ParseApiVersion("kind: K").None?
  {
    PlainExamples();
    hide IsSpace, TrimSpace, FirstWord;
    assert "kind: K" == "" + KIND + "" + "K" + "";
    ReadsBack("kind: K", KIND, "", "", "K", "");
    NoOccurrence("kind: K", API_VERSION);
  }

  /** The upgrades of two lines of which the second holds no version. */
  lemma TwoLines(lines: seq<string>, tables: Tables, version: string, latest: string, group: string)
    requires |lines| == 2 && lines[1] == "kind: K"
    requires ParseApiVersion(lines[0]) == Some((group, version))
    requires (group, "K") in tables.latest && tables.latest[(group, "K")] == latest != version
    requires tables.removed == map[]
    ensures DetectFrom(lines, 0, tables) == [Upgrade(0, "K", version, latest, [])]
  {
    hide ParseApiVersion, WordAfter;
    KindExample();
    assert DetectFrom(lines, 2, tables) == [];
    assert DetectAt(lines, 1, tables).None?;
    assert DetectFrom(lines, 1, tables) == [];
    NoFieldsAreRemoved(lines, 0, tables);
    assert DetectAt(lines, 0, tables) == Some(Upgrade(0, "K", version, latest, []));
  }

  lemma NoFieldsAreRemoved(lines: seq<string>, i: nat, tables: Tables)
    requires i < |lines| && tables.removed == map[]
    ensures forall lead, key :: RemovalsBelow(lines, i, lead, tables, key) == []
  {
    hide RemovedSpecFields, IsTopLevel;
  }

  lemma ReadsHere(lead: string, prefix: string, w: string)
    requires prefix != "" && prefix[0] !in lead
    requires w != "" && ' ' !in w && !IsSpace(w[0]) && !IsSpace(w[|w| - 1])
    ensures WordAfter(lead + prefix + w, prefix) == Some(w)
  {
    hide IsSpace, WordAfter, Index;
    FirstNew(lead, prefix, "");
    assert lead + prefix + "" == lead + prefix;
    FirstAtEnd(lead, prefix, "");
    assert lead + prefix + "" + w + "" == lead + prefix + w;
    ReadsBack(lead + prefix + w, prefix, lead, "", w, "");
  }

  // ---------- The rewritten group is in the table ----------

  /** The group holds the old version, and the rewritten group is listed with another version too. */
  lemma GroupIsReportedAgain() returns (content: string, tables: Tables)
    ensures var us := DetectFrom(Split(content), 0, tables);
            (forall u <- us :: u.line < |Split(content)|)
            && DetectFrom(Split(Migrated(content, us)), 0, tables) != []
  {
    hide DetectFrom, Split, Join, Migrated, ParseApiVersion, HitsGroup, HitsToken, IsPlainVersion, ReplaceFirst;
    hide VersionColumn, EndsInKind;
    var lines := ["apiVersion: v1.g/v1", "kind: K"];
    tables := Tables(map[("v1.g", "K") := "v2", ("v2.g", "K") := "v2"], map[]);
    content := Join(lines);
    SplitJoin(lines);
    PlainExamples();
    GroupExample();
    TwoLines(lines, tables, "v1", "v2", "v1.g");
    var u := Upgrade(0, "K", "v1", "v2", []);
    assert u in [u];
    assert StaysOutdated(lines[0], u, tables);
    StaysOutdatedExactly(content, tables);
  }

  lemma GroupExample()
    ensures var l := "apiVersion: v1.g/v1"; HasVersion(l) && HitsGroup(l)
    ensures ParseApiVersion("apiVersion: v1.g/v1") == Some(("v1.g", "v1"))
    ensures ReplaceFirst("v1.g", "v1", "v2") == "v2.g"
    ensures !EndsInKind("v1")
  {
    hide ParseApiVersion, VersionColumn, IsSpace, Index;
    PlainExamples();
    assert "v1.g/"[..4] == "v1.g";
    var d := ExampleLine("v1.g/", "v1", "");
    var l := "apiVersion: v1.g/v1";
    assert d.Line() == l == API_VERSION + "v1" + ".g/v1";
    FirstNew(API_VERSION, "v1", ".g/v1");
    assert "v1.g" == "" + "v1" + ".g";
    FirstNew("", "v1", ".g");
    assert "v2" + "v1.g"[2..] == "v2.g";
  }

  // ---------- The old version is empty ----------

  /** The version of the only object is empty. */
  lemma EmptyVersionExample() returns (content: string, tables: Tables)
    ensures var us := DetectFrom(Split(content), 0, tables);
            (forall u <- us :: u.line < |Split(content)|)
            && DetectFrom(Split(Migrated(content, us)), 0, tables) != []
  {
    hide DetectFrom, Split, Join, Migrated, ParseApiVersion, IsPlainVersion, Index, IsTopLevel;
    var lines := ["apiVersion: g/", "kind: K"];
    tables := Tables(map[("g", "K") := "v1"], map[]);
    content := Join(lines);
    SplitJoin(lines);
    PlainExamples();
    EmptyExample();
    assert !EndsInKind("");
    TwoLines(lines, tables, "", "v1", "g");
    var u := Upgrade(0, "K", "", "v1", []);
    assert u in [u];
    assert StaysOutdated(lines[0], u, tables);
    StaysOutdatedExactly(content, tables);
  }

  lemma EmptyExample()
    ensures var l := "apiVersion: g/";
            ParseApiVersion(l) == Some(("g", "")) && Index(l, API_VERSION) == 0 && IsTopLevel(l[..0])
  {
    hide IsSpace, TrimSpace, FirstWord, ParseGroupVersion, Index;
    PlainExamples();
    var l := "apiVersion: g/";
    assert l == "" + API_VERSION + "" + "g/" + "";
    assert !IsSpace('/') by { SlashIsNotSpace(); }
    ReadsBack(l, API_VERSION, "", "", "g/", "");
    assert "g/" == "g" + "/" + "";
    ParsesWhatItNames("g/", "g", "");
    assert l == "" + API_VERSION + "g/";
    FirstNew("", API_VERSION, "g/");
  }

  lemma SlashIsNotSpace()
    ensures !IsSpace('/')
  {
  }
  // ---------- The old version ends in "kind:" ----------

  /**
   The version of the second line is "kind:". While it stands there the first line is read with the
   kind A, and after the upgrade with the kind B, which makes it outdated.
   */
  lemma KindInVersionExample() returns (content: string, tables: Tables)
    ensures var us := DetectFrom(Split(content), 0, tables);
            (forall u <- us :: u.line < |Split(content)|)
            && DetectFrom(Split(Migrated(content, us)), 0, tables) != []
  {
    hide DetectFrom, Split, Join, Migrated, ParseApiVersion, HitsToken, HitsGroup, IsPlainVersion;
    hide RewrittenKind, WordAfter;
    var lines := ["apiVersion: g/v1", "apiVersion: g/kind: A kind: B", "kind: K"];
    tables := Tables(map[("g", "K") := "v9", ("g", "B") := "v9"], map[]);
    content := Join(lines);
    SplitJoin(lines);
    PlainExamples();
    PlainLineExample();
    KindLineExample();
    KindInVersionDetects(lines, tables);
    var u := Upgrade(1, "K", "kind:", "v9", []);
    var us := [u];
    assert u in us;
    NothingRemoved(us, |lines|);
    assert UpgradeOn(us, 1) == Some(u) && UpgradeOn(us, 0) == None by { assert us[1..] == []; }
    assert IsReported(lines, us, tables, 0);
    RedetectionExactly(content, tables);
  }

  lemma NothingRemoved(us: seq<Upgrade>, n: nat)
    requires forall u <- us :: u.removals == []
    ensures RemovedLines(us, n) == {}
  {
  }

  lemma PlainLineExample()
    ensures var l := "apiVersion: g/v1"; ParseApiVersion(l) == Some(("g", "v1")) && HasVersion(l) && HitsToken(l)
  {
    hide ParseApiVersion, VersionColumn, IsSpace, Index;
    PlainExamples();
    assert "g/"[..1] == "g";
    var d := ExampleLine("g/", "v1", "");
    assert d.Line() == "apiVersion: g/v1" == (API_VERSION + "g/") + "v1" + "";
    FirstNew(API_VERSION + "g/", "v1", "");
  }

  lemma KindLineExample()
    ensures var l := "apiVersion: g/kind: A kind: B";
            && HasVersion(l) && ParseApiVersion(l) == Some(("g", "kind:")) && HitsToken(l)
            && WordAfter(l, KIND) == Some("A") && RewrittenKind(l) == Some("B")
  {
    hide ParseApiVersion, VersionColumn, IsSpace, Index, FirstWord, TrimSpace, WordAfter, KindOf;
    KindLineVersion();
    AfterKindExample();
    KindIsRead("", "", "g/kind:", " A kind: B");
    KindOfExample();
    KindLineParts();
  }

  lemma KindLineParts()
    ensures var l := "apiVersion: g/kind: A kind: B";
            "" + API_VERSION + "" + "g/kind:" + " A kind: B" == l && l[|API_VERSION + "g/kind:"|..] == " A kind: B"
  {
    assert "" + API_VERSION + "" == API_VERSION;
  }

  lemma KindOfExample()
    ensures KindOf("", "g/kind:", " A kind: B") == Some("A") && Index("", KIND) == -1 && EndsInKind("g/kind:")
  {
    hide IsSpace, FirstWord, TrimSpace, Index, WordAfter;
    NoOccurrence("", KIND);
    AfterKindExample();
    assert "g/kind:"[2..] == "kind:";
  }

  lemma KindLineVersion()
    ensures var l := "apiVersion: g/kind: A kind: B";
            && ParseApiVersion(l) == Some(("g", "kind:")) && HasVersion(l) && HitsToken(l)
            && VersionColumn(l) + 5 == |API_VERSION + "g/kind:"|
  {
    hide ParseApiVersion, VersionColumn, IsSpace, Index;
    PlainExamples();
    assert "g/"[..1] == "g";
    var after := " A kind: B";
    assert after[0] == ' ';
    var d := ExampleLine("g/", "kind:", after);
    assert d.Line() == "apiVersion: g/kind: A kind: B" == (API_VERSION + "g/") + "kind:" + after;
    FirstNew(API_VERSION + "g/", "kind:", after);
  }

  lemma AfterKindExample()
    ensures FirstWord(TrimSpace(" A kind: B"[1..])) == "A" && WordAfter(" A kind: B", KIND) == Some("B")
  {
    hide IsSpace, FirstWord, TrimSpace, WordAfter;
    PlainExamples();
    assert " A kind: B"[1..] == "" + "A" + " kind: B";
    assert " kind: B"[0] == ' ';
    WordOf("", "A", " kind: B");
    ReadsHere(" A ", KIND, "B");
    assert " A kind: B" == " A " + KIND + "B";
  }

  lemma KindInVersionDetects(lines: seq<string>, tables: Tables)
    requires lines == ["apiVersion: g/v1", "apiVersion: g/kind: A kind: B", "kind: K"]
    requires tables == Tables(map[("g", "K") := "v9", ("g", "B") := "v9"], map[])
    ensures DetectFrom(lines, 0, tables) == [Upgrade(1, "K", "kind:", "v9", [])]
  {
    hide ParseApiVersion, WordAfter, HitsToken, RewrittenKind;
    PlainLineExample();
    KindLineExample();
    KindExample();
    NoFieldsAreRemoved(lines, 1, tables);
    assert DetectAt(lines, 0, tables).None?;
    assert DetectAt(lines, 2, tables).None?;
    assert DetectFrom(lines, 3, tables) == [];
    assert DetectFrom(lines, 2, tables) == [];
  }

  // ---------- A range begins after an apiVersion line ----------

  const GAP_LINES: seq<string> := ["apiVersion: g/v1", "kind: K", "spec:", " apiVersion: g/v1", " a:", " kind: K"]
  const GAP_TABLES := Tables(map[("g", "K") := "v2"], map[("g", "v2", "K") := [Field("a", "")]])

  /**
   The removed field stands between a nested apiVersion and a nested kind, which are neighbours
   after the migration.
   */
  lemma GapExample() returns (content: string, tables: Tables)
    ensures var us := DetectFrom(Split(content), 0, tables);
            (forall u <- us :: u.line < |Split(content)|)
            && DetectFrom(Split(Migrated(content, us)), 0, tables) != []
  {
    hide DetectFrom, Split, Join, Migrated, ParseApiVersion, HitsToken, HitsGroup, IsPlainVersion;
    hide RewrittenKind, WordAfter;
    var lines := GAP_LINES;
    tables := GAP_TABLES;
    content := Join(lines);
    SplitJoin(lines);
    PlainExamples();
    PlainLineExample();
    NestedLines();
    GapDetects();
    var u := Upgrade(0, "K", "v1", "v2", [Removal("a", "", 4, 5)]);
    var us := [u];
    assert u in us;
    GapRemoved(us);
    assert us[1..] == [];
    assert UpgradeOn(us, 0) == Some(u) && UpgradeOn(us, 3) == None && UpgradeOn(us, 5) == None;
    assert NextKept(RemovedLines(us, 6), 6, 4) == 5;
    assert IsReported(lines, us, tables, 3);
    RedetectionExactly(content, tables);
  }

  lemma GapRemoved(us: seq<Upgrade>)
    requires |us| == 1 && us[0].removals == [Removal("a", "", 4, 5)]
    ensures RemovedLines(us, 6) == {4}
  {
    var u := us[0];
    assert forall i: nat :: Covers(u.removals, i) <==> i == 4 by { assert u.removals[0] in u.removals; }
    assert forall i: nat :: IsRemoved(us, i) <==> i == 4 by { assert u in us; }
  }

  lemma NestedLines()
    ensures ParseApiVersion(" apiVersion: g/v1") == Some(("g", "v1"))
    ensures WordAfter(" kind: K", KIND) == Some("K") && WordAfter(" a:", KIND).None?
    ensures ParseApiVersion("spec:").None? && ParseApiVersion(" a:").None? && ParseApiVersion(" kind: K").None?
  {
    hide IsSpace, TrimSpace, FirstWord, ParseGroupVersion, Index;
    NestedVersion();
    NestedKind();
    NoKeys();
  }

  lemma NestedVersion()
    ensures ParseApiVersion(" apiVersion: g/v1") == Some(("g", "v1"))
  {
    hide IsSpace, WordAfter, ParseGroupVersion;
    PlainExamples();
    ReadsHere(" ", API_VERSION, "g/v1");
    assert " apiVersion: g/v1" == " " + API_VERSION + "g/v1";
    assert "g/v1" == "g" + "/" + "v1";
    ParsesWhatItNames("g/v1", "g", "v1");
  }

  lemma NestedKind()
    ensures WordAfter(" kind: K", KIND) == Some("K")
  {
    hide IsSpace, WordAfter;
    PlainExamples();
    ReadsHere(" ", KIND, "K");
    assert " kind: K" == " " + KIND + "K";
  }

  lemma NoKeys()
    ensures Index("spec:", API_VERSION) == -1 && Index(" a:", API_VERSION) == -1 && Index(" kind: K", API_VERSION) == -1
    ensures Index(" a:", KIND) == -1
  {
    NoOccurrence("spec:", API_VERSION);
    NoOccurrence(" kind: K", API_VERSION);
    NoOccurrence(" a:", KIND);
    forall k | 0 <= k ensures !OccursAt(" a:", API_VERSION, k) {
    }
  }

  lemma GapDetects()
    ensures DetectFrom(GAP_LINES, 0, GAP_TABLES) == [Upgrade(0, "K", "v1", "v2", [Removal("a", "", 4, 5)])]
  {
    hide DetectAt;
    GapDetectsFirst();
    GapDetectsNoOther();
    var lines, tables := GAP_LINES, GAP_TABLES;
    assert DetectFrom(lines, 6, tables) == [];
    assert DetectFrom(lines, 5, tables) == [];
    assert DetectFrom(lines, 4, tables) == [];
    assert DetectFrom(lines, 3, tables) == [];
    assert DetectFrom(lines, 2, tables) == [];
    assert DetectFrom(lines, 1, tables) == [];
  }

  lemma GapDetectsFirst()
    ensures DetectAt(GAP_LINES, 0, GAP_TABLES) == Some(Upgrade(0, "K", "v1", "v2", [Removal("a", "", 4, 5)]))
  {
    hide ParseApiVersion, WordAfter, Index, RemovedSpecFields, IsTopLevel, HitsToken;
    PlainLineExample();
    KindExample();
    GapRemovals();
    FirstColumn();
  }

  lemma GapDetectsNoOther()
    ensures forall i | 1 <= i < 6 :: DetectAt(GAP_LINES, i, GAP_TABLES).None?
  {
    hide ParseApiVersion, WordAfter, RemovalsBelow;
    KindExample();
    NestedLines();
  }

  lemma FirstColumn()
    ensures Index("apiVersion: g/v1", API_VERSION) == 0 && IsTopLevel("apiVersion: g/v1"[..0])
  {
    assert "apiVersion: g/v1" == "" + API_VERSION + "g/v1";
    FirstNew("", API_VERSION, "g/v1");
  }

  lemma GapRemovals()
    ensures RemovedSpecFields(GAP_LINES, 0, 0, [Field("a", "")]) == [Removal("a", "", 4, 5)]
  {
    hide IsDocumentSeparator, IsSkippable, LineIndent, IsKeyLine, Blank, ValueOn;
    var lines, fields := GAP_LINES, [Field("a", "")];
    SpecExample(); SpecKeyExample(); ChildExample(); ChildKeyExample(); ChildValueExample();
    OtherKeys();
    assert SpecLine(lines, 1, 0) == 2;
    assert ListedField(lines[4], fields) == Some(fields[0]);
    assert ListedField(lines[3], fields) == None by { assert fields[1..] == []; }
    assert ListedField(lines[5], fields) == None by { assert fields[1..] == []; }
    assert ValueEnd(lines, 4, 1) == 5;
    assert Removals(lines, 6, 0, Some(1), fields) == [];
    assert Removals(lines, 5, 0, Some(1), fields) == [];
    assert Removals(lines, 4, 0, Some(1), fields) == [Removal("a", "", 4, 5)];
    assert Removals(lines, 3, 0, None, fields) == [Removal("a", "", 4, 5)];
  }

  lemma OtherKeys()
    ensures var l := "kind: K";
            !IsDocumentSeparator(l) && !IsSkippable(l) && LineIndent(l) == 0 && !IsKeyLine(l, "spec") && !Blank(l)
    ensures forall l <- [" apiVersion: g/v1", " kind: K"] ::
              !IsDocumentSeparator(l) && !IsSkippable(l) && LineIndent(l) == 1 && !IsKeyLine(l, "a") && !Blank(l)
  {
    hide IsDocumentSeparator, IsSkippable, LineIndent, IsKeyLine, Blank;
    KindIsPlain();
    assert "kind: K"[0..][0] == 'k' && ("spec" + ":")[0] == 's';
    OtherKeyExample("kind: K", 0, "spec");
    assert " apiVersion: g/v1"[1..][1] == 'p' && ("a" + ":")[1] == ':';
    OtherKeyExample(" apiVersion: g/v1", 1, "a");
    assert " kind: K"[1..][0] == 'k' && ("a" + ":")[0] == 'a';
    OtherKeyExample(" kind: K", 1, "a");
  }

  lemma KindIsPlain()
    ensures !IsSpace('k') && !IsSpace('a')
  {
  }

  /** A line with content and another key. */
  lemma OtherKeyExample(l: string, n: nat, key: string)
    requires n < |l| && (forall k | 0 <= k < n :: l[k] == ' ') && !IsSpace(l[n]) && l[n] !in {'#', '{', '-'}
    requires !(key + ":" <= l[n..])
    ensures !IsDocumentSeparator(l) && !IsSkippable(l) && LineIndent(l) == n && !IsKeyLine(l, key) && !Blank(l)
  {
    hide IsSpace, TrimSpace, Blank;
    SpaceIsSpace();
    Significant(l, n);
    IndentIs(l, n);
    BlankIsAllSpace(l);
    if n > 0 { NoSeparator(l); }
  }

  // ---------- Nested ranges ----------

  const NESTED_LINES: seq<string> :=
    ["apiVersion: g/v1", "kind: K", "spec:", " a:", "  - apiVersion: g/v1", "    kind: K", "    spec:", "     a:"]

  /** An object in a list within a removed field has ranges of its own, inside the range of that field. */
  lemma RangesCanBeNested() returns (fields: seq<Field>)
    ensures Index(NESTED_LINES[4], API_VERSION) == 4 && IsTopLevel(NESTED_LINES[4][..4])
    ensures RemovedSpecFields(NESTED_LINES, 0, 0, fields) == [Removal("a", "", 3, 8)]
    ensures RemovedSpecFields(NESTED_LINES, 4, 4, fields) == [Removal("a", "", 7, 8)]
  {
    hide RemovedSpecFields, Index, IsTopLevel;
    fields := [Field("a", "")];
    NestedColumn();
    OuterRanges(fields);
    InnerRanges(fields);
  }

  lemma NestedColumn()
    ensures var l := "  - apiVersion: g/v1"; Index(l, API_VERSION) == 4 && IsTopLevel(l[..4])
  {
    hide Index, IsTopLevel;
    var l := "  - apiVersion: g/v1";
    assert l == "  - " + API_VERSION + "g/v1" && l[..4] == "  - ";
    FirstNew("  - ", API_VERSION, "g/v1");
    assert "  - "[2..] == "- ";
    TopLevelExactly("  - ");
  }

  lemma OuterRanges(fields: seq<Field>)
    requires fields == [Field("a", "")]
    ensures RemovedSpecFields(NESTED_LINES, 0, 0, fields) == [Removal("a", "", 3, 8)]
  {
    hide IsDocumentSeparator, IsSkippable, LineIndent, IsKeyLine, Blank, ValueOn;
    var lines := NESTED_LINES;
    SpecExample(); SpecKeyExample(); ChildExample(); ChildKeyExample(); ChildValueExample();
    OtherKeys();
    NestedIndents();
    assert SpecLine(lines, 1, 0) == 2;
    assert ListedField(lines[3], fields) == Some(fields[0]);
    assert DeeperEnd(lines, 8, 8, 1) == 8;
    assert DeeperEnd(lines, 7, 7, 1) == 8;
    assert DeeperEnd(lines, 6, 6, 1) == 8;
    assert DeeperEnd(lines, 5, 5, 1) == 8;
    assert ValueEnd(lines, 3, 1) == 8;
    assert Removals(lines, 8, 0, Some(1), fields) == [];
    assert Removals(lines, 3, 0, None, fields) == [Removal("a", "", 3, 8)];
  }

  lemma InnerRanges(fields: seq<Field>)
    requires fields == [Field("a", "")]
    ensures RemovedSpecFields(NESTED_LINES, 4, 4, fields) == [Removal("a", "", 7, 8)]
  {
    hide IsDocumentSeparator, IsSkippable, LineIndent, IsKeyLine, Blank, ValueOn;
    var lines := NESTED_LINES;
    NestedIndents();
    NestedKeys();
    assert SpecLine(lines, 5, 4) == 6;
    assert ListedField(lines[7], fields) == Some(fields[0]);
    assert ValueEnd(lines, 7, 5) == 8;
    assert Removals(lines, 8, 4, Some(5), fields) == [];
    assert Removals(lines, 7, 4, None, fields) == [Removal("a", "", 7, 8)];
  }

  lemma NestedIndents()
    ensures forall i | 4 <= i < 8 ::
      var l := NESTED_LINES[i];
      !IsDocumentSeparator(l) && !IsSkippable(l) && !Blank(l) && LineIndent(l) == [2, 4, 4, 5][i - 4]
  {
    forall i | 4 <= i < 8
      ensures var l := NESTED_LINES[i];
        !IsDocumentSeparator(l) && !IsSkippable(l) && !Blank(l) && LineIndent(l) == [2, 4, 4, 5][i - 4]
    {
      IndentedLine(NESTED_LINES[i], [2, 4, 4, 5][i - 4]);
    }
  }

  lemma IndentedLine(l: string, n: nat)
    requires 0 < n < |l| && (forall k | 0 <= k < n :: l[k] == ' ') && !IsSpace(l[n]) && l[n] !in {'#', '{'}
    ensures !IsDocumentSeparator(l) && !IsSkippable(l) && !Blank(l) && LineIndent(l) == n
  {
    hide IsSpace, TrimSpace, Blank;
    SpaceIsSpace();
    Significant(l, n);
    IndentIs(l, n);
    BlankIsAllSpace(l);
    NoSeparator(l);
  }

  lemma NestedKeys()
    ensures !IsKeyLine("    kind: K", "spec") && IsKeyLine("    spec:", "spec") && IsKeyLine("     a:", "a")
    ensures ValueOn("     a:") == ""
  {
    hide IsKeyLine, ValueOn;
    NestedKind4();
    NestedSpec4();
    NestedField5();
    NestedValue5();
  }

  lemma NestedKind4()
    ensures !IsKeyLine("    kind: K", "spec")
  {
    IndentIs("    kind: K", 4);
    assert "    kind: K"[4..][0] == 'k' && ("spec" + ":")[0] == 's';
  }

  lemma NestedSpec4()
    ensures IsKeyLine("    spec:", "spec")
  {
    IndentIs("    spec:", 4);
    assert "    spec:"[4..] == "spec" + ":";
  }

  lemma NestedField5()
    ensures IsKeyLine("     a:", "a")
  {
    IndentIs("     a:", 5);
    assert "     a:"[5..] == "a" + ":";
  }

  lemma NestedValue5()
    ensures ValueOn("     a:") == ""
  {
    hide Index;
    FirstNew("     a", ":", "");
    assert "     a" + ":" + "" == "     a:" && "     a:"[7..] == "";
  }
  // ---------- An item of a list ----------

  const LIST_LINES: seq<string> :=
    ["kind: List", "items:", "- apiVersion: g/v1", "  kind: K", "  spec:", "    a: x"]

  /** An object in a list is migrated to the new version and loses the dropped field. */
  lemma ListItemLosesField() returns (content: string)
    ensures content == Join(LIST_LINES)
    ensures DetectFrom(Split(content), 0, GAP_TABLES) == [Upgrade(2, "K", "v1", "v2", [Removal("a", "", 5, 6)])]
    ensures 2 < |Split(content)|
    ensures Migrated(content, [Upgrade(2, "K", "v1", "v2", [Removal("a", "", 5, 6)])])
            == Join(["kind: List", "items:", "- apiVersion: g/v2", "  kind: K", "  spec:"])
  {
    hide DetectFrom, Split, Join, ReplaceFirst;
    content := Join(LIST_LINES);
    SplitJoin(LIST_LINES);
    ListDetects();
    var u := Upgrade(2, "K", "v1", "v2", [Removal("a", "", 5, 6)]);
    assert u.removals[0] in u.removals && u in [u];
    ListVersion();
    var lines := LIST_LINES[2 := "- apiVersion: g/v2"];
    assert [u][1..] == [] && ApplyUpgrades(lines, []) == lines;
    assert ApplyUpgrades(LIST_LINES, [u]) == lines;
    assert lines == ["kind: List", "items:", "- apiVersion: g/v2", "  kind: K", "  spec:", "    a: x"];
    OnlyRange([u], 5, 6);
    KeepRange(lines, 0, 5, {5});
    assert KeepFrom(lines, 6, {5}) == [];
    assert KeepFrom(lines, 5, {5}) == [];
    assert Kept(lines, [u]) == lines[0..5];
    assert lines[0..5] == ["kind: List", "items:", "- apiVersion: g/v2", "  kind: K", "  spec:"];
    assert Migrated(Join(LIST_LINES), [u]) == Join(lines[0..5]);
  }

  lemma OnlyRange(us: seq<Upgrade>, i: nat, n: nat)
    requires |us| == 1 && us[0].removals == [Removal("a", "", i, i + 1)] && i < n
    ensures RemovedLines(us, n) == {i}
  {
    var u := us[0];
    assert forall k: nat :: Covers(u.removals, k) <==> k == i by { assert u.removals[0] in u.removals; }
    assert forall k: nat :: IsRemoved(us, k) <==> k == i by { assert u in us; }
  }

  lemma ListVersion()
    ensures ReplaceFirst("- apiVersion: g/v1", "v1", "v2") == "- apiVersion: g/v2"
  {
    hide Index;
    var l := "- apiVersion: g/v1";
    FirstNew("- apiVersion: g/", "v1", "");
    assert l == "- apiVersion: g/" + "v1" + "";
    assert l[..16] == "- apiVersion: g/" && l[18..] == "";
    assert "- apiVersion: g/" + "v2" + "" == "- apiVersion: g/v2";
  }

  lemma ListDetects()
    ensures DetectFrom(LIST_LINES, 0, GAP_TABLES) == [Upgrade(2, "K", "v1", "v2", [Removal("a", "", 5, 6)])]
  {
    hide DetectAt;
    ListDetectsItem();
    ListDetectsNoOther();
    var lines, tables := LIST_LINES, GAP_TABLES;
    assert DetectFrom(lines, 6, tables) == [];
    assert DetectFrom(lines, 5, tables) == [];
    assert DetectFrom(lines, 4, tables) == [];
    assert DetectFrom(lines, 3, tables) == [];
    assert DetectFrom(lines, 2, tables) == [Upgrade(2, "K", "v1", "v2", [Removal("a", "", 5, 6)])];
    assert DetectFrom(lines, 1, tables) == DetectFrom(lines, 2, tables);
  }

  lemma ListDetectsItem()
    ensures DetectAt(LIST_LINES, 2, GAP_TABLES) == Some(Upgrade(2, "K", "v1", "v2", [Removal("a", "", 5, 6)]))
  {
    hide ParseApiVersion, WordAfter, Index, RemovedSpecFields, IsTopLevel;
    ItemVersion();
    ItemColumn();
    ItemKind();
    ListRemovals();
  }

  lemma ItemVersion()
    ensures ParseApiVersion("- apiVersion: g/v1") == Some(("g", "v1"))
  {
    hide IsSpace, WordAfter, ParseGroupVersion;
    PlainExamples();
    ReadsHere("- ", API_VERSION, "g/v1");
    assert "- apiVersion: g/v1" == "- " + API_VERSION + "g/v1";
    assert "g/v1" == "g" + "/" + "v1";
    ParsesWhatItNames("g/v1", "g", "v1");
  }

  lemma ItemColumn()
    ensures var l := "- apiVersion: g/v1"; Index(l, API_VERSION) == 2 && IsTopLevel(l[..2])
  {
    hide Index, IsTopLevel;
    var l := "- apiVersion: g/v1";
    assert l == "- " + API_VERSION + "g/v1" && l[..2] == "- ";
    FirstNew("- ", API_VERSION, "g/v1");
    assert "- "[0..] == "- ";
    TopLevelExactly("- ");
  }

  lemma ItemKind()
    ensures WordAfter("  kind: K", KIND) == Some("K")
  {
    hide IsSpace, WordAfter;
    PlainExamples();
    ReadsHere("  ", KIND, "K");
    assert "  kind: K" == "  " + KIND + "K";
  }

  lemma ListDetectsNoOther()
    ensures forall i | 0 <= i < 6 && i != 2 :: DetectAt(LIST_LINES, i, GAP_TABLES).None?
  {
    hide WordAfter, RemovalsBelow, Index, ParseGroupVersion;
    NoOccurrence("kind: List", API_VERSION);
    NoOccurrence("items:", API_VERSION);
    NoOccurrence("  kind: K", API_VERSION);
    NoOccurrence("  spec:", API_VERSION);
    NoVersion("kind: List");
    NoVersion("items:");
    NoVersion("  kind: K");
    NoVersion("  spec:");
  }

  lemma NoVersion(l: string)
    requires Index(l, API_VERSION) == -1
    ensures ParseApiVersion(l).None?
  {
  }

  lemma ListRemovals()
    ensures RemovedSpecFields(LIST_LINES, 2, 2, [Field("a", "")]) == [Removal("a", "", 5, 6)]
  {
    hide IsDocumentSeparator, IsSkippable, LineIndent, IsKeyLine, Blank, ValueOn;
    var lines, fields := LIST_LINES, [Field("a", "")];
    ListLines();
    ListKeys();
    ListValue();
    assert SpecLine(lines, 3, 2) == 4;
    assert ListedField(lines[5], fields) == Some(fields[0]);
    assert ValueEnd(lines, 5, 4) == 6;
    assert Removals(lines, 6, 2, Some(4), fields) == [];
    assert Removals(lines, 5, 2, None, fields) == [Removal("a", "", 5, 6)];
  }

  lemma ListLines()
    ensures forall i | 3 <= i < 6 ::
      var l := LIST_LINES[i];
      !IsDocumentSeparator(l) && !IsSkippable(l) && !Blank(l) && LineIndent(l) == [2, 2, 4][i - 3]
  {
    forall i | 3 <= i < 6
      ensures var l := LIST_LINES[i];
        !IsDocumentSeparator(l) && !IsSkippable(l) && !Blank(l) && LineIndent(l) == [2, 2, 4][i - 3]
    {
      IndentedLine(LIST_LINES[i], [2, 2, 4][i - 3]);
    }
  }

  lemma ListKeys()
    ensures !IsKeyLine("  kind: K", "spec") && IsKeyLine("  spec:", "spec") && IsKeyLine("    a: x", "a")
  {
    hide IsKeyLine, EndsKey;
    KeyLineExactly("  spec:", "spec");
    KeyLineExactly("    a: x", "a");
    assert "  spec:"[2..] == "spec" + ":" && "  spec:"[2..][5..] == "";
    assert "    a: x"[4..] == "a" + ":" + " x" && "    a: x"[4..][2..] == " x";
    KeyEnds();
    assert HasKeyAt("  spec:", "spec", 2) && HasKeyAt("    a: x", "a", 4);
    OtherKeyInList();
  }

  lemma KeyEnds()
    ensures EndsKey("") && EndsKey(" x")
  {
    assert " x"[0] == ' ';
  }

  lemma OtherKeyInList()
    ensures !IsKeyLine("  kind: K", "spec")
  {
    IndentIs("  kind: K", 2);
    assert "  kind: K"[2..][0] == 'k' && ("spec" + ":")[0] == 's';
  }

  lemma ListValue()
    ensures ValueOn("    a: x") == "x"
  {
    hide ValueOn;
    PlainExamples();
    assert "    a: x" == "    a" + ":" + " " + "x" + "";
    XIsNotSpace();
    assert ValueBetween("    a: x", "    a", " ", "x", "");
    ValueIsRead("    a: x", "    a", " ", "x", "");
  }

  lemma XIsNotSpace()
    ensures !IsSpace('x')
  {
  }
}
