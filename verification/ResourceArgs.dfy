/**
 Rewriting kubectl-style resource arguments, `get hr/podinfo`, into the form the sub-commands
 accept, `get helmreleases podinfo`, without touching flags and their values.

 How the flag parser of a command treats a flag is a parameter of the command: it refuses the
 flag, takes it alone, or takes the next argument as its value, and it can look at no more than
 the flag and whether the next argument exists and starts with a dash.
 */
module ResourceArgs {
  import opened Options

  datatype Next = NoNext | DashNext | PlainNext

  datatype Take = Refused | Alone | WithNext

  /** `longAlone` and `shortAlone` are the known flags that take no value. */
  datatype Command = Command(
    name: string, longAlone: set<string>, shortAlone: set<string>, parse: (string, Next) -> Take,
    children: seq<Command>)

  /** A kind, its names, the versions registered for it, and by verb its sub-command path. */
  datatype ResourceType = ResourceType(
    kind: string, plural: string, shortNames: seq<string>, group: string, versions: set<string>,
    paths: map<string, seq<string>>)

  type Table = seq<ResourceType>

  datatype Error = UnknownVersion(typ: string) | InvalidName(arg: string) | Unsupported(kind: string)
                 | MixedForms(arg: string) | DifferentType(arg: string)

  datatype Outcome = Args(args: seq<string>) | Err(error: Error)

  // ---------- TYPE/NAME ----------

  function Lower(s: string): string {
    if s == "" then ""
    else [if 'A' <= s[0] <= 'Z' then (s[0] as int + 32) as char else s[0]] + Lower(s[1..])
  }

  /** `strings.Cut` at the first `c`. */
  function Cut(s: string, c: char): (r: Option<(string, string)>)
    ensures r.Some? ==> s == r.value.0 + [c] + r.value.1 && c !in r.value.0
    ensures r.None? ==> c !in s
  {
    if s == "" then None
    else if s[0] == c then Some(("", s[1..]))
    else
      var r := Cut(s[1..], c);
      if r.None? then None else Some(([s[0]] + r.value.0, r.value.1))
  }

  /** The type and name of a TYPE/NAME argument. */
  function ParseResourceArg(arg: string): (r: Option<(string, string)>)
    ensures r.Some? <==> exists t, n :: arg == t + "/" + n && t != "" && n != "" && '/' !in t && '/' !in n
    ensures r.Some? ==> arg == r.value.0 + "/" + r.value.1 && r.value.0 != "" && r.value.1 != "" && '/' !in r.value.1
  {
    var r := Cut(arg, '/');
    CutIsUnique(arg, '/');
    if r.None? || r.value.0 == "" || r.value.1 == "" || '/' in r.value.1 then None else r
  }

  lemma CutIsUnique(arg: string, c: char)
    ensures forall t, n | arg == t + [c] + n && c !in t :: Cut(arg, c) == Some((t, n))
  {
    forall t, n | arg == t + [c] + n && c !in t ensures Cut(arg, c) == Some((t, n)) {
      assert arg[|t|] == c;
      var r := Cut(arg, c).value;
      assert arg[|r.0|] == c && arg[..|r.0|] == r.0;
      assert forall k | 0 <= k < |t| :: t[k] == arg[k];
      assert forall k | 0 <= k < |r.0| :: r.0[k] == arg[k];
      assert arg[..|t|] == t && arg[|t| + 1..] == n && arg[..|r.0|] == r.0 && arg[|r.0| + 1..] == r.1;
    }
  }

  predicate Names(rt: ResourceType, typ: string) {
    typ == Lower(rt.kind) || typ == rt.plural || typ in rt.shortNames
  }

  /** Index of the first entry that the lower-case type names, or the size of the table. */
  function LookupFrom(table: Table, typ: string, i: nat): (r: nat)
    requires i <= |table|
    ensures i <= r <= |table|
    decreases |table| - i
  {
    if i == |table| || Names(table[i], typ) then i else LookupFrom(table, typ, i + 1)
  }

  predicate MatchesSuffix(rt: ResourceType, suffix: string) {
    var s := Lower(suffix);
    s == rt.group || (var c := Cut(s, '.'); c.Some? && c.value.1 == rt.group && c.value.0 in rt.versions)
  }

  datatype Resolved = NotInTable | Mismatch | Entry(index: nat)

  /** The entry for TYPE[.VERSION][.GROUP]. */
  function Resolve(table: Table, typ: string): (r: Resolved)
    ensures r.Entry? ==> r.index < |table|
  {
    var c := Cut(typ, '.');
    var i := LookupFrom(table, Lower(if c.None? then typ else c.value.0), 0);
    if i == |table| then NotInTable
    else if c.Some? && !MatchesSuffix(table[i], c.value.1) then Mismatch
    else Entry(i)
  }

  /** A name that would turn into a flag. */
  predicate IsDashed(name: string) {
    name != "" && name[0] == '-'
  }

  // ---------- What a TYPE refers to ----------

  const UPPER_CASE := "ABCDEFGHIJKLMNOPQRSTUVWXYZ"
  const LOWER_CASE := "abcdefghijklmnopqrstuvwxyz"

  lemma Letters()
    ensures |UPPER_CASE| == 26 == |LOWER_CASE|
    ensures forall j | 0 <= j < 26 :: UPPER_CASE[j] as int == 'A' as int + j && LOWER_CASE[j] as int == 'a' as int + j
  {
  }

  /** `y` is `x` in lower case: only the upper-case letters change, each to its lower-case one. */
  predicate IsLowerOf(x: char, y: char) {
    (x !in UPPER_CASE ==> y == x) && forall j | 0 <= j < 26 :: x == UPPER_CASE[j] ==> y == LOWER_CASE[j]
  }

  lemma {:induction false} LowerExactly(s: string)
    ensures |Lower(s)| == |s| && forall k | 0 <= k < |s| :: IsLowerOf(s[k], Lower(s)[k])
  {
    hide IsLowerOf;
    if s != "" {
      LowerExactly(s[1..]);
      FirstIsLower(s);
      assert forall k | 1 <= k < |s| :: s[k] == s[1..][k - 1] && Lower(s)[k] == Lower(s[1..])[k - 1];
    }
  }

  lemma FirstIsLower(s: string)
    requires s != ""
    ensures IsLowerOf(s[0], Lower(s)[0])
  {
    hide UPPER_CASE, LOWER_CASE;
    Letters();
    if 'A' <= s[0] <= 'Z' { assert s[0] == UPPER_CASE[s[0] as int - 'A' as int]; }
  }

  /** The names of an entry: its kind in lower case, its plural and its short names. */
  function AllNames(rt: ResourceType): set<string> {
    {Lower(rt.kind), rt.plural} + set n <- rt.shortNames
  }

  /** The suffix is the group of the entry, or one of its versions and the group. */
  predicate IsSuffixOf(rt: ResourceType, suffix: string) {
    Lower(suffix) == rt.group || exists v <- rt.versions :: '.' !in v && Lower(suffix) == v + "." + rt.group
  }

  lemma SuffixExactly(rt: ResourceType, suffix: string)
    ensures MatchesSuffix(rt, suffix) <==> IsSuffixOf(rt, suffix)
  {
    hide Lower, Cut;
    CutIsUnique(Lower(suffix), '.');
  }

  /** `i` is the first entry with the name, or there is none. */
  predicate IsFirstNamed(table: Table, base: string, i: nat) {
    && i <= |table| && (forall k | 0 <= k < i :: Lower(base) !in AllNames(table[k]))
    && (i < |table| ==> Lower(base) in AllNames(table[i]))
  }

  lemma {:induction false} LookupIsFirst(table: Table, base: string, i: nat)
    requires i <= |table| && forall k | 0 <= k < i :: Lower(base) !in AllNames(table[k])
    ensures IsFirstNamed(table, base, LookupFrom(table, Lower(base), i))
    decreases |table| - i
  {
    hide Lower;
    if i < |table| && !Names(table[i], Lower(base)) { LookupIsFirst(table, base, i + 1); }
  }

  /**
   What TYPE or TYPE.SUFFIX refers to: the first entry that has the TYPE, in any case, among its
   names. A suffix must then be that entry's group, or one of its versions and the group.
   */
  lemma ResolveExactly(table: Table, base: string, suffix: Option<string>, i: nat)
    requires '.' !in base && IsFirstNamed(table, base, i)
    ensures Resolve(table, if suffix.None? then base else base + "." + suffix.value)
            == if i == |table| then NotInTable
               else if suffix.None? || IsSuffixOf(table[i], suffix.value) then Entry(i) else Mismatch
  {
    hide Lower, Cut, MatchesSuffix, IsSuffixOf, AllNames, LookupFrom;
    CutIsUnique(if suffix.None? then base else base + "." + suffix.value, '.');
    if suffix.None? { NoCut(base, '.'); }
    LookupIsFirst(table, base, 0);
    OneFirst(table, base, i, LookupFrom(table, Lower(base), 0));
    if i < |table| && suffix.Some? { SuffixExactly(table[i], suffix.value); }
  }

  lemma NoCut(s: string, c: char)
    requires c !in s
    ensures Cut(s, c).None?
  {
  }

  lemma OneFirst(table: Table, base: string, i: nat, j: nat)
    requires IsFirstNamed(table, base, i) && IsFirstNamed(table, base, j)
    ensures i == j
  {
    hide Lower, AllNames;
  }

  // ---------- Looking up sub-commands ----------

  /** A flag, not "--", whose value is the next argument, as cobra sees it. */
  predicate SkipsValue(c: Command, a: string)
    requires IsDashed(a)
  {
    if |a| >= 2 && a[1] == '-' then '=' !in a && a[2..] !in c.longAlone
    else |a| == 2 && a[1] != '=' && a[1..] !in c.shortAlone
  }

  /**
   Which flags take the next argument: a long one without a value of its own that is not known to
   take none, and a single letter that is not known to take none. A group of letters takes none.
   */
  lemma FlagValuesExactly(c: Command, name: string, x: char)
    ensures IsDashed("--" + name) && IsDashed("-" + [x])
    ensures SkipsValue(c, "--" + name) <==> '=' !in name && name !in c.longAlone
    ensures x != '-' ==> (SkipsValue(c, "-" + [x]) <==> x != '=' && [x] !in c.shortAlone)
    ensures name != "" && x != '-' ==> IsDashed("-" + [x] + name) && !SkipsValue(c, "-" + [x] + name)
  {
    var long, short := "--" + name, "-" + [x];
    assert long[2..] == name && short[1..] == [x] && long[0] == '-' && long[1] == '-';
    assert '=' in long <==> '=' in name by { assert forall ch :: ch in long <==> ch == '-' || ch in name; }
  }

  /** Index of the first positional argument or "--" from `i` on, or -1. */
  function NextFrom(c: Command, args: seq<string>, i: nat): (r: int)
    ensures r == -1 || (i <= r < |args| && args[r] != "" && (args[r] == "--" || !IsDashed(args[r])))
    decreases |args| - i
  {
    if i >= |args| then -1
    else if args[i] == "--" then i
    else if IsDashed(args[i]) then NextFrom(c, args, if SkipsValue(c, args[i]) then i + 2 else i + 1)
    else if args[i] != "" then i
    else NextFrom(c, args, i + 1)
  }

  method NextPositional(c: Command, args: seq<string>) returns (r: int)
    ensures r == NextFrom(c, args, 0)
  {
    var i := 0;
    while i < |args|
      invariant 0 <= i
      invariant NextFrom(c, args, 0) == NextFrom(c, args, i)
    {
      var a := args[i];
      if a == "--" {
        return i;
      } else if IsDashed(a) {
        if SkipsValue(c, a) {
          i := i + 1;
        }
      } else if a != "" {
        return i;
      }
      i := i + 1;
    }
    return -1;
  }

  /** The first sub-command of that name. */
  function Child(cs: seq<Command>, name: string): (c: Option<Command>)
    ensures c.Some? ==> c.value in cs && c.value.name == name
    ensures c.None? ==> forall d <- cs :: d.name != name
  {
    if cs == [] then None else if cs[0].name == name then Some(cs[0]) else Child(cs[1..], name)
  }

  /** The command that cobra finds, and its depth under the one it starts from. */
  function Find(c: Command, args: seq<string>, depth: nat): (r: (Command, nat))
    ensures r.1 >= depth
    decreases |args|
  {
    var i := NextFrom(c, args, 0);
    if i < 0 || args[i] == "--" then (c, depth)
    else
      var d := Child(c.children, args[i]);
      if d.None? then (c, depth) else Find(d.value, args[..i] + args[i + 1..], depth + 1)
  }

  /** A command directly under the root that handles some kind. */
  predicate IsResourceVerb(table: Table, found: (Command, nat)) {
    found.1 == 1 && exists i | 0 <= i < |table| :: found.0.name in table[i].paths
  }

  // ---------- The operands of a sub-command ----------

  /** The parser takes for an operand what does not start with a dash, and a lone dash. */
  predicate IsOperand(a: string) {
    !IsDashed(a) || a == "-"
  }

  /** Operands are the lone dash, the empty argument, and what does not start with a dash. */
  lemma OperandsHaveNoDash(x: char, rest: string)
    ensures IsOperand("-") && IsOperand("") && !IsOperand("-" + [x] + rest)
    ensures x != '-' ==> IsOperand([x] + rest)
  {
  }

  function NextOf(args: seq<string>, i: nat): Next {
    if i >= |args| then NoNext else if IsDashed(args[i]) then DashNext else PlainNext
  }

  /** `at` is where the remaining arguments start: with an operand, or after the "--". */
  datatype Parsed = ParseError | Stopped(at: nat, atDash: bool)

  /** A parse from `i` on that stops at the first operand. */
  function ParseStop(parse: (string, Next) -> Take, args: seq<string>, i: nat): (r: Parsed)
    requires i <= |args|
    ensures r.Stopped? ==> i <= r.at <= |args|
    decreases |args| - i
  {
    if i == |args| || IsOperand(args[i]) then Stopped(i, false)
    else if args[i] == "--" then Stopped(i + 1, true)
    else
      match parse(args[i], NextOf(args, i + 1))
      case Refused => ParseError
      case Alone => ParseStop(parse, args, i + 1)
      case WithNext => if i + 2 <= |args| then ParseStop(parse, args, i + 2) else ParseError
  }

  function Range(a: nat, b: nat): (r: seq<nat>)
    decreases b - a
  {
    if a >= b then [] else [a] + Range(a + 1, b)
  }

  /** One pass from `i` on that goes on after an operand: the positions of the operands, or None. */
  function OnePass(parse: (string, Next) -> Take, args: seq<string>, i: nat): Option<seq<nat>>
    requires i <= |args|
    decreases |args| - i
  {
    if i == |args| then Some([])
    else if IsOperand(args[i]) then
      var r := OnePass(parse, args, i + 1);
      if r.None? then None else Some([i] + r.value)
    else if args[i] == "--" then Some(Range(i + 1, |args|))
    else
      match parse(args[i], NextOf(args, i + 1))
      case Refused => None
      case Alone => OnePass(parse, args, i + 1)
      case WithNext => if i + 2 <= |args| then OnePass(parse, args, i + 2) else None
  }

  function Operands(parse: (string, Next) -> Take, args: seq<string>): seq<nat> {
    var r := OnePass(parse, args, 0);
    if r.None? then [] else r.value
  }

  /** Stopping at an operand and going on after it is going on. */
  lemma {:induction false} StopAndResume(parse: (string, Next) -> Take, args: seq<string>, i: nat)
    requires i <= |args|
    ensures var p := ParseStop(parse, args, i);
            OnePass(parse, args, i) ==
            if p.ParseError? then None
            else if p.at == |args| then Some([])
            else if p.atDash then Some(Range(p.at, |args|))
            else
              var r := OnePass(parse, args, p.at + 1);
              if r.None? then None else Some([p.at] + r.value)
    decreases |args| - i
  {
    hide IsOperand, NextOf;
    if i < |args| && !IsOperand(args[i]) && args[i] != "--" {
      match parse(args[i], NextOf(args, i + 1)) {
        case Refused =>
        case Alone => StopAndResume(parse, args, i + 1);
        case WithNext => if i + 2 <= |args| { StopAndResume(parse, args, i + 2); }
      }
    }
  }

  /** The positions of the operands, by parsing again after each of them; none for an error. */
  method OperandIndices(parse: (string, Next) -> Take, args: seq<string>) returns (indices: seq<nat>)
    ensures indices == Operands(parse, args)
  {
    hide IsOperand, NextOf, ParseStop;
    indices := [];
    var pos := 0;
    while pos < |args|
      invariant 0 <= pos <= |args|
      invariant var all, r := OnePass(parse, args, 0), OnePass(parse, args, pos);
                all.Some? == r.Some? && (r.Some? ==> all.value == indices + r.value)
      decreases |args| - pos
    {
      var parsed := ParseStop(parse, args, pos);
      StopAndResume(parse, args, pos);
      if parsed.ParseError? {
        return [];
      }
      if parsed.at == |args| {
        break;
      }
      var start := parsed.at;
      if parsed.atDash {
        indices := AppendFrom(indices, start, |args|);
        return;
      }
      AppendStep(indices, start, OnePass(parse, args, start + 1));
      indices := indices + [start];
      pos := start + 1;
    }
  }

  lemma AppendStep(indices: seq<nat>, start: nat, r: Option<seq<nat>>)
    ensures r.Some? ==> indices + ([start] + r.value) == indices + [start] + r.value
  {
  }

  /** The inner loop: all positions from `start` on. */
  method AppendFrom(before: seq<nat>, start: nat, n: nat) returns (indices: seq<nat>)
    requires start <= n
    ensures indices == before + Range(start, n)
  {
    indices := before;
    var j := start;
    while j < n
      invariant start <= j <= n && before + Range(start, n) == indices + Range(j, n)
    {
      indices := indices + [j];
      j := j + 1;
    }
  }

  lemma {:induction false} RangeIs(a: nat, b: nat)
    ensures |Range(a, b)| == if a <= b then b - a else 0
    ensures forall k | 0 <= k < |Range(a, b)| :: Range(a, b)[k] == a + k
    decreases b - a
  {
    if a < b { RangeIs(a + 1, b); }
  }

  /** The positions are in range and strictly increasing. */
  lemma {:induction false} OnePassIncreases(parse: (string, Next) -> Take, args: seq<string>, i: nat)
    requires i <= |args| && OnePass(parse, args, i).Some?
    ensures var r := OnePass(parse, args, i).value;
            && (forall k | 0 <= k < |r| :: i <= r[k] < |args|)
            && (forall j, k | 0 <= j < k < |r| :: r[j] < r[k])
    decreases |args| - i
  {
    hide IsOperand, NextOf;
    if i < |args| {
      if IsOperand(args[i]) {
        OnePassIncreases(parse, args, i + 1);
      } else if args[i] == "--" {
        RangeIs(i + 1, |args|);
      } else {
        match parse(args[i], NextOf(args, i + 1)) {
          case Alone => OnePassIncreases(parse, args, i + 1);
          case WithNext => OnePassIncreases(parse, args, i + 2);
        }
      }
    }
  }

  // ---------- Rewriting the operands ----------

  /** The checks of one further operand, and its name. */
  function CheckOperand(table: Table, entry: nat, arg: string): (r: Outcome)
    ensures r.Args? ==> |r.args| == 1
  {
    var tn := ParseResourceArg(arg);
    if tn.None? then Err(MixedForms(arg))
    else
      match Resolve(table, tn.value.0)
      case Mismatch => Err(UnknownVersion(tn.value.0))
      case NotInTable => Err(DifferentType(arg))
      case Entry(i) =>
        if i != entry then Err(DifferentType(arg))
        else if IsDashed(tn.value.1) then Err(InvalidName(arg)) else Args([tn.value.1])
  }

  /** The operands at `ps[k..]` replaced by their names, or the first error. */
  function RewriteFrom(table: Table, entry: nat, rest: seq<string>, ps: seq<nat>, k: nat): Outcome
    requires k <= |ps| && forall j | 0 <= j < |ps| :: ps[j] < |rest|
    decreases |ps| - k
  {
    if k == |ps| then Args(rest)
    else
      var c := CheckOperand(table, entry, rest[ps[k]]);
      if c.Err? then c else RewriteFrom(table, entry, rest[ps[k] := c.args[0]], ps, k + 1)
  }

  /** The first further operand that is refused, and the names of those before it. */
  method RewriteOperands(table: Table, entry: nat, args: seq<string>, ps: seq<nat>) returns (r: Outcome)
    requires forall j | 0 <= j < |ps| :: ps[j] < |args|
    ensures r == RewriteFrom(table, entry, args, ps, 0)
  {
    hide CheckOperand;
    var rest := args;
    var k := 0;
    while k < |ps|
      invariant 0 <= k <= |ps| && |rest| == |args|
      invariant RewriteFrom(table, entry, args, ps, 0) == RewriteFrom(table, entry, rest, ps, k)
    {
      var c := CheckOperand(table, entry, rest[ps[k]]);
      if c.Err? {
        return c;
      }
      rest := rest[ps[k] := c.args[0]];
      k := k + 1;
    }
    return Args(rest);
  }

  lemma OperandsInRange(parse: (string, Next) -> Take, args: seq<string>)
    ensures var ps := Operands(parse, args);
            (forall j | 0 <= j < |ps| :: ps[j] < |args|) && (forall j, k | 0 <= j < k < |ps| :: ps[j] < ps[k])
  {
    if OnePass(parse, args, 0).Some? { OnePassIncreases(parse, args, 0); }
  }

  /** What follows the first resource argument, rewritten for the sub-command `sub`. */
  function RewriteRest(table: Table, entry: nat, sub: Command, rest: seq<string>): Outcome {
    OperandsInRange(sub.parse, rest);
    RewriteFrom(table, entry, rest, Operands(sub.parse, rest), 0)
  }

  /** The arguments with the resource argument at `at` resolved to `entry`. */
  function RewriteAt(table: Table, verb: Command, args: seq<string>, at: nat, entry: nat, name: Option<string>): Outcome
    requires at < |args| && entry < |table|
  {
    if verb.name !in table[entry].paths then Err(Unsupported(table[entry].kind))
    else
      var path := table[entry].paths[verb.name];
      if name.None? then Args(args[..at] + path + args[at + 1..])
      else
        var rest := RewriteRest(table, entry, Find(verb, path, 0).0, args[at + 1..]);
        if rest.Err? then rest else Args(args[..at] + path + ([name.value] + rest.args))
  }

  /** The position of the resource argument of a verb: the first positional one after the verb's. */
  function ResourceAt(root: Command, table: Table, args: seq<string>): (r: Option<nat>)
    ensures r.Some? ==> r.value < |args|
  {
    var v := NextFrom(root, args, 0);
    if !IsResourceVerb(table, Find(root, args, 0)) || v < 0 || args[v] == "--" then None
    else
      var i := NextFrom(Find(root, args, 0).0, args[v + 1..], 0);
      if i < 0 || args[v + 1..][i] == "--" then None else Some(v + 1 + i)
  }

  function Normalize(root: Command, table: Table, args: seq<string>): Outcome {
    var at := ResourceAt(root, table, args);
    if at.None? then Args(args)
    else
      var arg := args[at.value];
      var tn := ParseResourceArg(arg);
      var typ := if tn.Some? then tn.value.0 else arg;
      match Resolve(table, typ)
      case Mismatch => Err(UnknownVersion(typ))
      case NotInTable => Args(args)
      case Entry(entry) =>
        if tn.Some? && IsDashed(tn.value.1) then Err(InvalidName(arg))
        else RewriteAt(table, Find(root, args, 0).0, args, at.value, entry, if tn.Some? then Some(tn.value.1) else None)
  }

  /** The arguments for the sub-commands; what is not recognized is left unchanged. */
  method NormalizeResourceArgs(root: Command, table: Table, args: seq<string>) returns (r: Outcome)
    ensures r == Normalize(root, table, args)
  {
    hide NextFrom, Find, Resolve, ParseResourceArg, RewriteAt;
    var found := Find(root, args, 0);
    if !IsResourceVerb(table, found) {
      return Args(args);
    }
    var verb := found.0;
    var v := NextPositional(root, args);
    if v < 0 || args[v] == "--" {
      return Args(args);
    }
    var after := args[v + 1..];
    var i := NextPositional(verb, after);
    if i < 0 || after[i] == "--" {
      return Args(args);
    }
    assert ResourceAt(root, table, args) == Some(v + 1 + i) && after[i] == args[v + 1 + i];
    var tn := ParseResourceArg(after[i]);
    var typ := if tn.Some? then tn.value.0 else after[i];
    var resolved := Resolve(table, typ);
    if resolved.Mismatch? {
      return Err(UnknownVersion(typ));
    }
    if resolved.NotInTable? {
      return Args(args);
    }
    if tn.Some? && IsDashed(tn.value.1) {
      return Err(InvalidName(after[i]));
    }
    r := RewriteLine(table, verb, args, v + 1 + i, resolved.index, if tn.Some? then Some(tn.value.1) else None);
  }

  /** The second half of the rewriting, once the resource argument is resolved. */
  method RewriteLine(table: Table, verb: Command, args: seq<string>, at: nat, entry: nat, name: Option<string>)
    returns (r: Outcome)
    requires at < |args| && entry < |table|
    ensures r == RewriteAt(table, verb, args, at, entry, name)
  {
    hide Find, RewriteFrom, OnePass;
    var rt := table[entry];
    if verb.name !in rt.paths {
      return Err(Unsupported(rt.kind));
    }
    var path, rest := rt.paths[verb.name], args[at + 1..];
    if name.Some? {
      var sub := Find(verb, path, 0).0;
      var indices := OperandIndices(sub.parse, rest);
      OperandsInRange(sub.parse, rest);
      var rewritten := RewriteOperands(table, entry, rest, indices);
      if rewritten.Err? {
        return rewritten;
      }
      rest := [name.value] + rewritten.args;
    }
    return Args(args[..at] + path + rest);
  }

  // ---------- What the rewriting keeps ----------

  /** `arg` is TYPE/NAME with a type of the entry and a name that is no flag. */
  predicate HasName(table: Table, entry: nat, arg: string, name: string) {
    var tn := ParseResourceArg(arg);
    tn.Some? && tn.value.1 == name && Resolve(table, tn.value.0) == Entry(entry) && !IsDashed(name)
  }

  /**
   A successful rewriting replaces exactly the operands, each by its name, all of the same
   entry; a failed one has an operand that is not of that form.
   */
  lemma {:induction false} RewritesOperandsOnly(table: Table, entry: nat, rest: seq<string>, ps: seq<nat>, k: nat)
    requires k <= |ps| && (forall j | 0 <= j < |ps| :: ps[j] < |rest|) && (forall i, j | 0 <= i < j < |ps| ::
        ps[i] < ps[j])
    ensures var r := RewriteFrom(table, entry, rest, ps, k);
            && (r.Args? ==> |r.args| == |rest|)
            && (r.Args? ==> forall i | 0 <= i < |rest| && i !in ps[k..] :: r.args[i] == rest[i])
            && (r.Args? ==> forall j | k <= j < |ps| :: HasName(table, entry, rest[ps[j]], r.args[ps[j]]))
            && (r.Err? ==> exists j | k <= j < |ps| :: CheckOperand(table, entry, rest[ps[j]]) == r)
    decreases |ps| - k
  {
    hide ParseResourceArg, Resolve;
    if k < |ps| {
      var c := CheckOperand(table, entry, rest[ps[k]]);
      if c.Args? {
        var next := rest[ps[k] := c.args[0]];
        RewritesOperandsOnly(table, entry, next, ps, k + 1);
        assert forall i :: i in ps[k..] <==> i == ps[k] || i in ps[k + 1..];
        assert ps[k] !in ps[k + 1..];
      }
    }
  }

  /** Arguments whose operands were replaced by plain words: the parser sees the same operands. */
  lemma {:induction false} SameOperands(parse: (string, Next) -> Take, args: seq<string>, brgs: seq<string>, i: nat)
    requires i <= |args| == |brgs| && OnePass(parse, args, i).Some?
    requires forall j | i <= j < |args| && j !in OnePass(parse, args, i).value :: brgs[j] == args[j]
    requires forall j <- OnePass(parse, args, i).value | i <= j < |args| :: '/' in args[j] && !IsDashed(brgs[j])
    ensures OnePass(parse, brgs, i) == OnePass(parse, args, i)
    decreases |args| - i, 0
  {
    if i < |args| {
      var all := OnePass(parse, args, i).value;
      if IsOperand(args[i]) {
        assert i in all;
        SameOperandsTail(parse, args, brgs, i, i + 1, [i]);
      } else if args[i] == "--" {
        NotAnOperand(parse, args, i);
      } else {
        NotAnOperand(parse, args, i);
        SameNext(parse, args, brgs, i);
        match parse(args[i], NextOf(args, i + 1)) {
          case Alone => SameOperandsTail(parse, args, brgs, i, i + 1, []);
          case WithNext => SameOperandsTail(parse, args, brgs, i, i + 2, []);
        }
      }
    }
  }

  /** The inductive step: the rest of the arguments after what position `i` takes. */
  lemma {:induction false} SameOperandsTail(parse: (string, Next) -> Take, args: seq<string>, brgs: seq<string>,
      i: nat, n: nat, head: seq<nat>)
    requires i < n <= |args| == |brgs| && OnePass(parse, args, i).Some? && OnePass(parse, args, n).Some?
    requires OnePass(parse, args, i).value == head + OnePass(parse, args, n).value && forall h <- head :: h < n
    requires forall j | i <= j < |args| && j !in OnePass(parse, args, i).value :: brgs[j] == args[j]
    requires forall j <- OnePass(parse, args, i).value | i <= j < |args| :: '/' in args[j] && !IsDashed(brgs[j])
    ensures OnePass(parse, brgs, n) == OnePass(parse, args, n)
    decreases |args| - n, 1
  {
    hide IsOperand, IsDashed, NextOf;
    var all, tail := OnePass(parse, args, i).value, OnePass(parse, args, n).value;
    assert forall j :: j in all <==> j in head || j in tail;
    SameOperands(parse, args, brgs, n);
  }

  lemma NotAnOperand(parse: (string, Next) -> Take, args: seq<string>, i: nat)
    requires i < |args| && OnePass(parse, args, i).Some? && !IsOperand(args[i])
    ensures i !in OnePass(parse, args, i).value
  {
    hide IsOperand, NextOf;
    if args[i] == "--" {
      RangeIs(i + 1, |args|);
    } else {
      match parse(args[i], NextOf(args, i + 1)) {
        case Alone => OnePassIncreases(parse, args, i + 1);
        case WithNext => OnePassIncreases(parse, args, i + 2);
      }
    }
  }

  /** What a flag sees of the next argument is the same. */
  lemma SameNext(parse: (string, Next) -> Take, args: seq<string>, brgs: seq<string>, i: nat)
    requires i < |args| == |brgs| && OnePass(parse, args, i).Some? && !IsOperand(args[i]) && args[i] != "--"
    requires forall j | i <= j < |args| && j !in OnePass(parse, args, i).value :: brgs[j] == args[j]
    requires forall j <- OnePass(parse, args, i).value | i <= j < |args| :: '/' in args[j] && !IsDashed(brgs[j])
    ensures NextOf(brgs, i + 1) == NextOf(args, i + 1)
  {
    if i + 1 < |args| && i + 1 in OnePass(parse, args, i).value {
      if !IsOperand(args[i + 1]) {
        match parse(args[i], NextOf(args, i + 1)) {
          case Alone => NotAnOperand(parse, args, i + 1);
          case WithNext => OnePassIncreases(parse, args, i + 2);
        }
      }
    }
  }

  /** Every position moved by one. */
  function Shift(ps: seq<nat>): (r: seq<nat>)
    ensures |r| == |ps| && forall k | 0 <= k < |ps| :: r[k] == ps[k] + 1
  {
    if ps == [] then [] else [ps[0] + 1] + Shift(ps[1..])
  }

  lemma {:induction false} ShiftRange(a: nat, b: nat)
    ensures Shift(Range(a, b)) == Range(a + 1, b + 1)
    decreases b - a
  {
    if a < b { ShiftRange(a + 1, b); }
  }

  lemma ShiftFirst(i: nat, r: Option<seq<nat>>)
    ensures r.Some? ==> Shift([i] + r.value) == [i + 1] + Shift(r.value)
  {
    if r.Some? { assert ([i] + r.value)[1..] == r.value; }
  }

  lemma {:induction false} OnePassAfter(parse: (string, Next) -> Take, first: string, args: seq<string>, i: nat)
    requires i <= |args|
    ensures var r := OnePass(parse, args, i);
            OnePass(parse, [first] + args, i + 1) == if r.None? then None else Some(Shift(r.value))
    decreases |args| - i
  {
    hide IsOperand, IsDashed;
    var all := [first] + args;
    if i < |args| {
      assert all[i + 1] == args[i] && NextOf(all, i + 2) == NextOf(args, i + 1);
      if IsOperand(args[i]) {
        OnePassAfter(parse, first, args, i + 1);
        ShiftFirst(i, OnePass(parse, args, i + 1));
      } else if args[i] == "--" {
        ShiftRange(i + 1, |args|);
      } else {
        match parse(args[i], NextOf(args, i + 1)) {
          case Refused =>
          case Alone => OnePassAfter(parse, first, args, i + 1);
          case WithNext => if i + 2 <= |args| { OnePassAfter(parse, first, args, i + 2); }
        }
      }
    }
  }

  /**
   The rewritten rest: flags, their values and everything else that is no operand are as they
   were, and every operand is the name of a resource of the same entry.
   */
  lemma RestIsKept(table: Table, entry: nat, sub: Command, rest: seq<string>, out: seq<string>)
    requires RewriteRest(table, entry, sub, rest) == Args(out)
    ensures |out| == |rest|
    ensures forall i | 0 <= i < |rest| && i !in Operands(sub.parse, rest) :: out[i] == rest[i]
    ensures forall p <- Operands(sub.parse, rest) :: p < |rest| && HasName(table, entry, rest[p], out[p])
  {
    hide HasName, Operands, RewriteFrom;
    var ps := Operands(sub.parse, rest);
    OperandsInRange(sub.parse, rest);
    RewritesOperandsOnly(table, entry, rest, ps, 0);
    assert ps[0..] == ps;
    forall p <- ps ensures p < |rest| && HasName(table, entry, rest[p], out[p]) {
      var j :| 0 <= j < |ps| && ps[j] == p;
    }
  }

  /** The sub-command's parser finds the first name and the operands of the rest, and no other. */
  lemma SubCommandGetsTheNames(table: Table, entry: nat, sub: Command, rest: seq<string>, name: string,
      out: seq<string>)
    requires RewriteRest(table, entry, sub, rest) == Args(out) && !IsDashed(name)
    requires OnePass(sub.parse, rest, 0).Some?
    ensures Operands(sub.parse, [name] + out) == [0] + Shift(Operands(sub.parse, rest))
  {
    hide RewriteRest, OnePass, IsDashed, HasName;
    RestIsKept(table, entry, sub, rest, out);
    var ps := Operands(sub.parse, rest);
    forall p <- ps ensures '/' in rest[p] && !IsDashed(out[p]) { NamedHasSlash(table, entry, rest[p], out[p]); }
    SameOperands(sub.parse, rest, out, 0);
    OnePassAfter(sub.parse, name, out, 0);
    FirstIsOperand(sub.parse, name, out);
  }

  lemma NamedHasSlash(table: Table, entry: nat, arg: string, name: string)
    requires HasName(table, entry, arg, name)
    ensures '/' in arg && !IsDashed(name)
  {
    hide Resolve;
    var tn := ParseResourceArg(arg).value;
    assert arg[|tn.0|] == '/';
  }

  lemma FirstIsOperand(parse: (string, Next) -> Take, name: string, rest: seq<string>)
    requires !IsDashed(name) && OnePass(parse, [name] + rest, 1).Some?
    ensures Operands(parse, [name] + rest) == [0] + OnePass(parse, [name] + rest, 1).value
  {
    assert ([name] + rest)[0] == name;
  }

  /**
   The form of a rewritten line: what precedes the resource argument is kept, the path of its
   type takes its place, and then its name, if it has one, and the rewritten rest.
   */
  lemma RewrittenLine(root: Command, table: Table, args: seq<string>, out: seq<string>) returns (at: nat, entry: nat)
    requires Normalize(root, table, args) == Args(out) && out != args
    ensures at < |args| && entry < |table| && ResourceAt(root, table, args) == Some(at)
    ensures var verb := Find(root, args, 0).0;
            && verb.name in table[entry].paths
            && var path, tn := table[entry].paths[verb.name], ParseResourceArg(args[at]);
            && Resolve(table, if tn.Some? then tn.value.0 else args[at]) == Entry(entry)
            && (tn.None? ==> |out| == |args| + |path| - 1) && (tn.Some? ==> |out| == |args| + |path|)
            && out[..at] == args[..at] && out[at..at + |path|] == path
            && (tn.None? ==> out[at + |path|..] == args[at + 1..])
            && (tn.Some? ==>
                 !IsDashed(tn.value.1) && out[at + |path|] == tn.value.1
                 && RewriteRest(table, entry, Find(verb, path, 0).0, args[at + 1..]) == Args(out[at + |path| + 1..]))
  {
    hide NextFrom, Find, Resolve, ParseResourceArg, RewriteFrom, OnePass, ResourceAt, RewriteRest;
    at := ResourceAt(root, table, args).value;
    var tn := ParseResourceArg(args[at]);
    entry := Resolve(table, if tn.Some? then tn.value.0 else args[at]).index;
    var verb := Find(root, args, 0).0;
    var path := table[entry].paths[verb.name];
    if tn.Some? {
      var rest := RewriteRest(table, entry, Find(verb, path, 0).0, args[at + 1..]).args;
      RestIsKept(table, entry, Find(verb, path, 0).0, args[at + 1..], rest);
      LineParts(args[..at], path, [tn.value.1] + rest, out);
    } else {
      LineParts(args[..at], path, args[at + 1..], out);
    }
  }

  lemma LineParts(a: seq<string>, b: seq<string>, c: seq<string>, out: seq<string>)
    requires out == a + b + c
    ensures |out| == |a| + |b| + |c| && out[..|a|] == a && out[|a|..|a| + |b|] == b && out[|a| + |b|..] == c
    ensures c != [] ==> out[|a| + |b|] == c[0] && out[|a| + |b| + 1..] == c[1..]
  {
  }

  // ---------- What the rewriting decides ----------

  predicate IsTypeAndName(arg: string, t: string, n: string) {
    arg == t + "/" + n && t != "" && n != "" && '/' !in t && '/' !in n
  }

  lemma ParsesTypeAndName(arg: string, t: string, n: string)
    ensures IsTypeAndName(arg, t, n) <==> ParseResourceArg(arg) == Some((t, n))
  {
    hide Cut;
    CutIsUnique(arg, '/');
    assert t + "/" + n == t + ['/'] + n;
  }

  /** The error that tells why an operand cannot follow a resource of the entry. */
  ghost predicate IsRefusal(table: Table, entry: nat, arg: string, e: Error) {
    match e
    case MixedForms(a) => a == arg && forall t, n :: !IsTypeAndName(arg, t, n)
    case UnknownVersion(t) => exists n :: IsTypeAndName(arg, t, n) && Resolve(table, t) == Mismatch
    case DifferentType(a) => a == arg && exists t, n ::
      IsTypeAndName(arg, t, n) && Resolve(table, t) !in {Mismatch, Entry(entry)}
    case InvalidName(a) => a == arg && exists t, n ::
      IsTypeAndName(arg, t, n) && Resolve(table, t) == Entry(entry) && IsDashed(n)
    case Unsupported(_) => false
  }

  /** An operand becomes its name exactly when it names a resource of the entry, and is refused otherwise. */
  lemma OperandExactly(table: Table, entry: nat, arg: string)
    ensures var c := CheckOperand(table, entry, arg);
            && (forall n :: c == Args([n]) <==> HasName(table, entry, arg, n))
            && (c.Err? ==> IsRefusal(table, entry, arg, c.error))
  {
    hide ParseResourceArg, Resolve, IsTypeAndName;
    forall t, n ensures IsTypeAndName(arg, t, n) <==> ParseResourceArg(arg) == Some((t, n)) {
      ParsesTypeAndName(arg, t, n);
    }
    var c := CheckOperand(table, entry, arg);
    forall n ensures c == Args([n]) <==> HasName(table, entry, arg, n) {
      if c.Args? { assert c.args == [c.args[0]]; }
    }
  }

  /** Only one error can refuse an operand, and none refuses one that has a name. */
  lemma RefusalIsUnique(table: Table, entry: nat, arg: string, e: Error)
    requires IsRefusal(table, entry, arg, e)
    ensures CheckOperand(table, entry, arg) == Err(e)
  {
    hide ParseResourceArg, Resolve, IsTypeAndName;
    forall t, n ensures IsTypeAndName(arg, t, n) <==> ParseResourceArg(arg) == Some((t, n)) {
      ParsesTypeAndName(arg, t, n);
    }
  }

  /**
   The operands are rewritten exactly when all of them name resources of the entry; otherwise the
   first that does not tells the error.
   */
  lemma {:induction false} RewritesExactly(table: Table, entry: nat, rest: seq<string>, ps: seq<nat>, k: nat)
    requires k <= |ps| && (forall j | 0 <= j < |ps| :: ps[j] < |rest|)
    requires forall i, j | 0 <= i < j < |ps| :: ps[i] < ps[j]
    ensures var r := RewriteFrom(table, entry, rest, ps, k);
            && (r.Args? <==> forall j | k <= j < |ps| :: CheckOperand(table, entry, rest[ps[j]]).Args?)
            && (r.Err? ==> exists j ::
                  && k <= j < |ps| && IsRefusal(table, entry, rest[ps[j]], r.error)
                  && forall i | k <= i < j :: CheckOperand(table, entry, rest[ps[i]]).Args?)
    decreases |ps| - k
  {
    hide CheckOperand, IsRefusal;
    if k < |ps| {
      OperandExactly(table, entry, rest[ps[k]]);
      var c := CheckOperand(table, entry, rest[ps[k]]);
      if c.Args? {
        var next := rest[ps[k] := c.args[0]];
        RewritesExactly(table, entry, next, ps, k + 1);
        assert forall j | k < j < |ps| :: next[ps[j]] == rest[ps[j]];
      }
    }
  }

  /** The verb and the place of the resource argument, by what stands in the line. */
  ghost predicate HasResourceAt(root: Command, table: Table, args: seq<string>, v: nat, verb: Command, at: nat) {
    && v < at < |args|
    && NextFrom(root, args, 0) == v && args[v] != "--" && Child(root.children, args[v]) == Some(verb)
    && NoSubCommand(verb, args[..v] + args[v + 1..])
    && (exists rt <- table :: verb.name in rt.paths)
    && NextFrom(verb, args[v + 1..], 0) == at - v - 1 && args[at] != "--"
  }

  /** The next positional argument is not the name of a sub-command. */
  ghost predicate NoSubCommand(c: Command, args: seq<string>) {
    var i := NextFrom(c, args, 0);
    i < 0 || args[i] == "--" || forall d <- c.children :: d.name != args[i]
  }

  lemma FindStops(c: Command, args: seq<string>, depth: nat)
    ensures Find(c, args, depth) == (c, depth) <==> NoSubCommand(c, args)
    ensures Find(c, args, depth).1 == depth <==> NoSubCommand(c, args)
  {
    hide NextFrom, Child;
  }

  /** A resource argument is looked for exactly after a verb under the root that some entry supports. */
  lemma ResourceAtExactly(root: Command, table: Table, args: seq<string>, at: nat)
    ensures ResourceAt(root, table, args) == Some(at) <==>
      exists v, verb :: HasResourceAt(root, table, args, v, verb, at) && Find(root, args, 0).0 == verb
  {
    hide NextFrom, Child, Find, NoSubCommand;
    if ResourceAt(root, table, args) == Some(at) {
      VerbIsFound(root, table, args);
      assert HasResourceAt(root, table, args, NextFrom(root, args, 0), Find(root, args, 0).0, at);
    }
    if v, verb :| HasResourceAt(root, table, args, v, verb, at) && Find(root, args, 0).0 == verb {
      ResourceIsFound(root, table, args, v, verb, at);
    }
  }

  lemma ResourceIsFound(root: Command, table: Table, args: seq<string>, v: nat, verb: Command, at: nat)
    requires HasResourceAt(root, table, args, v, verb, at)
    ensures ResourceAt(root, table, args) == Some(at)
  {
    hide NextFrom, Child, Find, NoSubCommand;
    FindsVerb(root, args, v, verb);
    var rt :| rt in table && verb.name in rt.paths;
    var i :| 0 <= i < |table| && table[i] == rt;
    assert IsResourceVerb(table, Find(root, args, 0));
    assert args[v + 1..][at - v - 1] == args[at];
  }

  lemma VerbIsFound(root: Command, table: Table, args: seq<string>)
    requires IsResourceVerb(table, Find(root, args, 0))
    ensures var v, verb := NextFrom(root, args, 0), Find(root, args, 0).0;
            && v >= 0 && args[v] != "--" && Child(root.children, args[v]) == Some(verb)
            && NoSubCommand(verb, args[..v] + args[v + 1..]) && exists rt <- table :: verb.name in rt.paths
  {
    hide NextFrom, Child;
    VerbIsChild(root, table, args);
    var v, verb := NextFrom(root, args, 0), Find(root, args, 0).0;
    assert Find(root, args, 0) == Find(verb, args[..v] + args[v + 1..], 1);
    FindStops(verb, args[..v] + args[v + 1..], 1);
    var i :| 0 <= i < |table| && verb.name in table[i].paths;
    assert table[i] in table;
  }

  lemma FindsVerb(root: Command, args: seq<string>, v: nat, verb: Command)
    requires v < |args| && NextFrom(root, args, 0) == v && args[v] != "--"
    requires Child(root.children, args[v]) == Some(verb) && NoSubCommand(verb, args[..v] + args[v + 1..])
    ensures Find(root, args, 0) == (verb, 1)
  {
    hide NextFrom, Child;
    FindStops(verb, args[..v] + args[v + 1..], 1);
  }

  /** A line without a resource argument, or with one of an unknown type, is left as it is. */
  lemma UnknownIsUnchanged(root: Command, table: Table, args: seq<string>)
    ensures ResourceAt(root, table, args).None? ==> Normalize(root, table, args) == Args(args)
    ensures var at := ResourceAt(root, table, args);
            at.Some? && (forall t, n | IsTypeAndName(args[at.value], t, n) :: Resolve(table, t) == NotInTable)
            && ((forall t, n :: !IsTypeAndName(args[at.value], t, n)) ==> Resolve(table, args[at.value]) == NotInTable)
            ==> Normalize(root, table, args) == Args(args)
  {
    hide ResourceAt, Resolve, ParseResourceArg, IsTypeAndName, RewriteAt, Find;
    var at := ResourceAt(root, table, args);
    if at.Some? {
      var arg := args[at.value];
      forall t, n ensures IsTypeAndName(arg, t, n) <==> ParseResourceArg(arg) == Some((t, n)) {
        ParsesTypeAndName(arg, t, n);
      }
    }
  }

  /** A plain TYPE is replaced by the path of its entry; the error tells why it cannot be. */
  lemma PlainTypeExactly(root: Command, table: Table, args: seq<string>, at: nat)
    requires ResourceAt(root, table, args) == Some(at) && forall t, n :: !IsTypeAndName(args[at], t, n)
    ensures var r, verb, res := Normalize(root, table, args), Find(root, args, 0).0, Resolve(table, args[at]);
            && (res.Mismatch? ==> r == Err(UnknownVersion(args[at])))
            && (res.Entry? && verb.name !in table[res.index].paths ==> r == Err(Unsupported(table[res.index].kind)))
            && (res.Entry? && verb.name in table[res.index].paths ==>
                  r == Args(args[..at] + table[res.index].paths[verb.name] + args[at + 1..]))
  {
    hide ResourceAt, Resolve, ParseResourceArg, IsTypeAndName, Find;
    if ParseResourceArg(args[at]).Some? {
      var (t, n) := ParseResourceArg(args[at]).value;
      ParsesTypeAndName(args[at], t, n);
    }
  }

  /**
   TYPE/NAME is replaced by the path of its entry and the name, and the operands after it by their
   names, if the type is known, the verb supports it and all names are those of resources; otherwise
   the error is that of the first of these that does not hold.
   */
  lemma NamedTypeExactly(root: Command, table: Table, args: seq<string>, at: nat, t: string, n: string)
    requires ResourceAt(root, table, args) == Some(at) && IsTypeAndName(args[at], t, n)
    ensures var r, verb, res := Normalize(root, table, args), Find(root, args, 0).0, Resolve(table, t);
            && (res.Mismatch? ==> r == Err(UnknownVersion(t)))
            && (res.Entry? && IsDashed(n) ==> r == Err(InvalidName(args[at])))
            && (res.Entry? && !IsDashed(n) && verb.name !in table[res.index].paths ==>
                  r == Err(Unsupported(table[res.index].kind)))
            && (res.Entry? && !IsDashed(n) && verb.name in table[res.index].paths ==>
                  var path, rest := table[res.index].paths[verb.name], args[at + 1..];
                  var out := RewriteRest(table, res.index, Find(verb, path, 0).0, rest);
                  r == if out.Err? then out else Args(args[..at] + path + ([n] + out.args)))
  {
    hide ResourceAt, Resolve, ParseResourceArg, Find, RewriteRest;
    ParsesTypeAndName(args[at], t, n);
  }

  /** When the operands after the first resource are rewritten, and the error when they are not. */
  lemma RestExactly(table: Table, entry: nat, sub: Command, rest: seq<string>)
    ensures var r, ps := RewriteRest(table, entry, sub, rest), Operands(sub.parse, rest);
            && (forall p <- ps :: p < |rest|)
            && (r.Args? <==> forall p <- ps :: exists n :: HasName(table, entry, rest[p], n))
            && (r.Err? ==> exists p <- ps ::
                  && IsRefusal(table, entry, rest[p], r.error)
                  && forall q <- ps | q < p :: exists n :: HasName(table, entry, rest[q], n))
  {
    hide Operands, CheckOperand, IsRefusal, HasName, RewriteFrom;
    var ps := Operands(sub.parse, rest);
    OperandsInRange(sub.parse, rest);
    RewritesExactly(table, entry, rest, ps, 0);
    forall p <- ps
      ensures CheckOperand(table, entry, rest[p]).Args? <==> exists n :: HasName(table, entry, rest[p], n)
    {
      NameOrRefusal(table, entry, rest[p]);
    }
    var r := RewriteRest(table, entry, sub, rest);
    if r.Err? {
      var j :| 0 <= j < |ps| && IsRefusal(table, entry, rest[ps[j]], r.error)
        && forall i | 0 <= i < j :: CheckOperand(table, entry, rest[ps[i]]).Args?;
      assert ps[j] in ps;
      forall q <- ps | q < ps[j] ensures exists n :: HasName(table, entry, rest[q], n) {
        var i :| 0 <= i < |ps| && ps[i] == q;
        assert i < j;
      }
    }
  }

  lemma NameOrRefusal(table: Table, entry: nat, arg: string)
    ensures CheckOperand(table, entry, arg).Args? <==> exists n :: HasName(table, entry, arg, n)
  {
    hide HasName, IsRefusal;
    OperandExactly(table, entry, arg);
    var c := CheckOperand(table, entry, arg);
    if c.Args? { assert c == Args([c.args[0]]); }
  }

  // ---------- Rewriting twice ----------

  /** The arguments from `i` on are flags with their values and empty arguments, to the end. */
  predicate ConsumesFrom(c: Command, args: seq<string>, i: nat)
    decreases |args| - i
  {
    if i >= |args| then i == |args|
    else if args[i] == "--" then false
    else if IsDashed(args[i]) then ConsumesFrom(c, args, if SkipsValue(c, args[i]) then i + 2 else i + 1)
    else args[i] == "" && ConsumesFrom(c, args, i + 1)
  }

  lemma {:induction false} ConsumesBefore(c: Command, args: seq<string>, i: nat)
    requires NextFrom(c, args, i) >= 0
    ensures ConsumesFrom(c, args[..NextFrom(c, args, i)], i)
    decreases |args| - i
  {
    hide IsDashed;
    var v := NextFrom(c, args, i);
    if i < v {
      assert args[..v][i] == args[i];
      if IsDashed(args[i]) {
        ConsumesBefore(c, args, if SkipsValue(c, args[i]) then i + 2 else i + 1);
      } else {
        ConsumesBefore(c, args, i + 1);
      }
    }
  }

  lemma {:induction false} NextAfter(c: Command, before: seq<string>, rest: seq<string>, i: nat)
    requires ConsumesFrom(c, before, i) && rest != [] && rest[0] != "" && (rest[0] == "--" || !IsDashed(rest[0]))
    ensures NextFrom(c, before + rest, i) == |before|
    decreases |before| - i
  {
    hide IsDashed;
    var all := before + rest;
    if i < |before| {
      assert all[i] == before[i];
      if IsDashed(before[i]) {
        NextAfter(c, before, rest, if SkipsValue(c, before[i]) then i + 2 else i + 1);
      } else {
        NextAfter(c, before, rest, i + 1);
      }
    } else {
      assert all[i] == rest[0];
      if IsDashed(rest[0]) && rest[0] != "--" { assert false; }
    }
  }

  /** The next positional argument, exactly: what precedes it is flags, their values and empty arguments. */
  lemma NextPositionalExactly(c: Command, args: seq<string>, v: nat)
    ensures NextFrom(c, args, 0) == v <==>
            v < |args| && ConsumesFrom(c, args[..v], 0) && args[v] != "" && (args[v] == "--" || !IsDashed(args[v]))
  {
    hide IsDashed, ConsumesFrom;
    if NextFrom(c, args, 0) == v { ConsumesBefore(c, args, 0); }
    if v < |args| && ConsumesFrom(c, args[..v], 0) && args[v] != "" && (args[v] == "--" || !IsDashed(args[v])) {
      assert args == args[..v] + args[v..];
      NextAfter(c, args[..v], args[v..], 0);
    }
  }

  lemma {:induction false} ConsumesConcat(c: Command, a: seq<string>, b: seq<string>, i: nat)
    requires ConsumesFrom(c, a, i) && ConsumesFrom(c, b, 0)
    ensures ConsumesFrom(c, a + b, i)
    decreases |a| - i
  {
    hide IsDashed;
    if i < |a| {
      assert (a + b)[i] == a[i];
      if IsDashed(a[i]) {
        ConsumesConcat(c, a, b, if SkipsValue(c, a[i]) then i + 2 else i + 1);
      } else {
        ConsumesConcat(c, a, b, i + 1);
      }
    } else {
      ConsumesShifted(c, a, b, 0);
    }
  }

  lemma {:induction false} ConsumesShifted(c: Command, a: seq<string>, b: seq<string>, i: nat)
    ensures ConsumesFrom(c, a + b, |a| + i) == ConsumesFrom(c, b, i)
    decreases |b| - i
  {
    hide IsDashed;
    if i < |b| {
      assert (a + b)[|a| + i] == b[i];
      ConsumesShifted(c, a, b, i + 1);
      if IsDashed(b[i]) && SkipsValue(c, b[i]) { ConsumesShifted(c, a, b, i + 2); }
    }
  }

  /** The table names only sub-commands that the verb has. */
  predicate PathsExist(table: Table, verb: Command) {
    forall i | 0 <= i < |table| && verb.name in table[i].paths ::
      var path := table[i].paths[verb.name];
      path != [] && path[0] != "" && !IsDashed(path[0]) && Child(verb.children, path[0]).Some?
  }

  /** The flags before the verb are flags of the verb too, with or without a value alike. */
  predicate FlagsAreInherited(root: Command, args: seq<string>) {
    var v := NextFrom(root, args, 0);
    v >= 0 ==> ConsumesFrom(Find(root, args, 0).0, args[..v], 0)
  }

  /** A verb that was found is the child of the root that the first positional argument names. */
  lemma VerbIsChild(root: Command, table: Table, args: seq<string>)
    requires IsResourceVerb(table, Find(root, args, 0))
    ensures var v := NextFrom(root, args, 0);
            v >= 0 && args[v] != "--" && Child(root.children, args[v]) == Some(Find(root, args, 0).0)
  {
    hide NextFrom;
    var v := NextFrom(root, args, 0);
    if v >= 0 && args[v] != "--" && Child(root.children, args[v]).Some? {
      var d := Child(root.children, args[v]).value;
      assert Find(root, args, 0) == Find(d, args[..v] + args[v + 1..], 1);
      DeeperThan(d, args[..v] + args[v + 1..], 1);
    }
  }

  lemma DeeperThan(c: Command, args: seq<string>, depth: nat)
    ensures Find(c, args, depth).1 == depth ==> Find(c, args, depth).0 == c
  {
  }

  /** A line that starts as a verb's, goes on with flags, and then names a sub-command, is found deeper. */
  lemma FindsSubCommand(root: Command, verb: Command, args: seq<string>, v: nat, at: nat)
    requires v < at < |args| && ConsumesFrom(root, args[..v], 0) && ConsumesFrom(verb, args[..v], 0)
    requires args[v] != "" && !IsDashed(args[v]) && Child(root.children, args[v]) == Some(verb)
    requires ConsumesFrom(verb, args[v + 1..at], 0)
    requires args[at] != "" && !IsDashed(args[at]) && Child(verb.children, args[at]).Some?
    ensures Find(root, args, 0).1 >= 2
  {
    hide ConsumesFrom, NextFrom, Child, IsDashed;
    DashesAreDashed();
    CutLine(args, v, at);
    NextAfter(root, args[..v], args[v..], 0);
    FindsFromVerb(verb, args[..v], args[v + 1..at], args[at..]);
  }

  lemma CutLine(args: seq<string>, v: nat, at: nat)
    requires v < at < |args|
    ensures args == args[..v] + args[v..] && args[v..][0] == args[v] && args[at..][0] == args[at]
    ensures args[..v] + args[v + 1..] == args[..v] + args[v + 1..at] + args[at..]
  {
    assert args[v + 1..] == args[v + 1..at] + args[at..];
    assert args[..v] + (args[v + 1..at] + args[at..]) == args[..v] + args[v + 1..at] + args[at..];
  }

  lemma FindsFromVerb(verb: Command, a: seq<string>, b: seq<string>, rest: seq<string>)
    requires ConsumesFrom(verb, a, 0) && ConsumesFrom(verb, b, 0)
    requires rest != [] && rest[0] != "" && !IsDashed(rest[0]) && Child(verb.children, rest[0]).Some?
    ensures Find(verb, a + b + rest, 1).1 >= 2
  {
    hide ConsumesFrom, NextFrom, Child, IsDashed;
    DashesAreDashed();
    ConsumesConcat(verb, a, b, 0);
    NextAfter(verb, a + b, rest, 0);
    assert (a + b + rest)[|a + b|] == rest[0];
  }

  lemma DashesAreDashed()
    ensures IsDashed("--")
  {
  }

  /**
   A rewritten line is left alone: its verb is followed by a sub-command, so that no verb of
   the table is found in it.
   */
  lemma NormalizeIsIdempotent(root: Command, table: Table, args: seq<string>, out: seq<string>)
    requires Normalize(root, table, args) == Args(out)
    requires FlagsAreInherited(root, args) && PathsExist(table, Find(root, args, 0).0)
    ensures Normalize(root, table, out) == Args(out)
  {
    hide ConsumesFrom, Normalize, RewriteRest, Find, NextFrom, Child, Resolve, ParseResourceArg;
    if out != args {
      var at, entry := RewrittenLine(root, table, args, out);
      var verb, v := Find(root, args, 0).0, NextFrom(root, args, 0);
      VerbIsChild(root, table, args);
      ConsumesBefore(root, args, 0);
      ConsumesBefore(verb, args[v + 1..], 0);
      var path := table[entry].paths[verb.name];
      assert at == v + 1 + NextFrom(verb, args[v + 1..], 0);
      assert args[v + 1..][..at - v - 1] == args[v + 1..at];
      SameStart(args, out, at, path, v);
      FindsSubCommand(root, verb, out, v, at);
      NotAVerb(root, table, out);
    }
  }

  lemma SameStart(args: seq<string>, out: seq<string>, at: nat, path: seq<string>, v: nat)
    requires v < at < |args| && at + |path| <= |out| && path != [] && out[..at] == args[..at]
    requires out[at..at + |path|] == path
    ensures out[..v] == args[..v] && out[v] == args[v] && out[v + 1..at] == args[v + 1..at] && out[at] == path[0]
  {
    assert out[..at][..v] == out[..v] && args[..at][..v] == args[..v];
    assert out[..at][v] == out[v] && args[..at][v] == args[v];
    assert out[..at][v + 1..] == out[v + 1..at] && args[..at][v + 1..] == args[v + 1..at];
    assert out[at..at + |path|][0] == out[at];
  }

  lemma NotAVerb(root: Command, table: Table, args: seq<string>)
    requires Find(root, args, 0).1 >= 2
    ensures Normalize(root, table, args) == Args(args)
  {
  }
}
