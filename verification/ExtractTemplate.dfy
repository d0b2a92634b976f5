/**
 The validation of an extraction template against the capture groups of a pattern. A
 template is text with references `$name`, `${name}` and the escape `$$`; a name that is a
 short number refers to a group by index. The letters and digits outside ASCII that may
 occur in a name are a parameter, `wide`.
 */
module ExtractTemplate {

  datatype Extracted = Malformed | Reference(name: string, num: int, rest: string)

  datatype Verdict = Accepted | BadTemplate | UnknownGroup(name: string)

  predicate IsDigit(c: char) {
    '0' <= c <= '9'
  }

  predicate IsWord(wide: char -> bool, c: char) {
    IsDigit(c) || 'a' <= c <= 'z' || 'A' <= c <= 'Z' || c == '_' || (c as int >= 0x80 && wide(c))
  }

  const DIGITS := "0123456789"
  const SMALL_LETTERS := "abcdefghijklmnopqrstuvwxyz"
  const CAPITAL_LETTERS := "ABCDEFGHIJKLMNOPQRSTUVWXYZ"

  lemma Alphabet()
    ensures |DIGITS| == 10 && |SMALL_LETTERS| == 26 == |CAPITAL_LETTERS|
    ensures forall j | 0 <= j < 10 :: DIGITS[j] as int == '0' as int + j
    ensures forall j | 0 <= j < 26 :: SMALL_LETTERS[j] as int == 'a' as int + j
    ensures forall j | 0 <= j < 26 :: CAPITAL_LETTERS[j] as int == 'A' as int + j
  {
  }

  /** In ASCII a name has letters, digits and the underscore; beyond it, letters and digits too. */
  lemma CharactersExactly(wide: char -> bool, c: char)
    ensures IsDigit(c) <==> c in DIGITS
    ensures IsWord(wide, c) <==> c in DIGITS || c in SMALL_LETTERS || c in CAPITAL_LETTERS || c == '_'
                                 || (c as int >= 0x80 && wide(c))
  {
    hide DIGITS, SMALL_LETTERS, CAPITAL_LETTERS;
    Alphabet();
    if '0' <= c <= '9' { assert c == DIGITS[c as int - '0' as int]; }
    if 'a' <= c <= 'z' { assert c == SMALL_LETTERS[c as int - 'a' as int]; }
    if 'A' <= c <= 'Z' { assert c == CAPITAL_LETTERS[c as int - 'A' as int]; }
  }

  predicate IsName(wide: char -> bool, name: string) {
    name != "" && forall c <- name :: IsWord(wide, c)
  }

  // ---------- extract ----------

  /** Number of name characters that `s` starts with. */
  function WordLength(wide: char -> bool, s: string): (n: nat)
    ensures n <= |s| && (forall k | 0 <= k < n :: IsWord(wide, s[k])) && (n < |s| ==> !IsWord(wide, s[n]))
  {
    if s != "" && IsWord(wide, s[0]) then WordLength(wide, s[1..]) + 1 else 0
  }

  /** The number loop from digit `i` on, with the digits before it worth `num`. */
  function NumberFrom(name: string, i: nat, num: int): int
    requires i <= |name|
    decreases |name| - i
  {
    if i == |name| then num
    else if !IsDigit(name[i]) || num >= 100_000_000 then -1
    else NumberFrom(name, i + 1, num * 10 + (name[i] as int - '0' as int))
  }

  /** The index a name stands for, or -1. */
  function NumberOf(name: string): int
    requires name != ""
  {
    if name[0] == '0' && |name| > 1 then -1 else NumberFrom(name, 0, 0)
  }

  /** The reference whose name starts `s`, closed by a brace if `brace`. */
  function ReferenceIn(wide: char -> bool, s: string, brace: bool): Extracted {
    var i := WordLength(wide, s);
    if i == 0 then Malformed
    else if brace && (i >= |s| || s[i] != '}') then Malformed
    else Reference(s[..i], NumberOf(s[..i]), if brace then s[i + 1..] else s[i..])
  }

  function ExtractOf(wide: char -> bool, str: string): Extracted {
    if |str| < 2 || str[0] != '$' then Malformed
    else if str[1] == '{' then ReferenceIn(wide, str[2..], true)
    else ReferenceIn(wide, str[1..], false)
  }

  /** The reference that `str` starts with. */
  method Extract(wide: char -> bool, str: string) returns (r: Extracted)
    ensures r == ExtractOf(wide, str)
  {
    hide IsWord, NumberOf, WordLength;
    if |str| < 2 || str[0] != '$' {
      return Malformed;
    }
    var brace := str[1] == '{';
    var s := if brace then str[2..] else str[1..];
    var i := NameEnd(wide, s);
    if i == 0 {
      return Malformed;
    }
    var name := s[..i];
    if brace {
      if i >= |s| || s[i] != '}' {
        return Malformed;
      }
      i := i + 1;
    }
    var num := ParseNumber(name);
    return Reference(name, num, s[i..]);
  }

  /** The first loop of `extract`: where the name ends. */
  method NameEnd(wide: char -> bool, s: string) returns (i: nat)
    ensures i == WordLength(wide, s)
  {
    i := 0;
    while i < |s|
      invariant 0 <= i <= |s|
      invariant WordLength(wide, s) == i + WordLength(wide, s[i..])
    {
      if !IsWord(wide, s[i]) {
        break;
      }
      i := i + 1;
    }
  }

  /** The end of `extract`: the index that a name stands for. */
  method ParseNumber(name: string) returns (num: int)
    requires name != ""
    ensures num == NumberOf(name)
  {
    num := 0;
    var k := 0;
    while k < |name|
      invariant 0 <= k <= |name|
      invariant NumberFrom(name, 0, 0) == NumberFrom(name, k, num)
    {
      if !IsDigit(name[k]) || num >= 100_000_000 {
        num := -1;
        break;
      }
      num := num * 10 + (name[k] as int - '0' as int);
      k := k + 1;
    }
    if name[0] == '0' && |name| > 1 {
      num := -1;
    }
  }

  // ---------- Numbers ----------

  function Decimal(s: string): int {
    if s == "" then 0 else Decimal(s[..|s| - 1]) * 10 + (s[|s| - 1] as int - '0' as int)
  }

  /** One to nine digits with no leading zero, or "0". */
  predicate IsShortNumber(s: string) {
    1 <= |s| <= 9 && (forall c <- s :: IsDigit(c)) && (s[0] == '0' ==> s == "0")
  }

  function Pow10(n: nat): nat {
    if n == 0 then 1 else 10 * Pow10(n - 1)
  }

  lemma {:induction false} DecimalSize(s: string)
    requires s != "" && (forall c <- s :: IsDigit(c))
    ensures 0 <= Decimal(s) < Pow10(|s|) && (s[0] != '0' ==> Pow10(|s| - 1) <= Decimal(s))
  {
    var t := s[..|s| - 1];
    assert s[|s| - 1] in s;
    if t != "" {
      assert forall c <- t :: c in s;
      DecimalSize(t);
    }
  }

  lemma {:induction false} Pow10Grows(m: nat, n: nat)
    requires m <= n
    ensures 1 <= Pow10(m) <= Pow10(n)
  {
    if m < n { Pow10Grows(m, n - 1); } else if m > 0 { Pow10Grows(m - 1, n - 1); }
  }

  lemma {:induction false} LoopReadsDecimal(name: string, i: nat)
    requires i <= |name| && (forall c <- name :: IsDigit(c)) && name != "" && name[0] != '0'
    ensures NumberFrom(name, i, Decimal(name[..i])) ==
            if i == |name| || |name| <= 9 then Decimal(name) else -1
    decreases |name| - i
  {
    if i == |name| {
      assert name[..i] == name;
    } else {
      var head := name[..i];
      assert forall c <- head :: c in name;
      assert name[i] in name;
      assert Pow10(8) == 100_000_000;
      if head != "" { DecimalSize(head); }
      if i <= 8 { Pow10Grows(i, 8); } else { Pow10Grows(8, i - 1); }
      assert name[..i + 1][..i] == head;
      LoopReadsDecimal(name, i + 1);
    }
  }

  lemma {:induction false} NonDigitIsNoNumber(name: string, i: nat, num: int, k: nat)
    requires i <= k < |name| && !IsDigit(name[k])
    ensures NumberFrom(name, i, num) == -1
    decreases k - i
  {
    if i < k && IsDigit(name[i]) && num < 100_000_000 {
      NonDigitIsNoNumber(name, i + 1, num * 10 + (name[i] as int - '0' as int), k);
    }
  }

  /** A name is an index exactly when it is a short number, and then it has its decimal value. */
  lemma NumberExactly(name: string)
    requires name != ""
    ensures NumberOf(name) == if IsShortNumber(name) then Decimal(name) else -1
    ensures -1 <= NumberOf(name) <= 999_999_999
  {
    if k :| 0 <= k < |name| && !IsDigit(name[k]) {
      NonDigitIsNoNumber(name, 0, 0, k);
      assert name[k] in name;
    } else if name[0] == '0' {
      if |name| == 1 { assert NumberFrom(name, 1, 0) == 0 && name[..0] == "" && name == "0"; }
    } else {
      assert forall c <- name :: IsDigit(c);
      LoopReadsDecimal(name, 0);
      DecimalSize(name);
      assert Pow10(9) == 1_000_000_000;
      if |name| <= 9 { Pow10Grows(|name|, 9); }
    }
  }

  // ---------- validateExtractStr ----------

  /** Index of the first dollar sign, or the length. */
  function DollarAt(t: string): (i: nat)
    ensures i <= |t| && '$' !in t[..i] && (i < |t| ==> t[i] == '$')
  {
    if t == "" || t[0] == '$' then 0
    else
      var i := DollarAt(t[1..]) + 1;
      assert t[..i] == [t[0]] + t[1..][..i - 1];
      i
  }

  /** Every reference consumes at least the dollar sign and one character. */
  lemma ExtractShrinks(wide: char -> bool, t: string)
    requires ExtractOf(wide, t).Reference?
    ensures |ExtractOf(wide, t).rest| + 2 <= |t|
    ensures IsName(wide, ExtractOf(wide, t).name)
  {
    var e := ExtractOf(wide, t);
    assert forall c <- e.name :: IsWord(wide, c);
  }

  function ValidateOf(wide: char -> bool, template: string, caps: seq<string>): Verdict
    decreases |template|, 1
  {
    var i := DollarAt(template);
    if i == |template| then Accepted else ValidateAtDollar(wide, template[i..], caps)
  }

  function ValidateAtDollar(wide: char -> bool, t: string, caps: seq<string>): Verdict
    requires t != ""
    decreases |t|, 0
  {
    if |t| > 1 && t[1] == '$' then ValidateOf(wide, t[2..], caps)
    else
      var e := ExtractOf(wide, t);
      if e.Malformed? then BadTemplate
      else if e.num < 0 && e.name !in caps then UnknownGroup(e.name)
      else
        ExtractShrinks(wide, t);
        ValidateOf(wide, e.rest, caps)
  }

  method ValidateExtractStr(wide: char -> bool, template: string, capNames: seq<string>) returns (r: Verdict)
    ensures r == ValidateOf(wide, template, capNames)
  {
    hide ExtractOf;
    var t := template;
    while |t| > 0
      invariant ValidateOf(wide, t, capNames) == ValidateOf(wide, template, capNames)
      decreases |t|
    {
      var i := DollarAt(t);
      if i == |t| {
        return Accepted;
      }
      t := t[i..];
      if |t| > 1 && t[1] == '$' {
        t := t[2..];
        continue;
      }
      var e := Extract(wide, t);
      if e.Malformed? {
        return BadTemplate;
      }
      ExtractShrinks(wide, t);
      t := e.rest;
      if e.num < 0 {
        var found := IsCapture(e.name, capNames);
        if !found {
          return UnknownGroup(e.name);
        }
      }
    }
    return Accepted;
  }

  method IsCapture(name: string, capNames: seq<string>) returns (found: bool)
    ensures found <==> name in capNames
  {
    found := false;
    for k := 0 to |capNames|
      invariant found <==> name in capNames[..k]
    {
      if name == capNames[k] {
        found := true;
      }
    }
  }

  // ---------- The grammar ----------

  /** A template is a sequence of these. */
  datatype Piece = Text(text: string) | Dollar | Bare(name: string) | Braced(name: string)

  function Show(p: Piece): string {
    match p
    case Text(s) => s
    case Dollar => "$$"
    case Bare(n) => "$" + n
    case Braced(n) => "${" + n + "}"
  }

  function ShowAll(ps: seq<Piece>): string {
    if ps == [] then "" else Show(ps[0]) + ShowAll(ps[1..])
  }

  /** A group by index or by one of the names. */
  predicate IsGroup(name: string, caps: seq<string>) {
    IsShortNumber(name) || name in caps
  }

  /** A bare name must not run into what follows it. */
  predicate IsLegal(wide: char -> bool, ps: seq<Piece>, caps: seq<string>) {
    ps != [] ==>
      && (match ps[0]
          case Text(s) => s != "" && '$' !in s
          case Dollar => true
          case Bare(n) => IsName(wide, n) && IsGroup(n, caps)
            && (ShowAll(ps[1..]) == "" || !IsWord(wide, ShowAll(ps[1..])[0]))
          case Braced(n) => IsName(wide, n) && IsGroup(n, caps))
      && IsLegal(wide, ps[1..], caps)
  }

  lemma {:induction false} WordLengthOf(wide: char -> bool, n: string, rest: string)
    requires (forall c <- n :: IsWord(wide, c)) && (rest == "" || !IsWord(wide, rest[0]))
    ensures WordLength(wide, n + rest) == |n|
  {
    if n == "" {
      assert n + rest == rest;
    } else {
      assert (n + rest)[1..] == n[1..] + rest;
      WordLengthOf(wide, n[1..], rest);
    }
  }

  /** A braced reference is read back, with whatever follows it. */
  lemma BracedRoundTrip(wide: char -> bool, n: string, rest: string)
    requires IsName(wide, n)
    ensures ExtractOf(wide, "${" + n + "}" + rest) == Reference(n, NumberOf(n), rest)
  {
    var str := "${" + n + "}" + rest;
    assert str[2..] == n + ("}" + rest);
    WordLengthOf(wide, n, "}" + rest);
    assert (n + ("}" + rest))[..|n|] == n && (n + ("}" + rest))[|n| + 1..] == rest;
  }

  /** A bare reference is read back when no name character follows it. */
  lemma BareRoundTrip(wide: char -> bool, n: string, rest: string)
    requires IsName(wide, n) && (rest == "" || !IsWord(wide, rest[0]))
    ensures ExtractOf(wide, "$" + n + rest) == Reference(n, NumberOf(n), rest)
  {
    var str := "$" + n + rest;
    assert n[0] in n;
    assert str[1] == n[0] && str[1..] == n + rest;
    WordLengthOf(wide, n, rest);
    assert (n + rest)[..|n|] == n && (n + rest)[|n|..] == rest;
  }

  lemma {:induction false} SkipText(wide: char -> bool, s: string, rest: string, caps: seq<string>)
    requires '$' !in s
    ensures ValidateOf(wide, s + rest, caps) == ValidateOf(wide, rest, caps)
  {
    hide ValidateAtDollar, DollarAt;
    SkipToDollar(s, rest);
    var i := DollarAt(rest);
    assert (s + rest)[|s| + i..] == rest[i..];
  }

  lemma {:induction false} SkipToDollar(s: string, rest: string)
    requires '$' !in s
    ensures DollarAt(s + rest) == |s| + DollarAt(rest)
  {
    if s == "" {
      assert s + rest == rest;
    } else {
      assert (s + rest)[1..] == s[1..] + rest;
      SkipToDollar(s[1..], rest);
    }
  }

  lemma StepOverReference(wide: char -> bool, t: string, caps: seq<string>, name: string, rest: string)
    requires name != "" && ExtractOf(wide, t) == Reference(name, NumberOf(name), rest) && IsGroup(name, caps)
    requires |t| > 1 && t[0] == '$' && t[1] != '$'
    ensures ValidateOf(wide, t, caps) == ValidateOf(wide, rest, caps)
  {
    hide ExtractOf, NumberOf;
    NumberExactly(name);
    assert t[0..] == t;
    ShortNumberIsNotNegative(name);
  }

  lemma ShortNumberIsNotNegative(name: string)
    requires name != ""
    ensures IsShortNumber(name) ==> NumberOf(name) >= 0
  {
    NumberExactly(name);
    if IsShortNumber(name) { DecimalSize(name); }
  }

  lemma StepOverDollar(wide: char -> bool, rest: string, caps: seq<string>)
    ensures ValidateOf(wide, "$$" + rest, caps) == ValidateOf(wide, rest, caps)
  {
    hide ExtractOf;
    var t := "$$" + rest;
    assert t[0..] == t && t[2..] == rest;
  }

  lemma {:induction false} LegalIsAccepted(wide: char -> bool, ps: seq<Piece>, caps: seq<string>)
    requires IsLegal(wide, ps, caps)
    ensures ValidateOf(wide, ShowAll(ps), caps) == Accepted
  {
    hide ValidateOf, ExtractOf, NumberOf, IsGroup, IsWord;
    if ps == [] {
      EmptyIsAccepted(wide, caps);
    } else {
      var rest := ShowAll(ps[1..]);
      LegalIsAccepted(wide, ps[1..], caps);
      match ps[0] {
        case Text(s) => SkipText(wide, s, rest, caps);
        case Dollar => StepOverDollar(wide, rest, caps);
        case Bare(n) =>
          BareRoundTrip(wide, n, rest);
          NameIsNotDollar(wide, n);
          StepOverReference(wide, "$" + n + rest, caps, n, rest);
        case Braced(n) =>
          BracedRoundTrip(wide, n, rest);
          StepOverReference(wide, "${" + n + "}" + rest, caps, n, rest);
      }
    }
  }

  lemma EmptyIsAccepted(wide: char -> bool, caps: seq<string>)
    ensures ValidateOf(wide, "", caps) == Accepted
  {
  }

  lemma NameIsNotDollar(wide: char -> bool, n: string)
    requires IsName(wide, n)
    ensures n[0] != '$'
  {
    assert n[0] in n;
  }

  /** The piece that a well-formed reference is. */
  lemma ReferencePiece(wide: char -> bool, t: string) returns (p: Piece)
    requires ExtractOf(wide, t).Reference?
    ensures var e := ExtractOf(wide, t);
            && e.name != "" && p in {Bare(e.name), Braced(e.name)} && IsName(wide, e.name) && t == Show(p) + e.rest
            && e.num == NumberOf(e.name)
            && (p.Bare? ==> e.rest == "" || !IsWord(wide, e.rest[0]))
  {
    hide ReferenceIn, IsWord, NumberOf, IsName;
    var e := ExtractOf(wide, t);
    ExtractShrinks(wide, t);
    if t[1] == '{' {
      p := Braced(e.name);
      ReferenceText(wide, t[2..], true);
      assert t == "${" + t[2..];
    } else {
      p := Bare(e.name);
      ReferenceText(wide, t[1..], false);
      assert t == "$" + t[1..];
    }
  }

  lemma ReferenceText(wide: char -> bool, s: string, brace: bool)
    requires ReferenceIn(wide, s, brace).Reference?
    ensures var e := ReferenceIn(wide, s, brace);
            && e.name != "" && e.num == NumberOf(e.name)
            && s == e.name + (if brace then "}" + e.rest else e.rest)
            && (!brace ==> e.rest == "" || !IsWord(wide, e.rest[0]))
  {
    hide IsWord, NumberOf;
  }

  /** Why a template is refused: what is left of it starts with the first bad reference. */
  ghost predicate Explains(wide: char -> bool, v: Verdict, bad: string, caps: seq<string>) {
    match v
    case Accepted => bad == ""
    case BadTemplate => bad != "" && bad[0] == '$' && !("$$" <= bad) && ExtractOf(wide, bad) == Malformed
    case UnknownGroup(n) =>
      var e := ExtractOf(wide, bad);
      e.Reference? && e.name == n && n != "" && !IsGroup(n, caps)
  }

  /** The legal part of a template, up to its end or to the first reference that is refused. */
  lemma {:induction false} LegalPart(wide: char -> bool, t: string, caps: seq<string>)
    returns (ps: seq<Piece>, bad: string)
    ensures IsLegal(wide, ps, caps) && t == ShowAll(ps) + bad
    ensures Explains(wide, ValidateOf(wide, t, caps), bad, caps)
    decreases |t|, 1
  {
    hide ExtractOf, IsLegal, ShowAll, Explains, IsGroup, ValidateOf;
    var i := DollarAt(t);
    var text, u := t[..i], t[i..];
    assert t == text + u;
    SkipText(wide, text, u, caps);
    ps, bad := LegalFromDollar(wide, u, caps);
    if text != "" {
      ps := Cons(wide, Text(text), ps, bad, u, caps);
    } else {
      assert t == u;
    }
  }

  lemma {:induction false} LegalFromDollar(wide: char -> bool, u: string, caps: seq<string>)
    returns (ps: seq<Piece>, bad: string)
    requires u == "" || u[0] == '$'
    ensures IsLegal(wide, ps, caps) && u == ShowAll(ps) + bad
    ensures Explains(wide, ValidateOf(wide, u, caps), bad, caps)
    decreases |u|, 0
  {
    hide ExtractOf, IsWord, IsName, NumberOf, IsLegal, ShowAll, IsGroup;
    assert u[0..] == u;
    NothingIsLegal(wide, caps);
    if u == "" {
      ps, bad := [], "";
    } else if |u| > 1 && u[1] == '$' {
      ps, bad := LegalPart(wide, u[2..], caps);
      assert u == "$$" + u[2..];
      ps := Cons(wide, Dollar, ps, bad, u[2..], caps);
    } else if ExtractOf(wide, u).Malformed? {
      ps, bad := [], u;
    } else {
      ps, bad := LegalFromReference(wide, u, caps);
    }
  }

  lemma {:induction false} LegalFromReference(wide: char -> bool, u: string, caps: seq<string>)
    returns (ps: seq<Piece>, bad: string)
    requires ExtractOf(wide, u).Reference? && u != "" && u[0] == '$' && !(|u| > 1 && u[1] == '$')
    ensures IsLegal(wide, ps, caps) && u == ShowAll(ps) + bad
    ensures Explains(wide, ValidateOf(wide, u, caps), bad, caps)
    decreases |u|, -1
  {
    hide ExtractOf, IsWord, IsName, NumberOf, IsLegal, ShowAll;
    assert u[0..] == u;
    var e := ExtractOf(wide, u);
    var p := ReferencePiece(wide, u);
    NumberExactly(e.name);
    ShortNumberIsNotNegative(e.name);
    ExtractShrinks(wide, u);
    if e.num < 0 && e.name !in caps {
      ps, bad := [], u;
      NothingIsLegal(wide, caps);
    } else {
      ps, bad := LegalPart(wide, e.rest, caps);
      ps := Cons(wide, p, ps, bad, e.rest, caps);
    }
  }

  lemma NothingIsLegal(wide: char -> bool, caps: seq<string>)
    ensures IsLegal(wide, [], caps) && ShowAll([]) == ""
  {
  }

  /** A piece before a legal part is legal. */
  lemma Cons(wide: char -> bool, p: Piece, ps: seq<Piece>, bad: string, rest: string, caps: seq<string>)
    returns (all: seq<Piece>)
    requires IsLegal(wide, ps, caps) && rest == ShowAll(ps) + bad
    requires p.Text? ==> p.text != "" && '$' !in p.text
    requires p.Bare? || p.Braced? ==> IsName(wide, p.name) && IsGroup(p.name, caps)
    requires p.Bare? ==> rest == "" || !IsWord(wide, rest[0])
    ensures IsLegal(wide, all, caps) && Show(p) + rest == ShowAll(all) + bad
  {
    all := [p] + ps;
    assert all[1..] == ps;
    if p.Bare? && ShowAll(ps) != "" { assert ShowAll(ps)[0] == rest[0]; }
    assert Show(p) + (ShowAll(ps) + bad) == Show(p) + ShowAll(ps) + bad;
  }

  /**
   The validation accepts exactly the templates of the grammar: text, doubled dollar signs,
   and references to a group by a short number or by one of the capture names.
   */
  lemma AcceptsExactlyTheGrammar(wide: char -> bool, t: string, caps: seq<string>)
    ensures ValidateOf(wide, t, caps) == Accepted <==> exists ps :: IsLegal(wide, ps, caps) && ShowAll(ps) == t
  {
    if ValidateOf(wide, t, caps) == Accepted {
      var ps, bad := LegalPart(wide, t, caps);
      assert ShowAll(ps) == t;
    }
    if ps :| IsLegal(wide, ps, caps) && ShowAll(ps) == t {
      LegalIsAccepted(wide, ps, caps);
    }
  }
}
