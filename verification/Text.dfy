/**
 The few operations of the Go `strings` package that the manifest migrator uses, on
 sequences of Unicode characters.
 */
module Text {

  /** The characters that Unicode classes as white space. */
  predicate IsSpace(c: char) {
    c == ' ' || '\t' <= c <= '\r' || IsWideSpace(c as int)
  }

  predicate IsWideSpace(n: int) {
    n == 0x85 || n == 0xA0 || n == 0x1680 || 0x2000 <= n <= 0x200A
    || n == 0x2028 || n == 0x2029 || n == 0x202F || n == 0x205F || n == 0x3000
  }

  /** The code points of the property White_Space. */
  const WHITE_SPACE: set<int> := {
    0x9, 0xA, 0xB, 0xC, 0xD, 0x20, 0x85, 0xA0, 0x1680, 0x2000, 0x2001, 0x2002, 0x2003, 0x2004, 0x2005, 0x2006,
    0x2007, 0x2008, 0x2009, 0x200A, 0x2028, 0x2029, 0x202F, 0x205F, 0x3000}

  lemma SpacesExactly(c: char)
    ensures IsSpace(c) <==> c as int in WHITE_SPACE
  {
  }

  predicate AllSpace(s: string) {
    forall c <- s :: IsSpace(c)
  }

  function TrimLeft(s: string, cut: char -> bool): (r: string)
    ensures |r| <= |s| && r == s[|s| - |r|..]
    ensures forall i | 0 <= i < |s| - |r| :: cut(s[i])
    ensures r != "" ==> !cut(r[0])
  {
    if s != "" && cut(s[0]) then
      var r := TrimLeft(s[1..], cut);
      assert s[1..][|s| - 1 - |r|..] == s[|s| - |r|..];
      r
    else s
  }

  function TrimRight(s: string, cut: char -> bool): (r: string)
    ensures r <= s
    ensures forall i | |r| <= i < |s| :: cut(s[i])
    ensures r != "" ==> !cut(r[|r| - 1])
  {
    if s != "" && cut(s[|s| - 1]) then TrimRight(s[..|s| - 1], cut) else s
  }

  function TrimSpace(s: string): string {
    TrimRight(TrimLeft(s, IsSpace), IsSpace)
  }

  /** Whether `TrimSpace` leaves nothing. */
  predicate Blank(s: string) {
    s == "" || (IsSpace(s[0]) && Blank(s[1..]))
  }

  lemma {:induction false} BlankIsAllSpace(s: string)
    ensures Blank(s) <==> AllSpace(s)
  {
    if s != "" {
      BlankIsAllSpace(s[1..]);
      assert forall c :: c in s <==> c == s[0] || c in s[1..];
    }
  }

  lemma BlankTrimsToNothing(s: string)
    ensures Blank(s) <==> TrimSpace(s) == ""
  {
    BlankIsAllSpace(s);
    var t := TrimLeft(s, IsSpace);
    if t != "" { assert !IsSpace(s[|s| - |t|]); }
  }

  predicate OccursAt(s: string, sub: string, i: int) {
    0 <= i && i + |sub| <= |s| && s[i..i + |sub|] == sub
  }

  /** The first index at or after `i` where `sub` occurs in `s`, or -1. */
  function IndexFrom(s: string, sub: string, i: nat): (r: int)
    ensures r == -1 || (i <= r && OccursAt(s, sub, r))
    ensures forall k | i <= k && (r == -1 || k < r) :: !OccursAt(s, sub, k)
    decreases |s| - i
  {
    if OccursAt(s, sub, i) then i
    else if i >= |s| then -1
    else IndexFrom(s, sub, i + 1)
  }

  function Index(s: string, sub: string): (r: int)
    ensures r == -1 || OccursAt(s, sub, r)
    ensures forall k | 0 <= k && (r == -1 || k < r) :: !OccursAt(s, sub, k)
  {
    IndexFrom(s, sub, 0)
  }

  /** `Index` is the only first occurrence. */
  lemma IndexIsFirst(s: string, sub: string, i: nat)
    requires OccursAt(s, sub, i)
    requires forall k | 0 <= k < i :: !OccursAt(s, sub, k)
    ensures Index(s, sub) == i
  {
  }

  /** `strings.Replace(s, old, new, 1)`: an empty `old` occurs at the start. */
  function ReplaceFirst(s: string, target: string, substitute: string): string {
    var i := Index(s, target);
    if i == -1 then s else s[..i] + substitute + s[i + |target|..]
  }

  /** `strings.Split(s, " ")[0]`: what comes before the first space character. */
  function FirstWord(s: string): (w: string)
    ensures w <= s && ' ' !in w
    ensures |w| < |s| ==> s[|w|] == ' '
  {
    if s == "" || s[0] == ' ' then "" else [s[0]] + FirstWord(s[1..])
  }

  /** `strings.Split(s, "\n")`. */
  function Split(s: string): (lines: seq<string>)
    ensures |lines| > 0
    ensures forall l <- lines :: '\n' !in l
  {
    if s == "" then [""]
    else if s[0] == '\n' then [""] + Split(s[1..])
    else var rest := Split(s[1..]); [[s[0]] + rest[0]] + rest[1..]
  }

  /** `strings.Join(lines, "\n")`. */
  function Join(lines: seq<string>): string {
    if lines == [] then "" else if |lines| == 1 then lines[0] else lines[0] + "\n" + Join(lines[1..])
  }

  lemma {:induction false} JoinSplit(s: string)
    ensures Join(Split(s)) == s
  {
    if s != "" {
      JoinSplit(s[1..]);
      var rest := Split(s[1..]);
      assert s == [s[0]] + s[1..];
      if s[0] == '\n' {
        assert Split(s)[1..] == rest;
        assert "" + "\n" + s[1..] == s;
      } else if |rest| > 1 {
        assert [s[0]] + rest[0] + "\n" + Join(rest[1..]) == [s[0]] + (rest[0] + "\n" + Join(rest[1..]));
      }
    }
  }

  lemma {:induction false} SplitJoin(lines: seq<string>)
    requires lines != [] && forall l <- lines :: '\n' !in l
    ensures Split(Join(lines)) == lines
  {
    if |lines| == 1 {
      SplitLine(lines[0]);
    } else {
      SplitJoin(lines[1..]);
      SplitPrefix(lines[0], Join(lines[1..]));
      assert lines[0] + ("\n" + Join(lines[1..])) == lines[0] + "\n" + Join(lines[1..]);
    }
  }

  lemma {:induction false} SplitLine(l: string)
    requires '\n' !in l
    ensures Split(l) == [l]
  {
    if l != "" {
      SplitLine(l[1..]);
      assert [l[0]] + l[1..] == l;
    }
  }

  lemma {:induction false} SplitPrefix(l: string, rest: string)
    requires '\n' !in l
    ensures Split(l + ("\n" + rest)) == [l] + Split(rest)
  {
    var s := l + ("\n" + rest);
    if l == "" {
      assert s == "\n" + rest && s[1..] == rest;
    } else {
      SplitPrefix(l[1..], rest);
      assert s[1..] == l[1..] + ("\n" + rest);
      assert [s[0]] + l[1..] == l;
    }
  }
}
