/**
 Copying a directory with its symbolic links resolved. The file system is a finite graph:
 a directory entry leads to the real path its name resolves to, so that links can share
 targets and form cycles.
 */
module CopyDir {
  import opened Options

  type RealPath = string

  /** A directory entry; `target` is None when its name does not resolve. */
  datatype Entry = Entry(name: string, target: Option<RealPath>)

  /** `Special` is anything that is neither a directory nor a regular file. */
  datatype Node = Directory(entries: seq<Entry>) | Regular(content: string) | Special

  type FileSystem = map<RealPath, Node>

  datatype Out = Dir | File(content: string)

  /** Names are unique in a directory, and what resolves exists. */
  ghost predicate WellFormed(fs: FileSystem) {
    forall d <- fs | fs[d].Directory? ::
      && (forall e <- fs[d].entries :: e.target.Some? ==> e.target.value in fs)
      && (forall i, j | 0 <= i < j < |fs[d].entries| :: fs[d].entries[i].name != fs[d].entries[j].name)
  }

  predicate IsDir(fs: FileSystem, d: RealPath) {
    d in fs && fs[d].Directory?
  }

  function Lookup(es: seq<Entry>, name: string): (e: Option<Entry>)
    ensures e.Some? ==> e.value in es && e.value.name == name
    ensures e.None? ==> forall x <- es :: x.name != name
  {
    if es == [] then None else if es[0].name == name then Some(es[0]) else Lookup(es[1..], name)
  }

  lemma LookupAt(es: seq<Entry>, k: nat)
    requires k < |es| && forall i, j | 0 <= i < j < |es| :: es[i].name != es[j].name
    ensures Lookup(es, es[k].name) == Some(es[k])
  {
    var e := Lookup(es, es[k].name);
    assert es[k] in es;
  }

  // ---------- The specification: walking a path of the copy ----------

  /** What the copy of `d` holds at `rel`, when the directories of `visited` are not entered. */
  function Produced(fs: FileSystem, d: RealPath, visited: set<RealPath>, rel: seq<string>): Option<Out>
    decreases |rel|
  {
    if d in visited || !IsDir(fs, d) || rel == [] then None
    else
      var e := Lookup(fs[d].entries, rel[0]);
      if e.None? || e.value.target.None? || e.value.target.value !in fs then None
      else
        var t := e.value.target.value;
        if |rel| > 1 then Produced(fs, t, visited + {d}, rel[1..])
        else match fs[t]
          case Directory(_) => Some(Dir)
          case Regular(c) => Some(File(c))
          case Special => None
  }

  /** The walk along `rel` meets an entry that does not resolve, at its end. */
  predicate BrokenAt(fs: FileSystem, d: RealPath, visited: set<RealPath>, rel: seq<string>)
    decreases |rel|
  {
    if d in visited || !IsDir(fs, d) || rel == [] then false
    else
      var e := Lookup(fs[d].entries, rel[0]);
      if e.None? then false
      else if |rel| == 1 then e.value.target.None?
      else e.value.target.Some? && BrokenAt(fs, e.value.target.value, visited + {d}, rel[1..])
  }

  predicate Under(dst: seq<string>, p: seq<string>) {
    |dst| < |p| && p[..|dst|] == dst
  }

  function At(m: map<seq<string>, Out>, p: seq<string>): Option<Out> {
    if p in m then Some(m[p]) else None
  }

  /** The names of the first `k` entries. */
  predicate NamedBefore(es: seq<Entry>, k: nat, name: string)
    requires k <= |es|
  {
    exists j | 0 <= j < k :: es[j].name == name
  }

  /** A step of the walk through an entry that leads to a directory. */
  lemma ThroughDirectory(fs: FileSystem, d: RealPath, visited: set<RealPath>, e: Entry, rel: seq<string>)
    requires d !in visited && IsDir(fs, d) && Lookup(fs[d].entries, e.name) == Some(e)
    requires e.target.Some? && IsDir(fs, e.target.value) && rel != [] && rel[0] == e.name
    ensures Produced(fs, d, visited, rel) ==
            if |rel| == 1 then Some(Dir) else Produced(fs, e.target.value, visited + {d}, rel[1..])
    ensures BrokenAt(fs, d, visited, rel) <==> |rel| > 1 && BrokenAt(fs, e.target.value, visited + {d}, rel[1..])
  {
  }

  /** An entry that leads to anything else ends every walk. */
  lemma ThroughLeaf(fs: FileSystem, d: RealPath, visited: set<RealPath>, e: Entry, rel: seq<string>)
    requires d !in visited && IsDir(fs, d) && Lookup(fs[d].entries, e.name) == Some(e)
    requires e.target.Some? && e.target.value in fs && !IsDir(fs, e.target.value) && rel != [] && rel[0] == e.name
    ensures Produced(fs, d, visited, rel) ==
            if |rel| == 1 && fs[e.target.value].Regular? then Some(File(fs[e.target.value].content)) else None
    ensures !BrokenAt(fs, d, visited, rel)
  {
    if |rel| > 1 { assert !IsDir(fs, e.target.value); }
  }

  // ---------- The algorithm ----------

  class Copier {
    const fs: FileSystem
    var visited: set<RealPath>
    var dest: map<seq<string>, Out>

    constructor (fs: FileSystem)
      ensures this.fs == fs && visited == {} && dest == map[]
    {
      this.fs := fs;
      visited, dest := {}, map[];
    }

    /** Nothing of a directory that was entered is left out, and `visited` is as before. */
    method CopyDir(src: RealPath, dst: seq<string>) returns (ok: bool)
      requires WellFormed(fs) && IsDir(fs, src)
      requires forall p <- dest :: !Under(dst, p)
      modifies this
      ensures visited == old(visited)
      ensures ok <==> forall rel :: !BrokenAt(fs, src, old(visited), rel)
      ensures ok ==> forall p ::
        At(dest, p) == if Under(dst, p) then Produced(fs, src, old(visited), p[|dst|..]) else At(old(dest), p)
      decreases fs.Keys - visited, 0
    {
      if src in visited {
        return true; // break the cycle
      }
      ghost var before := visited;
      visited := visited + {src};
      ok := CopyEntries(src, dst, before);
      visited := visited - {src};
      assert visited == before;
    }

    /** The loop over the entries of a directory that has just been entered. */
    method CopyEntries(src: RealPath, dst: seq<string>, ghost before: set<RealPath>) returns (ok: bool)
      requires WellFormed(fs) && IsDir(fs, src) && src !in before && visited == before + {src}
      requires forall p <- dest :: !Under(dst, p)
      modifies this
      ensures visited == before + {src}
      ensures ok <==> forall rel :: !BrokenAt(fs, src, before, rel)
      ensures ok ==> forall p ::
        At(dest, p) == if Under(dst, p) then Produced(fs, src, before, p[|dst|..]) else At(old(dest), p)
      decreases fs.Keys - visited, 2
    {
      hide Produced, BrokenAt;
      var entries := fs[src].entries;
      for k := 0 to |entries|
        invariant visited == before + {src}
        invariant forall rel | rel != [] && NamedBefore(entries, k, rel[0]) :: !BrokenAt(fs, src, before, rel)
        invariant forall p ::
          At(dest, p) == if Under(dst, p) && NamedBefore(entries, k, p[|dst|])
                         then Produced(fs, src, before, p[|dst|..]) else At(old(dest), p)
      {
        LookupAt(entries, k);
        NamedOneMore(entries, k);
        ok := CopyEntry(src, dst, entries[k], before);
        if !ok {
          return false;
        }
      }
      UnnamedIsEmpty(fs, src, before);
      return true;
    }

    /** One entry: a directory is created and copied, a regular file is copied. */
    method CopyEntry(src: RealPath, dst: seq<string>, entry: Entry, ghost before: set<RealPath>) returns (ok: bool)
      requires WellFormed(fs) && IsDir(fs, src) && src !in before && visited == before + {src}
      requires Lookup(fs[src].entries, entry.name) == Some(entry)
      requires forall p <- dest :: !(Under(dst, p) && p[|dst|] == entry.name)
      modifies this
      ensures visited == before + {src}
      ensures ok <==> forall rel | rel != [] && rel[0] == entry.name :: !BrokenAt(fs, src, before, rel)
      ensures ok ==> forall p ::
        At(dest, p) == if Under(dst, p) && p[|dst|] == entry.name
                       then Produced(fs, src, before, p[|dst|..]) else At(old(dest), p)
      decreases fs.Keys - visited, 1
    {
      hide Produced, BrokenAt;
      var dstPath := dst + [entry.name];
      if entry.target.None? {
        BrokenHere(fs, src, before, entry);
        return false;
      }
      var realPath := entry.target.value;
      match fs[realPath] {
        case Directory(_) =>
          dest := dest[dstPath := Dir];
          ok := CopyDir(realPath, dstPath);
          BrokenBelow(fs, src, before, entry);
          DirectoryProduces(fs, src, before, entry, dst);
        case Regular(content) =>
          dest := dest[dstPath := File(content)];
          LeafProduces(fs, src, before, entry, dst);
          return true;
        case Special =>
          LeafProduces(fs, src, before, entry, dst);
          return true;
      }
    }
  }

  lemma NamedOneMore(es: seq<Entry>, k: nat)
    requires k < |es| && forall i, j | 0 <= i < j < |es| :: es[i].name != es[j].name
    ensures forall name :: NamedBefore(es, k + 1, name) <==> NamedBefore(es, k, name) || name == es[k].name
    ensures !NamedBefore(es, k, es[k].name)
  {
    forall name ensures NamedBefore(es, k + 1, name) <==> NamedBefore(es, k, name) || name == es[k].name {
      if name == es[k].name { assert NamedBefore(es, k + 1, name); }
      if NamedBefore(es, k, name) {
        var j :| 0 <= j < k && es[j].name == name;
        assert 0 <= j < k + 1 && es[j].name == name;
      }
    }
  }

  lemma UnnamedIsEmpty(fs: FileSystem, d: RealPath, visited: set<RealPath>)
    requires IsDir(fs, d)
    ensures forall rel | rel == [] || !NamedBefore(fs[d].entries, |fs[d].entries|, rel[0]) ::
              Produced(fs, d, visited, rel) == None && !BrokenAt(fs, d, visited, rel)
  {
    forall rel | rel == [] || !NamedBefore(fs[d].entries, |fs[d].entries|, rel[0])
      ensures Produced(fs, d, visited, rel) == None && !BrokenAt(fs, d, visited, rel)
    {
      if rel != [] {
        assert forall e <- fs[d].entries :: e.name != rel[0];
      }
    }
  }

  lemma BrokenBelow(fs: FileSystem, d: RealPath, visited: set<RealPath>, e: Entry)
    requires d !in visited && IsDir(fs, d) && Lookup(fs[d].entries, e.name) == Some(e)
    requires e.target.Some? && IsDir(fs, e.target.value)
    ensures (forall rel | rel != [] && rel[0] == e.name :: !BrokenAt(fs, d, visited, rel))
            <==> forall rel :: !BrokenAt(fs, e.target.value, visited + {d}, rel)
  {
    var t := e.target.value;
    if rel :| BrokenAt(fs, t, visited + {d}, rel) {
      ThroughDirectory(fs, d, visited, e, [e.name] + rel);
      assert ([e.name] + rel)[1..] == rel;
    } else {
      forall rel | rel != [] && rel[0] == e.name ensures !BrokenAt(fs, d, visited, rel) {
        ThroughDirectory(fs, d, visited, e, rel);
      }
    }
  }

  lemma BrokenHere(fs: FileSystem, d: RealPath, visited: set<RealPath>, e: Entry)
    requires d !in visited && IsDir(fs, d) && Lookup(fs[d].entries, e.name) == Some(e) && e.target.None?
    ensures BrokenAt(fs, d, visited, [e.name]) && [e.name] != [] && [e.name][0] == e.name
  {
  }

  /** What the walks through an entry that leads to a directory produce. */
  lemma DirectoryProduces(fs: FileSystem, d: RealPath, visited: set<RealPath>, e: Entry, dst: seq<string>)
    requires d !in visited && IsDir(fs, d) && Lookup(fs[d].entries, e.name) == Some(e)
    requires e.target.Some? && IsDir(fs, e.target.value)
    ensures forall p | Under(dst, p) && p[|dst|] == e.name ::
      if p == dst + [e.name] then Produced(fs, d, visited, p[|dst|..]) == Some(Dir)
      else Under(dst + [e.name], p) &&
           Produced(fs, d, visited, p[|dst|..]) == Produced(fs, e.target.value, visited + {d}, p[|dst| + 1..])
    ensures forall p | Under(dst + [e.name], p) :: Under(dst, p) && p[|dst|] == e.name
  {
    var dstPath := dst + [e.name];
    forall p | Under(dst, p) && p[|dst|] == e.name
      ensures if p == dstPath then Produced(fs, d, visited, p[|dst|..]) == Some(Dir)
              else Under(dstPath, p) &&
                   Produced(fs, d, visited, p[|dst|..]) == Produced(fs, e.target.value, visited + {d}, p[|dst| + 1..])
    {
      ThroughDirectory(fs, d, visited, e, p[|dst|..]);
      assert p[..|dst| + 1] == dstPath;
      assert |p| == |dst| + 1 ==> p == dstPath;
      assert p[|dst|..][1..] == p[|dst| + 1..];
    }
    forall p | Under(dstPath, p) ensures Under(dst, p) && p[|dst|] == e.name {
      assert p[..|dst|] == p[..|dst| + 1][..|dst|] == dst && p[|dst|] == p[..|dst| + 1][|dst|];
    }
  }

  lemma LeafProduces(fs: FileSystem, d: RealPath, visited: set<RealPath>, e: Entry, dst: seq<string>)
    requires d !in visited && IsDir(fs, d) && Lookup(fs[d].entries, e.name) == Some(e)
    requires e.target.Some? && e.target.value in fs && !IsDir(fs, e.target.value)
    ensures forall rel | rel != [] && rel[0] == e.name :: !BrokenAt(fs, d, visited, rel)
    ensures forall p | Under(dst, p) && p[|dst|] == e.name ::
      Produced(fs, d, visited, p[|dst|..]) ==
      if p == dst + [e.name] && fs[e.target.value].Regular? then Some(File(fs[e.target.value].content)) else None
  {
    forall rel | rel != [] && rel[0] == e.name ensures !BrokenAt(fs, d, visited, rel) {
      ThroughLeaf(fs, d, visited, e, rel);
    }
    forall p | Under(dst, p) && p[|dst|] == e.name
      ensures Produced(fs, d, visited, p[|dst|..]) ==
        if p == dst + [e.name] && fs[e.target.value].Regular? then Some(File(fs[e.target.value].content)) else None
    {
      ThroughLeaf(fs, d, visited, e, p[|dst|..]);
      if |p| == |dst| + 1 { assert p == p[..|dst|] + [p[|dst|]]; }
    }
  }

  // ---------- What the copy holds ----------

  /** Plain resolution of a path through the links: the real path it leads to. */
  function Resolve(fs: FileSystem, d: RealPath, rel: seq<string>): Option<RealPath>
    decreases |rel|
  {
    if rel == [] then Some(d)
    else if !IsDir(fs, d) then None
    else
      var e := Lookup(fs[d].entries, rel[0]);
      if e.None? || e.value.target.None? then None else Resolve(fs, e.value.target.value, rel[1..])
  }

  /** The real directories that the resolution of `rel` enters, in order, with `d` first. */
  function Entered(fs: FileSystem, d: RealPath, rel: seq<string>): seq<RealPath>
    requires Resolve(fs, d, rel).Some?
    decreases |rel|
  {
    if rel == [] then []
    else [d] + Entered(fs, Lookup(fs[d].entries, rel[0]).value.target.value, rel[1..])
  }

  ghost predicate NoRepeat(ds: seq<RealPath>) {
    forall i, j | 0 <= i < j < |ds| :: ds[i] != ds[j]
  }

  function OutOf(n: Node): Option<Out> {
    match n
    case Directory(_) => Some(Dir)
    case Regular(c) => Some(File(c))
    case Special => None
  }

  /** What plain resolution finds at a path that is not empty. */
  function Found(fs: FileSystem, d: RealPath, rel: seq<string>): Option<Out> {
    var r := Resolve(fs, d, rel);
    if rel == [] || r.None? || r.value !in fs then None else OutOf(fs[r.value])
  }

  /**
   The copy holds something at a path exactly when the path resolves to a directory or a
   regular file and enters no real directory twice, and then it holds what the path resolves to.
   */
  lemma {:induction false} CopyHolds(fs: FileSystem, d: RealPath, visited: set<RealPath>, rel: seq<string>)
    requires WellFormed(fs) && rel != []
    ensures Produced(fs, d, visited, rel) ==
            if Resolve(fs, d, rel).Some? && NoRepeat(Entered(fs, d, rel)) && (forall x <- Entered(fs, d, rel) ::
                x !in visited)
            then Found(fs, d, rel) else None
    decreases |rel|
  {
    if IsDir(fs, d) {
      var e := Lookup(fs[d].entries, rel[0]);
      if e.Some? && e.value.target.Some? {
        var t := e.value.target.value;
        if |rel| == 1 {
          assert rel[1..] == [] && Resolve(fs, d, rel) == Some(t);
          assert Entered(fs, d, rel) == [d] && d in [d];
        } else {
          CopyHolds(fs, t, visited + {d}, rel[1..]);
          if Resolve(fs, t, rel[1..]).Some? {
            var ds := Entered(fs, t, rel[1..]);
            NoRepeatCons(d, ds);
            assert Entered(fs, d, rel) == [d] + ds;
          }
        }
      }
    }
  }

  lemma NoRepeatCons(d: RealPath, ds: seq<RealPath>)
    ensures NoRepeat([d] + ds) <==> NoRepeat(ds) && d !in ds
    ensures forall x :: x in [d] + ds <==> x == d || x in ds
  {
    var all := [d] + ds;
    assert forall i | 0 <= i < |ds| :: all[i + 1] == ds[i];
    if NoRepeat(all) {
      assert forall j | 1 <= j < |all| :: all[0] != all[j];
    }
  }

  /** A broken entry stops the copy exactly when it is reached without a repeated directory. */
  lemma {:induction false} CopyBreaks(fs: FileSystem, d: RealPath, visited: set<RealPath>, rel: seq<string>,
      name: string)
    ensures BrokenAt(fs, d, visited, rel + [name]) <==>
            && Resolve(fs, d, rel).Some? && IsDir(fs, Resolve(fs, d, rel).value)
            && NoRepeat(Entered(fs, d, rel) + [Resolve(fs, d, rel).value])
            && (forall x <- Entered(fs, d, rel) + [Resolve(fs, d, rel).value] :: x !in visited)
            && Lookup(fs[Resolve(fs, d, rel).value].entries, name).Some?
            && Lookup(fs[Resolve(fs, d, rel).value].entries, name).value.target.None?
    decreases |rel|
  {
    var all := rel + [name];
    if rel == [] {
      assert all == [name];
    } else if IsDir(fs, d) {
      var e := Lookup(fs[d].entries, rel[0]);
      assert all[0] == rel[0] && all[1..] == rel[1..] + [name];
      if e.Some? && e.value.target.Some? {
        var t := e.value.target.value;
        CopyBreaks(fs, t, visited + {d}, rel[1..], name);
        if Resolve(fs, t, rel[1..]).Some? {
          var ds := Entered(fs, t, rel[1..]) + [Resolve(fs, t, rel[1..]).value];
          NoRepeatCons(d, ds);
          assert Entered(fs, d, rel) + [Resolve(fs, d, rel).value] == [d] + ds;
        }
      }
    }
  }

  /** Plain resolution of `rel` ends at a directory whose entry `name` does not resolve. */
  predicate LeadsToBroken(fs: FileSystem, d: RealPath, rel: seq<string>, name: string) {
    var r := Resolve(fs, d, rel);
    r.Some? && IsDir(fs, r.value)
    && var e := Lookup(fs[r.value].entries, name); e.Some? && e.value.target.None?
  }

  lemma {:induction false} ResolveConcat(fs: FileSystem, d: RealPath, a: seq<string>, b: seq<string>)
    ensures var r := Resolve(fs, d, a); Resolve(fs, d, a + b) == if r.None? then None else Resolve(fs, r.value, b)
    decreases |a|
  {
    if a == [] {
      assert a + b == b;
    } else if IsDir(fs, d) {
      var e := Lookup(fs[d].entries, a[0]);
      assert (a + b)[1..] == a[1..] + b;
      if e.Some? && e.value.target.Some? { ResolveConcat(fs, e.value.target.value, a[1..], b); }
    }
  }

  /** The directories entered are those that the beginnings of the path resolve to. */
  lemma {:induction false} EnteredAt(fs: FileSystem, d: RealPath, rel: seq<string>, i: nat)
    requires Resolve(fs, d, rel).Some? && i <= |rel|
    ensures |Entered(fs, d, rel)| == |rel|
    ensures Resolve(fs, d, rel[..i]) == Some((Entered(fs, d, rel) + [Resolve(fs, d, rel).value])[i])
    decreases |rel|
  {
    if rel != [] {
      var t := Lookup(fs[d].entries, rel[0]).value.target.value;
      EnteredAt(fs, t, rel[1..], if i == 0 then 0 else i - 1);
      if i > 0 { assert rel[..i][1..] == rel[1..][..i - 1] && rel[..i][0] == rel[0]; }
    }
  }

  /** Cutting its loops makes every path one that enters no directory twice, with the same end. */
  lemma {:induction false} WithoutLoops(fs: FileSystem, d: RealPath, rel: seq<string>) returns (short: seq<string>)
    requires Resolve(fs, d, rel).Some?
    ensures Resolve(fs, d, short) == Resolve(fs, d, rel)
    ensures NoRepeat(Entered(fs, d, short) + [Resolve(fs, d, rel).value])
    decreases |rel|
  {
    var all := Entered(fs, d, rel) + [Resolve(fs, d, rel).value];
    short := rel;
    if !NoRepeat(all) {
      var i, j :| 0 <= i < j < |all| && all[i] == all[j];
      EnteredAt(fs, d, rel, 0);
      EnteredAt(fs, d, rel, i);
      EnteredAt(fs, d, rel, j);
      ResolveConcat(fs, d, rel[..i], rel[j..]);
      ResolveConcat(fs, d, rel[..j], rel[j..]);
      assert rel[..j] + rel[j..] == rel;
      short := WithoutLoops(fs, d, rel[..i] + rel[j..]);
    }
  }

  /**
   The walks that skip repeated directories meet a broken entry exactly when some path leads to
   one at all: the skipped paths lead to nothing else.
   */
  lemma BreaksExactly(fs: FileSystem, d: RealPath)
    ensures (exists rel :: BrokenAt(fs, d, {}, rel)) <==> exists rel, name :: LeadsToBroken(fs, d, rel, name)
  {
    if rel :| BrokenAt(fs, d, {}, rel) {
      assert rel[..|rel| - 1] + [rel[|rel| - 1]] == rel;
      CopyBreaks(fs, d, {}, rel[..|rel| - 1], rel[|rel| - 1]);
      assert LeadsToBroken(fs, d, rel[..|rel| - 1], rel[|rel| - 1]);
    }
    if rel, name :| LeadsToBroken(fs, d, rel, name) {
      var short := WithoutLoops(fs, d, rel);
      CopyBreaks(fs, d, {}, short, name);
      assert BrokenAt(fs, d, {}, short + [name]);
    }
  }

  /** `rank` gets smaller along every entry that leads to a directory. */
  ghost predicate Acyclic(fs: FileSystem, rank: RealPath -> nat) {
    forall d <- fs | fs[d].Directory? :: forall e <- fs[d].entries ::
      e.target.Some? && IsDir(fs, e.target.value) ==> rank(e.target.value) < rank(d)
  }

  lemma {:induction false} AcyclicDoesNotRepeat(fs: FileSystem, rank: RealPath -> nat, d: RealPath, rel: seq<string>)
    requires WellFormed(fs) && Acyclic(fs, rank) && Resolve(fs, d, rel).Some?
    ensures NoRepeat(Entered(fs, d, rel)) && forall x <- Entered(fs, d, rel) :: rank(x) <= rank(d)
    decreases |rel|
  {
    if rel != [] {
      var t := Lookup(fs[d].entries, rel[0]).value.target.value;
      AcyclicDoesNotRepeat(fs, rank, t, rel[1..]);
      NoRepeatCons(d, Entered(fs, t, rel[1..]));
    }
  }

  /** Without cycles the copy is the whole unfolding: it holds what plain resolution finds. */
  lemma AcyclicCopiesAll(fs: FileSystem, rank: RealPath -> nat, d: RealPath, rel: seq<string>)
    requires WellFormed(fs) && Acyclic(fs, rank) && rel != []
    ensures Produced(fs, d, {}, rel) == Found(fs, d, rel)
  {
    CopyHolds(fs, d, {}, rel);
    if Resolve(fs, d, rel).Some? { AcyclicDoesNotRepeat(fs, rank, d, rel); }
  }

  /** The copy of a source directory into an empty one. */
  method ResolveSymlinks(fs: FileSystem, root: RealPath) returns (ok: bool, copy: map<seq<string>, Out>)
    requires WellFormed(fs) && IsDir(fs, root)
    ensures ok <==> forall rel, name :: !LeadsToBroken(fs, root, rel, name)
    ensures ok ==> [] !in copy && forall p | p != [] ::
      At(copy, p) == if Resolve(fs, root, p).Some? && NoRepeat(Entered(fs, root, p)) then Found(fs, root, p) else None
    ensures !ok ==> copy == map[]
  {
    var c := new Copier(fs);
    ok := c.CopyDir(root, []);
    BreaksExactly(fs, root);
    copy := if ok then c.dest else map[];
    assert At(c.dest, []) == None || !ok;
    forall p | p != []
      ensures var r := Resolve(fs, root, p);
              ok ==> At(copy, p) == if r.Some? && NoRepeat(Entered(fs, root, p)) then Found(fs, root, p) else None
    {
      CopyHolds(fs, root, {}, p);
      assert Under([], p) && p[0..] == p;
    }
  }
}
