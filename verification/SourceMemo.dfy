/**
 Reconciling several objects together with their sources. The results of the sources are
 kept in a table that all the names of one command and the nested commands share, and the
 namespace of the command is switched while a source is reconciled.

 The answers of the cluster are a parameter: `env(t)` is what the command invoked at time
 `t` meets, and may be anything.
 */
module SourceMemo {
  import opened Options

  datatype Kind = HelmRelease | Kustomization | HelmChart | OCIRepository | GitRepository | HelmRepository | Bucket
                | OtherKind(name: string)

  /** The kinds whose objects have a source to reconcile first. */
  type Parent = k: Kind | k in {HelmRelease, Kustomization, HelmChart} witness HelmChart

  datatype SourceRef = SourceRef(kind: Kind, name: string, namespace: string)

  /** A GetError is the failure to fetch the named object itself. */
  datatype Result = Success | GetError | OtherError

  /**
   The fetched object: what its spec says about its source, by its kind. A HelmRelease has a
   `chartRef` or else a chart template, for which the controller generates `templateRef`.
   */
  datatype Object = Object(
    namespace: string, suspended: bool, isStatic: bool,
    chartRef: Option<SourceRef>, templateRef: Option<SourceRef>, sourceRef: SourceRef)

  /** `ends` is the outcome of requesting the reconciliation and waiting for it. */
  datatype Response = Response(connects: bool, fetched: Option<Object>, requests: bool, ends: bool)

  type Env = nat -> Response

  /**
   `Called` is the start of a source's reconciliation, `Recorded` its end with the result that
   goes to the table, `Annotated` a request that was made. `at` is the time of the answer that the
   command of the source or object had.
   */
  datatype Event =
    | Called(ref: SourceRef)
    | Recorded(ref: SourceRef, result: Result, at: nat)
    | Annotated(kind: Kind, namespace: string, name: string, source: Option<SourceRef>, at: nat)

  datatype State = State(sources: map<SourceRef, Result>, log: seq<Event>, clock: nat)

  datatype Command = NoCommand | Plain(kind: Kind) | WithSource(parent: Parent)

  // ---------- The source of an object ----------

  /** The command for the source of a fetched object, and the key of the table. */
  function GetSource(kind: Parent, obj: Object): (Command, SourceRef) {
    match kind
    case HelmRelease =>
      if obj.chartRef.Some? then
        var r := obj.chartRef.value;
        var ref := if r.namespace == "" then r.(namespace := obj.namespace) else r;
        var cmd := if r.kind == HelmChart then WithSource(HelmChart)
                   else if r.kind == OCIRepository then Plain(OCIRepository) else NoCommand;
        (cmd, ref)
      else if obj.templateRef.Some? then
        var r := obj.templateRef.value;
        (if r.kind == OCIRepository then Plain(OCIRepository) else WithSource(HelmChart), r)
      else (NoCommand, SourceRef(OtherKind(""), "", ""))
    case HelmChart =>
      var r := obj.sourceRef.(namespace := obj.namespace);
      (if r.kind in {HelmRepository, GitRepository, Bucket} then Plain(r.kind) else NoCommand, r)
    case Kustomization =>
      var r := obj.sourceRef;
      (if r.kind in {OCIRepository, GitRepository, Bucket} then Plain(r.kind) else NoCommand, r)
  }

  /** The kinds of sources that the command of a kind can reconcile. */
  const SOURCE_KINDS: map<Kind, set<Kind>> := map[
    HelmRelease := {HelmChart, OCIRepository},
    Kustomization := {OCIRepository, GitRepository, Bucket},
    HelmChart := {HelmRepository, GitRepository, Bucket}]

  /** What an object's spec refers to: a chart reference goes before a chart template. */
  function ReferenceOf(kind: Parent, obj: Object): Option<SourceRef> {
    if kind != HelmRelease then Some(obj.sourceRef) else if obj.chartRef.Some? then obj.chartRef else obj.templateRef
  }

  /**
   The source found is the one that the spec refers to, by kind and name. A chart looks for it in its
   own namespace, a chart reference without a namespace is in that of its object, and any other
   without one in that of the command. There is a command exactly for the kinds of the table, and
   for what the controller generates; it is for the kind of the source, and a chart is reconciled
   with its own source.
   */
  lemma GetSourceExactly(kind: Parent, obj: Object, ns: string)
    ensures var (cmd, found) := GetSource(kind, obj);
            var ref, key := ReferenceOf(kind, obj), KeyIn(found, ns);
            && (ref.None? ==> cmd == NoCommand)
            && (ref.Some? ==>
                 && key.kind == ref.value.kind && key.name == ref.value.name
                 && key.namespace == NamespaceOf(kind, obj, ref.value, ns)
                 && (cmd != NoCommand <==>
                       key.kind in SOURCE_KINDS[kind] || (kind == HelmRelease && obj.chartRef.None?))
                 && (cmd.Plain? ==> cmd.kind == key.kind)
                 && (cmd.WithSource? ==> cmd.parent == HelmChart)
                 && (key.kind == HelmChart && cmd != NoCommand ==> cmd.WithSource?))
  {
  }

  function NamespaceOf(kind: Parent, obj: Object, ref: SourceRef, ns: string): string {
    var own := if kind == HelmChart || (ref.namespace == "" && kind == HelmRelease && obj.chartRef.Some?)
               then obj.namespace else ref.namespace;
    if own == "" then ns else own
  }

  function Rank(kind: Parent): nat {
    if kind == HelmRelease then 1 else 0
  }

  lemma RankDecreases(kind: Parent, obj: Object)
    ensures var cmd := GetSource(kind, obj).0; cmd.WithSource? ==> Rank(cmd.parent) < Rank(kind)
  {
  }

  // ---------- Specification: the namespace as an argument ----------

  function Unwrap(r: Result): Result {
    if r == GetError then OtherError else r
  }

  function Record(s: State, ref: SourceRef, result: Result, at: nat): State {
    s.(sources := s.sources[ref := result], log := s.log + [Recorded(ref, result, at)])
  }

  /** The key of the table: a source without a namespace is in the one of the command. */
  function KeyIn(found: SourceRef, ns: string): SourceRef {
    if found.namespace == "" then found.(namespace := ns) else found
  }

  function Tick(s: State): State {
    s.(clock := s.clock + 1)
  }

  /** Requesting the reconciliation of an object, as the answer at `at` had it, and waiting for it. */
  function Request(env: Env, s: State, at: nat, kind: Kind, ns: string, name: string, source: Option<SourceRef>)
    : (State, Result)
  {
    if !env(at).requests then (s, OtherError)
    else (s.(log := s.log + [Annotated(kind, ns, name, source, at)]), if env(at).ends then Success else OtherError)
  }

  /** `reconcileCommand.reconcile`. */
  function RunPlain(env: Env, s: State, ns: string, kind: Kind, name: string): (State, Result) {
    var r, t := env(s.clock), Tick(s);
    if !r.connects then (t, OtherError)
    else if r.fetched.None? then (t, GetError)
    else if r.fetched.value.isStatic then (t, Success)
    else if r.fetched.value.suspended then (t, OtherError)
    else Request(env, t, s.clock, kind, ns, name, None)
  }

  /** `reconcileWithSourceCommand.reconcile`; `wanted` is the command's flag or `force`. */
  function RunWithSource(env: Env, s: State, ns: string, kind: Parent, wanted: bool, name: string): (State, Result)
    decreases Rank(kind), 1
  {
    var r, t := env(s.clock), Tick(s);
    if !r.connects then (t, OtherError)
    else if r.fetched.None? then (t, GetError)
    else if r.fetched.value.suspended then (t, OtherError)
    else if !wanted then Request(env, t, s.clock, kind, ns, name, None)
    else
      var (cmd, found) := GetSource(kind, r.fetched.value);
      if cmd == NoCommand then (t, OtherError)
      else
        var ref := KeyIn(found, ns);
        RankDecreases(kind, r.fetched.value);
        var (u, result) := RunSource(env, t, kind, cmd, ref);
        if result != Success then (u, result) else Request(env, u, s.clock, kind, ns, name, Some(ref))
  }

  /** The source by the table, or else by its command, in its own namespace. */
  function RunSource(env: Env, s: State, parent: Parent, cmd: Command, ref: SourceRef): (State, Result)
    requires cmd != NoCommand && (cmd.WithSource? ==> Rank(cmd.parent) < Rank(parent))
    decreases Rank(parent), 0
  {
    if ref in s.sources then (s, s.sources[ref])
    else
      var t := s.(log := s.log + [Called(ref)]);
      var (u, result) :=
        if cmd.Plain? then RunPlain(env, t, ref.namespace, cmd.kind, ref.name)
        else RunWithSource(env, t, ref.namespace, cmd.parent, true, ref.name);
      (Record(u, ref, Unwrap(result), s.clock), Unwrap(result))
  }

  /** The names of one command in order, each once; the failures are counted. */
  function RunNames(env: Env, s: State, ns: string, kind: Parent, wanted: bool, names: seq<string>): (State, nat) {
    if names == [] then (s, 0)
    else
      var (t, failed) := RunNames(env, s, ns, kind, wanted, names[..|names| - 1]);
      var (u, result) := RunWithSource(env, t, ns, kind, wanted, names[|names| - 1]);
      (u, if result == Success then failed else failed + 1)
  }

  // ---------- The commands: the namespace as shared state ----------

  class Session {
    const env: Env
    var namespace: string
    var sources: map<SourceRef, Result>
    var log: seq<Event>
    var clock: nat

    constructor (env: Env, namespace: string)
      ensures this.env == env && this.namespace == namespace && Value() == State(map[], [], 0)
    {
      this.env, this.namespace := env, namespace;
      sources, log, clock := map[], [], 0;
    }

    function Value(): State
      reads this
    {
      State(sources, log, clock)
    }

    method Answer() returns (r: Response)
      modifies this`clock
      ensures r == env(old(clock)) && clock == old(clock) + 1
    {
      r := env(clock);
      clock := clock + 1;
    }

    method RequestReconciliation(at: nat, kind: Kind, name: string, source: Option<SourceRef>)
      returns (result: Result)
      modifies this`log
      ensures (Value(), result) == Request(env, old(Value()), at, kind, namespace, name, source)
    {
      var r := env(at);
      if !r.requests {
        return OtherError;
      }
      log := log + [Annotated(kind, namespace, name, source, at)];
      return if r.ends then Success else OtherError;
    }

    method ReconcilePlain(kind: Kind, name: string) returns (result: Result)
      modifies this
      ensures namespace == old(namespace)
      ensures (Value(), result) == RunPlain(env, old(Value()), namespace, kind, name)
    {
      var at := clock;
      var r := Answer();
      if !r.connects {
        return OtherError;
      }
      if r.fetched.None? {
        return GetError;
      }
      if r.fetched.value.isStatic {
        return Success;
      }
      if r.fetched.value.suspended {
        return OtherError;
      }
      result := RequestReconciliation(at, kind, name, None);
    }

    /**
     Whatever happens, the namespace on return is the one on entry, and the command does what
     the specification does that gets the namespace as an argument.
     */
    method ReconcileWithSource(kind: Parent, wanted: bool, name: string) returns (result: Result)
      modifies this
      ensures namespace == old(namespace)
      ensures (Value(), result) == RunWithSource(env, old(Value()), namespace, kind, wanted, name)
      decreases Rank(kind)
    {
      var at := clock;
      var r := Answer();
      if !r.connects {
        return OtherError;
      }
      if r.fetched.None? {
        return GetError;
      }
      if r.fetched.value.suspended {
        return OtherError;
      }
      var source := None;
      if wanted {
        var (cmd, srcRef) := GetSource(kind, r.fetched.value);
        if cmd == NoCommand {
          return OtherError;
        }
        RankDecreases(kind, r.fetched.value);
        var nsCopy := namespace;
        if srcRef.namespace == "" {
          srcRef := srcRef.(namespace := nsCopy);
        }
        var err: Result;
        if srcRef in sources {
          err := sources[srcRef];
        } else {
          var start := clock;
          namespace := srcRef.namespace;
          log := log + [Called(srcRef)];
          match cmd {
            case Plain(k) => err := ReconcilePlain(k, srcRef.name);
            case WithSource(k) => err := ReconcileWithSource(k, true, srcRef.name);
          }
          err := Unwrap(err);
          namespace := nsCopy;
          sources := sources[srcRef := err];
          log := log + [Recorded(srcRef, err, start)];
        }
        if err != Success {
          return err;
        }
        source := Some(srcRef);
      }
      result := RequestReconciliation(at, kind, name, source);
    }

    /** All names of a command, duplicates skipped; reports how many of how many failed. */
    method Run(kind: Parent, wanted: bool, args: seq<string>) returns (failed: nat, total: nat)
      requires Value() == State(map[], [], 0)
      modifies this
      ensures namespace == old(namespace)
      ensures total == |Unique(args)|
      ensures (Value(), failed) == RunNames(env, State(map[], [], 0), namespace, kind, wanted, Unique(args))
    {
      hide RunWithSource, Unique;
      var names := UniqueNames(args);
      total, failed := |names|, 0;
      assert names[..0] == [];
      for i := 0 to |names|
        invariant namespace == old(namespace)
        invariant (Value(), failed) == RunNames(env, State(map[], [], 0), namespace, kind, wanted, names[..i])
      {
        assert names[..i + 1][..i] == names[..i];
        var result := ReconcileWithSource(kind, wanted, names[i]);
        if result != Success {
          failed := failed + 1;
        }
      }
      assert names[..|names|] == names;
    }
  }

  // ---------- Unique names ----------

  function Unique(names: seq<string>): seq<string> {
    if names == [] then []
    else
      var r := Unique(names[..|names| - 1]);
      if names[|names| - 1] in r then r else r + [names[|names| - 1]]
  }

  /** Every name once, and growing the list only adds to the end: first occurrences, in order. */
  lemma {:induction false} UniqueIsFirstOccurrences(names: seq<string>, k: nat)
    requires k <= |names|
    ensures var r := Unique(names);
            && (forall x :: x in r <==> x in names)
            && (forall i, j | 0 <= i < j < |r| :: r[i] != r[j])
            && Unique(names[..k]) <= r
    decreases |names|
  {
    if names == [] {
      assert names[..k] == [];
    } else {
      var n := |names| - 1;
      var head := names[..n];
      UniqueIsFirstOccurrences(head, if k <= n then k else n);
      assert names[..k] == if k <= n then head[..k] else names;
      assert names == head + [names[n]];
    }
  }

  method UniqueNames(names: seq<string>) returns (out: seq<string>)
    ensures out == Unique(names)
  {
    var seen: set<string> := {};
    out := [];
    assert names[..0] == [];
    for i := 0 to |names|
      invariant out == Unique(names[..i]) && forall x :: x in seen <==> x in out
    {
      assert names[..i + 1][..i] == names[..i];
      if names[i] !in seen {
        seen := seen + {names[i]};
        out := out + [names[i]];
      }
    }
    assert names[..|names|] == names;
  }

  // ---------- The table over a whole command ----------

  /** The sources whose reconciliation was started, in order. */
  function Calls(log: seq<Event>): seq<SourceRef> {
    if log == [] then []
    else Calls(log[..|log| - 1]) + if log[|log| - 1].Called? then [log[|log| - 1].ref] else []
  }

  lemma CallsSnoc(log: seq<Event>, e: Event)
    ensures Calls(log + [e]) == Calls(log) + if e.Called? then [e.ref] else []
  {
    assert (log + [e])[..|log|] == log;
  }

  lemma {:induction false} CallsAreEvents(log: seq<Event>)
    ensures forall ref :: ref in Calls(log) <==> Called(ref) in log
  {
    if log != [] {
      var n := |log| - 1;
      CallsAreEvents(log[..n]);
      assert forall e :: e in log <==> e in log[..n] || e == log[n];
    }
  }

  ghost predicate NoDuplicates(refs: seq<SourceRef>) {
    forall i, j | 0 <= i < j < |refs| :: refs[i] != refs[j]
  }

  ghost predicate WasRecorded(log: seq<Event>, ref: SourceRef, result: Result) {
    exists e <- log :: e.Recorded? && e.ref == ref && e.result == result
  }

  ghost predicate TableHoldsRecords(s: State) {
    && (forall ref <- s.sources :: WasRecorded(s.log, ref, s.sources[ref]))
    && (forall e <- s.log | e.Recorded? :: e.ref in s.sources && s.sources[e.ref] == e.result)
  }

  /**
   Every source was started at most once, and those that were are the recorded ones and the
   ones being computed, which are not recorded. The table holds what was recorded.
   */
  ghost predicate MemoInv(s: State, computing: set<SourceRef>) {
    && NoDuplicates(Calls(s.log))
    && TableHoldsRecords(s)
    && (forall ref :: ref in Calls(s.log) <==> ref in s.sources || ref in computing)
    && (forall ref <- computing :: ref !in s.sources)
  }

  /** An object with a source was annotated only after the reconciliation of its source ended with success. */
  ghost predicate AnnotatedAfterSource(s: State) {
    forall k | 0 <= k < |s.log| && s.log[k].Annotated? && s.log[k].source.Some? ::
      WasRecorded(s.log[..k], s.log[k].source.value, Success)
  }

  /** A result was recorded only after the source was started. */
  ghost predicate RecordedAfterCall(log: seq<Event>) {
    forall k | 0 <= k < |log| :: log[k].Recorded? ==> Called(log[k].ref) in log[..k]
  }

  /** What holds of the table and the log while sources are in computation. */
  ghost predicate TableInv(s: State, computing: set<SourceRef>) {
    MemoInv(s, computing) && AnnotatedAfterSource(s) && RecordedAfterCall(s.log)
  }

  /** A later state: recorded results are the same, and the log has grown. */
  ghost predicate Extends(s: State, t: State) {
    && (forall ref <- s.sources :: ref in t.sources && t.sources[ref] == s.sources[ref])
    && s.log <= t.log
  }

  /** What the controller generates for a chart template is a chart or an OCI repository. */
  ghost predicate TidyTemplates(env: Env) {
    forall t :: env(t).fetched.Some? && env(t).fetched.value.templateRef.Some? ==>
      env(t).fetched.value.templateRef.value.kind in {HelmChart, OCIRepository}
  }

  /** What may be in computation when an object of the kind is reconciled. */
  ghost predicate Below(kind: Parent, computing: set<SourceRef>) {
    (kind == HelmRelease ==> computing == {}) && forall ref <- computing :: ref.kind == HelmChart
  }

  lemma RequestKeeps(env: Env, s: State, at: nat, kind: Kind, ns: string, name: string, source: Option<SourceRef>,
      computing: set<SourceRef>)
    requires TableInv(s, computing)
    requires source.Some? ==> source.value in s.sources && s.sources[source.value] == Success
    ensures var t := Request(env, s, at, kind, ns, name, source).0;
            TableInv(t, computing) && Extends(s, t) && t.sources == s.sources
  {
    hide TableInv;
    AnnotationKeeps(s, Annotated(kind, ns, name, source, at), computing);
  }

  lemma AnnotationKeeps(s: State, e: Event, computing: set<SourceRef>)
    requires TableInv(s, computing) && e.Annotated?
    requires e.source.Some? ==> e.source.value in s.sources && s.sources[e.source.value] == Success
    ensures var t := s.(log := s.log + [e]);
            TableInv(t, computing) && Extends(s, t)
  {
    CallsSnoc(s.log, e);
    EventKeepsOrder(s, e);
    assert Calls(s.log + [e]) == Calls(s.log);
  }

  /** Adding an event that has its predecessor in the log. */
  lemma EventKeepsOrder(s: State, e: Event)
    requires AnnotatedAfterSource(s) && RecordedAfterCall(s.log)
    requires e.Annotated? && e.source.Some? ==> WasRecorded(s.log, e.source.value, Success)
    requires e.Recorded? ==> Called(e.ref) in s.log
    ensures AnnotatedAfterSource(s.(log := s.log + [e])) && RecordedAfterCall(s.log + [e])
  {
    var log := s.log + [e];
    assert log[..|s.log|] == s.log;
    forall k | 0 <= k < |s.log| ensures log[k] == s.log[k] && log[..k] == s.log[..k] {
    }
  }

  lemma PlainKeeps(env: Env, s: State, ns: string, kind: Kind, name: string, computing: set<SourceRef>)
    requires TableInv(s, computing)
    ensures var t := RunPlain(env, s, ns, kind, name).0;
            TableInv(t, computing) && Extends(s, t) && t.sources == s.sources
  {
    hide TableInv, Request, Extends;
    var t := Tick(s);
    TickKeeps(s, computing);
    RequestKeeps(env, t, s.clock, kind, ns, name, None, computing);
    ExtendsTrans(s, t, Request(env, t, s.clock, kind, ns, name, None).0);
  }

  lemma CallKeeps(s: State, ref: SourceRef, computing: set<SourceRef>)
    requires TableInv(s, computing) && ref !in s.sources && ref !in computing
    ensures var t := s.(log := s.log + [Called(ref)]);
            TableInv(t, computing + {ref}) && Extends(s, t)
  {
    CallsSnoc(s.log, Called(ref));
    EventKeepsOrder(s, Called(ref));
  }

  lemma RecordKeeps(s: State, ref: SourceRef, result: Result, at: nat, computing: set<SourceRef>)
    requires TableInv(s, computing + {ref}) && ref !in computing
    ensures var t := Record(s, ref, result, at);
            TableInv(t, computing) && Extends(s, t)
  {
    hide AnnotatedAfterSource, RecordedAfterCall, MemoInv;
    var t, e := Record(s, ref, result, at), Recorded(ref, result, at);
    MemoRecord(s, ref, result, at, computing);
    EventKeepsOrder(s, e);
    OrderIsOfLog(s.(log := t.log), t);
  }

  lemma MemoRecord(s: State, ref: SourceRef, result: Result, at: nat, computing: set<SourceRef>)
    requires MemoInv(s, computing + {ref}) && ref !in computing
    ensures var t := Record(s, ref, result, at);
            MemoInv(t, computing) && Extends(s, t) && Called(ref) in s.log
  {
    hide NoDuplicates, Calls, TableHoldsRecords;
    var t, e := Record(s, ref, result, at), Recorded(ref, result, at);
    CallsSnoc(s.log, e);
    assert ref in computing + {ref} && Calls(t.log) == Calls(s.log);
    CallsAreEvents(s.log);
    TableRecord(s, ref, result, at);
  }

  lemma TableRecord(s: State, ref: SourceRef, result: Result, at: nat)
    requires TableHoldsRecords(s) && ref !in s.sources
    ensures TableHoldsRecords(Record(s, ref, result, at))
  {
    var t, e := Record(s, ref, result, at), Recorded(ref, result, at);
    assert forall x :: x in t.log <==> x in s.log || x == e;
    forall r <- t.sources ensures WasRecorded(t.log, r, t.sources[r]) {
      if r == ref { assert e in t.log; }
    }
  }

  lemma OrderIsOfLog(s: State, t: State)
    requires s.log == t.log && AnnotatedAfterSource(s)
    ensures AnnotatedAfterSource(t)
  {
  }

  /** A nested command never writes a key that is being computed, and starts no source twice. */
  lemma {:induction false} WithSourceKeeps(env: Env, s: State, ns: string, kind: Parent, wanted: bool,
      name: string, computing: set<SourceRef>)
    requires TidyTemplates(env) && TableInv(s, computing) && Below(kind, computing)
    ensures var t := RunWithSource(env, s, ns, kind, wanted, name).0;
            TableInv(t, computing) && Extends(s, t)
    decreases Rank(kind), 1
  {
    hide TableInv, Request, RunSource, TidyTemplates;
    var r, t := env(s.clock), Tick(s);
    TickKeeps(s, computing);
    RequestKeeps(env, t, s.clock, kind, ns, name, None, computing);
    if r.connects && r.fetched.Some? && !r.fetched.value.suspended && wanted {
      var (cmd, found) := GetSource(kind, r.fetched.value);
      if cmd != NoCommand {
        var ref := KeyIn(found, ns);
        RankDecreases(kind, r.fetched.value);
        KeyIsNew(env, s.clock, kind, computing);
        SourceKeeps(env, t, kind, cmd, ref, computing);
        var (u, result) := RunSource(env, t, kind, cmd, ref);
        if result == Success {
          RequestKeeps(env, u, s.clock, kind, ns, name, Some(ref), computing);
          ExtendsTrans(t, u, Request(env, u, s.clock, kind, ns, name, Some(ref)).0);
        }
      }
    }
  }

  lemma TickKeeps(s: State, computing: set<SourceRef>)
    requires TableInv(s, computing)
    ensures TableInv(Tick(s), computing) && Extends(s, Tick(s))
  {
  }

  lemma ExtendsTrans(s: State, t: State, u: State)
    requires Extends(s, t) && Extends(t, u)
    ensures Extends(s, u)
  {
  }

  /** The key of a source is none of those in computation; a nested chart's own key is a chart. */
  lemma KeyIsNew(env: Env, time: nat, kind: Parent, computing: set<SourceRef>)
    requires TidyTemplates(env) && Below(kind, computing) && env(time).fetched.Some?
    ensures var (cmd, found) := GetSource(kind, env(time).fetched.value);
            && (cmd != NoCommand ==> forall ref <- computing :: ref.kind != found.kind)
            && (cmd.WithSource? ==> kind == HelmRelease && cmd.parent == HelmChart && found.kind == HelmChart)
  {
  }

  lemma {:induction false} SourceKeeps(env: Env, s: State, parent: Parent, cmd: Command, ref: SourceRef,
      computing: set<SourceRef>)
    requires TidyTemplates(env) && TableInv(s, computing)
    requires cmd != NoCommand && ref !in computing
    requires cmd.WithSource? ==>
      parent == HelmRelease && cmd.parent == HelmChart && ref.kind == HelmChart && computing == {}
    ensures var (u, result) := RunSource(env, s, parent, cmd, ref);
            && TableInv(u, computing) && Extends(s, u)
            && ref in u.sources && u.sources[ref] == result
    decreases Rank(parent), 0
  {
    hide TableInv, RunPlain, TidyTemplates;
    if ref !in s.sources {
      CallKeeps(s, ref, computing);
      var t := s.(log := s.log + [Called(ref)]);
      if cmd.Plain? {
        PlainKeeps(env, t, ref.namespace, cmd.kind, ref.name, computing + {ref});
        var (u, result) := RunPlain(env, t, ref.namespace, cmd.kind, ref.name);
        RecordStep(s, t, u, ref, Unwrap(result), s.clock, computing);
      } else {
        WithSourceKeeps(env, t, ref.namespace, cmd.parent, true, ref.name, computing + {ref});
        var (u, result) := RunWithSource(env, t, ref.namespace, cmd.parent, true, ref.name);
        RecordStep(s, t, u, ref, Unwrap(result), s.clock, computing);
      }
    }
  }

  lemma RecordStep(s: State, t: State, u: State, ref: SourceRef, result: Result, at: nat, computing: set<SourceRef>)
    requires Extends(s, t) && Extends(t, u) && ref !in computing
    requires TableInv(u, computing + {ref})
    ensures var v := Record(u, ref, result, at);
            TableInv(v, computing) && Extends(s, v)
  {
    RecordKeeps(u, ref, result, at, computing);
    ExtendsTrans(s, t, u);
    ExtendsTrans(s, u, Record(u, ref, result, at));
  }

  // ---------- Which results and annotations there are ----------

  ghost predicate NoGetError(s: State) {
    forall ref <- s.sources :: s.sources[ref] != GetError
  }

  /** Every annotation of a kind with sources names the source that was reconciled before. */
  ghost predicate AllSourced(log: seq<Event>) {
    forall e <- log :: e.Annotated? && e.kind in {HelmRelease, Kustomization, HelmChart} ==> e.source.Some?
  }

  /** Whatever the controller generates: no GetError gets into the table, and nested commands want the source. */
  lemma {:induction false} WithSourceRecords(env: Env, s: State, ns: string, kind: Parent, wanted: bool, name: string)
    requires NoGetError(s)
    ensures var t := RunWithSource(env, s, ns, kind, wanted, name).0;
            NoGetError(t) && (wanted && AllSourced(s.log) ==> AllSourced(t.log))
    decreases Rank(kind), 1
  {
    hide RunSource;
    var r, t := env(s.clock), Tick(s);
    if r.connects && r.fetched.Some? && !r.fetched.value.suspended && wanted {
      var (cmd, found) := GetSource(kind, r.fetched.value);
      if cmd != NoCommand {
        RankDecreases(kind, r.fetched.value);
        SourceRecords(env, t, kind, cmd, KeyIn(found, ns));
      }
    }
  }

  lemma {:induction false} SourceRecords(env: Env, s: State, parent: Parent, cmd: Command, ref: SourceRef)
    requires NoGetError(s) && cmd != NoCommand && (cmd.WithSource? ==> Rank(cmd.parent) < Rank(parent))
    requires cmd.Plain? ==> cmd.kind !in {HelmRelease, Kustomization, HelmChart}
    ensures var (t, result) := RunSource(env, s, parent, cmd, ref);
            NoGetError(t) && result != GetError && (AllSourced(s.log) ==> AllSourced(t.log))
    decreases Rank(parent), 0
  {
    if ref !in s.sources && cmd.WithSource? {
      WithSourceRecords(env, s.(log := s.log + [Called(ref)]), ref.namespace, cmd.parent, true, ref.name);
    }
  }

  // ---------- What success means ----------

  /** The answer lets the command request a reconciliation. */
  predicate Accepts(r: Response) {
    r.connects && r.fetched.Some? && !r.fetched.value.suspended && r.requests
  }

  /** The object can be fetched and is static, or it is active and its reconciliation ends well. */
  predicate PlainSucceeds(r: Response) {
    r.connects && r.fetched.Some? && (r.fetched.value.isStatic || (Accepts(r) && r.ends))
  }

  /** The object is active, and is of a kind whose source, if it is wanted, was recorded with success. */
  ghost predicate Succeeds(r: Response, kind: Parent, ns: string, wanted: bool, log: seq<Event>) {
    && Accepts(r) && r.ends
    && (wanted ==> HasGoodSource(r.fetched.value, kind, ns, log))
  }

  ghost predicate HasGoodSource(obj: Object, kind: Parent, ns: string, log: seq<Event>) {
    var (cmd, found) := GetSource(kind, obj);
    cmd != NoCommand && WasRecorded(log, KeyIn(found, ns), Success)
  }

  /** The source was annotated, under its own name and namespace. */
  ghost predicate WasAnnotated(log: seq<Event>, ref: SourceRef, at: nat) {
    exists e <- log :: e.Annotated? && SourceRef(e.kind, e.name, e.namespace) == ref && e.at == at
  }

  /** What the log says of a source or an object is what the answer at that time says, and what was recorded before. */
  ghost predicate IsTrue(env: Env, before: seq<Event>, e: Event) {
    match e
    case Called(_) => true
    case Recorded(ref, result, at) =>
      && (result == Success <==>
            if ref.kind == HelmChart then Succeeds(env(at), HelmChart, ref.namespace, true, before)
            else PlainSucceeds(env(at)))
      && (result == Success ==>
            (ref.kind != HelmChart && env(at).fetched.value.isStatic) || WasAnnotated(before, ref, at))
    case Annotated(kind, ns, name, source, at) =>
      && Accepts(env(at))
      && (source.Some? ==>
            kind in {HelmRelease, Kustomization, HelmChart} && HasGoodSource(env(at).fetched.value, kind, ns, before)
            && source.value == KeyIn(GetSource(kind, env(at).fetched.value).1, ns))
  }

  ghost predicate AllTrue(env: Env, log: seq<Event>) {
    forall k | 0 <= k < |log| :: IsTrue(env, log[..k], log[k])
  }

  lemma TrueSnoc(env: Env, log: seq<Event>, e: Event)
    requires AllTrue(env, log) && IsTrue(env, log, e)
    ensures AllTrue(env, log + [e])
  {
    hide IsTrue;
    var all := log + [e];
    forall k | 0 <= k < |all| ensures IsTrue(env, all[..k], all[k]) {
      assert all[..k] == if k < |log| then log[..k] else log;
    }
  }

  /** A plain command succeeds exactly by its answer, and has annotated what is not static. */
  lemma PlainExactly(env: Env, s: State, ns: string, kind: Kind, name: string)
    requires AllTrue(env, s.log)
    ensures var (t, result) := RunPlain(env, s, ns, kind, name);
            && AllTrue(env, t.log)
            && (result == Success <==> PlainSucceeds(env(s.clock)))
            && (Accepts(env(s.clock)) && !env(s.clock).fetched.value.isStatic <==>
                  t.log == s.log + [Annotated(kind, ns, name, None, s.clock)])
            && (!Accepts(env(s.clock)) || env(s.clock).fetched.value.isStatic ==> t.log == s.log)
  {
    hide AllTrue;
    var e := Annotated(kind, ns, name, None, s.clock);
    if Accepts(env(s.clock)) { TrueSnoc(env, s.log, e); }
    assert |s.log + [e]| > |s.log|;
  }

  /**
   A command with a source succeeds exactly when its answer lets it, and its source, if it is
   wanted, is recorded with success; and then its object is the last that was annotated.
   */
  lemma {:induction false} WithSourceExactly(env: Env, s: State, ns: string, kind: Parent, wanted: bool,
      name: string, computing: set<SourceRef>)
    requires TidyTemplates(env) && TableInv(s, computing) && Below(kind, computing) && AllTrue(env, s.log)
    ensures var (t, result) := RunWithSource(env, s, ns, kind, wanted, name);
            && AllTrue(env, t.log)
            && (result == Success <==> Succeeds(env(s.clock), kind, ns, wanted, t.log))
            && (result == Success ==>
                  t.log != [] &&
                  var source := if wanted then Some(KeyIn(GetSource(kind, env(s.clock).fetched.value).1, ns)) else None;
                  t.log[|t.log| - 1] == Annotated(kind, ns, name, source, s.clock))
    decreases Rank(kind), 1
  {
    hide TableInv, RunSource, AllTrue, TidyTemplates, WasRecorded, GetSource;
    var r, t := env(s.clock), Tick(s);
    if r.connects && r.fetched.Some? && !r.fetched.value.suspended {
      if !wanted {
        if r.requests { TrueSnoc(env, s.log, Annotated(kind, ns, name, None, s.clock)); }
      } else {
        var (cmd, found) := GetSource(kind, r.fetched.value);
        if cmd != NoCommand {
          var ref := KeyIn(found, ns);
          RankDecreases(kind, r.fetched.value);
          KeyIsNew(env, s.clock, kind, computing);
          TickKeeps(s, computing);
          CommandOfKey(env, s.clock, kind);
          SourceKeeps(env, t, kind, cmd, ref, computing);
          SourceExactly(env, t, kind, cmd, ref, computing);
          var u := RunSource(env, t, kind, cmd, ref).0;
          TableIsLog(u, computing, ref);
          var e := Annotated(kind, ns, name, Some(ref), s.clock);
          if WasRecorded(u.log, ref, Success) && r.requests { TrueSnoc(env, u.log, e); }
          StaysRecorded(u.log, e, ref);
        }
      }
    }
  }

  lemma TableIsLog(s: State, computing: set<SourceRef>, ref: SourceRef)
    requires TableInv(s, computing) && ref in s.sources
    ensures s.sources[ref] == Success <==> WasRecorded(s.log, ref, Success)
  {
    hide NoDuplicates;
  }

  lemma StaysRecorded(log: seq<Event>, e: Event, ref: SourceRef)
    requires e.Annotated?
    ensures WasRecorded(log + [e], ref, Success) <==> WasRecorded(log, ref, Success)
  {
    assert forall x :: x in log + [e] <==> x in log || x == e;
  }

  /** A chart is the source of a kind whose key is a chart, and of no other. */
  lemma CommandOfKey(env: Env, time: nat, kind: Parent)
    requires TidyTemplates(env) && env(time).fetched.Some?
    ensures var (cmd, found) := GetSource(kind, env(time).fetched.value);
            && (cmd.WithSource? ==> found.kind == HelmChart)
            && (cmd.Plain? ==> found.kind == cmd.kind && cmd.kind !in {HelmRelease, Kustomization, HelmChart})
  {
  }

  lemma PlainWasAnnotated(env: Env, s: State, log: seq<Event>, ref: SourceRef)
    requires var r, e := env(s.clock), Annotated(ref.kind, ref.namespace, ref.name, None, s.clock);
             Accepts(r) && !r.fetched.value.isStatic ==> log == s.log + [e]
    ensures PlainSucceeds(env(s.clock)) ==> env(s.clock).fetched.value.isStatic || WasAnnotated(log, ref, s.clock)
  {
    if Accepts(env(s.clock)) && !env(s.clock).fetched.value.isStatic { assert log[|s.log|] in log; }
  }

  lemma {:induction false} SourceExactly(env: Env, s: State, parent: Parent, cmd: Command, ref: SourceRef,
      computing: set<SourceRef>)
    requires TidyTemplates(env) && TableInv(s, computing) && AllTrue(env, s.log)
    requires cmd != NoCommand && ref !in computing
    requires cmd.WithSource? ==>
      parent == HelmRelease && cmd.parent == HelmChart && ref.kind == HelmChart && computing == {}
    requires cmd.Plain? ==> ref.kind == cmd.kind && cmd.kind !in {HelmRelease, Kustomization, HelmChart}
    ensures AllTrue(env, RunSource(env, s, parent, cmd, ref).0.log)
    decreases Rank(parent), 0
  {
    hide TableInv, RunPlain, AllTrue, TidyTemplates, Succeeds;
    if ref !in s.sources {
      CallKeeps(s, ref, computing);
      TrueSnoc(env, s.log, Called(ref));
      var t := s.(log := s.log + [Called(ref)]);
      if cmd.Plain? {
        PlainExactly(env, t, ref.namespace, cmd.kind, ref.name);
        var (u, result) := RunPlain(env, t, ref.namespace, cmd.kind, ref.name);
        PlainWasAnnotated(env, t, u.log, ref);
        TrueSnoc(env, u.log, Recorded(ref, Unwrap(result), s.clock));
      } else {
        WithSourceExactly(env, t, ref.namespace, cmd.parent, true, ref.name, computing + {ref});
        var (u, result) := RunWithSource(env, t, ref.namespace, cmd.parent, true, ref.name);
        if result == Success { assert u.log[|u.log| - 1] in u.log; }
        TrueSnoc(env, u.log, Recorded(ref, Unwrap(result), s.clock));
      }
    }
  }

  // ---------- A whole command ----------

  /** The state when the first `k` names have been reconciled. */
  function After(env: Env, ns: string, kind: Parent, wanted: bool, names: seq<string>, k: nat): State
    requires k <= |names|
  {
    RunNames(env, State(map[], [], 0), ns, kind, wanted, names[..k]).0
  }

  lemma AfterOne(env: Env, ns: string, kind: Parent, wanted: bool, names: seq<string>, k: nat)
    requires k < |names|
    ensures After(env, ns, kind, wanted, names, k + 1)
            == RunWithSource(env, After(env, ns, kind, wanted, names, k), ns, kind, wanted, names[k]).0
  {
    hide RunWithSource;
    assert names[..k + 1][..k] == names[..k];
  }

  /**
   At every name of a command: each source was reconciled at most once and its result is
   recorded, and an object is annotated only after its source ended with success. When sources
   are wanted every annotation of a kind with sources has one.
   */
  lemma {:induction false} CommandKeepsTable(env: Env, ns: string, kind: Parent, wanted: bool, names: seq<string>,
      k: nat)
    requires TidyTemplates(env) && k <= |names|
    ensures var t := After(env, ns, kind, wanted, names, k);
            && NoDuplicates(Calls(t.log)) && (forall ref :: ref in Calls(t.log) <==> ref in t.sources)
            && TableInv(t, {}) && NoGetError(t) && (wanted ==> AllSourced(t.log))
    decreases k
  {
    hide RunWithSource, TidyTemplates;
    if k > 0 {
      CommandKeepsTable(env, ns, kind, wanted, names, k - 1);
      var s := After(env, ns, kind, wanted, names, k - 1);
      AfterOne(env, ns, kind, wanted, names, k - 1);
      WithSourceKeeps(env, s, ns, kind, wanted, names[k - 1], {});
      WithSourceRecords(env, s, ns, kind, wanted, names[k - 1]);
    }
  }

  /** Recorded results never change, from any name of a command to any later one. */
  lemma {:induction false} RecordedResultsStay(env: Env, ns: string, kind: Parent, wanted: bool, names: seq<string>,
      j: nat, k: nat)
    requires TidyTemplates(env) && j <= k <= |names|
    ensures Extends(After(env, ns, kind, wanted, names, j), After(env, ns, kind, wanted, names, k))
    decreases k
  {
    hide RunWithSource, TidyTemplates, After, TableInv, Extends, NoDuplicates, AllSourced, NoGetError;
    if j == k {
      StaysSame(After(env, ns, kind, wanted, names, j));
    } else {
      RecordedResultsStay(env, ns, kind, wanted, names, j, k - 1);
      CommandKeepsTable(env, ns, kind, wanted, names, k - 1);
      var s := After(env, ns, kind, wanted, names, k - 1);
      AfterOne(env, ns, kind, wanted, names, k - 1);
      WithSourceKeeps(env, s, ns, kind, wanted, names[k - 1], {});
      ExtendsTrans(After(env, ns, kind, wanted, names, j), s, After(env, ns, kind, wanted, names, k));
    }
  }

  lemma StaysSame(s: State)
    ensures Extends(s, s)
  {
  }

  lemma {:induction false} CommandIsTrue(env: Env, ns: string, kind: Parent, wanted: bool, names: seq<string>, k: nat)
    requires TidyTemplates(env) && k <= |names|
    ensures AllTrue(env, After(env, ns, kind, wanted, names, k).log)
    decreases k
  {
    hide RunWithSource, TidyTemplates, TableInv, AllTrue, After, IsTrue;
    if k == 0 {
      NothingIsTrue(env, ns, kind, wanted, names);
    } else {
      CommandIsTrue(env, ns, kind, wanted, names, k - 1);
      CommandKeepsTable(env, ns, kind, wanted, names, k - 1);
      AfterOne(env, ns, kind, wanted, names, k - 1);
      WithSourceExactly(env, After(env, ns, kind, wanted, names, k - 1), ns, kind, wanted, names[k - 1], {});
    }
  }

  lemma NothingIsTrue(env: Env, ns: string, kind: Parent, wanted: bool, names: seq<string>)
    ensures AllTrue(env, After(env, ns, kind, wanted, names, 0).log)
  {
    assert names[..0] == [];
  }

  /** The name at `k` succeeds, by the answer that its command has and by what is recorded of its source. */
  ghost predicate NameSucceeds(env: Env, ns: string, kind: Parent, wanted: bool, names: seq<string>, k: nat)
    requires k < |names|
  {
    Succeeds(env(After(env, ns, kind, wanted, names, k).clock), kind, ns, wanted,
             After(env, ns, kind, wanted, names, k + 1).log)
  }

  ghost function FailedNames(env: Env, ns: string, kind: Parent, wanted: bool, names: seq<string>, k: nat): set<nat>
    requires k <= |names|
  {
    set j: nat | j < k && !NameSucceeds(env, ns, kind, wanted, names, j)
  }

  /** The command reports as failed exactly the names that do not succeed. */
  lemma {:induction false} FailuresAreCounted(env: Env, ns: string, kind: Parent, wanted: bool, names: seq<string>,
      k: nat)
    requires TidyTemplates(env) && k <= |names|
    ensures RunNames(env, State(map[], [], 0), ns, kind, wanted, names[..k]).1
            == |FailedNames(env, ns, kind, wanted, names, k)|
    decreases k
  {
    hide RunNames, TidyTemplates, NameSucceeds, FailedNames;
    if k == 0 {
      NoneFailed(env, ns, kind, wanted, names);
      assert names[..0] == [];
      NoNames(env, ns, kind, wanted);
    } else {
      FailuresAreCounted(env, ns, kind, wanted, names, k - 1);
      LastNameIsCounted(env, ns, kind, wanted, names, k - 1);
      OneMoreFailed(env, ns, kind, wanted, names, k - 1);
    }
  }

  lemma NoneFailed(env: Env, ns: string, kind: Parent, wanted: bool, names: seq<string>)
    ensures FailedNames(env, ns, kind, wanted, names, 0) == {}
  {
  }

  lemma OneMoreFailed(env: Env, ns: string, kind: Parent, wanted: bool, names: seq<string>, k: nat)
    requires k < |names|
    ensures |FailedNames(env, ns, kind, wanted, names, k + 1)|
            == |FailedNames(env, ns, kind, wanted, names, k)|
               + if NameSucceeds(env, ns, kind, wanted, names, k) then 0 else 1
  {
    hide NameSucceeds;
    var before := FailedNames(env, ns, kind, wanted, names, k);
    assert FailedNames(env, ns, kind, wanted, names, k + 1)
           == if NameSucceeds(env, ns, kind, wanted, names, k) then before else before + {k};
  }

  lemma NoNames(env: Env, ns: string, kind: Parent, wanted: bool)
    ensures RunNames(env, State(map[], [], 0), ns, kind, wanted, []).1 == 0
  {
  }

  lemma LastNameIsCounted(env: Env, ns: string, kind: Parent, wanted: bool, names: seq<string>, k: nat)
    requires TidyTemplates(env) && k < |names|
    ensures RunNames(env, State(map[], [], 0), ns, kind, wanted, names[..k + 1]).1
            == RunNames(env, State(map[], [], 0), ns, kind, wanted, names[..k]).1
               + if NameSucceeds(env, ns, kind, wanted, names, k) then 0 else 1
  {
    hide RunWithSource, TidyTemplates, TableInv, AllTrue, Succeeds, Calls, NoDuplicates;
    CommandIsTrue(env, ns, kind, wanted, names, k);
    CommandKeepsTable(env, ns, kind, wanted, names, k);
    AfterOne(env, ns, kind, wanted, names, k);
    assert names[..k + 1][..k] == names[..k];
    WithSourceExactly(env, After(env, ns, kind, wanted, names, k), ns, kind, wanted, names[k], {});
  }

  /**
   Every annotation of a command follows, for each source it names, the recorded success of that
   source, which had an answer by which it is static or was reconciled well; for a chart, which
   was reconciled well after its own source.
   */
  lemma AnnotationsFollowGoodAnswers(env: Env, ns: string, kind: Parent, wanted: bool, names: seq<string>,
      k: nat, j: nat) returns (i: nat)
    requires TidyTemplates(env) && k <= |names|
    requires var log := After(env, ns, kind, wanted, names, k).log;
             j < |log| && log[j].Annotated? && log[j].source.Some?
    ensures var log := After(env, ns, kind, wanted, names, k).log;
            && i < j && log[i].Recorded? && log[i].ref == log[j].source.value && log[i].result == Success
            && Accepts(env(log[j].at))
            && if log[i].ref.kind == HelmChart
               then Succeeds(env(log[i].at), HelmChart, log[i].ref.namespace, true, log[..i])
               else PlainSucceeds(env(log[i].at))
  {
    hide After, Succeeds, PlainSucceeds, TidyTemplates, Accepts;
    CommandIsTrue(env, ns, kind, wanted, names, k);
    var log := After(env, ns, kind, wanted, names, k).log;
    assert IsTrue(env, log[..j], log[j]);
    var e :| e in log[..j] && e.Recorded? && e.ref == log[j].source.value && e.result == Success;
    i :| 0 <= i < j && log[i] == e;
    assert IsTrue(env, log[..i], log[i]);
  }

  lemma {:induction false} NamesRecordNoGetError(env: Env, ns: string, kind: Parent, wanted: bool, names: seq<string>,
      k: nat)
    requires k <= |names|
    ensures NoGetError(After(env, ns, kind, wanted, names, k))
    decreases k
  {
    hide RunWithSource;
    if k > 0 {
      NamesRecordNoGetError(env, ns, kind, wanted, names, k - 1);
      AfterOne(env, ns, kind, wanted, names, k - 1);
      WithSourceRecords(env, After(env, ns, kind, wanted, names, k - 1), ns, kind, wanted, names[k - 1]);
    }
  }

  /** At every name of a command a GetError is the failure to fetch that object, never that of a source. */
  lemma GetErrorIsOwn(env: Env, ns: string, kind: Parent, wanted: bool, names: seq<string>, k: nat)
    requires k < |names|
    ensures var s := After(env, ns, kind, wanted, names, k);
            RunWithSource(env, s, ns, kind, wanted, names[k]).1 == GetError
            <==> env(s.clock).connects && env(s.clock).fetched.None?
  {
    hide After;
    NamesRecordNoGetError(env, ns, kind, wanted, names, k);
    SourceHidesGetError(env, After(env, ns, kind, wanted, names, k), ns, kind, wanted, names[k]);
  }

  lemma SourceHidesGetError(env: Env, s: State, ns: string, kind: Parent, wanted: bool, name: string)
    requires NoGetError(s)
    ensures RunWithSource(env, s, ns, kind, wanted, name).1 == GetError
            <==> env(s.clock).connects && env(s.clock).fetched.None?
  {
  }

  /**
   With a template reference of another kind the key of a chart could be the key of its own
   source, which is then started twice.
   */
  lemma UntidyTemplateStartsTwice() returns (env: Env, t: State)
    ensures t == RunWithSource(env, State(map[], [], 0), "n", HelmRelease, true, "r").0
    ensures !NoDuplicates(Calls(t.log))
  {
    var ref := SourceRef(GitRepository, "a", "n");
    var r := Response(true, Some(Object("n", false, false, None, Some(ref), ref)), true, true);
    env := _ => r;
    var s1 := State(map[], [Called(ref)], 1);
    var s := ChartOfExample(env, r, ref, s1);
    t := RunWithSource(env, State(map[], [], 0), "n", HelmRelease, true, "r").0;
    var u := Record(s, ref, Success, 1);
    assert [] + [Called(ref)] == s1.log && u.sources == s.sources;
    assert RunSource(env, State(map[], [], 1), HelmRelease, WithSource(HelmChart), ref) == (u, Success);
    assert t.log == u.log + [Annotated(HelmRelease, "n", "r", Some(ref), 0)];
    CallsSnoc(s.log, Recorded(ref, Success, 1));
    CallsSnoc(u.log, Annotated(HelmRelease, "n", "r", Some(ref), 0));
    assert Calls(t.log)[0] == Calls(t.log)[1];
  }

  lemma ChartOfExample(env: Env, r: Response, ref: SourceRef, s1: State) returns (s: State)
    requires ref == SourceRef(GitRepository, "a", "n") && (forall n :: env(n) == r)
    requires r == Response(true, Some(Object("n", false, false, None, Some(ref), ref)), true, true)
    requires s1 == State(map[], [Called(ref)], 1)
    ensures RunWithSource(env, s1, "n", HelmChart, true, "a") == (s, Success)
    ensures s.sources == map[ref := Success]
    ensures |Calls(s.log)| == 2 && Calls(s.log)[0] == Calls(s.log)[1]
  {
    var log2 := [Called(ref), Called(ref)];
    var log3 := log2 + [Annotated(GitRepository, "n", "a", None, 2)];
    assert s1.log + [Called(ref)] == log2;
    assert RunPlain(env, State(map[], log2, 2), "n", GitRepository, "a") == (State(map[], log3, 3), Success);
    var s4 := Record(State(map[], log3, 3), ref, Success, 2);
    assert s4.sources == map[ref := Success];
    assert RunSource(env, s1.(clock := 2), HelmChart, Plain(GitRepository), ref) == (s4, Success);
    s := s4.(log := s4.log + [Annotated(HelmChart, "n", "a", Some(ref), 1)]);
    ExampleCalls(ref, log2, log3, s4.log, s.log);
  }

  lemma ExampleCalls(ref: SourceRef, log2: seq<Event>, log3: seq<Event>, log4: seq<Event>, log5: seq<Event>)
    requires log2 == [Called(ref), Called(ref)]
    requires log3 == log2 + [Annotated(GitRepository, "n", "a", None, 2)]
    requires log4 == log3 + [Recorded(ref, Success, 2)]
    requires log5 == log4 + [Annotated(HelmChart, "n", "a", Some(ref), 1)]
    ensures |Calls(log5)| == 2 && Calls(log5)[0] == Calls(log5)[1]
  {
    CallsSnoc(log4, log5[4]);
    CallsSnoc(log3, log4[3]);
    CallsSnoc(log2, log3[2]);
    assert log2 == [] + [Called(ref)] + [Called(ref)];
    CallsSnoc([] + [Called(ref)], Called(ref));
    CallsSnoc([], Called(ref));
  }
}
