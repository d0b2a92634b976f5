/**
 Migrating the stored objects of one custom resource definition to its storage version,
 against an API server that other clients use at the same time. Each request of a migrator
 is one step; any number of migrators and clients interleave.

 The API server encodes every object it writes at the definition's current storage version,
 gives every write a new resource version, refuses an update made with an old one, adds a new
 storage version to `status.storedVersions`, and refuses a spec that drops a stored version.
 */
module CrdMigration {

  datatype VersionSpec = VersionSpec(name: string, storage: bool)

  datatype Crd = Crd(resourceVersion: nat, versions: seq<VersionSpec>, storedVersions: seq<string>)

  /** How far a run of `migrateCRD` is; `crd` is the object it read first. */
  datatype Migrator =
    | Ready
    | Listing(crd: Crd, version: string)
    | Patching(crd: Crd, version: string, todo: seq<nat>)
    | Updating(crd: Crd, version: string)
    | Succeeded
    | Failed
    | Panicked

  /** `objects` gives the version that each stored object is encoded at. */
  datatype State = State(crd: Crd, objects: map<nat, string>, clock: nat, migrators: seq<Migrator>)

  datatype Step =
    | Get(m: nat)
    | List(m: nat, ids: seq<nat>)
    | Patch(m: nat)
    | Conflict(m: nat)
    | Error(m: nat)
    | AllPatched(m: nat)
    | UpdateStatus(m: nat)
    | Write(id: nat)
    | Delete(id: nat)
    | ChangeSpec(versions: seq<VersionSpec>)
    | TouchCrd

  // ---------- The definition ----------

  /** The name of the first storage version, or "". */
  function StorageOf(versions: seq<VersionSpec>): string {
    if versions == [] then "" else if versions[0].storage then versions[0].name else StorageOf(versions[1..])
  }

  method GetStorageVersion(versions: seq<VersionSpec>) returns (version: string)
    ensures version == StorageOf(versions)
  {
    version := "";
    var i := 0;
    while i < |versions|
      invariant 0 <= i <= |versions| && version == ""
      invariant StorageOf(versions) == StorageOf(versions[i..])
    {
      if versions[i].storage {
        version := versions[i].name;
        break;
      }
      i := i + 1;
    }
  }

  /** The version found is that of the first storage version, and there is none for "" among named versions. */
  lemma {:induction false} StorageExactly(versions: seq<VersionSpec>, v: string)
    ensures StorageOf(versions) == v <==>
      (v == "" && forall w <- versions :: !w.storage) ||
      exists k :: && 0 <= k < |versions| && versions[k].storage && versions[k].name == v
                  && forall j | 0 <= j < k :: !versions[j].storage
  {
    if versions != [] && !versions[0].storage {
      StorageExactly(versions[1..], v);
      assert forall w :: w in versions <==> w == versions[0] || w in versions[1..];
      assert forall j | 1 <= j < |versions| :: versions[j] == versions[1..][j - 1];
      if k :| 0 <= k < |versions[1..]| && versions[1..][k].storage && versions[1..][k].name == v
              && forall j | 0 <= j < k :: !versions[1..][j].storage {
        assert versions[k + 1] == versions[1..][k];
        assert forall j | 0 <= j < k + 1 :: !versions[j].storage;
      }
      if k :| 0 <= k < |versions| && versions[k].storage && versions[k].name == v
              && forall j | 0 <= j < k :: !versions[j].storage {
        assert versions[1..][k - 1] == versions[k];
        assert forall j | 0 <= j < k - 1 :: versions[1..][j] == versions[j + 1] && !versions[1..][j].storage;
      }
    }
  }

  function Names(versions: seq<VersionSpec>): set<string> {
    set v <- versions :: v.name
  }

  /** What the API server accepts as a spec: named versions, one of them stored. */
  predicate AcceptsSpec(versions: seq<VersionSpec>) {
    && (exists v <- versions :: v.storage)
    && forall v <- versions :: v.name != ""
  }

  lemma {:induction false} StorageIsNamed(versions: seq<VersionSpec>)
    requires AcceptsSpec(versions)
    ensures StorageOf(versions) != "" && StorageOf(versions) in Names(versions)
  {
    if versions[0].storage {
      assert versions[0] in versions;
    } else {
      assert forall v <- versions :: v == versions[0] || v in versions[1..];
      StorageIsNamed(versions[1..]);
    }
  }

  // ---------- Steps ----------

  predicate Enabled(s: State, step: Step) {
    match step
    case Get(m) => m < |s.migrators| && s.migrators[m].Ready?
    case List(m, ids) => m < |s.migrators| && s.migrators[m].Listing? && (set i <- ids) == s.objects.Keys
    case Patch(m) => m < |s.migrators| && s.migrators[m].Patching? && s.migrators[m].todo != []
    case Conflict(m) => m < |s.migrators| && s.migrators[m].Patching? && s.migrators[m].todo != []
    case Error(m) => m < |s.migrators| && !s.migrators[m].Succeeded? && !s.migrators[m].Panicked?
    case AllPatched(m) => m < |s.migrators| && s.migrators[m].Patching? && s.migrators[m].todo == []
    case UpdateStatus(m) => m < |s.migrators| && s.migrators[m].Updating?
    case Write(_) => true
    case Delete(_) => true
    case ChangeSpec(versions) => AcceptsSpec(versions) && (set v <- s.crd.storedVersions) <= Names(versions)
    case TouchCrd => true
  }

  function Become(s: State, m: nat, g: Migrator): State
    requires m < |s.migrators|
  {
    s.(migrators := s.migrators[m := g])
  }

  /** A new definition, at a new resource version. */
  function StoreCrd(s: State, crd: Crd): State {
    s.(clock := s.clock + 1, crd := crd.(resourceVersion := s.clock + 1))
  }

  /** The last request: nothing to do, or an update of the object that was read first. */
  function UpdateStatusStep(s: State, m: nat): State
    requires Enabled(s, UpdateStatus(m))
  {
    var g := s.migrators[m];
    if |g.crd.storedVersions| == 0 then Become(s, m, Panicked)
    else if |g.crd.storedVersions| > 1 || g.crd.storedVersions[0] != g.version then
      if s.crd.resourceVersion != g.crd.resourceVersion then Become(s, m, Failed)
      else Become(StoreCrd(s, s.crd.(storedVersions := [g.version])), m, Succeeded)
    else Become(s, m, Succeeded)
  }

  function Apply(s: State, step: Step): State
    requires Enabled(s, step)
  {
    match step
    case Get(m) =>
      var version := StorageOf(s.crd.versions);
      Become(s, m, if version == "" then Failed else Listing(s.crd, version))
    case List(m, ids) => Become(s, m, Patching(s.migrators[m].crd, s.migrators[m].version, ids))
    case Patch(m) =>
      // An object that is gone is skipped.
      var g := s.migrators[m];
      var objects := if g.todo[0] in s.objects then s.objects[g.todo[0] := StorageOf(s.crd.versions)] else s.objects;
      Become(s, m, g.(todo := g.todo[1..])).(objects := objects)
    case Conflict(m) => Become(s, m, Listing(s.migrators[m].crd, s.migrators[m].version))
    case Error(m) => Become(s, m, Failed)
    case AllPatched(m) => Become(s, m, Updating(s.migrators[m].crd, s.migrators[m].version))
    case UpdateStatus(m) => UpdateStatusStep(s, m)
    case Write(id) => s.(objects := s.objects[id := StorageOf(s.crd.versions)])
    case Delete(id) => s.(objects := s.objects - {id})
    case ChangeSpec(versions) =>
      var v := StorageOf(versions);
      var stored := s.crd.storedVersions;
      StoreCrd(s, s.crd.(versions := versions, storedVersions := if v in stored then stored else stored + [v]))
    case TouchCrd => StoreCrd(s, s.crd)
  }

  ghost predicate Runs(s: State, run: seq<Step>, t: State)
    decreases |run|
  {
    if run == [] then s == t
    else Enabled(s, run[0]) && Runs(Apply(s, run[0]), run[1..], t)
  }

  // ---------- The invariant ----------

  /** The definition is accepted, and lists its storage version and only versions of its spec. */
  ghost predicate CrdInv(s: State) {
    && AcceptsSpec(s.crd.versions) && s.crd.resourceVersion <= s.clock
    && StorageOf(s.crd.versions) in s.crd.storedVersions
    && (set v <- s.crd.storedVersions) <= Names(s.crd.versions)
  }

  /** Every stored object is encoded at a version that the status lists. */
  ghost predicate StoredInv(s: State) {
    forall id <- s.objects :: s.objects[id] in s.crd.storedVersions
  }

  /**
   A migrator knows the definition as it was. If it has not changed since, every object is at
   the storage version or still to be patched.
   */
  ghost predicate MigratorInv(s: State, g: Migrator) {
    && g != Panicked
    && (g.Listing? || g.Patching? || g.Updating? ==>
      && g.crd.resourceVersion <= s.clock
      && g.version == StorageOf(g.crd.versions)
      && g.crd.storedVersions != []
      && (g.crd.resourceVersion == s.crd.resourceVersion ==> g.crd == s.crd))
    && (g.Patching? && g.crd.resourceVersion == s.crd.resourceVersion ==>
      forall id <- s.objects :: s.objects[id] == g.version || id in g.todo)
    && (g.Updating? && g.crd.resourceVersion == s.crd.resourceVersion ==>
      forall id <- s.objects :: s.objects[id] == g.version)
  }

  ghost predicate Inv(s: State) {
    CrdInv(s) && StoredInv(s) && forall g <- s.migrators :: MigratorInv(s, g)
  }

  /** A cluster before any migrator has made a request. */
  ghost predicate Init(s: State) {
    CrdInv(s) && StoredInv(s) && forall g <- s.migrators :: g == Ready
  }

  lemma CrdStep(s: State, step: Step)
    requires Inv(s) && Enabled(s, step)
    ensures CrdInv(Apply(s, step)) && StoredInv(Apply(s, step))
  {
    match step {
      case UpdateStatus(m) =>
        assert MigratorInv(s, s.migrators[m]);
        StorageIsNamed(s.crd.versions);
      case ChangeSpec(versions) => StorageIsNamed(versions);
      case _ =>
    }
  }

  /** A step keeps what it does to the migrator that makes it. */
  lemma OwnStep(s: State, step: Step, m: nat)
    requires Inv(s) && Enabled(s, step) && m < |s.migrators|
    requires !step.Write? && !step.Delete? && !step.ChangeSpec? && !step.TouchCrd? && step.m == m
    ensures MigratorInv(Apply(s, step), Apply(s, step).migrators[m])
  {
    assert MigratorInv(s, s.migrators[m]);
    match step {
      case Get(_) => StorageIsNamed(s.crd.versions);
      case List(_, ids) => assert forall id <- s.objects :: id in (set i <- ids);
      case Patch(_) =>
      case UpdateStatus(_) =>
      case _ =>
    }
  }

  /** A step of somebody else keeps what a migrator relies on. */
  lemma OtherStep(s: State, step: Step, g: Migrator)
    requires Inv(s) && Enabled(s, step) && MigratorInv(s, g)
    ensures MigratorInv(Apply(s, step), g)
  {
    var t := Apply(s, step);
    if t.crd.resourceVersion == s.crd.resourceVersion {
      assert t.crd == s.crd && t.clock == s.clock;
      var v := StorageOf(s.crd.versions);
      assert forall id <- t.objects :: t.objects[id] == v || (id in s.objects && t.objects[id] == s.objects[id]);
    } else {
      assert t.crd.resourceVersion == s.clock + 1 == t.clock;
    }
  }

  lemma StepInv(s: State, step: Step)
    requires Inv(s) && Enabled(s, step)
    ensures Inv(Apply(s, step))
  {
    hide Apply, CrdInv, StoredInv, MigratorInv;
    CrdStep(s, step);
    var t := Apply(s, step);
    forall g <- t.migrators ensures MigratorInv(t, g) {
      var k :| 0 <= k < |t.migrators| && t.migrators[k] == g;
      OthersKept(s, step, k);
      if t.migrators[k] == s.migrators[k] {
        OtherStep(s, step, g);
      } else {
        OwnStep(s, step, k);
      }
    }
  }

  lemma OthersKept(s: State, step: Step, k: nat)
    requires Enabled(s, step) && k < |Apply(s, step).migrators|
    ensures k < |s.migrators|
    ensures Apply(s, step).migrators[k] == s.migrators[k] ||
            (!step.Write? && !step.Delete? && !step.ChangeSpec? && !step.TouchCrd? && step.m == k)
  {
  }

  lemma {:induction false} RunInv(s: State, run: seq<Step>, t: State)
    requires Inv(s) && Runs(s, run, t)
    ensures Inv(t)
    decreases |run|
  {
    hide Apply, Inv;
    if run != [] {
      StepInv(s, run[0]);
      RunInv(Apply(s, run[0]), run[1..], t);
    }
  }

  // ---------- Main results ----------

  /**
   However migrators, clients and changes of the definition interleave, every stored object is
   encoded at a version that the status lists and that the spec still serves, and the status is
   never empty, so that `StoredVersions[0]` does not panic.
   */
  lemma ObjectsStayReadable(s0: State, run: seq<Step>, s: State)
    requires Init(s0) && Runs(s0, run, s)
    ensures forall id <- s.objects :: s.objects[id] in s.crd.storedVersions && s.objects[id] in Names(s.crd.versions)
    ensures s.crd.storedVersions != [] && Panicked !in s.migrators
  {
    RunInv(s0, run, s);
    assert forall v <- s.crd.storedVersions :: v in (set w <- s.crd.storedVersions);
    assert Panicked in s.migrators ==> MigratorInv(s, Panicked);
  }

  /**
   The stored versions shrink only by a migrator's status update, and then every object is
   encoded at the one version that is left, which is the current storage version.
   */
  lemma ShrinksOnlyWhenMigrated(s0: State, run: seq<Step>, s: State, step: Step)
    requires Init(s0) && Runs(s0, run, s) && Enabled(s, step)
    requires exists v <- s.crd.storedVersions :: v !in Apply(s, step).crd.storedVersions
    ensures step.UpdateStatus?
    ensures var v := StorageOf(s.crd.versions);
            && Apply(s, step).crd.storedVersions == [v]
            && (forall id <- s.objects :: s.objects[id] == v)
            && Apply(s, step).migrators[step.m] == Succeeded
  {
    RunInv(s0, run, s);
    if step.UpdateStatus? { assert MigratorInv(s, s.migrators[step.m]); }
  }

  /** Any change of the definition since it was read makes the status update fail. */
  lemma ChangedDefinitionConflicts(s0: State, run: seq<Step>, s: State, m: nat)
    requires Init(s0) && Runs(s0, run, s) && Enabled(s, UpdateStatus(m))
    requires s.migrators[m].crd != s.crd && s.migrators[m].crd.storedVersions != [s.migrators[m].version]
    ensures Apply(s, UpdateStatus(m)) == Become(s, m, Failed)
  {
    RunInv(s0, run, s);
    assert MigratorInv(s, s.migrators[m]);
  }

  // ---------- What a migrator achieves ----------

  /** The status lists the storage version alone, and every object is encoded at it. */
  ghost predicate IsMigrated(s: State) {
    var v := StorageOf(s.crd.versions);
    s.crd.storedVersions == [v] && forall id <- s.objects :: s.objects[id] == v
  }

  /**
   The last request of a migrator succeeds if and only if the definition is the one it read or
   there was nothing to do. On the definition that it read everything is migrated afterwards; a
   changed one is left as it is, and so is one with nothing to do.
   */
  lemma UpdateSucceedsExactly(s: State, m: nat)
    requires Inv(s) && Enabled(s, UpdateStatus(m))
    ensures var g, t := s.migrators[m], Apply(s, UpdateStatus(m));
            && (t.migrators[m] == Succeeded <==> g.crd == s.crd || g.crd.storedVersions == [g.version])
            && (t.migrators[m] != Succeeded ==> t.migrators[m] == Failed)
            && (g.crd == s.crd ==> IsMigrated(t))
            && (g.crd != s.crd || g.crd.storedVersions == [g.version] ==> t.crd == s.crd)
            && t.crd.versions == s.crd.versions && t.objects == s.objects
  {
    assert MigratorInv(s, s.migrators[m]);
  }

  /** The invariant is needed: with an empty status the last request would panic, and only then. */
  lemma EmptyStatusPanics(s: State, m: nat)
    requires Enabled(s, UpdateStatus(m))
    ensures Apply(s, UpdateStatus(m)).migrators[m] == Panicked <==> s.migrators[m].crd.storedVersions == []
  {
  }

  /**
   Migrators only change how objects are encoded: without requests of other clients no object
   comes or goes and the spec stays, and an object keeps its version or has the storage version.
   */
  lemma {:induction false} MigratorsKeepObjects(s: State, run: seq<Step>, t: State)
    requires Runs(s, run, t)
    requires forall step <- run :: !step.Write? && !step.Delete? && !step.ChangeSpec?
    ensures t.objects.Keys == s.objects.Keys && t.crd.versions == s.crd.versions
    ensures forall id <- s.objects :: t.objects[id] in {s.objects[id], StorageOf(s.crd.versions)}
    decreases |run|
  {
    if run != [] {
      assert run[0] in run && forall step <- run[1..] :: step in run;
      MigratorsKeepObjects(Apply(s, run[0]), run[1..], t);
    }
  }

  /** Nobody changes the definition but the migrator `m` itself, and none of its requests fails. */
  predicate IsCalm(step: Step, m: nat) {
    match step
    case Error(k) => k != m
    case UpdateStatus(k) => k == m
    case ChangeSpec(_) => false
    case TouchCrd => false
    case _ => true
  }

  /** The migrator knows the definition as it is, or has migrated everything. */
  ghost predicate OnTrack(s: State, m: nat) {
    m < |s.migrators| &&
    match s.migrators[m]
    case Ready => true
    case Listing(crd, _) => crd == s.crd
    case Patching(crd, _, _) => crd == s.crd
    case Updating(crd, _) => crd == s.crd
    case Succeeded => IsMigrated(s)
    case Failed => false
    case Panicked => false
  }

  lemma CalmStep(s: State, step: Step, m: nat)
    requires Inv(s) && OnTrack(s, m) && Enabled(s, step) && IsCalm(step, m)
    ensures OnTrack(Apply(s, step), m)
  {
    if step == UpdateStatus(m) {
      UpdateSucceedsExactly(s, m);
    } else if step == Get(m) {
      StorageIsNamed(s.crd.versions);
    } else {
      assert Apply(s, step).crd == s.crd;
    }
  }

  lemma {:induction false} CalmRun(s: State, run: seq<Step>, t: State, m: nat)
    requires Inv(s) && OnTrack(s, m) && Runs(s, run, t) && forall step <- run :: IsCalm(step, m)
    ensures Inv(t) && OnTrack(t, m)
    decreases |run|
  {
    hide Inv, OnTrack, Apply;
    if run != [] {
      assert run[0] in run && forall step <- run[1..] :: step in run;
      StepInv(s, run[0]);
      CalmStep(s, run[0], m);
      CalmRun(Apply(s, run[0]), run[1..], t, m);
    }
  }

  /** A migrator that is on track can go on by its own requests until it has succeeded. */
  lemma {:induction false} Finishes(s: State, m: nat) returns (run: seq<Step>, t: State)
    requires Inv(s) && OnTrack(s, m)
    ensures Runs(s, run, t) && (forall step <- run :: IsCalm(step, m)) && t.migrators == s.migrators[m := Succeeded]
    decreases match s.migrators[m]
              case Ready => 4
              case Listing(_, _) => 3
              case Patching(_, _, _) => 2
              case Updating(_, _) => 1
              case _ => 0, if s.migrators[m].Patching? then |s.migrators[m].todo| else 0
  {
    hide Inv;
    if s.migrators[m].Succeeded? {
      run, t := [], s;
      assert s.migrators[m := Succeeded] == s.migrators;
    } else {
      var step := NextRequest(s, m);
      StepInv(s, step);
      CalmStep(s, step, m);
      run, t := Finishes(Apply(s, step), m);
      assert t.migrators == s.migrators[m := Succeeded];
      run := Prepend(s, step, run, t);
    }
  }

  predicate IsFurther(g: Migrator, h: Migrator) {
    match g
    case Ready => h.Listing?
    case Listing(_, _) => h.Patching?
    case Patching(_, _, todo) => if todo == [] then h.Updating? else h.Patching? && h.todo == todo[1..]
    case _ => h.Succeeded?
  }

  /** The next request of a migrator that is on track: one that is enabled and brings it further. */
  lemma NextRequest(s: State, m: nat) returns (step: Step)
    requires Inv(s) && OnTrack(s, m) && !s.migrators[m].Succeeded?
    ensures Enabled(s, step) && IsCalm(step, m)
    ensures var t := Apply(s, step);
            m < |t.migrators| && t.migrators == s.migrators[m := t.migrators[m]]
            && IsFurther(s.migrators[m], t.migrators[m])
  {
    match s.migrators[m] {
      case Ready =>
        StorageIsNamed(s.crd.versions);
        step := Get(m);
      case Listing(_, _) =>
        var ids := Enumerate(s.objects.Keys);
        assert (set i <- ids) == s.objects.Keys;
        step := List(m, ids);
      case Patching(_, _, todo) => step := if todo == [] then AllPatched(m) else Patch(m);
      case _ =>
        UpdateSucceedsExactly(s, m);
        step := UpdateStatus(m);
    }
    var t := Apply(s, step);
    assert t.migrators == s.migrators[m := t.migrators[m]];
  }

  lemma {:induction false} Enumerate(ids: set<nat>) returns (r: seq<nat>)
    ensures forall i :: i in r <==> i in ids
  {
    if ids == {} {
      r := [];
    } else {
      var id :| id in ids;
      var rest := Enumerate(ids - {id});
      r := [id] + rest;
    }
  }

  /**
   A migrator whose definition nobody else changes, and whose requests are answered, never fails,
   whatever clients and other migrators write to the objects and however often it lists again. It
   can always go on until it has succeeded, and then the status lists the storage version alone
   and every object is encoded at it.
   */
  lemma CalmMigratorSucceeds(s: State, run: seq<Step>, t: State, m: nat) returns (rest: seq<Step>, u: State)
    requires Inv(s) && m < |s.migrators| && s.migrators[m] == Ready
    requires Runs(s, run, t) && forall step <- run :: IsCalm(step, m)
    ensures m < |t.migrators| && !t.migrators[m].Failed? && !t.migrators[m].Panicked?
    ensures t.migrators[m].Succeeded? ==> IsMigrated(t)
    ensures Runs(t, rest, u) && u.migrators == t.migrators[m := Succeeded] && IsMigrated(u)
  {
    hide Inv, IsMigrated, Apply;
    CalmRun(s, run, t, m);
    rest, u := Finishes(t, m);
    CalmRun(t, rest, u, m);
  }

  /**
   The conflict is needed: an update of a newly read definition, with the version that was
   found first, could leave an object at a version that is no longer listed.
   */
  lemma RereadingWouldLoseVersions() returns (s0: State, run: seq<Step>, s: State)
    ensures Init(s0) && Runs(s0, run, s) && Enabled(s, UpdateStatus(0))
    ensures exists id <- s.objects :: s.objects[id] !in [s.migrators[0].version]
  {
    var one, two := [VersionSpec("v1", true)], [VersionSpec("v1", false), VersionSpec("v2", true)];
    ExampleSpecs(one, two);
    s0 := State(Crd(0, one, ["v1"]), map[], 0, [Ready]);
    var s3 := s0.(migrators := [Updating(s0.crd, "v1")]);
    s := State(Crd(1, two, ["v1", "v2"]), map[7 := "v2"], 1, s3.migrators);
    run := ClientPart(s3, two, s);
    run := MigratorPart(s0, run, s3, s);
    assert 7 in s.objects && s.objects[7] == "v2" != "v1";
  }

  lemma ClientPart(s3: State, two: seq<VersionSpec>, s: State) returns (run: seq<Step>)
    requires s3.crd.storedVersions == ["v1"] && s3.clock == 0 && s3.objects == map[]
    requires AcceptsSpec(two) && StorageOf(two) == "v2" && Names(two) == {"v1", "v2"}
    requires s == State(Crd(1, two, ["v1", "v2"]), map[7 := "v2"], 1, s3.migrators)
    ensures Runs(s3, run, s)
  {
    var s4 := s.(objects := map[]);
    assert Apply(s4, Write(7)) == s;
    run := Prepend(s4, Write(7), [], s);
    assert (set v <- s3.crd.storedVersions) == {"v1"};
    assert Apply(s3, ChangeSpec(two)) == s4;
    run := Prepend(s3, ChangeSpec(two), run, s);
  }

  lemma MigratorPart(s0: State, rest: seq<Step>, s3: State, s: State) returns (run: seq<Step>)
    requires s0.migrators == [Ready] && s0.objects == map[] && StorageOf(s0.crd.versions) == "v1"
    requires s3 == s0.(migrators := [Updating(s0.crd, "v1")]) && Runs(s3, rest, s)
    ensures Runs(s0, run, s)
  {
    var s1 := s0.(migrators := [Listing(s0.crd, "v1")]);
    var s2 := s0.(migrators := [Patching(s0.crd, "v1", [])]);
    assert Apply(s2, AllPatched(0)) == s3;
    run := Prepend(s2, AllPatched(0), rest, s);
    assert (set i <- []) == s1.objects.Keys;
    assert Apply(s1, List(0, [])) == s2;
    run := Prepend(s1, List(0, []), run, s);
    assert Apply(s0, Get(0)) == s1;
    run := Prepend(s0, Get(0), run, s);
  }

  lemma ExampleSpecs(one: seq<VersionSpec>, two: seq<VersionSpec>)
    requires one == [VersionSpec("v1", true)] && two == [VersionSpec("v1", false), VersionSpec("v2", true)]
    ensures AcceptsSpec(one) && AcceptsSpec(two) && StorageOf(one) == "v1" && StorageOf(two) == "v2"
    ensures Names(one) == {"v1"} == (set v <- ["v1"]) && Names(two) == {"v1", "v2"}
  {
    assert one[0] in one && two[0] in two && two[1] in two;
    assert two[1..] == [VersionSpec("v2", true)];
  }

  lemma Prepend(s: State, step: Step, rest: seq<Step>, t: State) returns (run: seq<Step>)
    requires Enabled(s, step) && Runs(Apply(s, step), rest, t)
    ensures run == [step] + rest && Runs(s, run, t)
  {
    run := [step] + rest;
    assert run[1..] == rest;
  }
}
