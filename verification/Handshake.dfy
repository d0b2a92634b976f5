/**
 The handshake between a command that requests a reconciliation and the controller that
 handles it, as steps on one object that other clients change too. `reconcile` waits until
 the last handled request differs from the one it read first; resuming an ArtifactGenerator
 waits until it is the very request that was written.
 */
module Handshake {

  datatype Ready = NoCondition | ReadyTrue | ReadyFalse | ReadyUnknown

  /** The result of kstatus for an object; an object in any state can get any. */
  datatype Status = Current | InProgress | Bad

  /** Requests are timestamps. `observed` is the generation that the Ready condition is for. */
  datatype Object = Object(
    isStatic: bool, request: nat, lastHandled: nat, generation: nat, suspended: bool, ready: Ready, observed: nat)

  datatype Reconcile = Start | Read(last: nat, at: nat) | Waiting(last: nat, at: nat, request: nat) | Skipped
                     | Done(last: nat, at: nat, request: nat) | Failed

  datatype Resume = NotResumed | Resumed(request: nat, at: nat) | Completed(request: nat, at: nat) | ResumeFailed

  datatype Controller = Idle | Working(seen: Object, at: nat)

  /** A request that the controller handled: what it read and when, and when it wrote the status. */
  datatype Handling = Handling(request: nat, read: nat, written: nat, suspended: bool)

  /** `used` holds every timestamp that occurred; `handled` is the history of the controller. */
  datatype State = State(
    obj: Object, ctrl: Controller, rec: Reconcile, res: Resume, isRequester: bool,
    clock: nat, used: set<nat>, handled: seq<Handling>)

  datatype Step =
    | RecGet
    | RecRequest(ts: nat)
    | RecPoll(status: Status)
    | ResPatch(ts: nat)
    | ResPoll(status: Status)
    | CtrlRead
    | CtrlReport(ready: Ready)
    | CtrlFinish(ready: Ready)
    | CtrlDrop
    | OtherRequest(ts: nat)
    | OtherSuspend(suspended: bool)
    | OtherSpec

  // ---------- Steps ----------

  /** Timestamps are distinct: nobody writes the one that the resume command writes. */
  predicate Distinct(s: State, ts: nat) {
    s.res.Resumed? || s.res.Completed? ==> ts != s.res.request
  }

  predicate Enabled(s: State, step: Step) {
    match step
    case RecGet => s.rec.Start?
    case RecRequest(ts) => s.rec.Read? && Distinct(s, ts)
    case RecPoll(_) => s.rec.Waiting?
    case ResPatch(ts) => s.res.NotResumed? && ts !in s.used
    case ResPoll(_) => s.res.Resumed?
    case CtrlRead => s.ctrl.Idle?
    case CtrlReport(_) => s.ctrl.Working?
    case CtrlFinish(_) => s.ctrl.Working?
    case CtrlDrop => s.ctrl.Working?
    case OtherRequest(ts) => Distinct(s, ts)
    case OtherSuspend(_) => true
    case OtherSpec => true
  }

  /** One poll of `reconcile`, and the check of the Ready condition after it. */
  function PollReconcile(s: State, status: Status): Reconcile
    requires s.rec.Waiting?
  {
    if s.obj.lastHandled == s.rec.last then s.rec
    else if s.isRequester && s.obj.suspended then Failed
    else if s.isRequester && s.obj.observed != s.obj.generation then s.rec
    else match status
      case InProgress => s.rec
      case Bad => Failed
      case Current => if s.obj.ready == ReadyTrue then Done(s.rec.last, s.rec.at, s.rec.request) else Failed
  }

  /** One poll of the resume command of an ArtifactGenerator. */
  function PollResume(s: State, status: Status): Resume
    requires s.res.Resumed?
  {
    if s.obj.lastHandled != s.res.request then s.res
    else if s.obj.suspended then ResumeFailed
    else if s.obj.observed != s.obj.generation then s.res
    else match status
      case InProgress => s.res
      case Bad => ResumeFailed
      case Current => Completed(s.res.request, s.res.at)
  }

  /** The status update that ends a reconciliation; a suspended object is only marked handled. */
  function Finish(s: State, ready: Ready): State
    requires s.ctrl.Working?
  {
    var seen := s.ctrl.seen;
    var o := s.obj.(lastHandled := seen.request);
    s.(ctrl := Idle,
       obj := if seen.suspended then o else o.(ready := ready, observed := seen.generation),
       handled := s.handled + [Handling(seen.request, s.ctrl.at, s.clock, seen.suspended)])
  }

  function Effect(s: State, step: Step): State
    requires Enabled(s, step)
  {
    match step
    case RecGet =>
      s.(rec := if s.obj.isStatic then Skipped
                else if s.obj.suspended then Failed else Read(s.obj.lastHandled, s.clock))
    case RecRequest(ts) =>
      s.(obj := s.obj.(request := ts), used := s.used + {ts}, rec := Waiting(s.rec.last, s.rec.at, ts))
    case RecPoll(status) => s.(rec := PollReconcile(s, status))
    case ResPatch(ts) =>
      s.(obj := s.obj.(request := ts, suspended := false), used := s.used + {ts}, res := Resumed(ts, s.clock))
    case ResPoll(status) => s.(res := PollResume(s, status))
    case CtrlRead => s.(ctrl := Working(s.obj, s.clock))
    case CtrlReport(ready) => s.(obj := s.obj.(ready := ready, observed := s.ctrl.seen.generation))
    case CtrlFinish(ready) => Finish(s, ready)
    case CtrlDrop => s.(ctrl := Idle)
    case OtherRequest(ts) => s.(obj := s.obj.(request := ts), used := s.used + {ts})
    case OtherSuspend(b) => s.(obj := s.obj.(suspended := b))
    case OtherSpec => s.(obj := s.obj.(generation := s.obj.generation + 1))
  }

  function Apply(s: State, step: Step): State
    requires Enabled(s, step)
  {
    Effect(s, step).(clock := s.clock + 1)
  }

  ghost predicate Init(s: State) {
    && s.rec == Start && s.res == NotResumed && s.handled == []
    && s.obj.request in s.used && s.obj.lastHandled in s.used
    && (s.ctrl.Working? ==> s.ctrl.seen.request in s.used && s.ctrl.at <= s.clock)
  }

  ghost predicate Runs(s: State, run: seq<Step>, t: State)
    decreases |run|
  {
    if run == [] then s == t
    else Enabled(s, run[0]) && Runs(Apply(s, run[0]), run[1..], t)
  }

  // ---------- Invariants ----------

  ghost predicate History(s: State) {
    && (s.ctrl.Working? ==> s.ctrl.at <= s.clock)
    && (forall h <- s.handled :: h.read <= h.written < s.clock)
    && s.obj.request in s.used && s.obj.lastHandled in s.used
    && (s.ctrl.Working? ==> s.ctrl.seen.request in s.used)
    && (forall h <- s.handled :: h.request in s.used)
    && (s.rec.Read? || s.rec.Waiting? ==> s.rec.at <= s.clock)
    && (s.res.Resumed? || s.res.Completed? ==> s.res.at <= s.clock && s.res.request in s.used)
  }

  /** A handling of `request` that was written in the time from `from` on. */
  ghost predicate WrittenSince(s: State, request: nat, from: nat) {
    exists h <- s.handled :: h.request == request && from <= h.written
  }

  /** Since the first read either nothing was handled, or what is marked as handled was. */
  ghost predicate RecInv(s: State) {
    && ((s.rec.Read? || s.rec.Waiting?) && s.obj.lastHandled != s.rec.last ==>
          WrittenSince(s, s.obj.lastHandled, s.rec.at))
    && (s.rec.Done? ==> exists h <- s.handled :: s.rec.at <= h.written && h.request != s.rec.last)
  }

  /** A handling of `request` that began after `from`. */
  ghost predicate HandledSince(s: State, request: nat, from: nat) {
    exists h <- s.handled :: h.request == request && from <= h.read
  }

  /** Nobody but the controller, and it only after the patch, has got hold of the timestamp. */
  ghost predicate ResInv(s: State) {
    && (s.res.Resumed? ==>
      && (s.ctrl.Working? && s.ctrl.seen.request == s.res.request ==> s.res.at <= s.ctrl.at)
      && (forall h <- s.handled | h.request == s.res.request :: s.res.at <= h.read)
      && (s.obj.lastHandled == s.res.request ==> HandledSince(s, s.res.request, s.res.at)))
    && (s.res.Completed? ==> HandledSince(s, s.res.request, s.res.at))
  }

  ghost predicate Inv(s: State) {
    History(s) && RecInv(s) && ResInv(s)
  }

  /** Histories only grow. */
  lemma HandledGrows(s: State, step: Step)
    requires Enabled(s, step)
    ensures forall h <- s.handled :: h in Apply(s, step).handled
  {
  }

  lemma StepInv(s: State, step: Step)
    requires Inv(s) && Enabled(s, step)
    ensures Inv(Apply(s, step))
  {
    HistoryStep(s, step);
    RecStep(s, step);
    ResStep(s, step);
  }

  lemma HistoryStep(s: State, step: Step)
    requires History(s) && Enabled(s, step)
    ensures History(Apply(s, step))
  {
  }

  lemma RecStep(s: State, step: Step)
    requires Inv(s) && Enabled(s, step)
    ensures RecInv(Apply(s, step))
  {
    var t := Apply(s, step);
    HandledGrows(s, step);
    if step.CtrlFinish? {
      assert t.handled[|s.handled|] in t.handled;
    } else {
      assert t.obj.lastHandled == s.obj.lastHandled && t.handled == s.handled;
    }
  }

  lemma ResStep(s: State, step: Step)
    requires Inv(s) && Enabled(s, step)
    ensures ResInv(Apply(s, step))
  {
    var t := Apply(s, step);
    HandledGrows(s, step);
    if step.CtrlFinish? {
      assert t.handled[|s.handled|] in t.handled;
    } else {
      assert t.obj.lastHandled == s.obj.lastHandled && t.handled == s.handled;
    }
  }

  lemma {:induction false} RunInv(s: State, run: seq<Step>, t: State)
    requires Inv(s) && Runs(s, run, t)
    ensures Inv(t)
    decreases |run|
  {
    hide Inv, Apply;
    if run != [] {
      StepInv(s, run[0]);
      RunInv(Apply(s, run[0]), run[1..], t);
    }
  }

  // ---------- Main results ----------

  /**
   `reconcile` succeeds only if the controller has written the status for some request, other
   than the one that was handled last, after the command's first read.
   */
  lemma ReconcileSeesSomeHandling(s0: State, run: seq<Step>, s: State)
    requires Init(s0) && Runs(s0, run, s) && s.rec.Done?
    ensures exists h <- s.handled :: s.rec.at <= h.written && h.request != s.rec.last
  {
    RunInv(s0, run, s);
  }

  /**
   On every run that ends with success there was a poll at which Ready was true, and a
   requester was current and not suspended; the request that was marked as handled then is
   not the one of the first read, and the controller had written it after that read.
   */
  lemma ReconcileSeesReady(s0: State, run: seq<Step>, s: State) returns (k: nat, u: State)
    requires Init(s0) && Runs(s0, run, s) && s.rec.Done?
    ensures k < |run| && run[k] == RecPoll(Current) && Runs(s0, run[..k], u)
    ensures u.rec == Waiting(s.rec.last, s.rec.at, s.rec.request) && u.obj.lastHandled != s.rec.last
    ensures u.obj.ready == ReadyTrue && (u.isRequester ==> !u.obj.suspended && u.obj.observed == u.obj.generation)
    ensures WrittenSince(u, u.obj.lastHandled, s.rec.at)
  {
    k, u := LastRecPoll(s0, run, s);
    RunInv(s0, run[..k], u);
  }

  /** The poll after which `reconcile` is done. */
  lemma {:induction false} LastRecPoll(s: State, run: seq<Step>, t: State) returns (k: nat, u: State)
    requires !s.rec.Done? && Runs(s, run, t) && t.rec.Done?
    ensures k < |run| && Runs(s, run[..k], u) && Enabled(u, run[k])
    ensures run[k].RecPoll? && !u.rec.Done? && Apply(u, run[k]).rec == t.rec
    decreases |run|
  {
    var step, rest := run[0], run[1..];
    var v := Apply(s, step);
    if v.rec.Done? {
      k, u := 0, s;
      DoneStays(v, rest, t);
    } else {
      k, u := LastRecPoll(v, rest, t);
      var before := Prepend(s, step, rest[..k], u);
      assert before == run[..k + 1];
      k := k + 1;
    }
  }

  lemma {:induction false} DoneStays(s: State, run: seq<Step>, t: State)
    requires Runs(s, run, t)
    ensures s.rec.Done? || s.rec.Failed? || s.rec.Skipped? ==> t.rec == s.rec
    ensures s.res.Completed? ==> t.res == s.res
    decreases |run|
  {
    if run != [] { DoneStays(Apply(s, run[0]), run[1..], t); }
  }

  /**
   The resume command completes only if the controller has handled exactly the request that
   the command wrote, and has read it after it was written.
   */
  lemma ResumeSeesItsRequest(s0: State, run: seq<Step>, s: State)
    requires Init(s0) && Runs(s0, run, s) && s.res.Completed?
    ensures exists h <- s.handled :: h.request == s.res.request && s.res.at <= h.read <= h.written
  {
    RunInv(s0, run, s);
    var h :| h in s.handled && h.request == s.res.request && s.res.at <= h.read;
  }

  /**
   On every run that completes there was a poll at which the object was not suspended, Ready
   was for its generation and the written request was marked as handled; by then the
   controller had read that request after it was written, and had written the status.
   */
  lemma ResumeSeesCurrent(s0: State, run: seq<Step>, s: State) returns (k: nat, u: State)
    requires Init(s0) && Runs(s0, run, s) && s.res.Completed?
    ensures k < |run| && run[k] == ResPoll(Current) && Runs(s0, run[..k], u)
    ensures u.res == Resumed(s.res.request, s.res.at) && u.obj.lastHandled == s.res.request
    ensures !u.obj.suspended && u.obj.observed == u.obj.generation
    ensures exists h <- u.handled :: h.request == s.res.request && s.res.at <= h.read <= h.written
  {
    k, u := LastResPoll(s0, run, s);
    RunInv(s0, run[..k], u);
    var h :| h in u.handled && h.request == u.res.request && u.res.at <= h.read;
  }

  /** The poll after which the resume command is done. */
  lemma {:induction false} LastResPoll(s: State, run: seq<Step>, t: State) returns (k: nat, u: State)
    requires !s.res.Completed? && Runs(s, run, t) && t.res.Completed?
    ensures k < |run| && Runs(s, run[..k], u) && Enabled(u, run[k])
    ensures run[k].ResPoll? && !u.res.Completed? && Apply(u, run[k]).res == t.res
    decreases |run|
  {
    var step, rest := run[0], run[1..];
    var v := Apply(s, step);
    if v.res.Completed? {
      k, u := 0, s;
      DoneStays(v, rest, t);
    } else {
      k, u := LastResPoll(v, rest, t);
      var before := Prepend(s, step, rest[..k], u);
      assert before == run[..k + 1];
      k := k + 1;
    }
  }

  // ---------- How the commands can end ----------

  /** The first read of `reconcile` on a run. */
  lemma {:induction false} FirstRead(s: State, run: seq<Step>, t: State) returns (k: nat, u: State)
    requires s.rec.Start? && Runs(s, run, t) && !t.rec.Start?
    ensures k < |run| && run[k] == RecGet && Runs(s, run[..k], u) && u.rec.Start?
    ensures Runs(Apply(u, RecGet), run[k + 1..], t)
    ensures forall j | 0 <= j < k :: !run[j].RecRequest?
    decreases |run|
  {
    var step, rest := run[0], run[1..];
    if step == RecGet {
      k, u := 0, s;
    } else {
      k, u := FirstRead(Apply(s, step), rest, t);
      var before := Prepend(s, step, rest[..k], u);
      assert before == run[..k + 1] && rest[k + 1..] == run[k + 2..];
      k := k + 1;
    }
  }

  /** A command that has ended makes no request. */
  lemma {:induction false} EndedIsQuiet(s: State, run: seq<Step>, t: State)
    requires Runs(s, run, t) && (s.rec.Skipped? || s.rec.Failed?)
    ensures t.rec == s.rec && forall step <- run :: !step.RecRequest?
    decreases |run|
  {
    if run != [] { EndedIsQuiet(Apply(s, run[0]), run[1..], t); }
  }

  /** A command that read an object that it can reconcile does not end as skipped. */
  lemma {:induction false} GoesOn(s: State, run: seq<Step>, t: State)
    requires Runs(s, run, t) && !s.rec.Start? && !s.rec.Skipped?
    ensures !t.rec.Start? && !t.rec.Skipped?
    decreases |run|
  {
    if run != [] { GoesOn(Apply(s, run[0]), run[1..], t); }
  }

  /**
   On every run the first read decides: `reconcile` succeeds without a request exactly for a
   static object, fails without a request for any other suspended one, and otherwise waits
   for a request to be handled.
   */
  lemma FirstReadDecides(s0: State, run: seq<Step>, s: State) returns (k: nat, u: State)
    requires Init(s0) && Runs(s0, run, s) && !s.rec.Start?
    ensures k < |run| && run[k] == RecGet && Runs(s0, run[..k], u) && u.rec.Start?
    ensures s.rec.Skipped? <==> u.obj.isStatic
    ensures !u.obj.isStatic && u.obj.suspended ==> s.rec.Failed?
    ensures u.obj.isStatic || u.obj.suspended ==> forall step <- run :: !step.RecRequest?
    ensures |run| == k + 1 && !u.obj.isStatic && !u.obj.suspended ==> s.rec == Read(u.obj.lastHandled, u.clock)
  {
    k, u := FirstRead(s0, run, s);
    var v, rest := Apply(u, RecGet), run[k + 1..];
    if u.obj.isStatic || u.obj.suspended {
      EndedIsQuiet(v, rest, s);
      assert forall j | k < j < |run| :: run[j] == rest[j - k - 1] && rest[j - k - 1] in rest;
    } else {
      GoesOn(v, rest, s);
    }
  }

  /** The poll sees a handling of a request that is new, and of a requester that it is not outdated. */
  predicate SeesHandled(s: State)
    requires s.rec.Waiting?
  {
    s.obj.lastHandled != s.rec.last && (s.isRequester ==> s.obj.observed == s.obj.generation)
  }

  /**
   What a poll decides. A suspended requester fails as soon as a new request is marked as handled;
   otherwise the command waits until the handling is seen, and then goes by the status and Ready.
   */
  lemma PollDecides(s: State, status: Status)
    requires Enabled(s, RecPoll(status))
    ensures var rec := Apply(s, RecPoll(status)).rec;
            var refused := s.isRequester && s.obj.suspended;
            && (rec == s.rec <==>
                  s.obj.lastHandled == s.rec.last || (!refused && (!SeesHandled(s) || status == InProgress)))
            && (rec == Done(s.rec.last, s.rec.at, s.rec.request) <==>
                  !refused && SeesHandled(s) && status == Current && s.obj.ready == ReadyTrue)
            && (rec == Failed <==>
                  (refused && s.obj.lastHandled != s.rec.last)
                  || (SeesHandled(s) && (status == Bad || (status == Current && s.obj.ready != ReadyTrue))))
  {
  }

  /** Every failure has a reason: a suspended object at the first read, or what a poll saw. */
  lemma {:induction false} FailureHasReason(s: State, run: seq<Step>, t: State) returns (k: nat, u: State)
    requires !s.rec.Failed? && Runs(s, run, t) && t.rec.Failed?
    ensures k < |run| && Runs(s, run[..k], u) && Enabled(u, run[k])
    ensures run[k] == RecGet || run[k].RecPoll?
    ensures run[k] == RecGet ==> !u.obj.isStatic && u.obj.suspended
    ensures run[k].RecPoll? ==> u.obj.lastHandled != u.rec.last
    ensures run[k].RecPoll? && !(u.isRequester && u.obj.suspended) ==>
      SeesHandled(u) && (run[k].status == Bad || (run[k].status == Current && u.obj.ready != ReadyTrue))
    decreases |run|
  {
    var step, rest := run[0], run[1..];
    var v := Apply(s, step);
    if v.rec.Failed? {
      k, u := 0, s;
    } else {
      k, u := FailureHasReason(v, rest, t);
      var before := Prepend(s, step, rest[..k], u);
      assert before == run[..k + 1];
      k := k + 1;
    }
  }

  /** What a poll of the resume command decides. */
  lemma ResumePollDecides(s: State, status: Status)
    requires Enabled(s, ResPoll(status))
    ensures var res := Apply(s, ResPoll(status)).res;
            var handled, current := s.obj.lastHandled == s.res.request, s.obj.observed == s.obj.generation;
            && (res == s.res <==>
                  !handled || (!s.obj.suspended && (!current || status == InProgress)))
            && (res == Completed(s.res.request, s.res.at) <==>
                  handled && !s.obj.suspended && current && status == Current)
            && (res == ResumeFailed <==>
                  handled && (s.obj.suspended || (current && status == Bad)))
  {
  }

  /** A resume command fails only at a poll that saw its request handled on a suspended or bad object. */
  lemma {:induction false} ResumeFailureHasReason(s: State, run: seq<Step>, t: State) returns (k: nat, u: State)
    requires !s.res.ResumeFailed? && Runs(s, run, t) && t.res.ResumeFailed?
    ensures k < |run| && Runs(s, run[..k], u) && Enabled(u, run[k])
    ensures run[k].ResPoll? && u.obj.lastHandled == u.res.request && (u.obj.suspended || run[k].status == Bad)
    decreases |run|
  {
    var step, rest := run[0], run[1..];
    var v := Apply(s, step);
    if v.res.ResumeFailed? {
      k, u := 0, s;
    } else {
      k, u := ResumeFailureHasReason(v, rest, t);
      var before := Prepend(s, step, rest[..k], u);
      assert before == run[..k + 1];
      k := k + 1;
    }
  }

  // ---------- How much `reconcile` can promise ----------

  /** Between the first read and the end nobody else requests. */
  predicate Undisturbed(run: seq<Step>) {
    forall step <- run :: !step.OtherRequest? && !step.ResPatch?
  }

  /** When `reconcile` reads first, every request has been handled, also the one being worked on. */
  predicate Settled(s: State) {
    s.obj.request == s.obj.lastHandled && (s.ctrl.Working? ==> s.ctrl.seen.request == s.obj.lastHandled)
  }

  /** Only the old request and the command's own can be seen. */
  ghost predicate Alone(s: State, start: nat) {
    && (s.rec.Failed? || s.rec.Skipped? || (
      && !s.rec.Start? && s.rec.at >= start
      && (s.rec.Read? ==> s.obj.request == s.rec.last && s.obj.lastHandled == s.rec.last)
      && (s.rec.Waiting? || s.rec.Done? ==> s.obj.request == s.rec.request)
      && (s.rec.Waiting? || s.rec.Done? ==> s.obj.lastHandled in {s.rec.last, s.rec.request})
      && (s.ctrl.Working? && s.ctrl.seen.request != s.rec.last ==>
            (s.rec.Waiting? || s.rec.Done?) && s.ctrl.seen.request == s.rec.request)
      && (s.rec.Waiting? && s.obj.lastHandled != s.rec.last ==> WrittenSince(s, s.rec.request, s.rec.at))
      && (s.rec.Done? ==> WrittenSince(s, s.rec.request, s.rec.at))))
  }

  lemma AloneStep(s: State, step: Step, start: nat)
    requires Alone(s, start) && Enabled(s, step) && !step.OtherRequest? && !step.ResPatch?
    requires s.rec.Read? || s.rec.Waiting? || s.rec.Done? ==> s.rec.at <= s.clock
    ensures Alone(Apply(s, step), start)
    ensures var t := Apply(s, step); t.rec.Read? || t.rec.Waiting? || t.rec.Done? ==> t.rec.at <= t.clock
  {
    var t := Apply(s, step);
    HandledGrows(s, step);
    if step.CtrlFinish? {
      assert t.handled[|s.handled|] in t.handled;
    } else {
      assert t.handled == s.handled;
    }
  }

  lemma {:induction false} AloneRun(s: State, run: seq<Step>, t: State, start: nat)
    requires Alone(s, start) && Runs(s, run, t) && Undisturbed(run)
    requires s.rec.Read? || s.rec.Waiting? || s.rec.Done? ==> s.rec.at <= s.clock
    ensures Alone(t, start)
    decreases |run|
  {
    hide Alone, Apply;
    if run != [] {
      assert run[0] in run;
      assert forall x <- run[1..] :: x in run;
      AloneStep(s, run[0], start);
      AloneRun(Apply(s, run[0]), run[1..], t, start);
    }
  }

  /** Every run that begins with the first read here and succeeds has handled its own request. */
  ghost predicate HandlesOwnRequest(s: State, mayRequest: bool)
    requires Enabled(s, RecGet)
  {
    forall run, t | Runs(Apply(s, RecGet), run, t) && (mayRequest || Undisturbed(run)) && t.rec.Done? ::
      WrittenSince(t, t.rec.request, t.rec.at)
  }

  /**
   A successful `reconcile` means that its own request was handled if and only if nobody else
   may request and the object was settled at the first read, or if the command ends there.
   */
  lemma UndisturbedReconcileIsHandled(s: State, mayRequest: bool)
    requires Enabled(s, RecGet)
    ensures HandlesOwnRequest(s, mayRequest) <==>
      s.obj.isStatic || s.obj.suspended || (Settled(s) && !mayRequest)
  {
    var u := Apply(s, RecGet);
    if s.obj.isStatic || s.obj.suspended {
      forall run, t | Runs(u, run, t) ensures t.rec == u.rec {
        DoneStays(u, run, t);
      }
    } else if Settled(s) && !mayRequest {
      forall run, t | Runs(u, run, t) && Undisturbed(run) && t.rec.Done?
        ensures WrittenSince(t, t.rec.request, t.rec.at)
      {
        AloneRun(u, run, t, s.clock);
      }
    } else if Settled(s) {
      var other := FreshFor(u);
      var run, t := OtherRequestIsTaken(Apply(u, OtherRequest(other)));
      run := Prepend(u, OtherRequest(other), run, t);
      assert !WrittenSince(t, t.rec.request, t.rec.at);
    } else {
      var run, t := OtherRequestIsTaken(u);
      assert !WrittenSince(t, t.rec.request, t.rec.at);
    }
  }

  /** From an object that is not settled, a run on which the older request is taken for the own one. */
  lemma OtherRequestIsTaken(s: State) returns (run: seq<Step>, t: State)
    requires s.rec.Read? && s.rec.last == s.obj.lastHandled && !Settled(s) && !s.obj.suspended
    ensures Runs(s, run, t) && Undisturbed(run) && t.rec.Done?
    ensures forall h <- t.handled :: h.request != t.rec.request
  {
    var ts := FreshFor(s);
    if s.ctrl.Working? && s.ctrl.seen.request != s.rec.last {
      run, t := OlderIsFinished(s, ts);
    } else if s.ctrl.Working? {
      var u := Apply(s, CtrlDrop);
      var v := Apply(u, CtrlRead);
      run, t := OlderIsFinished(v, ts);
      run := Prepend(u, CtrlRead, run, t);
      run := Prepend(s, CtrlDrop, run, t);
    } else {
      var u := Apply(s, CtrlRead);
      run, t := OlderIsFinished(u, ts);
      run := Prepend(s, CtrlRead, run, t);
    }
  }

  /** The controller ends the handling of an older request after the command wrote its own. */
  lemma OlderIsFinished(s: State, ts: nat) returns (run: seq<Step>, t: State)
    requires s.rec.Read? && s.rec.last == s.obj.lastHandled && !s.obj.suspended
    requires s.ctrl.Working? && s.ctrl.seen.request != s.rec.last && s.ctrl.seen.request != ts
    requires Distinct(s, ts) && forall h <- s.handled :: h.request != ts
    ensures Runs(s, run, t) && Undisturbed(run) && t.rec.Done?
    ensures forall h <- t.handled :: h.request != t.rec.request
  {
    var s1 := Apply(s, RecRequest(ts));
    var s2 := Apply(s1, CtrlFinish(ReadyTrue));
    var s3 := Apply(s2, CtrlRead);
    var s4 := Apply(s3, CtrlReport(ReadyTrue));
    t := Apply(s4, RecPoll(Current));
    run := Prepend(s4, RecPoll(Current), [], t);
    run := Prepend(s3, CtrlReport(ReadyTrue), run, t);
    run := Prepend(s2, CtrlRead, run, t);
    run := Prepend(s1, CtrlFinish(ReadyTrue), run, t);
    run := Prepend(s, RecRequest(ts), run, t);
  }

  /** A timestamp that nobody has written yet. */
  lemma FreshFor(s: State) returns (ts: nat)
    ensures Distinct(s, ts) && ts !in {s.obj.request, s.obj.lastHandled}
    ensures s.ctrl.Working? ==> ts != s.ctrl.seen.request
    ensures forall h <- s.handled :: h.request != ts
  {
    var taken := (set h <- s.handled :: h.request) + {s.obj.request, s.obj.lastHandled}
      + (if s.ctrl.Working? then {s.ctrl.seen.request} else {})
      + (if s.res.Resumed? || s.res.Completed? then {s.res.request} else {});
    ts := Above(taken);
    forall h <- s.handled ensures h.request != ts { assert h.request in taken; }
  }

  lemma {:induction false} Above(ns: set<nat>) returns (n: nat)
    ensures forall m <- ns :: m < n
  {
    if ns == {} {
      n := 0;
    } else {
      var x :| x in ns;
      var above := Above(ns - {x});
      n := if above <= x then x + 1 else above;
      assert forall m <- ns :: m == x || m in ns - {x};
    }
  }

  /**
   Without those conditions it does not: the controller ends the handling of an older request
   after the first read, and `reconcile` takes that for its own.
   */
  lemma OlderRequestSatisfiesReconcile() returns (s0: State, run: seq<Step>, s: State)
    ensures Init(s0) && Runs(s0, run, s) && s.rec.Done?
    ensures forall h <- s.handled :: h.request != s.rec.request
  {
    var o := Object(false, 1, 0, 1, false, ReadyTrue, 1);
    s0 := State(o, Working(o, 0), Start, NotResumed, false, 0, {0, 1}, []);
    var s1 := Apply(s0, RecGet);
    var s2 := Apply(s1, RecRequest(2));
    var s3 := Apply(s2, CtrlFinish(ReadyTrue));
    s := Apply(s3, RecPoll(Current));
    run := Prepend(s3, RecPoll(Current), [], s);
    run := Prepend(s2, CtrlFinish(ReadyTrue), run, s);
    run := Prepend(s1, RecRequest(2), run, s);
    run := Prepend(s0, RecGet, run, s);
  }

  // ---------- How much the resume command can promise ----------

  /** The controller read the request after `from` on an object that was not suspended. */
  ghost predicate ReconciledSince(s: State, request: nat, from: nat) {
    exists h <- s.handled :: h.request == request && from <= h.read && !h.suspended
  }

  predicate NobodySuspends(run: seq<Step>) {
    forall step <- run :: step != OtherSuspend(true)
  }

  /** Every run that completes after the patch has reconciled the object; other clients may suspend it or not. */
  ghost predicate CompletedMeansReconciled(s: State, ts: nat, maySuspend: bool)
    requires Enabled(s, ResPatch(ts))
  {
    forall run, t | Runs(Apply(s, ResPatch(ts)), run, t) && (maySuspend || NobodySuspends(run)) && t.res.Completed? ::
      ReconciledSince(t, ts, t.res.at)
  }

  /**
   Handled is reconciled if and only if nobody may suspend the object after the patch:
   otherwise, from every state, another client can suspend it before the controller's read and
   resume it before the poll, and the command completes although the controller only marked
   the request.
   */
  lemma CompletedIsReconciledExactly(s: State, ts: nat, maySuspend: bool)
    requires Inv(s) && Enabled(s, ResPatch(ts))
    ensures CompletedMeansReconciled(s, ts, maySuspend) <==> !maySuspend
  {
    var u := Apply(s, ResPatch(ts));
    if maySuspend {
      var run, t := OnlyMarked(s, ts);
      assert !ReconciledSince(t, ts, t.res.at);
    } else {
      StepInv(s, ResPatch(ts));
      forall run, t | Runs(u, run, t) && NobodySuspends(run) && t.res.Completed?
        ensures ReconciledSince(t, ts, t.res.at)
      {
        RunInv(u, run, t);
        ActiveRun(u, run, t, ts);
        var h :| h in t.handled && h.request == ts && t.res.at <= h.read;
      }
    }
  }

  /** The object is not suspended, and was not when the controller read the request. */
  ghost predicate Active(s: State, ts: nat) {
    && !s.res.NotResumed? && (s.res.Resumed? || s.res.Completed? ==> s.res.request == ts)
    && !s.obj.suspended && (s.ctrl.Working? && s.ctrl.seen.request == ts ==> !s.ctrl.seen.suspended)
    && forall h <- s.handled | h.request == ts :: !h.suspended
  }

  lemma {:induction false} ActiveRun(s: State, run: seq<Step>, t: State, ts: nat)
    requires Active(s, ts) && Runs(s, run, t) && NobodySuspends(run)
    ensures Active(t, ts)
    decreases |run|
  {
    if run != [] {
      assert run[0] in run && forall x <- run[1..] :: x in run;
      ActiveRun(Apply(s, run[0]), run[1..], t, ts);
    }
  }

  /** From every state a run that completes and on which the request is only marked. */
  lemma OnlyMarked(s: State, ts: nat) returns (run: seq<Step>, t: State)
    requires Inv(s) && Enabled(s, ResPatch(ts))
    ensures Runs(Apply(s, ResPatch(ts)), run, t) && t.res.Completed?
    ensures forall h <- t.handled | h.request == ts :: h.suspended
  {
    var u := Apply(s, ResPatch(ts));
    if u.ctrl.Working? {
      var v := Apply(u, CtrlDrop);
      run, t := MarkedWhileSuspended(v, ts);
      run := Prepend(u, CtrlDrop, run, t);
    } else {
      run, t := MarkedWhileSuspended(u, ts);
    }
  }

  lemma MarkedWhileSuspended(s: State, ts: nat) returns (run: seq<Step>, t: State)
    requires s.ctrl.Idle? && s.res.Resumed? && s.res.request == ts && s.obj.request == ts
    ensures Runs(s, run, t) && t.res.Completed?
    ensures forall h <- t.handled :: h in s.handled || h.suspended
  {
    var s1 := Apply(s, OtherSuspend(true));
    var s2 := Apply(s1, CtrlRead);
    var s3 := Apply(s2, CtrlFinish(ReadyTrue));
    var s4 := Apply(s3, OtherSuspend(false));
    var s5 := Apply(s4, CtrlRead);
    var s6 := Apply(s5, CtrlReport(ReadyTrue));
    t := Apply(s6, ResPoll(Current));
    run := Prepend(s6, ResPoll(Current), [], t);
    run := Prepend(s5, CtrlReport(ReadyTrue), run, t);
    run := Prepend(s4, CtrlRead, run, t);
    run := Prepend(s3, OtherSuspend(false), run, t);
    run := Prepend(s2, CtrlFinish(ReadyTrue), run, t);
    run := Prepend(s1, CtrlRead, run, t);
    run := Prepend(s, OtherSuspend(true), run, t);
  }

  /** An example without any handling that was not suspended. */
  lemma HandledNeedNotBeReconciled() returns (s0: State, run: seq<Step>, s: State)
    ensures Init(s0) && Runs(s0, run, s) && s.res.Completed?
    ensures forall h <- s.handled :: h.suspended
  {
    var o := Object(false, 0, 0, 1, true, ReadyTrue, 1);
    s0 := State(o, Idle, Start, NotResumed, true, 0, {0}, []);
    var s1 := Apply(s0, ResPatch(2));
    run, s := MarkedWhileSuspended(s1, 2);
    run := Prepend(s0, ResPatch(2), run, s);
  }

  lemma Prepend(s: State, step: Step, rest: seq<Step>, t: State) returns (run: seq<Step>)
    requires Enabled(s, step) && Runs(Apply(s, step), rest, t)
    ensures run == [step] + rest && Runs(s, run, t)
  {
    run := [step] + rest;
    assert run[1..] == rest;
  }
}
