/**
 The fan-in of several watches into one: a forwarder goroutine for each source, a closer
 goroutine that waits for all of them, and any number of callers of `Stop`, which share
 an unbuffered result channel, a done channel, a wait group and a `sync.Once`.

 Every atomic action of a goroutine is one `Step`. Actions that panic in Go (sending on
 or closing a closed channel, a negative wait group counter) are steps that set
 `panicked`; they are not ruled out by the guards, so that they never happen is a theorem.
 */
module MergedWatch {

  datatype Event = Event(kind: string, object: int)

  /** Progress of a goroutine through one call of `Stop`. */
  datatype StopCall = Entering | InBody | Returned

  datatype Forwarder = Receiving | Holding(event: Event) | Stopping(call: StopCall) | Exited

  datatype Caller = NotCalled | Calling(call: StopCall)

  datatype Proc = Fwd(i: nat) | Ext(j: nat)

  /** The once: `pc` is the number of actions of the body that were done. */
  datatype Once = Fresh | Running(owner: Proc, pc: nat) | Finished

  datatype Closer = NotStarted | Waiting | Closing | Gone

  /** A watch. `emitted` and `lost` record all its events and those its forwarder dropped. */
  datatype Source = Source(queue: seq<Event>, closed: bool, stops: nat, emitted: seq<Event>, lost: seq<Event>)

  datatype State = State(
    sources: seq<Source>,
    forwarders: seq<Forwarder>,
    callers: seq<Caller>,
    once: Once,
    closer: Closer,
    wg: int,
    doneClosed: bool,
    resultClosed: bool,
    panicked: bool,
    delivered: seq<(nat, Event)>)

  datatype Step =
    | Spawn
    | StartCloser
    | Emit(i: nat, event: Event)
    | SourceCloses(i: nat)
    | Receive(i: nat)
    | EndOfStream(i: nat)
    | Deliver(i: nat)
    | SeeDone(i: nat)
    | CallStop(j: nat)
    | EnterOnce(p: Proc)
    | PassOnce(p: Proc)
    | Body
    | WgDone(i: nat)
    | WaitReturns
    | CloseResult

  // ---------- The step relation ----------

  function CallOf(s: State, p: Proc): (c: Caller) {
    match p
    case Fwd(i) => if i < |s.forwarders| && s.forwarders[i].Stopping? then Calling(s.forwarders[i].call) else NotCalled
    case Ext(j) => if j < |s.callers| then s.callers[j] else NotCalled
  }

  function SetCall(s: State, p: Proc, c: StopCall): State
    requires CallOf(s, p).Calling?
  {
    match p
    case Fwd(i) => s.(forwarders := s.forwarders[i := Stopping(c)])
    case Ext(j) => s.(callers := s.callers[j := Calling(c)])
  }

  predicate Enabled(s: State, step: Step) {
    !s.panicked &&
    match step
    case Spawn => |s.forwarders| < |s.sources|
    case StartCloser => |s.forwarders| == |s.sources| && s.closer == NotStarted
    case Emit(i, _) => i < |s.sources| && !s.sources[i].closed
    case SourceCloses(i) => i < |s.sources| && !s.sources[i].closed
    case Receive(i) => i < |s.forwarders| <= |s.sources| && s.forwarders[i] == Receiving && s.sources[i].queue != []
    case EndOfStream(i) =>
      && i < |s.forwarders| <= |s.sources| && s.forwarders[i] == Receiving
      && s.sources[i].queue == [] && s.sources[i].closed
    case Deliver(i) => i < |s.forwarders| <= |s.sources| && s.forwarders[i].Holding?
    case SeeDone(i) => i < |s.forwarders| <= |s.sources| && s.forwarders[i].Holding? && s.doneClosed
    case CallStop(j) => s.closer != NotStarted && j < |s.callers| && s.callers[j] == NotCalled
    case EnterOnce(p) => CallOf(s, p) == Calling(Entering) && s.once == Fresh
    case PassOnce(p) => CallOf(s, p) == Calling(Entering) && s.once == Finished
    case Body => s.once.Running? && CallOf(s, s.once.owner) == Calling(InBody)
    case WgDone(i) => i < |s.forwarders| && s.forwarders[i] == Stopping(Returned)
    case WaitReturns => s.closer == Waiting && s.wg == 0
    case CloseResult => s.closer == Closing
  }

  /** The body of the once: close done, then stop the sources in order, then complete. */
  function BodyStep(s: State): State
    requires Enabled(s, Body)
  {
    var pc := s.once.pc;
    if pc == 0 then
      s.(once := s.once.(pc := 1), doneClosed := true, panicked := s.doneClosed)
    else if pc <= |s.sources| then
      var w := s.sources[pc - 1];
      s.(once := s.once.(pc := pc + 1), sources := s.sources[pc - 1 := w.(stops := w.stops + 1)])
    else
      SetCall(s, s.once.owner, Returned).(once := Finished)
  }

  function Apply(s: State, step: Step): State
    requires Enabled(s, step)
  {
    match step
    case Spawn => s.(wg := s.wg + 1, forwarders := s.forwarders + [Receiving])
    case StartCloser => s.(closer := Waiting)
    case Emit(i, e) =>
      var w := s.sources[i];
      s.(sources := s.sources[i := w.(queue := w.queue + [e], emitted := w.emitted + [e])])
    case SourceCloses(i) => s.(sources := s.sources[i := s.sources[i].(closed := true)])
    case Receive(i) =>
      var w := s.sources[i];
      s.(sources := s.sources[i := w.(queue := w.queue[1..])],
         forwarders := s.forwarders[i := Holding(w.queue[0])])
    case EndOfStream(i) => s.(forwarders := s.forwarders[i := Stopping(Entering)])
    case Deliver(i) =>
      if s.resultClosed then s.(panicked := true)
      else s.(delivered := s.delivered + [(i, s.forwarders[i].event)], forwarders := s.forwarders[i := Receiving])
    case SeeDone(i) =>
      var w := s.sources[i];
      s.(sources := s.sources[i := w.(lost := w.lost + [s.forwarders[i].event])],
         forwarders := s.forwarders[i := Stopping(Entering)])
    case CallStop(j) => s.(callers := s.callers[j := Calling(Entering)])
    case EnterOnce(p) => SetCall(s, p, InBody).(once := Running(p, 0))
    case PassOnce(p) => SetCall(s, p, Returned)
    case Body => BodyStep(s)
    case WgDone(i) => s.(wg := s.wg - 1, forwarders := s.forwarders[i := Exited], panicked := s.wg - 1 < 0)
    case WaitReturns => s.(closer := Closing)
    case CloseResult => s.(closer := Gone, resultClosed := true, panicked := s.resultClosed)
  }

  /** Before `mergeWatches` runs: nothing is spawned; sources may already hold events. */
  ghost predicate Init(s: State) {
    && (forall w <- s.sources :: w.emitted == w.queue && w.lost == [] && w.stops == 0)
    && s.forwarders == [] && (forall c <- s.callers :: c == NotCalled)
    && s.once == Fresh && s.closer == NotStarted && s.wg == 0
    && !s.doneClosed && !s.resultClosed && !s.panicked && s.delivered == []
  }

  /** `t` is the state after the steps of `run`, all enabled in turn, from `s`. */
  ghost predicate Runs(s: State, run: seq<Step>, t: State)
    decreases |run|
  {
    if run == [] then s == t
    else Enabled(s, run[0]) && Runs(Apply(s, run[0]), run[1..], t)
  }

  // ---------- The invariant ----------

  /** Number of goroutines that are not done, seen from the wait group. */
  function Live(fs: seq<Forwarder>): (n: nat) {
    if fs == [] then 0 else Live(fs[..|fs| - 1]) + if fs[|fs| - 1] == Exited then 0 else 1
  }

  /** The events delivered from source `i`, in order. */
  function From(d: seq<(nat, Event)>, i: nat): seq<Event> {
    if d == [] then []
    else From(d[..|d| - 1], i) + if d[|d| - 1].0 == i then [d[|d| - 1].1] else []
  }

  function Held(s: State, i: nat): seq<Event> {
    if i < |s.forwarders| && s.forwarders[i].Holding? then [s.forwarders[i].event] else []
  }

  /** How many actions of the body of the once were done. */
  function BodyPc(s: State): nat {
    match s.once
    case Fresh => 0
    case Running(_, pc) => pc
    case Finished => |s.sources| + 2
  }

  ghost predicate OnceInv(s: State) {
    && (s.once.Running? ==> s.once.pc <= |s.sources| + 1)
    && (forall p :: CallOf(s, p) == Calling(InBody) <==> s.once.Running? && s.once.owner == p)
    && (forall p :: CallOf(s, p) == Calling(Returned) ==> s.once == Finished)
    && (forall i | 0 <= i < |s.forwarders| :: s.forwarders[i] == Exited ==> s.once == Finished)
    && (s.doneClosed <==> BodyPc(s) > 0)
    && (forall k | 0 <= k < |s.sources| :: s.sources[k].stops == if BodyPc(s) > k + 1 then 1 else 0)
  }

  ghost predicate GroupInv(s: State) {
    && |s.forwarders| <= |s.sources|
    && (s.closer != NotStarted ==> |s.forwarders| == |s.sources|)
    && s.wg == Live(s.forwarders)
    && (s.closer.Closing? || s.closer.Gone? ==> Live(s.forwarders) == 0)
    && (s.resultClosed <==> s.closer == Gone)
    && !s.panicked
  }

  ghost predicate FlowInv(s: State) {
    forall i | 0 <= i < |s.sources| :: SourceFlow(s, i)
  }

  /** Every event of a source is delivered, lost, held or queued, in that order. */
  ghost predicate SourceFlow(s: State, i: nat)
    requires i < |s.sources|
  {
    var w := s.sources[i];
    && w.emitted == From(s.delivered, i) + w.lost + Held(s, i) + w.queue
    && |w.lost| <= 1
    && (w.lost != [] ==> s.doneClosed && i < |s.forwarders| && (s.forwarders[i].Stopping? || s.forwarders[i] == Exited))
  }

  ghost predicate Inv(s: State) {
    GroupInv(s) && OnceInv(s) && FlowInv(s)
  }

  lemma InitInv(s: State)
    requires Init(s)
    ensures Inv(s)
  {
    forall i | 0 <= i < |s.sources| ensures SourceFlow(s, i) {
      assert s.sources[i] in s.sources;
    }
    forall p ensures CallOf(s, p) == NotCalled {
      match p {
        case Fwd(i) =>
        case Ext(j) => if j < |s.callers| { assert s.callers[j] in s.callers; }
      }
    }
    forall k | 0 <= k < |s.sources| ensures s.sources[k].stops == 0 { assert s.sources[k] in s.sources; }
  }

  lemma {:induction false} LiveUpdate(fs: seq<Forwarder>, i: nat, f: Forwarder)
    requires i < |fs|
    ensures Live(fs[i := f]) == Live(fs) - (if fs[i] == Exited then 0 else 1) + (if f == Exited then 0 else 1)
  {
    var gs := fs[i := f];
    if i == |fs| - 1 {
      assert gs[..|gs| - 1] == fs[..|fs| - 1];
    } else {
      LiveUpdate(fs[..|fs| - 1], i, f);
      assert gs[..|gs| - 1] == fs[..|fs| - 1][i := f];
    }
  }

  lemma {:induction false} LiveZero(fs: seq<Forwarder>)
    ensures Live(fs) == 0 <==> forall i | 0 <= i < |fs| :: fs[i] == Exited
  {
    if fs != [] {
      LiveZero(fs[..|fs| - 1]);
      assert forall i | 0 <= i < |fs| - 1 :: fs[i] == fs[..|fs| - 1][i];
    }
  }

  /** A goroutine that is not done keeps the result open. */
  lemma LiveKeepsOpen(s: State, i: nat)
    requires GroupInv(s) && i < |s.forwarders| && s.forwarders[i] != Exited
    ensures !s.resultClosed && s.wg > 0
  {
    LiveZero(s.forwarders);
  }

  lemma GroupReplace(s: State, t: State, i: nat, f: Forwarder)
    requires GroupInv(s) && i < |s.forwarders| && s.forwarders[i] != Exited && f != Exited
    requires t.forwarders == s.forwarders[i := f] && |t.sources| == |s.sources| && t.wg == s.wg
    requires t.closer == s.closer && t.resultClosed == s.resultClosed && !t.panicked
    ensures GroupInv(t)
  {
    LiveUpdate(s.forwarders, i, f);
  }

  lemma GroupStep(s: State, step: Step)
    requires Inv(s) && Enabled(s, step)
    ensures GroupInv(Apply(s, step))
  {
    match step {
      case Receive(i) => GroupReplace(s, Apply(s, step), i, Holding(s.sources[i].queue[0]));
      case EndOfStream(i) => GroupReplace(s, Apply(s, step), i, Stopping(Entering));
      case Deliver(i) => LiveKeepsOpen(s, i); GroupReplace(s, Apply(s, step), i, Receiving);
      case SeeDone(i) => GroupReplace(s, Apply(s, step), i, Stopping(Entering));
      case WgDone(i) => LiveKeepsOpen(s, i); LiveUpdate(s.forwarders, i, Exited);
      case EnterOnce(p) => if p.Fwd? { GroupReplace(s, Apply(s, step), p.i, Stopping(InBody)); }
      case PassOnce(p) => if p.Fwd? { GroupReplace(s, Apply(s, step), p.i, Stopping(Returned)); }
      case Body => GroupBody(s);
      case _ => GroupCloser(s, step);
    }
  }

  lemma GroupBody(s: State)
    requires Inv(s) && Enabled(s, Body)
    ensures GroupInv(BodyStep(s))
  {
    if s.once.pc > |s.sources| && s.once.owner.Fwd? {
      GroupReplace(s, BodyStep(s), s.once.owner.i, Stopping(Returned));
    }
  }

  lemma GroupCloser(s: State, step: Step)
    requires GroupInv(s) && Enabled(s, step)
    requires step.Spawn? || step.StartCloser? || step.Emit? || step.SourceCloses? || step.CallStop?
             || step.WaitReturns? || step.CloseResult?
    ensures GroupInv(Apply(s, step))
  {
    if step.Spawn? { assert Apply(s, step).forwarders[..|s.forwarders|] == s.forwarders; }
  }

  /** A step other than those of the once leaves every call alone, but for a new `Entering`. */
  lemma CallsStep(s: State, step: Step, p: Proc)
    requires Enabled(s, step)
    requires !step.EnterOnce? && !step.PassOnce? && !step.Body?
    ensures CallOf(Apply(s, step), p) in {CallOf(s, p), Calling(Entering), NotCalled}
    ensures CallOf(s, p) == Calling(InBody) ==> CallOf(Apply(s, step), p) == Calling(InBody)
  {
    match p {
      case Fwd(i) =>
      case Ext(j) =>
    }
  }

  lemma OnceStep(s: State, step: Step)
    requires Inv(s) && Enabled(s, step)
    ensures OnceInv(Apply(s, step))
  {
    match step {
      case EnterOnce(p) => OnceEnter(s, p);
      case PassOnce(p) => OncePass(s, p);
      case Body => OnceBody(s);
      case WgDone(i) => OnceExit(s, i);
      case _ =>
        OnceOther(s, step);
    }
  }

  lemma OnceOther(s: State, step: Step)
    requires Inv(s) && Enabled(s, step)
    requires !step.EnterOnce? && !step.PassOnce? && !step.Body? && !step.WgDone?
    ensures OnceInv(Apply(s, step))
  {
    var t := Apply(s, step);
    forall p ensures CallOf(t, p) == Calling(InBody) <==> s.once.Running? && s.once.owner == p
             ensures CallOf(t, p) == Calling(Returned) ==> s.once == Finished
    {
      CallsStep(s, step, p);
    }
    OnceFrame(s, step);
  }

  lemma OnceFrame(s: State, step: Step)
    requires Inv(s) && Enabled(s, step)
    requires !step.EnterOnce? && !step.PassOnce? && !step.Body? && !step.WgDone?
    ensures var t := Apply(s, step);
            && t.once == s.once && t.doneClosed == s.doneClosed && |t.sources| == |s.sources|
            && (forall k | 0 <= k < |s.sources| :: t.sources[k].stops == s.sources[k].stops)
            && (forall i | 0 <= i < |t.forwarders| :: t.forwarders[i] == Exited ==> s.once == Finished)
  {
  }

  lemma OnceEnter(s: State, p: Proc)
    requires Inv(s) && Enabled(s, EnterOnce(p))
    ensures OnceInv(Apply(s, EnterOnce(p)))
  {
    forall q ensures CallOf(Apply(s, EnterOnce(p)), q) == if q == p then Calling(InBody) else CallOf(s, q) {}
  }

  lemma OncePass(s: State, p: Proc)
    requires Inv(s) && Enabled(s, PassOnce(p))
    ensures OnceInv(Apply(s, PassOnce(p)))
  {
    forall q ensures CallOf(Apply(s, PassOnce(p)), q) == if q == p then Calling(Returned) else CallOf(s, q) {}
  }

  lemma OnceBody(s: State)
    requires Inv(s) && Enabled(s, Body)
    ensures OnceInv(BodyStep(s))
  {
    var last := s.once.pc > |s.sources|;
    forall q ensures CallOf(BodyStep(s), q) == if last && q == s.once.owner then Calling(Returned) else CallOf(s, q) {}
  }

  lemma OnceExit(s: State, i: nat)
    requires Inv(s) && Enabled(s, WgDone(i))
    ensures OnceInv(Apply(s, WgDone(i)))
  {
    assert CallOf(s, Fwd(i)) == Calling(Returned);
    forall q ensures CallOf(Apply(s, WgDone(i)), q) == if q == Fwd(i) then NotCalled else CallOf(s, q) {}
  }

  lemma FromSnoc(d: seq<(nat, Event)>, x: (nat, Event), i: nat)
    ensures From(d + [x], i) == From(d, i) + if x.0 == i then [x.1] else []
  {
    assert (d + [x])[..|d|] == d;
  }

  lemma FlowStep(s: State, step: Step)
    requires Inv(s) && Enabled(s, step)
    ensures FlowInv(Apply(s, step))
  {
    var t := Apply(s, step);
    forall i | 0 <= i < |t.sources| ensures SourceFlow(t, i) {
      assert SourceFlow(s, i);
      FlowStepAt(s, step, i);
    }
  }

  lemma FlowStepAt(s: State, step: Step, i: nat)
    requires Inv(s) && Enabled(s, step) && i < |s.sources| && SourceFlow(s, i)
    ensures SourceFlow(Apply(s, step), i)
  {
    match step {
      case Deliver(k) => LiveKeepsOpen(s, k); FlowDeliver(s, k, i);
      case Receive(k) => FlowReceive(s, k, i);
      case Emit(k, e) => FlowEmit(s, k, e, i);
      case SeeDone(k) => FlowSeeDone(s, k, i);
      case _ => FlowFrame(s, step, i);
    }
  }

  lemma FlowDeliver(s: State, k: nat, i: nat)
    requires Enabled(s, Deliver(k)) && !s.resultClosed && i < |s.sources| && SourceFlow(s, i)
    ensures SourceFlow(Apply(s, Deliver(k)), i)
  {
    FromSnoc(s.delivered, (k, s.forwarders[k].event), i);
    if k == i {
      FlowDeliverOwn(s, Apply(s, Deliver(k)), i);
    } else {
      FlowDeliverOther(s, Apply(s, Deliver(k)), i);
    }
  }

  lemma FlowDeliverOther(s: State, t: State, i: nat)
    requires i < |s.sources| && SourceFlow(s, i) && s.doneClosed == t.doneClosed
    requires t.sources == s.sources && From(t.delivered, i) == From(s.delivered, i) + []
    requires |s.forwarders| == |t.forwarders| && (i < |s.forwarders| ==> t.forwarders[i] == s.forwarders[i])
    ensures SourceFlow(t, i)
  {
    assert From(t.delivered, i) == From(s.delivered, i);
    assert Held(t, i) == Held(s, i);
  }

  lemma FlowDeliverOwn(s: State, t: State, i: nat)
    requires i < |s.sources| && SourceFlow(s, i) && i < |s.forwarders| && s.forwarders[i].Holding?
    requires t.sources == s.sources && From(t.delivered, i) == From(s.delivered, i) + Held(s, i)
    requires i < |t.forwarders| && t.forwarders[i] == Receiving
    ensures SourceFlow(t, i)
  {
    MoveHeld(From(s.delivered, i), s.forwarders[i].event, s.sources[i].queue);
  }

  lemma MoveHeld(a: seq<Event>, e: Event, q: seq<Event>)
    ensures a + [] + [e] + q == a + [e] + [] + [] + q
  {
  }

  lemma FlowReceive(s: State, k: nat, i: nat)
    requires Enabled(s, Receive(k)) && i < |s.sources| && SourceFlow(s, i)
    ensures SourceFlow(Apply(s, Receive(k)), i)
  {
    var w := s.sources[i];
    if k == i { assert w.queue == [w.queue[0]] + w.queue[1..]; }
  }

  lemma FlowEmit(s: State, k: nat, e: Event, i: nat)
    requires Enabled(s, Emit(k, e)) && i < |s.sources| && SourceFlow(s, i)
    ensures SourceFlow(Apply(s, Emit(k, e)), i)
  {
    var w, t := s.sources[i], Apply(s, Emit(k, e));
    if k == i {
      assert t.sources[i].emitted == From(s.delivered, i) + w.lost + Held(s, i) + t.sources[i].queue;
    }
  }

  lemma FlowSeeDone(s: State, k: nat, i: nat)
    requires Enabled(s, SeeDone(k)) && i < |s.sources| && SourceFlow(s, i)
    ensures SourceFlow(Apply(s, SeeDone(k)), i)
  {
  }

  lemma FlowFrame(s: State, step: Step, i: nat)
    requires Enabled(s, step) && i < |s.sources| && SourceFlow(s, i)
    requires !step.Deliver? && !step.Receive? && !step.Emit? && !step.SeeDone?
    ensures SourceFlow(Apply(s, step), i)
  {
    SourceFrame(s, step, i);
    ForwarderFrame(s, step, i);
  }

  lemma SourceFrame(s: State, step: Step, i: nat)
    requires Enabled(s, step) && i < |s.sources|
    requires !step.Deliver? && !step.Receive? && !step.Emit? && !step.SeeDone?
    ensures var t := Apply(s, step);
            && t.delivered == s.delivered && |t.sources| == |s.sources| && (s.doneClosed ==> t.doneClosed)
            && t.sources[i].queue == s.sources[i].queue && t.sources[i].emitted == s.sources[i].emitted
            && t.sources[i].lost == s.sources[i].lost
  {
  }

  lemma ForwarderFrame(s: State, step: Step, i: nat)
    requires Enabled(s, step) && i < |s.sources|
    requires !step.Deliver? && !step.Receive? && !step.Emit? && !step.SeeDone?
    ensures var t := Apply(s, step);
            && Held(t, i) == Held(s, i) && |s.forwarders| <= |t.forwarders|
            && (i < |s.forwarders| && (s.forwarders[i].Stopping? || s.forwarders[i] == Exited)
                ==> t.forwarders[i].Stopping? || t.forwarders[i] == Exited)
  {
  }

  lemma StepInv(s: State, step: Step)
    requires Inv(s) && Enabled(s, step)
    ensures Inv(Apply(s, step))
  {
    GroupStep(s, step);
    OnceStep(s, step);
    FlowStep(s, step);
  }

  lemma {:induction false} RunInv(s: State, run: seq<Step>, t: State)
    requires Inv(s) && Runs(s, run, t)
    ensures Inv(t)
    decreases |run|
  {
    if run != [] {
      StepInv(s, run[0]);
      RunInv(Apply(s, run[0]), run[1..], t);
    }
  }

  // ---------- Safety and conservation over every run ----------

  /**
   No run panics. The result channel is closed only after every forwarder has exited and,
   when there are sources, only after done was closed and each source was stopped once.
   */
  lemma Safety(s0: State, run: seq<Step>, s: State)
    requires Init(s0) && Runs(s0, run, s)
    ensures !s.panicked
    ensures forall w <- s.sources :: w.stops <= 1
    ensures s.resultClosed ==> |s.forwarders| == |s.sources| && forall f <- s.forwarders :: f == Exited
    ensures s.resultClosed && |s.sources| > 0 ==> s.doneClosed && forall w <- s.sources :: w.stops == 1
  {
    InitInv(s0);
    RunInv(s0, run, s);
    LiveZero(s.forwarders);
    if s.resultClosed && |s.sources| > 0 {
      assert s.forwarders[0] == Exited;
    }
  }

  /**
   Until done is closed nothing is lost: what a source emitted is what was delivered, then
   what its forwarder holds, then what is queued. In every state what was delivered is a
   prefix of what was emitted, and at most one event was dropped by the forwarder.
   */
  lemma Conservation(s0: State, run: seq<Step>, s: State, i: nat)
    requires Init(s0) && Runs(s0, run, s) && i < |s.sources|
    ensures !s.doneClosed ==> s.sources[i].emitted == From(s.delivered, i) + Held(s, i) + s.sources[i].queue
    ensures From(s.delivered, i) <= s.sources[i].emitted
    ensures |s.sources[i].emitted| <= |From(s.delivered, i)| + 1 + |s.sources[i].queue|
  {
    InitInv(s0);
    RunInv(s0, run, s);
    assert SourceFlow(s, i);
    assert From(s.delivered, i) + [] == From(s.delivered, i);
  }

  // ---------- Shutdown ----------

  /** A step of the merged watch itself, or the closing of a source that was stopped. */
  predicate Internal(s: State, step: Step) {
    match step
    case Emit(_, _) => false
    case Deliver(_) => false
    case CallStop(_) => false
    case SourceCloses(i) => i < |s.sources| && s.sources[i].stops > 0
    case _ => true
  }

  /** Some step needs neither the consumer nor the environment. */
  ghost predicate CanStep(s: State) {
    exists step :: Internal(s, step) && Enabled(s, step)
  }

  /** Nobody has called `Stop`, and every forwarder waits for an event or for the consumer. */
  predicate Blocked(s: State) {
    && 0 < |s.sources| == |s.forwarders| && s.closer == Waiting && s.once == Fresh
    && (forall c <- s.callers :: c == NotCalled)
    && forall i | 0 <= i < |s.forwarders| ::
         s.forwarders[i].Holding? || (s.forwarders[i] == Receiving && s.sources[i].queue == [] && !s.sources[i].closed)
  }

  /**
   Without the help of the consumer or of the environment, a merged watch that has not
   closed its result can take a step now exactly when it is not `Blocked`.
   */
  lemma ProgressExactly(s: State)
    requires Inv(s) && !s.resultClosed
    ensures CanStep(s) <==> !Blocked(s)
  {
    LiveZero(s.forwarders);
    if Blocked(s) {
      forall step | Internal(s, step) && Enabled(s, step) ensures false {
        BlockedHasNoStep(s, step);
      }
    } else {
      var step := NextStep(s);
    }
  }

  lemma BlockedHasNoStep(s: State, step: Step)
    requires Inv(s) && Blocked(s)
    ensures !(Internal(s, step) && Enabled(s, step))
  {
    LiveZero(s.forwarders);
    assert s.forwarders[0] != Exited;
    if step.EnterOnce? && step.p.Ext? && step.p.j < |s.callers| {
      assert s.callers[step.p.j] in s.callers;
    }
  }

  /** The step that an unblocked merged watch can take. */
  lemma NextStep(s: State) returns (step: Step)
    requires Inv(s) && !s.resultClosed && !Blocked(s)
    ensures Internal(s, step) && Enabled(s, step)
  {
    LiveZero(s.forwarders);
    if |s.forwarders| < |s.sources| { return Spawn; }
    if s.closer == NotStarted { return StartCloser; }
    if s.closer == Closing { return CloseResult; }
    if s.wg == 0 { return WaitReturns; }
    if s.once.Running? {
      assert CallOf(s, s.once.owner) == Calling(InBody);
      return Body;
    }
    if s.once == Finished {
      var i :| 0 <= i < |s.forwarders| && s.forwarders[i] != Exited;
      assert s.sources[i].stops == 1;
      assert CallOf(s, Fwd(i)) != Calling(InBody);
      match s.forwarders[i] {
        case Receiving =>
          var w := s.sources[i];
          return if w.queue != [] then Receive(i) else if w.closed then EndOfStream(i) else SourceCloses(i);
        case Holding(_) => return SeeDone(i);
        case Stopping(call) => return if call == Entering then PassOnce(Fwd(i)) else WgDone(i);
      }
    }
    step := FirstStep(s);
  }

  /** The case of `NextStep` where nobody has entered the once yet. */
  lemma FirstStep(s: State) returns (step: Step)
    requires Inv(s) && !s.resultClosed && !Blocked(s)
    requires s.once == Fresh && |s.forwarders| == |s.sources| && s.closer == Waiting && s.wg > 0
    ensures Internal(s, step) && Enabled(s, step)
  {
    if exists c <- s.callers :: c != NotCalled {
      var j :| 0 <= j < |s.callers| && s.callers[j] != NotCalled;
      assert CallOf(s, Ext(j)) == s.callers[j];
      assert CallOf(s, Ext(j)) != Calling(InBody) && CallOf(s, Ext(j)) != Calling(Returned);
      assert s.callers[j].call == Entering;
      return EnterOnce(Ext(j));
    }
    LiveZero(s.forwarders);
    var i :| 0 <= i < |s.forwarders| && !s.forwarders[i].Holding?
             && !(s.forwarders[i] == Receiving && s.sources[i].queue == [] && !s.sources[i].closed);
    match s.forwarders[i] {
      case Receiving => return if s.sources[i].queue != [] then Receive(i) else EndOfStream(i);
      case Stopping(call) =>
        assert CallOf(s, Fwd(i)) == Calling(call);
        assert CallOf(s, Fwd(i)) != Calling(InBody) && CallOf(s, Fwd(i)) != Calling(Returned);
        assert call == Entering;
        return EnterOnce(Fwd(i));
    }
  }

  /** Once `Stop` was called or done is closed, no state is stuck, even without a consumer. */
  lemma StoppingIsNeverStuck(s: State)
    requires Inv(s) && !s.resultClosed
    requires s.doneClosed || exists p :: CallOf(s, p).Calling?
    ensures CanStep(s)
  {
    if !s.doneClosed {
      var p :| CallOf(s, p).Calling?;
      if p.Ext? { assert s.callers[p.j] in s.callers; }
    }
    ProgressExactly(s);
  }

  /** A closed source blocks the watch only while its forwarder offers an event to the consumer. */
  lemma ClosedSourceNeedsReader(s: State, i: nat)
    requires Inv(s) && !s.resultClosed && Blocked(s)
    requires i < |s.sources| && s.sources[i].closed
    ensures Enabled(s, Deliver(i))
  {
  }

  /** And it does so: a source closes, yet with no reader and no `Stop` the watch never closes. */
  lemma ClosedSourceCanBlock(e: Event) returns (s0: State, run: seq<Step>, s: State)
    ensures Init(s0) && Runs(s0, run, s)
    ensures |s.sources| == 1 && s.sources[0].closed && Blocked(s) && !s.resultClosed
  {
    s0 := State([Source([], false, 0, [], [])], [], [], Fresh, NotStarted, 0, false, false, false, []);
    var s1 := Apply(s0, Spawn);
    var s2 := Apply(s1, StartCloser);
    var s3 := Apply(s2, Emit(0, e));
    var s4 := Apply(s3, Receive(0));
    s := Apply(s4, SourceCloses(0));
    run := Prepend(s4, SourceCloses(0), [], s);
    run := Prepend(s3, Receive(0), run, s);
    run := Prepend(s2, Emit(0, e), run, s);
    run := Prepend(s1, StartCloser, run, s);
    run := Prepend(s0, Spawn, run, s);
  }

  lemma Prepend(s: State, step: Step, rest: seq<Step>, t: State) returns (run: seq<Step>)
    requires Enabled(s, step) && Runs(Apply(s, step), rest, t)
    ensures Runs(s, run, t)
  {
    run := [step] + rest;
    assert run[1..] == rest;
  }

  // ---------- The progress measure ----------

  function CallRank(c: StopCall): nat {
    match c case Entering => 3 case InBody => 2 case Returned => 1
  }

  function ForwarderRank(f: Forwarder): nat {
    match f
    case Holding(_) => 5
    case Receiving => 4
    case Stopping(c) => CallRank(c)
    case Exited => 0
  }

  function CallerRank(c: Caller): nat {
    if c.Calling? then CallRank(c.call) else 4
  }

  function SourceRank(w: Source): nat {
    2 * |w.queue| + if w.closed then 0 else 1
  }

  predicate Ranked(s: State) {
    |s.forwarders| <= |s.sources| && (s.once.Running? ==> s.once.pc <= |s.sources| + 1)
  }

  function OnceRank(s: State): nat
    requires Ranked(s)
  {
    match s.once
    case Fresh => |s.sources| + 3
    case Running(_, pc) => |s.sources| + 2 - pc
    case Finished => 0
  }

  function CloserRank(c: Closer): nat {
    match c case NotStarted => 3 case Waiting => 2 case Closing => 1 case Gone => 0
  }

  function Sum<T>(xs: seq<T>, rank: T -> nat): nat {
    if xs == [] then 0 else Sum(xs[..|xs| - 1], rank) + rank(xs[|xs| - 1])
  }

  lemma {:induction false} SumUpdate<T>(xs: seq<T>, rank: T -> nat, i: nat, x: T)
    requires i < |xs|
    ensures Sum(xs[i := x], rank) + rank(xs[i]) == Sum(xs, rank) + rank(x)
  {
    var ys := xs[i := x];
    if i == |xs| - 1 {
      assert ys[..|ys| - 1] == xs[..|xs| - 1];
    } else {
      SumUpdate(xs[..|xs| - 1], rank, i, x);
      assert ys[..|ys| - 1] == xs[..|xs| - 1][i := x];
    }
  }

  lemma SumSnoc<T>(xs: seq<T>, rank: T -> nat, x: T)
    ensures Sum(xs + [x], rank) == Sum(xs, rank) + rank(x)
  {
    assert (xs + [x])[..|xs|] == xs;
  }

  function Measure(s: State): nat
    requires Ranked(s)
  {
    5 * (|s.sources| - |s.forwarders|) + Sum(s.sources, SourceRank) + Sum(s.forwarders, ForwarderRank)
    + Sum(s.callers, CallerRank) + OnceRank(s) + CloserRank(s.closer)
  }

  lemma SourceSum(s: State, i: nat, w: Source)
    requires i < |s.sources|
    ensures Sum(s.sources[i := w], SourceRank) + SourceRank(s.sources[i]) == Sum(s.sources, SourceRank) + SourceRank(w)
  {
    SumUpdate(s.sources, SourceRank, i, w);
  }

  lemma ForwarderSum(s: State, i: nat, f: Forwarder)
    requires i < |s.forwarders|
    ensures Sum(s.forwarders[i := f], ForwarderRank) + ForwarderRank(s.forwarders[i])
            == Sum(s.forwarders, ForwarderRank) + ForwarderRank(f)
  {
    SumUpdate(s.forwarders, ForwarderRank, i, f);
  }

  lemma SetCallSum(s: State, p: Proc, c: StopCall)
    requires CallOf(s, p).Calling?
    ensures var t := SetCall(s, p, c);
            Sum(t.forwarders, ForwarderRank) + Sum(t.callers, CallerRank) + CallRank(CallOf(s, p).call)
            == Sum(s.forwarders, ForwarderRank) + Sum(s.callers, CallerRank) + CallRank(c)
  {
    match p {
      case Fwd(i) => ForwarderSum(s, i, Stopping(c));
      case Ext(j) => SumUpdate(s.callers, CallerRank, j, Calling(c));
    }
  }

  /** Every step but an emission makes the measure smaller; an emission adds two. */
  lemma MeasureStep(s: State, step: Step)
    requires Inv(s) && Enabled(s, step)
    ensures Ranked(Apply(s, step))
    ensures step.Emit? ==> Measure(Apply(s, step)) == Measure(s) + 2
    ensures !step.Emit? ==> Measure(Apply(s, step)) < Measure(s)
  {
    match step {
      case Emit(i, e) => EmitMeasure(s, i, e);
      case SourceCloses(i) => OutsideMeasure(s, step);
      case CallStop(j) => OutsideMeasure(s, step);
      case EnterOnce(p) => OnceMeasure(s, step);
      case PassOnce(p) => OnceMeasure(s, step);
      case Body => BodyMeasure(s);
      case Spawn => CloserMeasure(s, step);
      case StartCloser => CloserMeasure(s, step);
      case WaitReturns => CloserMeasure(s, step);
      case CloseResult => CloserMeasure(s, step);
      case _ => LoopMeasure(s, step);
    }
  }

  lemma OutsideMeasure(s: State, step: Step)
    requires Inv(s) && Enabled(s, step) && (step.SourceCloses? || step.CallStop?)
    ensures Ranked(Apply(s, step)) && Measure(Apply(s, step)) < Measure(s)
  {
    match step {
      case SourceCloses(i) => SourceSum(s, i, s.sources[i].(closed := true));
      case CallStop(j) => SumUpdate(s.callers, CallerRank, j, Calling(Entering));
    }
  }

  lemma OnceMeasure(s: State, step: Step)
    requires Inv(s) && Enabled(s, step) && (step.EnterOnce? || step.PassOnce?)
    ensures Ranked(Apply(s, step)) && Measure(Apply(s, step)) < Measure(s)
  {
    SetCallSum(s, step.p, if step.EnterOnce? then InBody else Returned);
  }

  lemma EmitMeasure(s: State, i: nat, e: Event)
    requires Inv(s) && Enabled(s, Emit(i, e))
    ensures Ranked(Apply(s, Emit(i, e))) && Measure(Apply(s, Emit(i, e))) == Measure(s) + 2
  {
    SourceSum(s, i, Apply(s, Emit(i, e)).sources[i]);
  }

  lemma CloserMeasure(s: State, step: Step)
    requires Inv(s) && Enabled(s, step) 
    requires step.Spawn? || step.StartCloser? || step.WaitReturns? || step.CloseResult?
    ensures Ranked(Apply(s, step)) && Measure(Apply(s, step)) < Measure(s)
  {
    SumSnoc(s.forwarders, ForwarderRank, Receiving);
  }

  lemma LoopMeasure(s: State, step: Step)
    requires Inv(s) && Enabled(s, step)
    requires step.Receive? || step.EndOfStream? || step.Deliver? || step.SeeDone? || step.WgDone?
    ensures Ranked(Apply(s, step)) && Measure(Apply(s, step)) < Measure(s)
  {
    var t, i := Apply(s, step), step.i;
    LiveKeepsOpen(s, i);
    assert t.sources == s.sources[i := t.sources[i]] && t.forwarders == s.forwarders[i := t.forwarders[i]];
    assert SourceRank(t.sources[i]) + ForwarderRank(t.forwarders[i])
           < SourceRank(s.sources[i]) + ForwarderRank(s.forwarders[i]);
    ForwarderSum(s, i, t.forwarders[i]);
    SourceSum(s, i, t.sources[i]);
  }

  lemma BodyMeasure(s: State)
    requires Inv(s) && Enabled(s, Body)
    ensures Ranked(BodyStep(s)) && Measure(BodyStep(s)) < Measure(s)
  {
    var t, pc := BodyStep(s), s.once.pc;
    if 0 < pc <= |s.sources| {
      SourceSum(s, pc - 1, t.sources[pc - 1]);
    } else if pc > |s.sources| {
      SetCallSum(s, s.once.owner, Returned);
    }
  }

  function Emissions(run: seq<Step>): (n: nat) {
    if run == [] then 0 else (if run[0].Emit? then 1 else 0) + Emissions(run[1..])
  }

  /** Whatever the interleaving, a run with finitely many emissions is bounded. */
  lemma {:induction false} RunBound(s: State, run: seq<Step>, t: State)
    requires Inv(s) && Runs(s, run, t)
    ensures |run| <= Measure(s) + 3 * Emissions(run)
    decreases |run|
  {
    if run != [] {
      MeasureStep(s, run[0]);
      StepInv(s, run[0]);
      RunBound(Apply(s, run[0]), run[1..], t);
    }
  }

  /**
   Shutdown completes: from a state where `Stop` was called or done is closed, every run is
   bounded by the events that sources still emit, and as long as it has not closed the result
   it can go on by an internal step. The consumer need not read.
   */
  lemma ShutdownCompletes(s: State, run: seq<Step>, t: State)
    requires Inv(s) && Runs(s, run, t)
    requires s.doneClosed || exists p :: CallOf(s, p).Calling?
    ensures |run| <= Measure(s) + 3 * Emissions(run)
    ensures t.resultClosed || CanStep(t)
  {
    RunBound(s, run, t);
    RunInv(s, run, t);
    StoppingStays(s, run, t);
    if !t.resultClosed { StoppingIsNeverStuck(t); }
  }

  lemma {:induction false} StoppingStays(s: State, run: seq<Step>, t: State)
    requires Inv(s) && Runs(s, run, t)
    requires s.doneClosed || exists p :: CallOf(s, p).Calling?
    ensures t.doneClosed || exists p :: CallOf(t, p).Calling?
    decreases |run|
  {
    if run != [] {
      var u := Apply(s, run[0]);
      StepInv(s, run[0]);
      if !s.doneClosed {
        var p :| CallOf(s, p).Calling?;
        assert u.doneClosed || CallOf(u, p).Calling?;
      }
      StoppingStays(u, run[1..], t);
    }
  }

  // ---------- When the watch closes by itself ----------

  /** A run of internal steps: the consumer does not read, and nobody calls `Stop`. */
  ghost predicate RunsInternally(s: State, run: seq<Step>, t: State)
    decreases |run|
  {
    if run == [] then s == t
    else Internal(s, run[0]) && Enabled(s, run[0]) && RunsInternally(Apply(s, run[0]), run[1..], t)
  }

  ghost predicate CanClose(s: State) {
    exists run, t :: RunsInternally(s, run, t) && t.resultClosed
  }

  /** Whatever internal steps are taken, the result can still be closed by more of them. */
  ghost predicate ClosesByItself(s: State) {
    forall run, t :: RunsInternally(s, run, t) ==> CanClose(t)
  }

  /**
   Nobody has called `Stop`, and the forwarder of every source either holds an event, or will
   take one from the queue and then hold it, or waits for a source that is open.
   */
  predicate StaysOpen(s: State) {
    && s.sources != [] && s.once == Fresh
    && (forall j | 0 <= j < |s.callers| :: s.callers[j] == NotCalled)
    && (forall i | 0 <= i < |s.forwarders| :: s.forwarders[i].Holding? || s.forwarders[i].Receiving?)
    && (forall i | 0 <= i < |s.sources| :: Offers(s, i) || !s.sources[i].closed)
  }

  predicate Offers(s: State, i: nat)
    requires i < |s.sources|
  {
    (i < |s.forwarders| && s.forwarders[i].Holding?) || s.sources[i].queue != []
  }

  /** While every forwarder is at work the closer waits. */
  lemma OpenIsNotClosed(s: State)
    requires Inv(s) && StaysOpen(s)
    ensures !s.resultClosed && (s.closer == Waiting ==> s.wg > 0) && s.closer != Closing
    ensures forall i | 0 <= i < |s.sources| :: s.sources[i].stops == 0
  {
    LiveZero(s.forwarders);
    assert |s.forwarders| > 0 ==> s.forwarders[0] != Exited;
  }

  lemma OpenStep(s: State, step: Step)
    requires Inv(s) && StaysOpen(s) && Internal(s, step) && Enabled(s, step)
    ensures StaysOpen(Apply(s, step))
  {
    OpenIsNotClosed(s);
  }

  /** A watch that stays open after an internal step did so before. */
  lemma ClosingStep(s: State, step: Step)
    requires Inv(s) && Internal(s, step) && Enabled(s, step)
    ensures StaysOpen(Apply(s, step)) ==> StaysOpen(s)
  {
    var t := Apply(s, step);
    match step {
      case Spawn => OpenBefore(s, t);
      case StartCloser => OpenBefore(s, t);
      case WaitReturns => OpenBefore(s, t);
      case CloseResult => OpenBefore(s, t);
      case Receive(i) => OpenBefore(s, t);
      case EndOfStream(i) => assert t.forwarders[i] == Stopping(Entering);
      case SeeDone(i) => assert t.forwarders[i] == Stopping(Entering);
      case WgDone(i) => assert t.forwarders[i] == Exited;
      case EnterOnce(p) =>
      case PassOnce(p) =>
      case Body =>
      case SourceCloses(i) => assert BodyPc(s) > 0;
    }
  }

  lemma OpenBefore(s: State, t: State)
    requires t.once == s.once && t.callers == s.callers
    requires |t.sources| == |s.sources| && |s.forwarders| <= |t.forwarders|
    requires forall i | 0 <= i < |s.forwarders| ::
               t.forwarders[i] == s.forwarders[i] || (s.forwarders[i].Receiving? && t.forwarders[i].Holding?)
    requires forall i | |s.forwarders| <= i < |t.forwarders| :: t.forwarders[i].Receiving?
    requires forall i | 0 <= i < |s.sources| ::
      t.sources[i].closed == s.sources[i].closed && (Offers(t, i) ==> Offers(s, i))
    ensures StaysOpen(t) ==> StaysOpen(s)
  {
    if StaysOpen(t) {
      forall i | 0 <= i < |s.forwarders| ensures s.forwarders[i].Holding? || s.forwarders[i].Receiving? {
        assert t.forwarders[i].Holding? || t.forwarders[i].Receiving?;
      }
      forall i | 0 <= i < |s.sources| ensures Offers(s, i) || !s.sources[i].closed {
        assert Offers(t, i) || !t.sources[i].closed;
      }
    }
  }

  /** A watch that is not closed and does not stay open can step. */
  lemma NotOpenCanStep(s: State)
    requires Inv(s) && !StaysOpen(s) && !s.resultClosed
    ensures CanStep(s)
  {
    hide Inv, CanStep;
    BlockedStaysOpen(s);
    ProgressExactly(s);
  }

  lemma BlockedStaysOpen(s: State)
    ensures Blocked(s) ==> StaysOpen(s)
  {
    if Blocked(s) {
      assert forall j | 0 <= j < |s.callers| :: s.callers[j] in s.callers;
    }
  }

  lemma {:induction false} InternalRunKeeps(s: State, run: seq<Step>, t: State)
    requires Inv(s) && RunsInternally(s, run, t)
    ensures Inv(t) && (StaysOpen(s) <==> StaysOpen(t))
    decreases |run|
  {
    hide Inv, StaysOpen, Apply;
    if run != [] {
      StepInv(s, run[0]);
      if StaysOpen(s) { OpenStep(s, run[0]); }
      if StaysOpen(Apply(s, run[0])) { ClosingStep(s, run[0]); }
      InternalRunKeeps(Apply(s, run[0]), run[1..], t);
    }
  }

  /** The steps to the end of a watch that does not stay open. */
  lemma {:induction false} CloseUp(s: State) returns (run: seq<Step>, t: State)
    requires Inv(s) && Ranked(s) && !StaysOpen(s)
    ensures RunsInternally(s, run, t) && t.resultClosed
    decreases Measure(s)
  {
    hide Inv, StaysOpen, Apply, Enabled, Internal, Measure, Ranked;
    if s.resultClosed {
      run, t := [], s;
    } else {
      NotOpenCanStep(s);
      var step :| Internal(s, step) && Enabled(s, step);
      StepInv(s, step);
      InternalLowers(s, step);
      if StaysOpen(Apply(s, step)) { ClosingStep(s, step); }
      var rest: seq<Step>;
      rest, t := CloseUp(Apply(s, step));
      run := [step] + rest;
      assert run[1..] == rest;
    }
  }

  lemma InternalLowers(s: State, step: Step)
    requires Inv(s) && Internal(s, step) && Enabled(s, step)
    ensures Ranked(s) && Ranked(Apply(s, step)) && Measure(Apply(s, step)) < Measure(s)
  {
    MeasureStep(s, step);
  }

  lemma InvIsRanked(s: State)
    requires Inv(s)
    ensures Ranked(s)
  {
  }

  /**
   Without a reader and without a call of `Stop`, a watch closes its result, whatever
   internal steps it has taken, exactly when it does not stay open: some source is closed
   with nothing queued and no event held, or a `Stop` is under way.
   */
  lemma ClosesExactly(s: State)
    requires Inv(s)
    ensures ClosesByItself(s) <==> !StaysOpen(s)
    ensures CanClose(s) <==> !StaysOpen(s)
  {
    hide Inv, StaysOpen, Ranked;
    if StaysOpen(s) {
      forall run, t | RunsInternally(s, run, t) ensures !t.resultClosed {
        InternalRunKeeps(s, run, t);
        OpenIsNotClosed(t);
      }
      assert RunsInternally(s, [], s);
    } else {
      forall run, t | RunsInternally(s, run, t) ensures CanClose(t) {
        InternalRunKeeps(s, run, t);
        InvIsRanked(t);
        var more, u := CloseUp(t);
      }
      assert RunsInternally(s, [], s);
    }
  }
}
