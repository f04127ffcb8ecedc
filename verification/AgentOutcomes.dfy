/** What the callers of a session get, told by the steps that led there. */
module AgentOutcomes {
  import opened Wrappers
  import opened AgentConnection
  import opened AgentHub

  // ----- A session replayed from its steps -----

  predicate IsReplay(steps: seq<Step>)
    decreases |steps|, 0
  {
    steps == [] || (IsReplay(steps[..|steps| - 1]) && Enabled(Replay(steps[..|steps| - 1]), steps[|steps| - 1]))
  }

  function Replay(steps: seq<Step>): Session
    requires IsReplay(steps)
    decreases |steps|, 1
  {
    if steps == [] then FRESH_SESSION else Next(Replay(steps[..|steps| - 1]), steps[|steps| - 1])
  }

  // ----- Why a call ended the way it did -----

  /** Call k asked with the answer's id, and the answer was delivered after that. */
  ghost predicate DeliveredTo(steps: seq<Step>, k: CallId, r: Response) {
    exists i, j :: 0 <= i < j < |steps| && steps[i] == Begin(k, r.requestId) && steps[j] == Deliver(r)
  }

  /** The steps that let call k end with the outcome. */
  ghost predicate Explains(steps: seq<Step>, k: CallId, o: Outcome) {
    match o
    case Answer(r) => DeliveredTo(steps, k, r) && TakeAnswer(k) in steps
    case SendFailed => Write(k, false) in steps
    case Cancelled => SeeCancel(k) in steps
    case ConnectionClosed => Signal in steps && (SeeClosed(k) in steps || (TakeAnswer(k) in steps && Sweep in steps))
  }

  ghost predicate PhaseExplained(steps: seq<Step>, k: CallId, phase: Phase) {
    match phase
    case Registered => true
    case Waiting => Write(k, true) in steps
    case Leaving(o) => Explains(steps, k, o)
    case Returned(o) => Explains(steps, k, o) && Leave(k) in steps
  }

  ghost predicate StageExplained(steps: seq<Step>, stage: CloseStage) {
    && (stage != Open ==> Signal in steps)
    && (stage == Swept ==> Sweep in steps)
  }

  /** Everything in the session goes back to a step. */
  ghost predicate Explained(s: Session, steps: seq<Step>) {
    && StageExplained(steps, s.stage)
    && (forall id :: id in s.pending ==> Begin(s.pending[id], id) in steps)
    && (forall k :: k in s.channels ==>
          && (s.channels[k].buffered.Some? ==> DeliveredTo(steps, k, s.channels[k].buffered.value))
          && (s.channels[k].closed ==> Signal in steps && Sweep in steps))
    && (forall k :: k in s.calls ==> PhaseExplained(steps, k, s.calls[k].phase))
  }

  lemma DeliveredStays(steps: seq<Step>, step: Step, k: CallId, r: Response)
    requires DeliveredTo(steps, k, r)
    ensures DeliveredTo(steps + [step], k, r)
  {
    var i, j :| 0 <= i < j < |steps| && steps[i] == Begin(k, r.requestId) && steps[j] == Deliver(r);
    var longer := steps + [step];
    assert longer[i] == steps[i] && longer[j] == steps[j];
  }

  lemma DeliveredNow(steps: seq<Step>, k: CallId, r: Response)
    requires Begin(k, r.requestId) in steps
    ensures DeliveredTo(steps + [Deliver(r)], k, r)
  {
    var i :| 0 <= i < |steps| && steps[i] == Begin(k, r.requestId);
    var longer := steps + [Deliver(r)];
    assert longer[i] == steps[i] && longer[|steps|] == Deliver(r);
  }

  lemma PhaseStays(steps: seq<Step>, step: Step, k: CallId, phase: Phase)
    requires PhaseExplained(steps, k, phase)
    ensures PhaseExplained(steps + [step], k, phase)
  {
    if phase.Leaving? && phase.outcome.Answer? {
      DeliveredStays(steps, step, k, phase.outcome.response);
    }
    if phase.Returned? && phase.outcome.Answer? {
      DeliveredStays(steps, step, k, phase.outcome.response);
    }
  }

  lemma ExplainedStays(s: Session, steps: seq<Step>, step: Step)
    requires Explained(s, steps)
    ensures Explained(s, steps + [step])
  {
    forall k | k in s.calls ensures PhaseExplained(steps + [step], k, s.calls[k].phase) {
      PhaseStays(steps, step, k, s.calls[k].phase);
    }
    forall k | k in s.channels && s.channels[k].buffered.Some?
      ensures DeliveredTo(steps + [step], k, s.channels[k].buffered.value)
    {
      DeliveredStays(steps, step, k, s.channels[k].buffered.value);
    }
  }

  lemma PhaseChanges(s: Session, steps: seq<Step>, k: CallId, phase: Phase)
    requires Explained(s, steps) && k in s.calls && PhaseExplained(steps, k, phase)
    ensures Explained(WithPhase(s, k, phase), steps)
  {
    hide DeliveredTo, PhaseExplained, StageExplained;
  }

  lemma SlotChanges(s: Session, steps: seq<Step>, k: CallId, slot: Option<Response>)
    requires Explained(s, steps) && k in s.channels && (slot.Some? ==> DeliveredTo(steps, k, slot.value))
    ensures Explained(s.(channels := s.channels[k := s.channels[k].(buffered := slot)]), steps)
  {
    hide DeliveredTo, PhaseExplained, StageExplained;
  }

  /** Taking an answer, when the step is already among those told. */
  lemma ExplainedTake(s: Session, steps: seq<Step>, k: CallId)
    requires Explained(s, steps) && Enabled(s, TakeAnswer(k)) && TakeAnswer(k) in steps
    ensures Explained(Next(s, TakeAnswer(k)), steps)
  {
    hide DeliveredTo;
    match s.channels[k].buffered
    case Some(r) =>
      assert PhaseExplained(steps, k, Leaving(Answer(r)));
      hide Explained, PhaseExplained;
      PhaseChanges(s, steps, k, Leaving(Answer(r)));
      SlotChanges(WithPhase(s, k, Leaving(Answer(r))), steps, k, None);
    case None =>
      assert PhaseExplained(steps, k, Leaving(ConnectionClosed));
      hide Explained, PhaseExplained;
      PhaseChanges(s, steps, k, Leaving(ConnectionClosed));
  }

  lemma ExplainedLeave(s: Session, steps: seq<Step>, k: CallId)
    requires Explained(s, steps) && Enabled(s, Leave(k)) && Leave(k) in steps
    ensures Explained(Next(s, Leave(k)), steps)
  {
    var o := s.calls[k].phase.outcome;
    assert PhaseExplained(steps, k, s.calls[k].phase);
    assert PhaseExplained(steps, k, Returned(o));
    PhaseChanges(s, steps, k, Returned(o));
    hide PhaseExplained, StageExplained, DeliveredTo;
  }

  lemma ExplainedDeliver(s: Session, steps: seq<Step>, r: Response)
    requires Explained(s, steps) && Enabled(s, Deliver(r))
    requires r.requestId in s.pending ==> DeliveredTo(steps, s.pending[r.requestId], r)
    ensures Explained(Next(s, Deliver(r)), steps)
  {
    hide DeliveredTo, PhaseExplained, StageExplained;
  }

  lemma ExplainedBegin(s: Session, steps: seq<Step>, k: CallId, id: RequestId)
    requires Explained(s, steps) && Enabled(s, Begin(k, id)) && Begin(k, id) in steps
    ensures Explained(Next(s, Begin(k, id)), steps)
  {
    hide DeliveredTo, StageExplained;
  }

  lemma ExplainedSweep(s: Session, steps: seq<Step>)
    requires Explained(s, steps) && Enabled(s, Sweep) && Sweep in steps
    ensures Explained(Next(s, Sweep), steps)
  {
    hide DeliveredTo, PhaseExplained;
  }

  /** Every step keeps the explanation of the session. */
  lemma ExplainedStep(s: Session, steps: seq<Step>, step: Step)
    requires Explained(s, steps) && Enabled(s, step)
    ensures Explained(Next(s, step), steps + [step])
  {
    ExplainedStays(s, steps, step);
    var longer := steps + [step];
    assert longer[|steps|] == step;
    assert step.Deliver? && step.response.requestId in s.pending ==>
        Begin(s.pending[step.response.requestId], step.response.requestId) in steps;
    assert s.stage != Open ==> Signal in longer;
    hide DeliveredTo, PhaseExplained, StageExplained, Explained;
    match step
    case Begin(k, id) => ExplainedBegin(s, longer, k, id);
    case Write(k, ok) => CallStep(s, longer, k, if ok then Waiting else Leaving(SendFailed));
    case TakeAnswer(k) => ExplainedTake(s, longer, k);
    case SeeCancel(k) => CallStep(s, longer, k, Leaving(Cancelled));
    case SeeClosed(k) => CallStep(s, longer, k, Leaving(ConnectionClosed));
    case Leave(k) => ExplainedLeave(s, longer, k);
    case Deliver(r) =>
      if r.requestId in s.pending {
        DeliveredNow(steps, s.pending[r.requestId], r);
      }
      ExplainedDeliver(s, longer, r);
    case Signal => StageChanges(s, longer, Signalled);
    case Unregister => StageChanges(s, longer, Unregistered);
    case Sweep => ExplainedSweep(s, longer);
  }

  lemma CallStep(s: Session, steps: seq<Step>, k: CallId, phase: Phase)
    requires Explained(s, steps) && k in s.calls
    requires || (phase == Waiting && Write(k, true) in steps)
             || (phase == Leaving(SendFailed) && Write(k, false) in steps)
             || (phase == Leaving(Cancelled) && SeeCancel(k) in steps)
             || (phase == Leaving(ConnectionClosed) && SeeClosed(k) in steps && Signal in steps)
    ensures Explained(WithPhase(s, k, phase), steps)
  {
    assert PhaseExplained(steps, k, phase);
    hide Explained, PhaseExplained;
    PhaseChanges(s, steps, k, phase);
  }

  lemma StageChanges(s: Session, steps: seq<Step>, stage: CloseStage)
    requires Explained(s, steps) && Signal in steps && stage != Swept
    ensures Explained(s.(stage := stage), steps)
  {
    hide DeliveredTo, PhaseExplained;
  }

  lemma {:induction false} ReplayExplained(steps: seq<Step>)
    requires IsReplay(steps)
    ensures Explained(Replay(steps), steps)
    decreases |steps|
  {
    if steps != [] {
      var earlier, step := steps[..|steps| - 1], steps[|steps| - 1];
      ReplayExplained(earlier);
      assert steps == earlier + [step];
      hide Explained, Enabled, Next;
      ExplainedStep(Replay(earlier), earlier, step);
    }
  }

  // ----- What a step does for its call -----

  /** How call k leaves when it is the one to act. */
  function Exit(s: Session, step: Step, k: CallId): Option<Outcome>
    requires Enabled(s, step)
  {
    match step
    case Write(l, ok) => if l == k && !ok then Some(SendFailed) else None
    case SeeCancel(l) => if l == k then Some(Cancelled) else None
    case SeeClosed(l) => if l == k then Some(ConnectionClosed) else None
    case TakeAnswer(l) =>
      if l != k then None
      else if s.channels[k].buffered.Some? then Some(Answer(s.channels[k].buffered.value))
      else Some(ConnectionClosed)
    case _ => None
  }

  predicate HasLeft(s: Session, k: CallId, o: Outcome) {
    k in s.calls && (s.calls[k].phase == Leaving(o) || s.calls[k].phase == Returned(o))
  }

  /** The slot of call k holds r. */
  predicate Holds(s: Session, k: CallId, r: Response) {
    k in s.channels && s.channels[k].buffered == Some(r)
  }

  lemma ExitLeaves(s: Session, step: Step, k: CallId)
    requires Enabled(s, step) && Exit(s, step, k).Some?
    ensures HasLeft(Next(s, step), k, Exit(s, step, k).value)
  {
  }

  /** An answer to a pending request with a free slot is what the slot then holds. */
  lemma DeliverFills(s: Session, r: Response, k: CallId)
    requires Enabled(s, Deliver(r)) && r.requestId in s.pending && s.pending[r.requestId] == k
    requires s.channels[k] == Channel(None, false)
    ensures Holds(Next(s, Deliver(r)), k, r)
  {
  }

  /** A call that has left keeps its outcome. */
  lemma LeftStays(s: Session, step: Step, k: CallId, o: Outcome)
    requires Enabled(s, step) && HasLeft(s, k, o)
    ensures HasLeft(Next(s, step), k, o)
  {
  }

  /** Only its caller empties a slot. */
  lemma SlotStays(s: Session, step: Step, k: CallId, r: Response)
    requires Enabled(s, step) && Holds(s, k, r) && step != TakeAnswer(k)
    ensures Holds(Next(s, step), k, r)
  {
  }

  lemma {:induction false} ReplayPrefix(steps: seq<Step>, n: nat)
    requires IsReplay(steps) && n <= |steps|
    ensures IsReplay(steps[..n])
    ensures n < |steps| ==>
      && Enabled(Replay(steps[..n]), steps[n]) && IsReplay(steps[..n + 1])
      && Replay(steps[..n + 1]) == Next(Replay(steps[..n]), steps[n])
    decreases |steps|
  {
    hide Enabled, Next;
    if n < |steps| {
      var earlier := steps[..|steps| - 1];
      ReplayPrefix(earlier, n);
      assert earlier[..n] == steps[..n];
      if n == |steps| - 1 {
        assert steps[..n] == earlier && steps[..n + 1] == steps;
      } else {
        assert earlier[..n + 1] == steps[..n + 1];
      }
    } else {
      assert steps[..n] == steps;
    }
  }

  lemma {:induction false} OutcomeFrom(steps: seq<Step>, n: nat, k: CallId, o: Outcome)
    requires IsReplay(steps) && n <= |steps| && IsReplay(steps[..n]) && HasLeft(Replay(steps[..n]), k, o)
    ensures HasLeft(Replay(steps), k, o)
    decreases |steps| - n
  {
    if n < |steps| {
      ReplayPrefix(steps, n);
      ReplayPrefix(steps, n + 1);
      LeftStays(Replay(steps[..n]), steps[n], k, o);
      hide HasLeft, Enabled, Next;
      OutcomeFrom(steps, n + 1, k, o);
    } else {
      assert steps[..n] == steps;
    }
  }

  /** The first step that lets a call go decides its outcome for good. */
  lemma ExitDecides(steps: seq<Step>, i: nat, k: CallId)
    requires IsReplay(steps) && i < |steps| && IsReplay(steps[..i]) && Enabled(Replay(steps[..i]), steps[i])
    requires Exit(Replay(steps[..i]), steps[i], k).Some?
    ensures HasLeft(Replay(steps), k, Exit(Replay(steps[..i]), steps[i], k).value)
  {
    ReplayPrefix(steps, i);
    ReplayPrefix(steps, i + 1);
    ExitLeaves(Replay(steps[..i]), steps[i], k);
    hide HasLeft, Exit, Enabled, Next;
    OutcomeFrom(steps, i + 1, k, Exit(Replay(steps[..i]), steps[i], k).value);
  }

  lemma {:induction false} SlotFrom(steps: seq<Step>, n: nat, m: nat, k: CallId, r: Response)
    requires IsReplay(steps) && n <= m <= |steps| && IsReplay(steps[..n]) && Holds(Replay(steps[..n]), k, r)
    requires forall j :: n <= j < m ==> steps[j] != TakeAnswer(k)
    ensures IsReplay(steps[..m]) && Holds(Replay(steps[..m]), k, r)
    decreases m - n
  {
    if n < m {
      ReplayPrefix(steps, n);
      ReplayPrefix(steps, n + 1);
      SlotStays(Replay(steps[..n]), steps[n], k, r);
      hide Holds, Enabled, Next;
      SlotFrom(steps, n + 1, m, k, r);
    }
  }

  /** What is delivered into the free slot of a call is what the call returns when it takes its
      answer, whatever happens in between and afterwards. */
  lemma DeliveredIsReturned(steps: seq<Step>, i: nat, j: nat, k: CallId, r: Response)
    requires IsReplay(steps) && i < j < |steps| && steps[i] == Deliver(r) && steps[j] == TakeAnswer(k)
    requires forall l :: i < l < j ==> steps[l] != TakeAnswer(k)
    requires IsReplay(steps[..i])
    requires var s := Replay(steps[..i]);
             r.requestId in s.pending && s.pending[r.requestId] == k
             && k in s.channels && s.channels[k] == Channel(None, false)
    ensures HasLeft(Replay(steps), k, Answer(r))
  {
    ReplayPrefix(steps, i);
    ReplayPrefix(steps, i + 1);
    DeliverFills(Replay(steps[..i]), r, k);
    SlotFrom(steps, i + 1, j, k, r);
    ReplayPrefix(steps, j);
    hide HasLeft, Enabled, Next;
    ExitDecides(steps, j, k);
  }

  /** After the sweep, a caller that was pending finds its channel closed. */
  lemma SweepCloses(s: Session, k: CallId)
    requires CoreInv(s) && Enabled(s, Sweep) && InPhase(s, k, Waiting) && s.calls[k].requestId in s.pending
    ensures var s' := Next(s, Sweep);
            s'.pending == map[] && Enabled(s', TakeAnswer(k)) && s'.channels[k].closed
            && s'.channels[k].buffered == s.channels[k].buffered
  {
    forall id | id in s.pending ensures PendingInv(s, id) { }
    var id := s.calls[k].requestId;
    assert s.calls[s.pending[id]].requestId == id;
  }

  // ----- Sessions of a run of the hub -----

  /** The steps of session c among the events. */
  function StepsOf(events: seq<Event>, c: SessionId): seq<Step> {
    if events == [] then []
    else
      var e := events[|events| - 1];
      StepsOf(events[..|events| - 1], c) + if e.Local? && e.session == c then [e.step] else []
  }

  lemma {:induction false} RunLast(w: World, events: seq<Event>)
    requires IsRun(w, events) && events != []
    ensures var earlier, e := events[..|events| - 1], events[|events| - 1];
            && IsRun(w, earlier) && Possible(Run(w, earlier), e) && Run(w, events) == Apply(Run(w, earlier), e)
    decreases |events|
  {
    hide Possible, Apply;
    var earlier, e := events[..|events| - 1], events[|events| - 1];
    if |events| > 1 {
      RunLast(Apply(w, events[0]), events[1..]);
      assert earlier[1..] == events[1..][..|events[1..]| - 1];
    } else {
      assert earlier == [] && events[1..] == [];
    }
  }

  /** A session of the world is its steps replayed. */
  lemma {:induction false} SessionIsReplay(events: seq<Event>, c: SessionId)
    requires IsRun(EMPTY_WORLD, events)
    ensures var w, steps := Run(EMPTY_WORLD, events), StepsOf(events, c);
            && IsReplay(steps)
            && if c in w.sessions then Replay(steps) == w.sessions[c] else steps == []
    decreases |events|
  {
    hide Enabled, Next;
    if events != [] {
      var earlier, e := events[..|events| - 1], events[|events| - 1];
      RunLast(EMPTY_WORLD, events);
      SessionIsReplay(earlier, c);
      var steps := StepsOf(earlier, c);
      if e.Local? && e.session == c {
        assert (steps + [e.step])[..|steps|] == steps;
      } else {
        assert steps + [] == steps;
      }
    }
  }

  lemma {:induction false} StepsAreEvents(events: seq<Event>, c: SessionId)
    ensures forall step :: step in StepsOf(events, c) <==> Local(c, step) in events
  {
    if events != [] {
      var earlier, e := events[..|events| - 1], events[|events| - 1];
      StepsAreEvents(earlier, c);
      assert events == earlier + [e];
    }
  }

  /** Two steps of a session lie in the events in the same order. */
  lemma {:induction false} StepsInOrder(events: seq<Event>, c: SessionId, i: nat, j: nat) returns (a: nat, b: nat)
    requires i < j < |StepsOf(events, c)|
    ensures a < b < |events| && events[a] == Local(c, StepsOf(events, c)[i]) && events[b] == Local(c, StepsOf(events, c)[j])
  {
    var earlier, e := events[..|events| - 1], events[|events| - 1];
    if j < |StepsOf(earlier, c)| {
      a, b := StepsInOrder(earlier, c, i, j);
    } else {
      StepsAreEvents(earlier, c);
      assert StepsOf(events, c)[i] == StepsOf(earlier, c)[i] && StepsOf(earlier, c)[i] in StepsOf(earlier, c);
      b := |events| - 1;
      a :| 0 <= a < |earlier| && earlier[a] == Local(c, StepsOf(events, c)[i]);
    }
  }

  /** The events in which call k of session c asked and was sent the answer, in this order. */
  ghost predicate WasSent(events: seq<Event>, c: SessionId, k: CallId, r: Response) {
    exists i, j :: 0 <= i < j < |events|
      && events[i] == Local(c, Begin(k, r.requestId)) && events[j] == Local(c, Deliver(r))
  }

  ghost predicate WasCaused(events: seq<Event>, c: SessionId, k: CallId, o: Outcome) {
    match o
    case Answer(r) => WasSent(events, c, k, r) && Local(c, TakeAnswer(k)) in events
    case SendFailed => Local(c, Write(k, false)) in events
    case Cancelled => Local(c, SeeCancel(k)) in events
    case ConnectionClosed =>
      Local(c, Signal) in events && (Local(c, SeeClosed(k)) in events || Local(c, TakeAnswer(k)) in events)
  }

  /** Over every run, whatever a call returned was brought about by events of its session: an answer
      was delivered as it is, body included, after the call had asked for it; a failed write, a
      cancelled wait and a closed session each happened. */
  lemma OutcomesWereCaused(events: seq<Event>, c: SessionId, k: CallId)
    requires IsRun(EMPTY_WORLD, events) && c in Run(EMPTY_WORLD, events).sessions
    requires k in Run(EMPTY_WORLD, events).sessions[c].calls
    ensures var phase := Run(EMPTY_WORLD, events).sessions[c].calls[k].phase;
            phase.Returned? ==> WasCaused(events, c, k, phase.outcome)
  {
    SessionIsReplay(events, c);
    var steps := StepsOf(events, c);
    ReplayExplained(steps);
    StepsAreEvents(events, c);
    var phase := Replay(steps).calls[k].phase;
    assert PhaseExplained(steps, k, phase);
    if phase.Returned? && phase.outcome.Answer? {
      var r := phase.outcome.response;
      var i, j :| 0 <= i < j < |steps| && steps[i] == Begin(k, r.requestId) && steps[j] == Deliver(r);
      var a, b := StepsInOrder(events, c, i, j);
    }
  }

  // ----- Finding the session of a node -----

  /** Where the name leads after the event, when it led to c before. */
  function CurrentAfter(w: World, e: Event, name: string, c: Option<SessionId>): Option<SessionId>
    requires Possible(w, e)
  {
    match e
    case RegisterSession(d, _) => if w.names[d] == name then Some(d) else c
    case UnregisterName(n) => if n == name then None else c
    case RemoveName(n) => if n == name then None else c
    case Local(d, step) => if step == Step.Unregister && c == Some(d) && w.names[d] == name then None else c
    case _ => c
  }

  /** When the node was last registered or seen, after the event. */
  function SignAfter(w: World, e: Event, name: string, t: Option<int>): Option<int>
    requires Possible(w, e)
  {
    match e
    case RegisterSession(d, now) => if w.names[d] == name then Some(now) else t
    case Seen(n, now) => if n == name then Some(now) else t
    case RemoveName(n) => if n == name then None else t
    case _ => t
  }

  /** The session that a node's name leads to, told by the events alone. */
  function Current(events: seq<Event>, name: string): Option<SessionId>
    requires IsRun(EMPTY_WORLD, events)
    decreases |events|
  {
    if events == [] then None
    else
      RunLast(EMPTY_WORLD, events);
      var earlier := events[..|events| - 1];
      CurrentAfter(Run(EMPTY_WORLD, earlier), events[|events| - 1], name, Current(earlier, name))
  }

  function LastSign(events: seq<Event>, name: string): Option<int>
    requires IsRun(EMPTY_WORLD, events)
    decreases |events|
  {
    if events == [] then None
    else
      RunLast(EMPTY_WORLD, events);
      var earlier := events[..|events| - 1];
      SignAfter(Run(EMPTY_WORLD, earlier), events[|events| - 1], name, LastSign(earlier, name))
  }

  /** The tables hold c and t for the name; a registered name has a last sign. */
  predicate Tells(hub: Hub, name: string, c: Option<SessionId>, t: Option<int>) {
    && c == (if name in hub.connections then Some(hub.connections[name]) else None)
    && t == (if name in hub.lastSeen then Some(hub.lastSeen[name]) else None)
    && (c.Some? ==> t.Some?)
  }

  /** One step of the hub's tables, one name at a time. */
  lemma TellsStep(w: World, e: Event, name: string, c: Option<SessionId>, t: Option<int>)
    requires Possible(w, e) && Tells(w.hub, name, c, t)
    ensures Tells(Apply(w, e).hub, name, CurrentAfter(w, e, name, c), SignAfter(w, e, name, t))
  {
    hide Next, Enabled;
  }

  lemma {:induction false} HubIsTold(events: seq<Event>, name: string)
    requires IsRun(EMPTY_WORLD, events)
    ensures Tells(Run(EMPTY_WORLD, events).hub, name, Current(events, name), LastSign(events, name))
    decreases |events|
  {
    hide Apply, Possible, CurrentAfter, SignAfter;
    if events != [] {
      var earlier := events[..|events| - 1];
      RunLast(EMPTY_WORLD, events);
      HubIsTold(earlier, name);
      TellsStep(Run(EMPTY_WORLD, earlier), events[|events| - 1], name, Current(earlier, name), LastSign(earlier, name));
      hide Tells;
    }
  }

  /** Over every run, a node's name leads to the session last registered for it, unless that one was
      closed or the node removed, exactly until 45 seconds after the last sign of it. */
  lemma FoundWhileSeen(events: seq<Event>, name: string, now: int)
    requires IsRun(EMPTY_WORLD, events)
    ensures Current(events, name).Some? ==> LastSign(events, name).Some?
    ensures HubGet(Run(EMPTY_WORLD, events).hub, name, now) ==
            if Current(events, name).Some? && now <= LastSign(events, name).value + 45
            then Current(events, name) else None
  {
    HubIsTold(events, name);
    FoundInTables(Run(EMPTY_WORLD, events).hub, name, Current(events, name), LastSign(events, name), now);
  }

  lemma FoundInTables(hub: Hub, name: string, c: Option<SessionId>, t: Option<int>, now: int)
    requires Tells(hub, name, c, t)
    ensures c.Some? ==> t.Some?
    ensures HubGet(hub, name, now) == if c.Some? && now <= t.value + 45 then c else None
  {
  }

  // ----- A call that is served -----

  lemma RunsOn(w: World, e: Event, events: seq<Event>)
    requires Possible(w, e) && IsRun(Apply(w, e), events)
    ensures IsRun(w, [e] + events) && Run(w, [e] + events) == Run(Apply(w, e), events)
  {
    hide Possible, Apply;
    assert ([e] + events)[1..] == events;
  }

  /** What the hub does on its own: registering known sessions, forgetting nodes, and taking signs of life. */
  predicate OfTheHub(w: World, e: Event) {
    !e.Accept? && !e.Local? && (e.RegisterSession? ==> Known(w, e.session))
  }

  /** Along the run, the call gets the answer, and is no longer pending at the end. */
  predicate Serves(w: World, run: seq<Event>, c: SessionId, k: CallId, r: Response) {
    && IsRun(w, run) && c in Run(w, run).sessions
    && var s := Run(w, run).sessions[c];
       k in s.calls && s.calls[k].phase == Returned(Answer(r)) && r.requestId !in s.pending
  }

  lemma ServesOn(w: World, e: Event, run: seq<Event>, c: SessionId, k: CallId, r: Response)
    requires Possible(w, e) && Serves(Apply(w, e), run, c, k, r)
    ensures Serves(w, [e] + run, c, k, r)
  {
    RunsOn(w, e, run);
    hide Possible, Apply, IsRun, Run;
  }

  /** Where the call is: registered or waiting with an open slot, which holds an answer or not. */
  predicate IsAt(w: World, c: SessionId, k: CallId, id: RequestId, phase: Phase, slot: Option<Response>) {
    && Known(w, c)
    && var s := w.sessions[c];
       && k in s.calls && s.calls[k] == Call(id, phase)
       && k in s.channels && s.channels[k] == Channel(slot, false)
       && id in s.pending && s.pending[id] == k
  }

  lemma LeaveServes(w: World, c: SessionId, k: CallId, r: Response)
    requires IsAt(w, c, k, r.requestId, Leaving(Answer(r)), None)
    ensures Serves(w, [Local(c, Leave(k))], c, k, r)
  {
    assert Serves(Apply(w, Local(c, Leave(k))), [], c, k, r);
    ServesOn(w, Local(c, Leave(k)), [], c, k, r);
    assert [Local(c, Leave(k))] + [] == [Local(c, Leave(k))];
  }

  lemma TakeServes(w: World, c: SessionId, k: CallId, r: Response)
    requires IsAt(w, c, k, r.requestId, Waiting, Some(r))
    ensures Serves(w, [Local(c, TakeAnswer(k)), Local(c, Leave(k))], c, k, r)
  {
    LeaveServes(Apply(w, Local(c, TakeAnswer(k))), c, k, r);
    hide Serves;
    ServesOn(w, Local(c, TakeAnswer(k)), [Local(c, Leave(k))], c, k, r);
    assert [Local(c, TakeAnswer(k))] + [Local(c, Leave(k))] == [Local(c, TakeAnswer(k)), Local(c, Leave(k))];
  }

  lemma DeliverServes(w: World, c: SessionId, k: CallId, r: Response)
    requires IsAt(w, c, k, r.requestId, Waiting, None)
    ensures Serves(w, [Local(c, Deliver(r)), Local(c, TakeAnswer(k)), Local(c, Leave(k))], c, k, r)
  {
    TakeServes(Apply(w, Local(c, Deliver(r))), c, k, r);
    hide Serves;
    var run := [Local(c, TakeAnswer(k)), Local(c, Leave(k))];
    ServesOn(w, Local(c, Deliver(r)), run, c, k, r);
    assert [Local(c, Deliver(r))] + run == [Local(c, Deliver(r)), Local(c, TakeAnswer(k)), Local(c, Leave(k))];
  }

  /** A new call can always be served, whatever the hub does meanwhile: it returns the answer that is sent to it,
      and leaves nothing in the pending table. */
  lemma CallIsServed(w: World, c: SessionId, k: CallId, r: Response, e: Event)
    requires Known(w, c) && k !in w.sessions[c].calls && k !in w.sessions[c].channels && OfTheHub(w, e)
    ensures Serves(w, [Local(c, Begin(k, r.requestId)), Local(c, Write(k, true)), e]
                      + [Local(c, Deliver(r)), Local(c, TakeAnswer(k)), Local(c, Leave(k))], c, k, r)
  {
    var begin, write := Local(c, Begin(k, r.requestId)), Local(c, Write(k, true));
    var last := [Local(c, Deliver(r)), Local(c, TakeAnswer(k)), Local(c, Leave(k))];
    var w1 := Apply(w, begin);
    assert IsAt(w1, c, k, r.requestId, Registered, None);
    var w2 := Apply(w1, write);
    assert IsAt(w2, c, k, r.requestId, Waiting, None);
    assert Possible(w2, e) && IsAt(Apply(w2, e), c, k, r.requestId, Waiting, None);
    hide Serves, IsAt;
    DeliverServes(Apply(w2, e), c, k, r);
    ServesOn(w2, e, last, c, k, r);
    ServesOn(w1, write, [e] + last, c, k, r);
    ServesOn(w, begin, [write] + ([e] + last), c, k, r);
    assert [begin] + ([write] + ([e] + last)) == [begin, write, e] + last;
  }
}
