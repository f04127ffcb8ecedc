/** One agent session: many callers, one reader and one close, as atomic steps under the
    session's mutexes. */
module AgentConnection {
  import opened Wrappers

  type RequestId = string
  type CallId = nat

  datatype Response = Response(requestId: RequestId, body: string)

  datatype Outcome = Answer(response: Response) | SendFailed | Cancelled | ConnectionClosed

  /** Where a caller is: registered in the pending table, waiting for its answer, about to clean
      up, or done. */
  datatype Phase = Registered | Waiting | Leaving(outcome: Outcome) | Returned(outcome: Outcome)

  datatype Call = Call(requestId: RequestId, phase: Phase)

  /** A one-slot response channel. */
  datatype Channel = Channel(buffered: Option<Response>, closed: bool)

  /** How far the single execution of the close has come. */
  datatype CloseStage = Open | Signalled | Unregistered | Swept

  /** What must never happen: a panic on a closed channel, or a reader stuck under the lock. */
  datatype Fault = NoFault | SentOnClosed | ClosedTwice | ReaderBlocked

  /** begun and answered record the ids used so far, for the assumptions on callers and agents. */
  datatype Session = Session(
    pending: map<RequestId, CallId>,
    channels: map<CallId, Channel>,
    calls: map<CallId, Call>,
    stage: CloseStage,
    fault: Fault,
    begun: set<RequestId>,
    answered: set<RequestId>)

  const FRESH_SESSION := Session(map[], map[], map[], Open, NoFault, {}, {})

  datatype Step =
    | Begin(call: CallId, requestId: RequestId)
    | Write(call: CallId, ok: bool)
    | TakeAnswer(call: CallId)
    | SeeCancel(call: CallId)
    | SeeClosed(call: CallId)
    | Leave(call: CallId)
    | Deliver(response: Response)
    | Signal
    | Unregister
    | Sweep

  predicate InPhase(s: Session, k: CallId, phase: Phase) {
    k in s.calls && k in s.channels && s.calls[k].phase == phase
  }

  predicate Enabled(s: Session, step: Step) {
    match step
    case Begin(k, _) => k !in s.calls && k !in s.channels
    case Write(k, _) => InPhase(s, k, Registered)
    case TakeAnswer(k) => InPhase(s, k, Waiting) && (s.channels[k].buffered.Some? || s.channels[k].closed)
    case SeeCancel(k) => InPhase(s, k, Waiting)
    case SeeClosed(k) => InPhase(s, k, Waiting) && s.stage != Open
    case Leave(k) => k in s.calls && s.calls[k].phase.Leaving?
    case Deliver(r) => r.requestId in s.pending ==> s.pending[r.requestId] in s.channels
    case Signal => s.stage == Open
    case Unregister => s.stage == Signalled
    case Sweep => s.stage == Unregistered && forall id :: id in s.pending ==> s.pending[id] in s.channels
  }

  function WithPhase(s: Session, k: CallId, phase: Phase): Session
    requires k in s.calls
  {
    s.(calls := s.calls[k := s.calls[k].(phase := phase)])
  }

  function Next(s: Session, step: Step): Session
    requires Enabled(s, step)
  {
    match step
    case Begin(k, id) =>
      s.(pending := s.pending[id := k], channels := s.channels[k := Channel(None, false)],
         calls := s.calls[k := Call(id, Registered)], begun := s.begun + {id})
    case Write(k, ok) => WithPhase(s, k, if ok then Waiting else Leaving(SendFailed))
    case TakeAnswer(k) =>
      (match s.channels[k].buffered
       case Some(r) =>
         WithPhase(s, k, Leaving(Answer(r))).(channels := s.channels[k := s.channels[k].(buffered := None)])
       case None => WithPhase(s, k, Leaving(ConnectionClosed)))
    case SeeCancel(k) => WithPhase(s, k, Leaving(Cancelled))
    case SeeClosed(k) => WithPhase(s, k, Leaving(ConnectionClosed))
    case Leave(k) =>
      WithPhase(s, k, Returned(s.calls[k].phase.outcome)).(pending := s.pending - {s.calls[k].requestId})
    case Deliver(r) =>
      if r.requestId !in s.pending then s.(answered := s.answered + {r.requestId})
      else
        var k := s.pending[r.requestId];
        var ch := s.channels[k];
        if ch.closed then s.(fault := SentOnClosed)
        else if ch.buffered.Some? then s.(fault := ReaderBlocked)
        else s.(channels := s.channels[k := ch.(buffered := Some(r))], answered := s.answered + {r.requestId})
    case Signal => s.(stage := Signalled)
    case Unregister => s.(stage := Unregistered)
    case Sweep =>
      if exists id :: id in s.pending && s.channels[s.pending[id]].closed then s.(fault := ClosedTwice)
      else s.(stage := Swept, pending := map[], channels := CloseAll(s.channels, s.pending.Values))
  }

  function CloseAll(channels: map<CallId, Channel>, which: set<CallId>): map<CallId, Channel> {
    map k | k in channels :: if k in which then channels[k].(closed := true) else channels[k]
  }

  /** Callers never reuse a request id. */
  predicate FreshId(s: Session, step: Step) {
    step.Begin? ==> step.requestId !in s.begun
  }

  /** The answer is for a pending request whose slot still holds an answer that nobody has taken. */
  predicate Blocks(s: Session, step: Step) {
    && step.Deliver? && step.response.requestId in s.pending && s.pending[step.response.requestId] in s.channels
    && s.channels[s.pending[step.response.requestId]].buffered.Some?
  }

  /** Besides, the agent answers an id at most once. */
  predicate Admissible(s: Session, step: Step) {
    FreshId(s, step) && (step.Deliver? ==> step.response.requestId !in s.answered)
  }

  // ----- The invariant -----

  predicate PhaseFits(phase: Phase, id: RequestId) {
    match phase
    case Leaving(Answer(r)) => r.requestId == id
    case Returned(Answer(r)) => r.requestId == id
    case _ => true
  }

  ghost predicate CallInv(s: Session, k: CallId)
    requires k in s.calls
  {
    var call := s.calls[k];
    && k in s.channels
    && call.requestId in s.begun
    && PhaseFits(call.phase, call.requestId)
    && (s.channels[k].buffered.Some? ==> s.channels[k].buffered.value.requestId == call.requestId)
  }

  ghost predicate PendingInv(s: Session, id: RequestId)
    requires id in s.pending
  {
    var k := s.pending[id];
    && k in s.calls && k in s.channels
    && s.calls[k].requestId == id && !s.calls[k].phase.Returned?
    && !s.channels[k].closed
  }

  /** Holds under fresh request ids alone, however often the agent answers. */
  ghost predicate CoreInv(s: Session) {
    && (forall k :: k in s.calls ==> CallInv(s, k))
    && (forall k, l :: k in s.calls && l in s.calls && k != l ==> s.calls[k].requestId != s.calls[l].requestId)
    && (forall id :: id in s.pending ==> PendingInv(s, id))
  }

  /** A pending request whose slot is taken was answered. */
  ghost predicate SlotsAnswered(s: Session) {
    forall id :: id in s.pending && s.pending[id] in s.channels && s.channels[s.pending[id]].buffered.Some?
      ==> id in s.answered
  }

  ghost predicate Inv(s: Session) {
    s.fault == NoFault && CoreInv(s) && SlotsAnswered(s)
  }

  /** A change of one call's phase, to one that is not Returned and fits the call. */
  lemma InvPhase(s: Session, k: CallId, phase: Phase)
    requires CoreInv(s) && k in s.calls && !phase.Returned? && PhaseFits(phase, s.calls[k].requestId)
    ensures CoreInv(WithPhase(s, k, phase))
  {
    var s' := WithPhase(s, k, phase);
    forall l | l in s'.calls ensures CallInv(s', l) {
      assert CallInv(s, l);
    }
    forall id | id in s'.pending ensures PendingInv(s', id) {
      assert PendingInv(s, id);
    }
  }

  lemma InvBegin(s: Session, k: CallId, id: RequestId)
    requires CoreInv(s) && Enabled(s, Begin(k, id)) && id !in s.begun
    ensures CoreInv(Next(s, Begin(k, id)))
  {
    var s' := Next(s, Begin(k, id));
    forall l | l in s'.calls ensures CallInv(s', l) {
      assert l != k ==> CallInv(s, l);
    }
    forall i | i in s'.pending ensures PendingInv(s', i) {
      assert i != id ==> PendingInv(s, i);
    }
    forall l | l in s.calls ensures s.calls[l].requestId != id {
      assert CallInv(s, l);
    }
  }

  lemma InvTake(s: Session, k: CallId)
    requires CoreInv(s) && Enabled(s, TakeAnswer(k))
    ensures CoreInv(Next(s, TakeAnswer(k)))
  {
    assert CallInv(s, k);
    match s.channels[k].buffered
    case None =>
      InvPhase(s, k, Leaving(ConnectionClosed));
    case Some(r) =>
      var t := WithPhase(s, k, Leaving(Answer(r)));
      InvPhase(s, k, Leaving(Answer(r)));
      var s' := Next(s, TakeAnswer(k));
      forall l | l in s'.calls ensures CallInv(s', l) {
        assert CallInv(t, l);
      }
      forall i | i in s'.pending ensures PendingInv(s', i) {
        assert PendingInv(t, i);
      }
  }

  lemma InvLeave(s: Session, k: CallId)
    requires CoreInv(s) && Enabled(s, Leave(k))
    ensures CoreInv(Next(s, Leave(k)))
  {
    var s' := Next(s, Leave(k));
    forall l | l in s'.calls ensures CallInv(s', l) {
      assert CallInv(s, l);
    }
    forall i | i in s'.pending ensures PendingInv(s', i) {
      assert PendingInv(s, i);
    }
  }

  lemma InvDeliver(s: Session, r: Response)
    requires CoreInv(s) && Enabled(s, Deliver(r))
    ensures CoreInv(Next(s, Deliver(r)))
  {
    assert r.requestId in s.pending ==> PendingInv(s, r.requestId);
    var s' := Next(s, Deliver(r));
    forall l | l in s'.calls ensures CallInv(s', l) {
      assert CallInv(s, l);
    }
    forall i | i in s'.pending ensures PendingInv(s', i) {
      assert PendingInv(s, i);
    }
  }

  lemma InvSweep(s: Session)
    requires CoreInv(s) && Enabled(s, Sweep)
    ensures CoreInv(Next(s, Sweep))
  {
    forall i | i in s.pending ensures PendingInv(s, i) { }
    var s' := Next(s, Sweep);
    forall l | l in s'.calls ensures CallInv(s', l) {
      assert CallInv(s, l);
    }
  }

  /** Every step with fresh ids keeps the core of the invariant. */
  lemma CoreStep(s: Session, step: Step)
    requires CoreInv(s) && Enabled(s, step) && FreshId(s, step)
    ensures CoreInv(Next(s, step))
  {
    match step
    case Begin(k, id) => InvBegin(s, k, id);
    case Write(k, ok) => InvPhase(s, k, if ok then Waiting else Leaving(SendFailed));
    case TakeAnswer(k) => InvTake(s, k);
    case SeeCancel(k) => InvPhase(s, k, Leaving(Cancelled));
    case SeeClosed(k) => InvPhase(s, k, Leaving(ConnectionClosed));
    case Leave(k) => InvLeave(s, k);
    case Deliver(r) => InvDeliver(s, r);
    case Signal => InvStage(s, Signalled);
    case Unregister => InvStage(s, Unregistered);
    case Sweep => InvSweep(s);
  }

  /** With fresh ids, the one thing that can go wrong is an answer that finds its slot still taken;
      it blocks the reader, and nothing ever panics. */
  lemma FaultsExactly(s: Session, step: Step)
    requires CoreInv(s) && Enabled(s, step)
    ensures Next(s, step).fault == if Blocks(s, step) then ReaderBlocked else s.fault
  {
    match step
    case Deliver(r) =>
      assert r.requestId in s.pending ==> PendingInv(s, r.requestId);
    case Sweep =>
      forall id | id in s.pending ensures PendingInv(s, id) { }
    case _ =>
  }

  /** Without a second answer the slot of a pending request is free. */
  lemma AdmissibleIsFree(s: Session, step: Step)
    requires SlotsAnswered(s) && Enabled(s, step) && Admissible(s, step)
    ensures !Blocks(s, step)
  {
  }

  lemma AnsweredStep(s: Session, step: Step)
    requires CoreInv(s) && SlotsAnswered(s) && Enabled(s, step) && FreshId(s, step) && !Blocks(s, step)
    ensures SlotsAnswered(Next(s, step))
  {
    forall id | id in s.pending ensures PendingInv(s, id) { }
    hide CoreInv, CallInv, PhaseFits;
    match step
    case Deliver(r) =>
      var s' := Next(s, step);
      forall id | id in s'.pending && s'.channels[s'.pending[id]].buffered.Some? ensures id in s'.answered {
        assert PendingInv(s, id);
      }
    case _ =>
  }

  /** Every admissible step keeps the invariant. */
  lemma InvStep(s: Session, step: Step)
    requires Inv(s) && Enabled(s, step) && Admissible(s, step)
    ensures Inv(Next(s, step))
  {
    CoreStep(s, step);
    AdmissibleIsFree(s, step);
    FaultsExactly(s, step);
    AnsweredStep(s, step);
    hide CoreInv, SlotsAnswered, Next;
  }

  lemma InvStage(s: Session, stage: CloseStage)
    requires CoreInv(s)
    ensures CoreInv(s.(stage := stage))
  {
    var s' := s.(stage := stage);
    forall l | l in s'.calls ensures CallInv(s', l) {
      assert CallInv(s, l);
    }
    forall i | i in s'.pending ensures PendingInv(s', i) {
      assert PendingInv(s, i);
    }
  }

  // ----- What the invariant gives the callers -----

  /** A caller that returns an answer returns the answer to its own request. */
  lemma AnswerIsOwn(s: Session, k: CallId)
    requires CoreInv(s) && k in s.calls
    ensures match s.calls[k].phase
            case Returned(Answer(r)) => r.requestId == s.calls[k].requestId
            case _ => true
  {
    assert CallInv(s, k);
  }

  /** Once every call has returned, the pending table is empty. */
  lemma PendingDrains(s: Session)
    requires CoreInv(s) && forall k :: k in s.calls ==> s.calls[k].phase.Returned?
    ensures s.pending == map[]
  {
    forall id: RequestId ensures id !in s.pending { }
  }

  /** After the close has signalled, no waiting caller is stuck; before it, an answer frees its caller. */
  lemma WaiterCanLeave(s: Session, k: CallId)
    requires CoreInv(s) && k in s.calls && s.calls[k].phase == Waiting
    requires s.stage != Open || s.channels[k].buffered.Some?
    ensures Enabled(s, SeeClosed(k)) || Enabled(s, TakeAnswer(k))
  {
    assert CallInv(s, k);
  }

  /** The condition on agents is needed: a second answer to an id that is still waiting leaves the
      reader blocked while it holds the pending lock. */
  lemma SecondAnswerBlocks(r1: Response, r2: Response)
    requires r1.requestId == r2.requestId
    ensures Enabled(FRESH_SESSION, Begin(0, r1.requestId))
    ensures var s1 := Next(FRESH_SESSION, Begin(0, r1.requestId));
            Enabled(s1, Write(0, true)) &&
            var s2 := Next(s1, Write(0, true));
            Enabled(s2, Deliver(r1)) && Admissible(s2, Deliver(r1)) &&
            var s3 := Next(s2, Deliver(r1));
            Enabled(s3, Deliver(r2)) && !Admissible(s3, Deliver(r2)) && Next(s3, Deliver(r2)).fault == ReaderBlocked
  {
  }

  // ----- The session object -----

  class Connection {
    var pending: map<RequestId, CallId>
    var channels: map<CallId, Channel>
    var calls: map<CallId, Call>
    var stage: CloseStage
    ghost var begun: set<RequestId>
    ghost var answered: set<RequestId>

    ghost function View(): Session
      reads this
    {
      Session(pending, channels, calls, stage, NoFault, begun, answered)
    }

    ghost predicate Valid()
      reads this
    {
      CoreInv(View())
    }

    constructor ()
      ensures Valid() && View() == FRESH_SESSION
    {
      pending, channels, calls := map[], map[], map[];
      stage := Open;
      begun, answered := {}, {};
    }

    /** The first effect of the close, which runs once: waiting callers see it. */
    method SignalClosed()
      requires Valid() && Enabled(View(), Signal)
      modifies this`stage
      ensures Valid() && View() == Next(old(View()), Signal) && stage == Signalled
      ensures forall k :: InPhase(View(), k, Waiting) ==> Enabled(View(), SeeClosed(k))
    {
      CoreStep(View(), Signal);
      stage := Signalled;
    }

    /** Registers a response channel under the pending lock. */
    method BeginCall(k: CallId, id: RequestId)
      requires Valid() && Enabled(View(), Begin(k, id)) && FreshId(View(), Begin(k, id))
      modifies this
      ensures Valid() && View() == Next(old(View()), Begin(k, id))
      ensures pending == old(pending)[id := k] && calls[k] == Call(id, Registered)
      ensures k in channels && channels[k] == Channel(None, false)
    {
      CoreStep(View(), Begin(k, id));
      channels := channels[k := Channel(None, false)];
      pending := pending[id := k];
      calls := calls[k := Call(id, Registered)];
      begun := begun + {id};
    }

    /** The outcome of writing the request to the socket. */
    method FinishWrite(k: CallId, ok: bool)
      requires Valid() && Enabled(View(), Write(k, ok))
      modifies this
      ensures Valid() && View() == Next(old(View()), Write(k, ok))
      ensures calls[k].phase == if ok then Waiting else Leaving(SendFailed)
    {
      CoreStep(View(), Write(k, ok));
      calls := calls[k := calls[k].(phase := if ok then Waiting else Leaving(SendFailed))];
    }

    /** One arm of the wait: the response channel. */
    method Receive(k: CallId)
      requires Valid() && Enabled(View(), TakeAnswer(k))
      modifies this
      ensures Valid() && View() == Next(old(View()), TakeAnswer(k))
      ensures calls[k].phase == match old(channels[k].buffered)
                                case Some(r) => Leaving(Answer(r))
                                case None => Leaving(ConnectionClosed)
      ensures k in channels && channels[k].buffered == None
    {
      CoreStep(View(), TakeAnswer(k));
      var ch := channels[k];
      match ch.buffered {
        case Some(r) =>
          channels := channels[k := ch.(buffered := None)];
          calls := calls[k := calls[k].(phase := Leaving(Answer(r)))];
        case None =>
          calls := calls[k := calls[k].(phase := Leaving(ConnectionClosed))];
      }
    }

    /** The deferred clean-up of a call, under the pending lock. */
    method FinishCall(k: CallId) returns (outcome: Outcome)
      requires Valid() && Enabled(View(), Leave(k))
      modifies this
      ensures Valid() && View() == Next(old(View()), Leave(k))
      ensures outcome == old(calls[k].phase.outcome) && calls[k].phase == Returned(outcome)
      ensures pending == old(pending) - {calls[k].requestId}
      ensures outcome.Answer? ==> outcome.response.requestId == calls[k].requestId
    {
      CoreStep(View(), Leave(k));
      AnswerIsOwn(Next(View(), Leave(k)), k);
      outcome := calls[k].phase.outcome;
      pending := pending - {calls[k].requestId};
      calls := calls[k := calls[k].(phase := Returned(outcome))];
    }

    /** The reader hands an answer to its caller, unless the caller's slot is still taken: the
        channel is open, and the answer blocks nobody. */
    method HandleResponse(r: Response)
      requires Valid() && !Blocks(View(), Deliver(r))
      modifies this
      ensures Valid() && Enabled(old(View()), Deliver(r)) && View() == Next(old(View()), Deliver(r))
      ensures if r.requestId in old(pending) then
                var k := old(pending)[r.requestId];
                k in old(channels) && channels == old(channels)[k := Channel(Some(r), false)]
              else channels == old(channels)
    {
      assert r.requestId in pending ==> PendingInv(View(), r.requestId);
      FaultsExactly(View(), Deliver(r));
      CoreStep(View(), Deliver(r));
      if r.requestId in pending {
        var k := pending[r.requestId];
        assert !channels[k].closed && channels[k].buffered.None?;
        channels := channels[k := Channel(Some(r), false)];
      }
      answered := answered + {r.requestId};
    }

    /** The loop of the close: closes each pending channel and deletes its entry. */
    method ClosePending()
      requires forall id :: id in pending ==> pending[id] in channels && !channels[pending[id]].closed
      requires forall a, b :: a in pending && b in pending && a != b ==> pending[a] != pending[b]
      modifies this`pending, this`channels
      ensures pending == map[] && channels == CloseAll(old(channels), old(pending).Values)
    {
      ghost var table, before := pending, channels;
      ghost var swept: set<CallId> := {};
      assert CloseAll(before, {}) == before;
      hide CloseAll;
      while pending != map[]
        invariant pending.Keys <= table.Keys && forall id :: id in pending ==> pending[id] == table[id]
        invariant forall id :: id in table && id !in pending ==> table[id] in swept
        invariant forall k :: k in swept ==> k in table.Values
        invariant channels == CloseAll(before, swept)
        invariant forall id :: id in pending ==> pending[id] !in swept
        decreases pending.Keys
      {
        var id :| id in pending;
        var k := pending[id];
        CloseOne(before, swept, k);
        assert !channels[k].closed;
        channels := channels[k := channels[k].(closed := true)];
        swept := swept + {k};
        pending := pending - {id};
      }
      assert swept == table.Values;
    }

    /** Closes every pending channel and empties the table, under the pending lock. */
    method SweepPending()
      requires Valid() && Enabled(View(), Sweep)
      modifies this`pending, this`channels, this`stage
      ensures Valid() && View() == Next(old(View()), Sweep)
      ensures pending == map[] && stage == Swept
      ensures channels.Keys == old(channels).Keys
      ensures forall k :: k in channels ==>
        channels[k] == Channel(old(channels[k].buffered), old(channels[k].closed) || k in old(pending).Values)
    {
      InvSweep(View());
      PendingChannels(View());
      ClosePending();
      stage := Swept;
    }
  }

  lemma CloseOne(channels: map<CallId, Channel>, which: set<CallId>, k: CallId)
    requires k in channels
    ensures k in CloseAll(channels, which)
    ensures k !in which ==> CloseAll(channels, which)[k] == channels[k]
    ensures CloseAll(channels, which)[k := CloseAll(channels, which)[k].(closed := true)]
         == CloseAll(channels, which + {k})
  {
  }

  lemma PendingChannels(s: Session)
    requires CoreInv(s)
    ensures forall id :: id in s.pending ==> s.pending[id] in s.channels && !s.channels[s.pending[id]].closed
    ensures forall a, b :: a in s.pending && b in s.pending && a != b ==> s.pending[a] != s.pending[b]
  {
    forall id | id in s.pending ensures PendingInv(s, id) { }
  }
}
