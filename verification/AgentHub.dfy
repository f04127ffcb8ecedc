/** The hub of active sessions, and runs of hub and sessions together. */
module AgentHub {
  import opened Wrappers
  import opened AgentConnection

  type SessionId = nat

  const SEEN_WITHIN := 45

  /** The tables that the session life cycle touches; times are seconds. */
  datatype Hub = Hub(connections: map<string, SessionId>, lastSeen: map<string, int>, telemetry: map<string, string>)

  const EMPTY_HUB := Hub(map[], map[], map[])

  function HubRegister(h: Hub, name: string, c: SessionId, now: int): Hub {
    h.(connections := h.connections[name := c], lastSeen := h.lastSeen[name := now])
  }

  function HubUnregister(h: Hub, name: string, c: SessionId): Hub {
    if name in h.connections && h.connections[name] == c then h.(connections := h.connections - {name}) else h
  }

  function HubUnregisterNode(h: Hub, name: string): Hub {
    h.(connections := h.connections - {name})
  }

  function HubRemoveNode(h: Hub, name: string): Hub {
    Hub(h.connections - {name}, h.lastSeen - {name}, h.telemetry - {name})
  }

  function HubSeen(h: Hub, name: string, now: int): Hub {
    h.(lastSeen := h.lastSeen[name := now])
  }

  /** The active session of a node, unless it has been silent for too long. */
  function HubGet(h: Hub, name: string, now: int): Option<SessionId> {
    if name !in h.connections then None
    else if name in h.lastSeen && now - h.lastSeen[name] > SEEN_WITHIN then None
    else Some(h.connections[name])
  }

  class HubObject {
    var connections: map<string, SessionId>
    var lastSeen: map<string, int>
    var telemetry: map<string, string>

    function View(): Hub
      reads this
    {
      Hub(connections, lastSeen, telemetry)
    }

    constructor ()
      ensures View() == EMPTY_HUB
    {
      connections, lastSeen, telemetry := map[], map[], map[];
    }

    /** Makes c the session of the node; a displaced session is to be closed. */
    method Register(name: string, c: SessionId, now: int) returns (displaced: Option<SessionId>)
      modifies this
      ensures View() == HubRegister(old(View()), name, c, now)
      ensures connections == old(connections)[name := c] && lastSeen == old(lastSeen)[name := now]
      ensures telemetry == old(telemetry) && HubGet(View(), name, now) == Some(c)
      ensures displaced == if name in old(connections) && old(connections[name]) != c
                           then Some(old(connections[name])) else None
    {
      displaced := None;
      if name in connections && connections[name] != c {
        displaced := Some(connections[name]);
      }
      connections := connections[name := c];
      lastSeen := lastSeen[name := now];
    }

    /** Only removes the session that is current. */
    method Unregister(name: string, c: SessionId)
      modifies this`connections
      ensures View() == HubUnregister(old(View()), name, c)
      ensures !(name in connections && connections[name] == c)
      ensures forall n :: n in old(connections) && !(n == name && old(connections[n]) == c)
                ==> n in connections && connections[n] == old(connections[n])
    {
      if name in connections && connections[name] == c {
        connections := connections - {name};
      }
    }

    method UnregisterNode(name: string)
      modifies this`connections
      ensures View() == HubUnregisterNode(old(View()), name) && connections == old(connections) - {name}
    {
      connections := connections - {name};
    }

    /** Forgets the node; its session is to be closed. */
    method RemoveNode(name: string) returns (displaced: Option<SessionId>)
      modifies this
      ensures View() == HubRemoveNode(old(View()), name)
      ensures displaced == if name in old(connections) then Some(old(connections[name])) else None
      ensures connections == old(connections) - {name} && telemetry == old(telemetry) - {name}
      ensures lastSeen == old(lastSeen) - {name}
      ensures forall now :: HubGet(View(), name, now) == None
    {
      displaced := None;
      if name in connections {
        displaced := Some(connections[name]);
        connections := connections - {name};
      }
      telemetry := telemetry - {name};
      lastSeen := lastSeen - {name};
    }

    /** The agent of the node gave a sign of life. */
    method RecordHeartbeat(name: string, now: int)
      modifies this`lastSeen
      ensures View() == HubSeen(old(View()), name, now) && lastSeen == old(lastSeen)[name := now]
      ensures name in connections ==> HubGet(View(), name, now) == Some(connections[name])
    {
      lastSeen := lastSeen[name := now];
    }

    /** The session of a node, as long as its last sign is at most 45 seconds old. */
    method GetConnection(name: string, now: int) returns (c: Option<SessionId>)
      ensures c == HubGet(View(), name, now)
      ensures c == if name in connections && (name in lastSeen ==> now <= lastSeen[name] + 45)
                   then Some(connections[name]) else None
    {
      if name !in connections {
        return None;
      }
      if name in lastSeen {
        if now - lastSeen[name] > SEEN_WITHIN {
          return None;
        }
      }
      c := Some(connections[name]);
    }
  }

  // ----- Runs -----

  datatype World = World(hub: Hub, sessions: map<SessionId, Session>, names: map<SessionId, string>)

  const EMPTY_WORLD := World(EMPTY_HUB, map[], map[])

  datatype Event =
    | Accept(session: SessionId, name: string)
    | Local(session: SessionId, step: Step)
    | RegisterSession(session: SessionId, now: int)
    | UnregisterName(name: string)
    | RemoveName(name: string)
    | Seen(name: string, now: int)

  predicate Known(w: World, c: SessionId) {
    c in w.sessions && c in w.names
  }

  predicate Possible(w: World, e: Event) {
    match e
    case Accept(c, _) => c !in w.sessions && c !in w.names
    case Local(c, step) => Known(w, c) && Enabled(w.sessions[c], step)
    case RegisterSession(c, _) => Known(w, c)
    case _ => true
  }

  function Apply(w: World, e: Event): World
    requires Possible(w, e)
  {
    match e
    case Accept(c, name) => w.(sessions := w.sessions[c := FRESH_SESSION], names := w.names[c := name])
    case Local(c, step) =>
      w.(sessions := w.sessions[c := Next(w.sessions[c], step)],
         hub := if step.Unregister? then HubUnregister(w.hub, w.names[c], c) else w.hub)
    case RegisterSession(c, now) => w.(hub := HubRegister(w.hub, w.names[c], c, now))
    case UnregisterName(name) => w.(hub := HubUnregisterNode(w.hub, name))
    case RemoveName(name) => w.(hub := HubRemoveNode(w.hub, name))
    case Seen(name, now) => w.(hub := HubSeen(w.hub, name, now))
  }

  /** The events can happen one after the other. */
  predicate IsRun(w: World, events: seq<Event>)
    decreases |events|
  {
    events == [] || (Possible(w, events[0]) && IsRun(Apply(w, events[0]), events[1..]))
  }

  function Run(w: World, events: seq<Event>): World
    requires IsRun(w, events)
    decreases |events|
  {
    if events == [] then w else Run(Apply(w, events[0]), events[1..])
  }

  /** No caller reuses a request id of its session. */
  predicate UniqueIds(w: World, events: seq<Event>)
    requires IsRun(w, events)
    decreases |events|
  {
    events == [] ||
    ((events[0].Local? ==> FreshId(w.sessions[events[0].session], events[0].step))
     && UniqueIds(Apply(w, events[0]), events[1..]))
  }

  /** No answer arrives while the slot of its request is still taken. */
  predicate NoneBlocks(w: World, events: seq<Event>)
    requires IsRun(w, events)
    decreases |events|
  {
    events == [] ||
    ((events[0].Local? ==> !Blocks(w.sessions[events[0].session], events[0].step))
     && NoneBlocks(Apply(w, events[0]), events[1..]))
  }

  /** No caller reuses a request id of its session and no id is answered twice. */
  predicate WellBehaved(w: World, events: seq<Event>)
    requires IsRun(w, events)
    decreases |events|
  {
    events == [] ||
    ((events[0].Local? ==> Admissible(w.sessions[events[0].session], events[0].step))
     && WellBehaved(Apply(w, events[0]), events[1..]))
  }

  ghost predicate WorldCore(w: World) {
    forall c :: c in w.sessions ==> CoreInv(w.sessions[c])
  }

  ghost predicate WorldAnswered(w: World) {
    forall c :: c in w.sessions ==> SlotsAnswered(w.sessions[c])
  }

  ghost predicate Faultless(w: World) {
    forall c :: c in w.sessions ==> w.sessions[c].fault == NoFault
  }

  lemma CoreEvent(w: World, e: Event)
    requires WorldCore(w) && Possible(w, e)
    requires e.Local? ==> FreshId(w.sessions[e.session], e.step)
    ensures WorldCore(Apply(w, e))
    ensures Faultless(Apply(w, e)) <==> Faultless(w) && (e.Local? ==> !Blocks(w.sessions[e.session], e.step))
  {
    var w' := Apply(w, e);
    if e.Local? {
      CoreStep(w.sessions[e.session], e.step);
      FaultsExactly(w.sessions[e.session], e.step);
      hide CoreInv, Next, Enabled, FreshId, Blocks;
      assert forall c :: c in w.sessions <==> c in w'.sessions;
      assert forall c :: c in w.sessions && c != e.session ==> w'.sessions[c] == w.sessions[c];
    } else if e.Accept? {
      FreshCore();
      hide CoreInv, Next, Enabled, FreshId, Blocks;
      assert forall c :: c in w.sessions ==> c in w'.sessions && w'.sessions[c] == w.sessions[c];
    }
  }

  lemma FreshCore()
    ensures CoreInv(FRESH_SESSION) && SlotsAnswered(FRESH_SESSION)
  {
  }

  /** Over every interleaving with unique request ids, the core of the invariant holds, and something
      goes wrong exactly when an answer arrives while the slot of its request is still taken. */
  lemma {:induction false} RunFaultsExactly(w: World, events: seq<Event>)
    requires WorldCore(w) && IsRun(w, events) && UniqueIds(w, events)
    ensures WorldCore(Run(w, events))
    ensures Faultless(Run(w, events)) <==> Faultless(w) && NoneBlocks(w, events)
    decreases |events|
  {
    if events != [] {
      CoreEvent(w, events[0]);
      hide CoreInv, Next, Enabled, FreshId, Blocks, Apply, Possible, Faultless, WorldCore;
      RunFaultsExactly(Apply(w, events[0]), events[1..]);
    }
  }

  lemma AnsweredEvent(w: World, e: Event)
    requires WorldCore(w) && WorldAnswered(w) && Possible(w, e)
    requires e.Local? ==> Admissible(w.sessions[e.session], e.step)
    ensures WorldAnswered(Apply(w, e)) && (e.Local? ==> !Blocks(w.sessions[e.session], e.step))
  {
    if e.Local? {
      AdmissibleIsFree(w.sessions[e.session], e.step);
      AnsweredStep(w.sessions[e.session], e.step);
      hide CoreInv, SlotsAnswered, Next, Enabled, FreshId, Blocks;
    } else if e.Accept? {
      FreshCore();
    }
  }

  /** Without second answers nothing ever blocks. */
  lemma {:induction false} AnsweredOnce(w: World, events: seq<Event>)
    requires WorldCore(w) && WorldAnswered(w) && IsRun(w, events) && WellBehaved(w, events)
    ensures UniqueIds(w, events) && NoneBlocks(w, events)
    decreases |events|
  {
    if events != [] {
      AnsweredEvent(w, events[0]);
      CoreEvent(w, events[0]);
      hide CoreInv, Next, Enabled, FreshId, Blocks, Apply, Possible, WorldAnswered, WorldCore;
      AnsweredOnce(Apply(w, events[0]), events[1..]);
    }
  }

  /** Over every interleaving with unique request ids: an answer goes to the call that asked, and a
      session whose calls have all returned has nothing pending. If no id is answered twice, nothing
      panics or blocks either. */
  lemma EverySessionIsSafe(events: seq<Event>, c: SessionId)
    requires IsRun(EMPTY_WORLD, events) && UniqueIds(EMPTY_WORLD, events)
    requires c in Run(EMPTY_WORLD, events).sessions
    ensures var s := Run(EMPTY_WORLD, events).sessions[c];
            && (NoneBlocks(EMPTY_WORLD, events) ==> s.fault == NoFault)
            && (WellBehaved(EMPTY_WORLD, events) ==> s.fault == NoFault)
            && (forall k :: k in s.calls && s.calls[k].phase.Returned? && s.calls[k].phase.outcome.Answer?
                  ==> s.calls[k].phase.outcome.response.requestId == s.calls[k].requestId)
            && ((forall k :: k in s.calls ==> s.calls[k].phase.Returned?) ==> s.pending == map[])
  {
    RunFaultsExactly(EMPTY_WORLD, events);
    if WellBehaved(EMPTY_WORLD, events) {
      AnsweredOnce(EMPTY_WORLD, events);
    }
    hide IsRun, Run, UniqueIds, NoneBlocks, WellBehaved;
    var s := Run(EMPTY_WORLD, events).sessions[c];
    assert CoreInv(s);
    forall k | k in s.calls ensures CallInv(s, k) { }
    if forall k :: k in s.calls ==> s.calls[k].phase.Returned? {
      PendingDrains(s);
    }
  }

  /** The events that may take a node's entry away from its current session c. */
  predicate Ousts(w: World, e: Event, name: string, c: SessionId)
    requires Possible(w, e)
  {
    match e
    case Local(d, step) => d == c && step.Unregister?
    case RegisterSession(d, _) => d != c && w.names[d] == name
    case UnregisterName(n) => n == name
    case RemoveName(n) => n == name
    case _ => false
  }

  predicate NeverOusted(w: World, events: seq<Event>, name: string, c: SessionId)
    requires IsRun(w, events)
    decreases |events|
  {
    events == [] || (!Ousts(w, events[0], name, c) && NeverOusted(Apply(w, events[0]), events[1..], name, c))
  }

  /** Whatever closes happen meanwhile, a replaced session's included, the successor stays
      registered until it closes itself, is replaced or its node is removed. */
  lemma {:induction false} SuccessorStays(w: World, events: seq<Event>, name: string, c: SessionId)
    requires IsRun(w, events) && NeverOusted(w, events, name, c)
    requires name in w.hub.connections && w.hub.connections[name] == c
    ensures var hub := Run(w, events).hub; name in hub.connections && hub.connections[name] == c
    decreases |events|
  {
    hide Enabled, Next;
    if events != [] {
      SuccessorStays(Apply(w, events[0]), events[1..], name, c);
    }
  }
}
