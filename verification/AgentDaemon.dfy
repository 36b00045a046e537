/** The agent daemon's handlers over registry, notification bridge and binding table. Each is one
    step of AgentProtocol. */
module AgentDaemon {
  import opened Common
  import opened ActionBindings
  import opened ProcessAncestry
  import opened SessionRegistry
  import opened AgentProtocol

  class NotificationBridge {
    const bindings: NotificationActionBindings

    constructor ()
      ensures fresh(bindings) && bindings.entries == map[]
    {
      bindings := new NotificationActionBindings();
    }

    /** `reply` is what the notification server answers; a missing or unreadable answer keeps the
        id to be replaced. */
    method SendNotification(session: Session, replacesId: NotifyId, reply: Reply, pruneAt: int, createdAt: int)
      returns (shown: NotifyId, ghost victim: NotifyId)
      requires pruneAt <= createdAt
      modifies bindings
      ensures shown == if reply.NoReply? then replacesId else reply.id
      ensures reply.Reply? && reply.id.id != 0 && session.activation.Some? ==>
                var op := Op.Replace(replacesId, reply.id, session.activation.value, pruneAt, createdAt, victim);
                Legal(op, old(bindings.entries), pruneAt) && bindings.entries == Apply(op, old(bindings.entries))
      ensures !(reply.Reply? && reply.id.id != 0 && session.activation.Some?) ==>
                bindings.entries == old(bindings.entries)
    {
      victim := replacesId;
      if reply.NoReply? {
        return replacesId, victim;
      }
      if reply.id.id != 0 && session.activation.Some? {
        ghost var op := bindings.Replace(replacesId, reply.id, session.activation.value, pruneAt, createdAt);
        victim := op.victim;
      }
      return reply.id, victim;
    }

    /** Returns the descriptor handed to the activation client, if any. */
    method HandleAction(id: NotifyId, key: string, now: int) returns (activated: Option<Descriptor>)
      modifies bindings
      ensures activated == if key == "open" then ConsumeResult(old(bindings.entries), id, now) else None
      ensures bindings.entries == if key == "open" then Apply(Op.Consume(id, now), old(bindings.entries))
                                  else old(bindings.entries)
    {
      if key != "open" {
        return None;
      }
      activated := bindings.Consume(id, now);
    }

    method HandleClosed(id: NotifyId)
      modifies bindings
      ensures bindings.entries == Apply(Op.Close(id), old(bindings.entries))
    {
      bindings.Close(id);
    }
  }

  class AgentDaemon {
    const registry: SessionRegistry
    const bridge: NotificationBridge
    var nextPrune: int

    constructor (nameOf: string -> string, now: int)
      ensures fresh(registry) && fresh(bridge) && fresh(bridge.bindings)
      ensures State() == NOTHING.now
    {
      registry := new SessionRegistry(nameOf);
      bridge := new NotificationBridge();
      nextPrune := now + MINUTE;
    }

    function State(): Agents
      reads registry, bridge.bindings
    {
      Agents(registry.sessions, bridge.bindings.entries)
    }

    method RegisterSession(provider: string, sessionId: string, pid: UInt32, cwd: string, title: Option<string>,
                           window: Option<string>, ancestry: ProcessAncestryReader, now: int)
      returns (sid: string, ghost step: Step)
      modifies registry
      ensures sid == AssignedId(provider, sessionId, pid)
      ensures step.Register? && IsLineage(ancestry.reader, pid, step.lineage)
      ensures step == Register(provider, sessionId, pid, cwd, registry.nameOf(cwd), step.lineage, title, window, now)
      ensures State() == Next(step, old(State()))
    {
      hide IsLineage, NewSession;
      ghost var lineage;
      sid, lineage := registry.RegisterSession(provider, sessionId, pid, cwd, title, window, ancestry, now);
      step := Register(provider, sessionId, pid, cwd, registry.nameOf(cwd), lineage, title, window, now);
    }

    method PublishEvent(e: AgentEvent, now: int, reply: Reply, pruneAt: int, createdAt: int)
      returns (ok: bool, ghost step: Step)
      requires pruneAt <= createdAt
      modifies registry, bridge.bindings
      ensures ok && step.Publish?
      ensures step == Publish(e, registry.nameOf(e.projectPath), now, reply, pruneAt, createdAt, step.victim)
      ensures State() == Next(step, old(State()))
      ensures var op := BindingOp(step, old(State())); op.Some? ==> Legal(op.value, old(State()).bindings, pruneAt)
    {
      hide Apply, Legal, PublishedSession;
      ok := registry.PublishEvent(e, now);
      var session := registry.sessions[e.sessionId];
      var shown; ghost var victim;
      shown, victim := bridge.SendNotification(session, session.notificationId, reply, pruneAt, createdAt);
      registry.UpdateNotificationId(e.sessionId, shown);
      step := Publish(e, registry.nameOf(e.projectPath), now, reply, pruneAt, createdAt, victim);
      assert registry.sessions == SessionsAfter(step, old(registry.sessions));
    }

    method EndSession(sessionId: string) returns (ended: bool)
      modifies registry
      ensures ended <==> sessionId in old(State()).sessions
      ensures State() == Next(End(sessionId), old(State()))
    {
      ended := registry.EndSession(sessionId);
    }

    /** Accepted when the session is known and activable and the client accepts its descriptor. */
    method ActivateSession(sessionId: string, clientAccepts: Descriptor -> bool) returns (accepted: bool)
      ensures accepted <==> sessionId in registry.sessions && registry.sessions[sessionId].activation.Some?
                            && registry.sessions[sessionId].activation.value.Valid()
                            && clientAccepts(registry.sessions[sessionId].activation.value)
    {
      if sessionId !in registry.sessions {
        return false;
      }
      var activation := registry.sessions[sessionId].activation;
      if activation.None? || !activation.value.Valid() {
        return false;
      }
      return clientAccepts(activation.value);
    }

    method ActionInvoked(id: NotifyId, key: string, now: int) returns (activated: Option<Descriptor>)
      modifies bridge.bindings
      ensures State() == Next(Step.ActionInvoked(id, key, now), old(State()))
      ensures activated == if key == "open" then ConsumeResult(old(State()).bindings, id, now) else None
    {
      activated := bridge.HandleAction(id, key, now);
    }

    method NotificationClosed(id: NotifyId)
      modifies bridge.bindings
      ensures State() == Next(Step.NotificationClosed(id), old(State()))
    {
      bridge.HandleClosed(id);
    }

    /** The idle branch of the main loop: stale sessions go once a minute. */
    method Idle(steadyNow: int, systemNow: int, steadyAfter: int)
      modifies this, registry
      ensures State() == if steadyNow >= old(nextPrune) then Next(PruneSessions(systemNow), old(State()))
                         else old(State())
      ensures nextPrune == if steadyNow >= old(nextPrune) then steadyAfter + 60 * 1_000_000_000 else old(nextPrune)
    {
      if steadyNow >= nextPrune {
        registry.PruneStaleSessions(systemNow);
        nextPrune := steadyAfter + MINUTE;
      }
    }
  }

  const MINUTE: int := 60_000_000_000
}
