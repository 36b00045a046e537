/** Agent sessions by id: registration, published events, ending and expiry. */
module SessionRegistry {
  import opened Common
  import opened Decimal
  import opened ActionBindings
  import opened ProcessAncestry

  datatype AgentState = Starting | Working | WaitingForApproval | WaitingForInput | Completed | Failed | Cancelled

  datatype Session = Session(provider: string, projectName: string, projectPath: string, pid: UInt32,
                             windowAddress: string, state: AgentState, lastTitle: string, lastMessage: string,
                             startTime: int, lastUpdate: int, notificationId: NotifyId, activation: Option<Descriptor>)

  datatype AgentEvent = AgentEvent(sessionId: string, provider: string, projectPath: string, state: AgentState,
                                   title: string, message: string)

  type Sessions = map<string, Session>

  const NO_NOTIFICATION := NotifyId(0)
  const MAX_TITLE: nat := 512
  const MAX_AGE: int := 86_400_000_000_000

  // ---- what each operation does ------------------------------------------------------------

  function AssignedId(provider: string, sessionId: string, pid: UInt32): string {
    if sessionId == "" then provider + "-" + Show(pid) else sessionId
  }

  function TitleHint(title: Option<string>): string {
    if title.None? then "" else title.value[..Min(|title.value|, MAX_TITLE)]
  }

  /** A session can be activated when its lineage is known. */
  function ActivationFor(lineage: seq<UInt32>, title: Option<string>): (a: Option<Descriptor>)
    ensures a.Some? <==> lineage != []
    ensures a.Some? ==> a.value.Valid()
  {
    var d := Descriptor(lineage, TitleHint(title));
    if d.Valid() then Some(d) else None
  }

  function NewSession(provider: string, pid: UInt32, cwd: string, name: string, lineage: seq<UInt32>,
                      title: Option<string>, window: Option<string>, now: int): Session {
    Session(provider, name, cwd, pid, if window.Some? then window.value else "", Starting, "", "", now, now,
            NO_NOTIFICATION, ActivationFor(lineage, title))
  }

  function OrElse(text: string, fallback: string): string { if text != "" then text else fallback }

  /** The session an event leaves behind: a bare one when it was unknown, else the old one updated
      with every nonempty field. Neither notification nor activation changes. */
  function PublishedSession(sessions: Sessions, e: AgentEvent, name: string, now: int): Session {
    if e.sessionId !in sessions then
      Session(e.provider, name, e.projectPath, 0, "", e.state, e.title, e.message, now, now, NO_NOTIFICATION, None)
    else
      var s := sessions[e.sessionId];
      s.(state := e.state, provider := OrElse(e.provider, s.provider),
         projectName := if e.projectPath != "" then name else s.projectName,
         projectPath := OrElse(e.projectPath, s.projectPath),
         lastTitle := OrElse(e.title, s.lastTitle), lastMessage := OrElse(e.message, s.lastMessage), lastUpdate := now)
  }

  function Live(sessions: Sessions, now: int): Sessions {
    map id | id in sessions && now - sessions[id].lastUpdate <= MAX_AGE :: sessions[id]
  }

  // ---- the class ---------------------------------------------------------------------------

  class SessionRegistry {
    var sessions: Sessions
    /** Project name of a path; path handling is not part of this model. */
    const nameOf: string -> string

    constructor (nameOf: string -> string)
      ensures sessions == map[] && this.nameOf == nameOf
    {
      this.nameOf, sessions := nameOf, map[];
    }

    method RegisterSession(provider: string, sessionId: string, pid: UInt32, cwd: string, title: Option<string>,
                           window: Option<string>, ancestry: ProcessAncestryReader, now: int)
      returns (sid: string, ghost lineage: seq<UInt32>)
      modifies this
      ensures sid == AssignedId(provider, sessionId, pid)
      ensures IsLineage(ancestry.reader, pid, lineage)
      ensures sessions == old(sessions)[sid := NewSession(provider, pid, cwd, nameOf(cwd), lineage, title, window, now)]
      ensures sid == (if sessionId != "" then sessionId else provider + "-" + Show(pid))
      ensures var s := sessions[sid];
              && s.provider == provider && s.pid == pid && s.projectPath == cwd && s.projectName == nameOf(cwd)
              && s.state == Starting && s.lastTitle == "" && s.lastMessage == "" && s.startTime == s.lastUpdate == now
              && s.notificationId == NotifyId(0) && (window.Some? ==> s.windowAddress == window.value)
              && (s.activation.Some? <==> lineage != [])
              && (lineage != [] ==> s.activation.value.lineage == lineage)
              && (lineage != [] && title.Some? ==>
                    |s.activation.value.title| <= 512 && s.activation.value.title <= title.value)
              && (lineage != [] && title.Some? && |title.value| <= 512 ==> s.activation.value.title == title.value)
    {
      hide IsLineage, Show;
      sid := if sessionId == "" then provider + "-" + Show(pid) else sessionId;
      var session := Session(provider, nameOf(cwd), cwd, pid, "", Starting, "", "", now, now, NO_NOTIFICATION, None);
      var found := ancestry.Read(pid);
      lineage := found;
      var activation := Descriptor(found, "");
      if title.Some? {
        activation := activation.(title := title.value[..Min(|title.value|, MAX_TITLE)]);
      }
      if activation.Valid() {
        session := session.(activation := Some(activation));
      }
      if window.Some? {
        session := session.(windowAddress := window.value);
      }
      sessions := sessions[sid := session];
    }

    method PublishEvent(e: AgentEvent, now: int) returns (ok: bool)
      modifies this
      ensures ok
      ensures sessions == old(sessions)[e.sessionId := PublishedSession(old(sessions), e, nameOf(e.projectPath), now)]
      ensures var s := sessions[e.sessionId];
              && s.state == e.state && s.lastUpdate == now
              && (e.title != "" ==> s.lastTitle == e.title) && (e.message != "" ==> s.lastMessage == e.message)
              && (e.provider != "" ==> s.provider == e.provider)
              && (e.projectPath != "" ==> s.projectPath == e.projectPath && s.projectName == nameOf(e.projectPath))
      ensures e.sessionId in old(sessions) ==>
                var s, before := sessions[e.sessionId], old(sessions)[e.sessionId];
                && (e.title == "" ==> s.lastTitle == before.lastTitle)
                && (e.message == "" ==> s.lastMessage == before.lastMessage)
                && (e.provider == "" ==> s.provider == before.provider)
                && (e.projectPath == "" ==> s.projectPath == before.projectPath && s.projectName == before.projectName)
                && s.notificationId == before.notificationId && s.activation == before.activation
    {
      if e.sessionId !in sessions {
        var added := Session(e.provider, nameOf(e.projectPath), e.projectPath, 0, "", e.state, e.title, e.message,
                             now, now, NO_NOTIFICATION, None);
        sessions := sessions[e.sessionId := added];
        return true;
      }
      var s := sessions[e.sessionId].(state := e.state);
      if e.provider != "" {
        s := s.(provider := e.provider);
      }
      if e.projectPath != "" {
        s := s.(projectPath := e.projectPath, projectName := nameOf(e.projectPath));
      }
      if e.title != "" {
        s := s.(lastTitle := e.title);
      }
      if e.message != "" {
        s := s.(lastMessage := e.message);
      }
      s := s.(lastUpdate := now);
      sessions := sessions[e.sessionId := s];
      return true;
    }

    method EndSession(sessionId: string) returns (ended: bool)
      modifies this
      ensures ended <==> sessionId in old(sessions)
      ensures sessions == old(sessions) - {sessionId}
    {
      ended := sessionId in sessions;
      sessions := sessions - {sessionId};
    }

    method UpdateNotificationId(sessionId: string, id: NotifyId)
      modifies this
      ensures sessions == if sessionId in old(sessions)
                          then old(sessions)[sessionId := old(sessions)[sessionId].(notificationId := id)]
                          else old(sessions)
    {
      if sessionId in sessions {
        sessions := sessions[sessionId := sessions[sessionId].(notificationId := id)];
      }
    }

    method PruneStaleSessions(now: int)
      modifies this
      ensures sessions == Live(old(sessions), now)
      ensures forall id :: id in sessions <==>
                id in old(sessions) && now - old(sessions)[id].lastUpdate <= 24 * 3600 * 1_000_000_000
      ensures forall id :: id in sessions ==> sessions[id] == old(sessions)[id]
    {
      ghost var before := sessions;
      var pending := sessions.Keys;
      while pending != {}
        invariant pending <= sessions.Keys <= before.Keys
        invariant forall id :: id in sessions ==> sessions[id] == before[id]
        invariant forall id :: id in before && id !in pending ==>
                    (id in sessions <==> now - before[id].lastUpdate <= MAX_AGE)
        decreases |pending|
      {
        var id :| id in pending;
        if now - sessions[id].lastUpdate > MAX_AGE {
          sessions := sessions - {id};
        }
        pending := pending - {id};
      }
    }
  }
}
