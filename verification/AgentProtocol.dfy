/** The agent daemon as a step machine over its two tables. D-Bus messages are handled one at a
    time, so every handler is one step. */
module AgentProtocol {
  import opened Common
  import opened ActionBindings
  import opened SessionRegistry

  /** What became of a Notify call: no usable reply, or the id the server assigned. */
  datatype Reply = NoReply | Reply(id: NotifyId)

  datatype Step =
    | Register(provider: string, sessionId: string, pid: UInt32, cwd: string, name: string, lineage: seq<UInt32>,
               title: Option<string>, window: Option<string>, now: int)
    | Publish(e: AgentEvent, name: string, now: int, reply: Reply, pruneAt: int, createdAt: int, victim: NotifyId)
    | End(sessionId: string)
    | PruneSessions(now: int)
    | ActionInvoked(id: NotifyId, key: string, now: int)
    | NotificationClosed(id: NotifyId)

  datatype Agents = Agents(sessions: Sessions, bindings: Bindings)

  /** The session as a publish step sees it when it notifies. */
  function Notified(step: Step, a: Agents): Session
    requires step.Publish?
  {
    PublishedSession(a.sessions, step.e, step.name, step.now)
  }

  /** The binding operation of a step, if it makes one. */
  function BindingOp(step: Step, a: Agents): Option<Op> {
    match step
    case Publish(_, _, _, Reply(id), pruneAt, createdAt, victim) =>
      var s := Notified(step, a);
      if id.id != 0 && s.activation.Some?
      then Some(Replace(s.notificationId, id, s.activation.value, pruneAt, createdAt, victim)) else None
    case ActionInvoked(id, key, now) => if key == "open" then Some(Consume(id, now)) else None
    case NotificationClosed(id) => Some(Close(id))
    case _ => None
  }

  function SessionsAfter(step: Step, sessions: Sessions): Sessions {
    match step
    case Register(provider, sessionId, pid, cwd, name, lineage, title, window, now) =>
      var session := NewSession(provider, pid, cwd, name, lineage, title, window, now);
      sessions[AssignedId(provider, sessionId, pid) := session]
    case Publish(e, name, now, reply, _, _, _) =>
      var s := PublishedSession(sessions, e, name, now);
      sessions[e.sessionId := if reply.Reply? then s.(notificationId := reply.id) else s]
    case End(sessionId) => sessions - {sessionId}
    case PruneSessions(now) => Live(sessions, now)
    case _ => sessions
  }

  function BindingsAfter(step: Step, a: Agents): Bindings {
    var op := BindingOp(step, a);
    if op.Some? then Apply(op.value, a.bindings) else a.bindings
  }

  function Next(step: Step, a: Agents): Agents {
    Agents(SessionsAfter(step, a.sessions), BindingsAfter(step, a))
  }

  // ---- who owns a binding ------------------------------------------------------------------

  /** The tables with their history: every registration (explicit or by a first event) gets a
      number, each live session carries the number of its registration and each binding the
      number of the registration it was created for. */
  datatype Traced = Traced(now: Agents, registration: map<string, nat>, origin: map<NotifyId, nat>, issued: nat)

  const NOTHING := Traced(Agents(map[], map[]), map[], map[], 0)

  function RegistrationAfter(step: Step, t: Traced): (map<string, nat>, nat) {
    match step
    case Register(provider, sessionId, pid, _, _, _, _, _, _) =>
      (t.registration[AssignedId(provider, sessionId, pid) := t.issued], t.issued + 1)
    case Publish(e, _, _, _, _, _, _) =>
      if e.sessionId in t.now.sessions then (t.registration, t.issued)
      else (t.registration[e.sessionId := t.issued], t.issued + 1)
    case _ => (t.registration, t.issued)
  }

  function Trace(step: Step, t: Traced): Traced {
    var (registration, issued) := RegistrationAfter(step, t);
    var op := BindingOp(step, t.now);
    Traced(Next(step, t.now), registration,
           if op.Some? && op.value.Replace? && step.e.sessionId in registration
           then t.origin[op.value.newId := registration[step.e.sessionId]] else t.origin,
           issued)
  }

  /** Numbers are known, below the next one, and not shared by two live sessions. */
  predicate Numbered(t: Traced) {
    && (forall s :: s in t.now.sessions ==> s in t.registration && t.registration[s] < t.issued)
    && (forall r, s :: r in t.now.sessions && s in t.now.sessions && r != s ==> t.registration[r] != t.registration[s])
    && (forall k :: k in t.now.bindings ==> k in t.origin && t.origin[k] < t.issued && k.id != 0)
  }

  /** Bindings of a live session's registration sit under its current notification id, and the
      session can be activated. */
  predicate UnderCurrentId(t: Traced)
    requires Numbered(t)
  {
    forall k, s :: k in t.now.bindings && s in t.now.sessions && t.registration[s] == t.origin[k] ==>
      t.now.sessions[s].notificationId == k && t.now.sessions[s].activation.Some?
  }

  predicate OneEach(t: Traced)
    requires Numbered(t)
  {
    forall k, l :: k in t.now.bindings && l in t.now.bindings && t.origin[k] == t.origin[l] ==> k == l
  }

  predicate Safe(t: Traced) { Numbered(t) && UnderCurrentId(t) && OneEach(t) }

  /** The registration a publish step acts for. */
  function Actor(step: Step, t: Traced): nat
    requires step.Publish? && Numbered(t)
  {
    if step.e.sessionId in t.now.sessions then t.registration[step.e.sessionId] else t.issued
  }

  /** The server answers Notify with the invalid id 0 while the session has a live binding. */
  predicate ZeroReplyStrands(step: Step, t: Traced)
    requires Numbered(t)
  {
    && step.Publish? && step.reply == Reply(NotifyId(0))
    && exists k :: k in t.now.bindings && t.origin[k] == Actor(step, t)
  }

  lemma RoomIsPart(op: Op, b: Bindings)
    requires op.Replace?
    ensures forall k :: k in Room(op, b) ==> k in b && (op.oldId.id != 0 ==> k != op.oldId)
    ensures forall k :: k in BeforeInsert(op, b) ==> k in b && (op.oldId.id != 0 ==> k != op.oldId)
  {}

  /** Every binding after a step was there before, except the one a Replace inserts. */
  lemma BindingsOnlyShrink(step: Step, a: Agents)
    ensures forall k :: k in BindingsAfter(step, a) ==>
              var op := BindingOp(step, a);
              k in a.bindings || (op.Some? && op.value.Replace? && k == op.value.newId)
    ensures BindingOp(step, a).Some? && BindingOp(step, a).value.Replace? ==>
              step.Publish? && BindingOp(step, a).value.newId.id != 0
              && forall k :: k in BindingsAfter(step, a) && k != BindingOp(step, a).value.newId ==>
                   Notified(step, a).notificationId.id == 0 || k != Notified(step, a).notificationId
  {
    var op := BindingOp(step, a);
    if op.Some? && op.value.Replace? {
      RoomIsPart(op.value, a.bindings);
    }
  }

  lemma NumbersStay(step: Step, t: Traced)
    requires Numbered(t)
    ensures Numbered(Trace(step, t))
  {
    BindingsOnlyShrink(step, t.now);
    hide BindingsAfter, NewSession, PublishedSession;
  }

  lemma QuietUnderCurrentId(step: Step, t: Traced)
    requires Safe(t) && !step.Publish?
    ensures Numbered(Trace(step, t)) && UnderCurrentId(Trace(step, t))
  {
    NumbersStay(step, t);
    BindingsOnlyShrink(step, t.now);
    hide BindingsAfter, OneEach;
  }

  lemma QuietOneEach(step: Step, t: Traced)
    requires Safe(t) && !step.Publish?
    ensures Numbered(Trace(step, t)) && OneEach(Trace(step, t))
  {
    NumbersStay(step, t);
    BindingsOnlyShrink(step, t.now);
    hide BindingsAfter, UnderCurrentId, SessionsAfter;
  }

  /** The bindings made for the acting registration are under the current id of its session. */
  predicate ActorIsCurrent(t: Traced, sessionId: string, actor: nat) {
    && sessionId in t.now.sessions && sessionId in t.registration && t.registration[sessionId] == actor
    && forall k :: k in t.now.bindings && k in t.origin && t.origin[k] == actor ==>
         t.now.sessions[sessionId].notificationId == k && t.now.sessions[sessionId].activation.Some?
  }

  lemma PublishActor(step: Step, t: Traced)
    requires Safe(t) && step.Publish? && !ZeroReplyStrands(step, t)
    ensures ActorIsCurrent(Trace(step, t), step.e.sessionId, Actor(step, t))
  {
    BindingsOnlyShrink(step, t.now);
    hide BindingsAfter, OneEach;
  }

  lemma PublishUnderCurrentId(step: Step, t: Traced)
    requires Safe(t) && step.Publish? && !ZeroReplyStrands(step, t)
    ensures Numbered(Trace(step, t)) && UnderCurrentId(Trace(step, t))
  {
    NumbersStay(step, t);
    BindingsOnlyShrink(step, t.now);
    PublishActor(step, t);
    hide BindingsAfter, OneEach, PublishedSession, BindingOp;
    var after := Trace(step, t);
    forall k, s | k in after.now.bindings && s in after.now.sessions && after.registration[s] == after.origin[k]
      ensures after.now.sessions[s].notificationId == k && after.now.sessions[s].activation.Some?
    {
      if s != step.e.sessionId {
        assert after.origin[k] == t.origin[k] && after.registration[s] == t.registration[s];
      }
    }
  }

  lemma PublishOneEach(step: Step, t: Traced)
    requires Safe(t) && step.Publish? && !ZeroReplyStrands(step, t)
    ensures Numbered(Trace(step, t)) && OneEach(Trace(step, t))
  {
    NumbersStay(step, t);
    BindingsOnlyShrink(step, t.now);
    PublishActor(step, t);
    hide BindingsAfter, UnderCurrentId, PublishedSession;
  }

  /** From a safe state a publish step leads to a safe one exactly when the server's reply does not
      strand the session's binding under an id it no longer has. */
  lemma PublishSafeExactly(step: Step, t: Traced)
    requires Safe(t) && step.Publish?
    ensures Safe(Trace(step, t)) <==> !ZeroReplyStrands(step, t)
  {
    if ZeroReplyStrands(step, t) {
      var k :| k in t.now.bindings && t.origin[k] == Actor(step, t);
      var after := Trace(step, t);
      assert after.now.bindings == t.now.bindings && after.origin == t.origin;
      assert after.now.sessions[step.e.sessionId].notificationId.id == 0;
      assert after.registration[step.e.sessionId] == after.origin[k];
    } else {
      PublishUnderCurrentId(step, t);
      PublishOneEach(step, t);
    }
  }

  // ---- whole runs --------------------------------------------------------------------------

  function RunSteps(steps: seq<Step>): Traced {
    if steps == [] then NOTHING else Trace(steps[|steps| - 1], RunSteps(steps[..|steps| - 1]))
  }

  /** The server keeps the Desktop Notifications Specification: Notify never answers 0. */
  predicate ServerConforms(steps: seq<Step>) {
    forall i :: 0 <= i < |steps| && steps[i].Publish? ==> steps[i].reply != Reply(NotifyId(0))
  }

  /** In every reachable state the bindings made for one registration sit under its session's
      current notification id, and there is at most one of them. */
  lemma {:induction false} EveryRunIsSafe(steps: seq<Step>)
    requires ServerConforms(steps)
    ensures Safe(RunSteps(steps))
  {
    if steps != [] {
      var n := |steps| - 1;
      EveryRunIsSafe(steps[..n]);
      var t := RunSteps(steps[..n]);
      hide Trace, UnderCurrentId, OneEach, Numbered;
      if steps[n].Publish? {
        PublishSafeExactly(steps[n], t);
      } else {
        QuietUnderCurrentId(steps[n], t);
        QuietOneEach(steps[n], t);
      }
    }
  }

  // A concrete run in which the server answers 0.

  const TERMINAL := Descriptor([7], "")

  function TheSession(shown: NotifyId, at: int): Session {
    Session("codex", "p", "/p", 7, "", Working, "", "", 0, at, shown, Some(TERMINAL))
  }

  function TheState(shown: NotifyId, at: int, bindings: Bindings, origin: map<NotifyId, nat>): Traced {
    Traced(Agents(map["s" := TheSession(shown, at)], bindings), map["s" := 0], origin, 1)
  }

  const REGISTERS := Register("codex", "s", 7, "/p", "p", [7], None, None, 0)

  function Notifies(reply: NotifyId, at: int): Step {
    Publish(AgentEvent("s", "", "", Working, "", ""), "p", at, Reply(reply), at, at, NotifyId(9))
  }

  lemma RegisterThenNotify()
    ensures Trace(Notifies(NotifyId(1), 1), Trace(REGISTERS, NOTHING)) ==
            TheState(NotifyId(1), 1, map[NotifyId(1) := Entry(TERMINAL, 1)], map[NotifyId(1) := 0])
  {
    var t := Trace(REGISTERS, NOTHING);
    assert t.now.sessions["s"] == TheSession(NO_NOTIFICATION, 0).(state := Starting);
    var registered := map["s" := TheSession(NO_NOTIFICATION, 0).(state := Starting)];
    assert t == Traced(Agents(registered, map[]), map["s" := 0], map[], 1);
    assert BeforeInsert(Replace(NO_NOTIFICATION, NotifyId(1), TERMINAL, 1, 1, NotifyId(9)), map[]) == map[];
  }

  lemma NotifyZero(b: Bindings, origin: map<NotifyId, nat>)
    ensures Trace(Notifies(NotifyId(0), 2), TheState(NotifyId(1), 1, b, origin)) == TheState(NotifyId(0), 2, b, origin)
  {}

  lemma NotifyAgain()
    ensures var t := Trace(Notifies(NotifyId(2), 3),
                           TheState(NotifyId(0), 2, map[NotifyId(1) := Entry(TERMINAL, 1)], map[NotifyId(1) := 0]));
            && NotifyId(1) in t.now.bindings && NotifyId(2) in t.now.bindings
            && t.origin == map[NotifyId(1) := 0, NotifyId(2) := 0]
  {
    var b: Bindings := map[NotifyId(1) := Entry(TERMINAL, 1)];
    assert Pruned(b, 3) == b;
    assert BeforeInsert(Replace(NotifyId(0), NotifyId(2), TERMINAL, 3, 3, NotifyId(9)), b) == b;
  }

  /** Why the proviso is needed: when the server answers 0 in between, one registration ends up
      with two live bindings. */
  lemma ZeroReplyDuplicates()
    ensures var t := RunSteps([REGISTERS, Notifies(NotifyId(1), 1), Notifies(NotifyId(0), 2),
                               Notifies(NotifyId(2), 3)]);
            && NotifyId(1) in t.now.bindings && NotifyId(2) in t.now.bindings
            && t.origin == map[NotifyId(1) := 0, NotifyId(2) := 0]
  {
    FourSteps(REGISTERS, Notifies(NotifyId(1), 1), Notifies(NotifyId(0), 2), Notifies(NotifyId(2), 3));
    hide Trace, TheState, RunSteps;
    RegisterThenNotify();
    NotifyZero(map[NotifyId(1) := Entry(TERMINAL, 1)], map[NotifyId(1) := 0]);
    NotifyAgain();
  }

  lemma FourSteps(a: Step, b: Step, c: Step, d: Step)
    ensures RunSteps([a, b, c, d]) == Trace(d, Trace(c, Trace(b, Trace(a, NOTHING))))
  {
    hide Trace;
    OneMoreStep([], a);
    OneMoreStep([a], b);
    OneMoreStep([a, b], c);
    OneMoreStep([a, b, c], d);
    assert [] + [a] == [a] && [a] + [b] == [a, b] && [a, b] + [c] == [a, b, c] && [a, b, c] + [d] == [a, b, c, d];
  }

  lemma OneMoreStep(steps: seq<Step>, step: Step)
    ensures RunSteps(steps + [step]) == Trace(step, RunSteps(steps))
  {
    assert (steps + [step])[..|steps|] == steps;
  }

  // ---- bindings outlive sessions -----------------------------------------------------------

  predicate SessionOnly(step: Step) { step.Register? || step.End? || step.PruneSessions? }

  /** Registering, re-registering, ending and expiring sessions changes no binding. */
  lemma {:induction false} SessionStepsKeepBindings(steps: seq<Step>, more: seq<Step>)
    requires forall i :: 0 <= i < |more| ==> SessionOnly(more[i])
    ensures RunSteps(steps + more).now.bindings == RunSteps(steps).now.bindings
  {
    hide RunSteps, RegistrationAfter, SessionsAfter;
    if more == [] {
      assert steps + more == steps;
    } else {
      var n := |more| - 1;
      SessionStepsKeepBindings(steps, more[..n]);
      OneMoreStep(steps + more[..n], more[n]);
      assert steps + more == steps + more[..n] + [more[n]];
    }
  }

  /** Step i published a notification that got id k, for a session with activation d. */
  predicate PublishedAt(steps: seq<Step>, i: nat, k: NotifyId, d: Descriptor, createdAt: int) {
    && i < |steps| && steps[i].Publish? && steps[i].reply == Reply(k) && steps[i].createdAt == createdAt
    && Notified(steps[i], RunSteps(steps[..i]).now).activation == Some(d)
  }

  /** Step m replaces, consumes or closes notification k. */
  predicate Disturbs(steps: seq<Step>, m: nat, k: NotifyId)
    requires m < |steps|
  {
    var op := BindingOp(steps[m], RunSteps(steps[..m]).now);
    op.Some? && Touches(op.value, k)
  }

  predicate UndisturbedAfter(steps: seq<Step>, i: nat, k: NotifyId) {
    forall m :: i < m < |steps| ==> !Disturbs(steps, m, k)
  }

  lemma OneMoreUndisturbed(steps: seq<Step>, step: Step, i: nat, k: NotifyId, d: Descriptor, createdAt: int)
    requires PublishedAt(steps, i, k, d, createdAt) && UndisturbedAfter(steps, i, k)
    requires var op := BindingOp(step, RunSteps(steps).now); op.Some? ==> !Touches(op.value, k)
    ensures PublishedAt(steps + [step], i, k, d, createdAt) && UndisturbedAfter(steps + [step], i, k)
  {
    hide Notified, BindingOp, Touches, RunSteps;
    var all := steps + [step];
    assert all[..i] == steps[..i];
    forall m | i < m < |all| ensures !Disturbs(all, m, k) {
      assert all[..m] == steps[..m];
      if m < |steps| { assert !Disturbs(steps, m, k); } else { assert steps[..m] == steps; }
    }
  }

  lemma InsertedEntry(step: Step, a: Agents, k: NotifyId)
    requires var op := BindingOp(step, a); op.Some? && Inserts(op.value) && op.value.newId == k
    ensures step.Publish? && step.reply == Reply(k) && k in BindingsAfter(step, a)
    ensures var e := BindingsAfter(step, a)[k];
            Notified(step, a).activation == Some(e.descriptor) && step.createdAt == e.createdAt
  {
    hide Room, PublishedSession;
  }

  lemma NothingAfterLast(steps: seq<Step>, k: NotifyId)
    requires steps != []
    ensures UndisturbedAfter(steps, |steps| - 1, k)
  {}

  lemma JustPublished(steps: seq<Step>, step: Step, k: NotifyId)
    requires var op := BindingOp(step, RunSteps(steps).now); op.Some? && Inserts(op.value) && op.value.newId == k
    ensures k in RunSteps(steps + [step]).now.bindings
    ensures var e := RunSteps(steps + [step]).now.bindings[k];
            && PublishedAt(steps + [step], |steps|, k, e.descriptor, e.createdAt)
            && UndisturbedAfter(steps + [step], |steps|, k)
  {
    OneMoreStep(steps, step);
    assert (steps + [step])[..|steps|] == steps;
    hide RunSteps, SessionsAfter, RegistrationAfter, BindingOp, BindingsAfter, Notified, UndisturbedAfter, Inserts;
    InsertedEntry(step, RunSteps(steps).now, k);
    NothingAfterLast(steps + [step], k);
  }

  lemma {:induction false} BindingHasPublisher(steps: seq<Step>, k: NotifyId) returns (i: nat)
    requires k in RunSteps(steps).now.bindings
    ensures var e := RunSteps(steps).now.bindings[k];
            PublishedAt(steps, i, k, e.descriptor, e.createdAt) && UndisturbedAfter(steps, i, k)
  {
    hide PublishedAt, UndisturbedAfter, BindingOp, Apply, Touches, SessionsAfter, RegistrationAfter;
    var n := |steps| - 1;
    var before := steps[..n];
    assert before + [steps[n]] == steps;
    OneMoreStep(before, steps[n]);
    hide RunSteps;
    var a := RunSteps(before).now;
    var op := BindingOp(steps[n], a);
    if op.Some? && Inserts(op.value) && op.value.newId == k {
      i := n;
      JustPublished(before, steps[n], k);
    } else {
      UntouchedEntry(op, a.bindings, k);
      i := BindingHasPublisher(before, k);
      OneMoreUndisturbed(before, steps[n], i, k, a.bindings[k].descriptor, a.bindings[k].createdAt);
    }
  }

  lemma UntouchedEntry(op: Option<Op>, b: Bindings, k: NotifyId)
    requires op.Some? ==> k in Apply(op.value, b) && !(Inserts(op.value) && op.value.newId == k)
    requires op.None? ==> k in b
    ensures k in b
    ensures op.Some? ==> Apply(op.value, b)[k] == b[k] && !Touches(op.value, k)
  {}

  /** Opening a notification activates the terminal of the session that published it (whatever has
      become of that session since), no more than 24 hours later, and only if nothing replaced,
      used or closed it in between. */
  lemma OpenReachesPublisher(steps: seq<Step>, k: NotifyId, now: int) returns (i: nat)
    requires ConsumeResult(RunSteps(steps).now.bindings, k, now).Some?
    ensures var e := RunSteps(steps).now.bindings[k];
            && ConsumeResult(RunSteps(steps).now.bindings, k, now) == Some(e.descriptor)
            && PublishedAt(steps, i, k, e.descriptor, e.createdAt) && now - e.createdAt <= LIFETIME
            && UndisturbedAfter(steps, i, k)
  {
    i := BindingHasPublisher(steps, k);
  }

  // ---- where a session comes from ----------------------------------------------------------

  /** The step registers the session: explicitly, or by the first event of an unknown one. */
  predicate Begins(step: Step, sessions: Sessions, id: string) {
    match step
    case Register(provider, sessionId, pid, _, _, _, _, _, _) => AssignedId(provider, sessionId, pid) == id
    case Publish(e, _, _, _, _, _, _) => e.sessionId == id && id !in sessions
    case _ => false
  }

  /** What a session keeps from its registration: its process, its window, its start and how its
      terminal is activated. Only explicit registration tells the first two and the last. */
  predicate KeepsRegistration(step: Step, s: Session) {
    match step
    case Register(_, _, pid, _, _, lineage, title, window, now) =>
      && s.pid == pid && s.startTime == now && s.activation == ActivationFor(lineage, title)
      && s.windowAddress == (if window.Some? then window.value else "")
    case Publish(_, _, now, _, _, _, _) =>
      s.pid == 0 && s.startTime == now && s.activation.None? && s.windowAddress == ""
    case _ => false
  }

  predicate BeganAt(steps: seq<Step>, i: nat, id: string) {
    i < |steps| && Begins(steps[i], RunSteps(steps[..i]).now.sessions, id)
  }

  lemma SessionStep(step: Step, sessions: Sessions, id: string)
    requires id in SessionsAfter(step, sessions)
    ensures var s := SessionsAfter(step, sessions)[id];
            if Begins(step, sessions, id) then KeepsRegistration(step, s)
            else id in sessions && step != End(id)
                 && (forall begin :: KeepsRegistration(begin, sessions[id]) ==> KeepsRegistration(begin, s))
  {
    hide ActivationFor;
  }

  /** No step after i registers or ends the session. */
  predicate UntouchedSince(steps: seq<Step>, i: nat, id: string) {
    forall m :: i < m < |steps| ==> !BeganAt(steps, m, id) && steps[m] != End(id)
  }

  lemma OneMoreUntouched(steps: seq<Step>, step: Step, i: nat, id: string)
    requires BeganAt(steps, i, id) && UntouchedSince(steps, i, id)
    requires !Begins(step, RunSteps(steps).now.sessions, id) && step != End(id)
    ensures BeganAt(steps + [step], i, id) && UntouchedSince(steps + [step], i, id)
  {
    hide Begins, RunSteps;
    var all := steps + [step];
    assert all[..i] == steps[..i];
    forall m | i < m < |all| ensures !BeganAt(all, m, id) && all[m] != End(id) {
      assert all[..m] == steps[..m];
      if m < |steps| { assert !BeganAt(steps, m, id); } else { assert steps[..m] == steps; }
    }
  }

  /** In every reachable state a session keeps what the step that registered it last recorded, and it
      was neither registered again nor ended since, whatever events were published for it. */
  lemma {:induction false} SessionHasRegistration(steps: seq<Step>, id: string) returns (i: nat)
    requires id in RunSteps(steps).now.sessions
    ensures BeganAt(steps, i, id) && KeepsRegistration(steps[i], RunSteps(steps).now.sessions[id])
    ensures UntouchedSince(steps, i, id)
  {
    var n := |steps| - 1;
    var before := steps[..n];
    hide Begins, KeepsRegistration, SessionsAfter, UntouchedSince;
    SessionStep(steps[n], RunSteps(before).now.sessions, id);
    if Begins(steps[n], RunSteps(before).now.sessions, id) {
      i := n;
      LastIsUntouched(steps, id);
    } else {
      i := SessionHasRegistration(before, id);
      OneMoreUntouched(before, steps[n], i, id);
      assert before + [steps[n]] == steps;
    }
  }

  lemma LastIsUntouched(steps: seq<Step>, id: string)
    requires steps != []
    ensures UntouchedSince(steps, |steps| - 1, id)
  {}

  // ---- which sessions live, and what they tell ---------------------------------------------

  /** The step registers the session or publishes an event for it. */
  predicate Mentions(step: Step, id: string) {
    || (step.Register? && AssignedId(step.provider, step.sessionId, step.pid) == id)
    || (step.Publish? && step.e.sessionId == id)
  }

  /** When the session was last registered or published to. */
  function LastMention(steps: seq<Step>, id: string): int {
    if steps == [] then 0
    else
      var step := steps[|steps| - 1];
      if Mentions(step, id) then step.now else LastMention(steps[..|steps| - 1], id)
  }

  /** The session was mentioned, and since then neither ended nor pruned more than 24 hours after it
      was last mentioned. */
  predicate Alive(steps: seq<Step>, id: string) {
    steps != [] &&
    var before, step := steps[..|steps| - 1], steps[|steps| - 1];
    Mentions(step, id) ||
    (Alive(before, id) && step != End(id)
     && (step.PruneSessions? ==> step.now - LastMention(before, id) <= 24 * 3600 * 1_000_000_000))
  }

  lemma MentionStep(step: Step, sessions: Sessions, id: string)
    ensures id in SessionsAfter(step, sessions) <==>
            || Mentions(step, id)
            || (id in sessions && step != End(id)
                && (step.PruneSessions? ==> step.now - sessions[id].lastUpdate <= 24 * 3600 * 1_000_000_000))
    ensures id in SessionsAfter(step, sessions) ==>
            SessionsAfter(step, sessions)[id].lastUpdate ==
            if Mentions(step, id) then step.now else sessions[id].lastUpdate
  {
    hide ActivationFor;
  }

  /** In every run the sessions there are exactly those alive, each dated by its last mention. */
  lemma {:induction false} SessionsAreTheLiveOnes(steps: seq<Step>, id: string)
    ensures id in RunSteps(steps).now.sessions <==> Alive(steps, id)
    ensures Alive(steps, id) ==> RunSteps(steps).now.sessions[id].lastUpdate == LastMention(steps, id)
  {
    hide SessionsAfter, Mentions, BindingsAfter, RegistrationAfter;
    if steps != [] {
      var before := steps[..|steps| - 1];
      SessionsAreTheLiveOnes(before, id);
      MentionStep(steps[|steps| - 1], RunSteps(before).now.sessions, id);
    }
  }

  datatype Shown = Title | Message

  function TextOf(e: AgentEvent, which: Shown): string { if which == Title then e.title else e.message }

  /** The last nonempty text that events of the session gave since it was registered. */
  function LastText(steps: seq<Step>, id: string, which: Shown): string {
    if steps == [] then ""
    else
      var before, step := steps[..|steps| - 1], steps[|steps| - 1];
      if !Mentions(step, id) then LastText(before, id, which)
      else if step.Register? then ""
      else if TextOf(step.e, which) != "" then TextOf(step.e, which)
      else if !Alive(before, id) then ""
      else LastText(before, id, which)
  }

  /** The state its last event gave, or the one it starts in. */
  function LastState(steps: seq<Step>, id: string): AgentState {
    if steps == [] then Starting
    else
      var step := steps[|steps| - 1];
      if !Mentions(step, id) then LastState(steps[..|steps| - 1], id)
      else if step.Publish? then step.e.state
      else Starting
  }

  lemma TextStep(step: Step, sessions: Sessions, id: string)
    requires id in SessionsAfter(step, sessions)
    ensures Mentions(step, id) ==> step.Register? || step.Publish?
    ensures var s := SessionsAfter(step, sessions)[id];
            if !Mentions(step, id) then
              id in sessions && s.lastTitle == sessions[id].lastTitle && s.lastMessage == sessions[id].lastMessage
              && s.state == sessions[id].state
            else if step.Register? then s.lastTitle == "" && s.lastMessage == "" && s.state == Starting
            else
              && s.state == step.e.state
              && (s.lastTitle == if step.e.title != "" then step.e.title
                                 else if id in sessions then sessions[id].lastTitle else "")
              && (s.lastMessage == if step.e.message != "" then step.e.message
                                   else if id in sessions then sessions[id].lastMessage else "")
  {
    hide ActivationFor;
  }

  /** In every run a session shows the last title, message and state its events gave. */
  lemma {:induction false} SessionShowsLastEvents(steps: seq<Step>, id: string)
    requires Alive(steps, id)
    ensures id in RunSteps(steps).now.sessions
    ensures var s := RunSteps(steps).now.sessions[id];
            && s.lastTitle == LastText(steps, id, Title)
            && s.lastMessage == LastText(steps, id, Message)
            && s.state == LastState(steps, id)
  {
    SessionsAreTheLiveOnes(steps, id);
    hide SessionsAfter, Mentions, BindingsAfter, RegistrationAfter;
    var before, step := steps[..|steps| - 1], steps[|steps| - 1];
    SessionsAreTheLiveOnes(before, id);
    TextStep(step, RunSteps(before).now.sessions, id);
    if Alive(before, id) { SessionShowsLastEvents(before, id); }
  }

  /** Opening uses up the binding; the other button, and any other key, changes nothing. */
  lemma KeysMean(id: NotifyId, key: string, now: int, a: Agents)
    ensures BindingsAfter(ActionInvoked(id, "open", now), a) == Apply(Consume(id, now), a.bindings)
    ensures id !in BindingsAfter(ActionInvoked(id, "open", now), a)
    ensures key != "open" ==> Next(ActionInvoked(id, key, now), a) == a
  {}

  // ---- the daemon drives the binding table -------------------------------------------------

  function BindingOps(steps: seq<Step>): seq<Op> {
    if steps == [] then []
    else
      var before := steps[..|steps| - 1];
      var op := BindingOp(steps[|steps| - 1], RunSteps(before).now);
      BindingOps(before) + if op.Some? then [op.value] else []
  }

  lemma OneMoreOp(ops: seq<Op>, op: Op, clock: int)
    ensures Run(ops + [op], clock) == ActionBindings.Step(op, Run(ops, clock))
    ensures LegalRun(ops + [op], clock) <==>
            LegalRun(ops, clock) && Legal(op, Run(ops, clock).table, Run(ops, clock).clock)
  {
    assert (ops + [op])[..|ops|] == ops;
  }

  /** The bindings of every protocol run are those of a run of table operations. */
  lemma {:induction false} ProtocolRunsTheTable(steps: seq<Step>, clock: int)
    ensures RunSteps(steps).now.bindings == Run(BindingOps(steps), clock).table
  {
    if steps != [] {
      var before := steps[..|steps| - 1];
      ProtocolRunsTheTable(before, clock);
      var op := BindingOp(steps[|steps| - 1], RunSteps(before).now);
      hide Apply, BindingOp;
      if op.Some? {
        OneMoreOp(BindingOps(before), op.value, clock);
      } else {
        assert BindingOps(steps) == BindingOps(before);
      }
    }
  }

  /** The last reading of the steady clock, which only publishing and opening read; `clock` is the
      one at the start. Sessions are dated by the system clock. */
  function SteadyAfter(step: Step, clock: int): int {
    if step.Publish? then step.createdAt else if step.ActionInvoked? then step.now else clock
  }

  function SteadyClock(steps: seq<Step>, clock: int): int {
    if steps == [] then clock else SteadyAfter(steps[|steps| - 1], SteadyClock(steps[..|steps| - 1], clock))
  }

  /** The steady clock does not run backwards, and a binding that makes room is an oldest one. */
  predicate LegalStep(step: Step, a: Agents, clock: int) {
    && (step.Publish? ==> clock <= step.pruneAt <= step.createdAt)
    && (step.ActionInvoked? ==> clock <= step.now)
    && var op := BindingOp(step, a);
       op.Some? && Evicts(op.value, a.bindings) ==> IsOldest(BeforeInsert(op.value, a.bindings), op.value.victim)
  }

  predicate LegalSteps(steps: seq<Step>, clock: int) {
    steps == [] ||
    var before := steps[..|steps| - 1];
    LegalSteps(before, clock) && LegalStep(steps[|steps| - 1], RunSteps(before).now, SteadyClock(before, clock))
  }

  lemma LegalBindingOp(step: Step, a: Agents, s: State, clock: int)
    requires LegalStep(step, a, clock) && s.clock <= clock && s.table == a.bindings
    ensures var op := BindingOp(step, a);
            op.Some? ==> Legal(op.value, s.table, s.clock)
                         && ActionBindings.Step(op.value, s).clock <= SteadyAfter(step, clock)
    ensures clock <= SteadyAfter(step, clock)
  {
    hide BeforeInsert, IsOldest, Evicts, Apply, ApplyIdeal, PublishedSession;
  }

  lemma LastOp(steps: seq<Step>, step: Step)
    ensures var op := BindingOp(step, RunSteps(steps).now);
            BindingOps(steps + [step]) == BindingOps(steps) + if op.Some? then [op.value] else []
  {
    assert (steps + [step])[..|steps|] == steps;
  }

  /** The table operations of a legal run of the daemon are a legal run of the table. */
  lemma {:induction false} StepsAreLegal(steps: seq<Step>, clock: int)
    requires LegalSteps(steps, clock)
    ensures LegalRun(BindingOps(steps), clock) && Run(BindingOps(steps), clock).clock <= SteadyClock(steps, clock)
  {
    if steps != [] {
      var before, step := steps[..|steps| - 1], steps[|steps| - 1];
      assert steps == before + [step];
      StepsAreLegal(before, clock);
      ProtocolRunsTheTable(before, clock);
      LastOp(before, step);
      hide LegalStep, Legal, BindingOp, BindingOps, SteadyAfter, ActionBindings.Step, LegalRun, Run, RunSteps;
      var a := RunSteps(before).now;
      var op := BindingOp(step, a);
      LegalBindingOp(step, a, Run(BindingOps(before), clock), SteadyClock(before, clock));
      if op.Some? {
        OneMoreOp(BindingOps(before), op.value, clock);
      } else {
        assert BindingOps(steps) == BindingOps(before);
      }
    }
  }

  /** In every reachable state of the daemon the bindings refine the unbounded map that never
      forgets: at most 256 of them, all usable, none expired at the last prune, and all the
      unexpired ones there are until one is evicted. */
  lemma DaemonRefinesTable(steps: seq<Step>, clock: int)
    requires LegalSteps(steps, clock)
    ensures var s := Run(BindingOps(steps), clock);
            s.table == RunSteps(steps).now.bindings && Refines(s) && s.clock <= SteadyClock(steps, clock)
    ensures |RunSteps(steps).now.bindings| <= 256
  {
    StepsAreLegal(steps, clock);
    ProtocolRunsTheTable(steps, clock);
    EveryRunRefines(BindingOps(steps), clock);
  }
}
