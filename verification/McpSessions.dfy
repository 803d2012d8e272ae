/** The HTTP transports under interleaving (pkg/mcp/server.go): clients open and
    close SSE streams, post messages to sessions and send stateless requests, while
    credentials change. Opening a stream takes two steps (authenticate, register), a
    post takes two (look the session up, check its token and dispatch). */
module McpSessions {
  import opened Text
  import opened Auth
  import Store
  import McpTools

  /** SHA-256 of a token, kept symbolic. */
  datatype TokenHash = TokenHash(token: string)

  datatype Session = Session(owner: Identity, tokenHash: TokenHash)

  // ------------------------------------------------------------ the session table

  function Registered(sessions: map<nat, Session>, maxSessions: nat, id: nat, session: Session): map<nat, Session> {
    if |sessions| >= maxSessions then sessions else sessions[id := session]
  }

  class SessionTable {
    const maxSessions: nat
    var sessions: map<nat, Session>

    constructor (maxSessions: nat)
      ensures this.maxSessions == maxSessions && sessions == map[]
    {
      this.maxSessions := maxSessions;
      sessions := map[];
    }

    method Register(id: nat, session: Session) returns (ok: bool)
      modifies this
      ensures sessions == Registered(old(sessions), maxSessions, id, session)
      ensures ok <==> |old(sessions)| < maxSessions
    {
      if |sessions| >= maxSessions {
        return false;
      }
      sessions := sessions[id := session];
      return true;
    }

    method Remove(id: nat)
      modifies this
      ensures sessions == old(sessions) - {id}
    {
      sessions := sessions - {id};
    }

    method Lookup(id: nat) returns (session: Option<Session>)
      ensures session == if id in sessions then Some(sessions[id]) else None
    {
      if id !in sessions {
        return None;
      }
      return Some(sessions[id]);
    }
  }

  // ------------------------------------------------------------ the system

  datatype Handler =
    | Opening(id: nat, session: Session)
    | Streaming(id: nat)
    | Posting(id: nat, session: Session, token: string)
    | Finished

  /** A stream was authenticated: the token presented and the credentials then in force. */
  datatype Grant = Grant(token: string, creds: Credentials)

  /** A request was handled: the session it came on, if any, the token presented with
      it, whom it ran as, and the credentials in force. */
  datatype Dispatch = Dispatch(session: Option<nat>, token: string, runsAs: Identity, creds: Credentials, tool: string)

  /** Session ids are fresh (UUIDs): the `i`-th grant gets id `i`. */
  datatype System = System(
    maxSessions: nat,
    creds: Credentials,
    grants: seq<Grant>,
    sessions: map<nat, Session>,
    handlers: seq<Handler>,
    dispatched: seq<Dispatch>)

  datatype Step =
    | ChangeCredentials(creds: Credentials)
    | Connect(token: string)
    | Register(handler: nat)
    | Disconnect(handler: nat)
    | Post(id: nat, token: string)
    | Deliver(handler: nat, tool: string)
    | Streamable(token: string, tool: string)

  function SetHandler(s: System, h: nat, handler: Handler): System
    requires h < |s.handlers|
  {
    s.(handlers := s.handlers[h := handler])
  }

  /** One step; a step that is not enabled changes nothing. */
  function Apply(s: System, step: Step): System {
    match step
    case ChangeCredentials(creds) => s.(creds := creds)
    case Connect(token) =>
      (match Resolved(s.creds, token)
       case None => s
       case Some(owner) =>
         s.(grants := s.grants + [Grant(token, s.creds)],
            handlers := s.handlers + [Opening(|s.grants|, Session(owner, TokenHash(token)))]))
    case Register(h) =>
      if h < |s.handlers| && s.handlers[h].Opening? then
        var Opening(id, session) := s.handlers[h];
        SetHandler(s, h, if |s.sessions| >= s.maxSessions then Finished else Streaming(id)).(
          sessions := Registered(s.sessions, s.maxSessions, id, session))
      else s
    case Disconnect(h) =>
      if h < |s.handlers| && s.handlers[h].Streaming? then
        SetHandler(s, h, Finished).(sessions := s.sessions - {s.handlers[h].id})
      else s
    case Post(id, token) =>
      if id in s.sessions then s.(handlers := s.handlers + [Posting(id, s.sessions[id], token)]) else s
    case Deliver(h, tool) =>
      if h < |s.handlers| && s.handlers[h].Posting? then
        var Posting(id, session, token) := s.handlers[h];
        var s' := SetHandler(s, h, Finished);
        if TokenHash(token) == session.tokenHash then
          s'.(dispatched := s.dispatched + [Dispatch(Some(id), token, session.owner, s.creds, tool)])
        else s'
      else s
    case Streamable(token, tool) =>
      (match Resolved(s.creds, token)
       case None => s
       case Some(who) => s.(dispatched := s.dispatched + [Dispatch(None, token, who, s.creds, tool)]))
  }

  function Run(s: System, steps: seq<Step>): System
    decreases |steps|
  {
    if steps == [] then s else Run(Apply(s, steps[0]), steps[1..])
  }

  /** The HTTP handlers, going through the session table. Grants and dispatches are the
      ghost history; `nextId` stands for the fresh UUIDs. */
  class Transports {
    const table: SessionTable
    var creds: Credentials
    var nextId: nat
    var handlers: seq<Handler>
    ghost var grants: seq<Grant>
    ghost var dispatched: seq<Dispatch>

    constructor (maxSessions: nat, creds: Credentials)
      ensures fresh(table) && Valid() && Initial(State())
      ensures State().maxSessions == maxSessions && State().creds == creds
    {
      table := new SessionTable(maxSessions);
      this.creds := creds;
      nextId := 0;
      handlers, grants, dispatched := [], [], [];
    }

    ghost predicate Valid()
      reads this
    {
      nextId == |grants|
    }

    ghost function State(): System
      reads this, table
    {
      System(table.maxSessions, creds, grants, table.sessions, handlers, dispatched)
    }

    method ChangeCredentials(creds: Credentials)
      requires Valid()
      modifies this`creds
      ensures Valid() && State() == Apply(old(State()), Step.ChangeCredentials(creds))
    {
      this.creds := creds;
    }

    method Connect(token: string) returns (ok: bool)
      requires Valid()
      modifies this`nextId, this`handlers, this`grants
      ensures Valid() && State() == Apply(old(State()), Step.Connect(token))
      ensures ok <==> Resolved(creds, token).Some?
    {
      var owner := ResolveAuth(creds, token);
      if owner.None? {
        return false;
      }
      handlers := handlers + [Opening(nextId, Session(owner.value, TokenHash(token)))];
      grants := grants + [Grant(token, creds)];
      nextId := nextId + 1;
      return true;
    }

    method Register(h: nat) returns (ok: bool)
      requires Valid() && h < |handlers| && handlers[h].Opening?
      modifies this`handlers, table
      ensures Valid() && State() == Apply(old(State()), Step.Register(h))
      ensures ok <==> |old(table.sessions)| < table.maxSessions
    {
      var Opening(id, session) := handlers[h];
      ok := table.Register(id, session);
      handlers := handlers[h := if ok then Streaming(id) else Finished];
    }

    method Disconnect(h: nat)
      requires Valid() && h < |handlers| && handlers[h].Streaming?
      modifies this`handlers, table
      ensures Valid() && State() == Apply(old(State()), Step.Disconnect(h))
    {
      table.Remove(handlers[h].id);
      handlers := handlers[h := Finished];
    }

    method Post(id: nat, token: string) returns (found: bool)
      requires Valid()
      modifies this`handlers
      ensures Valid() && State() == Apply(old(State()), Step.Post(id, token))
      ensures found <==> id in table.sessions
    {
      var session := table.Lookup(id);
      if session.None? {
        return false;
      }
      handlers := handlers + [Posting(id, session.value, token)];
      return true;
    }

    /** The token check and the dispatch; the session may be gone from the table by now. */
    method Deliver(h: nat, tool: string) returns (runsAs: Option<Identity>)
      requires Valid() && h < |handlers| && handlers[h].Posting?
      modifies this`handlers, this`dispatched
      ensures Valid() && State() == Apply(old(State()), Step.Deliver(h, tool))
      ensures runsAs.Some? <==> TokenHash(old(handlers[h]).token) == old(handlers[h]).session.tokenHash
      ensures runsAs.Some? ==> runsAs.value == old(handlers[h]).session.owner
    {
      var Posting(id, session, token) := handlers[h];
      handlers := handlers[h := Finished];
      if TokenHash(token) != session.tokenHash {
        return None;
      }
      dispatched := dispatched + [Dispatch(Some(id), token, session.owner, creds, tool)];
      return Some(session.owner);
    }

    method Streamable(token: string, tool: string) returns (runsAs: Option<Identity>)
      requires Valid()
      modifies this`dispatched
      ensures Valid() && State() == Apply(old(State()), Step.Streamable(token, tool))
      ensures runsAs == Resolved(creds, token)
    {
      runsAs := ResolveAuth(creds, token);
      if runsAs.Some? {
        dispatched := dispatched + [Dispatch(None, token, runsAs.value, creds, tool)];
      }
    }
  }

  // ------------------------------------------------------------ safety

  /** The session is the one its grant authenticated. */
  ghost predicate Genuine(grants: seq<Grant>, id: nat, session: Session) {
    id < |grants|
    && Resolved(grants[id].creds, grants[id].token) == Some(session.owner)
    && session.tokenHash == TokenHash(grants[id].token)
  }

  ghost predicate HandlerOk(grants: seq<Grant>, handler: Handler) {
    match handler
    case Opening(id, session) => Genuine(grants, id, session)
    case Posting(id, session, token) => Genuine(grants, id, session)
    case _ => true
  }

  /** A request on a session carries the token that opened it and runs as the
      identity, role and scopes fixed then; a stateless one runs as its own token
      says at that moment. */
  ghost predicate DispatchOk(grants: seq<Grant>, d: Dispatch) {
    match d.session
    case Some(id) =>
      id < |grants| && d.token == grants[id].token && Resolved(grants[id].creds, d.token) == Some(d.runsAs)
    case None => Resolved(d.creds, d.token) == Some(d.runsAs)
  }

  ghost predicate SessionsOk(s: System) {
    |s.sessions| <= s.maxSessions
    && forall id :: id in s.sessions ==> Genuine(s.grants, id, s.sessions[id])
  }

  ghost predicate HandlersOk(s: System) {
    forall h :: 0 <= h < |s.handlers| ==> HandlerOk(s.grants, s.handlers[h])
  }

  ghost predicate DispatchesOk(s: System) {
    forall k :: 0 <= k < |s.dispatched| ==> DispatchOk(s.grants, s.dispatched[k])
  }

  ghost predicate Safe(s: System) {
    SessionsOk(s) && HandlersOk(s) && DispatchesOk(s)
  }

  ghost predicate Initial(s: System) {
    s.grants == [] && s.sessions == map[] && s.handlers == [] && s.dispatched == []
  }

  lemma GrantsGrow(s: System, step: Step)
    ensures s.grants <= Apply(s, step).grants && Apply(s, step).maxSessions == s.maxSessions
  {
  }

  lemma GenuineGrows(grants: seq<Grant>, more: seq<Grant>, id: nat, session: Session)
    requires grants <= more && Genuine(grants, id, session)
    ensures Genuine(more, id, session)
  {
  }

  /** What a step does to the table: nothing, one registration, or one removal. */
  lemma TableStep(s: System, step: Step)
    ensures var s' := Apply(s, step);
            if step.Register? && step.handler < |s.handlers| && s.handlers[step.handler].Opening? then
              s'.sessions == Registered(s.sessions, s.maxSessions, s.handlers[step.handler].id,
                   s.handlers[step.handler].session)
            else if step.Disconnect? && step.handler < |s.handlers| && s.handlers[step.handler].Streaming? then
              s'.sessions == s.sessions - {s.handlers[step.handler].id}
            else s'.sessions == s.sessions
  {
  }

  lemma TableBounds(sessions: map<nat, Session>, maxSessions: nat, id: nat, session: Session)
    requires |sessions| <= maxSessions
    ensures |Registered(sessions, maxSessions, id, session)| <= maxSessions && |sessions - {id}| <= maxSessions
  {
    assert (sessions - {id}).Keys == sessions.Keys - {id};
  }

  /** A session found after a step was there before it, or was just registered. */
  lemma TableOrigin(s: System, step: Step, id: nat)
    requires id in Apply(s, step).sessions
    ensures var session := Apply(s, step).sessions[id];
            (id in s.sessions && session == s.sessions[id])
            || (step.Register? && step.handler < |s.handlers| && s.handlers[step.handler] == Opening(id, session))
  {
    TableStep(s, step);
  }

  lemma StepTableSize(s: System, step: Step)
    requires |s.sessions| <= s.maxSessions
    ensures |Apply(s, step).sessions| <= s.maxSessions
  {
    TableStep(s, step);
    hide Apply, Registered;
    if step.Register? && step.handler < |s.handlers| && s.handlers[step.handler].Opening? {
      TableBounds(s.sessions, s.maxSessions, s.handlers[step.handler].id, s.handlers[step.handler].session);
    }
    if step.Disconnect? && step.handler < |s.handlers| && s.handlers[step.handler].Streaming? {
      TableBounds(s.sessions, s.maxSessions, s.handlers[step.handler].id, Session(Identity([], [], []), TokenHash([])));
    }
  }

  lemma StepSessions(s: System, step: Step)
    requires SessionsOk(s) && HandlersOk(s)
    ensures SessionsOk(Apply(s, step))
  {
    hide Apply, Genuine;
    var s' := Apply(s, step);
    GrantsGrow(s, step);
    StepTableSize(s, step);
    forall id | id in s'.sessions ensures Genuine(s'.grants, id, s'.sessions[id]) {
      TableOrigin(s, step, id);
      if id !in s.sessions || s'.sessions[id] != s.sessions[id] {
        assert HandlerOk(s.grants, s.handlers[step.handler]);
      }
      GenuineGrows(s.grants, s'.grants, id, s'.sessions[id]);
    }
  }

  lemma HandlerGrows(grants: seq<Grant>, more: seq<Grant>, handler: Handler)
    requires grants <= more && HandlerOk(grants, handler)
    ensures HandlerOk(more, handler)
  {
  }

  /** A handler found after a step was there before it, came to an end or a stream,
      or was just started: for a grant made now, or on a session then in the table. */
  lemma HandlerOrigin(s: System, step: Step, h: nat)
    requires h < |Apply(s, step).handlers|
    ensures var handler := Apply(s, step).handlers[h];
            (h < |s.handlers| && handler == s.handlers[h])
            || handler.Streaming? || handler.Finished?
            || (handler.Opening? && handler.id == |s.grants| && step.Connect?
                && Resolved(s.creds, step.token) == Some(handler.session.owner)
                && handler.session.tokenHash == TokenHash(step.token)
                && Apply(s, step).grants == s.grants + [Grant(step.token, s.creds)])
            || (handler.Posting? && handler.id in s.sessions && handler.session == s.sessions[handler.id])
  {
    hide Resolved;
  }

  lemma StepHandlers(s: System, step: Step)
    requires SessionsOk(s) && HandlersOk(s)
    ensures HandlersOk(Apply(s, step))
  {
    hide Apply, Resolved;
    var s' := Apply(s, step);
    GrantsGrow(s, step);
    forall h | 0 <= h < |s'.handlers| ensures HandlerOk(s'.grants, s'.handlers[h]) {
      HandlerOrigin(s, step, h);
      if h < |s.handlers| && s'.handlers[h] == s.handlers[h] {
        HandlerGrows(s.grants, s'.grants, s.handlers[h]);
      } else if s'.handlers[h].Posting? {
        GenuineGrows(s.grants, s'.grants, s'.handlers[h].id, s'.handlers[h].session);
      }
    }
  }

  lemma StepDispatches(s: System, step: Step)
    requires HandlersOk(s) && DispatchesOk(s)
    ensures DispatchesOk(Apply(s, step))
  {
    var s' := Apply(s, step);
    hide Resolved;
    GrantsGrow(s, step);
    if step.Deliver? && step.handler < |s.handlers| {
      assert HandlerOk(s.grants, s.handlers[step.handler]);
    }
    forall k | 0 <= k < |s.dispatched| ensures DispatchOk(s'.grants, s'.dispatched[k]) {
      assert DispatchOk(s.grants, s.dispatched[k]);
    }
  }

  lemma StepKeepsSafe(s: System, step: Step)
    requires Safe(s)
    ensures Safe(Apply(s, step)) && Apply(s, step).maxSessions == s.maxSessions
  {
    hide SessionsOk, HandlersOk, DispatchesOk;
    StepSessions(s, step);
    StepHandlers(s, step);
    StepDispatches(s, step);
    GrantsGrow(s, step);
  }

  lemma {:induction false} RunKeepsSafe(s: System, steps: seq<Step>)
    requires Safe(s)
    ensures Safe(Run(s, steps)) && Run(s, steps).maxSessions == s.maxSessions
    decreases |steps|
  {
    if steps != [] {
      StepKeepsSafe(s, steps[0]);
      RunKeepsSafe(Apply(s, steps[0]), steps[1..]);
    }
  }

  /** In every run the table never exceeds its limit, and every request handled on a
      session carried the token that opened it and ran as whom that token stood for
      when the stream was authenticated, whatever became of the token since. */
  lemma SessionSafety(s: System, steps: seq<Step>)
    requires Initial(s)
    ensures var end := Run(s, steps);
            |end.sessions| <= s.maxSessions
            && forall k :: 0 <= k < |end.dispatched| ==> DispatchOk(end.grants, end.dispatched[k])
  {
    RunKeepsSafe(s, steps);
  }

  /** A request on a session runs as the credentials in force would have it exactly when
      they resolve its token as they did when the stream was opened. */
  lemma SessionCurrentExactly(s: System, steps: seq<Step>, k: nat)
    requires Initial(s) && k < |Run(s, steps).dispatched| && Run(s, steps).dispatched[k].session.Some?
    ensures var end := Run(s, steps);
            var d := end.dispatched[k];
            d.session.value < |end.grants|
            && (Resolved(d.creds, d.token) == Some(d.runsAs)
                <==> Resolved(d.creds, d.token) == Resolved(end.grants[d.session.value].creds, d.token))
  {
    SessionSafety(s, steps);
    assert DispatchOk(Run(s, steps).grants, Run(s, steps).dispatched[k]);
  }

  /** The steps of a session opened before its token is revoked and used afterwards. */
  function Outlive(token: string, revoked: Credentials, tool: string): seq<Step> {
    [Connect(token), Register(0), ChangeCredentials(revoked), Post(0, token), Deliver(1, tool)]
  }

  lemma RunStep(s: System, first: Step, rest: seq<Step>)
    ensures Run(s, [first] + rest) == Run(Apply(s, first), rest)
    ensures Run(s, []) == s
  {
    assert ([first] + rest)[1..] == rest;
  }

  lemma FiveSteps(s: System, a: Step, b: Step, c: Step, d: Step, e: Step)
    ensures Run(s, [a, b, c, d, e]) == Apply(Apply(Apply(Apply(Apply(s, a), b), c), d), e)
  {
    hide *;
    assert [a, b, c, d, e] == [a] + ([b] + ([c] + ([d] + ([e] + []))));
    var s1 := Apply(s, a);
    var s2 := Apply(s1, b);
    var s3 := Apply(s2, c);
    var s4 := Apply(s3, d);
    RunStep(s, a, [b] + ([c] + ([d] + ([e] + []))));
    RunStep(s1, b, [c] + ([d] + ([e] + [])));
    RunStep(s2, c, [d] + ([e] + []));
    RunStep(s3, d, [e] + []);
    RunStep(s4, e, []);
    RunStep(Apply(s4, e), e, []);
  }

  lemma SessionOpens(s: System, token: string)
    requires Initial(s) && s.maxSessions >= 1 && Resolved(s.creds, token).Some?
    ensures var session := Session(Resolved(s.creds, token).value, TokenHash(token));
            Apply(Apply(s, Connect(token)), Register(0))
            == s.(grants := [Grant(token, s.creds)], sessions := map[0 := session], handlers := [Streaming(0)])
    ensures s.dispatched == []
  {
    hide Resolved;
  }

  lemma SessionUsed(s: System, session: Session, token: string, revoked: Credentials, tool: string)
    requires s.handlers == [Streaming(0)] && s.sessions == map[0 := session] && s.dispatched == []
    requires session.tokenHash == TokenHash(token)
    ensures Apply(Apply(Apply(s, ChangeCredentials(revoked)), Post(0, token)), Deliver(1, tool)).dispatched
         == [Dispatch(Some(0), token, session.owner, revoked, tool)]
  {
    var posted := s.(creds := revoked, handlers := [Streaming(0), Posting(0, session, token)]);
    assert Apply(Apply(s, ChangeCredentials(revoked)), Post(0, token)) == posted;
  }

  /** Whatever becomes of a token that was good, a session opened with it still runs
      requests as before. */
  lemma SessionOutlives(s: System, token: string, revoked: Credentials, tool: string)
    requires Initial(s) && s.maxSessions >= 1 && Resolved(s.creds, token).Some?
    ensures Run(s, Outlive(token, revoked, tool)).dispatched
         == [Dispatch(Some(0), token, Resolved(s.creds, token).value, revoked, tool)]
  {
    FiveSteps(s, Connect(token), Register(0), ChangeCredentials(revoked), Post(0, token), Deliver(1, tool));
    SessionOpens(s, token);
    hide *;
    var session := Session(Resolved(s.creds, token).value, TokenHash(token));
    SessionUsed(Apply(Apply(s, Connect(token)), Register(0)), session, token, revoked, tool);
  }

  /** After the gateway token is taken away, its session still runs as the admin it was. */
  lemma RevokedStillAdmin()
    ensures var good := Credentials("t0", map[], true, None);
            var revoked := Credentials("", map[], true, None);
            var d := Run(System(1, good, [], map[], [], []), Outlive("t0", revoked, "tool")).dispatched;
            |d| == 1 && d[0].creds == revoked && Resolved(d[0].creds, d[0].token) == None
            && d[0].runsAs.role == "admin"
  {
    var good, revoked := Credentials("t0", map[], true, None), Credentials("", map[], true, None);
    SessionOutlives(System(1, good, [], map[], [], []), "t0", revoked, "tool");
  }

  /** The credentials that decided whom a request ran as. */
  ghost function DecidedBy(s: System, d: Dispatch): Credentials
    requires DispatchOk(s.grants, d)
  {
    match d.session
    case Some(id) => s.grants[id].creds
    case None => d.creds
  }

  /** In every run the administrative handler is reached only by requests whose token
      was, when it was authenticated, the gateway's own or an enabled client token
      with the admin role; a token good only for OAuth never reaches it. */
  lemma AdminReached(s: System, steps: seq<Step>, k: nat, t: Store.Tables)
    requires Initial(s) && k < |Run(s, steps).dispatched|
    requires var d := Run(s, steps).dispatched[k];
             McpTools.GateFor(d.tool, d.runsAs.role, d.runsAs.scopes).Pass?
             && (McpTools.RouteOf(t, d.tool).AdminCall? || McpTools.RouteOf(t, d.tool).UnknownAdmin?)
    ensures var end := Run(s, steps);
            var d := end.dispatched[k];
            DispatchOk(end.grants, d)
            && (IsMaster(DecidedBy(end, d), d.token)
                || (IsClient(DecidedBy(end, d), d.token) && DecidedBy(end, d).clients[d.token].role == "admin"))
  {
    SessionSafety(s, steps);
    var end := Run(s, steps);
    var d := end.dispatched[k];
    McpTools.AdminReachedOnlyByAdmin(t, d.runsAs.role, d.runsAs.scopes, d.tool);
    AdminOnlyProvisioned(DecidedBy(end, d), d.token);
  }
}
