/** The handshake as it runs over a session: loops over reads, answering as it goes. */
module Program {
  import opened Bytes
  import opened Link
  import opened Reads
  import opened Slp
  import opened Trace
  import opened Session
  import opened ServiceConnection
  import opened ServicePhase
  import opened Authentication
  import Capex
  import Handshake

  /** The journal when the service phase began, and what the phase has read and sent since. */
  datatype History = History(reads0: seq<Read>, trace0: seq<Action>, script: seq<Read>, sent: seq<Action>) {
    function Add(r: Read, more: seq<Action>): History {
      this.(script := script + [r], sent := sent + more)
    }

    function Pay(a: Action): History {
      this.(sent := sent + [a])
    }
  }

  ghost predicate Logged(j: Journal, h: History)
    reads j
  {
    j.slpReads == h.reads0 + h.script && j.trace == h.trace0 + h.sent
  }

  /** The phase is in step with its machine in state `state`, save for actions that are still owed. */
  ghost predicate Phase(h: History, state: State, owed: seq<Action>) {
    IsRun(h.script) && Run(h.script) == Progress(state, h.sent + owed)
  }

  lemma Begin(reads0: seq<Read>, trace0: seq<Action>)
    ensures Phase(History(reads0, trace0, [], [CapexRequest()]), AwaitCapex(10), [])
  {
  }

  lemma Advance(h: History, state: State, r: Read, next: State, more: seq<Action>, owed: seq<Action>)
    requires Phase(h, state, []) && Live(state) && Step(state, r) == Progress(next, more + owed)
    ensures Phase(h.Add(r, more), next, owed)
  {
    hide Step, Run;
    RunLast(h.script, r);
    assert h.sent + [] + (more + owed) == h.sent + more + owed;
  }

  lemma PayOff(h: History, state: State, a: Action)
    requires Phase(h, state, [a])
    ensures Phase(h.Pay(a), state, [])
  {
  }

  method SendOwn(s: SapSession, payload: bytes, session: nat)
    requires s.Valid() && |payload| < 0x1000
    modifies s.fd`output, s.journal`trace
    ensures s.Valid() && s.journal.trace == old(s.journal.trace) + [Send(payload, session)]
  {
    var ok := s.SendSlpFrame(payload, session, 0);
  }

  method SendRequest(s: SapSession, profile: bytes, channels: seq<Channel>, initiator: u16, acceptor: u16)
    requires s.Valid() && |profile| < 0x100 && |channels| < 0x100
    modifies s.fd`output, s.journal`trace
    ensures s.Valid()
    ensures s.journal.trace
         == old(s.journal.trace) + [Send(EncodeRequest(Request(acceptor, initiator, profile, channels)), DEFAULT_SESSION)]
  {
    hide EncodeRequest, DecodeRequest, CrcMode, Trace.Wire, Explained;
    var request := MakeServiceConnectionRequest(profile, channels, initiator, acceptor);
    RequestRoundTrip(Request(acceptor, initiator, profile, channels));
    SendOwn(s, request.value, DEFAULT_SESSION);
  }

  /** `_handle_capex`. */
  method HandleCapex(s: SapSession, f: Received)
    requires s.Valid() && |f.payload| >= 2
    modifies s.fd`output, s.journal`trace
    ensures s.Valid() && s.journal.trace == old(s.journal.trace) + Replies(Some(f))
  {
    hide Capex.Encode, Capex.LegacyResponse;
    Capex.OwnMessagesAreShort(f.payload[1], 0);
    if f.payload[0] == 1 {
      var response := Capex.MakeCapexResponse(f.payload[1], 0);
      SendOwn(s, response, f.session);
    } else if f.payload[0] == 5 {
      SendOwn(s, Capex.LegacyResponse(), f.session);
    }
  }

  /** Answer a read if it brought a query; the same lines stand in each of the four read loops. */
  method AnswerQuery(s: SapSession, r: Read) returns (handled: bool)
    requires s.Valid()
    modifies s.fd`output, s.journal`trace
    ensures s.Valid() && s.journal.trace == old(s.journal.trace) + Replies(r)
    ensures |Replies(r)| == if handled then 1 else 0
  {
    handled := r.Some? && |r.value.payload| >= 2 && (r.value.payload[0] == 1 || r.value.payload[0] == 5);
    if handled {
      HandleCapex(s, r.value);
    }
  }

  // ---------- The machine's steps, as the loops need them ----------

  datatype Waited = WaitRaised | Waited(ok: bool, sessions: seq<u16>)

  /** Where the machine stands while `_wait_service_connection` waits, in its first and in its second use. */
  function Waiting(second: bool, left: nat): State {
    if left == 0 then Finished(None) else if second then AwaitService(left) else AwaitCapex(left)
  }

  function AfterWait(second: bool, w: Waited): State {
    match w
    case WaitRaised => Crashed
    case Waited(ok, sessions) =>
      if !ok then Finished(None)
      else if second then Finished(Some(FirstOr(sessions, 10)))
      else AnswerQueries(15, 0, FirstOr(sessions, 1))
  }

  function Outcome(a: Answer): Waited
    requires !a.NoAnswer?
  {
    if a.IndexError? then WaitRaised else Waited(a.ok, a.sessions)
  }

  lemma WaitStep(second: bool, left: nat, r: Read)
    requires left > 0
    ensures Live(Waiting(second, left))
    ensures Step(Waiting(second, left), r)
         == if AnswerIn(r).NoAnswer? then Progress(Waiting(second, left - 1), Replies(r) + [])
            else Progress(AfterWait(second, Outcome(AnswerIn(r))), [] + [])
  {
  }

  lemma NoneLeft(second: bool)
    ensures Waiting(second, 0) == AfterWait(second, Waited(false, []))
  {
  }

  lemma AnswerRead(r: Read)
    ensures AnswerIn(r) == if IsAnswer(r) then ParseAnswer(r.value.payload) else NoAnswer
    ensures IsAnswer(r) ==> Replies(r) == []
  {
  }

  function QueriesState(left: nat, handled: nat, capexSession: nat): State {
    if left == 0 then AwaitServices(10) else AnswerQueries(left, handled, capexSession)
  }

  lemma QueriesStep(left: nat, handled: nat, capexSession: nat, r: Read)
    requires left > 0
    ensures Live(QueriesState(left, handled, capexSession))
    ensures Step(QueriesState(left, handled, capexSession), r)
         == if left == 1 || (r.None? && handled > 0) then Progress(AwaitServices(10), Replies(r) + [ServicesQuery(capexSession)])
            else Progress(QueriesState(left - 1, handled + |Replies(r)|, capexSession), Replies(r) + [])
    ensures Replies(None) == []
  {
  }

  lemma QueriesAdvance(h: History, left: nat, handled: nat, capexSession: nat, r: Read)
    requires left > 0 && Phase(h, QueriesState(left, handled, capexSession), [])
    ensures if left == 1 || (r.None? && handled > 0) then Phase(h.Add(r, Replies(r)), AwaitServices(10), [ServicesQuery(capexSession)])
            else Phase(h.Add(r, Replies(r)), QueriesState(left - 1, handled + |Replies(r)|, capexSession), [])
    ensures Replies(None) == []
  {
    hide Replies, Step, ServicesQuery, Live, Phase;
    QueriesStep(left, handled, capexSession, r);
    if left == 1 || (r.None? && handled > 0) {
      Advance(h, QueriesState(left, handled, capexSession), r, AwaitServices(10), Replies(r), [ServicesQuery(capexSession)]);
    } else {
      Advance(h, QueriesState(left, handled, capexSession), r, QueriesState(left - 1, handled + |Replies(r)|, capexSession), Replies(r), []);
    }
  }

  function ServicesState(left: nat): State {
    if left == 0 then AwaitService(15) else AwaitServices(left)
  }

  lemma ServicesStep(left: nat, r: Read)
    requires left > 0
    ensures Live(ServicesState(left))
    ensures Step(ServicesState(left), r)
         == if ComponentIn(r).Some? then Progress(AwaitService(15), [] + [ServiceRequest(ComponentIn(r).value)])
            else Progress(ServicesState(left - 1), Replies(r) + if left == 1 then [ServiceRequest(0)] else [])
  {
  }

  lemma ComponentRead(r: Read)
    ensures ComponentIn(r) ==
      if r.None? || |r.value.payload| < 2 then None
      else if r.value.payload[0] == 2 then Some(OrZero(LastMatch(Capex.Parse(r.value.payload))))
      else if r.value.payload[0] == 6 then Some(0)
      else None
  {
  }

  // ---------- The loops ----------

  /** `_wait_service_connection`. */
  method WaitServiceConnection(s: SapSession, attempts: nat, ghost second: bool, ghost h0: History)
    returns (w: Waited, ghost h: History)
    requires s.Valid() && attempts > 0 && Logged(s.journal, h0) && Phase(h0, Waiting(second, attempts), [])
    modifies s`warnings, s.fd`input, s.fd`plan, s.fd`silent, s.fd`output, s.journal`slpReads, s.journal`trace
    ensures s.Valid() && Logged(s.journal, h) && h.reads0 == h0.reads0 && h.trace0 == h0.trace0
    ensures Phase(h, AfterWait(second, w), [])
  {
    hide ParseAnswer, Replies, Step, Waiting, AfterWait, AnswerIn, CrcMode, Trace.Wire, Explained, Live, Phase, SapSession.Valid;
    h := h0;
    for i := 0 to attempts
      invariant s.Valid() && Logged(s.journal, h) && h.reads0 == h0.reads0 && h.trace0 == h0.trace0
      invariant Phase(h, Waiting(second, attempts - i), [])
    {
      var r := s.ReadSlpFrame();
      WaitStep(second, attempts - i, r);
      AnswerRead(r);
      if IsAnswer(r) {
        var answer := ReadAnswer(r.value.payload);
        if !answer.NoAnswer? {
          w := Outcome(answer);
          Advance(h, Waiting(second, attempts - i), r, AfterWait(second, w), [], []);
          h := h.Add(r, []);
          return;
        }
      } else {
        var handled := AnswerQuery(s, r);
      }
      Advance(h, Waiting(second, attempts - i), r, Waiting(second, attempts - i - 1), Replies(r), []);
      h := h.Add(r, Replies(r));
    }
    w := Waited(false, []);
    NoneLeft(second);
  }

  /** The loop that answers the camera's own queries, until silence follows a query or fifteen reads are over. */
  method AnswerCamera(s: SapSession, ghost capexSession: nat, ghost h0: History) returns (ghost h: History)
    requires s.Valid() && Logged(s.journal, h0) && Phase(h0, QueriesState(15, 0, capexSession), [])
    modifies s`warnings, s.fd`input, s.fd`plan, s.fd`silent, s.fd`output, s.journal`slpReads, s.journal`trace
    ensures s.Valid() && Logged(s.journal, h) && h.reads0 == h0.reads0 && h.trace0 == h0.trace0
    ensures Phase(h, AwaitServices(10), [ServicesQuery(capexSession)])
  {
    hide Replies, Step, CrcMode, Trace.Wire, Explained, ServicesQuery, Live, Phase, QueriesState, SapSession.Valid;
    h := h0;
    var handled: nat := 0;
    for i := 0 to 15
      invariant s.Valid() && Logged(s.journal, h) && h.reads0 == h0.reads0 && h.trace0 == h0.trace0
      invariant if i < 15 then Phase(h, QueriesState(15 - i, handled, capexSession), [])
                else Phase(h, AwaitServices(10), [ServicesQuery(capexSession)])
    {
      var r := s.ReadSlpFrame();
      QueriesAdvance(h, 15 - i, handled, capexSession, r);
      h := h.Add(r, Replies(r));
      if r.None? {
        if handled > 0 {
          break;
        }
      } else {
        var answered := AnswerQuery(s, r);
        handled := handled + if answered then 1 else 0;
      }
    }
  }

  /** The component id of the last matching service of a response. */
  method FindComponent(msg: bytes) returns (component: Option<u16>)
    ensures component == LastMatch(Capex.Parse(msg))
  {
    hide Matches;
    var services, _ := Capex.ParseCapexResponse(msg);
    component := None;
    for i := 0 to |services|
      invariant component == LastMatch(services[..i])
    {
      assert services[..i + 1][..i] == services[..i];
      if Matches(services[i]) {
        component := Some(services[i].component);
      }
    }
    assert services[..|services|] == services;
  }

  /** The loop that waits for the camera's services. */
  method LearnComponent(s: SapSession, ghost h0: History) returns (component: Option<u16>, ghost h: History)
    requires s.Valid() && Logged(s.journal, h0) && Phase(h0, ServicesState(10), [])
    modifies s`warnings, s.fd`input, s.fd`plan, s.fd`silent, s.fd`output, s.journal`slpReads, s.journal`trace
    ensures s.Valid() && Logged(s.journal, h) && h.reads0 == h0.reads0 && h.trace0 == h0.trace0
    ensures Phase(h, AwaitService(15), [ServiceRequest(OrZero(component))])
  {
    hide Replies, Step, CrcMode, Trace.Wire, Explained, ServiceRequest, ComponentIn, LastMatch, Capex.Parse, Live, Phase, SapSession.Valid;
    h, component := h0, None;
    for i := 0 to 10
      invariant s.Valid() && Logged(s.journal, h) && h.reads0 == h0.reads0 && h.trace0 == h0.trace0 && component == None
      invariant Phase(h, ServicesState(10 - i), if i < 10 then [] else [ServiceRequest(0)])
    {
      var r := s.ReadSlpFrame();
      ServicesStep(10 - i, r);
      ComponentRead(r);
      if r.Some? && |r.value.payload| >= 2 && (r.value.payload[0] == 2 || r.value.payload[0] == 6) {
        if r.value.payload[0] == 2 {
          component := FindComponent(r.value.payload);
        }
        Advance(h, ServicesState(10 - i), r, AwaitService(15), [], [ServiceRequest(OrZero(component))]);
        h := h.Add(r, []);
        break;
      }
      var answered := AnswerQuery(s, r);
      Advance(h, ServicesState(10 - i), r, ServicesState(9 - i), Replies(r), if i < 9 then [] else [ServiceRequest(0)]);
      h := h.Add(r, Replies(r));
    }
  }

  datatype PhaseEnd = PhaseRaised | Command(session: Option<nat>)

  function EndState(e: PhaseEnd): State {
    match e
    case PhaseRaised => Crashed
    case Command(session) => Finished(session)
  }

  /** `_run_service_connection`: in step with the machine from its first send to its end. */
  method RunServiceConnection(s: SapSession) returns (e: PhaseEnd, ghost h: History)
    requires s.Valid()
    modifies s`warnings, s.fd`input, s.fd`plan, s.fd`silent, s.fd`output, s.journal`slpReads, s.journal`trace
    ensures s.Valid() && Logged(s.journal, h) && h.reads0 == old(s.journal.slpReads) && h.trace0 == old(s.journal.trace)
    ensures Phase(h, EndState(e), [])
  {
    hide EncodeRequest, Capex.EncodeQuery, CrcMode, Trace.Wire, Explained, Phase, SapSession.Valid;
    h := History(s.journal.slpReads, s.journal.trace, [], [CapexRequest()]);
    Begin(h.reads0, h.trace0);
    SendRequest(s, CAPEX_PROFILE, CAPEX_CHANNELS, 0xFFFF, 0xFFFF);
    var capex;
    capex, h := WaitServiceConnection(s, 10, false, h);
    if capex.WaitRaised? {
      e := PhaseRaised;
      return;
    }
    if !capex.ok {
      e := Command(None);
      return;
    }
    var capexSession := FirstOr(capex.sessions, 1);
    h := AnswerCamera(s, capexSession, h);

    var query := Capex.MakeCapexQuery(2, 0, []);
    Capex.OwnMessagesAreShort(2, 0);
    SendOwn(s, query.value, capexSession);
    PayOff(h, AwaitServices(10), ServicesQuery(capexSession));
    h := h.Pay(ServicesQuery(capexSession));
    var component;
    component, h := LearnComponent(s, h);

    SendRequest(s, SERVICE_PROFILE, SERVICE_CHANNELS, 0, OrZero(component));
    PayOff(h, AwaitService(15), ServiceRequest(OrZero(component)));
    h := h.Pay(ServiceRequest(OrZero(component)));
    var service;
    service, h := WaitServiceConnection(s, 15, true, h);
    e := if service.WaitRaised? then PhaseRaised
         else if !service.ok then Command(None)
         else Command(Some(FirstOr(service.sessions, 10)));
  }

  // ---------- The whole session ----------

  /** The login is in step with its machine: every plain read and every action since the start. */
  ghost predicate LoggingIn(j: Journal, auth: Handshake.Authenticator, state: Handshake.State, made: bool)
    reads j
  {
    Handshake.IsRun(auth, j.plainReads) && Handshake.Run(auth, j.plainReads) == Handshake.Progress(state, made, j.trace)
  }

  lemma LoginAdvance(auth: Handshake.Authenticator, script: seq<PlainRead>, r: PlainRead,
                     state: Handshake.State, made: bool, done: seq<Action>)
    requires Handshake.IsRun(auth, script) && Handshake.Run(auth, script) == Handshake.Progress(state, made, done)
    requires Handshake.Live(state)
    ensures Handshake.IsRun(auth, script + [r])
    ensures var now := Handshake.Step(auth, state, r);
      Handshake.Run(auth, script + [r]) == Handshake.Progress(now.state, made || now.made, done + now.done)
  {
  }

  method ReadPlain(s: SapSession, ghost auth: Handshake.Authenticator, ghost state: Handshake.State, ghost made: bool)
    returns (r: PlainRead)
    requires s.Valid() && s.journal.slpReads == []
    requires LoggingIn(s.journal, auth, state, made) && Handshake.Live(state)
    modifies s.fd`input, s.fd`plan, s.fd`silent, s.journal`plainReads
    ensures s.Valid() && Handshake.IsRun(auth, s.journal.plainReads)
    ensures var now := Handshake.Step(auth, state, r);
      Handshake.Run(auth, s.journal.plainReads)
      == Handshake.Progress(now.state, made || now.made, s.journal.trace + now.done)
  {
    hide Handshake.Run, Handshake.Step, Handshake.IsRun;
    ghost var script := s.journal.plainReads;
    r := s.ReadFrame();
    LoginAdvance(auth, script, r, state, made, s.journal.trace);
  }

  /** The message of a read that brought one. */
  function Payload(r: PlainRead): bytes {
    if r.Message? && r.payload.Some? then r.payload.value else []
  }

  /** Where the login stands after a read without a message: an OSError escapes, anything else gives up. */
  function WithoutMessage(r: PlainRead): Handshake.State {
    if r.Failed? then Handshake.Crashed else Handshake.Ended
  }

  lemma NoMessage(auth: Handshake.Authenticator, state: Handshake.State, r: PlainRead)
    requires Handshake.Live(state) && Payload(r) == []
    ensures Handshake.Step(auth, state, r) == Handshake.Progress(WithoutMessage(r), false, [])
  {
  }

  /** Phase 1 on the first message. */
  method DescribePeer(s: SapSession, ghost auth: Handshake.Authenticator, p: bytes) returns (state: Handshake.State)
    requires s.Valid() && s.journal.slpReads == [] && p != []
    modifies s`useCrc, s.fd`output, s.journal`trace
    ensures s.Valid()
    ensures var now := Handshake.Step(auth, Handshake.AwaitRequest, Message(Some(p)));
      state == now.state && !now.made && s.journal.trace == old(s.journal.trace) + now.done
  {
    hide CrcMode, Trace.Wire, Explained;
    if p[0] != 5 {
      return Handshake.Ended;
    }
    if |p| < 5 {
      return Handshake.Crashed;
    }
    var cameraMode := if |p| >= 20 then p[19] else 0;
    s.SetCrcMode(cameraMode == 1);
    var ok := s.SendFrame(Handshake.PeerDescription(U16At(p, 1), U16At(p, 3)));
    state := Handshake.AwaitSuccess;
  }

  /** Phase 2 on the message that should be AUTH_REQUEST. */
  method Authenticate(s: SapSession, maker: Maker, p: bytes)
    returns (state: Handshake.State, authenticator: WsmAuthenticator?)
    requires s.Valid() && p != [] && Usable(maker)
    modifies s.fd`output, s.journal`trace
    ensures s.Valid()
    ensures var now := Handshake.AuthStep(Model(maker), p);
      state == now.state && (authenticator != null <==> now.made) && s.journal.trace == old(s.journal.trace) + now.done
    ensures state.AwaitConfirm? ==>
      authenticator != null && authenticator.maker == maker && authenticator.Challenged(state.challenge)
  {
    hide CrcMode, Trace.Wire, Explained, Model;
    authenticator := null;
    if p[0] != 16 {
      state := Handshake.Ended;
      return;
    }
    if |p| < 2 {
      state := Handshake.Crashed;
      return;
    }
    s.Note(MadeAuthenticator);
    authenticator := new WsmAuthenticator(maker);
    var response := authenticator.ProcessChallenge(p[2..]);
    match response
    case ResponseRaised => state := Handshake.Crashed;
    case Refused => state := Handshake.Ended;
    case Answered(body) =>
      var ok := s.SendFrame([17, 0] + body);
      state := if ok then Handshake.AwaitConfirm(p[2..]) else Handshake.Crashed;
  }

  /** The confirmation. */
  method Confirm(s: SapSession, authenticator: WsmAuthenticator, ghost challenge: bytes, p: bytes) returns (state: Handshake.State)
    requires s.Valid() && p != [] && authenticator.Challenged(challenge)
    modifies s.journal`trace
    ensures s.Valid()
    ensures var now := Handshake.Step(Model(authenticator.maker), Handshake.AwaitConfirm(challenge), Message(Some(p)));
      state == now.state && !now.made && s.journal.trace == old(s.journal.trace) + now.done
  {
    hide CrcMode, Trace.Wire, Explained, Model;
    if p[0] != 18 {
      return Handshake.Ended;
    }
    var verdict := authenticator.VerifyConfirm(challenge, Handshake.Body(p));
    match verdict
    case VerifyRaised => state := Handshake.Crashed;
    case Accepted =>
      s.Note(Verdict(true));
      state := Handshake.LoggedIn;
    case Rejected =>
      s.Note(Verdict(false));
      state := Handshake.Ended;
  }

  method AwaitConfirmation(s: SapSession, authenticator: WsmAuthenticator, ghost challenge: bytes) returns (state: Handshake.State)
    requires s.Valid() && s.journal.slpReads == [] && authenticator.Challenged(challenge)
    requires LoggingIn(s.journal, Model(authenticator.maker), Handshake.AwaitConfirm(challenge), true)
    modifies s.fd`input, s.fd`plan, s.fd`silent, s.journal`plainReads, s.journal`trace
    ensures s.Valid() && LoggingIn(s.journal, Model(authenticator.maker), state, true) && !Handshake.Live(state)
  {
    hide CrcMode, Trace.Wire, Explained, Handshake.Run, Handshake.IsRun, Model, SapSession.Valid;
    ghost var auth := Model(authenticator.maker);
    var r := ReadPlain(s, auth, Handshake.AwaitConfirm(challenge), true);
    var p := Payload(r);
    if p == [] {
      NoMessage(auth, Handshake.AwaitConfirm(challenge), r);
      return WithoutMessage(r);
    }
    state := Confirm(s, authenticator, challenge, p);
  }

  /** Phases 1 and 2: in step with the login machine until it is no longer live. */
  method RunLogin(s: SapSession, maker: Maker) returns (state: Handshake.State, authenticator: WsmAuthenticator?)
    requires s.Valid() && s.journal.trace == [] && s.journal.plainReads == [] && s.journal.slpReads == [] && Usable(maker)
    modifies s`useCrc, s.fd`input, s.fd`plan, s.fd`silent, s.fd`output, s.journal`plainReads, s.journal`trace
    ensures s.Valid() && LoggingIn(s.journal, Model(maker), state, authenticator != null) && !Handshake.Live(state)
  {
    hide CrcMode, Trace.Wire, Explained, Handshake.Run, Handshake.IsRun, Handshake.AuthStep, Handshake.PeerDescription,
         Handshake.CrcRequested, U16At, Model, SapSession.Valid;
    authenticator := null;
    ghost var auth := Model(maker);
    LoginBegins(auth);
    var r := ReadPlain(s, auth, Handshake.AwaitRequest, false);
    var p := Payload(r);
    if p == [] {
      NoMessage(auth, Handshake.AwaitRequest, r);
      state := WithoutMessage(r);
      return;
    }
    state := DescribePeer(s, auth, p);
    if state != Handshake.AwaitSuccess {
      return;
    }
    r := ReadPlain(s, auth, state, false);
    p := Payload(r);
    if p != [] && p[0] == 9 {
      state := Handshake.AwaitAuth;
      r := ReadPlain(s, auth, state, false);
      p := Payload(r);
    }
    if p == [] {
      NoMessage(auth, state, r);
      state := WithoutMessage(r);
      return;
    }
    state, authenticator := Authenticate(s, maker, p);
    if state.AwaitConfirm? {
      state := AwaitConfirmation(s, authenticator, state.challenge);
    }
  }

  lemma LoginBegins(auth: Handshake.Authenticator)
    ensures Handshake.IsRun(auth, []) && Handshake.Run(auth, []) == Handshake.Progress(Handshake.AwaitRequest, false, [])
  {
  }

  /** Neither the login nor, if it went through, the service phase would read on. */
  ghost predicate Completed(auth: Handshake.Authenticator, plain: seq<PlainRead>, slp: seq<Read>) {
    var login := Handshake.Run(auth, plain).state;
    !Handshake.Live(login) && (login.LoggedIn? ==> !Live(Run(slp).state))
  }

  /** The command session of a login and a service phase that both went through. */
  function CommandOf(login: Handshake.State, service: State): Option<nat> {
    if login.LoggedIn? && service.Finished? then service.command else None
  }

  /** An exception ended the login, or the service phase after it. */
  function Raised(login: Handshake.State, service: State): bool {
    login.Crashed? || (login.LoggedIn? && service.Crashed?)
  }

  /**
   `run_wifi_session` up to the end of phase 3. `peer` is what opening the connection gave, if anything.
   Whatever the peer sends and the authenticator does, the reads are what the peer's octets and its silences explain
   and go on as long as login and service phase do; the journal ends up holding the trace that they determine, and the
   octets written are those of the trace.
   */
  method RunWifiSession(peer: Option<Endpoint>, maker: Maker, journal: Journal) returns (command: Option<nat>, raised: bool)
    requires journal.trace == [] && journal.plainReads == [] && journal.slpReads == [] && Usable(maker)
    requires peer.Some? ==> peer.value.output == []
    modifies journal, if peer.Some? then {peer.value} else {}
    ensures Handshake.IsSession(peer.Some?, Model(maker), journal.plainReads, journal.slpReads)
    ensures journal.trace == Handshake.SessionTrace(peer.Some?, Model(maker), journal.plainReads, journal.slpReads)
    ensures peer.Some? ==> Completed(Model(maker), journal.plainReads, journal.slpReads)
    ensures peer.Some? ==>
      Explained(CrcMode(journal.trace), peer.value.lost, old(View(peer.value.input, peer.value.plan, peer.value.silent)),
                journal.plainReads, journal.slpReads, View(peer.value.input, peer.value.plan, peer.value.silent))
    ensures peer.Some? ==> peer.value.output == Trace.Wire(journal.trace)
    ensures command == CommandOf(Handshake.Run(Model(maker), journal.plainReads).state, Run(journal.slpReads).state)
    ensures raised == Raised(Handshake.Run(Model(maker), journal.plainReads).state, Run(journal.slpReads).state)
  {
    hide Handshake.Run, Handshake.IsRun, Handshake.SessionTrace, Run, IsRun, CrcMode, Trace.Wire, Explained, Model;
    command, raised := None, false;
    if peer.None? {
      NoSession(Model(maker));
      journal.Did(ClosedConnection);
      return;
    }
    NothingWritten();
    var s := new SapSession(peer.value, journal);
    var state, authenticator := RunLogin(s, maker);
    raised := state == Handshake.Crashed;
    ghost var login, service: seq<Action> := journal.trace, [];
    if state == Handshake.LoggedIn {
      var e, h := RunServiceConnection(s);
      service := h.sent;
      assert journal.slpReads == h.script && journal.trace == login + service;
      command, raised := if e.Command? then e.session else None, e.PhaseRaised?;
    }
    assert journal.trace == login + service;
    SessionComposes(Model(maker), journal.plainReads, journal.slpReads, state, authenticator != null, login, service);
    if authenticator != null {
      s.Note(ClosedAuthenticator);
    }
    s.Note(ClosedConnection);
  }

  lemma NothingWritten()
    ensures !CrcMode([]) && Trace.Wire([]) == []
  {
  }

  lemma NoSession(auth: Handshake.Authenticator)
    ensures Handshake.Run(auth, []).state == Handshake.AwaitRequest
    ensures Handshake.IsSession(false, auth, [], []) && Handshake.SessionTrace(false, auth, [], []) == [ClosedConnection]
  {
  }

  lemma SessionComposes(auth: Handshake.Authenticator, plain: seq<PlainRead>, slp: seq<Read>,
                        state: Handshake.State, made: bool, login: seq<Action>, service: seq<Action>)
    requires Handshake.IsRun(auth, plain) && Handshake.Run(auth, plain) == Handshake.Progress(state, made, login)
    requires if state == Handshake.LoggedIn then IsRun(slp) && Run(slp).sent == service + [] else slp == [] && service == []
    ensures Handshake.IsSession(true, auth, plain, slp)
    ensures Handshake.SessionTrace(true, auth, plain, slp) == login + service + Handshake.Closing(made)
  {
  }
}
