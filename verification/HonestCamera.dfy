/**
 A camera that plays its part: what it sends in the login and in the service phase, as reads and as octets, and what a
 session with it comes to.
 */
module HonestCamera {
  import opened Authentication
  import opened Bytes
  import opened Reads
  import opened ServiceConnection
  import opened Slp
  import opened Trace
  import CameraSide
  import Handshake
  import Program
  import ServiceOutcome
  import ServicePhase
  import Wsm

  // ---------- The login ----------

  /** What the camera has to say in the login; it may or may not send PD_SUCCESS. */
  datatype Exchange = Exchange(request: bytes, success: Option<bytes>, authType: byte, challenge: bytes,
                               confirmType: byte, confirmation: bytes)

  function Messages(x: Exchange): seq<bytes> {
    [x.request] + (if x.success.Some? then [x.success.value] else [])
    + [[16, x.authType] + x.challenge, [18, x.confirmType] + x.confirmation]
  }

  predicate Proper(x: Exchange) {
    Handshake.HasType(x.request, 5) && |x.request| >= 5 && (x.success.Some? ==> Handshake.HasType(x.success.value, 9))
  }

  /** The authenticator answers the challenge, in a frame that can be sent, and then accepts the confirmation. */
  ghost predicate Convinces(x: Exchange, auth: Handshake.Authenticator) {
    && auth.respond(x.challenge).Answered? && |auth.respond(x.challenge).body| + 2 < 0x1_0000
    && auth.verify(x.challenge, x.confirmation) == Handshake.Accepted
  }

  lemma LoginStep(auth: Handshake.Authenticator, script: seq<PlainRead>, r: PlainRead, next: Handshake.State)
    requires Handshake.IsRun(auth, script) && Handshake.Live(Handshake.Run(auth, script).state)
    requires Handshake.Step(auth, Handshake.Run(auth, script).state, r).state == next
    ensures Handshake.IsRun(auth, script + [r]) && Handshake.Run(auth, script + [r]).state == next
  {
    hide Handshake.Step;
  }

  lemma AtStart(auth: Handshake.Authenticator)
    ensures Handshake.IsRun(auth, []) && Handshake.Run(auth, []).state == Handshake.AwaitRequest
  {
  }

  /** The login goes through with any authenticator that the camera convinces. */
  lemma LoginGoesThrough(auth: Handshake.Authenticator, x: Exchange)
    requires Proper(x) && Convinces(x, auth)
    ensures var plain := AsReads(Messages(x));
      Handshake.IsRun(auth, plain) && Handshake.Run(auth, plain).state == Handshake.LoggedIn
      && Handshake.Challenge(plain) == x.challenge && Handshake.PayloadOf(plain, 0) == x.request
  {
    hide Handshake.Run, Handshake.IsRun, Handshake.PeerDescription, Handshake.CrcRequested;
    var a, c, d := Message(Some(x.request)), Message(Some([16, x.authType] + x.challenge)),
      Message(Some([18, x.confirmType] + x.confirmation));
    assert ([16, x.authType] + x.challenge)[2..] == x.challenge;
    assert ([18, x.confirmType] + x.confirmation)[2..] == x.confirmation;
    AtStart(auth);
    assert [] + [a] == [a];
    LoginStep(auth, [], a, Handshake.AwaitSuccess);
    var script := [a];
    if x.success.Some? {
      LoginStep(auth, script, Message(x.success), Handshake.AwaitAuth);
      script := script + [Message(x.success)];
    }
    LoginStep(auth, script, c, Handshake.AwaitConfirm(x.challenge));
    LoginStep(auth, script + [c], d, Handshake.LoggedIn);
    assert script + [c] + [d] == AsReads(Messages(x));
  }

  /** The exchange of a camera that holds `serverPrivate` and knows the ids, with a client that will draw `nonce`. */
  function Honest(c: Wsm.Suite, private: nat, serverPrivate: nat, ids: Wsm.Ids, challengeNonce: bytes, nonce: bytes,
                  request: bytes, success: Option<bytes>, authType: byte, confirmType: byte): Exchange
    requires |c.table| == 2048 && |nonce| == 2
  {
    Exchange(request, success, authType, Wsm.MakeChallenge(c, serverPrivate, challengeNonce), confirmType,
             Wsm.Confirmation(c, Wsm.SharedSecret(c, serverPrivate, private), challengeNonce, nonce, ids))
  }

  /**
   With a camera that plays its part the Python client logs in: for all key pairs, nonces and ids, the answer it sends
   passes the camera's own check, and the camera's confirmation of it ends the login.
   */
  lemma LogsIn(c: Wsm.Suite, private: nat, serverPrivate: nat, ids: Wsm.Ids, challengeNonce: bytes, nonce: bytes,
               request: bytes, success: Option<bytes>, authType: byte, confirmType: byte)
    requires Wsm.Sound(c) && |challengeNonce| == 2 && |nonce| == 2
    requires Proper(Honest(c, private, serverPrivate, ids, challengeNonce, nonce, request, success, authType, confirmType))
    ensures var auth := PythonAuthenticator(c, private, ids, nonce);
      var x := Honest(c, private, serverPrivate, ids, challengeNonce, nonce, request, success, authType, confirmType);
      var plain := AsReads(Messages(x));
      var answer := Handshake.AnswerTo(auth, Handshake.Challenge(plain));
      Convinces(x, auth) && Handshake.IsRun(auth, plain) && Handshake.Run(auth, plain).state == Handshake.LoggedIn
      && |x.challenge| == 70 && |answer| == 102 && Wsm.VerifyResponse(c, serverPrivate, ids, x.challenge, answer)
  {
    hide Handshake.Run, Handshake.IsRun, Handshake.Challenge, Messages, Wsm.Process, Wsm.Check, Wsm.VerifyResponse,
         Wsm.Confirmation, Wsm.MakeChallenge, Wsm.SharedSecret;
    Wsm.Agreement(c, private, serverPrivate, ids, Wsm.FRESH, challengeNonce, nonce);
    LoginGoesThrough(PythonAuthenticator(c, private, ids, nonce),
                     Honest(c, private, serverPrivate, ids, challengeNonce, nonce, request, success, authType, confirmType));
  }

  // ---------- The login on octets ----------

  /** Every message can come whole in one `os.read`. */
  ghost predicate Fits(x: Exchange) {
    forall m :: m in Messages(x) ==> |m| + 2 <= 4096
  }

  /** The camera's octets: its login messages, coming one by one and without a time-out, and then `rest`. */
  ghost predicate Sends(start: View, x: Exchange, rest: bytes)
    requires Fits(x)
  {
    && start.input == FramedAll(Messages(x)) + rest
    && OneByOne(start.plan, Messages(x)) && Awake(start.silent, |Messages(x)|)
  }

  lemma {:induction false} LiveBefore(auth: Handshake.Authenticator, script: seq<PlainRead>, k: nat)
    requires Handshake.IsRun(auth, script) && k < |script|
    ensures Handshake.Live(Handshake.Run(auth, script[..k]).state)
    decreases |script|
  {
    hide Handshake.Run;
    var n := |script| - 1;
    if k < n {
      LiveBefore(auth, script[..n], k);
      assert script[..n][..k] == script[..k];
    }
  }

  lemma {:induction false} FirstReads(lost: bool, start: View, n: nat, k: nat)
    requires k <= n
    ensures PlainReads(lost, start, n)[..k] == PlainReads(lost, start, k)
    decreases n
  {
    hide PlainNext;
    if k < n {
      FirstReads(lost, start, n - 1, k);
      assert PlainReads(lost, start, n)[..k] == PlainReads(lost, start, n - 1)[..k];
    }
  }

  /** A completed login reads just the camera's messages and leaves what follows them. */
  lemma LoginIsRead(auth: Handshake.Authenticator, x: Exchange, lost: bool, start: View, rest: bytes, plain: seq<PlainRead>)
    requires Proper(x) && Convinces(x, auth) && Fits(x) && Sends(start, x, rest)
    requires plain == PlainReads(lost, start, |plain|)
    requires Handshake.IsRun(auth, plain) && !Handshake.Live(Handshake.Run(auth, plain).state)
    ensures plain == AsReads(Messages(x)) && PlainView(lost, start, |plain|).input == rest
  {
    hide Handshake.Run, Handshake.IsRun, PlainReads, PlainView, Messages, Proper, Convinces, FramedAll, OneByOne, Awake;
    LoginGoesThrough(auth, x);
    var messages: seq<Short>, n := Messages(x), |plain|;
    var whole := AsReads(messages);
    if n < |messages| {
      OneByOneRead(lost, start, messages, rest, n);
      assert AsReads(messages[..n]) == whole[..n];
      LiveBefore(auth, whole, n);
    } else {
      OneByOneRead(lost, start, messages, rest, |messages|);
      assert messages[..|messages|] == messages;
      FirstReads(lost, start, n, |messages|);
      if n > |messages| {
        LiveBefore(auth, plain, |messages|);
      } else {
        NothingLeft(messages, rest);
      }
    }
  }

  lemma NothingLeft(messages: seq<Short>, rest: bytes)
    ensures FramedAll(messages[|messages|..]) + rest == rest
  {
  }

  // ---------- The session on octets ----------

  /** Of the reads that frames and silences amount to, a completed phase has consumed just as many as it needed. */
  lemma ReadsDetermined(frames: seq<Frame>, silent: seq<bool>, slp: seq<ServicePhase.Read>, n: nat, session: nat)
    requires slp == ReadsOf(frames, silent, |slp|)
    requires ServicePhase.IsRun(slp) && !ServicePhase.Live(ServicePhase.Run(slp).state)
    requires ServiceOutcome.GrantsCommand(ReadsOf(frames, silent, n), session)
    ensures ServiceOutcome.GrantsCommand(slp, session)
  {
    hide ServicePhase.Run, ServicePhase.IsRun, ServiceOutcome.GrantsCommand, ReadsOf;
    var script := ReadsOf(frames, silent, n);
    ServiceOutcome.CommandExactly(script, session);
    assert |script| == n by { SizeOf(frames, silent, n); }
    if n < |slp| {
      ReadsOfPrefix(frames, silent, |slp|, n);
      PhaseLiveBefore(slp, n);
    } else if n > |slp| {
      ReadsOfPrefix(frames, silent, n, |slp|);
      PhaseLiveBefore(script, |slp|);
    }
  }

  lemma SizeOf(frames: seq<Frame>, silent: seq<bool>, n: nat)
    ensures |ReadsOf(frames, silent, n)| == n
  {
  }

  lemma {:induction false} PhaseLiveBefore(script: seq<ServicePhase.Read>, k: nat)
    requires ServicePhase.IsRun(script) && k < |script|
    ensures ServicePhase.Live(ServicePhase.Run(script[..k]).state)
    decreases |script|
  {
    hide ServicePhase.Run;
    var n := |script| - 1;
    if k < n {
      PhaseLiveBefore(script[..n], k);
      assert script[..n][..k] == script[..k];
    }
  }

  /**
   A session with a peer whose stream is the camera's login messages, one by one, and then the encodings of `frames`:
   the login reads these messages and the phase these frames, in order and one for each wait that does not time out,
   and the session comes to command session `session` if and only if some of these reads grant it.
   */
  lemma SessionOnOctets(auth: Handshake.Authenticator, x: Exchange, frames: seq<SendableFrame>, lost: bool, start: View,
                        plain: seq<PlainRead>, slp: seq<ServicePhase.Read>, now: View, session: nat)
    requires Proper(x) && Convinces(x, auth) && Fits(x)
    requires Sends(start, x, EncodeAll(|x.request| >= 20 && x.request[19] == 1, frames))
    requires Handshake.IsSession(true, auth, plain, slp) && Program.Completed(auth, plain, slp)
    requires Explained(CrcMode(Handshake.SessionTrace(true, auth, plain, slp)), lost, start, plain, slp, now)
    ensures plain == AsReads(Messages(x))
    ensures var silent := Later(start.silent, |plain|);
      && slp == ReadsOf(frames, silent, |slp|)
      && (Program.CommandOf(Handshake.Run(auth, plain).state, ServicePhase.Run(slp).state) == Some(session)
          <==> exists n :: ServiceOutcome.GrantsCommand(ReadsOf(frames, silent, n), session))
  {
    hide Handshake.Run, Handshake.IsRun, Handshake.SessionTrace, Handshake.PayloadOf, ServicePhase.Run,
         ServicePhase.IsRun, ServiceOutcome.GrantsCommand, CrcMode, SlpChain, PlainReads, PlainView, Messages, Proper, Convinces,
         Sends, EncodeAll, ReadsOf, Later, Arrived, OnWireAll;
    var rest := EncodeAll(|x.request| >= 20 && x.request[19] == 1, frames);
    LoginIsRead(auth, x, lost, start, rest, plain);
    LoginGoesThrough(auth, x);
    CameraSide.SessionCrcMode(auth, plain, slp);
    SessionFramesArrive(|x.request| >= 20 && x.request[19] == 1, lost, start, plain, slp, now, frames);
    ServiceOutcome.CommandExactly(slp, session);
    var silent := Later(start.silent, |plain|);
    if n: nat :| ServiceOutcome.GrantsCommand(ReadsOf(frames, silent, n), session) {
      ReadsDetermined(frames, silent, slp, n, session);
    }
  }

  // ---------- The service phase ----------

  function ResponseFrame(r: Response): Frame {
    Frame(ServicePhase.DEFAULT_SESSION, 0, EncodeResponse(r))
  }

  /** What the camera sends after the login: a grant, its own queries, its services, and the grant of the command session. */
  function Conversation(capex: Response, queries: seq<Frame>, services: Frame, service: Response): seq<Frame> {
    [ResponseFrame(capex)] + queries + [services, ResponseFrame(service)]
  }

  ghost predicate Talks(capex: Response, queries: seq<Frame>, services: Frame, service: Response) {
    && capex.status == 0 && service.status == 0
    && 1 <= |queries| <= 14 && (forall q :: q in queries ==> ServicePhase.IsQuery(q))
    && |services.payload| >= 2 && (services.payload[0] == 2 || services.payload[0] == 6)
  }

  /** Of the first `k + 3` waits the one at `k` times out, and no other. */
  ghost predicate PausesAt(silent: seq<bool>, k: nat) {
    k < |silent| && silent[k] && forall i :: 0 <= i < k + 3 && i < |silent| && i != k ==> !silent[i]
  }

  lemma {:induction false} WaitsBefore(silent: seq<bool>, k: nat, i: nat)
    requires PausesAt(silent, k) && i <= k + 3
    ensures ReadyWaits(silent, i) == if i <= k then i else i - 1
    decreases i
  {
    if i > 0 {
      WaitsBefore(silent, k, i - 1);
    }
  }

  lemma ConversationReads(capex: Response, queries: seq<Frame>, services: Frame, service: Response, silent: seq<bool>, i: nat)
    requires PausesAt(silent, |queries| + 1) && i < |queries| + 4
    ensures var k := |queries| + 1;
      ReadAt(Conversation(capex, queries, services, service), silent, i)
      == if i == 0 then Some(OnWire(ResponseFrame(capex)))
         else if i < k then Some(OnWire(queries[i - 1]))
         else if i == k then None
         else if i == k + 1 then Some(OnWire(services))
         else Some(OnWire(ResponseFrame(service)))
  {
    hide EncodeResponse, OnWire;
    WaitsBefore(silent, |queries| + 1, i);
  }

  lemma ResponseReads(r: Response)
    requires r.status == 0
    ensures ServicePhase.AnswerIn(Some(OnWire(ResponseFrame(r)))) == Answer(true, r.sessions)
  {
    hide ParseAnswer;
    var whole := EncodeResponse(r);
    ResponseRoundTrip(r, []);
    assert whole + [] == whole;
    assert whole[0] == MSG_SERVICE_CONNECTION_RESPONSE;
  }

  lemma {:induction false} QueriesHandled(script: seq<ServicePhase.Read>, from: nat, n: nat)
    requires from + n < |script| && |ServicePhase.Replies(script[from])| > 0
    ensures ServiceOutcome.Handled(script, from, from + n + 1) > 0
    decreases n
  {
    hide ServicePhase.Replies;
    if n > 0 {
      QueriesHandled(script, from, n - 1);
    }
  }

  /** Such a conversation, with a pause after the queries, grants the first session of the last response, or 10. */
  lemma ConversationGrants(capex: Response, queries: seq<Frame>, services: Frame, service: Response, silent: seq<bool>)
    requires Talks(capex, queries, services, service) && PausesAt(silent, |queries| + 1)
    ensures ServiceOutcome.GrantsCommand(ReadsOf(Conversation(capex, queries, services, service), silent, |queries| + 4),
                                         ServicePhase.FirstOr(service.sessions, 10))
  {
    hide ServicePhase.AnswerIn, ServicePhase.Replies, ServicePhase.ComponentIn, EncodeResponse, OnWire, ReadAt, Conversation, PausesAt;
    var k := |queries| + 1;
    var script := ReadsOf(Conversation(capex, queries, services, service), silent, k + 3);
    forall i: nat | i < k + 3
      ensures script[i] == ReadAt(Conversation(capex, queries, services, service), silent, i)
      ensures 0 < i < k ==> script[i] == Some(OnWire(queries[i - 1]))
    {
      ConversationReads(capex, queries, services, service, silent, i);
    }
    ConversationReads(capex, queries, services, service, silent, 0);
    ConversationReads(capex, queries, services, service, silent, k);
    ConversationReads(capex, queries, services, service, silent, k + 1);
    ConversationReads(capex, queries, services, service, silent, k + 2);
    ResponseReads(capex);
    ResponseReads(service);
    assert ServiceOutcome.CapexGranted(script, 0);
    QueryReplied(queries[0]);
    QueriesHandled(script, 1, k - 2);
    assert ServiceOutcome.QueriesOver(script, 1, k + 1);
    ServicesTold(services);
    assert ServiceOutcome.ServicesOver(script, k + 1, k + 2);
    assert ServiceOutcome.CommandGranted(script, k + 2, ServicePhase.FirstOr(service.sessions, 10));
  }

  lemma QueryReplied(q: Frame)
    requires ServicePhase.IsQuery(q)
    ensures |ServicePhase.Replies(Some(OnWire(q)))| == 1
  {
  }

  lemma ServicesTold(f: Frame)
    requires |f.payload| >= 2 && (f.payload[0] == 2 || f.payload[0] == 6)
    ensures ServicePhase.ComponentIn(Some(OnWire(f))).Some?
  {
  }

  // ---------- The whole session ----------

  /**
   From the camera's octets to the command session: with the Python client, whatever keys, nonces, ids, versions and CRC
   mode, queries and services, a session with a camera that plays its part in the login and in the service phase
   returns the first session of its last response, or 10.
   */
  lemma SessionGoesThrough(c: Wsm.Suite, private: nat, serverPrivate: nat, ids: Wsm.Ids, challengeNonce: bytes, nonce: bytes,
                           request: bytes, success: Option<bytes>, authType: byte, confirmType: byte,
                           capex: Response, queries: seq<Frame>, services: Frame, service: Response,
                           lost: bool, start: View, plain: seq<PlainRead>, slp: seq<ServicePhase.Read>, now: View)
    requires Wsm.Sound(c) && |challengeNonce| == 2 && |nonce| == 2
    requires var x := Honest(c, private, serverPrivate, ids, challengeNonce, nonce, request, success, authType, confirmType);
      Proper(x) && Fits(x)
      && (forall f :: f in Conversation(capex, queries, services, service) ==> Sendable(f))
      && Sends(start, x, EncodeAll(|request| >= 20 && request[19] == 1, Conversation(capex, queries, services, service)))
      && PausesAt(Later(start.silent, |Messages(x)|), |queries| + 1)
    requires Talks(capex, queries, services, service)
    requires var auth := PythonAuthenticator(c, private, ids, nonce);
      Handshake.IsSession(true, auth, plain, slp) && Program.Completed(auth, plain, slp)
      && Explained(CrcMode(Handshake.SessionTrace(true, auth, plain, slp)), lost, start, plain, slp, now)
    ensures var auth := PythonAuthenticator(c, private, ids, nonce);
      Program.CommandOf(Handshake.Run(auth, plain).state, ServicePhase.Run(slp).state)
      == Some(ServicePhase.FirstOr(service.sessions, 10))
  {
    hide Handshake.Run, Handshake.IsRun, Handshake.IsSession, Handshake.SessionTrace, Program.Completed,
         Program.CommandOf, ServicePhase.Run, ServiceOutcome.GrantsCommand, Explained, CrcMode, Messages, Proper, Convinces, Fits,
         Sends, EncodeAll, ReadsOf, Later, Honest, PythonAuthenticator, PausesAt, Talks, Conversation, Wsm.VerifyResponse;
    LogsIn(c, private, serverPrivate, ids, challengeNonce, nonce, request, success, authType, confirmType);
    var x := Honest(c, private, serverPrivate, ids, challengeNonce, nonce, request, success, authType, confirmType);
    RequestOf(c, private, serverPrivate, ids, challengeNonce, nonce, request, success, authType, confirmType);
    ConversationGrants(capex, queries, services, service, Later(start.silent, |Messages(x)|));
    SessionOnOctets(PythonAuthenticator(c, private, ids, nonce), x, Conversation(capex, queries, services, service), lost, start,
                    plain, slp, now, ServicePhase.FirstOr(service.sessions, 10));
  }

  lemma RequestOf(c: Wsm.Suite, private: nat, serverPrivate: nat, ids: Wsm.Ids, challengeNonce: bytes, nonce: bytes,
                  request: bytes, success: Option<bytes>, authType: byte, confirmType: byte)
    requires |c.table| == 2048 && |nonce| == 2
    ensures Honest(c, private, serverPrivate, ids, challengeNonce, nonce, request, success, authType, confirmType).request == request
  {
  }
}
