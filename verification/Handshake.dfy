/**
 Phases 1 and 2, peer description and WSM authentication, as a state machine over plain reads, and the
 trace of a whole session: these two phases, the service connection, and the clean-up.
 */
module Handshake {
  import opened Bytes
  import opened Trace
  import Capex
  import ServicePhase

  /** What an authenticator does with a challenge, and then with a confirmation. */
  datatype Response = Refused | Answered(body: bytes) | ResponseRaised
  datatype Verification = Accepted | Rejected | VerifyRaised
  datatype Authenticator = Authenticator(respond: bytes -> Response, verify: (bytes, bytes) -> Verification)

  const PHONE_MODEL: bytes := Ascii("SM-G930F")
  const PHONE_MANUFACTURER: bytes := Ascii("samsung")
  const PHONE_FRIENDLY_NAME: bytes := Ascii("SAMSUNG")
  const DEVICE_UUID: bytes := Ascii("00000000-0000-0000-0000-000000000001")

  /** PD_RESPONSE: echoes the versions, otherwise fixed; the last text field is not terminated. */
  function PeerDescription(protoVersion: u16, swVersion: u16): (b: bytes)
    ensures |b| == 101 && b[0] == 6 && b[1..3] == Be16(protoVersion) && b[3..5] == Be16(swVersion)
  {
    [6] + Be16(protoVersion) + Be16(swVersion)
    + ([0, 2] + Be32(0x000F_FAAA) + Be16(0xF0AA) + Be16(0x03FE) + Be16(0xFFFF) + [2] + Be16(10) + [1]
       + Terminated(PHONE_MODEL) + Terminated(PHONE_MANUFACTURER) + Terminated(PHONE_FRIENDLY_NAME)
       + Terminated(Capex.DEVICE_PROFILE) + DEVICE_UUID + [0])
  }

  lemma PeerNumbers(proto: u16, sw: u16)
    ensures [6] + Be16(proto) + Be16(sw) == [6, proto / 0x100, proto % 0x100, sw / 0x100, sw % 0x100]
    ensures [0, 2] + Be32(0x000F_FAAA) + Be16(0xF0AA) + Be16(0x03FE) + Be16(0xFFFF) + [2] + Be16(10) + [1]
         == [0, 2, 0x00, 0x0F, 0xFA, 0xAA, 0xF0, 0xAA, 0x03, 0xFE, 0xFF, 0xFF, 2, 0, 10, 1]
  {
  }

  lemma JoinTexts(head: bytes, limits: bytes, a: bytes, b: bytes, c: bytes, d: bytes, e: bytes, z: bytes)
    ensures head + (limits + a + b + c + d + e + z) == head + limits + a + b + c + d + e + z
  {
  }

  /** Every octet of PD_RESPONSE: numbers high octet first, and the texts. */
  lemma PeerDescriptionOctets(proto: u16, sw: u16)
    ensures PeerDescription(proto, sw)
         == [6, proto / 0x100, proto % 0x100, sw / 0x100, sw % 0x100]
            + [0, 2, 0x00, 0x0F, 0xFA, 0xAA, 0xF0, 0xAA, 0x03, 0xFE, 0xFF, 0xFF, 2, 0, 10, 1]
            + (Ascii("SM-G930F") + [0x3B]) + (Ascii("samsung") + [0x3B]) + (Ascii("SAMSUNG") + [0x3B])
            + (Ascii("/system/DI_360_2D") + [0x3B]) + Ascii("00000000-0000-0000-0000-000000000001") + [0]
  {
    hide Ascii, Be16, Be32;
    PeerNumbers(proto, sw);
    JoinTexts([6] + Be16(proto) + Be16(sw), [0, 2] + Be32(0x000F_FAAA) + Be16(0xF0AA) + Be16(0x03FE) + Be16(0xFFFF) + [2] + Be16(10) + [1],
              Terminated(PHONE_MODEL), Terminated(PHONE_MANUFACTURER), Terminated(PHONE_FRIENDLY_NAME), Terminated(Capex.DEVICE_PROFILE),
              DEVICE_UUID, [0]);
  }

  /** The camera asks for CRCs by octet 19 of its request. */
  function CrcRequested(request: bytes): bool {
    |request| >= 20 && request[19] == 1
  }

  datatype State = AwaitRequest | AwaitSuccess | AwaitAuth | AwaitConfirm(challenge: bytes) | LoggedIn | Ended | Crashed

  /** `made` tells whether an authenticator exists that will need closing. */
  datatype Progress = Progress(state: State, made: bool, done: seq<Action>)

  predicate Live(s: State) {
    s.AwaitRequest? || s.AwaitSuccess? || s.AwaitAuth? || s.AwaitConfirm?
  }

  function AuthStep(auth: Authenticator, payload: bytes): (p: Progress)
    requires payload != []
    ensures p.state.AwaitConfirm? || !Live(p.state)
  {
    if payload[0] != 16 then Progress(Ended, false, [])
    else if |payload| < 2 then Progress(Crashed, false, [])
    else
      match auth.respond(payload[2..])
      case ResponseRaised => Progress(Crashed, true, [MadeAuthenticator])
      case Refused => Progress(Ended, true, [MadeAuthenticator])
      case Answered(body) =>
        if |body| + 2 < 0x1_0000 then Progress(AwaitConfirm(payload[2..]), true, [MadeAuthenticator, SendPlain([17, 0] + body)])
        else Progress(Crashed, true, [MadeAuthenticator])
  }

  function Body(p: bytes): bytes {
    if |p| < 2 then [] else p[2..]
  }

  function Step(auth: Authenticator, s: State, r: PlainRead): Progress {
    if !Live(s) then Progress(s, false, [])
    else if r.Failed? then Progress(Crashed, false, [])
    else if r.payload.None? || r.payload.value == [] then Progress(Ended, false, [])
    else
      var p := r.payload.value;
      match s
      case AwaitRequest =>
        if p[0] != 5 then Progress(Ended, false, [])
        else if |p| < 5 then Progress(Crashed, false, [])
        else Progress(AwaitSuccess, false, [SetCrc(CrcRequested(p)), SendPlain(PeerDescription(U16At(p, 1), U16At(p, 3)))])
      case AwaitSuccess => if p[0] == 9 then Progress(AwaitAuth, false, []) else AuthStep(auth, p)
      case AwaitAuth => AuthStep(auth, p)
      case AwaitConfirm(challenge) =>
        if p[0] != 18 then Progress(Ended, false, [])
        else
          match auth.verify(challenge, Body(p))
          case Accepted => Progress(LoggedIn, false, [Verdict(true)])
          case Rejected => Progress(Ended, false, [Verdict(false)])
          case VerifyRaised => Progress(Crashed, false, [])
  }

  function Run(auth: Authenticator, script: seq<PlainRead>): Progress {
    if script == [] then Progress(AwaitRequest, false, [])
    else
      var before := Run(auth, script[..|script| - 1]);
      var now := Step(auth, before.state, script[|script| - 1]);
      Progress(now.state, before.made || now.made, before.done + now.done)
  }

  lemma RunLast(auth: Authenticator, script: seq<PlainRead>, r: PlainRead)
    ensures var before, now := Run(auth, script), Step(auth, Run(auth, script).state, r);
      Run(auth, script + [r]) == Progress(now.state, before.made || now.made, before.done + now.done)
  {
  }

  // ---------- A whole session ----------

  /** What the `finally` block does. */
  function Closing(made: bool): seq<Action> {
    (if made then [ClosedAuthenticator] else []) + [ClosedConnection]
  }

  /** The trace of a session that read `plain` and then `slp`; without a connection there is nothing to read. */
  function SessionTrace(connected: bool, auth: Authenticator, plain: seq<PlainRead>, slp: seq<ServicePhase.Read>): seq<Action> {
    if !connected then Closing(false)
    else
      var login := Run(auth, plain);
      login.done + (if login.state.LoggedIn? then ServicePhase.Run(slp).sent else []) + Closing(login.made)
  }

  // ---------- What the login does ----------

  /** The login reads on only while it is live. */
  ghost predicate IsRun(auth: Authenticator, script: seq<PlainRead>) {
    script == [] || (IsRun(auth, script[..|script| - 1]) && Live(Run(auth, script[..|script| - 1]).state))
  }

  /** The message of read `i`, empty if there was none. */
  function PayloadOf(script: seq<PlainRead>, i: nat): bytes {
    if i < |script| && script[i].Message? && script[i].payload.Some? then script[i].payload.value else []
  }

  predicate HasType(p: bytes, t: byte) {
    p != [] && p[0] == t
  }

  /** The challenge stands in the second message, or in the third when the second is PD_SUCCESS. */
  function Challenge(script: seq<PlainRead>): bytes {
    Body(if HasType(PayloadOf(script, 1), 9) then PayloadOf(script, 2) else PayloadOf(script, 1))
  }

  function VersionAt(p: bytes, i: nat): u16 {
    if i + 2 <= |p| then U16At(p, i) else 0
  }

  function AnswerTo(auth: Authenticator, challenge: bytes): bytes {
    match auth.respond(challenge) case Answered(body) => body case _ => []
  }

  /** All that a login can do, in order, given what it reads and how the confirmation fares. */
  function FullLogin(auth: Authenticator, script: seq<PlainRead>, accepted: bool): (full: seq<Action>)
    ensures |full| == 5
  {
    var request := PayloadOf(script, 0);
    [SetCrc(CrcRequested(request)), SendPlain(PeerDescription(VersionAt(request, 1), VersionAt(request, 3))),
     MadeAuthenticator, SendPlain([17, 0] + AnswerTo(auth, Challenge(script))), Verdict(accepted)]
  }

  /** The last message is an AUTH_CONFIRM whose body the authenticator accepts after the challenge. */
  ghost predicate Confirmed(auth: Authenticator, script: seq<PlainRead>) {
    script != [] && HasType(PayloadOf(script, |script| - 1), 18)
    && auth.verify(Challenge(script), Body(PayloadOf(script, |script| - 1))) == Accepted
  }

  /** The answer to the challenge fits a plain frame. */
  predicate AnswerFits(auth: Authenticator, script: seq<PlainRead>) {
    |AnswerTo(auth, Challenge(script))| + 2 < 0x1_0000
  }

  ghost predicate Shaped(auth: Authenticator, script: seq<PlainRead>) {
    var p, full := Run(auth, script), FullLogin(auth, script, true);
    match p.state
    case AwaitRequest => |script| == 0 && p.done == [] && !p.made
    case AwaitSuccess => |script| == 1 && p.done == full[..2] && !p.made
    case AwaitAuth => |script| == 2 && HasType(PayloadOf(script, 1), 9) && p.done == full[..2] && !p.made
    case AwaitConfirm(challenge) =>
      |script| == (if HasType(PayloadOf(script, 1), 9) then 3 else 2) && challenge == Challenge(script)
      && p.done == full[..4] && p.made && AnswerFits(auth, script)
    case LoggedIn => p.done == full && p.made && AnswerFits(auth, script) && Confirmed(auth, script)
    case _ => (p.done < full || p.done == FullLogin(auth, script, false)) && (p.made <==> |p.done| >= 3)
  }

  lemma PayloadGrows(script: seq<PlainRead>, r: PlainRead, i: nat)
    ensures i < |script| ==> PayloadOf(script + [r], i) == PayloadOf(script, i)
    ensures i == |script| ==> PayloadOf(script + [r], i) == if r.Message? && r.payload.Some? then r.payload.value else []
    ensures i > |script| ==> PayloadOf(script + [r], i) == []
  {
  }

  lemma ShapeStepRequest(auth: Authenticator, script: seq<PlainRead>, r: PlainRead)
    requires Shaped(auth, script) && Run(auth, script).state.AwaitRequest?
    ensures Shaped(auth, script + [r])
  {
    hide PeerDescription, Run, PayloadOf, CrcRequested, U16At;
    RunLast(auth, script, r);
    PayloadGrows(script, r, 0);
  }

  lemma ShapeStepAuth(auth: Authenticator, script: seq<PlainRead>, r: PlainRead)
    requires Shaped(auth, script) && (Run(auth, script).state.AwaitSuccess? || Run(auth, script).state.AwaitAuth?)
    ensures Shaped(auth, script + [r])
  {
    hide PeerDescription, Run, PayloadOf, CrcRequested, VersionAt;
    RunLast(auth, script, r);
    PayloadGrows(script, r, 0);
    PayloadGrows(script, r, 1);
    PayloadGrows(script, r, 2);
  }

  lemma ShapeStepConfirm(auth: Authenticator, script: seq<PlainRead>, r: PlainRead)
    requires Shaped(auth, script) && Run(auth, script).state.AwaitConfirm?
    ensures Shaped(auth, script + [r])
  {
    hide PeerDescription, Run, PayloadOf, CrcRequested, VersionAt, AnswerTo;
    RunLast(auth, script, r);
    PayloadGrows(script, r, 0);
    PayloadGrows(script, r, 1);
    PayloadGrows(script, r, 2);
    PayloadGrows(script, r, |script|);
  }

  lemma {:induction false} AlwaysShaped(auth: Authenticator, script: seq<PlainRead>)
    requires IsRun(auth, script)
    ensures Shaped(auth, script)
    decreases |script|
  {
    hide Step, FullLogin;
    if script != [] {
      var before, r := script[..|script| - 1], script[|script| - 1];
      assert script == before + [r];
      AlwaysShaped(auth, before);
      match Run(auth, before).state
      case AwaitRequest => ShapeStepRequest(auth, before, r);
      case AwaitConfirm(_) => ShapeStepConfirm(auth, before, r);
      case _ => ShapeStepAuth(auth, before, r);
    }
  }

  // ---------- Safety of whole sessions ----------

  /** A session's reads: the login's as long as it is live, then the service phase's if there is one. */
  ghost predicate IsSession(connected: bool, auth: Authenticator, plain: seq<PlainRead>, slp: seq<ServicePhase.Read>) {
    && (connected || plain == [])
    && IsRun(auth, plain)
    && (if Run(auth, plain).state.LoggedIn? then ServicePhase.IsRun(slp) else slp == [])
  }

  /** The three parts of a session's trace. */
  lemma SessionParts(connected: bool, auth: Authenticator, plain: seq<PlainRead>, slp: seq<ServicePhase.Read>)
    returns (login: seq<Action>, service: seq<Action>, made: bool)
    requires IsSession(connected, auth, plain, slp)
    ensures SessionTrace(connected, auth, plain, slp) == login + service + Closing(made)
    ensures login <= FullLogin(auth, plain, true) || login == FullLogin(auth, plain, false)
    ensures service != [] ==> login == FullLogin(auth, plain, true) && Confirmed(auth, plain)
    ensures ServicePhase.OnlySlp(service)
    ensures made <==> |login| >= 3
  {
    hide FullLogin, Confirmed, ServicePhase.Run;
    AlwaysShaped(auth, plain);
    var p := Run(auth, plain);
    login := if connected then p.done else [];
    service := if connected && p.state.LoggedIn? then ServicePhase.Run(slp).sent else [];
    made := connected && p.made;
    if connected && p.state.LoggedIn? {
      ServicePhase.SendsOnlySlp(slp);
    }
  }

  /**
   Nothing goes out as SLP unless the login went through, which fixes the first five actions, and ended on an
   AUTH_CONFIRM that the authenticator accepted for the challenge read.
   */
  lemma NoSlpBeforeAcceptance(connected: bool, auth: Authenticator, plain: seq<PlainRead>, slp: seq<ServicePhase.Read>, i: nat)
    requires IsSession(connected, auth, plain, slp)
    requires i < |SessionTrace(connected, auth, plain, slp)| && SessionTrace(connected, auth, plain, slp)[i].SendSlp?
    ensures i >= 5 && SessionTrace(connected, auth, plain, slp)[..5] == FullLogin(auth, plain, true)
    ensures Confirmed(auth, plain)
  {
    hide Run, SessionTrace, Confirmed;
    var login, service, made := SessionParts(connected, auth, plain, slp);
    var t := login + service + Closing(made);
    if service != [] {
      assert t[..5] == login;
    }
  }

  /** The plain frames of a trace. */
  function PlainSent(t: seq<Action>): seq<bytes> {
    if t == [] then []
    else PlainSent(t[..|t| - 1]) + if t[|t| - 1].SendPlain? then [t[|t| - 1].payload] else []
  }

  lemma {:induction false} PlainAppend(a: seq<Action>, b: seq<Action>)
    ensures PlainSent(a + b) == PlainSent(a) + PlainSent(b)
    decreases |b|
  {
    if b == [] {
      assert a + b == a;
    } else {
      assert (a + b)[..|a + b| - 1] == a + b[..|b| - 1];
      PlainAppend(a, b[..|b| - 1]);
    }
  }

  lemma {:induction false} NoPlain(t: seq<Action>)
    requires forall i :: 0 <= i < |t| ==> !t[i].SendPlain?
    ensures PlainSent(t) == []
    decreases |t|
  {
    if t != [] {
      NoPlain(t[..|t| - 1]);
    }
  }

  lemma {:induction false} PlainMonotone(a: seq<Action>, b: seq<Action>)
    requires a <= b
    ensures PlainSent(a) <= PlainSent(b)
  {
    PlainAppend(a, b[|a|..]);
    assert a + b[|a|..] == b;
  }

  lemma PlainOfLogin(auth: Authenticator, script: seq<PlainRead>, accepted: bool)
    ensures var full := FullLogin(auth, script, accepted);
      PlainSent(full) == [full[1].payload, full[3].payload]
  {
    var full := FullLogin(auth, script, accepted);
    assert full == full[..1] + (full[1..2] + (full[2..3] + (full[3..4] + full[4..])));
    PlainAppend(full[..1], full[1..2] + (full[2..3] + (full[3..4] + full[4..])));
    PlainAppend(full[1..2], full[2..3] + (full[3..4] + full[4..]));
    PlainAppend(full[2..3], full[3..4] + full[4..]);
    PlainAppend(full[3..4], full[4..]);
    NoPlain(full[..1]);
    NoPlain(full[2..3]);
    NoPlain(full[4..]);
    OnePlain(full[1]);
    OnePlain(full[3]);
  }

  lemma OnePlain(a: Action)
    requires a.SendPlain?
    ensures PlainSent([a]) == [a.payload]
  {
  }

  /** The plain frames sent are a prefix of [PD_RESPONSE, AUTH_RESPONSE]. */
  lemma PlainFramesArePrefix(connected: bool, auth: Authenticator, plain: seq<PlainRead>, slp: seq<ServicePhase.Read>)
    requires IsSession(connected, auth, plain, slp)
    ensures var request := PayloadOf(plain, 0);
      PlainSent(SessionTrace(connected, auth, plain, slp))
      <= [PeerDescription(VersionAt(request, 1), VersionAt(request, 3)), [17, 0] + AnswerTo(auth, Challenge(plain))]
  {
    hide Run, SessionTrace, PeerDescription, PlainSent, Confirmed;
    var login, service, made := SessionParts(connected, auth, plain, slp);
    PlainAppend(login + service, Closing(made));
    PlainAppend(login, service);
    NoPlain(service);
    NoPlain(Closing(made));
    PlainOfLogin(auth, plain, true);
    PlainOfLogin(auth, plain, false);
    if login <= FullLogin(auth, plain, true) {
      PlainMonotone(login, FullLogin(auth, plain, true));
    }
  }

  /** The CRC mode is set at most once, as the very first action, and is on from then on if octet 19 of the request asks for it. */
  lemma CrcModeIsFixed(connected: bool, auth: Authenticator, plain: seq<PlainRead>, slp: seq<ServicePhase.Read>, i: nat)
    requires IsSession(connected, auth, plain, slp) && i < |SessionTrace(connected, auth, plain, slp)|
    ensures var t := SessionTrace(connected, auth, plain, slp);
      (t[i].SetCrc? ==> i == 0)
      && (CrcMode(t[..i]) <==>
            && i > 0 && t[0].SetCrc? && plain != [] && plain[0].Message? && plain[0].payload.Some?
            && |plain[0].payload.value| >= 20 && plain[0].payload.value[19] == 1)
  {
    hide Run, SessionTrace, PeerDescription, Confirmed;
    var login, service, made := SessionParts(connected, auth, plain, slp);
    var t := login + service + Closing(made);
    assert forall k :: 0 < k < |t| ==> !t[k].SetCrc?;
    OneCrcMode(t, i);
  }

  lemma {:induction false} OneCrcMode(t: seq<Action>, i: nat)
    requires i <= |t| && forall k :: 0 < k < |t| ==> !t[k].SetCrc?
    ensures CrcMode(t[..i]) == (i > 0 && t[0].SetCrc? && t[0].on)
  {
    if i > 0 {
      assert t[..i][..i - 1] == t[..i - 1];
      OneCrcMode(t, i - 1);
    }
  }

  lemma LoginClosesNothing(auth: Authenticator, script: seq<PlainRead>, accepted: bool, login: seq<Action>)
    requires login <= FullLogin(auth, script, accepted)
    ensures forall k :: 0 <= k < |login| ==> login[k] != ClosedConnection && login[k] != ClosedAuthenticator
    ensures |login| >= 3 ==> login[2] == MadeAuthenticator
    ensures forall k :: 0 <= k < |login| && login[k] == MadeAuthenticator ==> k == 2
  {
  }

  lemma ClosedAtTheEnd(front: seq<Action>, made: bool)
    requires forall k :: 0 <= k < |front| ==> front[k] != ClosedConnection && front[k] != ClosedAuthenticator
    requires MadeAuthenticator in front <==> made
    ensures var t := front + Closing(made);
      t != [] && t[|t| - 1] == ClosedConnection && ClosedConnection !in t[..|t| - 1]
      && (if MadeAuthenticator in t then |t| >= 2 && t[|t| - 2] == ClosedAuthenticator && ClosedAuthenticator !in t[..|t| - 2]
          else ClosedAuthenticator !in t)
  {
    var t, n := front + Closing(made), |front|;
    if made {
      assert t[..n + 1] == front + [ClosedAuthenticator] && t[..n] == front;
      assert forall k :: 0 <= k < n ==> t[k] == front[k];
    } else {
      assert t[..n] == front;
    }
  }

  /** Whatever happened, the connection is closed last and once, and before it an authenticator if one was made. */
  lemma EverythingIsClosed(connected: bool, auth: Authenticator, plain: seq<PlainRead>, slp: seq<ServicePhase.Read>)
    requires IsSession(connected, auth, plain, slp)
    ensures var t := SessionTrace(connected, auth, plain, slp);
      t != [] && t[|t| - 1] == ClosedConnection && ClosedConnection !in t[..|t| - 1]
      && (if MadeAuthenticator in t then |t| >= 2 && t[|t| - 2] == ClosedAuthenticator && ClosedAuthenticator !in t[..|t| - 2]
          else ClosedAuthenticator !in t)
  {
    hide Run, SessionTrace, FullLogin, Confirmed, Closing;
    var login, service, made := SessionParts(connected, auth, plain, slp);
    LoginClosesNothing(auth, plain, login <= FullLogin(auth, plain, true), login);
    var front := login + service;
    if made {
      assert front[2] == MadeAuthenticator;
    }
    ClosedAtTheEnd(front, made);
  }
}
