/** What the camera's reader makes of the octets a session leaves on the wire. */
module CameraSide {
  import opened Bytes
  import opened Slp
  import opened Trace
  import Capex
  import Handshake
  import opened ServiceConnection
  import ServicePhase

  /** The frames of actions that are all SLP sends. */
  function FramesOf(sent: seq<Action>): seq<SendableFrame>
    requires ServicePhase.AllSendable(sent)
  {
    if sent == [] then [] else FramesOf(sent[..|sent| - 1]) + [sent[|sent| - 1].frame]
  }

  lemma {:induction false} EncodeLast(crc: bool, frames: seq<SendableFrame>, f: SendableFrame)
    ensures EncodeAll(crc, frames + [f]) == EncodeAll(crc, frames) + Encode(crc, f)
    decreases |frames|
  {
    hide Encode;
    if frames == [] {
      assert [f][1..] == [];
    } else {
      assert (frames + [f])[1..] == frames[1..] + [f];
      EncodeLast(crc, frames[1..], f);
    }
  }

  /** SLP sends leave the CRC mode alone and append their encodings in that mode. */
  lemma {:induction false} WireOfSends(trace: seq<Action>, sent: seq<Action>)
    requires ServicePhase.AllSendable(sent)
    ensures CrcMode(trace + sent) == CrcMode(trace)
    ensures Wire(trace + sent) == Wire(trace) + EncodeAll(CrcMode(trace), FramesOf(sent))
    decreases |sent|
  {
    hide Encode, CrcMode, Wire;
    if sent == [] {
      assert trace + sent == trace;
    } else {
      var before, last := sent[..|sent| - 1], sent[|sent| - 1];
      assert trace + sent == (trace + before) + [last];
      WireOfSends(trace, before);
      TraceLast(trace + before, last);
      EncodeLast(CrcMode(trace), FramesOf(before), last.frame);
    }
  }

  lemma WireOfClosing(trace: seq<Action>, made: bool)
    ensures Wire(trace + Handshake.Closing(made)) == Wire(trace)
    ensures CrcMode(trace + Handshake.Closing(made)) == CrcMode(trace)
  {
    hide CrcMode, Wire;
    if made {
      assert trace + Handshake.Closing(true) == (trace + [ClosedAuthenticator]) + [ClosedConnection];
      TraceLast(trace, ClosedAuthenticator);
      TraceLast(trace + [ClosedAuthenticator], ClosedConnection);
    } else {
      assert trace + Handshake.Closing(false) == trace + [ClosedConnection];
      TraceLast(trace, ClosedConnection);
    }
  }

  lemma {:induction false} FramesCarried(sent: seq<Action>)
    requires ServicePhase.AllSendable(sent)
    ensures |FramesOf(sent)| == |sent|
    ensures forall i :: 0 <= i < |sent| ==> FramesOf(sent)[i] == sent[i].frame
  {
    if sent != [] {
      FramesCarried(sent[..|sent| - 1]);
    }
  }

  lemma CarriedFrames(sent: seq<Action>)
    requires ServicePhase.AllSendable(sent)
    ensures (forall i :: 0 <= i < |FramesOf(sent)| ==> Carried(FramesOf(sent)[i])) <==> ServicePhase.AllCarried(sent)
  {
    hide Carried, FramesOf;
    FramesCarried(sent);
  }

  // ---------- The login's plain frames ----------

  datatype Plains = Plains(frames: seq<bytes>, rest: bytes)

  /** `n` plain frames at the front of a stream, and what follows them. */
  function PlainFrames(n: nat, input: bytes): Option<Plains> {
    if n == 0 then Some(Plains([], input))
    else if |input| < 2 || |input| < 2 + U16At(input, 0) as int then None
    else
      var end := 2 + U16At(input, 0) as int;
      match PlainFrames(n - 1, input[end..])
      case None => None
      case Some(more) => Some(Plains([input[2..end]] + more.frames, more.rest))
  }

  lemma PlainFrameFirst(n: nat, payload: bytes, rest: bytes)
    requires |payload| < 0x1_0000 && PlainFrames(n, rest).Some?
    ensures PlainFrames(n + 1, Framed(payload) + rest)
         == Some(Plains([payload] + PlainFrames(n, rest).value.frames, PlainFrames(n, rest).value.rest))
  {
    var input := Framed(payload) + rest;
    assert input == [] + Be16(|payload|) + (payload + rest);
    Be16At([], |payload|, payload + rest);
    assert input[2..2 + |payload|] == payload && input[2 + |payload|..] == rest;
  }

  lemma TwoPlainFrames(a: bytes, b: bytes, rest: bytes)
    requires |a| < 0x1_0000 && |b| < 0x1_0000
    ensures PlainFrames(2, Framed(a) + Framed(b) + rest) == Some(Plains([a, b], rest))
  {
    hide Framed;
    assert PlainFrames(0, rest) == Some(Plains([], rest));
    PlainFrameFirst(0, b, rest);
    PlainFrameFirst(1, a, Framed(b) + rest);
    assert Framed(a) + (Framed(b) + rest) == Framed(a) + Framed(b) + rest;
    assert [b] + [] == [b] && [a] + [b] == [a, b];
  }

  lemma LoginWrites(crc: bool, a: Action)
    requires a.SendPlain? ==> |a.payload| < 0x1_0000
    ensures a.SendPlain? ==> Written(crc, a) == Framed(a.payload)
    ensures !a.SendPlain? && !a.SendSlp? ==> Written(crc, a) == []
  {
  }

  /** Of a login's five actions two write: PD_RESPONSE and AUTH_RESPONSE. */
  lemma WireOfLogin(a: Action, b: Action, c: Action, d: Action, e: Action)
    requires a.SetCrc? && b.SendPlain? && c.MadeAuthenticator? && d.SendPlain? && e.Verdict?
    requires |b.payload| < 0x1_0000 && |d.payload| < 0x1_0000
    ensures Wire([a, b, c, d, e]) == Framed(b.payload) + Framed(d.payload)
  {
    hide Wire, CrcMode, Framed, Be16, Written;
    NoWire();
    assert [] + [a] == [a] && [a] + [b] == [a, b] && [a, b] + [c] == [a, b, c];
    assert [a, b, c] + [d] == [a, b, c, d] && [a, b, c, d] + [e] == [a, b, c, d, e];
    TraceLast([], a);
    LoginWrites(CrcMode([]), a);
    TraceLast([a], b);
    LoginWrites(CrcMode([a]), b);
    TraceLast([a, b], c);
    LoginWrites(CrcMode([a, b]), c);
    TraceLast([a, b, c], d);
    LoginWrites(CrcMode([a, b, c]), d);
    TraceLast([a, b, c, d], e);
    LoginWrites(CrcMode([a, b, c, d]), e);
  }

  lemma NoWire()
    ensures Wire([]) == []
  {
  }

  /** The octets of a whole login, whatever follows, are two plain frames: PD_RESPONSE and AUTH_RESPONSE. */
  lemma LoginFrames(auth: Handshake.Authenticator, plain: seq<PlainRead>, rest: bytes)
    requires Handshake.IsRun(auth, plain) && Handshake.Run(auth, plain).state.LoggedIn?
    ensures var request := Handshake.PayloadOf(plain, 0);
      PlainFrames(2, Wire(Handshake.FullLogin(auth, plain, true)) + rest)
      == Some(Plains([Handshake.PeerDescription(Handshake.VersionAt(request, 1), Handshake.VersionAt(request, 3)),
                      [17, 0] + Handshake.AnswerTo(auth, Handshake.Challenge(plain))], rest))
  {
    hide Handshake.Run, Handshake.IsRun, Handshake.PeerDescription, Handshake.Challenge, Handshake.AnswerTo, Handshake.VersionAt,
         Handshake.Confirmed, Wire, PlainFrames, Framed;
    Handshake.AlwaysShaped(auth, plain);
    var full := Handshake.FullLogin(auth, plain, true);
    WireOfLogin(full[0], full[1], full[2], full[3], full[4]);
    assert full == [full[0], full[1], full[2], full[3], full[4]];
    TwoPlainFrames(full[1].payload, full[3].payload, rest);
  }

  // ---------- The service phase's frames ----------

  /**
   The wire of a session whose login went through begins with the two plain frames of the login. Behind them, a reader
   that uses CRCs if octet 19 of the camera's request is 1 finds the frames the service phase sent as their headers tell them, in order
   and unflagged, and then nothing. They are the very frames sent if and only if the services query has not gone out
   or went out on a session of at most ten bits.
   */
  lemma CameraReadsWhatWasSent(auth: Handshake.Authenticator, plain: seq<PlainRead>, slp: seq<ServicePhase.Read>, lost: bool)
    requires Handshake.IsSession(true, auth, plain, slp) && Handshake.Run(auth, plain).state.LoggedIn?
    ensures ServicePhase.AllSendable(ServicePhase.Run(slp).sent)
    ensures var request := Handshake.PayloadOf(plain, 0);
      var crc := |request| >= 20 && request[19] == 1;
      var login := Wire(Handshake.FullLogin(auth, plain, true));
      var wire := Wire(Handshake.SessionTrace(true, auth, plain, slp));
      var sent := ServicePhase.Run(slp).sent;
      var frames := FramesOf(sent);
      && login <= wire
      && PlainFrames(2, wire) == Some(Plains(Handshake.PlainSent(Handshake.FullLogin(auth, plain, true)), wire[|login|..]))
      && (var found := DecodeAll(crc, lost, |frames|, wire[|login|..]);
          && Intact(found, OnWireAll(frames), [])
          && (Intact(found, frames, []) <==> |ServicePhase.Requests(sent)| < 2 || ServicePhase.CapexSession(slp) < 1024))
  {
    hide Handshake.Run, Handshake.IsRun, Handshake.PeerDescription, ServicePhase.Run, ServicePhase.IsRun, ServicePhase.Requests,
         ServicePhase.AllSendable, ServicePhase.AllCarried, ServicePhase.CapexSession, Wire, CrcMode, Intact, DecodeAll, EncodeAll,
         Handshake.FullLogin, Handshake.PlainSent, Handshake.Confirmed, Handshake.AnswerFits, OnWireAll, Carried, PlainFrames;
    ServicePhase.SendsOnlySendable(slp);
    Handshake.AlwaysShaped(auth, plain);
    var crc := Handshake.CrcRequested(Handshake.PayloadOf(plain, 0));
    var full, sent := Handshake.FullLogin(auth, plain, true), ServicePhase.Run(slp).sent;
    LoginCrcMode(auth, plain);
    WireOfSends(full, sent);
    WireOfClosing(full + sent, true);
    var frames := FramesOf(sent);
    StreamRoundTrip(crc, lost, frames, []);
    StreamIntactExactly(crc, lost, frames, []);
    CarriedFrames(sent);
    ServicePhase.CarriedExactly(slp);
    assert EncodeAll(crc, frames) + [] == EncodeAll(crc, frames);
    assert (Wire(full) + EncodeAll(crc, frames))[|Wire(full)|..] == EncodeAll(crc, frames);
    LoginFrames(auth, plain, EncodeAll(crc, frames));
    Handshake.PlainOfLogin(auth, plain, true);
    FullLoginPayloads(auth, plain);
  }

  lemma FullLoginPayloads(auth: Handshake.Authenticator, plain: seq<PlainRead>)
    ensures var full, request := Handshake.FullLogin(auth, plain, true), Handshake.PayloadOf(plain, 0);
      full[1] == SendPlain(Handshake.PeerDescription(Handshake.VersionAt(request, 1), Handshake.VersionAt(request, 3)))
      && full[3] == SendPlain([17, 0] + Handshake.AnswerTo(auth, Handshake.Challenge(plain)))
  {
  }

  /** The response that grants session 1024, a query of the camera, and silence. */
  function WideGrant(): seq<ServicePhase.Read> {
    [Some(Frame(1023, 0, EncodeResponse(Response(0, 0, [], 0, [1024])))), Some(Frame(1, 0, [5, 0])), None]
  }

  lemma WideGrantReads() returns (a: ServicePhase.Read, b: ServicePhase.Read)
    ensures WideGrant() == [a, b, None]
    ensures ServicePhase.AnswerIn(a) == Answer(true, [1024]) && ServicePhase.AnswerIn(None) == NoAnswer
    ensures |ServicePhase.Replies(b)| == 1 && ServicePhase.Replies(None) == []
  {
    hide ParseAnswer, Words;
    var r := Response(0, 0, [], 0, [1024]);
    var whole := EncodeResponse(r);
    ResponseRoundTrip(r, []);
    assert whole + [] == whole;
    assert whole[0] == MSG_SERVICE_CONNECTION_RESPONSE;
    a, b := WideGrant()[0], WideGrant()[1];
  }

  lemma RunAfter(script: seq<ServicePhase.Read>, r: ServicePhase.Read, next: ServicePhase.State)
    requires ServicePhase.IsRun(script) && ServicePhase.Live(ServicePhase.Run(script).state)
    requires ServicePhase.Step(ServicePhase.Run(script).state, r).state == next
    ensures ServicePhase.IsRun(script + [r]) && ServicePhase.Run(script + [r]).state == next
    ensures ServicePhase.Requests(ServicePhase.Run(script + [r]).sent)
         == ServicePhase.Requests(ServicePhase.Run(script).sent) + ServicePhase.OwnRequest(ServicePhase.Run(script).state, r)
  {
    hide ServicePhase.Run, ServicePhase.IsRun, ServicePhase.Step, ServicePhase.OwnRequest, ServicePhase.Requests;
    ServicePhase.RunLast(script, r);
    ServicePhase.RequestsGrow(script, r);
  }

  /** It can happen: the camera is then asked for its services on session 1024, which arrives there as session 0. */
  lemma WideSessionIsLost()
    ensures ServicePhase.IsRun(WideGrant())
    ensures var sent := ServicePhase.Run(WideGrant()).sent;
      && ServicePhase.Requests(sent) == [ServicePhase.CapexRequest(), ServicePhase.ServicesQuery(1024)]
      && OnWire(ServicePhase.ServicesQuery(1024).frame) == Frame(0, 0, ServicePhase.ServicesQuery(1024).frame.payload)
  {
    hide ServicePhase.AnswerIn, ServicePhase.Replies, ServicePhase.Requests, ServicePhase.CapexRequest, Capex.EncodeQuery,
         ServicePhase.Run, ServicePhase.IsRun, WideGrant;
    var a, b := WideGrantReads();
    assert [] + [a] == [a] && [a] + [b] == [a, b] && [a, b] + [None] == [a, b, None];
    ServicePhase.AtStart();
    StartIsRun();
    RunAfter([], a, ServicePhase.AnswerQueries(15, 0, 1024));
    RunAfter([a], b, ServicePhase.AnswerQueries(14, 1, 1024));
    RunAfter([a, b], None, ServicePhase.AwaitServices(10));
    ServicePhase.MessageKinds(1024, 0, 0);
    ServicePhase.SplitOne(ServicePhase.CapexRequest());
  }

  lemma StartIsRun()
    ensures ServicePhase.IsRun([])
  {
  }

  /** The CRC mode at the end of a session whose login went through is the one asked for. */
  lemma SessionCrcMode(auth: Handshake.Authenticator, plain: seq<PlainRead>, slp: seq<ServicePhase.Read>)
    requires Handshake.IsSession(true, auth, plain, slp) && Handshake.Run(auth, plain).state.LoggedIn?
    ensures CrcMode(Handshake.SessionTrace(true, auth, plain, slp)) == Handshake.CrcRequested(Handshake.PayloadOf(plain, 0))
  {
    hide Handshake.Run, Handshake.IsRun, Handshake.PayloadOf, ServicePhase.Run, ServicePhase.IsRun, ServicePhase.AllSendable,
         Handshake.FullLogin, Handshake.Confirmed, Handshake.AnswerFits, CrcMode, Wire, FramesOf;
    ServicePhase.SendsOnlySendable(slp);
    Handshake.AlwaysShaped(auth, plain);
    LoginCrcMode(auth, plain);
    var full, sent := Handshake.FullLogin(auth, plain, true), ServicePhase.Run(slp).sent;
    WireOfSends(full, sent);
    WireOfClosing(full + sent, true);
  }

  lemma LoginCrcMode(auth: Handshake.Authenticator, plain: seq<PlainRead>)
    ensures CrcMode(Handshake.FullLogin(auth, plain, true)) == Handshake.CrcRequested(Handshake.PayloadOf(plain, 0))
  {
    hide Handshake.PeerDescription, Handshake.PayloadOf, Handshake.CrcRequested, Handshake.AnswerTo, Handshake.Challenge;
    var full := Handshake.FullLogin(auth, plain, true);
    assert full[..5] == full;
    Handshake.OneCrcMode(full, 5);
  }
}
