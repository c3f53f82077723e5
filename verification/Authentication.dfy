/** Authenticators: an injected one known by its behaviour, and the wrapper around the pure-Python WSM client. */
module Authentication {
  import opened Bytes
  import opened Reads
  import opened Trace
  import Handshake
  import ServicePhase
  import Wsm

  /**
   What `make_authenticator` can be: anything whose behaviour in a session is a function of the octets it is given, or
   the Python client, with its key pair and what the random source will deliver.
   */
  datatype Maker =
    | Injected(auth: Handshake.Authenticator)
    | Python(suite: Wsm.Suite, ids: Wsm.Ids, private: nat, nonce: bytes)

  ghost predicate Usable(m: Maker) {
    m.Python? ==> Wsm.Sound(m.suite) && |m.nonce| == 2
  }

  /** How an authenticator from `m` behaves. */
  ghost function Model(m: Maker): Handshake.Authenticator
    requires Usable(m)
  {
    match m
    case Injected(auth) => auth
    case Python(suite, ids, private, nonce) => PythonAuthenticator(suite, private, ids, nonce)
  }

  /**
   The wrapper around a fresh client: any failure to process a challenge is a refusal, a failed verification a
   rejection, and verification without a challenge raises.
   */
  function PythonAuthenticator(c: Wsm.Suite, private: nat, ids: Wsm.Ids, nonce: bytes): Handshake.Authenticator
    requires |c.table| == 2048 && |nonce| == 2
  {
    Handshake.Authenticator(
      challenge => Respond(Wsm.Process(c, private, ids, Wsm.FRESH, challenge, nonce).1),
      (challenge, confirm) => Judge(Wsm.Check(c, ids, Wsm.Process(c, private, ids, Wsm.FRESH, challenge, nonce).0, confirm)))
  }

  function Respond(o: Wsm.Outcome): Handshake.Response {
    match o case Response(body) => Handshake.Answered(body) case _ => Handshake.Refused
  }

  function Judge(k: Wsm.Checked): Handshake.Verification {
    match k
    case Verified => Handshake.Accepted
    case NoChallenge => Handshake.VerifyRaised
    case _ => Handshake.Rejected
  }

  /** The challenge has its length and header, and a point ECDH takes. */
  predicate Agreeable(c: Wsm.Suite, private: nat, challenge: bytes) {
    |challenge| == 70 && challenge[..3] == [0, 0, 70] && c.exchange(private, challenge[3..68]).Some?
  }

  /**
   The wrapper on octets: every challenge but a sound one is refused; then a confirmation is accepted exactly with the
   server MAC behind its header, raises exactly if it is in order but there was no agreement, and is rejected otherwise.
   */
  lemma PythonExactly(c: Wsm.Suite, private: nat, ids: Wsm.Ids, nonce: bytes, challenge: bytes, confirm: bytes)
    requires Wsm.Sound(c) && |nonce| == 2
    ensures var auth, agreeable := PythonAuthenticator(c, private, ids, nonce), Agreeable(c, private, challenge);
      var headed := |confirm| == 35 && confirm[..3] == [0, 2, 35];
      var r, v := auth.respond(challenge), auth.verify(challenge, confirm);
      && (r == Handshake.Refused <==> !agreeable) && r != Handshake.ResponseRaised
      && (agreeable ==>
            var secret, cn := c.exchange(private, challenge[3..68]).value, challenge[68..70];
            && r == Handshake.Answered([0, 1, 102] + c.publicKey(private) + nonce
                                       + Wsm.ClientMac(c, Wsm.DeriveKey(c, secret, cn, ids), cn, nonce, ids))
            && (v == Handshake.Accepted <==>
                  headed && confirm[3..] == c.hmac(Wsm.DeriveKey(c, secret, nonce, ids), nonce + cn + ids.client + ids.server)))
      && (v == Handshake.Accepted ==> agreeable)
      && (v == Handshake.VerifyRaised <==> headed && !agreeable)
  {
    hide Wsm.DeriveKey, Wsm.ClientMac, Wsm.Check;
    Wsm.ResponseExactly(c, private, ids, Wsm.FRESH, challenge, nonce);
    Wsm.CheckExactly(c, ids, Wsm.Process(c, private, ids, Wsm.FRESH, challenge, nonce).0, confirm);
  }

  /** The authenticator object of one session. */
  class WsmAuthenticator {
    const maker: Maker
    const client: Wsm.WSMClient?
    /** What an injected authenticator was asked. */
    var asked: bytes

    ghost predicate Valid() {
      Usable(maker) && (maker.Python? <==> client != null)
      && (client != null ==> client.suite == maker.suite && client.ids == maker.ids && client.private == maker.private)
    }

    /** Nothing has been asked of it yet. */
    ghost predicate Fresh()
      reads client
    {
      Valid() && (client != null ==> client.State() == Wsm.FRESH)
    }

    /** It has processed `challenge`, and only that. */
    ghost predicate Challenged(challenge: bytes)
      reads this, client
    {
      && Valid()
      && (if client == null then asked == challenge
          else client.State() == Wsm.Process(maker.suite, maker.private, maker.ids, Wsm.FRESH, challenge, maker.nonce).0)
    }

    constructor (maker: Maker)
      requires Usable(maker)
      ensures this.maker == maker && Fresh() && (client != null ==> fresh(client))
    {
      var made: Wsm.WSMClient? := null;
      if maker.Python? {
        made := new Wsm.WSMClient(maker.suite, maker.ids.server, maker.ids.client, maker.private);
      }
      this.maker, client, asked := maker, made, [];
    }

    method ProcessChallenge(challenge: bytes) returns (r: Handshake.Response)
      requires Fresh()
      modifies this, if client == null then {} else {client}
      ensures Challenged(challenge) && r == Model(maker).respond(challenge)
    {
      hide Wsm.Process;
      if client == null {
        asked := challenge;
        return maker.auth.respond(challenge);
      }
      var outcome := client.ProcessChallenge(challenge, maker.nonce);
      r := Respond(outcome);
    }

    method VerifyConfirm(ghost challenge: bytes, confirm: bytes) returns (r: Handshake.Verification)
      requires Challenged(challenge)
      ensures r == Model(maker).verify(challenge, confirm)
    {
      hide Wsm.Process, Wsm.Check;
      if client == null {
        return maker.auth.verify(asked, confirm);
      }
      var checked := client.VerifyConfirm(confirm);
      r := Judge(checked);
    }
  }

  /**
   Not one SLP frame goes out unless the last plain message carried the camera's MAC over this session's nonces under
   a key that takes the ECDH secret and this session's fresh nonce.
   */
  lemma NoSlpWithoutCameraMac(connected: bool, c: Wsm.Suite, private: nat, ids: Wsm.Ids, nonce: bytes,
                              plain: seq<PlainRead>, slp: seq<ServicePhase.Read>, i: nat)
    requires |c.table| == 2048 && |nonce| == 2
    requires var auth := PythonAuthenticator(c, private, ids, nonce);
      Handshake.IsSession(connected, auth, plain, slp)
      && i < |Handshake.SessionTrace(connected, auth, plain, slp)|
      && Handshake.SessionTrace(connected, auth, plain, slp)[i].SendSlp?
    ensures var challenge := Handshake.Challenge(plain);
      plain != []
      && Wsm.WellFormed(challenge) && c.exchange(private, challenge[3..68]).Some?
      && (var confirm := Handshake.Body(Handshake.PayloadOf(plain, |plain| - 1));
          var key := Wsm.DeriveKey(c, c.exchange(private, challenge[3..68]).value, nonce, ids);
          |confirm| == 35 && confirm[3..] == Wsm.ServerMac(c, key, nonce, challenge[68..70], ids))
  {
    hide Handshake.Run, Handshake.IsRun, Handshake.FullLogin, Handshake.Challenge, Wsm.ClientMac, Wsm.ServerMac, Wsm.DeriveKey;
    var challenge := Handshake.Challenge(plain);
    Handshake.NoSlpBeforeAcceptance(connected, PythonAuthenticator(c, private, ids, nonce), plain, slp, i);
    var confirm := Handshake.Body(Handshake.PayloadOf(plain, |plain| - 1));
    assert confirm[3..35] == confirm[3..];
  }

  lemma MessageWasSent(crc: bool, lost: bool, start: View, plain: seq<PlainRead>, slp: seq<ServicePhase.Read>, now: View, i: nat, from: nat)
    requires Explained(crc, lost, start, plain, slp, now)
    requires Handshake.PayloadOf(plain, i) != [] && from <= |Handshake.PayloadOf(plain, i)|
    ensures WasSent(start.input, Handshake.PayloadOf(plain, i)[from..])
  {
    hide PlainReads, PlainView, SlpChain, WasSent;
    MessagesWereSent(lost, start, |plain|);
    assert plain[i] in plain;
    PartWasSent(start.input, plain[i].payload.value, from);
  }

  /**
   On the peer's octets: when the reads of a session are explained by them, not one SLP frame goes out unless they hold
   a well-formed challenge and the server MAC for it under the key of the ECDH secret and this session's fresh nonce.
   */
  lemma CameraMacWasSent(c: Wsm.Suite, private: nat, ids: Wsm.Ids, nonce: bytes, plain: seq<PlainRead>, slp: seq<ServicePhase.Read>,
                         i: nat, crc: bool, lost: bool, start: View, now: View)
    requires |c.table| == 2048 && |nonce| == 2
    requires var auth := PythonAuthenticator(c, private, ids, nonce);
      Handshake.IsSession(true, auth, plain, slp)
      && i < |Handshake.SessionTrace(true, auth, plain, slp)|
      && Handshake.SessionTrace(true, auth, plain, slp)[i].SendSlp?
    requires Explained(crc, lost, start, plain, slp, now)
    ensures exists challenge ::
      WasSent(start.input, challenge) && Wsm.WellFormed(challenge) && c.exchange(private, challenge[3..68]).Some?
      && (var key := Wsm.DeriveKey(c, c.exchange(private, challenge[3..68]).value, nonce, ids);
          WasSent(start.input, Wsm.ServerMac(c, key, nonce, challenge[68..70], ids)))
  {
    hide Handshake.Run, Handshake.IsRun, Handshake.IsSession, Handshake.SessionTrace, Handshake.PayloadOf, PythonAuthenticator,
         Wsm.ServerMac, Wsm.DeriveKey, Explained, WasSent;
    NoSlpWithoutCameraMac(true, c, private, ids, nonce, plain, slp, i);
    var challenge := Handshake.Challenge(plain);
    var at := if Handshake.HasType(Handshake.PayloadOf(plain, 1), 9) then 2 else 1;
    assert challenge == Handshake.PayloadOf(plain, at)[2..];
    MessageWasSent(crc, lost, start, plain, slp, now, at, 2);
    var last := Handshake.PayloadOf(plain, |plain| - 1);
    assert last[2..][3..] == last[5..];
    MessageWasSent(crc, lost, start, plain, slp, now, |plain| - 1, 5);
  }
}
