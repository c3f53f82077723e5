/**
 WSM authentication: key derivation, the client with its state, and the camera's side of the exchange.
 Hash, HMAC and ECDH are parameters; what is needed of them is their sizes and the symmetry of ECDH.
 */
module Wsm {
  import opened Bytes
  import opened Words

  datatype Suite = Suite(sha256: bytes -> bytes, hmac: (bytes, bytes) -> bytes,
                         publicKey: nat -> bytes, exchange: (nat, bytes) -> Option<bytes>, table: bytes)

  ghost predicate Sound(c: Suite) {
    && (forall x :: |c.sha256(x)| == 32)
    && (forall k, x :: |c.hmac(k, x)| == 32)
    && (forall a :: |c.publicKey(a)| == 65)
    && (forall a, p :: c.exchange(a, p).Some? ==> |c.exchange(a, p).value| == 32)
    && (forall a, b :: Shared(c, a, b))
    && |c.table| == 2048
  }

  /** Both holders of a key pair arrive at one secret. */
  ghost predicate Shared(c: Suite, a: nat, b: nat) {
    c.exchange(a, c.publicKey(b)).Some? && c.exchange(a, c.publicKey(b)) == c.exchange(b, c.publicKey(a))
  }

  function SharedSecret(c: Suite, a: nat, b: nat): bytes {
    match c.exchange(a, c.publicKey(b)) case Some(secret) => secret case None => []
  }

  // ---------- Keys and MACs ----------

  /** Each octet of the nonce selects eight octets of the table. */
  function ExpandNonce(table: bytes, nonce: bytes): bytes
    requires |table| == 2048 && |nonce| == 2
  {
    table[8 * nonce[0] as int..8 * nonce[0] as int + 8] + table[8 * nonce[1] as int..8 * nonce[1] as int + 8]
  }

  function KeyData(secret: bytes, expanded: bytes, serverId: bytes, clientId: bytes): bytes {
    secret + expanded + serverId + clientId
  }

  function ClientData(challengeNonce: bytes, responseNonce: bytes, serverId: bytes, clientId: bytes): bytes {
    challengeNonce + responseNonce + serverId + clientId
  }

  function ServerData(responseNonce: bytes, challengeNonce: bytes, clientId: bytes, serverId: bytes): bytes {
    responseNonce + challengeNonce + clientId + serverId
  }

  function DeriveKey(c: Suite, secret: bytes, nonce: bytes, ids: Ids): bytes
    requires |c.table| == 2048 && |nonce| == 2
  {
    c.sha256(KeyData(secret, ExpandNonce(c.table, nonce), ids.server, ids.client))
  }

  datatype Ids = Ids(server: bytes, client: bytes)

  function ClientMac(c: Suite, key: bytes, challengeNonce: bytes, responseNonce: bytes, ids: Ids): bytes {
    c.hmac(key, ClientData(challengeNonce, responseNonce, ids.server, ids.client))
  }

  function ServerMac(c: Suite, key: bytes, responseNonce: bytes, challengeNonce: bytes, ids: Ids): bytes {
    c.hmac(key, ServerData(responseNonce, challengeNonce, ids.client, ids.server))
  }

  // ---------- The client ----------

  /** The mutable part of the client. */
  datatype ClientState = ClientState(key: Option<bytes>, challengeNonce: Option<bytes>, responseNonce: Option<bytes>)

  const FRESH: ClientState := ClientState(None, None, None)

  datatype Outcome = Response(body: bytes) | BadLength | BadHeader | BadPoint

  predicate WellFormed(challenge: bytes) {
    |challenge| == 70 && challenge[0] == 0 && challenge[1] == 0 && challenge[2] == 70
  }

  /** The state after a challenge and what is returned or raised. A bad point is noticed after the nonces are replaced. */
  function Process(c: Suite, private: nat, ids: Ids, st: ClientState, challenge: bytes, nonce: bytes): (ClientState, Outcome)
    requires |c.table| == 2048 && |nonce| == 2
  {
    if |challenge| != 70 then (st, BadLength)
    else if !WellFormed(challenge) then (st, BadHeader)
    else
      var challengeNonce := challenge[68..70];
      match c.exchange(private, challenge[3..68])
      case None => (st.(challengeNonce := Some(challengeNonce), responseNonce := Some(nonce)), BadPoint)
      case Some(secret) =>
        var mac := ClientMac(c, DeriveKey(c, secret, challengeNonce, ids), challengeNonce, nonce, ids);
        (ClientState(Some(DeriveKey(c, secret, nonce, ids)), Some(challengeNonce), Some(nonce)),
         Response([0, 1, 102] + c.publicKey(private) + nonce + mac))
  }

  /** The second branch of `NoChallenge` does not arise: the key is never set before the nonces. */
  datatype Checked = Verified | ConfirmLength | ConfirmHeader | NoChallenge | Mismatch

  function Check(c: Suite, ids: Ids, st: ClientState, confirm: bytes): Checked {
    if |confirm| != 35 then ConfirmLength
    else if !(confirm[0] == 0 && confirm[1] == 2 && confirm[2] == 35) then ConfirmHeader
    else if st.key.None? || st.responseNonce.None? || st.challengeNonce.None? then NoChallenge
    else if confirm[3..35] == ServerMac(c, st.key.value, st.responseNonce.value, st.challengeNonce.value, ids) then Verified
    else Mismatch
  }

  class WSMClient {
    const suite: Suite
    const ids: Ids
    const private: nat
    var hmacKeyServer: Option<bytes>
    var challengeNonce: Option<bytes>
    var responseNonce: Option<bytes>

    function State(): ClientState
      reads this
    {
      ClientState(hmacKeyServer, challengeNonce, responseNonce)
    }

    constructor (suite: Suite, serverId: bytes, clientId: bytes, private: nat)
      ensures this.suite == suite && ids == Ids(serverId, clientId) && this.private == private && State() == FRESH
    {
      this.suite, ids, this.private := suite, Ids(serverId, clientId), private;
      hmacKeyServer, challengeNonce, responseNonce := None, None, None;
    }

    /** `nonce` is what the operating system's random source delivers. */
    method ProcessChallenge(challenge: bytes, nonce: bytes) returns (r: Outcome)
      requires Sound(suite) && |nonce| == 2
      modifies this
      ensures (State(), r) == Process(suite, private, ids, old(State()), challenge, nonce)
    {
      hide DeriveKey, ClientData;
      if |challenge| != 70 {
        return BadLength;
      }
      if challenge[0] != 0 || challenge[1] != 0 || challenge[2] != 70 {
        return BadHeader;
      }
      var serverPubkey := challenge[3..68];
      var cn := challenge[68..70];
      challengeNonce, responseNonce := Some(cn), Some(nonce);
      var secret := suite.exchange(private, serverPubkey);
      if secret.None? {
        return BadPoint;
      }
      var keyClient := DeriveKey(suite, secret.value, cn, ids);
      hmacKeyServer := Some(DeriveKey(suite, secret.value, nonce, ids));
      var mac := ClientMac(suite, keyClient, cn, nonce, ids);
      var public := suite.publicKey(private);

      var response := new byte[102](_ => 0);
      response[0], response[1], response[2] := 0, 1, 102;
      forall i | 0 <= i < 65 { response[3 + i] := public[i]; }
      forall i | 0 <= i < 2 { response[68 + i] := nonce[i]; }
      forall i | 0 <= i < 32 { response[70 + i] := mac[i]; }
      assert response[..] == [0, 1, 102] + public + nonce + mac;
      r := Response(response[..]);
    }

    method VerifyConfirm(confirm: bytes) returns (r: Checked)
      ensures r == Check(suite, ids, State(), confirm)
    {
      if |confirm| != 35 {
        return ConfirmLength;
      }
      if confirm[0] != 0 || confirm[1] != 2 || confirm[2] != 35 {
        return ConfirmHeader;
      }
      if hmacKeyServer.None? || responseNonce.None? || challengeNonce.None? {
        return NoChallenge;
      }
      var expected := ServerMac(suite, hmacKeyServer.value, responseNonce.value, challengeNonce.value, ids);
      r := if confirm[3..35] == expected then Verified else Mismatch;
    }
  }

  // ---------- What is hashed and what is sent, octet by octet ----------

  /** A derived key hashes the secret, the nonce's two table entries, the server's id and the client's, in this order. */
  lemma KeyIs(c: Suite, secret: bytes, nonce: bytes, ids: Ids)
    requires |c.table| == 2048 && |nonce| == 2
    ensures var i: nat, j: nat := nonce[0], nonce[1];
      DeriveKey(c, secret, nonce, ids)
      == c.sha256(secret + c.table[8 * i..8 * i + 8] + c.table[8 * j..8 * j + 8] + ids.server + ids.client)
  {
    var i: nat, j: nat := nonce[0], nonce[1];
    assert secret + ExpandNonce(c.table, nonce) + ids.server + ids.client
        == secret + c.table[8 * i..8 * i + 8] + c.table[8 * j..8 * j + 8] + ids.server + ids.client;
  }

  /** Where these stand in what is hashed, for a secret of 32 octets. */
  lemma KeyDataAt(table: bytes, secret: bytes, nonce: bytes, ids: Ids)
    requires |table| == 2048 && |nonce| == 2 && |secret| == 32
    ensures var d, n := KeyData(secret, ExpandNonce(table, nonce), ids.server, ids.client), 48 + |ids.server|;
      var i: nat, j: nat := nonce[0], nonce[1];
      |d| == n + |ids.client| && d[..32] == secret && d[48..n] == ids.server && d[n..] == ids.client
      && d[32..40] == table[8 * i..8 * i + 8] && d[40..48] == table[8 * j..8 * j + 8]
  {
  }

  /** The client's MAC covers challenge nonce, response nonce, server id, client id; the server's all four the other way. */
  lemma MacsAre(c: Suite, key: bytes, challengeNonce: bytes, responseNonce: bytes, ids: Ids)
    ensures ClientMac(c, key, challengeNonce, responseNonce, ids)
         == c.hmac(key, challengeNonce + responseNonce + ids.server + ids.client)
    ensures ServerMac(c, key, responseNonce, challengeNonce, ids)
         == c.hmac(key, responseNonce + challengeNonce + ids.client + ids.server)
  {
  }

  /**
   What a challenge leads to: errors by length, header and point in this order; else a response of 102 octets that
   holds header, public key, the fresh nonce, and the client's MAC under the key of the challenge nonce.
   */
  lemma ResponseExactly(c: Suite, private: nat, ids: Ids, st: ClientState, challenge: bytes, nonce: bytes)
    requires Sound(c) && |nonce| == 2
    ensures var r := Process(c, private, ids, st, challenge, nonce).1;
      && (r == BadLength <==> |challenge| != 70)
      && (r == BadHeader <==> |challenge| == 70 && challenge[..3] != [0, 0, 70])
      && (r == BadPoint <==> |challenge| == 70 && challenge[..3] == [0, 0, 70] && c.exchange(private, challenge[3..68]) == None)
      && (r.Response? ==>
            && |challenge| == 70 && challenge[..3] == [0, 0, 70] && c.exchange(private, challenge[3..68]).Some?
            && |r.body| == 102 && r.body[..3] == [0, 1, 102]
            && r.body[3..68] == c.publicKey(private) && r.body[68..70] == nonce
            && r.body[70..]
               == ClientMac(c, DeriveKey(c, c.exchange(private, challenge[3..68]).value, challenge[68..70], ids),
                            challenge[68..70], nonce, ids))
  {
    hide DeriveKey, ClientMac;
    if |challenge| == 70 {
      assert challenge[..3] == [challenge[0], challenge[1], challenge[2]];
      if WellFormed(challenge) && c.exchange(private, challenge[3..68]).Some? {
        var key := DeriveKey(c, c.exchange(private, challenge[3..68]).value, challenge[68..70], ids);
        var public, mac := c.publicKey(private), ClientMac(c, key, challenge[68..70], nonce, ids);
        MacSizes(c, key, challenge[68..70], nonce, ids);
        var body := [0, 1, 102] + public + nonce + mac;
        assert body[..3] == [0, 1, 102] && body[3..68] == public && body[68..70] == nonce && body[70..] == mac;
      }
    }
  }

  /** What a confirmation leads to: length, header, a missing challenge, and the MAC in its last 32 octets, in this order. */
  lemma CheckExactly(c: Suite, ids: Ids, st: ClientState, confirm: bytes)
    ensures var k := Check(c, ids, st, confirm);
      var complete := st.key.Some? && st.challengeNonce.Some? && st.responseNonce.Some?;
      && (k == ConfirmLength <==> |confirm| != 35)
      && (k == ConfirmHeader <==> |confirm| == 35 && confirm[..3] != [0, 2, 35])
      && (k == NoChallenge <==> |confirm| == 35 && confirm[..3] == [0, 2, 35] && !complete)
      && (k == Verified <==>
            && |confirm| == 35 && confirm[..3] == [0, 2, 35] && complete
            && confirm[3..] == c.hmac(st.key.value, st.responseNonce.value + st.challengeNonce.value + ids.client + ids.server))
  {
    if |confirm| == 35 {
      assert confirm[..3] == [confirm[0], confirm[1], confirm[2]];
      assert confirm[3..35] == confirm[3..];
    }
  }

  // ---------- The camera ----------

  /** The camera's own account of a key. */
  function CameraKey(c: Suite, secret: bytes, nonce: bytes, ids: Ids): bytes
    requires |c.table| == 2048 && |nonce| == 2
  {
    var i: nat, j: nat := nonce[0], nonce[1];
    c.sha256(secret + c.table[8 * i..8 * i + 8] + c.table[8 * j..8 * j + 8] + ids.server + ids.client)
  }

  function MakeChallenge(c: Suite, serverPrivate: nat, nonce: bytes): bytes {
    [0, 0, 70] + c.publicKey(serverPrivate) + nonce
  }

  /** The check of a response by someone who holds the server's private key. */
  function VerifyResponse(c: Suite, serverPrivate: nat, ids: Ids, challenge: bytes, response: bytes): bool
    requires |c.table| == 2048 && |challenge| == 70 && |response| == 102
  {
    match c.exchange(serverPrivate, response[3..68])
    case None => false
    case Some(secret) =>
      response[70..102]
      == c.hmac(CameraKey(c, secret, challenge[68..70], ids), challenge[68..70] + response[68..70] + ids.server + ids.client)
  }

  /** The confirmation for given nonces under a given shared secret. */
  function Confirmation(c: Suite, secret: bytes, challengeNonce: bytes, responseNonce: bytes, ids: Ids): bytes
    requires |c.table| == 2048 && |responseNonce| == 2
  {
    [0, 2, 35] + c.hmac(CameraKey(c, secret, responseNonce, ids), responseNonce + challengeNonce + ids.client + ids.server)
  }

  lemma ConfirmationIs(c: Suite, secret: bytes, challengeNonce: bytes, responseNonce: bytes, ids: Ids)
    requires |c.table| == 2048 && |responseNonce| == 2
    ensures Confirmation(c, secret, challengeNonce, responseNonce, ids)
         == [0, 2, 35] + ServerMac(c, DeriveKey(c, secret, responseNonce, ids), responseNonce, challengeNonce, ids)
  {
    hide DeriveKey, ServerMac;
    KeyIs(c, secret, responseNonce, ids);
    MacsAre(c, DeriveKey(c, secret, responseNonce, ids), challengeNonce, responseNonce, ids);
  }

  // ---------- Agreement ----------

  /**
   What the camera's challenge makes of the client: response accepted there, its confirmation accepted here. The camera
   computes keys and MACs by its own account, from the octets.
   */
  lemma Agreement(c: Suite, private: nat, serverPrivate: nat, ids: Ids, st: ClientState, challengeNonce: bytes, responseNonce: bytes)
    requires Sound(c) && |challengeNonce| == 2 && |responseNonce| == 2
    ensures var challenge := MakeChallenge(c, serverPrivate, challengeNonce);
      var (st', r) := Process(c, private, ids, st, challenge, responseNonce);
      var secret := SharedSecret(c, serverPrivate, private);
      r.Response? && |r.body| == 102 && |challenge| == 70
      && VerifyResponse(c, serverPrivate, ids, challenge, r.body)
      && Check(c, ids, st', Confirmation(c, secret, challengeNonce, responseNonce, ids)) == Verified
  {
    hide ClientMac, DeriveKey, ServerMac, Confirmation;
    assert Shared(c, private, serverPrivate);
    var challenge := MakeChallenge(c, serverPrivate, challengeNonce);
    assert challenge[3..68] == c.publicKey(serverPrivate) && challenge[68..70] == challengeNonce;
    var secret := c.exchange(private, c.publicKey(serverPrivate)).value;
    var key := DeriveKey(c, secret, challengeNonce, ids);
    MacSizes(c, key, challengeNonce, responseNonce, ids);
    MacSizes(c, DeriveKey(c, secret, responseNonce, ids), challengeNonce, responseNonce, ids);
    var public, mac := c.publicKey(private), ClientMac(c, key, challengeNonce, responseNonce, ids);
    var body := [0, 1, 102] + public + responseNonce + mac;
    assert body[3..68] == public && body[68..70] == responseNonce && body[70..102] == mac;
    var serverMac := ServerMac(c, DeriveKey(c, secret, responseNonce, ids), responseNonce, challengeNonce, ids);
    assert ([0, 2, 35] + serverMac)[3..35] == serverMac;
    KeyIs(c, secret, challengeNonce, ids);
    MacsAre(c, key, challengeNonce, responseNonce, ids);
    ConfirmationIs(c, secret, challengeNonce, responseNonce, ids);
  }

  lemma MacSizes(c: Suite, key: bytes, challengeNonce: bytes, responseNonce: bytes, ids: Ids)
    requires Sound(c)
    ensures |ClientMac(c, key, challengeNonce, responseNonce, ids)| == 32
    ensures |ServerMac(c, key, responseNonce, challengeNonce, ids)| == 32
  {
  }

  // ---------- Domain separation ----------

  ghost predicate PowersOfOneWord(s: bytes, t: bytes) {
    exists w: bytes, m: nat, n: nat :: s == Power(w, m) && t == Power(w, n)
  }

  /** Client and server MAC cover the same octets only for equal nonces and ids that commute. */
  lemma DataCoincideExactly(cn: bytes, rn: bytes, serverId: bytes, clientId: bytes)
    requires |cn| == 2 && |rn| == 2
    ensures ClientData(cn, rn, serverId, clientId) == ServerData(rn, cn, clientId, serverId)
       <==> cn == rn && PowersOfOneWord(serverId, clientId)
  {
    var a, b := ClientData(cn, rn, serverId, clientId), ServerData(rn, cn, clientId, serverId);
    assert a[..2] == cn && a[4..] == serverId + clientId;
    assert b[..2] == rn && b[4..] == clientId + serverId;
    if a == b {
      var w, m, n := CommutingArePowers(serverId, clientId);
      assert serverId == Power(w, m) && clientId == Power(w, n);
    }
    if cn == rn && PowersOfOneWord(serverId, clientId) {
      var w: bytes, m: nat, n: nat :| serverId == Power(w, m) && clientId == Power(w, n);
      PowersCommute(w, m, n);
      assert a == cn + rn + (serverId + clientId);
      assert b == rn + cn + (clientId + serverId);
    }
  }

  /** So distinct ids of one length, such as two MAC addresses, never let them coincide. */
  lemma DistinctIdsSeparate(cn: bytes, rn: bytes, serverId: bytes, clientId: bytes)
    requires |cn| == 2 && |rn| == 2 && |serverId| == |clientId| && serverId != clientId
    ensures ClientData(cn, rn, serverId, clientId) != ServerData(rn, cn, clientId, serverId)
  {
    var a, b := ClientData(cn, rn, serverId, clientId), ServerData(rn, cn, clientId, serverId);
    assert a[4..] == serverId + clientId && b[4..] == clientId + serverId;
    if a == b {
      SameLengthCommute(serverId, clientId);
    }
  }

  ghost predicate HmacCollision(c: Suite, k1: bytes, x1: bytes, k2: bytes, x2: bytes) {
    (k1, x1) != (k2, x2) && c.hmac(k1, x1) == c.hmac(k2, x2)
  }

  ghost predicate ShaCollision(c: Suite, x1: bytes, x2: bytes) {
    x1 != x2 && c.sha256(x1) == c.sha256(x2)
  }

  /**
   The client's own MAC sent back as the confirmation passes exactly if the two nonces are equal and the ids are
   powers of one word, or HMAC collides on these very inputs.
   */
  lemma ReflectionExactly(c: Suite, private: nat, ids: Ids, st: ClientState, challenge: bytes, nonce: bytes)
    requires Sound(c) && |nonce| == 2
    requires Process(c, private, ids, st, challenge, nonce).1.Response?
    ensures var (st', r) := Process(c, private, ids, st, challenge, nonce);
      var secret := c.exchange(private, challenge[3..68]).value;
      var cn := challenge[68..70];
      var passes := Check(c, ids, st', [0, 2, 35] + r.body[70..]) == Verified;
      passes <==> (cn == nonce && PowersOfOneWord(ids.server, ids.client))
                  || HmacCollision(c, DeriveKey(c, secret, cn, ids), ClientData(cn, nonce, ids.server, ids.client),
                                   DeriveKey(c, secret, nonce, ids), ServerData(nonce, cn, ids.client, ids.server))
  {
    hide DeriveKey, ClientData, ServerData, PowersOfOneWord;
    var cn := challenge[68..70];
    var secret := c.exchange(private, challenge[3..68]).value;
    var mac := ClientMac(c, DeriveKey(c, secret, cn, ids), cn, nonce, ids);
    var body := [0, 1, 102] + c.publicKey(private) + nonce + mac;
    assert body[70..] == mac;
    assert ([0, 2, 35] + mac)[3..35] == mac;
    DataCoincideExactly(cn, nonce, ids.server, ids.client);
  }

  /** It does pass, for one, when the ids are equal and the random source happens to repeat the challenge nonce. */
  lemma ReflectionCanPass(c: Suite, private: nat, id: bytes, st: ClientState, challenge: bytes, nonce: bytes)
    requires Sound(c) && |nonce| == 2 && Process(c, private, Ids(id, id), st, challenge, nonce).1.Response?
    requires challenge[68..70] == nonce
    ensures var (st', r) := Process(c, private, Ids(id, id), st, challenge, nonce);
      Check(c, Ids(id, id), st', [0, 2, 35] + r.body[70..]) == Verified
  {
  }

  /** For distinct ids of one length, such as two MAC addresses, it passes exactly if HMAC collides on these two inputs. */
  lemma ReflectionRefused(c: Suite, private: nat, ids: Ids, st: ClientState, challenge: bytes, nonce: bytes)
    requires Sound(c) && |nonce| == 2 && |ids.server| == |ids.client| && ids.server != ids.client
    requires Process(c, private, ids, st, challenge, nonce).1.Response?
    ensures var (st', r) := Process(c, private, ids, st, challenge, nonce);
      var secret := c.exchange(private, challenge[3..68]).value;
      var cn := challenge[68..70];
      Check(c, ids, st', [0, 2, 35] + r.body[70..]) == Verified
      <==> HmacCollision(c, DeriveKey(c, secret, cn, ids), ClientData(cn, nonce, ids.server, ids.client),
                         DeriveKey(c, secret, nonce, ids), ServerData(nonce, cn, ids.client, ids.server))
  {
    hide DeriveKey, ClientData, ServerData, PowersOfOneWord, HmacCollision, Check;
    ReflectionExactly(c, private, ids, st, challenge, nonce);
    DataCoincideExactly(challenge[68..70], nonce, ids.server, ids.client);
    DistinctIdsSeparate(challenge[68..70], nonce, ids.server, ids.client);
  }

  // ---------- Runs of challenges ----------

  datatype AttemptData = Attempt(challenge: bytes, nonce: bytes)

  type Attempt = a: AttemptData | |a.nonce| == 2 witness Attempt([], [0, 0])

  function After(c: Suite, private: nat, ids: Ids, attempts: seq<Attempt>): ClientState
    requires |c.table| == 2048
  {
    if attempts == [] then FRESH
    else
      var last := attempts[|attempts| - 1];
      Process(c, private, ids, After(c, private, ids, attempts[..|attempts| - 1]), last.challenge, last.nonce).0
  }

  function SecretOf(c: Suite, private: nat, challenge: bytes): Option<bytes> {
    if WellFormed(challenge) then c.exchange(private, challenge[3..68]) else None
  }

  /** The latest challenge that was well formed. */
  function LatestFormed(attempts: seq<Attempt>): Option<Attempt> {
    if attempts == [] then None
    else if WellFormed(attempts[|attempts| - 1].challenge) then Some(attempts[|attempts| - 1])
    else LatestFormed(attempts[..|attempts| - 1])
  }

  /** The latest challenge for which key agreement succeeded. */
  function LatestAgreed(c: Suite, private: nat, attempts: seq<Attempt>): Option<Attempt> {
    if attempts == [] then None
    else if SecretOf(c, private, attempts[|attempts| - 1].challenge).Some? then Some(attempts[|attempts| - 1])
    else LatestAgreed(c, private, attempts[..|attempts| - 1])
  }

  /** After any run the nonces are those of the latest well-formed challenge, the key that of the latest agreement. */
  lemma {:induction false} StateTells(c: Suite, private: nat, ids: Ids, attempts: seq<Attempt>)
    requires |c.table| == 2048
    ensures var st := After(c, private, ids, attempts);
      (match LatestFormed(attempts)
       case None => st.challengeNonce == None && st.responseNonce == None
       case Some(f) => WellFormed(f.challenge) && st.challengeNonce == Some(f.challenge[68..70]) && st.responseNonce == Some(f.nonce))
      && (match LatestAgreed(c, private, attempts)
          case None => st.key == None
          case Some(a) => SecretOf(c, private, a.challenge).Some?
                          && st.key == Some(DeriveKey(c, SecretOf(c, private, a.challenge).value, a.nonce, ids)))
  {
    hide DeriveKey, ClientMac;
    if attempts != [] {
      StateTells(c, private, ids, attempts[..|attempts| - 1]);
    }
  }

  lemma {:induction false} AgreedMeansFormed(c: Suite, private: nat, attempts: seq<Attempt>)
    ensures LatestAgreed(c, private, attempts).Some? ==>
      && LatestFormed(attempts).Some? && WellFormed(LatestFormed(attempts).value.challenge)
      && SecretOf(c, private, LatestAgreed(c, private, attempts).value.challenge).Some?
  {
    if attempts != [] {
      AgreedMeansFormed(c, private, attempts[..|attempts| - 1]);
    }
  }

  /** What the camera would confirm for an attempt under the given secret. */
  function ConfirmationFor(c: Suite, ids: Ids, secret: bytes, a: Attempt): bytes
    requires |c.table| == 2048 && WellFormed(a.challenge)
  {
    Confirmation(c, secret, a.challenge[68..70], a.nonce, ids)
  }

  lemma CheckAfterRun(c: Suite, private: nat, ids: Ids, attempts: seq<Attempt>, mac: bytes)
    requires Sound(c) && |mac| == 32 && LatestAgreed(c, private, attempts).Some?
    ensures var agreed, formed := LatestAgreed(c, private, attempts).value, LatestFormed(attempts);
      formed.Some? && WellFormed(formed.value.challenge) && SecretOf(c, private, agreed.challenge).Some?
      && (Check(c, ids, After(c, private, ids, attempts), [0, 2, 35] + mac) == Verified
          <==> mac == ServerMac(c, DeriveKey(c, SecretOf(c, private, agreed.challenge).value, agreed.nonce, ids),
                                formed.value.nonce, formed.value.challenge[68..70], ids))
  {
    hide DeriveKey, ServerMac, After, LatestAgreed, LatestFormed;
    AgreedMeansFormed(c, private, attempts);
    StateTells(c, private, ids, attempts);
    assert ([0, 2, 35] + mac)[3..35] == mac;
  }

  lemma DataTellsNonces(rn1: bytes, cn1: bytes, rn2: bytes, cn2: bytes, ids: Ids)
    requires |rn1| == |cn1| == |rn2| == |cn2| == 2
    ensures ServerData(rn1, cn1, ids.client, ids.server) == ServerData(rn2, cn2, ids.client, ids.server)
       <==> rn1 == rn2 && cn1 == cn2
  {
    var a, b := ServerData(rn1, cn1, ids.client, ids.server), ServerData(rn2, cn2, ids.client, ids.server);
    assert a[..2] == rn1 && a[2..4] == cn1 && b[..2] == rn2 && b[2..4] == cn2;
  }

  lemma KeyDataTellsParts(s1: bytes, e1: bytes, s2: bytes, e2: bytes, ids: Ids)
    requires |s1| == |s2| && |e1| == |e2|
    ensures KeyData(s1, e1, ids.server, ids.client) == KeyData(s2, e2, ids.server, ids.client) <==> s1 == s2 && e1 == e2
  {
    var a, b := KeyData(s1, e1, ids.server, ids.client), KeyData(s2, e2, ids.server, ids.client);
    var n, m := |s1|, |s1| + |e1|;
    assert a[..n] == s1 && a[n..m] == e1 && b[..n] == s2 && b[n..m] == e2;
  }

  /**
   The confirmation of the latest agreement is accepted exactly while the nonces are still its own (a later
   well-formed challenge whose point is bad replaces them and keeps the key), or if HMAC collides on these inputs.
   */
  lemma OwnConfirmationExactly(c: Suite, private: nat, ids: Ids, attempts: seq<Attempt>)
    requires Sound(c) && LatestAgreed(c, private, attempts).Some?
    ensures SecretOf(c, private, LatestAgreed(c, private, attempts).value.challenge).Some?
    ensures LatestFormed(attempts).Some? && WellFormed(LatestFormed(attempts).value.challenge)
    ensures var agreed, formed := LatestAgreed(c, private, attempts).value, LatestFormed(attempts).value;
      var secret := SecretOf(c, private, agreed.challenge).value;
      var accepted := Check(c, ids, After(c, private, ids, attempts), ConfirmationFor(c, ids, secret, agreed)) == Verified;
      var sameNonces := agreed.nonce == formed.nonce && agreed.challenge[68..70] == formed.challenge[68..70];
      var key := DeriveKey(c, secret, agreed.nonce, ids);
      accepted <==> sameNonces
                    || HmacCollision(c, key, ServerData(agreed.nonce, agreed.challenge[68..70], ids.client, ids.server),
                                     key, ServerData(formed.nonce, formed.challenge[68..70], ids.client, ids.server))
  {
    hide DeriveKey, ServerData, Confirmation, After, Check, LatestAgreed, LatestFormed;
    AgreedMeansFormed(c, private, attempts);
    var agreed, formed := LatestAgreed(c, private, attempts).value, LatestFormed(attempts).value;
    var key := DeriveKey(c, SecretOf(c, private, agreed.challenge).value, agreed.nonce, ids);
    var mac := ServerMac(c, key, agreed.nonce, agreed.challenge[68..70], ids);
    ConfirmationIs(c, SecretOf(c, private, agreed.challenge).value, agreed.challenge[68..70], agreed.nonce, ids);
    MacSizes(c, key, agreed.challenge[68..70], agreed.nonce, ids);
    CheckAfterRun(c, private, ids, attempts, mac);
    DataTellsNonces(agreed.nonce, agreed.challenge[68..70], formed.nonce, formed.challenge[68..70], ids);
  }

  /**
   Any confirmation, whoever made it under whatever secret and nonces (for the same ids), is accepted after a run
   exactly if its nonces are those of the latest well-formed challenge and its key data are those of the latest
   agreement (same secret, response nonces of one expansion) or collide with them under SHA-256, or else HMAC collides
   on the two inputs named.
   */
  lemma AcceptedExactly(c: Suite, private: nat, ids: Ids, attempts: seq<Attempt>, secret: bytes, cn: bytes, rn: bytes)
    requires Sound(c) && LatestAgreed(c, private, attempts).Some?
    requires |secret| == 32 && |cn| == 2 && |rn| == 2
    ensures SecretOf(c, private, LatestAgreed(c, private, attempts).value.challenge).Some?
    ensures LatestFormed(attempts).Some? && WellFormed(LatestFormed(attempts).value.challenge)
    ensures var own, formed := LatestAgreed(c, private, attempts).value, LatestFormed(attempts).value;
      var ownSecret, formedCn := SecretOf(c, private, own.challenge).value, formed.challenge[68..70];
      var expanded, ownExpanded := ExpandNonce(c.table, rn), ExpandNonce(c.table, own.nonce);
      var accepted := Check(c, ids, After(c, private, ids, attempts), Confirmation(c, secret, cn, rn, ids)) == Verified;
      var sameNonces := cn == formedCn && rn == formed.nonce;
      var sameKeyData := secret == ownSecret && expanded == ownExpanded;
      accepted <==> (sameNonces && (sameKeyData || ShaCollision(c, KeyData(secret, expanded, ids.server, ids.client),
                                                                KeyData(ownSecret, ownExpanded, ids.server, ids.client))))
                    || HmacCollision(c, DeriveKey(c, secret, rn, ids), ServerData(rn, cn, ids.client, ids.server),
                                     DeriveKey(c, ownSecret, own.nonce, ids), ServerData(formed.nonce, formedCn, ids.client, ids.server))
  {
    hide ServerData, KeyData, ExpandNonce, Confirmation, After, Check, LatestAgreed, LatestFormed;
    AgreedMeansFormed(c, private, attempts);
    var own, formed := LatestAgreed(c, private, attempts).value, LatestFormed(attempts).value;
    var ownSecret := SecretOf(c, private, own.challenge).value;
    var mac := ServerMac(c, DeriveKey(c, secret, rn, ids), rn, cn, ids);
    ConfirmationIs(c, secret, cn, rn, ids);
    MacSizes(c, DeriveKey(c, secret, rn, ids), cn, rn, ids);
    CheckAfterRun(c, private, ids, attempts, mac);
    DataTellsNonces(rn, cn, formed.nonce, formed.challenge[68..70], ids);
    ExpandedSize(c.table, rn);
    ExpandedSize(c.table, own.nonce);
    KeyDataTellsParts(secret, ExpandNonce(c.table, rn), ownSecret, ExpandNonce(c.table, own.nonce), ids);
  }

  lemma ExpandedSize(table: bytes, nonce: bytes)
    requires |table| == 2048 && |nonce| == 2
    ensures |ExpandNonce(table, nonce)| == 16
  {
  }

  // ---------- The nonce table ----------

  function Entry(table: bytes, i: byte): bytes
    requires |table| == 2048
  {
    table[8 * i as int..8 * i as int + 8]
  }

  ghost predicate TellsNoncesApart(table: bytes)
    requires |table| == 2048
  {
    forall m, n :: |m| == 2 && |n| == 2 && ExpandNonce(table, m) == ExpandNonce(table, n) ==> m == n
  }

  ghost predicate DistinctEntries(table: bytes)
    requires |table| == 2048
  {
    forall i, j :: Entry(table, i) == Entry(table, j) ==> i == j
  }

  lemma ExpandedParts(table: bytes, nonce: bytes)
    requires |table| == 2048 && |nonce| == 2
    ensures ExpandNonce(table, nonce) == Entry(table, nonce[0]) + Entry(table, nonce[1])
    ensures |Entry(table, nonce[0])| == 8
  {
  }

  lemma SameExpansion(table: bytes, m: bytes, n: bytes)
    requires |table| == 2048 && |m| == 2 && |n| == 2 && DistinctEntries(table)
    requires ExpandNonce(table, m) == ExpandNonce(table, n)
    ensures m == n
  {
    hide ExpandNonce, Entry;
    ExpandedParts(table, m);
    ExpandedParts(table, n);
    var e := ExpandNonce(table, m);
    assert Entry(table, m[0]) == e[..8] == Entry(table, n[0]);
    assert Entry(table, m[1]) == e[8..] == Entry(table, n[1]);
  }

  /** Expansion tells all nonces apart exactly when the table's 256 entries are distinct. */
  lemma ExpansionInjectiveExactly(table: bytes)
    requires |table| == 2048
    ensures TellsNoncesApart(table) <==> DistinctEntries(table)
  {
    hide ExpandNonce, Entry;
    if TellsNoncesApart(table) {
      forall i: byte, j: byte | Entry(table, i) == Entry(table, j)
        ensures i == j
      {
        ExpandedParts(table, [i, i]);
        ExpandedParts(table, [j, j]);
        assert [i, i][0] == [j, j][0];
      }
    }
    if DistinctEntries(table) {
      forall m: bytes, n: bytes | |m| == 2 && |n| == 2 && ExpandNonce(table, m) == ExpandNonce(table, n)
        ensures m == n
      {
        SameExpansion(table, m, n);
      }
    }
  }
}
