/** What the login does, as a condition on what its reads bring, without the machine: message types, lengths, and answers. */
module LoginOutcome {
  import opened Bytes
  import opened Handshake
  import opened Trace

  /** The first message is a PD_REQUEST (type 5) that holds both versions. */
  predicate Described(script: seq<PlainRead>) {
    var p := PayloadOf(script, 0);
    |p| >= 5 && p[0] == 5
  }

  /** The message that should be AUTH_REQUEST: the second, or the third if the second is PD_SUCCESS (type 9). */
  function AuthAt(script: seq<PlainRead>): nat {
    var p := PayloadOf(script, 1);
    if p != [] && p[0] == 9 then 2 else 1
  }

  /** It is an AUTH_REQUEST (type 16) with its type octet. */
  predicate Asked(script: seq<PlainRead>) {
    var p := PayloadOf(script, AuthAt(script));
    Described(script) && |p| >= 2 && p[0] == 16
  }

  function Asks(script: seq<PlainRead>): bytes
    requires Asked(script)
  {
    PayloadOf(script, AuthAt(script))[2..]
  }

  /** The authenticator has an answer that fits a frame. */
  predicate Replied(auth: Authenticator, script: seq<PlainRead>) {
    Asked(script)
    && match auth.respond(Asks(script))
       case Answered(body) => |body| + 2 < 0x1_0000
       case _ => false
  }

  /** What the authenticator makes of the AUTH_CONFIRM (type 18) that follows; without one the login fails as if it raised. */
  function Judged(auth: Authenticator, script: seq<PlainRead>): Verification
    requires Replied(auth, script)
  {
    var p := PayloadOf(script, AuthAt(script) + 1);
    if p != [] && p[0] == 18 then auth.verify(Asks(script), if |p| < 2 then [] else p[2..]) else VerifyRaised
  }

  // ---------- By the machine ----------

  ghost predicate Tracked(auth: Authenticator, script: seq<PlainRead>, state: State, n: nat) {
    match state
    case AwaitRequest => |script| == 0
    case AwaitSuccess => |script| == 1 && Described(script)
    case AwaitAuth => |script| == 2 && Described(script) && AuthAt(script) == 2
    case AwaitConfirm(challenge) =>
      Replied(auth, script) && challenge == Asks(script) && |script| == AuthAt(script) + 1
    case LoggedIn => n == 5 && Replied(auth, script) && |script| == AuthAt(script) + 2 && Judged(auth, script) == Accepted
    case _ =>
      && (n == 0 ==> !Described(script))
      && (n == 2 ==> Described(script) && !Asked(script))
      && (n == 3 ==> Asked(script) && !Replied(auth, script))
      && (n == 4 ==> Replied(auth, script) && Judged(auth, script) == VerifyRaised)
      && (n == 5 ==> Replied(auth, script) && Judged(auth, script) == Rejected)
      && (n == 0 || n == 2 || n == 3 || n == 4 || n == 5)
  }

  lemma TrackRequest(auth: Authenticator, script: seq<PlainRead>, r: PlainRead)
    requires script == []
    ensures Tracked(auth, script + [r], Step(auth, AwaitRequest, r).state, |Step(auth, AwaitRequest, r).done|)
  {
    hide PeerDescription, CrcRequested;
    assert (script + [r])[0] == r;
  }

  lemma TrackAuth(auth: Authenticator, script: seq<PlainRead>, state: State, r: PlainRead)
    requires Tracked(auth, script, state, 2) && (state.AwaitSuccess? || state.AwaitAuth?)
    ensures Tracked(auth, script + [r], Step(auth, state, r).state, 2 + |Step(auth, state, r).done|)
  {
    hide PayloadOf;
    PayloadGrows(script, r, 0);
    PayloadGrows(script, r, 1);
    PayloadGrows(script, r, 2);
  }

  lemma TrackConfirm(auth: Authenticator, script: seq<PlainRead>, state: State, r: PlainRead)
    requires Tracked(auth, script, state, 4) && state.AwaitConfirm?
    ensures Tracked(auth, script + [r], Step(auth, state, r).state, 4 + |Step(auth, state, r).done|)
  {
    hide PayloadOf;
    PayloadGrows(script, r, 0);
    PayloadGrows(script, r, 1);
    PayloadGrows(script, r, 2);
    PayloadGrows(script, r, |script|);
  }

  lemma {:induction false} AlwaysTracked(auth: Authenticator, script: seq<PlainRead>)
    requires IsRun(auth, script)
    ensures Tracked(auth, script, Run(auth, script).state, |Run(auth, script).done|)
    decreases |script|
  {
    hide Step, FullLogin, PayloadOf, Tracked, Confirmed, AnswerFits, Challenge;
    if script == [] {
      TrackedAtStart(auth);
    } else {
      var before, r := script[..|script| - 1], script[|script| - 1];
      assert script == before + [r];
      AlwaysTracked(auth, before);
      AlwaysShaped(auth, before);
      match Run(auth, before).state
      case AwaitRequest =>
        TrackedStarts(auth, before, Run(auth, before).state, |Run(auth, before).done|);
        TrackRequest(auth, before, r);
      case AwaitConfirm(_) => TrackConfirm(auth, before, Run(auth, before).state, r);
      case _ => TrackAuth(auth, before, Run(auth, before).state, r);
    }
  }

  lemma TrackedAtStart(auth: Authenticator)
    ensures Tracked(auth, [], AwaitRequest, 0)
  {
  }

  lemma TrackedStarts(auth: Authenticator, script: seq<PlainRead>, state: State, n: nat)
    requires Tracked(auth, script, state, n) && state.AwaitRequest?
    ensures script == []
  {
  }

  // ---------- By the reads ----------

  /**
   How far a login gets that is over, by its reads alone: CRC mode and PD_RESPONSE if and only if it was described, an
   authenticator if and only if it was asked, AUTH_RESPONSE if and only if that had an answer, a verdict if and only
   if one came, and it is logged in if and only if that was acceptance.
   */
  lemma LoginExactly(auth: Authenticator, script: seq<PlainRead>)
    requires IsRun(auth, script) && !Live(Run(auth, script).state)
    ensures var p := Run(auth, script);
      && (|p.done| >= 2 <==> Described(script)) && (|p.done| >= 1 ==> |p.done| >= 2)
      && (|p.done| >= 3 <==> Asked(script)) && (p.made <==> Asked(script))
      && (|p.done| >= 4 <==> Replied(auth, script))
      && (|p.done| == 5 <==> Replied(auth, script) && Judged(auth, script) != VerifyRaised) && |p.done| <= 5
      && (p.state.LoggedIn? <==> Replied(auth, script) && Judged(auth, script) == Accepted)
  {
    hide Step, Run, FullLogin, PayloadOf, Confirmed, AnswerFits, Challenge, Asks, Judged, Described, AuthAt, IsRun;
    AlwaysTracked(auth, script);
    AlwaysShaped(auth, script);
    assert FullLengths(auth, script) by { FullLengthsHold(auth, script); }
  }

  ghost predicate FullLengths(auth: Authenticator, script: seq<PlainRead>) {
    |FullLogin(auth, script, true)| == 5 && |FullLogin(auth, script, false)| == 5
  }

  lemma FullLengthsHold(auth: Authenticator, script: seq<PlainRead>)
    ensures FullLengths(auth, script)
  {
  }

  /** And what these actions are, in octets. */
  lemma LoginActions(auth: Authenticator, script: seq<PlainRead>)
    requires IsRun(auth, script)
    ensures var done := Run(auth, script).done;
      && (|done| >= 2 ==>
            && Described(script)
            && (var p := PayloadOf(script, 0);
                done[0] == SetCrc(|p| >= 20 && p[19] == 1)
                && done[1] == SendPlain(PeerDescription(0x100 * p[1] as nat + p[2], 0x100 * p[3] as nat + p[4]))))
      && (|done| >= 3 ==> done[2] == MadeAuthenticator)
      && (|done| >= 4 ==> Replied(auth, script) && done[3] == SendPlain([17, 0] + auth.respond(Asks(script)).body))
      && (|done| >= 5 ==> done[4] == Verdict(Judged(auth, script) == Accepted))
  {
    hide Step, Run, PeerDescription, Confirmed, IsRun;
    AlwaysTracked(auth, script);
    AlwaysShaped(auth, script);
  }

  // ---------- When an exception ends the login ----------

  /** The authenticator raises on the challenge, or its answer is too long for a frame; or there is no challenge to slice off. */
  predicate AskingRaises(auth: Authenticator, p: bytes) {
    && p != [] && p[0] == 16
    && (|p| < 2
        || match auth.respond(p[2..])
           case ResponseRaised => true
           case Answered(body) => |body| + 2 >= 0x1_0000
           case Refused => false)
  }

  /** The last read raises, or the PD_REQUEST is too short for its versions, or the authenticator raises or makes a frame too long. */
  predicate Raises(auth: Authenticator, script: seq<PlainRead>) {
    var request := PayloadOf(script, 0);
    || (script != [] && script[|script| - 1].Failed?)
    || (request != [] && request[0] == 5 && |request| < 5)
    || (Described(script) && AskingRaises(auth, PayloadOf(script, AuthAt(script))))
    || (Replied(auth, script) && HasType(PayloadOf(script, AuthAt(script) + 1), 18) && Judged(auth, script) == VerifyRaised)
  }

  lemma RaisesRequest(auth: Authenticator, r: PlainRead)
    ensures Step(auth, AwaitRequest, r).state.Crashed? <==> Raises(auth, [r])
  {
    hide PeerDescription, CrcRequested;
  }

  lemma RaisesAuth(auth: Authenticator, script: seq<PlainRead>, state: State, r: PlainRead)
    requires Tracked(auth, script, state, 2) && (state.AwaitSuccess? || state.AwaitAuth?)
    ensures Step(auth, state, r).state.Crashed? <==> Raises(auth, script + [r])
  {
    hide PayloadOf;
    PayloadGrows(script, r, 0);
    PayloadGrows(script, r, 1);
    PayloadGrows(script, r, 2);
    PayloadGrows(script, r, 3);
  }

  lemma RaisesConfirm(auth: Authenticator, script: seq<PlainRead>, state: State, r: PlainRead)
    requires Tracked(auth, script, state, 4) && state.AwaitConfirm?
    ensures Step(auth, state, r).state.Crashed? <==> Raises(auth, script + [r])
  {
    hide PayloadOf;
    PayloadGrows(script, r, 0);
    PayloadGrows(script, r, 1);
    PayloadGrows(script, r, 2);
    PayloadGrows(script, r, |script|);
  }

  /** A login ends with an exception if and only if its reads say so. */
  lemma RaisesExactly(auth: Authenticator, script: seq<PlainRead>)
    requires IsRun(auth, script)
    ensures Run(auth, script).state.Crashed? <==> Raises(auth, script)
  {
    hide Step, FullLogin, PayloadOf, Tracked, Confirmed, AnswerFits, Challenge, Raises;
    if script == [] {
      RaisesNothing(auth);
    } else {
      var before, r := script[..|script| - 1], script[|script| - 1];
      assert script == before + [r];
      AlwaysTracked(auth, before);
      AlwaysShaped(auth, before);
      var p := Run(auth, before);
      match p.state
      case AwaitRequest =>
        TrackedStarts(auth, before, p.state, |p.done|);
        RaisesRequest(auth, r);
      case AwaitConfirm(_) => RaisesConfirm(auth, before, p.state, r);
      case _ => RaisesAuth(auth, before, p.state, r);
    }
  }

  lemma RaisesNothing(auth: Authenticator)
    ensures !Raises(auth, [])
  {
  }
}
