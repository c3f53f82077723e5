/**
 Phase 3, the service connection, as a state machine that consumes one SLP read at a time.
 A run is determined by what the reads bring: frames, or `None` for a time-out or a broken frame.
 */
module ServicePhase {
  import opened Bytes
  import opened Slp
  import opened Trace
  import Capex
  import opened ServiceConnection

  const DEFAULT_SESSION: nat := 1023
  const CAPEX_PROFILE: bytes := Ascii("/System/Reserved/ServiceCapabilityDiscovery")
  const SERVICE_PROFILE: bytes := Capex.DEVICE_PROFILE
  const SERVICE_MARK: bytes := Ascii("DI_360")

  /** What one read brings: a frame, or nothing. */
  type Read = Option<Received>

  function Send(payload: bytes, session: nat): Action {
    SendSlp(Frame(session, 0, payload))
  }

  // ---------- Messages of this phase ----------

  const CAPEX_CHANNELS: seq<Channel> := [Channel(1, 255, 3, 1, 3, 0)]
  const SERVICE_CHANNELS: seq<Channel> := [Channel(10, 204, 0, 0, 0, 0), Channel(11, 222, 0, 0, 0, 0), Channel(12, 230, 0, 0, 0, 0)]

  function CapexRequest(): Action {
    Send(EncodeRequest(Request(0xFFFF, 0xFFFF, CAPEX_PROFILE, CAPEX_CHANNELS)), DEFAULT_SESSION)
  }

  function ServicesQuery(capexSession: nat): Action {
    Send(Capex.EncodeQuery(2, 0, []), capexSession)
  }

  function ServiceRequest(component: u16): Action {
    Send(EncodeRequest(Request(component, 0, SERVICE_PROFILE, SERVICE_CHANNELS)), DEFAULT_SESSION)
  }

  // ---------- Reactions to single frames ----------

  /** A capability query of the camera, in its current or its legacy form. */
  predicate IsQuery(f: Frame) {
    |f.payload| >= 2 && (f.payload[0] == 1 || f.payload[0] == 5)
  }

  /** Its answer, on the session it came in on. */
  function Reply(f: Frame): Action
    requires IsQuery(f)
  {
    if f.payload[0] == 1 then Send(Capex.Encode(f.payload[1], 0, [Capex.OWN_RECORD]), f.session)
    else Send(Capex.LegacyResponse(), f.session)
  }

  /**
   A reply goes out on the query's session; to a current query with its type echoed, to a legacy query in legacy form,
   and in either form tells of the one service the program provides.
   */
  lemma ReplyMatchesQuery(f: Frame)
    requires IsQuery(f)
    ensures var a := Reply(f);
      a.SendSlp? && a.frame.session == f.session && a.frame.kind == 0 && |a.frame.payload| >= 2
      && (f.payload[0] == 1 ==>
            a.frame.payload[..2] == [Capex.MSG_CAPEX_RESPONSE, f.payload[1]]
            && Capex.Parse(a.frame.payload) == [Capex.Service(0, Capex.SERVER_FRIENDLY_NAME, 0, SERVICE_PROFILE, 0x0100, 2, 10)])
      && (f.payload[0] == 5 ==>
            Capex.TellsLegacyService(a.frame.payload, Capex.SERVER_FRIENDLY_NAME, SERVICE_PROFILE))
  {
    hide Capex.Parse, Capex.TellsLegacyService;
    if f.payload[0] == 1 {
      var own := Capex.Encode(f.payload[1], 0, [Capex.OWN_RECORD]);
      Capex.OwnResponseParses(f.payload[1], 0, []);
      assert own + [] == own;
    } else {
      Capex.LegacyResponseTells();
    }
  }

  /** The reply's octets: to a current query by its type, to a legacy query always the same. */
  lemma ReplyOctets(f: Frame)
    requires |f.payload| >= 2 && (f.payload[0] == 1 || f.payload[0] == 5)
    ensures IsQuery(f)
    ensures Reply(f)
         == SendSlp(Frame(f.session, 0,
              if f.payload[0] == 1 then
                [2, f.payload[1]] + (if f.payload[1] == 2 || f.payload[1] == 3 then [0, 0, 0, 0] else [])
                + [0, 1, 0, 0] + Ascii("NX360_SERVER") + [0x3B, 0, 1, 0, 0] + Ascii("/system/DI_360_2D") + [0x3B, 1, 0, 2, 0, 10]
              else
                [6, 0, 0, 0, 1, 0, 0] + Ascii("NX360_SERVER") + [0x3B, 0, 1, 0, 0] + Ascii("/system/DI_360_2D") + [0x3B, 1, 0, 128]))
  {
    hide Capex.Encode, Capex.LegacyResponse, Ascii;
    Capex.OwnResponseOctets(f.payload[1], 0);
    Capex.LegacyOctets();
  }

  function Replies(r: Read): seq<Action> {
    if r.Some? && IsQuery(r.value) then [Reply(r.value)] else []
  }

  /** Is this a service connection response? */
  predicate IsAnswer(r: Read) {
    && r.Some? && r.value.payload != [] && r.value.payload[0] == MSG_SERVICE_CONNECTION_RESPONSE
    && r.value.session == DEFAULT_SESSION
  }

  function AnswerIn(r: Read): Answer {
    if IsAnswer(r) then ParseAnswer(r.value.payload) else NoAnswer
  }

  predicate Contains(s: bytes, part: bytes) {
    exists i: nat :: i <= |s| && At(s, i, part)
  }

  predicate Matches(service: Capex.Service) {
    service.profile == SERVICE_PROFILE || Contains(service.profile, SERVICE_MARK)
  }

  /** The component id of the last matching service. */
  function LastMatch(services: seq<Capex.Service>): Option<u16> {
    if services == [] then None
    else if Matches(services[|services| - 1]) then Some(services[|services| - 1].component)
    else LastMatch(services[..|services| - 1])
  }

  function OrZero(c: Option<u16>): u16 {
    match c case Some(v) => v case None => 0
  }

  /** Does this read end the search for the camera's services, and with which component id? */
  function ComponentIn(r: Read): Option<u16> {
    if r.None? || |r.value.payload| < 2 then None
    else if r.value.payload[0] == 2 then Some(OrZero(LastMatch(Capex.Parse(r.value.payload))))
    else if r.value.payload[0] == 6 then Some(0)
    else None
  }

  function FirstOr(sessions: seq<u16>, default: nat): nat {
    if sessions == [] then default else sessions[0]
  }

  // ---------- The same by the octets read ----------

  /** What counts as a query: at least two octets of type 1 or 5, whatever the session and the rest. */
  lemma RepliesExactly(r: Read)
    ensures |Replies(r)| == if r.Some? && |r.value.payload| >= 2 && (r.value.payload[0] == 1 || r.value.payload[0] == 5) then 1 else 0
    ensures |Replies(r)| == 1 ==> IsQuery(r.value) && Replies(r) == [Reply(r.value)]
  {
    hide Reply;
  }

  /** What counts as a service connection response: type 2 on session 1023; it is then read as such. */
  lemma AnswerExactly(r: Read)
    ensures AnswerIn(r)
         == if r.Some? && r.value.session == 1023 && r.value.payload != [] && r.value.payload[0] == 2 then ParseAnswer(r.value.payload)
            else NoAnswer
  {
  }

  /** A service matches by its profile: the one asked for, or one that has the mark in it. */
  lemma MatchesExactly(s: Capex.Service)
    ensures Matches(s) <==>
      s.profile == Ascii("/system/DI_360_2D") || exists i: nat :: i <= |s.profile| && At(s.profile, i, Ascii("DI_360"))
  {
    hide Ascii, At;
  }

  /** The component is that of the last matching service, if there is one. */
  lemma {:induction false} LastMatchExactly(services: seq<Capex.Service>)
    ensures LastMatch(services) == None <==> forall i :: 0 <= i < |services| ==> !Matches(services[i])
    ensures forall i :: 0 <= i < |services| && Matches(services[i]) && (forall j :: i < j < |services| ==> !Matches(services[j])) ==>
      LastMatch(services) == Some(services[i].component)
  {
    hide Matches;
    if services != [] {
      var before, n := services[..|services| - 1], |services| - 1;
      LastMatchExactly(before);
      assert forall i :: 0 <= i < n ==> before[i] == services[i];
    }
  }

  /** The search for the services ends on a message of at least two octets of type 2 or 6; type 6 names no component. */
  lemma ComponentExactly(r: Read)
    ensures ComponentIn(r).Some? <==> r.Some? && |r.value.payload| >= 2 && (r.value.payload[0] == 2 || r.value.payload[0] == 6)
    ensures ComponentIn(r).Some? ==>
      ComponentIn(r).value
      == if r.value.payload[0] == 2 && LastMatch(Capex.Parse(r.value.payload)).Some?
         then LastMatch(Capex.Parse(r.value.payload)).value else 0
  {
    hide LastMatch, Capex.Parse;
  }

  // ---------- The machine ----------

  datatype State =
    | AwaitCapex(left: nat)
    | AnswerQueries(left: nat, handled: nat, capexSession: nat)
    | AwaitServices(left: nat)
    | AwaitService(left: nat)
    | Finished(command: Option<nat>)
    | Crashed

  datatype Progress = Progress(state: State, sent: seq<Action>)

  predicate Live(s: State) {
    !s.Finished? && !s.Crashed?
  }

  function Step(s: State, r: Read): Progress {
    match s
    case AwaitCapex(left) =>
      (match AnswerIn(r)
       case IndexError => Progress(Crashed, [])
       case Answer(ok, sessions) =>
         Progress(if ok then AnswerQueries(15, 0, FirstOr(sessions, 1)) else Finished(None), [])
       case NoAnswer => Progress(if left <= 1 then Finished(None) else AwaitCapex(left - 1), Replies(r)))
    case AnswerQueries(left, handled, capexSession) =>
      if left <= 1 || (r.None? && handled > 0) then Progress(AwaitServices(10), Replies(r) + [ServicesQuery(capexSession)])
      else Progress(AnswerQueries(left - 1, handled + |Replies(r)|, capexSession), Replies(r))
    case AwaitServices(left) =>
      if ComponentIn(r).Some? then Progress(AwaitService(15), [ServiceRequest(ComponentIn(r).value)])
      else if left <= 1 then Progress(AwaitService(15), Replies(r) + [ServiceRequest(0)])
      else Progress(AwaitServices(left - 1), Replies(r))
    case AwaitService(left) =>
      (match AnswerIn(r)
       case IndexError => Progress(Crashed, [])
       case Answer(ok, sessions) => Progress(Finished(if ok then Some(FirstOr(sessions, 10)) else None), [])
       case NoAnswer => Progress(if left <= 1 then Finished(None) else AwaitService(left - 1), Replies(r)))
    case _ => Progress(s, [])
  }

  /** The phase after the given reads. */
  function Run(script: seq<Read>): Progress {
    if script == [] then Progress(AwaitCapex(10), [CapexRequest()])
    else
      var before := Run(script[..|script| - 1]);
      var now := Step(before.state, script[|script| - 1]);
      Progress(now.state, before.sent + now.sent)
  }

  /** The phase reads on only while it is live. */
  ghost predicate IsRun(script: seq<Read>) {
    script == [] || (IsRun(script[..|script| - 1]) && Live(Run(script[..|script| - 1]).state))
  }

  lemma RunLast(script: seq<Read>, r: Read)
    ensures Run(script + [r]) == Progress(Step(Run(script).state, r).state, Run(script).sent + Step(Run(script).state, r).sent)
    ensures IsRun(script + [r]) <==> IsRun(script) && Live(Run(script).state)
  {
  }

  // ---------- Bound ----------

  /** Reads still possible. */
  function Budget(s: State): nat {
    match s
    case AwaitCapex(left) => left + 40
    case AnswerQueries(left, _, _) => left + 25
    case AwaitServices(left) => left + 15
    case AwaitService(left) => left
    case _ => 0
  }

  lemma {:induction false} BudgetShrinks(script: seq<Read>)
    requires IsRun(script)
    ensures Live(Run(script).state) ==> Budget(Run(script).state) > 0
    ensures |script| + Budget(Run(script).state) <= 50
    decreases |script|
  {
    hide AnswerIn, Replies, ComponentIn, CapexRequest, ServicesQuery, ServiceRequest;
    if script != [] {
      BudgetShrinks(script[..|script| - 1]);
    }
  }

  /** Whatever arrives, the phase is over after at most fifty reads. */
  lemma AtMostFiftyReads(script: seq<Read>)
    requires IsRun(script)
    ensures |script| <= 50
    ensures |script| == 50 ==> !Live(Run(script).state)
  {
    BudgetShrinks(script);
  }

  // ---------- Conservation of queries ----------

  /** Is this one of the phase's own requests? They all begin with type 1; replies begin with 2 or 6. */
  predicate IsRequest(a: Action) {
    a.SendSlp? && a.frame.payload != [] && a.frame.payload[0] == 1
  }

  function Requests(sent: seq<Action>): seq<Action> {
    if sent == [] then []
    else Requests(sent[..|sent| - 1]) + if IsRequest(sent[|sent| - 1]) then [sent[|sent| - 1]] else []
  }

  function Others(sent: seq<Action>): seq<Action> {
    if sent == [] then []
    else Others(sent[..|sent| - 1]) + if IsRequest(sent[|sent| - 1]) then [] else [sent[|sent| - 1]]
  }

  /** One reply per query read, in the order of arrival. */
  function RepliesTo(script: seq<Read>): seq<Action> {
    if script == [] then [] else RepliesTo(script[..|script| - 1]) + Replies(script[|script| - 1])
  }

  lemma {:induction false} SplitAppend(a: seq<Action>, b: seq<Action>)
    ensures Requests(a + b) == Requests(a) + Requests(b)
    ensures Others(a + b) == Others(a) + Others(b)
    decreases |b|
  {
    if b == [] {
      assert a + b == a;
    } else {
      assert (a + b)[..|a + b| - 1] == a + b[..|b| - 1];
      SplitAppend(a, b[..|b| - 1]);
    }
  }

  lemma SplitOne(a: Action)
    ensures Requests([a]) == if IsRequest(a) then [a] else []
    ensures Others([a]) == if IsRequest(a) then [] else [a]
  {
  }

  lemma MessageKinds(s: nat, c: u16, q: byte)
    ensures IsRequest(CapexRequest()) && IsRequest(ServicesQuery(s)) && IsRequest(ServiceRequest(c))
    ensures !IsRequest(Send(Capex.Encode(q, 0, [Capex.OWN_RECORD]), s)) && !IsRequest(Send(Capex.LegacyResponse(), s))
  {
  }

  lemma RepliesAreNoRequests(r: Read)
    ensures Requests(Replies(r)) == [] && Others(Replies(r)) == Replies(r)
  {
  }

  /** A step sends its reply to the frame read, if that was a query, and then at most one request of its own. */
  function OwnRequest(s: State, r: Read): seq<Action> {
    match s
    case AnswerQueries(left, handled, capexSession) =>
      if left <= 1 || (r.None? && handled > 0) then [ServicesQuery(capexSession)] else []
    case AwaitServices(left) =>
      if ComponentIn(r).Some? || left <= 1 then [ServiceRequest(OrZero(ComponentIn(r)))] else []
    case _ => []
  }

  lemma StepSends(s: State, r: Read)
    requires Live(s)
    ensures Step(s, r).sent == Replies(r) + OwnRequest(s, r)
  {
  }

  lemma OwnRequestIsRequest(s: State, r: Read)
    ensures Requests(OwnRequest(s, r)) == OwnRequest(s, r) && Others(OwnRequest(s, r)) == []
  {
  }

  lemma StepSplit(s: State, r: Read)
    requires Live(s)
    ensures Others(Step(s, r).sent) == Replies(r) && Requests(Step(s, r).sent) == OwnRequest(s, r)
  {
    hide Step, Replies, OwnRequest, Requests, Others;
    StepSends(s, r);
    RepliesAreNoRequests(r);
    OwnRequestIsRequest(s, r);
    SplitAppend(Replies(r), OwnRequest(s, r));
  }

  /** Every query read gets exactly one reply of its kind, on its session, in order, and nothing else is answered. */
  lemma {:induction false} QueriesConserved(script: seq<Read>)
    requires IsRun(script)
    ensures Others(Run(script).sent) == RepliesTo(script)
    decreases |script|
  {
    hide Step, Replies, CapexRequest, IsRequest;
    if script == [] {
      MessageKinds(0, 0, 0);
      SplitOne(CapexRequest());
    } else {
      var before := script[..|script| - 1];
      QueriesConserved(before);
      StepSplit(Run(before).state, script[|script| - 1]);
      SplitAppend(Run(before).sent, Step(Run(before).state, script[|script| - 1]).sent);
    }
  }

  /** The reads that brought a query. */
  function QueriesRead(script: seq<Read>): nat {
    if script == [] then 0
    else
      var r := script[|script| - 1];
      QueriesRead(script[..|script| - 1])
      + if r.Some? && |r.value.payload| >= 2 && (r.value.payload[0] == 1 || r.value.payload[0] == 5) then 1 else 0
  }

  lemma {:induction false} RepliesCounted(script: seq<Read>)
    ensures |RepliesTo(script)| == QueriesRead(script)
  {
    hide Replies;
    if script != [] {
      RepliesCounted(script[..|script| - 1]);
      RepliesExactly(script[|script| - 1]);
    }
  }

  /** Over every run, what is sent beside the requests is as much as there were queries read. */
  lemma QueriesAnswered(script: seq<Read>)
    requires IsRun(script)
    ensures |Others(Run(script).sent)| == QueriesRead(script)
  {
    hide Run, Others, RepliesTo;
    QueriesConserved(script);
    RepliesCounted(script);
  }

  ghost predicate OnlySlp(sent: seq<Action>) {
    forall i :: 0 <= i < |sent| ==> sent[i].SendSlp?
  }

  /** The phase does nothing but send SLP frames. */
  lemma {:induction false} SendsOnlySlp(script: seq<Read>)
    requires IsRun(script)
    ensures OnlySlp(Run(script).sent)
    decreases |script|
  {
    hide Step, Requests, Others;
    if script != [] {
      var before, r := script[..|script| - 1], script[|script| - 1];
      SendsOnlySlp(before);
      StepSends(Run(before).state, r);
    }
  }

  ghost predicate AllSendable(sent: seq<Action>) {
    forall i :: 0 <= i < |sent| ==> sent[i].SendSlp? && Sendable(sent[i].frame)
  }

  lemma ShortMessages(s: nat, c: u16, q: byte)
    ensures AllSendable([CapexRequest(), ServicesQuery(s), ServiceRequest(c)])
    ensures AllSendable([Send(Capex.Encode(q, 0, [Capex.OWN_RECORD]), s), Send(Capex.LegacyResponse(), s)])
  {
    hide EncodeRequest, Capex.Encode, Capex.LegacyResponse, Capex.EncodeQuery;
    RequestRoundTrip(Request(0xFFFF, 0xFFFF, CAPEX_PROFILE, CAPEX_CHANNELS));
    RequestRoundTrip(Request(c, 0, SERVICE_PROFILE, SERVICE_CHANNELS));
    Capex.OwnMessagesAreShort(q, 0);
    Capex.OwnMessagesAreShort(2, 0);
  }

  lemma StepSendable(s: State, r: Read)
    requires Live(s)
    ensures AllSendable(Step(s, r).sent)
  {
    hide Step, CapexRequest, ServicesQuery, ServiceRequest, ComponentIn;
    StepSends(s, r);
    var session, component := if s.AnswerQueries? then s.capexSession else 0, OrZero(ComponentIn(r));
    var three := [CapexRequest(), ServicesQuery(session), ServiceRequest(component)];
    ShortMessages(session, component, 0);
    assert Sendable(three[1].frame) && Sendable(three[2].frame) && three[1].SendSlp? && three[2].SendSlp?;
    if r.Some? && IsQuery(r.value) {
      RepliesSendable(r.value);
    }
  }

  lemma RepliesSendable(f: Frame)
    requires IsQuery(f)
    ensures Reply(f).SendSlp? && Sendable(Reply(f).frame)
  {
    hide Capex.Encode, Capex.LegacyResponse;
    Capex.OwnMessagesAreShort(f.payload[1], 0);
  }

  /** All that the phase sends fits its frames. */
  lemma {:induction false} SendsOnlySendable(script: seq<Read>)
    requires IsRun(script)
    ensures AllSendable(Run(script).sent)
    decreases |script|
  {
    hide Step, CapexRequest;
    if script == [] {
      ShortMessages(0, 0, 0);
      assert [CapexRequest(), ServicesQuery(0), ServiceRequest(0)][0] == CapexRequest();
    } else {
      var before, r := script[..|script| - 1], script[|script| - 1];
      SendsOnlySendable(before);
      StepSendable(Run(before).state, r);
    }
  }

  // ---------- Shape of the requests ----------

  /** The first service connection response read. */
  function FirstAnswer(script: seq<Read>): Answer {
    if script == [] then NoAnswer
    else
      var earlier := FirstAnswer(script[..|script| - 1]);
      if earlier != NoAnswer then earlier else AnswerIn(script[|script| - 1])
  }

  /** The first session it grants, or 1. */
  function CapexSession(script: seq<Read>): nat {
    match FirstAnswer(script) case Answer(_, sessions) => FirstOr(sessions, 1) case _ => 1
  }

  /** How many reads there were when the services query went out (all, as long as it did not). */
  function QueryIndex(script: seq<Read>): (n: nat)
    ensures n <= |script|
  {
    if script == [] then 0
    else if |Requests(Run(script[..|script| - 1]).sent)| >= 2 then QueryIndex(script[..|script| - 1])
    else |script|
  }

  /** What the first of at most ten reads that carries an answer to the services query tells. */
  function Discovered(script: seq<Read>): Option<u16> {
    if script == [] then None
    else
      var earlier := Discovered(script[..|script| - 1]);
      if earlier.Some? then earlier else if |script| <= 10 then ComponentIn(script[|script| - 1]) else None
  }

  function AfterQuery(script: seq<Read>): seq<Read> {
    script[QueryIndex(script)..]
  }

  function ThreeRequests(script: seq<Read>): seq<Action> {
    [CapexRequest(), ServicesQuery(CapexSession(script)), ServiceRequest(OrZero(Discovered(AfterQuery(script))))]
  }

  ghost predicate Granted(a: Answer) {
    a.Answer? && a.ok
  }

  /** What the reads and requests so far have to do with the state. */
  ghost predicate Shaped(script: seq<Read>) {
    var p := Run(script);
    var requests, all, rest := Requests(p.sent), ThreeRequests(script), AfterQuery(script);
    match p.state
    case AwaitCapex(_) => requests == all[..1] && FirstAnswer(script) == NoAnswer
    case AnswerQueries(_, _, sid) => requests == all[..1] && Granted(FirstAnswer(script)) && sid == CapexSession(script)
    case AwaitServices(left) =>
      requests == all[..2] && Granted(FirstAnswer(script)) && Discovered(rest) == None && 1 <= left && |rest| + left == 10
    case AwaitService(_) => requests == all && Granted(FirstAnswer(script)) && (Discovered(rest).Some? || |rest| >= 10)
    case Finished(command) =>
      command.Some? ==>
        requests == all && Granted(FirstAnswer(script)) && script != [] && Granted(AnswerIn(script[|script| - 1]))
        && command.value == FirstOr(AnswerIn(script[|script| - 1]).sessions, 10)
    case Crashed => true
  }

  lemma RequestsGrow(script: seq<Read>, r: Read)
    requires Live(Run(script).state)
    ensures Requests(Run(script + [r]).sent) == Requests(Run(script).sent) + OwnRequest(Run(script).state, r)
  {
    hide Step, OwnRequest, Requests;
    RunLast(script, r);
    StepSplit(Run(script).state, r);
    SplitAppend(Run(script).sent, Step(Run(script).state, r).sent);
  }

  lemma HistoryGrows(script: seq<Read>, r: Read)
    ensures FirstAnswer(script + [r]) == if FirstAnswer(script) != NoAnswer then FirstAnswer(script) else AnswerIn(r)
    ensures QueryIndex(script + [r]) == if |Requests(Run(script).sent)| >= 2 then QueryIndex(script) else |script| + 1
    ensures |Requests(Run(script).sent)| >= 2 ==> AfterQuery(script + [r]) == AfterQuery(script) + [r]
    ensures |Requests(Run(script).sent)| < 2 ==> AfterQuery(script + [r]) == []
  {
    hide AnswerIn, Run, Requests;
    assert (script + [r])[..|script|] == script;
  }

  lemma NothingDiscovered()
    ensures Discovered([]) == None
  {
  }

  lemma DiscoveredLast(rest: seq<Read>, r: Read)
    ensures Discovered(rest + [r]) == if Discovered(rest).Some? then Discovered(rest) else if |rest| < 10 then ComponentIn(r) else None
  {
  }

  lemma ShapeStep(script: seq<Read>, r: Read)
    requires Shaped(script) && Live(Run(script).state)
    ensures Shaped(script + [r])
    ensures Requests(Run(script + [r]).sent) <= ThreeRequests(script + [r])
  {
    hide AnswerIn, Replies, ComponentIn, Run, Requests, FirstAnswer, QueryIndex, Discovered, CapexRequest, ServicesQuery,
         ServiceRequest, AfterQuery;
    RunLast(script, r);
    RequestsGrow(script, r);
    HistoryGrows(script, r);
    DiscoveredLast(AfterQuery(script), r);
    NothingDiscovered();
    assert (script + [r])[|script|] == r;
  }

  lemma AtStart()
    ensures Run([]) == Progress(AwaitCapex(10), [CapexRequest()]) && FirstAnswer([]) == NoAnswer
  {
  }

  lemma ShapedAtStart()
    ensures Shaped([]) && Requests(Run([]).sent) <= ThreeRequests([])
  {
    hide Run, FirstAnswer, Discovered, AfterQuery, CapexSession, CapexRequest, ServicesQuery, ServiceRequest, IsRequest, Requests;
    AtStart();
    MessageKinds(0, 0, 0);
    SplitOne(CapexRequest());
    assert ThreeRequests([])[..1] == [CapexRequest()];
  }

  lemma {:induction false} AlwaysShaped(script: seq<Read>)
    requires IsRun(script)
    ensures Shaped(script) && Requests(Run(script).sent) <= ThreeRequests(script)
    decreases |script|
  {
    hide Step, Run, Shaped, Requests, ThreeRequests;
    if script == [] {
      ShapedAtStart();
    } else {
      var before, r := script[..|script| - 1], script[|script| - 1];
      assert script == before + [r];
      AlwaysShaped(before);
      ShapeStep(before, r);
    }
  }

  /**
   The requests sent are a prefix of three: the capex request on session 1023, the services query on the first
   session the camera granted (or 1), the service request on 1023 with the component id discovered (or 0).
   */
  lemma RequestsArePrefix(script: seq<Read>)
    requires IsRun(script)
    ensures Requests(Run(script).sent) <= ThreeRequests(script)
  {
    hide Run, ThreeRequests, Requests;
    AlwaysShaped(script);
  }

  /** A command session comes only after all three requests, from the first session of a granted response, or 10. */
  lemma CommandSessionIsGranted(script: seq<Read>)
    requires IsRun(script) && Run(script).state.Finished? && Run(script).state.command.Some?
    ensures Requests(Run(script).sent) == ThreeRequests(script) && Granted(FirstAnswer(script))
    ensures script != [] && Granted(AnswerIn(script[|script| - 1]))
    ensures Run(script).state.command.value == FirstOr(AnswerIn(script[|script| - 1]).sessions, 10)
  {
    hide Run, ThreeRequests, FirstAnswer, AnswerIn, Requests;
    AlwaysShaped(script);
  }

  // ---------- The requests, octet by octet ----------

  lemma {:induction false} FirstRequest(script: seq<Read>)
    requires IsRun(script)
    ensures |Requests(Run(script).sent)| >= 1
    decreases |script|
  {
    hide Step, CapexRequest, IsRequest, Requests;
    if script == [] {
      MessageKinds(0, 0, 0);
      SplitOne(CapexRequest());
    } else {
      var before := script[..|script| - 1];
      FirstRequest(before);
      SplitAppend(Run(before).sent, Step(Run(before).state, script[|script| - 1]).sent);
    }
  }

  lemma ThreeRequestsAre(capexSession: nat, component: u16)
    ensures CapexRequest()
         == SendSlp(Frame(1023, 0, EncodeRequest(Request(0xFFFF, 0xFFFF, Ascii("/System/Reserved/ServiceCapabilityDiscovery"),
                                                         [Channel(1, 255, 3, 1, 3, 0)]))))
    ensures ServicesQuery(capexSession) == SendSlp(Frame(capexSession, 0, [1, 2, 0, 0, 0, 0, 0]))
    ensures ServiceRequest(component)
         == SendSlp(Frame(1023, 0, EncodeRequest(Request(component, 0, Ascii("/system/DI_360_2D"),
                                                         [Channel(10, 204, 0, 0, 0, 0), Channel(11, 222, 0, 0, 0, 0), Channel(12, 230, 0, 0, 0, 0)]))))
  {
    hide EncodeRequest, Ascii;
    assert Be32(0) == [0, 0, 0, 0];
  }

  /**
   Over every run, with ids, profiles, channels, sessions and octets written out: the first request asks for the
   capability service, the second is the services query, the third asks for the component discovered, as acceptor.
   */
  lemma RequestsWrittenOut(script: seq<Read>)
    requires IsRun(script)
    ensures var rs := Requests(Run(script).sent);
      && 1 <= |rs| <= 3
      && rs[0] == SendSlp(Frame(1023, 0, EncodeRequest(Request(0xFFFF, 0xFFFF, Ascii("/System/Reserved/ServiceCapabilityDiscovery"),
                                                               [Channel(1, 255, 3, 1, 3, 0)]))))
      && (|rs| >= 2 ==> rs[1] == SendSlp(Frame(CapexSession(script), 0, [1, 2, 0, 0, 0, 0, 0])))
      && (|rs| >= 3 ==>
            var component := OrZero(Discovered(AfterQuery(script)));
            rs[2] == SendSlp(Frame(1023, 0, EncodeRequest(Request(component, 0, Ascii("/system/DI_360_2D"),
                                                                  [Channel(10, 204, 0, 0, 0, 0), Channel(11, 222, 0, 0, 0, 0), Channel(12, 230, 0, 0, 0, 0)])))))
  {
    hide Run, Requests, CapexRequest, ServicesQuery, ServiceRequest, EncodeRequest, Ascii, CapexSession, Discovered, AfterQuery;
    FirstRequest(script);
    RequestsArePrefix(script);
    ThreeRequestsAre(CapexSession(script), OrZero(Discovered(AfterQuery(script))));
  }

  /** The session the query goes out on: the first one of the first answer, or 1 if that has none. */
  lemma {:induction false} FirstAnswerExactly(script: seq<Read>)
    ensures FirstAnswer(script) == NoAnswer <==> forall i :: 0 <= i < |script| ==> AnswerIn(script[i]) == NoAnswer
    ensures forall i :: 0 <= i < |script| && AnswerIn(script[i]) != NoAnswer && (forall j :: 0 <= j < i ==> AnswerIn(script[j]) == NoAnswer) ==>
      FirstAnswer(script) == AnswerIn(script[i])
  {
    hide AnswerIn;
    if script != [] {
      var before, n := script[..|script| - 1], |script| - 1;
      FirstAnswerExactly(before);
      assert forall i :: 0 <= i < n ==> before[i] == script[i];
    }
  }

  lemma CapexSessionExactly(script: seq<Read>)
    ensures CapexSession(script)
         == match FirstAnswer(script) case Answer(_, sessions) => (if sessions == [] then 1 else sessions[0]) case _ => 1
  {
  }

  /** The component discovered is what the first of ten reads tells that ends the search. */
  lemma {:induction false} DiscoveredExactly(rest: seq<Read>)
    ensures Discovered(rest) == None <==> forall i :: 0 <= i < |rest| && i < 10 ==> ComponentIn(rest[i]) == None
    ensures forall i :: 0 <= i < |rest| && i < 10 && ComponentIn(rest[i]).Some? && (forall j :: 0 <= j < i ==> ComponentIn(rest[j]) == None) ==>
      Discovered(rest) == ComponentIn(rest[i])
  {
    hide ComponentIn;
    if rest != [] {
      var before, n := rest[..|rest| - 1], |rest| - 1;
      DiscoveredExactly(before);
      assert forall i :: 0 <= i < n ==> before[i] == rest[i];
    }
  }

  // ---------- Sessions the header can carry ----------

  ghost predicate AllCarried(sent: seq<Action>) {
    forall i :: 0 <= i < |sent| ==> sent[i].SendSlp? && Carried(sent[i].frame)
  }

  lemma CarriedLast(sent: seq<Action>, a: Action)
    ensures AllCarried(sent + [a]) <==> AllCarried(sent) && a.SendSlp? && Carried(a.frame)
  {
    hide Carried;
    var all := sent + [a];
    if AllCarried(all) {
      assert all[|sent|] == a;
      assert forall i :: 0 <= i < |sent| ==> all[i] == sent[i];
    }
  }

  lemma {:induction false} CarriedSplit(sent: seq<Action>)
    ensures AllCarried(sent) <==> AllCarried(Requests(sent)) && AllCarried(Others(sent))
    decreases |sent|
  {
    hide AllCarried, IsRequest, Carried;
    if sent == [] {
      assert AllCarried([]) by { CarriedNone(); }
    } else {
      var before, last := sent[..|sent| - 1], sent[|sent| - 1];
      assert sent == before + [last];
      CarriedSplit(before);
      CarriedLast(before, last);
      CarriedLast(Requests(before), last);
      CarriedLast(Others(before), last);
      assert Requests(before) + [] == Requests(before) && Others(before) + [] == Others(before);
    }
  }

  lemma CarriedNone()
    ensures AllCarried([])
  {
  }

  /** A reply goes back on a session that came out of a header. */
  lemma {:induction false} RepliesCarried(script: seq<Read>)
    ensures AllCarried(RepliesTo(script))
    decreases |script|
  {
    hide IsQuery, Capex.Encode, Capex.LegacyResponse;
    if script != [] {
      RepliesCarried(script[..|script| - 1]);
    }
  }

  lemma RequestsCarried(requests: seq<Action>, script: seq<Read>)
    requires requests <= ThreeRequests(script)
    ensures AllCarried(requests) <==> |requests| < 2 || CapexSession(script) < 1024
  {
    hide EncodeRequest, Capex.EncodeQuery, CapexSession, Discovered, AfterQuery;
    if |requests| >= 2 {
      assert requests[1] == ServicesQuery(CapexSession(script));
    }
  }

  /**
   Every frame sent fits its header except, exactly, when the camera granted a session of more than ten bits and the
   services query went out on it.
   */
  lemma CarriedExactly(script: seq<Read>)
    requires IsRun(script)
    ensures AllCarried(Run(script).sent) <==> |Requests(Run(script).sent)| < 2 || CapexSession(script) < 1024
  {
    hide Run, Requests, Others, AllCarried, ThreeRequests, CapexSession, RepliesTo;
    CarriedSplit(Run(script).sent);
    QueriesConserved(script);
    RepliesCarried(script);
    RequestsArePrefix(script);
    RequestsCarried(Requests(Run(script).sent), script);
  }
}
