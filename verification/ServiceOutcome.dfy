/** When the service phase ends with a command session: a condition on what its reads bring, without the machine. */
module ServiceOutcome {
  import opened Bytes
  import opened ServiceConnection
  import opened ServicePhase

  ghost predicate Unanswered(script: seq<Read>, from: nat, to: nat)
    requires to <= |script|
  {
    forall i :: from <= i < to ==> AnswerIn(script[i]) == NoAnswer
  }

  /** The queries among the reads from `from` to `to`. */
  function Handled(script: seq<Read>, from: nat, to: nat): nat
    requires from <= to <= |script|
  {
    if from == to then 0 else Handled(script, from, to - 1) + |Replies(script[to - 1])|
  }

  /** No silence after a query. */
  ghost predicate Answering(script: seq<Read>, from: nat, to: nat)
    requires from <= to <= |script|
  {
    forall i :: from <= i < to ==> script[i].Some? || Handled(script, from, i) == 0
  }

  ghost predicate Undiscovered(script: seq<Read>, from: nat, to: nat)
    requires to <= |script|
  {
    forall i :: from <= i < to ==> ComponentIn(script[i]) == None
  }

  /** The first answer is read `a`, among the first ten, and grants. */
  ghost predicate CapexGranted(script: seq<Read>, a: nat) {
    a < 10 && a < |script| && Unanswered(script, 0, a) && Granted(AnswerIn(script[a]))
  }

  /** The answering of queries that begins at `from` is over at `to`: by silence after a query, or after fifteen reads. */
  ghost predicate QueriesOver(script: seq<Read>, from: nat, to: nat) {
    && from < to <= |script| && to <= from + 15 && Answering(script, from, to - 1)
    && (to == from + 15 || (script[to - 1] == None && Handled(script, from, to - 1) > 0))
  }

  /** The search for the camera's services that begins at `from` is over at `to`: found, or after ten reads. */
  ghost predicate ServicesOver(script: seq<Read>, from: nat, to: nat) {
    && from < to <= |script| && to <= from + 10 && Undiscovered(script, from, to - 1)
    && (to == from + 10 || ComponentIn(script[to - 1]).Some?)
  }

  /** The first answer from `from` on is the last read, the fifteenth at the latest, and grants `session` or nothing, for 10. */
  ghost predicate CommandGranted(script: seq<Read>, from: nat, session: nat) {
    && from < |script| <= from + 15 && Unanswered(script, from, |script| - 1)
    && Granted(AnswerIn(script[|script| - 1]))
    && session == FirstOr(AnswerIn(script[|script| - 1]).sessions, 10)
  }

  ghost predicate GrantsCommand(script: seq<Read>, session: nat) {
    exists a: nat, q: nat, d: nat ::
      CapexGranted(script, a) && QueriesOver(script, a + 1, q) && ServicesOver(script, q, d) && CommandGranted(script, d, session)
  }

  // ---------- From the machine to the reads ----------

  /** What the first `n` reads have been, given where the machine stands. */
  ghost predicate Staged(script: seq<Read>, n: nat, state: State, a: nat, q: nat, d: nat)
    requires n <= |script|
  {
    match state
    case AwaitCapex(left) => left >= 1 && n + left == 10 && Unanswered(script, 0, n)
    case AnswerQueries(left, handled, sid) =>
      left >= 1 && a < n && n - (a + 1) + left == 15 && CapexGranted(script, a)
      && handled == Handled(script, a + 1, n) && Answering(script, a + 1, n) && sid == FirstOr(AnswerIn(script[a]).sessions, 1)
    case AwaitServices(left) =>
      left >= 1 && q <= n && n - q + left == 10 && CapexGranted(script, a) && QueriesOver(script, a + 1, q)
      && Undiscovered(script, q, n)
    case AwaitService(left) =>
      left >= 1 && d <= n && n - d + left == 15 && CapexGranted(script, a) && QueriesOver(script, a + 1, q)
      && ServicesOver(script, q, d) && Unanswered(script, d, n)
    case Finished(command) =>
      command.Some? ==>
        CapexGranted(script, a) && QueriesOver(script, a + 1, q) && ServicesOver(script, q, d)
        && CommandGranted(script[..n], d, command.value)
    case Crashed => true
  }

  lemma StageStep(script: seq<Read>, n: nat, state: State, a0: nat, q0: nat, d0: nat) returns (a: nat, q: nat, d: nat)
    requires n < |script| && Live(state) && Staged(script, n, state, a0, q0, d0)
    ensures Staged(script, n + 1, Step(state, script[n]).state, a, q, d)
  {
    hide AnswerIn, Replies, ComponentIn, CapexRequest, ServicesQuery, ServiceRequest;
    a, q, d := a0, q0, d0;
    match state
    case AwaitCapex(_) => a := n;
    case AnswerQueries(_, _, _) => q := n + 1;
    case AwaitServices(_) => d := n + 1;
    case AwaitService(_) =>
      assert script[..n + 1][n] == script[n];
  }

  lemma {:induction false} StageOf(script: seq<Read>, n: nat) returns (a: nat, q: nat, d: nat)
    requires n <= |script| && IsRun(script[..n])
    ensures Staged(script, n, Run(script[..n]).state, a, q, d)
    decreases n
  {
    hide Staged, Step, Run, IsRun, CapexRequest;
    if n == 0 {
      AtStart();
      assert script[..0] == [];
      assert Staged(script, 0, AwaitCapex(10), 0, 0, 0) by { StageStart(script); }
      a, q, d := 0, 0, 0;
    } else {
      var before := script[..n - 1];
      assert script[..n] == before + [script[n - 1]];
      RunLast(before, script[n - 1]);
      a, q, d := StageOf(script, n - 1);
      a, q, d := StageStep(script, n - 1, Run(before).state, a, q, d);
    }
  }

  lemma StageStart(script: seq<Read>)
    ensures Staged(script, 0, AwaitCapex(10), 0, 0, 0)
  {
  }

  // ---------- From the reads to the machine ----------

  /** The first `n` reads are read, and then the machine stands there. */
  ghost predicate Reaches(script: seq<Read>, n: nat, state: State)
    requires n <= |script|
  {
    IsRun(script[..n]) && Run(script[..n]).state == state
  }

  lemma OneMoreRead(script: seq<Read>, n: nat, state: State)
    requires n < |script| && Reaches(script, n, state) && Live(state)
    ensures Reaches(script, n + 1, Step(state, script[n]).state)
  {
    hide Step;
    assert script[..n + 1] == script[..n] + [script[n]];
    RunLast(script[..n], script[n]);
  }

  lemma {:induction false} WhileUnanswered(script: seq<Read>, n: nat)
    requires n <= |script| && n < 10 && Unanswered(script, 0, n)
    ensures Reaches(script, n, AwaitCapex(10 - n))
  {
    hide AnswerIn, Replies;
    if n == 0 {
      AtStart();
      assert script[..0] == [];
    } else {
      WhileUnanswered(script, n - 1);
      OneMoreRead(script, n - 1, AwaitCapex(11 - n));
    }
  }

  lemma {:induction false} WhileAnswering(script: seq<Read>, from: nat, n: nat, sid: nat)
    requires from <= n <= |script| && n < from + 15 && Answering(script, from, n)
    requires Reaches(script, from, AnswerQueries(15, 0, sid))
    ensures Reaches(script, n, AnswerQueries(15 - (n - from), Handled(script, from, n), sid))
    decreases n
  {
    hide Replies, ServicesQuery, Reaches;
    if n > from {
      WhileAnswering(script, from, n - 1, sid);
      OneMoreRead(script, n - 1, AnswerQueries(16 - (n - from), Handled(script, from, n - 1), sid));
    }
  }

  lemma {:induction false} WhileUndiscovered(script: seq<Read>, from: nat, n: nat)
    requires from <= n <= |script| && n < from + 10 && Undiscovered(script, from, n)
    requires Reaches(script, from, AwaitServices(10))
    ensures Reaches(script, n, AwaitServices(10 - (n - from)))
    decreases n
  {
    hide Replies, ComponentIn, ServiceRequest, Reaches;
    if n > from {
      WhileUndiscovered(script, from, n - 1);
      OneMoreRead(script, n - 1, AwaitServices(11 - (n - from)));
    }
  }

  lemma {:induction false} WhileUngranted(script: seq<Read>, from: nat, n: nat)
    requires from <= n <= |script| && n < from + 15 && Unanswered(script, from, n)
    requires Reaches(script, from, AwaitService(15))
    ensures Reaches(script, n, AwaitService(15 - (n - from)))
    decreases n
  {
    hide AnswerIn, Replies, Reaches;
    if n > from {
      WhileUngranted(script, from, n - 1);
      OneMoreRead(script, n - 1, AwaitService(16 - (n - from)));
    }
  }

  lemma CapexReached(script: seq<Read>, a: nat)
    requires CapexGranted(script, a)
    ensures Reaches(script, a + 1, AnswerQueries(15, 0, FirstOr(AnswerIn(script[a]).sessions, 1)))
  {
    hide AnswerIn, Replies, Reaches;
    WhileUnanswered(script, a);
    OneMoreRead(script, a, AwaitCapex(10 - a));
  }

  lemma QueriesReached(script: seq<Read>, from: nat, q: nat, sid: nat)
    requires QueriesOver(script, from, q) && Reaches(script, from, AnswerQueries(15, 0, sid))
    ensures Reaches(script, q, AwaitServices(10))
  {
    hide Replies, ServicesQuery, Reaches;
    WhileAnswering(script, from, q - 1, sid);
    OneMoreRead(script, q - 1, AnswerQueries(16 - (q - from), Handled(script, from, q - 1), sid));
  }

  lemma ServicesReached(script: seq<Read>, from: nat, d: nat)
    requires ServicesOver(script, from, d) && Reaches(script, from, AwaitServices(10))
    ensures Reaches(script, d, AwaitService(15))
  {
    hide Replies, ComponentIn, ServiceRequest, Reaches;
    WhileUndiscovered(script, from, d - 1);
    OneMoreRead(script, d - 1, AwaitServices(11 - (d - from)));
  }

  lemma CommandReached(script: seq<Read>, from: nat, session: nat)
    requires CommandGranted(script, from, session) && Reaches(script, from, AwaitService(15))
    ensures Reaches(script, |script|, Finished(Some(session)))
  {
    hide AnswerIn, Replies, Reaches;
    var n := |script| - 1;
    WhileUngranted(script, from, n);
    OneMoreRead(script, n, AwaitService(15 - (n - from)));
  }

  /**
   The phase reads just these and then returns command session `session` if and only if they are: a granted first
   answer among ten, queries until silence follows one or fifteen reads are over, the camera's services or ten reads
   without them, and within fifteen reads a granted answer as the first one, which names the session (or nothing, for 10).
   */
  lemma CommandExactly(script: seq<Read>, session: nat)
    ensures IsRun(script) && Run(script).state == Finished(Some(session)) <==> GrantsCommand(script, session)
  {
    hide AnswerIn, Run, IsRun, CapexGranted, QueriesOver, ServicesOver, CommandGranted;
    var n := |script|;
    assert script[..n] == script;
    if IsRun(script) && Run(script).state == Finished(Some(session)) {
      var a, q, d := StageOf(script, n);
      assert GrantsCommand(script, session);
    }
    if a: nat, q: nat, d: nat :|
      CapexGranted(script, a) && QueriesOver(script, a + 1, q) && ServicesOver(script, q, d) && CommandGranted(script, d, session) {
      Inside(script, a);
      CapexReached(script, a);
      QueriesReached(script, a + 1, q, FirstOr(AnswerIn(script[a]).sessions, 1));
      ServicesReached(script, q, d);
      CommandReached(script, d, session);
    }
  }

  lemma Inside(script: seq<Read>, a: nat)
    requires CapexGranted(script, a)
    ensures a < |script| && Granted(AnswerIn(script[a]))
  {
  }

  // ---------- Which requests go out ----------

  /** The first answer is read `a` and grants, and the queries after it are over at `q`. */
  ghost predicate QueryDueAt(script: seq<Read>, a: nat, q: nat) {
    CapexGranted(script, a) && QueriesOver(script, a + 1, q)
  }

  ghost predicate QueryDue(script: seq<Read>) {
    exists a: nat, q: nat :: QueryDueAt(script, a, q)
  }

  ghost predicate ServiceDue(script: seq<Read>) {
    exists a: nat, q: nat, d: nat :: QueryDueAt(script, a, q) && ServicesOver(script, q, d)
  }

  function RequestCount(script: seq<Read>): nat {
    |Requests(Run(script).sent)|
  }

  /** As many requests as the state tells while the phase is live. */
  lemma LiveCount(script: seq<Read>)
    requires IsRun(script) && Live(Run(script).state)
    ensures RequestCount(script)
         == match Run(script).state case AwaitServices(_) => 2 case AwaitService(_) => 3 case _ => 1
  {
    hide Run, Requests, IsRun, Discovered, AfterQuery, CapexSession, FirstAnswer, CapexRequest, ServicesQuery, ServiceRequest;
    AlwaysShaped(script);
  }

  /** The requests that went out had been due. */
  lemma RequestsWereDue(script: seq<Read>)
    requires IsRun(script)
    ensures RequestCount(script) >= 2 ==> QueryDue(script)
    ensures RequestCount(script) >= 3 ==> ServiceDue(script)
  {
    hide Run, Requests, IsRun, AnswerIn, ComponentIn, Replies, Handled, Unanswered, Answering, Undiscovered, CapexGranted, QueriesOver,
         ServicesOver, CommandGranted, RequestCount;
    var n := |script|;
    assert script[..n] == script;
    if Live(Run(script).state) {
      LiveCount(script);
      var a, q, d := StageOf(script, n);
      assert RequestCount(script) >= 2 ==> QueryDueAt(script, a, q);
    } else {
      StartIsLive();
      var before, r := script[..n - 1], script[n - 1];
      assert script == before + [r];
      RunLast(before, r);
      CountGrows(before, r);
      LiveCount(before);
      var a, q, d := StageOf(script, n - 1);
      assert RequestCount(script) >= 2 ==> QueryDueAt(script, a, q);
    }
  }

  lemma StartIsLive()
    ensures Live(Run([]).state)
  {
  }

  lemma CountGrows(script: seq<Read>, r: Read)
    requires IsRun(script) && Live(Run(script).state)
    ensures RequestCount(script + [r]) == RequestCount(script) + |OwnRequest(Run(script).state, r)|
    ensures !Live(Step(Run(script).state, r).state) ==> OwnRequest(Run(script).state, r) == []
    ensures !Live(Step(Run(script).state, r).state) ==> Run(script).state.AwaitCapex? || Run(script).state.AwaitService?
  {
    hide Run, Requests, IsRun, AnswerIn, ComponentIn, Replies, ServicesQuery, ServiceRequest;
    RequestsGrow(script, r);
  }

  lemma {:induction false} CountKept(script: seq<Read>, n: nat)
    requires n <= |script| && IsRun(script)
    ensures IsRun(script[..n]) && RequestCount(script[..n]) <= RequestCount(script)
    decreases |script|
  {
    hide Run, Requests, OwnRequest, RequestCount;
    if n < |script| {
      var before, r := script[..|script| - 1], script[|script| - 1];
      assert script == before + [r];
      CountGrows(before, r);
      CountKept(before, n);
      assert before[..n] == script[..n];
    } else {
      assert script[..n] == script;
    }
  }

  /** Those that are due go out: the services query when the queries are over, the service request when the search is. */
  lemma RequestsExactly(script: seq<Read>)
    requires IsRun(script)
    ensures RequestCount(script) >= 2 <==> QueryDue(script)
    ensures RequestCount(script) >= 3 <==> ServiceDue(script)
  {
    hide Run, Requests, IsRun, AnswerIn, QueryDueAt, ServicesOver, RequestCount, Reaches;
    RequestsWereDue(script);
    if a: nat, q: nat :| QueryDueAt(script, a, q) {
      QueryGoesOut(script, a, q);
    }
    if a: nat, q: nat, d: nat :| QueryDueAt(script, a, q) && ServicesOver(script, q, d) {
      QueryGoesOut(script, a, q);
      ServicesReached(script, q, d);
      ServicesInside(script, q, d);
      RequestReached(script, d, AwaitService(15));
    }
  }

  lemma QueryGoesOut(script: seq<Read>, a: nat, q: nat)
    requires IsRun(script) && QueryDueAt(script, a, q)
    ensures q <= |script| && Reaches(script, q, AwaitServices(10)) && RequestCount(script) >= 2
  {
    hide Run, Requests, IsRun, AnswerIn, CapexGranted, RequestCount, Reaches;
    Inside(script, a);
    CapexReached(script, a);
    QueriesReached(script, a + 1, q, FirstOr(AnswerIn(script[a]).sessions, 1));
    RequestReached(script, q, AwaitServices(10));
  }

  lemma ServicesInside(script: seq<Read>, q: nat, d: nat)
    requires ServicesOver(script, q, d)
    ensures d <= |script|
  {
  }

  lemma RequestReached(script: seq<Read>, n: nat, state: State)
    requires n <= |script| && IsRun(script) && Reaches(script, n, state) && (state.AwaitServices? || state.AwaitService?)
    ensures RequestCount(script) >= if state.AwaitServices? then 2 else 3
  {
    hide Run, Requests, IsRun, RequestCount;
    CountKept(script, n);
    LiveCount(script[..n]);
  }

  // ---------- When an exception ends the phase ----------

  /** Read `n` is an answer with nothing behind its `;`, and is waited for: as the first answer of all, or as the service's. */
  ghost predicate StumblesAt(script: seq<Read>, n: nat) {
    && n < |script| && AnswerIn(script[n]) == IndexError
    && ((n < 10 && Unanswered(script, 0, n)) || (exists a: nat, q: nat, d: nat :: ServiceWait(script, a, q, d, n)))
  }

  /** The service request went out after read `d - 1`, and no answer came from there up to read `n`. */
  ghost predicate ServiceWait(script: seq<Read>, a: nat, q: nat, d: nat, n: nat)
    requires n <= |script|
  {
    QueryDueAt(script, a, q) && ServicesOver(script, q, d) && d <= n < d + 15 && Unanswered(script, d, n)
  }

  /** The phase reads just these and then raises if and only if the last of them is such an answer. */
  lemma RaisesExactly(script: seq<Read>)
    ensures IsRun(script) && Run(script).state == Crashed <==> script != [] && StumblesAt(script, |script| - 1)
  {
    hide AnswerIn, Run, IsRun, QueriesOver, ServicesOver, CommandGranted, ServiceWait;
    if IsRun(script) && Run(script).state == Crashed {
      StartIsLive();
      Stumbled(script);
    }
    if script != [] && StumblesAt(script, |script| - 1) {
      var n := |script| - 1;
      if n < 10 && Unanswered(script, 0, n) {
        WhileUnanswered(script, n);
        Stumble(script, AwaitCapex(10 - n));
      } else if a: nat, q: nat, d: nat :| ServiceWait(script, a, q, d, n) {
        ServiceWaited(script, a, q, d, n);
        Stumble(script, AwaitService(15 - (n - d)));
      }
    }
  }

  lemma Stumbled(script: seq<Read>)
    requires script != [] && IsRun(script) && Run(script).state == Crashed
    ensures StumblesAt(script, |script| - 1)
  {
    hide AnswerIn, Run, IsRun, QueriesOver, ServicesOver, Replies, ComponentIn, ServicesQuery, ServiceRequest, CapexGranted;
    var n := |script| - 1;
    var before, r := script[..n], script[n];
    assert script == before + [r];
    RunLast(before, r);
    var a, q, d := StageOf(script, n);
    assert Run(before).state.AwaitService? ==> ServiceWait(script, a, q, d, n);
  }

  lemma Stumble(script: seq<Read>, state: State)
    requires script != [] && Reaches(script, |script| - 1, state) && AnswerIn(script[|script| - 1]) == IndexError
    requires state.AwaitCapex? || state.AwaitService?
    ensures IsRun(script) && Run(script).state == Crashed
  {
    hide AnswerIn, Replies, Run, IsRun;
    OneMoreRead(script, |script| - 1, state);
    assert script[..|script|] == script;
  }

  lemma ServiceWaited(script: seq<Read>, a: nat, q: nat, d: nat, n: nat)
    requires n <= |script| && ServiceWait(script, a, q, d, n)
    ensures d <= n < d + 15 && Reaches(script, n, AwaitService(15 - (n - d)))
  {
    hide AnswerIn, QueriesOver, ServicesOver, CapexGranted, Reaches;
    Inside(script, a);
    CapexReached(script, a);
    QueriesReached(script, a + 1, q, FirstOr(AnswerIn(script[a]).sessions, 1));
    ServicesReached(script, q, d);
    WhileUngranted(script, d, n);
  }
}
