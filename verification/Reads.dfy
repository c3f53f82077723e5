/** What reads bring, tied to the octets the peer sends and the waits that time out. */
module Reads {
  import opened Bytes
  import opened Link
  import opened Slp
  import opened Trace

  /** What a connection has still to offer: octets, how many each `os.read` hands over, and which coming waits time out. */
  datatype View = View(input: bytes, plan: seq<nat>, silent: seq<bool>)

  predicate Ready(silent: seq<bool>) {
    silent == [] || !silent[0]
  }

  /** What a plain read makes of the octets of one `os.read`. */
  function ParsePlain(chunk: bytes): Option<bytes> {
    if |chunk| < 2 then None
    else
      var end: nat := 2 + U16At(chunk, 0) as int;
      Some(chunk[2..if end <= |chunk| then end else |chunk|])
  }

  /**
   What is made of the octets of one read: nothing of fewer than two; else the message of the length they begin with, or
   as much of it as is there. Octets beyond it are dropped.
   */
  lemma PlainOctets(chunk: bytes)
    ensures |chunk| < 2 <==> ParsePlain(chunk) == None
    ensures |chunk| >= 2 ==>
      var end: nat := 2 + 0x100 * chunk[0] as int + chunk[1];
      ParsePlain(chunk) == Some(chunk[2..if |chunk| < end then |chunk| else end])
  {
  }

  /** So a whole frame is read, and what the same read brings behind it is lost. */
  lemma SurplusDropped(message: bytes, surplus: bytes)
    requires |message| < 0x1_0000
    ensures ParsePlain(Framed(message) + surplus) == Some(message)
  {
    var chunk := Framed(message) + surplus;
    assert chunk == [] + Be16(|message|) + (message + surplus);
    Be16At([], |message|, message + surplus);
    assert chunk[2..2 + |message|] == message;
  }

  lemma NoOctets()
    ensures ParsePlain([]) == None
  {
  }

  /**
   One plain read and what it leaves: nothing on a time-out; the OSError exactly when there is nothing more to come and
   the connection fails; otherwise the message in the octets of one `os.read`.
   */
  function PlainNext(lost: bool, v: View): (PlainRead, View) {
    var waited := v.(silent := Rest(v.silent));
    if !Ready(v.silent) then (Message(None), waited)
    else if v.input == [] then (if lost then Failed else Message(None), waited)
    else
      var n := Offered(v.plan, 4096, |v.input|);
      (Message(ParsePlain(v.input[..n])), View(v.input[n..], Rest(v.plan), Rest(v.silent)))
  }

  /** Without a schedule a read takes all octets there are, up to 4096; a schedule can only make that fewer. */
  lemma ReadTakes(lost: bool, v: View)
    ensures var w := PlainNext(lost, v).1;
      var taken := |v.input| - |w.input|;
      var most := if !Ready(v.silent) then 0 else if |v.input| < 4096 then |v.input| else 4096;
      && 0 <= taken <= most && (v.plan == [] ==> taken == most) && w.input == v.input[taken..]
      && (taken > 0 ==> PlainNext(lost, v).0 == Message(ParsePlain(v.input[..taken])))
      && (taken == 0 ==> PlainNext(lost, v).0 == if Ready(v.silent) && v.input == [] && lost then Failed else Message(None))
  {
    hide ParsePlain;
  }

  /** What is left after `n` plain reads. */
  function PlainView(lost: bool, start: View, n: nat): View {
    if n == 0 then start else PlainNext(lost, PlainView(lost, start, n - 1)).1
  }

  function PlainReads(lost: bool, start: View, n: nat): (r: seq<PlainRead>)
    ensures |r| == n
  {
    if n == 0 then [] else PlainReads(lost, start, n - 1) + [PlainNext(lost, PlainView(lost, start, n - 1)).0]
  }

  /** One SLP read: nothing on a time-out, otherwise what decoding the stream gives, however many octets each read offers. */
  predicate SlpStep(crc: bool, lost: bool, v: View, r: Option<Received>, w: View) {
    && w.silent == Rest(v.silent)
    && (if Ready(v.silent) then r == Decode(crc, lost, v.input).frame && w.input == Decode(crc, lost, v.input).rest
        else r == None && w.input == v.input)
  }

  /** The reads `slp` in a row lead from one view to the other. */
  ghost predicate SlpChain(crc: bool, lost: bool, start: View, slp: seq<Option<Received>>, now: View) {
    if slp == [] then now == start
    else
      var n := |slp| - 1;
      exists v :: SlpChain(crc, lost, start, slp[..n], v) && SlpStep(crc, lost, v, slp[n], now)
  }

  /** All reads of a session: the plain ones, and from what these leave the SLP ones, in one CRC mode. */
  ghost predicate Explained(crc: bool, lost: bool, start: View, plain: seq<PlainRead>, slp: seq<Option<Received>>, now: View) {
    plain == PlainReads(lost, start, |plain|) && SlpChain(crc, lost, PlainView(lost, start, |plain|), slp, now)
  }

  lemma NothingRead(crc: bool, lost: bool, start: View)
    ensures Explained(crc, lost, start, [], [], start)
  {
  }

  lemma PlainOnly(crc: bool, lost: bool, start: View, plain: seq<PlainRead>, now: View)
    ensures Explained(crc, lost, start, plain, [], now)
       <==> plain == PlainReads(lost, start, |plain|) && now == PlainView(lost, start, |plain|)
  {
  }

  lemma PlainReadOn(crc: bool, lost: bool, start: View, plain: seq<PlainRead>, v: View)
    requires Explained(crc, lost, start, plain, [], v)
    ensures Explained(crc, lost, start, plain + [PlainNext(lost, v).0], [], PlainNext(lost, v).1)
  {
    hide Explained, PlainNext;
    PlainOnly(crc, lost, start, plain, v);
    PlainOnly(crc, lost, start, plain + [PlainNext(lost, v).0], PlainNext(lost, v).1);
  }

  lemma SlpReadOn(crc: bool, lost: bool, start: View, plain: seq<PlainRead>, slp: seq<Option<Received>>, v: View,
                  r: Option<Received>, now: View)
    requires Explained(crc, lost, start, plain, slp, v) && SlpStep(crc, lost, v, r, now)
    ensures Explained(crc, lost, start, plain, slp + [r], now)
  {
    hide PlainReads, PlainView, SlpStep;
    var all, n := slp + [r], |slp|;
    assert all[..n] == slp && all[n] == r;
    var mid := PlainView(lost, start, |plain|);
    assert SlpChain(crc, lost, mid, all[..n], v) && SlpStep(crc, lost, v, all[n], now);
  }

  // ---------- Where what is read comes from ----------

  /** Plain reads leave a rest of the input, and every message lies in the part taken. */
  lemma {:induction false} MessagesWereSent(lost: bool, start: View, n: nat)
    ensures var left := PlainView(lost, start, n).input;
      |left| <= |start.input| && start.input[|start.input| - |left|..] == left
    ensures forall r :: r in PlainReads(lost, start, n) && r.Message? && r.payload.Some? ==> WasSent(start.input, r.payload.value)
  {
    hide PlainNext, WasSent;
    if n > 0 {
      MessagesWereSent(lost, start, n - 1);
      NextTakes(lost, start.input, PlainView(lost, start, n - 1));
    }
  }

  ghost predicate WasSent(input: bytes, part: bytes) {
    exists k: nat :: At(input, k, part)
  }

  lemma MessageIsPart(chunk: bytes)
    ensures ParsePlain(chunk).Some? ==>
      var p := ParsePlain(chunk).value;
      2 + |p| <= |chunk| && p == chunk[2..2 + |p|]
  {
  }

  lemma NextTakes(lost: bool, input: bytes, v: View)
    requires |v.input| <= |input| && input[|input| - |v.input|..] == v.input
    ensures var (r, w) := PlainNext(lost, v);
      |w.input| <= |input| && input[|input| - |w.input|..] == w.input
      && (r.Message? && r.payload.Some? ==> WasSent(input, r.payload.value))
  {
    hide ParsePlain;
    NoOctets();
    var (r, w) := PlainNext(lost, v);
    var n, k := |v.input| - |w.input|, |input| - |v.input|;
    if r.Message? && r.payload.Some? {
      var p := r.payload.value;
      MessageIsPart(v.input[..n]);
      assert p == v.input[..n][2..2 + |p|] == v.input[2..2 + |p|];
      assert v.input[2..2 + |p|] == input[k + 2..k + 2 + |p|];
      assert At(input, k + 2, p);
    }
  }

  /** The frames that reads brought. */
  function Arrived(slp: seq<Option<Received>>): seq<Frame> {
    if slp == [] then []
    else Arrived(slp[..|slp| - 1]) + match slp[|slp| - 1] case Some(f) => [f] case None => []
  }

  /** How many of the next `n` waits do not time out. */
  function ReadyWaits(silent: seq<bool>, n: nat): nat {
    if n == 0 then 0 else ReadyWaits(silent, n - 1) + if n - 1 < |silent| && silent[n - 1] then 0 else 1
  }

  function Later(silent: seq<bool>, n: nat): seq<bool> {
    if n <= |silent| then silent[n..] else []
  }

  lemma WaitsOn(silent: seq<bool>, n: nat)
    ensures Rest(Later(silent, n)) == Later(silent, n + 1)
    ensures Ready(Later(silent, n)) <==> !(n < |silent| && silent[n])
  {
  }

  /** What a wait and a read do when the peer has sent all of `frames` and `m` of them have been read. */
  lemma NextFrame(crc: bool, lost: bool, frames: seq<SendableFrame>, m: nat, v: View, r: Option<Received>, now: View)
    requires m <= |frames| && v.input == EncodeAll(crc, frames[m..]) && SlpStep(crc, lost, v, r, now)
    ensures now.silent == Rest(v.silent)
    ensures if Ready(v.silent) && m < |frames| then r == Some(OnWire(frames[m])) && now.input == EncodeAll(crc, frames[m + 1..])
            else r == None && now.input == v.input
  {
    hide Encode, OnWire;
    if Ready(v.silent) && m < |frames| {
      assert frames[m..][0] == frames[m] && frames[m..][1..] == frames[m + 1..];
      FrameRoundTrip(crc, lost, frames[m], EncodeAll(crc, frames[m + 1..]));
    }
  }

  /** Read `i` when the peer sends `frames`: nothing on a time-out, and else the next frame while there are any. */
  function ReadAt(frames: seq<Frame>, silent: seq<bool>, i: nat): Option<Received> {
    if i < |silent| && silent[i] then None
    else if ReadyWaits(silent, i) < |frames| then Some(OnWire(frames[ReadyWaits(silent, i)]))
    else None
  }

  function ReadsOf(frames: seq<Frame>, silent: seq<bool>, n: nat): (r: seq<Option<Received>>)
    ensures |r| == n && forall i :: 0 <= i < n ==> r[i] == ReadAt(frames, silent, i)
  {
    seq(n, i requires 0 <= i < n => ReadAt(frames, silent, i))
  }

  lemma ReadsOfPrefix(frames: seq<Frame>, silent: seq<bool>, n: nat, k: nat)
    requires k <= n
    ensures ReadsOf(frames, silent, n)[..k] == ReadsOf(frames, silent, k)
  {
  }

  lemma ReadsOfLast(frames: seq<Frame>, silent: seq<bool>, n: nat)
    ensures ReadsOf(frames, silent, n + 1) == ReadsOf(frames, silent, n) + [ReadAt(frames, silent, n)]
  {
    ReadsOfPrefix(frames, silent, n + 1, n);
  }

  function Least(a: nat, b: nat): nat {
    if a <= b then a else b
  }

  /**
   When the peer sends the encodings of `frames`, the reads bring exactly these, as their headers tell them and in
   order: one for each wait that does not time out, until there are no more.
   */
  lemma {:induction false} FramesArrive(crc: bool, lost: bool, frames: seq<SendableFrame>, start: View,
                                        slp: seq<Option<Received>>, now: View)
    requires start.input == EncodeAll(crc, frames) && SlpChain(crc, lost, start, slp, now)
    ensures slp == ReadsOf(frames, start.silent, |slp|)
    ensures now.input == EncodeAll(crc, frames[Least(ReadyWaits(start.silent, |slp|), |frames|)..])
    ensures now.silent == Later(start.silent, |slp|)
    decreases |slp|
  {
    hide EncodeAll, OnWire, SlpStep, Ready, Later, ReadsOf;
    if slp == [] {
      assert frames[0..] == frames;
      NoneLater(frames, start.silent);
    } else {
      var n := |slp| - 1;
      var v :| SlpChain(crc, lost, start, slp[..n], v) && SlpStep(crc, lost, v, slp[n], now);
      FramesArrive(crc, lost, frames, start, slp[..n], v);
      WaitsOn(start.silent, n);
      NextFrame(crc, lost, frames, Least(ReadyWaits(start.silent, n), |frames|), v, slp[n], now);
      ReadsOfLast(frames, start.silent, n);
    }
  }

  lemma NoneLater(frames: seq<Frame>, silent: seq<bool>)
    ensures Later(silent, 0) == silent && ReadsOf(frames, silent, 0) == []
  {
  }

  lemma {:induction false} PlainWaits(lost: bool, start: View, n: nat)
    ensures PlainView(lost, start, n).silent == Later(start.silent, n)
  {
    hide ParsePlain;
    if n > 0 {
      PlainWaits(lost, start, n - 1);
      WaitsOn(start.silent, n - 1);
    }
  }

  lemma ArrivedLast(slp: seq<Option<Received>>, r: Option<Received>)
    ensures Arrived(slp + [r]) == Arrived(slp) + match r case Some(f) => [f] case None => []
  {
    assert (slp + [r])[..|slp|] == slp;
  }

  /** Leaving out the reads that bring nothing, these are the first frames, one for each wait that does not time out. */
  lemma {:induction false} ArrivedOf(frames: seq<Frame>, silent: seq<bool>, n: nat)
    ensures Arrived(ReadsOf(frames, silent, n)) == OnWireAll(frames)[..Least(ReadyWaits(silent, n), |frames|)]
  {
    hide ReadsOf, OnWire;
    if n == 0 {
      NoneLater(frames, silent);
    } else {
      ArrivedOf(frames, silent, n - 1);
      ReadsOfLast(frames, silent, n - 1);
      ArrivedLast(ReadsOf(frames, silent, n - 1), ReadAt(frames, silent, n - 1));
    }
  }

  /**
   So in a session whose plain reads leave the encodings of `frames`, the SLP reads bring these frames in order, as many
   as there are waits that do not time out, and no others.
   */
  lemma SessionFramesArrive(crc: bool, lost: bool, start: View, plain: seq<PlainRead>, slp: seq<Option<Received>>, now: View,
                            frames: seq<SendableFrame>)
    requires Explained(crc, lost, start, plain, slp, now)
    requires PlainView(lost, start, |plain|).input == EncodeAll(crc, frames)
    ensures slp == ReadsOf(frames, Later(start.silent, |plain|), |slp|)
    ensures Arrived(slp) == OnWireAll(frames)[..Least(ReadyWaits(Later(start.silent, |plain|), |slp|), |frames|)]
  {
    hide PlainView, SlpChain, EncodeAll, OnWireAll, Arrived, ReadyWaits, Later, ReadsOf;
    var mid := PlainView(lost, start, |plain|);
    PlainWaits(lost, start, |plain|);
    FramesArrive(crc, lost, frames, mid, slp, now);
    ArrivedOf(frames, mid.silent, |slp|);
  }

  // ---------- A peer whose messages come one by one ----------

  /** A message that one `os.read` can bring whole. */
  type Short = p: bytes | |p| + 2 <= 4096 witness []

  function FramedAll(messages: seq<Short>): bytes {
    if messages == [] then [] else Framed(messages[0]) + FramedAll(messages[1..])
  }

  /** Each of the first reads hands over one whole message. */
  ghost predicate OneByOne(plan: seq<nat>, messages: seq<Short>) {
    |messages| <= |plan| && forall i :: 0 <= i < |messages| ==> plan[i] == |messages[i]| + 2
  }

  /** None of the first `n` waits times out. */
  ghost predicate Awake(silent: seq<bool>, n: nat) {
    forall i :: 0 <= i < n && i < |silent| ==> !silent[i]
  }

  function AsReads(messages: seq<bytes>): (r: seq<PlainRead>)
    ensures |r| == |messages| && forall i :: 0 <= i < |r| ==> r[i] == Message(Some(messages[i]))
  {
    seq(|messages|, i requires 0 <= i < |messages| => Message(Some(messages[i])))
  }

  lemma WholeMessage(lost: bool, v: View, message: Short, rest: bytes)
    requires v.input == Framed(message) + rest && v.plan != [] && v.plan[0] == |message| + 2 && Ready(v.silent)
    ensures PlainNext(lost, v) == (Message(Some(message)), View(rest, Rest(v.plan), Rest(v.silent)))
  {
    var frame := Framed(message);
    assert v.input[..|frame|] == frame && v.input[|frame|..] == rest;
    assert frame == [] + Be16(|message|) + message;
    Be16At([], |message|, message);
    assert U16At(frame, 0) == |message| && frame[2..2 + |message|] == message;
    assert Offered(v.plan, 4096, |v.input|) == |frame|;
  }

  lemma FramedFrom(messages: seq<Short>, n: nat, rest: bytes)
    requires n < |messages|
    ensures FramedAll(messages[n..]) + rest == Framed(messages[n]) + (FramedAll(messages[n + 1..]) + rest)
  {
    hide Framed;
    assert messages[n..][0] == messages[n] && messages[n..][1..] == messages[n + 1..];
  }

  lemma AsReadsLast(messages: seq<Short>, n: nat)
    requires n < |messages|
    ensures AsReads(messages[..n + 1]) == AsReads(messages[..n]) + [Message(Some(messages[n]))]
  {
  }

  lemma OfferedNext(plan: seq<nat>, silent: seq<bool>, messages: seq<Short>, n: nat)
    requires n < |messages| && OneByOne(plan, messages) && Awake(silent, |messages|)
    ensures n < |plan| && plan[n..] != [] && plan[n..][0] == |messages[n]| + 2 && Rest(plan[n..]) == plan[n + 1..]
    ensures Ready(Later(silent, n)) && Rest(Later(silent, n)) == Later(silent, n + 1)
  {
  }

  lemma NoneRead(messages: seq<Short>, start: View)
    ensures messages[0..] == messages && start.plan[0..] == start.plan && Later(start.silent, 0) == start.silent
    ensures AsReads(messages[..0]) == []
  {
  }

  /** Messages that come one by one, with no time-out between them, are read one by one, and what follows is left. */
  lemma {:induction false} OneByOneRead(lost: bool, start: View, messages: seq<Short>, rest: bytes, n: nat)
    requires start.input == FramedAll(messages) + rest && OneByOne(start.plan, messages) && Awake(start.silent, |messages|)
    requires n <= |messages|
    ensures PlainReads(lost, start, n) == AsReads(messages[..n])
    ensures n <= |start.plan|
    ensures PlainView(lost, start, n) == View(FramedAll(messages[n..]) + rest, start.plan[n..], Later(start.silent, n))
    decreases n
  {
    hide PlainNext, Framed, FramedAll, OneByOne, Awake, AsReads, Later, Rest, Ready;
    if n == 0 {
      NoneRead(messages, start);
    } else {
      OneByOneRead(lost, start, messages, rest, n - 1);
      FramedFrom(messages, n - 1, rest);
      AsReadsLast(messages, n - 1);
      OfferedNext(start.plan, start.silent, messages, n - 1);
      WholeMessage(lost, PlainView(lost, start, n - 1), messages[n - 1], FramedAll(messages[n..]) + rest);
    }
  }

  lemma PartWasSent(input: bytes, whole: bytes, i: nat)
    requires WasSent(input, whole) && i <= |whole|
    ensures WasSent(input, whole[i..])
  {
    var k: nat :| At(input, k, whole);
    assert input[k + i..k + |whole|] == input[k..k + |whole|][i..];
    assert At(input, k + i, whole[i..]);
  }
}
