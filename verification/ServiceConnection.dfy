/** Service connection requests (column-wise channel lists) and responses. */
module ServiceConnection {
  import opened Bytes

  const MSG_SERVICE_CONNECTION_REQUEST: byte := 1
  const MSG_SERVICE_CONNECTION_RESPONSE: byte := 2

  datatype Channel = Channel(session: u16, channel: u16, qosClass: byte, qosRate: byte, qosPriority: byte, payloadType: byte)

  // ---------- Request ----------

  /** One group of columns: what `field` contributes for every channel, in order. */
  function Column(channels: seq<Channel>, field: Channel -> bytes): bytes {
    if channels == [] then []
    else Column(channels[..|channels| - 1], field) + field(channels[|channels| - 1])
  }

  const SESSION_FIELD: Channel -> bytes := (c: Channel) => Be16(c.session)
  const CHANNEL_FIELD: Channel -> bytes := (c: Channel) => Be16(c.channel)
  const QOS_FIELD: Channel -> bytes := (c: Channel) => [c.qosClass, c.qosRate, c.qosPriority]
  const PAYLOAD_FIELD: Channel -> bytes := (c: Channel) => [c.payloadType]

  datatype RequestData = Request(acceptor: u16, initiator: u16, profile: bytes, channels: seq<Channel>)

  type Request = r: RequestData | |r.channels| < 0x1_0000 witness Request(0, 0, [], [])

  function RequestHead(r: Request): (b: bytes)
    ensures |b| == 8 + |r.profile|
  {
    [MSG_SERVICE_CONNECTION_REQUEST] + (Be16(r.acceptor) + (Be16(r.initiator) + (Terminated(r.profile) + Be16(|r.channels|))))
  }

  function Columns(channels: seq<Channel>): bytes {
    Column(channels, SESSION_FIELD) + (Column(channels, CHANNEL_FIELD) + (Column(channels, QOS_FIELD) + Column(channels, PAYLOAD_FIELD)))
  }

  function EncodeRequest(r: Request): bytes {
    RequestHead(r) + Columns(r.channels)
  }

  /** `None` is the struct.error of a channel count that does not fit its word. */
  method MakeServiceConnectionRequest(profile: bytes, channels: seq<Channel>, initiator: u16, acceptor: u16)
    returns (r: Option<bytes>)
    ensures |channels| >= 0x1_0000 ==> r == None
    ensures |channels| < 0x1_0000 ==> r == Some(EncodeRequest(Request(acceptor, initiator, profile, channels)))
  {
    hide Be16, Terminated, SESSION_FIELD, CHANNEL_FIELD, QOS_FIELD, PAYLOAD_FIELD;
    var frame: bytes := [MSG_SERVICE_CONNECTION_REQUEST];
    frame := frame + Be16(acceptor);
    frame := frame + Be16(initiator);
    frame := frame + Terminated(profile);
    if |channels| >= 0x1_0000 {
      return None;
    }
    frame := frame + Be16(|channels|);
    assert frame == RequestHead(Request(acceptor, initiator, profile, channels));
    ghost var head := frame;
    frame := AppendColumn(frame, channels, SESSION_FIELD);
    frame := AppendColumn(frame, channels, CHANNEL_FIELD);
    frame := AppendColumn(frame, channels, QOS_FIELD);
    frame := AppendColumn(frame, channels, PAYLOAD_FIELD);
    r := Some(frame);
    JoinFour(head, Column(channels, SESSION_FIELD), Column(channels, CHANNEL_FIELD),
             Column(channels, QOS_FIELD), Column(channels, PAYLOAD_FIELD));
  }

  lemma JoinFour(h: bytes, a: bytes, b: bytes, c: bytes, d: bytes)
    ensures h + a + b + c + d == h + (a + (b + (c + d)))
  {
  }

  /** One of the four loops over the channels. */
  method AppendColumn(start: bytes, channels: seq<Channel>, field: Channel -> bytes) returns (frame: bytes)
    ensures frame == start + Column(channels, field)
  {
    frame := start;
    for i := 0 to |channels|
      invariant frame == start + Column(channels[..i], field)
    {
      assert channels[..i + 1][..i] == channels[..i];
      frame := frame + field(channels[i]);
    }
    assert channels[..|channels|] == channels;
  }

  /** The inverse of the column layout: channel `i` takes its octets from position `i` of each group. */
  function ChannelAt(msg: bytes, base: nat, n: nat, i: nat): Channel
    requires i < n && base + 8 * n <= |msg|
  {
    Channel(U16At(msg, base + 2 * i), U16At(msg, base + 2 * n + 2 * i),
            msg[base + 4 * n + 3 * i], msg[base + 4 * n + 3 * i + 1], msg[base + 4 * n + 3 * i + 2],
            msg[base + 7 * n + i])
  }

  function ChannelsAt(msg: bytes, base: nat, n: nat): (r: seq<Channel>)
    requires base + 8 * n <= |msg|
    ensures |r| == n && forall i :: 0 <= i < n ==> r[i] == ChannelAt(msg, base, n, i)
  {
    seq(n, i requires 0 <= i < n => ChannelAt(msg, base, n, i))
  }

  function DecodeRequest(msg: bytes): Option<Request> {
    if |msg| < 5 || msg[0] != MSG_SERVICE_CONNECTION_REQUEST then None
    else
      var end := Find(msg, 5);
      if end.None? || end.value + 3 > |msg| then None
      else
        var n, base := U16At(msg, end.value + 1), end.value + 3;
        if |msg| < base + 8 * n then None
        else Some(Request(U16At(msg, 1), U16At(msg, 3), msg[5..end.value], ChannelsAt(msg, base, n)))
  }

  lemma {:induction false} ColumnSize(channels: seq<Channel>, field: Channel -> bytes, width: nat)
    requires forall c :: |field(c)| == width
    ensures |Column(channels, field)| == width * |channels|
  {
    if channels != [] {
      ColumnSize(channels[..|channels| - 1], field, width);
      OneMore(width, |channels|);
    }
  }

  lemma OneMore(width: nat, n: nat)
    requires n > 0
    ensures width * (n - 1) + width == width * n
  {
  }

  lemma {:induction false} ColumnAt(msg: bytes, at: nat, channels: seq<Channel>, field: Channel -> bytes, width: nat, i: nat)
    requires forall c :: |field(c)| == width
    requires At(msg, at, Column(channels, field)) && i < |channels|
    ensures At(msg, at + width * i, field(channels[i]))
    decreases |channels|
  {
    hide At;
    var n := |channels| - 1;
    AtSplit(msg, at, Column(channels[..n], field), field(channels[n]));
    ColumnSize(channels[..n], field, width);
    if i < n {
      ColumnAt(msg, at, channels[..n], field, width, i);
    }
  }

  lemma ColumnsSize(channels: seq<Channel>)
    ensures |Column(channels, SESSION_FIELD)| == 2 * |channels| && |Column(channels, CHANNEL_FIELD)| == 2 * |channels|
    ensures |Column(channels, QOS_FIELD)| == 3 * |channels| && |Column(channels, PAYLOAD_FIELD)| == |channels|
  {
  }

  lemma ColumnsAt(msg: bytes, base: nat, channels: seq<Channel>)
    requires At(msg, base, Columns(channels))
    ensures var n := |channels|;
      At(msg, base, Column(channels, SESSION_FIELD)) && At(msg, base + 2 * n, Column(channels, CHANNEL_FIELD))
      && At(msg, base + 4 * n, Column(channels, QOS_FIELD)) && At(msg, base + 7 * n, Column(channels, PAYLOAD_FIELD))
  {
    hide Column, At, SESSION_FIELD, CHANNEL_FIELD, QOS_FIELD, PAYLOAD_FIELD;
    var n := |channels|;
    var sessions, ids := Column(channels, SESSION_FIELD), Column(channels, CHANNEL_FIELD);
    var qos, types := Column(channels, QOS_FIELD), Column(channels, PAYLOAD_FIELD);
    ColumnsSize(channels);
    var last := qos + types;
    var rest := ids + last;
    AtSplit(msg, base, sessions, rest);
    AtSplit(msg, base + 2 * n, ids, last);
    AtSplit(msg, base + 4 * n, qos, types);
  }

  lemma QosAt(msg: bytes, at: nat, c: Channel)
    requires At(msg, at, [c.qosClass, c.qosRate, c.qosPriority])
    ensures at + 3 <= |msg| && msg[at] == c.qosClass && msg[at + 1] == c.qosRate && msg[at + 2] == c.qosPriority
  {
  }

  lemma ChannelRecovered(msg: bytes, base: nat, channels: seq<Channel>, i: nat)
    requires At(msg, base, Columns(channels)) && i < |channels|
    requires base + 8 * |channels| <= |msg|
    ensures ChannelAt(msg, base, |channels|, i) == channels[i]
  {
    hide Column, Columns, At, U16At;
    var n, c := |channels|, channels[i];
    ColumnsAt(msg, base, channels);
    ColumnAt(msg, base, channels, SESSION_FIELD, 2, i);
    ColumnAt(msg, base + 2 * n, channels, CHANNEL_FIELD, 2, i);
    ColumnAt(msg, base + 4 * n, channels, QOS_FIELD, 3, i);
    ColumnAt(msg, base + 7 * n, channels, PAYLOAD_FIELD, 1, i);
    AtU16(msg, base + 2 * i, c.session);
    AtU16(msg, base + 2 * n + 2 * i, c.channel);
    QosAt(msg, base + 4 * n + 3 * i, c);
    AtByte(msg, base + 7 * n + i, c.payloadType);
  }

  lemma ColumnsLength(channels: seq<Channel>)
    ensures |Columns(channels)| == 8 * |channels|
  {
    hide Column;
    ColumnsSize(channels);
  }

  // ---------- Which requests share their octets ----------

  /** A `;` at `at` may end the profile: the count behind it accounts for exactly the octets that follow. */
  predicate EndsProfile(msg: bytes, at: nat) {
    5 <= at && at + 3 <= |msg| && msg[at] == FIELD_SEPARATOR && at + 3 + 8 * U16At(msg, at + 1) == |msg|
  }

  /** The message as a request whose profile ends at `at`. */
  function ReadingAt(msg: bytes, at: nat): Request
    requires EndsProfile(msg, at)
  {
    Request(U16At(msg, 1), U16At(msg, 3), msg[5..at], ChannelsAt(msg, at + 3, U16At(msg, at + 1)))
  }

  lemma WordIs(msg: bytes, i: nat)
    requires i + 2 <= |msg|
    ensures Be16(U16At(msg, i)) == msg[i..i + 2]
  {
  }

  ghost predicate FieldsAt(msg: bytes, at: nat, channels: seq<Channel>, field: Channel -> bytes, width: nat) {
    forall i: nat :: i < |channels| ==> At(msg, at + width * i, field(channels[i]))
  }

  lemma FieldsLast(msg: bytes, at: nat, channels: seq<Channel>, c: Channel, field: Channel -> bytes, width: nat)
    requires FieldsAt(msg, at, channels + [c], field, width)
    ensures FieldsAt(msg, at, channels, field, width) && At(msg, at + width * |channels|, field(c))
  {
    hide At;
    var all := channels + [c];
    assert all[|channels|] == c;
    forall i: nat | i < |channels|
      ensures At(msg, at + width * i, field(channels[i]))
    {
      assert all[i] == channels[i];
    }
  }

  lemma AtJoins(msg: bytes, from: nat, at: nat, part: bytes)
    requires from <= at && At(msg, at, part)
    ensures msg[from..at] + part == msg[from..at + |part|]
  {
  }

  lemma {:induction false} ColumnIs(msg: bytes, at: nat, channels: seq<Channel>, field: Channel -> bytes, width: nat)
    requires forall c :: |field(c)| == width
    requires at + width * |channels| <= |msg| && FieldsAt(msg, at, channels, field, width)
    ensures Column(channels, field) == msg[at..at + width * |channels|]
    decreases |channels|
  {
    hide At, FieldsAt;
    if channels != [] {
      var n := |channels| - 1;
      assert channels == channels[..n] + [channels[n]];
      OneMore(width, n + 1);
      FieldsLast(msg, at, channels[..n], channels[n], field, width);
      ColumnIs(msg, at, channels[..n], field, width);
      AtJoins(msg, at, at + width * n, field(channels[n]));
    }
  }

  lemma ChannelFieldsAt(msg: bytes, base: nat, n: nat, i: nat)
    requires i < n && base + 8 * n <= |msg|
    ensures var c := ChannelAt(msg, base, n, i);
      At(msg, base + 2 * i, SESSION_FIELD(c)) && At(msg, base + 2 * n + 2 * i, CHANNEL_FIELD(c))
      && At(msg, base + 4 * n + 3 * i, QOS_FIELD(c)) && At(msg, base + 7 * n + i, PAYLOAD_FIELD(c))
  {
    hide U16At, Be16;
    WordIs(msg, base + 2 * i);
    WordIs(msg, base + 2 * n + 2 * i);
  }

  /** The column groups of the channels read from a message are the octets they were read from. */
  lemma ColumnsIs(msg: bytes, base: nat, n: nat)
    requires base + 8 * n == |msg|
    ensures Columns(ChannelsAt(msg, base, n)) == msg[base..]
  {
    hide At, Column, ChannelAt;
    var cs := ChannelsAt(msg, base, n);
    forall i: nat | i < n
      ensures At(msg, base + 2 * i, SESSION_FIELD(cs[i])) && At(msg, base + 2 * n + 2 * i, CHANNEL_FIELD(cs[i]))
      ensures At(msg, base + 4 * n + 3 * i, QOS_FIELD(cs[i])) && At(msg, base + 7 * n + 1 * i, PAYLOAD_FIELD(cs[i]))
    {
      ChannelFieldsAt(msg, base, n, i);
    }
    assert FieldsAt(msg, base, cs, SESSION_FIELD, 2) && FieldsAt(msg, base + 2 * n, cs, CHANNEL_FIELD, 2);
    assert FieldsAt(msg, base + 4 * n, cs, QOS_FIELD, 3) && FieldsAt(msg, base + 7 * n, cs, PAYLOAD_FIELD, 1);
    ColumnIs(msg, base, cs, SESSION_FIELD, 2);
    ColumnIs(msg, base + 2 * n, cs, CHANNEL_FIELD, 2);
    ColumnIs(msg, base + 4 * n, cs, QOS_FIELD, 3);
    ColumnIs(msg, base + 7 * n, cs, PAYLOAD_FIELD, 1);
  }

  lemma HeadIs(msg: bytes, at: nat)
    requires EndsProfile(msg, at) && msg[0] == MSG_SERVICE_CONNECTION_REQUEST
    ensures RequestHead(ReadingAt(msg, at)) == msg[..at + 3]
  {
    hide U16At, Be16, ChannelsAt;
    WordIs(msg, 1);
    WordIs(msg, 3);
    WordIs(msg, at + 1);
  }

  lemma ReadingEncodes(msg: bytes, at: nat)
    requires EndsProfile(msg, at) && msg[0] == MSG_SERVICE_CONNECTION_REQUEST
    ensures EncodeRequest(ReadingAt(msg, at)) == msg && 5 + |ReadingAt(msg, at).profile| == at
  {
    hide U16At, RequestHead, Columns, ChannelsAt;
    HeadIs(msg, at);
    ColumnsIs(msg, at + 3, U16At(msg, at + 1));
    assert msg[..at + 3] + msg[at + 3..] == msg;
  }

  lemma HeadParts(msg: bytes, r: Request)
    requires At(msg, 0, RequestHead(r))
    ensures |msg| >= 8 + |r.profile| && msg[0] == MSG_SERVICE_CONNECTION_REQUEST
    ensures U16At(msg, 1) == r.acceptor && U16At(msg, 3) == r.initiator
    ensures msg[5..5 + |r.profile|] == r.profile && msg[5 + |r.profile|] == FIELD_SEPARATOR
    ensures U16At(msg, 6 + |r.profile|) == |r.channels|
  {
    hide At, U16At;
    var count := Be16(|r.channels|);
    var rest := [FIELD_SEPARATOR] + count;
    var initiator := Be16(r.initiator) + (r.profile + rest);
    assert RequestHead(r) == [MSG_SERVICE_CONNECTION_REQUEST] + (Be16(r.acceptor) + initiator);
    AtSplit(msg, 0, [MSG_SERVICE_CONNECTION_REQUEST], Be16(r.acceptor) + initiator);
    AtSplit(msg, 1, Be16(r.acceptor), initiator);
    AtSplit(msg, 3, Be16(r.initiator), r.profile + rest);
    AtSplit(msg, 5, r.profile, rest);
    AtSplit(msg, 5 + |r.profile|, [FIELD_SEPARATOR], count);
    AtByte(msg, 0, MSG_SERVICE_CONNECTION_REQUEST);
    AtU16(msg, 1, r.acceptor);
    AtU16(msg, 3, r.initiator);
    AtByte(msg, 5 + |r.profile|, FIELD_SEPARATOR);
    AtU16(msg, 6 + |r.profile|, |r.channels|);
    ProfileAt(msg, r.profile);
  }

  lemma ProfileAt(msg: bytes, profile: bytes)
    requires At(msg, 5, profile)
    ensures 5 + |profile| <= |msg| && msg[5..5 + |profile|] == profile
  {
  }

  lemma EncodedReads(r: Request)
    ensures var msg, at := EncodeRequest(r), 5 + |r.profile|;
      EndsProfile(msg, at) && msg[0] == MSG_SERVICE_CONNECTION_REQUEST && ReadingAt(msg, at) == r
  {
    hide Columns, RequestHead, U16At, ChannelAt, At;
    var msg, base, n := EncodeRequest(r), 8 + |r.profile|, |r.channels|;
    ColumnsLength(r.channels);
    assert msg + [] == msg;
    AtWhole(msg, []);
    AtSplit(msg, 0, RequestHead(r), Columns(r.channels));
    HeadParts(msg, r);
    forall i: nat | i < n
      ensures ChannelAt(msg, base, n, i) == r.channels[i]
    {
      ChannelRecovered(msg, base, r.channels, i);
    }
    assert ChannelsAt(msg, base, n) == r.channels;
  }

  /**
   Every octet of a request: type, ids, profile and `;`, number of channels, and then the channels by columns. Words
   have their high octet first.
   */
  lemma RequestOctets(r: Request)
    ensures var m, p, n := EncodeRequest(r), 5 + |r.profile|, |r.channels|;
      var b := p + 3;
      && |m| == b + 8 * n
      && m[0] == 1 && 0x100 * m[1] as int + m[2] == r.acceptor && 0x100 * m[3] as int + m[4] == r.initiator
      && m[5..p] == r.profile && m[p] == 0x3B && 0x100 * m[p + 1] as int + m[p + 2] == n
      && forall i: nat :: i < n ==> ChannelOctets(m, b, n, i, r.channels[i])
  {
    hide Columns, RequestHead, At, ChannelAt;
    var msg, b, n := EncodeRequest(r), 8 + |r.profile|, |r.channels|;
    ColumnsLength(r.channels);
    assert msg + [] == msg;
    AtWhole(msg, []);
    AtSplit(msg, 0, RequestHead(r), Columns(r.channels));
    HeadParts(msg, r);
    forall i: nat | i < n
      ensures ChannelOctets(msg, b, n, i, r.channels[i])
    {
      ChannelRecovered(msg, b, r.channels, i);
      ChannelIs(msg, b, n, i);
    }
  }

  /** Channel `i` of `n` stands in the four column groups from `b` on. */
  predicate ChannelOctets(m: bytes, b: nat, n: nat, i: nat, c: Channel)
    requires i < n && b + 8 * n <= |m|
  {
    && 0x100 * m[b + 2 * i] as int + m[b + 2 * i + 1] == c.session
    && 0x100 * m[b + 2 * n + 2 * i] as int + m[b + 2 * n + 2 * i + 1] == c.channel
    && m[b + 4 * n + 3 * i] == c.qosClass && m[b + 4 * n + 3 * i + 1] == c.qosRate && m[b + 4 * n + 3 * i + 2] == c.qosPriority
    && m[b + 7 * n + i] == c.payloadType
  }

  lemma ChannelIs(m: bytes, b: nat, n: nat, i: nat)
    requires i < n && b + 8 * n <= |m|
    ensures ChannelOctets(m, b, n, i, ChannelAt(m, b, n, i))
  {
  }

  lemma FirstEnds(r: Request)
    requires FIELD_SEPARATOR !in r.profile
    ensures Find(EncodeRequest(r), 5) == Some(5 + |r.profile|)
  {
    hide Columns, RequestHead, U16At, ChannelsAt, Find;
    var msg, at := EncodeRequest(r), 5 + |r.profile|;
    EncodedReads(r);
    assert msg[5..at] == ReadingAt(msg, at).profile;
    FindIs(msg, 5, at);
  }

  lemma ProfileReadIsClean(msg: bytes)
    ensures DecodeRequest(msg).Some? ==> FIELD_SEPARATOR !in DecodeRequest(msg).value.profile
  {
    hide ChannelsAt;
    if |msg| >= 5 && Find(msg, 5).Some? {
      FindIs(msg, 5, Find(msg, 5).value);
    }
  }

  /** A request is recoverable from its octets, field by field, exactly when its profile holds no `;`. */
  lemma RequestRoundTrip(r: Request)
    ensures DecodeRequest(EncodeRequest(r)) == Some(r) <==> FIELD_SEPARATOR !in r.profile
    ensures |EncodeRequest(r)| == 8 + |r.profile| + 8 * |r.channels|
  {
    hide Columns, RequestHead, U16At, Find, ChannelsAt;
    ColumnsLength(r.channels);
    ProfileReadIsClean(EncodeRequest(r));
    if FIELD_SEPARATOR !in r.profile {
      FirstEnds(r);
      EncodedReads(r);
    }
  }

  /** The requests with given octets are the readings of these octets, one for each `;` that may end the profile. */
  lemma ReadingsExactly(msg: bytes, r: Request)
    ensures EncodeRequest(r) == msg
       <==> var at := 5 + |r.profile|;
            EndsProfile(msg, at) && msg[0] == MSG_SERVICE_CONNECTION_REQUEST && r == ReadingAt(msg, at)
  {
    hide EncodeRequest, ReadingAt, U16At;
    EncodedReads(r);
    var at := 5 + |r.profile|;
    if EndsProfile(msg, at) && msg[0] == MSG_SERVICE_CONNECTION_REQUEST {
      ReadingEncodes(msg, at);
    }
  }

  /** So a request shares its octets with another one exactly if a `;` elsewhere in them may end the profile. */
  lemma SharedExactly(r: Request)
    ensures var msg := EncodeRequest(r);
      (exists other: Request :: other != r && EncodeRequest(other) == msg)
      <==> exists at: nat :: at != 5 + |r.profile| && EndsProfile(msg, at)
  {
    hide EncodeRequest, ReadingAt, EndsProfile;
    var msg := EncodeRequest(r);
    EncodedReads(r);
    if other: Request :| other != r && EncodeRequest(other) == msg {
      EncodedReads(other);
      assert 5 + |other.profile| != 5 + |r.profile|;
    }
    if at: nat :| at != 5 + |r.profile| && EndsProfile(msg, at) {
      ReadingEncodes(msg, at);
      assert ReadingAt(msg, at) != r;
    }
  }

  /** In particular never with one whose profile is, like its own, without `;`. */
  lemma RequestInjective(a: Request, b: Request)
    requires FIELD_SEPARATOR !in a.profile && FIELD_SEPARATOR !in b.profile
    requires EncodeRequest(a) == EncodeRequest(b)
    ensures a == b
  {
    RequestRoundTrip(a);
    RequestRoundTrip(b);
  }

  lemma OneColumn(c: Channel, field: Channel -> bytes)
    ensures Column([c], field) == field(c)
  {
    assert [c][..0] == [] && [] + field(c) == field(c);
  }

  lemma ColumnsOfOne(c: Channel)
    ensures Columns([c]) == Be16(c.session) + (Be16(c.channel) + ([c.qosClass, c.qosRate, c.qosPriority] + [c.payloadType]))
  {
    hide Column, Be16;
    OneColumn(c, SESSION_FIELD);
    OneColumn(c, CHANNEL_FIELD);
    OneColumn(c, QOS_FIELD);
    OneColumn(c, PAYLOAD_FIELD);
  }

  /** With a `;` in a profile two requests can share their octets: here one without channels and one with one. */
  lemma SeparatorsCollide() returns (a: Request, b: Request)
    ensures a != b && EncodeRequest(a) == EncodeRequest(b)
  {
    hide Columns;
    var c := Channel(0, 0, 0, FIELD_SEPARATOR, 0, 0);
    a := Request(0, 0, [FIELD_SEPARATOR, 0, 1, 0, 0, 0, 0, 0], []);
    b := Request(0, 0, [], [c]);
    ColumnsLength([]);
    ColumnsOfOne(c);
    assert RequestHead(b) == [MSG_SERVICE_CONNECTION_REQUEST, 0, 0, 0, 0, FIELD_SEPARATOR, 0, 1];
    assert RequestHead(a) == RequestHead(b) + Columns([c]);
  }

  // ---------- Response ----------

  /** What the octets after the type give: nothing yet, the grant, or the IndexError of a message that ends at `;`. */
  datatype Answer = NoAnswer | Answer(ok: bool, sessions: seq<u16>) | IndexError

  /** Entries of a session list, as many as are there in full. */
  function SessionsFrom(msg: bytes, offset: nat, n: nat): seq<u16>
    decreases n
  {
    if n == 0 || offset + 2 > |msg| then [] else [U16At(msg, offset)] + SessionsFrom(msg, offset + 2, n - 1)
  }

  function ParseAnswer(msg: bytes): Answer {
    match Find(msg, 5)
    case None => NoAnswer
    case Some(end) =>
      if end + 1 >= |msg| then IndexError
      else Answer(msg[end + 1] == 0, SessionsFrom(msg, end + 4, if end + 4 <= |msg| then U16At(msg, end + 2) else 0))
  }

  lemma SessionsStep(msg: bytes, offset: nat, n: nat, sofar: seq<u16>)
    requires n > 0
    ensures sofar + SessionsFrom(msg, offset, n)
         == if offset + 2 <= |msg| then (sofar + [U16At(msg, offset)]) + SessionsFrom(msg, offset + 2, n - 1)
            else sofar + SessionsFrom(msg, offset, n - 1)
  {
  }

  method ReadAnswer(msg: bytes) returns (r: Answer)
    ensures r == ParseAnswer(msg)
  {
    hide Find, U16At, SessionsFrom;
    var semicolon := Find(msg, 5);
    if semicolon.None? {
      return NoAnswer;
    }
    if semicolon.value + 1 >= |msg| {
      return IndexError;
    }
    var status := msg[semicolon.value + 1];
    var count: nat := if semicolon.value + 4 <= |msg| then U16At(msg, semicolon.value + 2) else 0;
    var sessions: seq<u16> := [];
    var offset: nat := semicolon.value + 4;
    ghost var all := SessionsFrom(msg, offset, count);
    for i := 0 to count
      invariant all == sessions + SessionsFrom(msg, offset, count - i)
    {
      SessionsStep(msg, offset, count - i, sessions);
      if offset + 2 <= |msg| {
        sessions := sessions + [U16At(msg, offset)];
        offset := offset + 2;
      }
    }
    NoSessions(msg, offset);
    r := Answer(status == 0, sessions);
  }

  lemma {:induction false} SessionsAre(msg: bytes, offset: nat, n: nat)
    ensures var room := if offset <= |msg| then (|msg| - offset) / 2 else 0;
      |SessionsFrom(msg, offset, n)| == if n <= room then n else room
    ensures forall i :: 0 <= i < |SessionsFrom(msg, offset, n)| ==>
      offset + 2 * i + 2 <= |msg| && SessionsFrom(msg, offset, n)[i] == 0x100 * msg[offset + 2 * i] as int + msg[offset + 2 * i + 1]
    decreases n
  {
    if n > 0 && offset + 2 <= |msg| {
      SessionsAre(msg, offset + 2, n - 1);
    }
  }

  /**
   Every octet of a response that counts: nothing without a `;` at 5 or later; the IndexError if the first such `;` ends
   the message; otherwise the status behind it, the number of sessions if it is there, and as many session words as
   both that number and the message allow.
   */
  lemma AnswerOctets(msg: bytes)
    ensures ParseAnswer(msg) == NoAnswer <==> forall i :: 5 <= i < |msg| ==> msg[i] != 0x3B
    ensures forall e :: 5 <= e < |msg| && msg[e] == 0x3B && (forall i :: 5 <= i < e ==> msg[i] != 0x3B) ==> AnswerAt(msg, e)
  {
    hide SessionsFrom;
    if |msg| >= 5 {
      FindNone(msg, 5);
      assert (forall i :: 5 <= i < |msg| ==> msg[i] != 0x3B) <==> FIELD_SEPARATOR !in msg[5..] by {
        assert forall i :: 5 <= i < |msg| ==> msg[5..][i - 5] == msg[i];
      }
    }
    forall e | 5 <= e < |msg| && msg[e] == 0x3B && (forall i :: 5 <= i < e ==> msg[i] != 0x3B)
      ensures AnswerAt(msg, e)
    {
      FindIs(msg, 5, e);
      AnswerIsAt(msg, e);
    }
  }

  ghost predicate AnswerAt(msg: bytes, e: nat)
    requires e < |msg|
  {
    if e + 1 == |msg| then ParseAnswer(msg) == IndexError
    else
      var count: nat := if e + 4 <= |msg| then 0x100 * msg[e + 2] as int + msg[e + 3] else 0;
      var room: nat := if e + 4 <= |msg| then (|msg| - e - 4) / 2 else 0;
      && ParseAnswer(msg).Answer? && (ParseAnswer(msg).ok <==> msg[e + 1] == 0)
      && |ParseAnswer(msg).sessions| == (if count <= room then count else room)
      && forall i :: 0 <= i < |ParseAnswer(msg).sessions| ==>
        e + 6 + 2 * i <= |msg| && ParseAnswer(msg).sessions[i] == 0x100 * msg[e + 4 + 2 * i] as int + msg[e + 5 + 2 * i]
  }

  lemma AnswerIsAt(msg: bytes, e: nat)
    requires Find(msg, 5) == Some(e) && e < |msg|
    ensures AnswerAt(msg, e)
  {
    hide SessionsFrom, Find;
    var count: nat := if e + 4 <= |msg| then U16At(msg, e + 2) else 0;
    SessionsAre(msg, e + 4, count);
  }

  datatype ResponseData = Response(acceptor: u16, initiator: u16, profile: Name, status: byte, sessions: seq<u16>)

  type Response = r: ResponseData | |r.sessions| < 0x1_0000 witness Response(0, 0, [], 0, [])

  function Words(ws: seq<u16>): (b: bytes)
    ensures |b| == 2 * |ws|
  {
    if ws == [] then [] else Be16(ws[0]) + Words(ws[1..])
  }

  /** The wire format of the protocol notes. */
  function EncodeResponse(r: Response): (b: bytes)
    ensures |b| == 9 + |r.profile| + 2 * |r.sessions|
  {
    [MSG_SERVICE_CONNECTION_RESPONSE] + (Be16(r.acceptor) + (Be16(r.initiator) + (Terminated(r.profile)
    + ([r.status] + (Be16(|r.sessions|) + Words(r.sessions))))))
  }

  /** What the first `size` octets of a stream that starts with `r` tell. */
  function Told(r: Response, size: nat): Answer {
    var end := 5 + |r.profile|;
    if size <= end then NoAnswer
    else if size == end + 1 then IndexError
    else
      var whole := if size < end + 4 then 0 else (size - end - 4) / 2;
      Answer(r.status == 0, r.sessions[..if whole < |r.sessions| then whole else |r.sessions|])
  }

  lemma {:induction false} SessionsTold(msg: bytes, full: bytes, at: nat, ws: seq<u16>)
    requires msg <= full && At(full, at, Words(ws)) && at <= |msg|
    ensures var whole := (|msg| - at) / 2;
      SessionsFrom(msg, at, |ws|) == ws[..if whole < |ws| then whole else |ws|]
    decreases |ws|
  {
    hide At, U16At;
    if ws != [] && at + 2 <= |msg| {
      AtSplit(full, at, Be16(ws[0]), Words(ws[1..]));
      AtU16(full, at, ws[0]);
      assert U16At(msg, at) == U16At(full, at) by { SameWord(msg, full, at); }
      SessionsTold(msg, full, at + 2, ws[1..]);
      var rest := (|msg| - at - 2) / 2;
      assert rest + 1 == (|msg| - at) / 2;
      var n := if rest < |ws| - 1 then rest else |ws| - 1;
      assert [ws[0]] + ws[1..][..n] == ws[..n + 1];
    }
  }

  lemma SameWord(msg: bytes, full: bytes, at: nat)
    requires msg <= full && at + 2 <= |msg|
    ensures U16At(msg, at) == U16At(full, at)
  {
  }

  lemma ResponseAt(full: bytes, r: Response)
    requires At(full, 0, EncodeResponse(r))
    ensures var end := 5 + |r.profile|;
      |full| >= end + 4 && full[5..end] == r.profile && full[end] == FIELD_SEPARATOR && full[end + 1] == r.status
      && U16At(full, end + 2) == |r.sessions| && At(full, end + 4, Words(r.sessions))
  {
    hide At, U16At, Find, Words;
    var end := 5 + |r.profile|;
    var count := Be16(|r.sessions|) + Words(r.sessions);
    var status := [r.status] + count;
    var initiator := Be16(r.initiator) + (Terminated(r.profile) + status);
    AtSplit(full, 0, [MSG_SERVICE_CONNECTION_RESPONSE], Be16(r.acceptor) + initiator);
    AtSplit(full, 1, Be16(r.acceptor), initiator);
    AtSplit(full, 3, Be16(r.initiator), Terminated(r.profile) + status);
    AtSplit(full, 5, Terminated(r.profile), status);
    AtSplit(full, end + 1, [r.status], count);
    AtSplit(full, end + 2, Be16(|r.sessions|), Words(r.sessions));
    AtName(full, 5, r.profile);
    AtSplit(full, 5, r.profile, [FIELD_SEPARATOR]);
    AtByte(full, end, FIELD_SEPARATOR);
    AtByte(full, end + 1, r.status);
    AtU16(full, end + 2, |r.sessions|);
  }

  /** However much of a response arrives, and whatever follows it, exactly its complete leading entries are told. */
  lemma ResponseTold(msg: bytes, full: bytes, r: Response)
    requires msg <= full && At(full, 0, EncodeResponse(r))
    ensures ParseAnswer(msg) == Told(r, |msg|)
  {
    hide At, U16At, EncodeResponse, Words, SessionsFrom;
    var end := 5 + |r.profile|;
    ResponseAt(full, r);
    if |msg| > end {
      assert msg[5..end] == r.profile && msg[end] == FIELD_SEPARATOR;
      FindIs(msg, 5, end);
      if |msg| >= end + 4 {
        SameWord(msg, full, end + 2);
        SessionsTold(msg, full, end + 4, r.sessions);
      } else {
        assert SessionsFrom(msg, end + 4, 0) == [] by { NoSessions(msg, end + 4); }
      }
    } else if |msg| >= 5 {
      assert msg[5..] == r.profile[..|msg| - 5];
      FindNone(msg, 5);
    }
  }

  lemma NoSessions(msg: bytes, offset: nat)
    ensures SessionsFrom(msg, offset, 0) == []
  {
  }

  /** In particular a whole response. */
  lemma ResponseRoundTrip(r: Response, after: bytes)
    ensures ParseAnswer(EncodeResponse(r) + after) == Answer(r.status == 0, r.sessions)
  {
    hide At, ParseAnswer;
    var full := EncodeResponse(r) + after;
    AtWhole(EncodeResponse(r), after);
    ResponseTold(full, full, r);
    assert r.sessions[..|r.sessions|] == r.sessions;
  }
}
