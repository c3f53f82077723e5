/** Demultiplexing the camera's TTTS live stream into video frames. */
module Ttts {
  import opened Bytes
  import opened Link

  const HEADER_TAG: bytes := [0x54, 0x54, 0x54, 0x53]  // "TTTS"
  const VIDEO_TAG: bytes := [0x30, 0x30, 0x56, 0x44]   // "00VD"
  const AUDIO_TAG: bytes := [0x30, 0x30, 0x41, 0x55]   // "00AU"

  // ---------- The source ----------

  /**
   The octets to come and what then happens: the end of the stream, an OSError from then on, or one TimeoutError and
   then `next`.
   */
  datatype Stream = Closed(input: bytes) | Failing(input: bytes) | Stalling(input: bytes, next: Stream)

  function Size(s: Stream): nat {
    |s.input| + if s.Stalling? then 1 + Size(s.next) else 0
  }

  /** What is left after a read that wanted more than there is. */
  function Beyond(s: Stream): Stream {
    match s case Closed(_) => Closed([]) case Failing(_) => Failing([]) case Stalling(_, next) => next
  }

  /** Exactly `n` octets, or none at the end of the stream or on a time-out, or the OSError. */
  function FetchFrom(s: Stream, n: nat): (r: (Fetched, Stream))
    ensures Size(r.1) <= Size(s)
    ensures r.0.Whole? ==> |r.0.data| == n && Size(r.1) + n == Size(s)
  {
    if n <= |s.input| then (Whole(s.input[..n]), s.(input := s.input[n..]))
    else (if s.Failing? then Broken else Ended, Beyond(s))
  }

  datatype ReadResult = Data(data: bytes) | TimedOut | Raised

  function AtEnd(s: Stream): ReadResult {
    match s case Closed(_) => Data([]) case Failing(_) => Raised case Stalling(_, _) => TimedOut
  }

  /** The HTTP response that is read. */
  class Response {
    var stream: Stream
    /** How many octets each coming read hands over at most. */
    var plan: seq<nat>

    constructor (stream: Stream, plan: seq<nat>)
      ensures this.stream == stream && this.plan == plan
    {
      this.stream, this.plan := stream, plan;
    }

    method Read(n: nat) returns (r: ReadResult)
      requires n > 0
      modifies this
      ensures old(stream.input) == [] ==> stream == Beyond(old(stream)) && r == AtEnd(old(stream))
      ensures old(stream.input) != [] ==>
        r.Data? && 0 < |r.data| <= n && r.data <= old(stream.input)
        && stream == old(stream).(input := old(stream.input)[|r.data|..])
    {
      if stream.input == [] {
        r := AtEnd(stream);
        stream := Beyond(stream);
        return;
      }
      var k := if n < |stream.input| then n else |stream.input|;
      if plan != [] {
        k := if 0 < plan[0] < k then plan[0] else k;
        plan := plan[1..];
      }
      r := Data(stream.input[..k]);
      stream := stream.(input := stream.input[k..]);
    }

    /** `read_exact_bytes`: a time-out counts as the end of the stream. */
    method ReadExactBytes(size: nat) returns (r: Fetched)
      modifies this
      ensures (r, stream) == FetchFrom(old(stream), size)
    {
      var data: bytes := [];
      ghost var input := stream.input;
      while |data| < size
        invariant |data| <= size && |data| <= |input| && data == input[..|data|]
        invariant stream == old(stream).(input := input[|data|..])
        decreases size - |data|
      {
        var chunk := Read(size - |data|);
        if !chunk.Data? {
          return if chunk.TimedOut? then Ended else Broken;
        }
        if chunk.data == [] {
          return Ended;
        }
        ghost var more := data + chunk.data;
        assert more == input[..|more|];
        assert input[|data|..][|chunk.data|..] == input[|more|..];
        data := data + chunk.data;
      }
      r := Whole(data);
    }
  }

  // ---------- The demuxing loop ----------

  /** One turn of the loop: it returns, or raises, or consumes an item, with its payload if that is to be yielded. */
  datatype Turn = Stop | Raise | Next(frame: Option<bytes>, rest: Stream)

  function ReadTurn(s: Stream): (t: Turn)
    ensures t.Next? ==> Size(t.rest) < Size(s)
  {
    var (tag, rest) := FetchFrom(s, 4);
    match tag
    case Ended => Stop
    case Broken => Raise
    case Whole(data) =>
      if data == HEADER_TAG then Skip(rest)
      else if data != VIDEO_TAG && data != AUDIO_TAG then Stop
      else ReadChunk(data == VIDEO_TAG, rest)
  }

  /** A repeated header is skipped, whether it was there in full or not. */
  function Skip(s: Stream): (t: Turn)
    ensures t.Next? ==> Size(t.rest) <= Size(s)
  {
    var (skipped, rest) := FetchFrom(s, 200);
    if skipped.Broken? then Raise else Next(None, rest)
  }

  /** The time stamp is skipped, too, and the size looked at only after that. */
  function ReadChunk(video: bool, s: Stream): (t: Turn)
    ensures t.Next? ==> Size(t.rest) <= Size(s)
  {
    var (size, afterSize) := FetchFrom(s, 4);
    if size.Broken? then Raise
    else
      var (timestamp, body) := FetchFrom(afterSize, 8);
      if timestamp.Broken? then Raise
      else if size.Ended? then Stop
      else ReadBody(video, U32At(size.data, 0), body)
  }

  function ReadBody(video: bool, size: nat, s: Stream): (t: Turn)
    ensures t.Next? ==> Size(t.rest) <= Size(s)
  {
    var (data, rest) := FetchFrom(s, size);
    match data
    case Ended => Stop
    case Broken => Raise
    case Whole(payload) => Next(if video then Some(payload) else None, rest)
  }

  /** All that the generator yields, and whether it then raises. */
  datatype Yielded = Yielded(frames: seq<bytes>, raised: bool)

  function Frames(f: Option<bytes>): seq<bytes> {
    match f case Some(frame) => [frame] case None => []
  }

  function Behind(frames: seq<bytes>, y: Yielded): Yielded {
    Yielded(frames + y.frames, y.raised)
  }

  function Demux(s: Stream): Yielded
    decreases Size(s)
  {
    match ReadTurn(s)
    case Stop => Yielded([], false)
    case Raise => Yielded([], true)
    case Next(frame, rest) => Behind(Frames(frame), Demux(rest))
  }

  /** One turn on a live source. */
  method ReadItem(source: Response) returns (t: Turn)
    modifies source
    ensures t == ReadTurn(old(source.stream)) && (t.Next? ==> source.stream == t.rest)
  {
    hide FetchFrom, U32At;
    var tag := source.ReadExactBytes(4);
    if !tag.Whole? {
      return if tag.Broken? then Raise else Stop;
    }
    if tag.data == HEADER_TAG {
      var skipped := source.ReadExactBytes(200);
      return if skipped.Broken? then Raise else Next(None, source.stream);
    }
    if tag.data != VIDEO_TAG && tag.data != AUDIO_TAG {
      return Stop;
    }
    var size := source.ReadExactBytes(4);
    if size.Broken? {
      return Raise;
    }
    var timestamp := source.ReadExactBytes(8);
    if timestamp.Broken? {
      return Raise;
    }
    if size.Ended? {
      return Stop;
    }
    var data := source.ReadExactBytes(U32At(size.data, 0));
    if !data.Whole? {
      return if data.Broken? then Raise else Stop;
    }
    t := Next(if tag.data == VIDEO_TAG then Some(data.data) else None, source.stream);
  }

  /** `iter_video_frames`: what it yields depends on the stream alone, never on the schedule of short reads. */
  method IterVideoFrames(source: Response) returns (frames: seq<bytes>, raised: bool)
    modifies source
    ensures Yielded(frames, raised) == Demux(old(source.stream))
  {
    hide ReadTurn;
    frames, raised := [], false;
    ghost var all := Demux(source.stream);
    while true
      invariant Behind(frames, Demux(source.stream)) == all
      decreases Size(source.stream)
    {
      var turn := ReadItem(source);
      if !turn.Next? {
        raised := turn.Raise?;
        return;
      }
      BehindTwo(frames, Frames(turn.frame), Demux(turn.rest));
      if turn.frame.Some? {
        frames := frames + [turn.frame.value];
      } else {
        assert frames + [] == frames;
      }
    }
  }

  lemma BehindTwo(a: seq<bytes>, b: seq<bytes>, y: Yielded)
    ensures Behind(a, Behind(b, y)) == Behind(a + b, y)
  {
  }

  // ---------- Streams as the camera sends them ----------

  datatype ItemData = Header(info: bytes) | Chunk(video: bool, timestamp: bytes, payload: bytes)

  /** A repeated header, or a video or audio chunk. */
  type Item = i: ItemData |
    (i.Header? ==> |i.info| == 200) && (i.Chunk? ==> |i.timestamp| == 8 && |i.payload| < 0x1_0000_0000)
    witness Chunk(true, [0, 0, 0, 0, 0, 0, 0, 0], [])

  function Encode(i: Item): bytes {
    match i
    case Header(info) => HEADER_TAG + info
    case Chunk(video, timestamp, payload) => (if video then VIDEO_TAG else AUDIO_TAG) + (Be32(|payload|) + (timestamp + payload))
  }

  function EncodeAll(items: seq<Item>): bytes {
    if items == [] then [] else Encode(items[0]) + EncodeAll(items[1..])
  }

  function VideoOf(i: Item): seq<bytes> {
    if i.Chunk? && i.video then [i.payload] else []
  }

  function Videos(items: seq<Item>): seq<bytes> {
    if items == [] then [] else VideoOf(items[0]) + Videos(items[1..])
  }

  lemma FetchedFront(s: Stream, front: bytes)
    ensures FetchFrom(s.(input := front + s.input), |front|) == (Whole(front), s)
  {
    assert (front + s.input)[|front|..] == s.input;
  }

  lemma TurnOfHeader(info: bytes, s: Stream)
    requires |info| == 200
    ensures ReadTurn(s.(input := HEADER_TAG + info + s.input)) == Next(None, s)
  {
    hide FetchFrom;
    var whole := HEADER_TAG + info + s.input;
    var rest := s.(input := info + s.input);
    assert whole == HEADER_TAG + rest.input;
    FetchedFront(rest, HEADER_TAG);
    FetchedFront(s, info);
  }

  lemma TurnOfChunk(video: bool, timestamp: bytes, payload: bytes, s: Stream)
    requires |timestamp| == 8 && |payload| < 0x1_0000_0000
    ensures ReadTurn(s.(input := (if video then VIDEO_TAG else AUDIO_TAG) + (Be32(|payload|) + (timestamp + payload)) + s.input))
         == Next(if video then Some(payload) else None, s)
  {
    hide FetchFrom, U32At, Be32;
    var tag, size := if video then VIDEO_TAG else AUDIO_TAG, Be32(|payload|);
    var s3 := s.(input := payload + s.input);
    var s2 := s.(input := timestamp + s3.input);
    var s1 := s.(input := size + s2.input);
    assert tag + (size + (timestamp + payload)) + s.input == tag + s1.input;
    FetchedFront(s1, tag);
    FetchedFront(s2, size);
    FetchedFront(s3, timestamp);
    FetchedFront(s, payload);
    assert [] + size + [] == size;
    Be32At([], |payload|, []);
  }

  lemma DemuxItem(i: Item, s: Stream)
    ensures Demux(s.(input := Encode(i) + s.input)) == Behind(VideoOf(i), Demux(s))
  {
    hide ReadTurn, Be32;
    match i
    case Header(info) => TurnOfHeader(info, s);
    case Chunk(video, timestamp, payload) => TurnOfChunk(video, timestamp, payload, s);
  }

  /** Exactly the video payloads come out, in order, whatever else is interleaved and whatever follows. */
  lemma {:induction false} DemuxAll(items: seq<Item>, s: Stream)
    ensures Demux(s.(input := EncodeAll(items) + s.input)) == Behind(Videos(items), Demux(s))
    decreases |items|
  {
    hide Demux, Encode, VideoOf;
    if items == [] {
      assert [] + s.input == s.input;
    } else {
      var rest := s.(input := EncodeAll(items[1..]) + s.input);
      assert EncodeAll(items) + s.input == Encode(items[0]) + rest.input;
      DemuxItem(items[0], rest);
      DemuxAll(items[1..], s);
      BehindTwo(VideoOf(items[0]), Videos(items[1..]), Demux(s));
    }
  }

  /**
   The loop by the octets at its front: "TTTS" and 200 octets are skipped; "00VD", a length with its high octet first,
   eight octets and that many more yield the last; "00AU" the same without yielding; any other four octets end it.
   */
  lemma DemuxOctets(s: Stream, info: bytes, timestamp: bytes, payload: bytes, tag: bytes)
    requires |info| == 200 && |timestamp| == 8 && |payload| < 0x1_0000_0000 && |tag| == 4
    ensures Demux(s.(input := [0x54, 0x54, 0x54, 0x53] + info + s.input)) == Demux(s)
    ensures var n := |payload|;
      var rest := [n / 0x100_0000, n / 0x1_0000 % 0x100, n / 0x100 % 0x100, n % 0x100] + timestamp + payload + s.input;
      && Demux(s.(input := [0x30, 0x30, 0x56, 0x44] + rest)) == Behind([payload], Demux(s))
      && Demux(s.(input := [0x30, 0x30, 0x41, 0x55] + rest)) == Demux(s)
    ensures tag != [0x54, 0x54, 0x54, 0x53] && tag != [0x30, 0x30, 0x56, 0x44] && tag != [0x30, 0x30, 0x41, 0x55] ==>
      Demux(s.(input := tag + s.input)) == Yielded([], false)
  {
    hide ReadTurn, Demux, Be32;
    var n := |payload|;
    var size := [n / 0x100_0000, n / 0x1_0000 % 0x100, n / 0x100 % 0x100, n % 0x100];
    var rest := size + timestamp + payload + s.input;
    SizeWritten(n);
    JoinChunk(VIDEO_TAG, size, timestamp, payload, s.input);
    JoinChunk(AUDIO_TAG, size, timestamp, payload, s.input);
    DemuxItem(Header(info), s);
    DemuxItem(Chunk(true, timestamp, payload), s);
    DemuxItem(Chunk(false, timestamp, payload), s);
    BehindNothing(Demux(s));
    OtherTag(s, tag);
    ByTurn(s.(input := tag + s.input));
  }

  lemma SizeWritten(n: u32)
    ensures Be32(n) == [n / 0x100_0000, n / 0x1_0000 % 0x100, n / 0x100 % 0x100, n % 0x100]
  {
  }

  lemma JoinChunk(tag: bytes, size: bytes, timestamp: bytes, payload: bytes, rest: bytes)
    ensures tag + (size + (timestamp + payload)) + rest == tag + (size + timestamp + payload + rest)
  {
  }

  lemma BehindNothing(y: Yielded)
    ensures Behind([], y) == y
  {
    assert [] + y.frames == y.frames;
  }

  lemma OtherTag(s: Stream, tag: bytes)
    requires |tag| == 4
    ensures tag != [0x54, 0x54, 0x54, 0x53] && tag != [0x30, 0x30, 0x56, 0x44] && tag != [0x30, 0x30, 0x41, 0x55] ==>
      ReadTurn(s.(input := tag + s.input)) == Stop
  {
    hide FetchFrom;
    FetchedFront(s, tag);
  }

  // ---------- Streams that are cut off ----------

  /** `a` is `b` with less input, and fails where `b` may not. */
  ghost predicate Cut(a: Stream, b: Stream) {
    a.input <= b.input && !a.Stalling? && !b.Stalling? && (b.Failing? ==> a.Failing?)
  }

  lemma FetchCut(a: Stream, b: Stream, n: nat)
    requires Cut(a, b)
    ensures Cut(FetchFrom(a, n).1, FetchFrom(b, n).1)
    ensures FetchFrom(a, n).0.Whole? ==> FetchFrom(b, n).0 == FetchFrom(a, n).0
    ensures !FetchFrom(a, n).0.Broken? ==> !FetchFrom(b, n).0.Broken?
  {
  }

  lemma TurnOfCut(a: Stream, b: Stream)
    requires Cut(a, b) && ReadTurn(a).Next?
    ensures ReadTurn(b).Next? && ReadTurn(b).frame == ReadTurn(a).frame && Cut(ReadTurn(a).rest, ReadTurn(b).rest)
  {
    hide FetchFrom, Cut, U32At;
    FetchCut(a, b, 4);
    var (tag, a1) := FetchFrom(a, 4);
    var (_, b1) := FetchFrom(b, 4);
    if tag.data == HEADER_TAG {
      FetchCut(a1, b1, 200);
    } else {
      FetchCut(a1, b1, 4);
      var (size, a2) := FetchFrom(a1, 4);
      var (_, b2) := FetchFrom(b1, 4);
      FetchCut(a2, b2, 8);
      FetchCut(FetchFrom(a2, 8).1, FetchFrom(b2, 8).1, U32At(size.data, 0));
    }
  }

  /** A stream cut off anywhere, by its end or by an OSError, yields a prefix of the frames of the whole stream. */
  lemma {:induction false} CutKeepsPrefix(a: Stream, b: Stream)
    requires Cut(a, b)
    ensures Demux(a).frames <= Demux(b).frames
    decreases Size(a)
  {
    hide ReadTurn, Cut;
    if ReadTurn(a).Next? {
      TurnOfCut(a, b);
      CutKeepsPrefix(ReadTurn(a).rest, ReadTurn(b).rest);
    }
  }

  lemma TurnOfClosed(input: bytes)
    ensures !ReadTurn(Closed(input)).Raise?
    ensures ReadTurn(Closed(input)).Next? ==> ReadTurn(Closed(input)).rest.Closed?
  {
    hide U32At;
  }

  /** The end of a stream raises nothing, wherever it comes. */
  lemma {:induction false} EndNeverRaises(input: bytes)
    ensures !Demux(Closed(input)).raised
    decreases |input|
  {
    hide ReadTurn;
    TurnOfClosed(input);
    var turn := ReadTurn(Closed(input));
    if turn.Next? {
      EndNeverRaises(turn.rest.input);
    }
  }

  // ---------- Streams that stall ----------

  /** How many octets the complete item at the front takes, if there is one. */
  function ItemSize(input: bytes): (n: Option<nat>)
    ensures n.Some? ==> 0 < n.value <= |input|
  {
    if |input| < 4 then None
    else if input[..4] == HEADER_TAG then if |input| >= 204 then Some(204) else None
    else if input[..4] != VIDEO_TAG && input[..4] != AUDIO_TAG then None
    else if |input| >= 16 && |input| >= 16 + U32At(input, 4) as int then Some(16 + U32At(input, 4) as int)
    else None
  }

  /** What the complete item at the front makes the loop yield. */
  function ItemFrame(input: bytes): Option<bytes>
    requires ItemSize(input).Some?
  {
    if input[..4] == VIDEO_TAG then Some(input[16..ItemSize(input).value]) else None
  }

  /** What is left of a stream behind its leading complete items. */
  function Residue(input: bytes): bytes
    decreases |input|
  {
    match ItemSize(input) case None => input case Some(n) => Residue(input[n..])
  }

  /** The octets end inside a repeated header, or between a chunk's tag and its payload. */
  predicate EndsInHead(residue: bytes) {
    |residue| >= 4
    && (residue[..4] == HEADER_TAG || ((residue[..4] == VIDEO_TAG || residue[..4] == AUDIO_TAG) && |residue| < 16))
  }

  /** The last octet has arrived; a read for more times out, and later reads raise, as those of a timed-out socket do. */
  function Stalled(input: bytes): Stream {
    Stalling(input, Failing([]))
  }

  lemma HeaderTurn(s: Stream)
    requires |s.input| >= 204 && s.input[..4] == HEADER_TAG
    ensures ReadTurn(s) == Next(None, s.(input := s.input[204..]))
  {
    assert s.input[4..][200..] == s.input[204..];
  }

  lemma ChunkTurn(s: Stream, size: nat)
    requires |s.input| >= 16 + size && (s.input[..4] == VIDEO_TAG || s.input[..4] == AUDIO_TAG) && size == U32At(s.input, 4)
    ensures ReadTurn(s) == Next(if s.input[..4] == VIDEO_TAG then Some(s.input[16..16 + size]) else None,
                                s.(input := s.input[16 + size..]))
  {
    hide U32At;
    var input := s.input;
    assert U32At(input[4..8], 0) == size by { SameSize(input); }
    assert input[4..][..4] == input[4..8] && input[4..][4..] == input[8..] && input[8..][8..] == input[16..];
    assert input[16..][..size] == input[16..16 + size] && input[16..][size..] == input[16 + size..];
  }

  lemma ItemTurn(s: Stream)
    requires ItemSize(s.input).Some?
    ensures ReadTurn(s) == Next(ItemFrame(s.input), s.(input := s.input[ItemSize(s.input).value..]))
  {
    hide U32At, ReadTurn;
    if s.input[..4] == HEADER_TAG {
      HeaderTurn(s);
    } else {
      ChunkTurn(s, U32At(s.input, 4));
    }
  }

  lemma SameSize(input: bytes)
    requires |input| >= 8
    ensures U32At(input[4..8], 0) == U32At(input, 4)
  {
  }

  lemma NothingMore()
    ensures Demux(Failing([])) == Yielded([], true) && Demux(Closed([])) == Yielded([], false)
  {
  }

  lemma ResidueEnds(input: bytes, next: Stream)
    requires ItemSize(input) == None && !EndsInHead(input)
    ensures Demux(Stalling(input, next)) == Demux(Closed(input))
  {
    hide U32At;
    if |input| >= 16 {
      assert U32At(input[4..8], 0) == U32At(input, 4) by { SameSize(input); }
      assert input[4..][..4] == input[4..8] && input[4..][4..] == input[8..] && input[8..][8..] == input[16..];
    }
  }

  lemma HeaderRaises(input: bytes)
    requires 4 <= |input| < 204 && input[..4] == HEADER_TAG
    ensures Demux(Stalled(input)) == Yielded([], true) && Demux(Closed(input)).frames == []
  {
    hide ReadChunk;
    NothingMore();
  }

  lemma SizeRaises(input: bytes)
    requires 4 <= |input| < 8 && (input[..4] == VIDEO_TAG || input[..4] == AUDIO_TAG)
    ensures Demux(Stalled(input)) == Yielded([], true) && Demux(Closed(input)).frames == []
  {
    hide ReadBody;
  }

  /** A time stamp cut short is skipped, and the payload then looked for in what follows. */
  lemma TimestampTurn(s: Stream)
    requires 8 <= |s.input| < 16 && (s.input[..4] == VIDEO_TAG || s.input[..4] == AUDIO_TAG) && !s.Failing?
    ensures ReadTurn(s) == ReadBody(s.input[..4] == VIDEO_TAG, U32At(s.input, 4), Beyond(s))
  {
    hide U32At, ReadBody, Skip;
    var input := s.input;
    assert U32At(input[4..8], 0) == U32At(input, 4) by { SameSize(input); }
    assert input[4..][..4] == input[4..8] && input[4..][4..] == input[8..];
  }

  lemma TimestampRaises(input: bytes)
    requires 8 <= |input| < 16 && (input[..4] == VIDEO_TAG || input[..4] == AUDIO_TAG)
    ensures Demux(Stalled(input)) == Yielded(Demux(Closed(input)).frames, true)
  {
    hide U32At, ReadTurn;
    NothingMore();
    TimestampTurn(Stalled(input));
    TimestampTurn(Closed(input));
  }

  lemma ResidueRaises(input: bytes)
    requires ItemSize(input) == None && EndsInHead(input)
    ensures Demux(Stalled(input)) == Yielded(Demux(Closed(input)).frames, true)
  {
    hide Demux, U32At;
    if input[..4] == HEADER_TAG {
      HeaderRaises(input);
    } else if |input| < 8 {
      SizeRaises(input);
    } else {
      TimestampRaises(input);
    }
  }

  /** What a stall and an end make of an item that is not complete. */
  lemma ResidueTurn(input: bytes)
    requires ItemSize(input) == None
    ensures Demux(Stalled(input)) == Yielded(Demux(Closed(input)).frames, EndsInHead(input))
  {
    hide Demux, ItemSize, EndsInHead;
    if EndsInHead(input) {
      ResidueRaises(input);
    } else {
      ResidueEnds(input, Failing([]));
      EndNeverRaises(input);
    }
  }

  /**
   A stall on a source whose later reads raise yields the frames that the end of the stream would have yielded. It is
   taken for the end, as it is meant to be, except exactly when it comes inside a header or between a tag and its
   payload: the time-out is ignored there and the next read raises.
   */
  lemma {:induction false} StallExactly(input: bytes)
    ensures Demux(Stalled(input)) == Yielded(Demux(Closed(input)).frames, EndsInHead(Residue(input)))
    decreases |input|
  {
    hide ReadTurn, ItemSize, ItemFrame, EndsInHead;
    match ItemSize(input)
    case None => ResidueTurn(input);
    case Some(n) =>
      ItemTurn(Stalled(input));
      ItemTurn(Closed(input));
      StallExactly(input[n..]);
  }

  lemma BehindInjective(f: seq<bytes>, y: Yielded, z: Yielded)
    ensures Behind(f, y) == Behind(f, z) <==> y == z
  {
    if Behind(f, y) == Behind(f, z) {
      assert y.frames == (f + y.frames)[|f|..] == (f + z.frames)[|f|..] == z.frames;
    }
  }

  /** Whether a stall is taken for the end is decided behind the complete items, whatever follows it. */
  lemma {:induction false} OnlyTheResidue(input: bytes, next: Stream)
    ensures ItemSize(Residue(input)) == None
    ensures Demux(Stalling(input, next)) == Demux(Closed(input))
       <==> Demux(Stalling(Residue(input), next)) == Demux(Closed(Residue(input)))
    decreases |input|
  {
    hide ReadTurn, ItemSize, ItemFrame;
    if ItemSize(input).Some? {
      var n := ItemSize(input).value;
      ItemTurn(Stalling(input, next));
      ItemTurn(Closed(input));
      OnlyTheResidue(input[n..], next);
      BehindInjective(Frames(ItemFrame(input)), Demux(Stalling(input[n..], next)), Demux(Closed(input[n..])));
    }
  }

  /** A stall is taken for the end of the stream, whatever follows it, exactly if it comes nowhere inside a head. */
  lemma StallIsEndExactly(input: bytes)
    ensures (forall next :: Demux(Stalling(input, next)) == Demux(Closed(input))) <==> !EndsInHead(Residue(input))
  {
    hide Demux, EndsInHead, Residue, ItemSize;
    if EndsInHead(Residue(input)) {
      StallExactly(input);
      EndNeverRaises(input);
      assert Demux(Stalling(input, Failing([]))) != Demux(Closed(input));
    } else {
      forall next
        ensures Demux(Stalling(input, next)) == Demux(Closed(input))
      {
        OnlyTheResidue(input, next);
        ResidueEnds(Residue(input), next);
      }
    }
  }

  /** The octets end inside a repeated header, or in a chunk's time stamp. */
  predicate EndsInSkipped(residue: bytes) {
    |residue| >= 4
    && (residue[..4] == HEADER_TAG || ((residue[..4] == VIDEO_TAG || residue[..4] == AUDIO_TAG) && 8 <= |residue| < 16))
  }

  lemma ResidueGoesOn(input: bytes, more: bytes)
    requires ItemSize(input) == None && !EndsInSkipped(input)
    ensures Demux(Stalling(input, Closed(more))) == Demux(Closed(input))
  {
    hide U32At;
    if EndsInHead(input) {
      assert ReadTurn(Stalling(input, Closed(more))) == Stop;
    } else {
      ResidueEnds(input, Closed(more));
    }
  }

  const EMPTY_VIDEO: Item := Chunk(true, [0, 0, 0, 0, 0, 0, 0, 0], [])

  lemma HeaderGoesOn(input: bytes, more: bytes)
    requires |input| >= 4 && input[..4] == HEADER_TAG && |input| < 204
    ensures Demux(Closed(input)).frames == [] && Demux(Stalling(input, Closed(more))).frames == Demux(Closed(more)).frames
  {
    NothingMore();
  }

  lemma ChunkGoesOn(input: bytes, more: bytes)
    requires 8 <= |input| < 16 && (input[..4] == VIDEO_TAG || input[..4] == AUDIO_TAG) && U32At(input, 4) <= |more|
    ensures |Demux(Closed(input)).frames| <= if input[..4] == VIDEO_TAG then 1 else 0
    ensures var rest := Demux(Closed(more[U32At(input, 4)..])).frames;
      |Demux(Stalling(input, Closed(more))).frames| == |rest| + if input[..4] == VIDEO_TAG then 1 else 0
  {
    hide U32At, ReadTurn;
    NothingMore();
    TimestampTurn(Closed(input));
    TimestampTurn(Stalling(input, Closed(more)));
  }

  /** Something can follow that is then taken for a chunk. */
  lemma ResidueAstray(input: bytes) returns (more: bytes)
    requires ItemSize(input) == None && EndsInSkipped(input)
    ensures Demux(Stalling(input, Closed(more))) != Demux(Closed(input))
  {
    hide Demux, U32At, Encode;
    var n := if input[..4] == HEADER_TAG then 0 else U32At(input, 4) as nat;
    more := seq<byte>(n, _ => 0) + Encode(EMPTY_VIDEO);
    assert more[n..] == Encode(EMPTY_VIDEO) + Closed([]).input;
    DemuxItem(EMPTY_VIDEO, Closed([]));
    NothingMore();
    assert |Demux(Closed(more[n..])).frames| == 1;
    if input[..4] == HEADER_TAG {
      assert more[n..] == more;
      HeaderGoesOn(input, more);
    } else {
      ChunkGoesOn(input, more);
    }
  }

  /** With a source that goes on after a time-out, the stall is taken for the end exactly if it comes in nothing skipped. */
  lemma GoingOnExactly(input: bytes)
    ensures (forall more :: Demux(Stalling(input, Closed(more))) == Demux(Closed(input))) <==> !EndsInSkipped(Residue(input))
  {
    hide Demux, EndsInSkipped, Residue, ItemSize;
    if EndsInSkipped(Residue(input)) {
      OnlyTheResidue(input, Closed([]));
      var more := ResidueAstray(Residue(input));
      OnlyTheResidue(input, Closed(more));
    } else {
      forall more: bytes
        ensures Demux(Stalling(input, Closed(more))) == Demux(Closed(input))
      {
        OnlyTheResidue(input, Closed(more));
        ResidueGoesOn(Residue(input), more);
      }
    }
  }

  /**
   A witness: a stall inside a time stamp on a source that goes on. What comes out is not the payload but octets before
   it.
   */
  lemma StallCanMisalign()
    ensures var first, second := VIDEO_TAG + Be32(1) + [0, 0, 0, 0], [1, 2, 3, 4, 9];
      Demux(Closed(first + second)) == Yielded([[9]], false)
      && Demux(Stalling(first, Closed(second))) == Yielded([[1]], false)
  {
    hide Demux;
    var first, second := VIDEO_TAG + Be32(1) + [0, 0, 0, 0], [1, 2, 3, 4, 9];
    var i := Chunk(true, [0, 0, 0, 0, 1, 2, 3, 4], [9]);
    assert first + second == Encode(i) + Closed([]).input;
    DemuxItem(i, Closed([]));
    NothingMore();
    MisalignedTurns();
    ByTurn(Stalling(first, Closed(second)));
    ByTurn(Closed([2, 3, 4, 9]));
  }

  lemma ByTurn(s: Stream)
    ensures ReadTurn(s).Stop? ==> Demux(s) == Yielded([], false)
    ensures ReadTurn(s).Next? ==> Demux(s) == Behind(Frames(ReadTurn(s).frame), Demux(ReadTurn(s).rest))
  {
  }

  lemma MisalignedTurns()
    ensures ReadTurn(Stalling(VIDEO_TAG + Be32(1) + [0, 0, 0, 0], Closed([1, 2, 3, 4, 9]))) == Next(Some([1]), Closed([2, 3, 4, 9]))
    ensures ReadTurn(Closed([2, 3, 4, 9])) == Stop
  {
    var first := VIDEO_TAG + Be32(1) + [0, 0, 0, 0];
    assert first[..4] == VIDEO_TAG && first[4..] == Be32(1) + [0, 0, 0, 0];
    assert first[4..][..4] == Be32(1) && first[4..][4..] == [0, 0, 0, 0];
    assert U32At(Be32(1), 0) == 1;
    assert [1, 2, 3, 4, 9][..1] == [1] && [1, 2, 3, 4, 9][1..] == [2, 3, 4, 9];
    assert [2, 3, 4, 9][..4] == [2, 3, 4, 9];
  }
}
