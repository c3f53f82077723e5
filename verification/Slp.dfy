/** SLP frames on the wire: length, optional length CRC, protocol header, payload, optional payload CRC. */
module Slp {
  import opened Bytes
  import opened Crc
  import opened Gf2

  datatype Frame = Frame(session: nat, kind: nat, payload: bytes)

  /** What one attempt to read a frame yields: the frame, which CRC mismatches were reported, what is left. */
  datatype Delivery = Delivery(frame: Option<Frame>, lengthBad: bool, payloadBad: bool, rest: bytes)

  // ---------- Writing ----------

  /** What `send_slp_frame` accepts: the two header octets and the length word must fit. */
  predicate Sendable(f: Frame) {
    f.kind < 16 && |f.payload| + 2 < 0x1_0000
  }

  /** What the header can carry: a 10-bit session id and a 1-bit frame type. */
  predicate Carried(f: Frame) {
    f.session < 1024 && f.kind < 2
  }

  /** A frame as a reader can have got it. */
  type Received = f: Frame | Carried(f) witness Frame(0, 0, [])

  /** The frame as the header's 10 and 1 bits tell it. */
  function OnWire(f: Frame): Received {
    Frame(f.session % 1024, f.kind % 2, f.payload)
  }

  function Inner(f: Frame): (b: bytes)
    requires f.kind < 16
    ensures |b| == |f.payload| + 2
  {
    [16 * f.kind + f.session / 64 % 16, f.session % 64 * 4] + f.payload
  }

  function Encode(crc: bool, f: Frame): bytes
    requires Sendable(f)
  {
    var inner := Inner(f);
    var length := Be16(|inner|);
    if crc then length + Be16(Checksum(length)) + inner + Be16(Checksum(inner))
    else length + inner
  }

  // ---------- Reading ----------

  function ParseInner(inner: bytes): Option<Received> {
    if |inner| < 2 then None
    else Some(Frame(inner[0] as int % 16 * 64 + inner[1] / 4, inner[0] / 16 % 2, inner[2..]))
  }

  /** Read one frame from a stream that ends after `input`, by failing if `lost`. */
  function Decode(crc: bool, lost: bool, input: bytes): Delivery {
    if |input| < 2 then Delivery(None, false, false, [])
    else
      var length: nat, afterLength := U16At(input, 0), input[2..];
      if crc && |afterLength| < 2 then Delivery(None, false, false, [])
      else
        var lengthBad := crc && U16At(afterLength, 0) != Checksum(input[..2]);
        DecodeBody(crc, lost, length, lengthBad, if crc then afterLength[2..] else afterLength)
  }

  function DecodeBody(crc: bool, lost: bool, length: nat, lengthBad: bool, input: bytes): Delivery {
    if |input| < length then Delivery(None, lengthBad, false, [])
    else
      var inner, rest := input[..length], input[length..];
      if !crc then Delivery(ParseInner(inner), lengthBad, false, rest)
      else if |rest| < 2 then Delivery(if lost then None else ParseInner(inner), lengthBad, false, [])
      else Delivery(ParseInner(inner), lengthBad, U16At(rest, 0) != Checksum(inner), rest[2..])
  }

  // ---------- Octet by octet ----------

  /**
   Where everything stands in a frame on the wire: the length of what the payload CRC covers, with CRCs the checksum of
   these two octets, the header with type in the high half octet and the session's ten bits behind it, the payload,
   and with CRCs the checksum of header and payload. Words have their high octet first.
   */
  lemma FrameOctets(crc: bool, f: Frame)
    requires Sendable(f)
    ensures f.kind < 16 && |f.payload| + 2 < 0x1_0000
    ensures var w, h, n := Encode(crc, f), if crc then 4 else 2, |f.payload| + 2;
      && |w| == h + n + (if crc then 2 else 0)
      && 0x100 * w[0] as int + w[1] == n && (crc ==> 0x100 * w[2] as int + w[3] == Checksum(w[..2]))
      && w[h] == 16 * f.kind + f.session / 64 % 16 && w[h + 1] == 4 * (f.session % 64) && w[h + 2..h + n] == f.payload
      && (crc ==> 0x100 * w[h + n] as int + w[h + n + 1] == Checksum(w[h..h + n]))
  {
    hide Checksum;
    var inner := Inner(f);
    var length := Be16(|inner|);
    var w := Encode(crc, f);
    if crc {
      assert w[..2] == length && w[4..4 + |inner|] == inner && w[6..4 + |inner|] == f.payload;
    } else {
      assert w[..2] == length && w[2..] == inner && w[4..] == f.payload;
    }
  }

  /** The frame in `n` octets from position `h` on; none if they do not even hold a header. */
  function FrameAt(input: bytes, h: nat, n: nat): Option<Received>
    requires h + n <= |input|
  {
    if n < 2 then None
    else Some(Frame(input[h] as int % 16 * 64 + input[h + 1] / 4, input[h] / 16 % 2, input[h + 2..h + n]))
  }

  /**
   What every stream is decoded to, by the positions of its octets. A stream that ends before the payload CRC still
   delivers its frame, unchecked, but not one that fails there.
   */
  lemma DecodeExactly(crc: bool, lost: bool, input: bytes)
    ensures var d, h := Decode(crc, lost, input), if crc then 4 else 2;
      if |input| < h then d == Delivery(None, false, false, [])
      else
        var n: nat := 0x100 * input[0] as int + input[1];
        var lengthBad := crc && 0x100 * input[2] as int + input[3] != Checksum(input[..2]);
        if |input| < h + n then d == Delivery(None, lengthBad, false, [])
        else if !crc then d == Delivery(FrameAt(input, h, n), false, false, input[h + n..])
        else if |input| < h + n + 2 then d == Delivery(if lost then None else FrameAt(input, h, n), lengthBad, false, [])
        else
          d == Delivery(FrameAt(input, h, n), lengthBad,
                        0x100 * input[h + n] as int + input[h + n + 1] != Checksum(input[h..h + n]), input[h + n + 2..])
  {
    hide Checksum;
    var h := if crc then 4 else 2;
    if |input| >= h {
      var n: nat := 0x100 * input[0] as int + input[1];
      var after := if crc then input[2..][2..] else input[2..];
      assert after == input[h..];
      if |input| >= h + n {
        assert after[..n] == input[h..h + n] && after[n..] == input[h + n..];
        BodyAt(input, h, n);
        if |input| >= h + n + 2 {
          assert input[h + n..][2..] == input[h + n + 2..];
        }
      }
    }
  }

  lemma BodyAt(input: bytes, h: nat, n: nat)
    requires h + n <= |input|
    ensures ParseInner(input[h..h + n]) == FrameAt(input, h, n)
  {
    if n >= 2 {
      assert input[h..h + n][2..] == input[h + 2..h + n];
    }
  }

  // ---------- Round trip ----------

  lemma SessionBits(session: nat)
    ensures session / 64 % 16 * 64 + session % 64 == session % 1024
  {
    var high := session / 64;
    assert session == 64 * high + session % 64;
    assert high == 16 * (high / 16) + high % 16;
    assert session == 1024 * (high / 16) + (64 * (high % 16) + session % 64);
  }

  lemma KindBits(kind: nat, high: nat)
    requires kind < 16 && high < 16
    ensures (16 * kind + high) % 16 == high && (16 * kind + high) / 16 == kind
  {
  }

  lemma InnerRoundTrip(f: Frame)
    requires f.kind < 16
    ensures ParseInner(Inner(f)) == Some(OnWire(f))
  {
    var b, high, low := Inner(f), f.session / 64 % 16, f.session % 64;
    KindBits(f.kind, high);
    SessionBits(f.session);
    assert b[0] == 16 * f.kind + high && b[1] == low * 4;
    assert b[2..] == f.payload;
  }

  /** A frame whose length word, CRCs and inner octets are given separately. */
  function Octets(length: bytes, lengthCrc: u16, inner: bytes, innerCrc: u16): bytes {
    length + Be16(lengthCrc) + inner + Be16(innerCrc)
  }

  /** How the reader takes such a frame apart when the length word is honest. */
  lemma DecodeWire(lost: bool, inner: bytes, lengthCrc: u16, innerCrc: u16, rest: bytes)
    requires |inner| < 0x1_0000
    ensures Decode(true, lost, Octets(Be16(|inner|), lengthCrc, inner, innerCrc) + rest)
         == Delivery(ParseInner(inner), lengthCrc != Checksum(Be16(|inner|)), innerCrc != Checksum(inner), rest)
  {
    var input := Octets(Be16(|inner|), lengthCrc, inner, innerCrc) + rest;
    assert input == [] + Be16(|inner|) + (Be16(lengthCrc) + inner + Be16(innerCrc) + rest);
    Be16At([], |inner|, Be16(lengthCrc) + inner + Be16(innerCrc) + rest);
    assert input[..2] == Be16(|inner|);
    var after := input[2..];
    assert after == [] + Be16(lengthCrc) + (inner + Be16(innerCrc) + rest);
    Be16At([], lengthCrc, inner + Be16(innerCrc) + rest);
    var body := after[2..];
    assert body == inner + (Be16(innerCrc) + rest);
    assert body[..|inner|] == inner;
    assert body[|inner|..] == [] + Be16(innerCrc) + rest;
    Be16At([], innerCrc, rest);
    assert body[|inner|..][2..] == rest;
  }

  lemma DecodePlain(lost: bool, inner: bytes, rest: bytes)
    requires |inner| < 0x1_0000
    ensures Decode(false, lost, Be16(|inner|) + inner + rest) == Delivery(ParseInner(inner), false, false, rest)
  {
    var input := Be16(|inner|) + inner + rest;
    assert input == [] + Be16(|inner|) + (inner + rest);
    Be16At([], |inner|, inner + rest);
    assert input[2..] == inner + rest;
    assert input[2..][..|inner|] == inner && input[2..][|inner|..] == rest;
  }

  /** Every frame that can be sent is read back, its session modulo 1024 and its type modulo 2, unflagged. */
  lemma FrameRoundTrip(crc: bool, lost: bool, f: Frame, rest: bytes)
    requires Sendable(f)
    ensures Decode(crc, lost, Encode(crc, f) + rest)
         == Delivery(Some(OnWire(f)), false, false, rest)
  {
    var inner := Inner(f);
    assert ParseInner(inner) == Some(OnWire(f)) by { InnerRoundTrip(f); }
    var length := Be16(|inner|);
    if crc {
      assert Encode(crc, f) == Octets(length, Checksum(length), inner, Checksum(inner));
      DecodeWire(lost, inner, Checksum(length), Checksum(inner), rest);
    } else {
      assert Encode(crc, f) == length + inner;
      DecodePlain(lost, inner, rest);
    }
  }

  lemma CarriedExactly(f: Frame)
    ensures Carried(f) <==> OnWire(f) == f
  {
  }

  /** So the reader returns the very frame exactly when the header can carry it. */
  lemma FrameIntactExactly(crc: bool, lost: bool, f: Frame, rest: bytes)
    requires Sendable(f)
    ensures Carried(f) <==> Decode(crc, lost, Encode(crc, f) + rest) == Delivery(Some(f), false, false, rest)
  {
    hide Decode, Encode, OnWire, Carried;
    FrameRoundTrip(crc, lost, f, rest);
    CarriedExactly(f);
  }

  type SendableFrame = f: Frame | Sendable(f) witness Frame(0, 0, [])

  function EncodeAll(crc: bool, frames: seq<SendableFrame>): bytes {
    if frames == [] then [] else Encode(crc, frames[0]) + EncodeAll(crc, frames[1..])
  }

  /** `n` frame reads in a row. */
  function DecodeAll(crc: bool, lost: bool, n: nat, input: bytes): seq<Delivery> {
    if n == 0 then []
    else
      var d := Decode(crc, lost, input);
      [d] + DecodeAll(crc, lost, n - 1, d.rest)
  }

  /** `frames` were delivered, in order, nothing was flagged, and `rest` is what remains of the stream. */
  ghost predicate Intact(ds: seq<Delivery>, frames: seq<Frame>, rest: bytes) {
    && |ds| == |frames|
    && (forall i :: 0 <= i < |frames| ==> ds[i].frame == Some(frames[i]) && !ds[i].lengthBad && !ds[i].payloadBad)
    && (frames != [] ==> ds[|frames| - 1].rest == rest)
  }

  function OnWireAll(frames: seq<Frame>): (r: seq<Received>)
    ensures |r| == |frames| && forall i :: 0 <= i < |r| ==> r[i] == OnWire(frames[i])
  {
    seq(|frames|, i requires 0 <= i < |frames| => OnWire(frames[i]))
  }

  /** Any frames are read back as their headers tell them, in either CRC mode and whatever follows them. */
  lemma {:induction false} StreamRoundTrip(crc: bool, lost: bool, frames: seq<SendableFrame>, rest: bytes)
    ensures Intact(DecodeAll(crc, lost, |frames|, EncodeAll(crc, frames) + rest), OnWireAll(frames), rest)
    decreases |frames|
  {
    hide Decode, Encode, OnWire;
    if frames != [] {
      var tail := EncodeAll(crc, frames[1..]) + rest;
      assert EncodeAll(crc, frames) + rest == Encode(crc, frames[0]) + tail;
      FrameRoundTrip(crc, lost, frames[0], tail);
      StreamRoundTrip(crc, lost, frames[1..], rest);
      assert OnWireAll(frames) == [OnWire(frames[0])] + OnWireAll(frames[1..]);
      IntactCons(DecodeAll(crc, lost, |frames| - 1, tail), OnWire(frames[0]), tail, OnWireAll(frames[1..]), rest);
    }
  }

  lemma IntactCons(ds: seq<Delivery>, f: Frame, tail: bytes, frames: seq<Frame>, rest: bytes)
    requires Intact(ds, frames, rest) && (frames == [] ==> tail == rest)
    ensures Intact([Delivery(Some(f), false, false, tail)] + ds, [f] + frames, rest)
  {
  }

  /** So they are read back as that very sequence exactly when every header can carry its frame. */
  lemma StreamIntactExactly(crc: bool, lost: bool, frames: seq<SendableFrame>, rest: bytes)
    ensures Intact(DecodeAll(crc, lost, |frames|, EncodeAll(crc, frames) + rest), frames, rest)
       <==> forall i :: 0 <= i < |frames| ==> Carried(frames[i])
  {
    hide DecodeAll, EncodeAll, OnWire, Carried;
    StreamRoundTrip(crc, lost, frames, rest);
    var ds := DecodeAll(crc, lost, |frames|, EncodeAll(crc, frames) + rest);
    forall i | 0 <= i < |frames|
      ensures ds[i].frame == Some(frames[i]) <==> Carried(frames[i])
    {
      assert ds[i].frame == Some(OnWireAll(frames)[i]);
      CarriedExactly(frames[i]);
    }
  }

  // ---------- Corruption ----------

  /**
   The frame `f` on the wire with other inner octets and another CRC word: delivered as they came, and unflagged
   exactly when the checksum of the changes to the inner octets is the change to the CRC word.
   */
  lemma CorruptedExactly(lost: bool, f: Frame, inner: bytes, innerCrc: u16, rest: bytes)
    requires Sendable(f) && |inner| == |Inner(f)|
    ensures Decode(true, lost, Octets(Be16(|inner|), Checksum(Be16(|inner|)), inner, innerCrc) + rest)
         == Delivery(ParseInner(inner), false,
                     Checksum(XorEach(Inner(f), inner)) != Xor16(Checksum(Inner(f)), innerCrc), rest)
  {
    hide Decode, Inner, Checksum, Xor16, XorEach;
    DecodeWire(lost, inner, Checksum(Be16(|inner|)), innerCrc, rest);
    PassesExactly(Inner(f), inner, innerCrc);
  }

  /** Inner octets and CRC word as bits in the order the checksum takes them. */
  ghost function Protected(inner: bytes, innerCrc: u16): seq<bool> {
    Bits(inner + Be16(innerCrc))
  }

  /**
   Flagged is any burst of at most 16 bits within the inner octets or within the CRC word, and any odd number of
   flips anywhere in both.
   */
  lemma CorruptionFlagged(lost: bool, f: Frame, inner: bytes, innerCrc: u16, i: nat, rest: bytes)
    requires Sendable(f) && |inner| == |Inner(f)|
    requires var sent, got := Protected(Inner(f), Checksum(Inner(f))), Protected(inner, innerCrc);
      || (sent != got && DifferOnlyInWindow(sent, got, i) && (i + 16 <= 8 * |inner| || 8 * |inner| <= i))
      || OddOnes(Gf2.Xor(sent, got))
    ensures Decode(true, lost, Octets(Be16(|inner|), Checksum(Be16(|inner|)), inner, innerCrc) + rest).payloadBad
  {
    hide Decode, Inner, Checksum, DifferOnlyInWindow, OddOnes;
    DecodeWire(lost, inner, Checksum(Be16(|inner|)), innerCrc, rest);
    if OddOnes(Gf2.Xor(Protected(Inner(f), Checksum(Inner(f))), Protected(inner, innerCrc))) {
      OddFlipsAnywhere(Inner(f), inner, innerCrc);
    } else {
      BurstOnOneSide(Inner(f), inner, innerCrc, i);
    }
  }

  /** Two flipped bits in the inner octets are flagged unless, exactly, 32767 divides their distance. */
  lemma TwoFlipsFlagged(lost: bool, f: Frame, inner: bytes, i: nat, j: nat, rest: bytes)
    requires Sendable(f) && |inner| == |Inner(f)| && DifferInTwo(Bits(Inner(f)), Bits(inner), i, j)
    ensures Decode(true, lost, Octets(Be16(|inner|), Checksum(Be16(|inner|)), inner, Checksum(Inner(f))) + rest).payloadBad
       <==> (j - i) % 32767 != 0
  {
    hide Decode, Inner, Checksum, DifferInTwo;
    DecodeWire(lost, inner, Checksum(Be16(|inner|)), Checksum(Inner(f)), rest);
    TwoFlipsExactly(Inner(f), inner, i, j);
  }

  /** A burst across the border between the two can pass: here an empty frame on session 0 arrives as one on 48. */
  lemma BurstCanPass(lost: bool, rest: bytes)
    ensures var f, inner := Frame(0, 0, []), [0, 0xC0];
      && Inner(f) == [0, 0] && Checksum(Inner(f)) == 0
      && DifferOnlyInWindow(Protected(Inner(f), 0), Protected(inner, 0x5000), 14)
      && Decode(true, lost, Octets(Be16(|inner|), Checksum(Be16(|inner|)), inner, 0x5000) + rest)
         == Delivery(Some(Frame(48, 0, [])), false, false, rest)
  {
    hide Decode, Checksum, DifferOnlyInWindow, Bits, Octets;
    var inner := [0, 0xC0];
    assert Inner(Frame(0, 0, [])) == [0, 0];
    BurstAcrossTheBorder();
    DecodeWire(lost, inner, Checksum(Be16(|inner|)), 0x5000, rest);
    assert inner[2..] == [];
  }

  /** Any change of the length word is flagged, whatever is then taken for the payload. */
  lemma LengthChangeFlagged(lost: bool, f: Frame, length: bytes, rest: bytes)
    requires Sendable(f) && |length| == 2 && length != Be16(|Inner(f)|)
    ensures Decode(true, lost, Octets(length, Checksum(Be16(|Inner(f)|)), Inner(f), Checksum(Inner(f))) + rest).lengthBad
  {
    var sent := Be16(|Inner(f)|);
    NeighboursDetected(length, sent, 0);
    var tail := Inner(f) + Be16(Checksum(Inner(f))) + rest;
    var input := Octets(length, Checksum(sent), Inner(f), Checksum(Inner(f))) + rest;
    assert input[..2] == length;
    assert input[2..] == [] + Be16(Checksum(sent)) + tail;
    Be16At([], Checksum(sent), tail);
  }
}
