/** The SAP session over the camera's file descriptor: plain frames, and SLP frames reassembled from short reads. */
module Session {
  import opened Bytes
  import opened Crc
  import opened Link
  import opened Reads
  import opened Slp
  import opened Trace

  datatype Label = LengthCrc | PayloadCrc

  /** The mismatches that one delivery reports. */
  function Reports(d: Delivery): seq<Label> {
    (if d.lengthBad then [LengthCrc] else []) + (if d.payloadBad then [PayloadCrc] else [])
  }

  /** The length's mismatch is reported before the payload's, and each exactly if it is there. */
  lemma ReportsExactly(d: Delivery)
    ensures LengthCrc in Reports(d) <==> d.lengthBad
    ensures PayloadCrc in Reports(d) <==> d.payloadBad
    ensures d.lengthBad && d.payloadBad ==> Reports(d) == [LengthCrc, PayloadCrc]
  {
  }

  class SapSession {
    const fd: Endpoint
    const journal: Journal
    var useCrc: bool
    var warnings: seq<Label>

    /** What the descriptor had to offer when the session began. */
    ghost const start: View

    ghost function Now(): View
      reads fd
    {
      View(fd.input, fd.plan, fd.silent)
    }

    /** What is on the wire is what the trace says, in the CRC mode it says, and the reads are what the peer's octets explain. */
    ghost predicate Valid()
      reads this, fd, journal
    {
      && useCrc == CrcMode(journal.trace) && fd.output == Wire(journal.trace)
      && Explained(useCrc, fd.lost, start, journal.plainReads, journal.slpReads, Now())
    }

    constructor (fd: Endpoint, journal: Journal)
      requires fd.output == [] && journal.trace == [] && journal.plainReads == [] && journal.slpReads == []
      ensures this.fd == fd && this.journal == journal && warnings == [] && start == View(fd.input, fd.plan, fd.silent)
      ensures Valid()
    {
      this.fd, this.journal, useCrc, warnings := fd, journal, false, [];
      start := View(fd.input, fd.plan, fd.silent);
      new;
      NothingRead(false, fd.lost, start);
    }

    method SetCrcMode(on: bool)
      requires Valid() && journal.slpReads == []
      modifies this`useCrc, journal`trace
      ensures Valid() && journal.trace == old(journal.trace) + [SetCrc(on)]
    {
      hide Explained;
      PlainOnly(useCrc, fd.lost, start, journal.plainReads, Now());
      PlainOnly(on, fd.lost, start, journal.plainReads, Now());
      useCrc := on;
      TraceLast(journal.trace, SetCrc(on));
      journal.Did(SetCrc(on));
    }

    /** Record an action that touches neither the wire nor the CRC mode. */
    method Note(a: Action)
      requires Valid() && !a.SetCrc? && !a.SendPlain? && !a.SendSlp?
      modifies journal`trace
      ensures Valid() && journal.trace == old(journal.trace) + [a]
    {
      hide Explained;
      TraceLast(journal.trace, a);
      journal.Did(a);
    }

    /** `false` is the struct.error of a payload whose length does not fit its word. */
    method SendFrame(payload: bytes) returns (ok: bool)
      requires Valid()
      modifies fd`output, journal`trace
      ensures Valid() && ok == (|payload| < 0x1_0000)
      ensures journal.trace == if ok then old(journal.trace) + [SendPlain(payload)] else old(journal.trace)
    {
      hide Explained;
      if |payload| >= 0x1_0000 {
        return false;
      }
      TraceLast(journal.trace, SendPlain(payload));
      fd.Write(Be16(|payload|) + payload);
      journal.Did(SendPlain(payload));
      ok := true;
    }

    /** `false` is the ValueError of a frame type or the struct.error of a length that does not fit. */
    method SendSlpFrame(payload: bytes, session: nat, kind: nat) returns (ok: bool)
      requires Valid()
      modifies fd`output, journal`trace
      ensures Valid() && ok == Sendable(Frame(session, kind, payload))
      ensures journal.trace == if ok then old(journal.trace) + [SendSlp(Frame(session, kind, payload))] else old(journal.trace)
    {
      hide Checksum, CrcMode, Trace.Wire, Be16, Explained;
      var msb := session / 64 % 16;
      var lsb := session % 64 * 4;
      if kind * 16 + msb >= 0x100 {
        return false;
      }
      var inner: bytes := [kind * 16 + msb, lsb] + payload;
      if |inner| >= 0x1_0000 {
        return false;
      }
      var length := Be16(|inner|);
      var wire: bytes;
      if useCrc {
        var lengthCrc := Crc16(length);
        var innerCrc := Crc16(inner);
        wire := length + Be16(lengthCrc) + inner + Be16(innerCrc);
      } else {
        wire := length + inner;
      }
      assert wire == Encode(useCrc, Frame(session, kind, payload));
      TraceLast(journal.trace, SendSlp(Frame(session, kind, payload)));
      fd.Write(wire);
      journal.Did(SendSlp(Frame(session, kind, payload)));
      ok := true;
    }

    /** One `os.read`: at most one message, surplus octets are dropped. */
    method ReadFrame() returns (r: PlainRead)
      requires Valid() && journal.slpReads == []
      modifies fd`input, fd`plan, fd`silent, journal`plainReads
      ensures Valid() && journal.plainReads == old(journal.plainReads) + [r]
      ensures (r, Now()) == PlainNext(fd.lost, old(Now()))
    {
      hide Explained, CrcMode, Trace.Wire, ParsePlain;
      ghost var before := Now();
      var ready := fd.Select();
      r := Message(None);
      if ready {
        var chunk := fd.Read(4096);
        if chunk.Lost? {
          r := Failed;
        } else {
          assert chunk.data == before.input[..|chunk.data|] && fd.input == before.input[|chunk.data|..];
          r := Message(ParsePlain(chunk.data));
        }
      }
      NoOctets();
      PlainReadOn(useCrc, fd.lost, start, journal.plainReads, before);
      journal.plainReads := journal.plainReads + [r];
    }

    /** The reassembling reader: what it returns and reports depends on the stream, never on the short-read schedule. */
    method ReadSlpFrame() returns (r: Option<Received>)
      requires Valid()
      modifies this`warnings, fd`input, fd`plan, fd`silent, journal`slpReads
      ensures Valid() && journal.slpReads == old(journal.slpReads) + [r]
      ensures fd.silent == Rest(old(fd.silent))
      ensures old(fd.silent) != [] && old(fd.silent)[0] ==>
        r == None && fd.input == old(fd.input) && warnings == old(warnings)
      ensures old(fd.silent) == [] || !old(fd.silent)[0] ==>
        Delivered(r, fd.input, warnings, old(warnings), Decode(useCrc, fd.lost, old(fd.input)))
    {
      hide Explained, CrcMode, Trace.Wire, Decode;
      ghost var before := Now();
      var ready := fd.Select();
      r := None;
      if ready {
        r := ReceiveSlpFrame();
      }
      SlpReadOn(useCrc, fd.lost, start, journal.plainReads, journal.slpReads, before, r, Now());
      journal.slpReads := journal.slpReads + [r];
    }

    ghost predicate Delivered(r: Option<Frame>, left: bytes, now: seq<Label>, before: seq<Label>, d: Delivery) {
      r == d.frame && left == d.rest && now == before + Reports(d)
    }

    method ReceiveSlpFrame() returns (r: Option<Received>)
      modifies this`warnings, fd`input, fd`plan
      ensures Delivered(r, fd.input, warnings, old(warnings), Decode(useCrc, fd.lost, old(fd.input)))
    {
      hide Checksum, DecodeBody, U16At;
      var header := fd.ReadExactly(2);
      if !header.Whole? {
        return None;
      }
      var length := U16At(header.data, 0);
      assert length == U16At(old(fd.input), 0) by { SameWord(old(fd.input)); }
      ghost var lengthBad := false;
      if useCrc {
        ghost var after := fd.input;
        var lengthCrc := fd.ReadExactly(2);
        if !lengthCrc.Whole? {
          return None;
        }
        var actual := Crc16(header.data);
        lengthBad := U16At(lengthCrc.data, 0) != actual;
        assert U16At(lengthCrc.data, 0) == U16At(after, 0) by { SameWord(after); }
        WarnCrc(LengthCrc, U16At(lengthCrc.data, 0), actual);
      }
      r := ReceiveBody(length, lengthBad);
    }

    /** The rest of a frame whose length is known. */
    method ReceiveBody(length: nat, ghost lengthBad: bool) returns (r: Option<Received>)
      modifies this`warnings, fd`input, fd`plan
      ensures var d := DecodeBody(useCrc, fd.lost, length, lengthBad, old(fd.input));
        d.lengthBad == lengthBad
        && Delivered(r, fd.input, warnings, old(warnings), Delivery(d.frame, false, d.payloadBad, d.rest))
    {
      hide Checksum, U16At;
      var payload := fd.ReadExactly(length);
      if !payload.Whole? {
        return None;
      }
      if useCrc {
        ghost var after := fd.input;
        var payloadCrc := fd.ReadExactly(2);
        if payloadCrc.Broken? {
          return None;
        }
        if payloadCrc.Whole? {
          var actual := Crc16(payload.data);
          assert U16At(payloadCrc.data, 0) == U16At(after, 0) by { SameWord(after); }
          WarnCrc(PayloadCrc, U16At(payloadCrc.data, 0), actual);
        }
      }
      if |payload.data| < 2 {
        return None;
      }
      var kind := payload.data[0] / 16 % 2;
      var session := payload.data[0] as int % 16 * 64 + payload.data[1] / 4;
      r := Some(Frame(session, kind, payload.data[2..]));
    }

    lemma SameWord(s: bytes)
      requires |s| >= 2
      ensures U16At(s[..2], 0) == U16At(s, 0)
    {
    }

    method WarnCrc(part: Label, expected: u16, actual: u16)
      modifies this`warnings
      ensures warnings == old(warnings) + if expected != actual then [part] else []
    {
      if expected != actual {
        warnings := warnings + [part];
      }
    }
  }
}
