/** What a run does, in order, and the octets that leaves on the wire. */
module Trace {
  import opened Bytes
  import opened Slp

  datatype Action =
    | SetCrc(on: bool)
    | SendPlain(payload: bytes)
    | SendSlp(frame: Frame)
    | MadeAuthenticator
    | Verdict(accepted: bool)
    | ClosedAuthenticator
    | ClosedConnection

  /** A read of a plain frame: a message, nothing in time or no more, or an OSError. */
  datatype PlainRead = Message(payload: Option<bytes>) | Failed

  /** The CRC mode in force after `trace`: off until set. */
  function CrcMode(trace: seq<Action>): bool {
    trace != [] && (if trace[|trace| - 1].SetCrc? then trace[|trace| - 1].on else CrcMode(trace[..|trace| - 1]))
  }

  /** A plain frame on the wire. */
  function Framed(payload: bytes): bytes
    requires |payload| < 0x1_0000
  {
    Be16(|payload|) + payload
  }

  lemma FramedOctets(payload: bytes)
    requires |payload| < 0x1_0000
    ensures Framed(payload) == [|payload| / 0x100, |payload| % 0x100] + payload
  {
  }

  /** The octets one action writes in a given CRC mode. */
  function Written(crc: bool, a: Action): bytes {
    match a
    case SendPlain(payload) => if |payload| < 0x1_0000 then Framed(payload) else []
    case SendSlp(frame) => if Sendable(frame) then Encode(crc, frame) else []
    case _ => []
  }

  /** Everything written in the course of `trace`. */
  function Wire(trace: seq<Action>): bytes {
    if trace == [] then []
    else
      var before := trace[..|trace| - 1];
      Wire(before) + Written(CrcMode(before), trace[|trace| - 1])
  }

  lemma TraceLast(trace: seq<Action>, a: Action)
    ensures CrcMode(trace + [a]) == if a.SetCrc? then a.on else CrcMode(trace)
    ensures Wire(trace + [a]) == Wire(trace) + Written(CrcMode(trace), a)
  {
  }

  /** The record of a run: what was done, and what each read brought. */
  class Journal {
    var trace: seq<Action>
    var plainReads: seq<PlainRead>
    var slpReads: seq<Option<Received>>

    constructor ()
      ensures trace == [] && plainReads == [] && slpReads == []
    {
      trace, plainReads, slpReads := [], [], [];
    }

    method Did(a: Action)
      modifies this`trace
      ensures trace == old(trace) + [a]
    {
      trace := trace + [a];
    }
  }
}
