# Gear 360 protocol stack, verified

A Dafny model of the byte-level and protocol cores of the Gear 360 research code: SAP/SLP framing with its CRC-16,
the capability and service-connection codecs, the Bluetooth handshake, WSM authentication, the TTTS stream
demultiplexer and the ELF patcher for `libwsm.so`. `dafny verify dfyconfig.toml` checks everything.

| file | models |
|---|---|
| `Bytes.dfy`, `Words.dfy` | octets, big-endian words, `;`-terminated fields; words that commute under concatenation |
| `Gf2.dfy`, `Order.dfy`, `Crc.dfy` | polynomials over the two-element field, the order of x; the CRC-16 of `framing.py` |
| `Link.dfy`, `Reads.dfy`, `Session.dfy` | a file descriptor with an arbitrary short-read schedule; what its reads can bring; `SapSession` |
| `Slp.dfy`, `Trace.dfy` | SLP frames on the wire; the actions of a run and the octets they leave |
| `Capex.dfy`, `ServiceConnection.dfy` | the codecs of `sap.py` and the response parser of `session.py` |
| `Completion.dfy` | what the capability parser makes of any message whatever |
| `ServicePhase.dfy`, `Handshake.dfy` | phase 3 and phases 1-2 as state machines over reads, with their trace properties |
| `LoginOutcome.dfy`, `ServiceOutcome.dfy` | how far the login and phase 3 get, as conditions on the reads |
| `Program.dfy` | the handshake functions as methods, proved to stay in step with the machines |
| `CameraSide.dfy` | what the camera reads from our octets |
| `Authentication.dfy` | the authenticator object, injected or around the Python WSM client; what acceptance implies |
| `HonestCamera.dfy` | a camera that plays its part, as reads and as octets, up to the command session |
| `Wsm.dfy` | key derivation, MACs, the stateful client, the camera's side, runs of challenges |
| `Ttts.dfy`, `Elf.dfy` | `iter_video_frames`; `patch_library` on a byte array |

How it is set up:

- Octets and words are Python's non-negative integers with their width in the type; shifts and masks by powers of two
  are divisions and remainders, exclusive-or is defined bit by bit. Text is its octets; `;` framing is sound at that
  level because octet 0x3B never occurs inside a longer UTF-8 sequence (section 3 of RFC 3629).
- `Link.Endpoint` holds the octets still to arrive, an arbitrary schedule of how many each read hands over, which waits
  time out, and whether the stream then ends or fails. The schedule decides what a plain read takes for its message; no
  SLP read depends on it.
- A run of the handshake is determined by what its reads bring. `ServicePhase.Run` and `Handshake.Run` are state
  machines consuming one read at a time; the theorems about runs quantify over all scripts of reads. The methods in
  `Program.dfy` are the sequential code with its loops and breaks, proved to produce the machines' traces. A session
  object is valid only while `Reads.Explained` ties its reads to the octets and silences of the descriptor.
- SHA-256, HMAC and ECDH are parameters. Of them only sizes and the symmetry of ECDH are used. Statements that rest on
  collision freedom say instead: the property holds, or this pair of inputs is a collision.

Where the code and its documentation differ, the model follows the code:

- `PROTOCOL.md` describes the CRC as table-based and always on; the code is bit-serial (the two forms are proved equal)
  and switches CRCs on by octet 19 of PD_REQUEST.
- A CRC mismatch is logged and the frame is still delivered, so detection means "the mismatch is reported". The CRC word
  is sent high octet first, against the order of its register, so a burst across its border can cancel
  (`Slp.BurstCanPass`); `Slp.CorruptedExactly` says which changes do.
- `server_hmac` is documented to exclude replaying a client MAC. That holds except for equal nonces with ids that are
  powers of one word (`Wsm.ReflectionExactly`, `Wsm.ReflectionCanPass`), a case two distinct MAC addresses cannot form.
- `send_slp_frame` keeps ten bits of a session id; a camera that grants a session of 1024 or more is not reached on it
  (`CameraSide.WideSessionIsLost`).
- `read_exact_bytes` is documented to make consumers end cleanly when the stream stalls. `iter_video_frames` ignores its
  result for a repeated header and for a time stamp, and looks at that for the size only after the time stamp. So a
  stall there ends in an OSError with a source that fails after a time-out, as an HTTP response over CPython's socket
  files does (`Ttts.StallExactly`), and another source that goes on could lose alignment (`Ttts.GoingOnExactly`).
  `Ttts.StallIsEndExactly` says for every source when a stall is the end.
- A well-formed challenge with a bad point replaces the nonces but not the key; `Wsm.OwnConfirmationExactly` says what
  this does to a confirmation still under way.

## Model

| member | source | states |
|---|---|---|
| `Crc.Crc16` | research/linux-stream-poc/src/gear360/framing.py:12-19 | the two nested loops compute `Checksum`, the register whose meaning the following rows establish |
| `Crc.UpdateIsFeed` | research/linux-stream-poc/src/gear360/framing.py:15-18 | the octet loop is a division register over GF(2) fed the message's bits one by one, low bit of each octet first, from any start value |
| `Crc.ChecksumIsRemainder` | research/linux-stream-poc/src/gear360/framing.py:12-19 | for every message, message polynomial times x^16 = quotient times (x^16+x^15+x^2+1) plus the bit-reflected checksum |
| `Crc.OnlyRemainder` | research/linux-stream-poc/src/gear360/framing.py:12-19 | no other polynomial of degree below 16 is such a remainder, for any quotient of any length |
| `Crc.CollideExactly` | research/linux-stream-poc/src/gear360/framing.py:12-19 | two messages of any lengths have equal checksums if and only if the generator divides x^16 times their difference |
| `Crc.BurstDetected` | research/linux-stream-poc/src/gear360/framing.py:12-19 | for messages of any length, any change confined to 16 consecutive bits changes the checksum |
| `Crc.NeighboursDetected` | research/linux-stream-poc/src/gear360/framing.py:12-19 | in particular any change within two neighbouring octets |
| `Crc.ChecksumParity` | research/linux-stream-poc/src/gear360/framing.py:14-19 | the checksum has an odd number of one bits exactly when the message has |
| `Crc.OddFlipsDetected` | research/linux-stream-poc/src/gear360/framing.py:14-19 | an odd number of flipped bits changes the checksum, at any length |
| `Crc.TwoFlipsExactly` | research/linux-stream-poc/src/gear360/framing.py:12-19 | two flipped bits, in messages of any length, go unnoticed if and only if 32767 divides their distance |
| `Order.OrderExactly` | research/linux-stream-poc/src/gear360/framing.py:14-18 | n shift rounds without input bring the register of the constant 1 back to itself if and only if 32767 divides n: the order of x modulo the generator |
| `Crc.ChecksumLinear` | research/linux-stream-poc/src/gear360/framing.py:12-19 | for messages of one length the checksum of the bitwise difference is the difference of the checksums |
| `Crc.TableForm` | research/PROTOCOL.md:84-86 | the 256-entry lookup-table loop and the bit-serial loop give the same register for every octet string and start value |
| `Link.Endpoint.ReadExactly` | research/linux-stream-poc/src/gear360/session.py:85-92 | accumulating short reads yields the next `count` octets, or end of stream, or the error, whatever the schedule of short reads |
| `Slp.FrameRoundTrip` | research/linux-stream-poc/src/gear360/session.py:114-165 | every frame that can be sent is read back unflagged in either CRC mode, its session id modulo 1024 and its type modulo 2, leaving what follows |
| `Slp.FrameOctets` | research/linux-stream-poc/src/gear360/session.py:114-130 | every octet of an encoded frame: length, its CRC, 4 bits of type, 10 of session, 2 unused, payload and CRC, numbers high octet first |
| `Slp.DecodeExactly` | research/linux-stream-poc/src/gear360/session.py:132-165 | what is made of any octets, branch by branch: with the stream at its end before the payload CRC the frame is delivered with that CRC unchecked, and is lost when the stream fails there |
| `Slp.FrameIntactExactly` | research/linux-stream-poc/src/gear360/session.py:117-119 | it is read back as it was if and only if session id < 1024 and type < 2 |
| `Slp.StreamRoundTrip` | research/linux-stream-poc/src/gear360/session.py:114-165 | any sequence of frames written one after another is read back in order, each with session modulo 1024 and type modulo 2, nothing flagged, with exactly the trailing octets left |
| `Slp.StreamIntactExactly` | research/linux-stream-poc/src/gear360/session.py:114-165 | it is read back as that very sequence if and only if every session id is below 1024 and every type below 2 |
| `Slp.CorruptedExactly` | research/linux-stream-poc/src/gear360/session.py:143-157 | with any other inner octets and CRC word a frame is delivered as it came, and passes unflagged if and only if the checksum of the changes to the inner octets equals the change to the CRC word |
| `Slp.CorruptionFlagged` | research/linux-stream-poc/src/gear360/session.py:143-157 | reported is every burst of up to 16 bits within the inner octets or within the CRC word, and every odd number of flipped bits anywhere in both |
| `Slp.TwoFlipsFlagged` | research/linux-stream-poc/src/gear360/session.py:149-157 | two flipped bits in header and payload are reported if and only if 32767 does not divide their distance |
| `Slp.BurstCanPass` | research/linux-stream-poc/src/gear360/session.py:124-157 | a burst across the border of the two can pass, because the CRC goes out high octet first: the empty frame on session 0 arrives unflagged as one on session 48 |
| `Slp.LengthChangeFlagged` | research/linux-stream-poc/src/gear360/session.py:143-148 | any change of the two length octets is reported, whatever is then taken as payload |
| `Session.SapSession.SendFrame` | research/linux-stream-poc/src/gear360/session.py:111-112 | writes the length word and the payload, or raises for 65536 octets or more; the wire stays what the trace says |
| `Session.SapSession.SendSlpFrame` | research/linux-stream-poc/src/gear360/session.py:114-130 | raises exactly for a type of 16 or more or a length that does not fit, and otherwise appends the frame's encoding in the current CRC mode |
| `Session.SapSession.ReadFrame` | research/linux-stream-poc/src/gear360/session.py:94-109 | a time-out takes nothing; otherwise the octets of one read, between 1 and 4096 as the schedule says, are taken and at most one message made of them, the surplus dropped; at the end of the stream there is no message, or the OSError exactly if the connection fails (`PlainNext`) |
| `Reads.PlainOctets` | research/linux-stream-poc/src/gear360/session.py:94-109 | a message is what the length word covers of the read, or what there is of it; a read of fewer than two octets is none |
| `Reads.SurplusDropped` | research/linux-stream-poc/src/gear360/session.py:104-108 | octets the same read brings behind a whole message are lost |
| `Reads.ReadTakes` | research/linux-stream-poc/src/gear360/session.py:94-109 | one read takes up to 4096 octets, all there are unless the schedule makes it fewer, and the message is made of just those |
| `Session.SapSession.ReadSlpFrame` | research/linux-stream-poc/src/gear360/session.py:132-165 | returned frame, reported mismatches and remaining stream are those of the decoder on the stream, or nothing happens on a time-out; never dependent on the short-read schedule |
| `Session.ReportsExactly` | research/linux-stream-poc/src/gear360/session.py:143-157 | each mismatch is reported under its own name if and only if it is there, the length before the payload |
| `Reads.MessagesWereSent` | research/linux-stream-poc/src/gear360/session.py:94-109 | in any row of plain reads every message lies in the octets the peer sent, and what is left is the rest of them |
| `Reads.FramesArrive` | research/linux-stream-poc/src/gear360/session.py:132-165 | when the peer sends the encodings of any frames, every SLP read is determined: nothing for a wait that times out, else the next of these frames, sessions modulo 1024, until there are no more |
| `Reads.SessionFramesArrive` | research/linux-stream-poc/src/gear360/session.py:132-165 | in every session whose plain reads leave the encodings of frames, the SLP reads bring these frames in order, one for each wait that does not time out, and no other frame |
| `Reads.OneByOneRead` | research/linux-stream-poc/src/gear360/session.py:94-109 | when each read hands over one whole message and no wait times out, the messages are read one by one and exactly the octets behind them are left |
| `Capex.ParseCapexResponse` | research/linux-stream-poc/src/gear360/sap.py:183-246 | the nested loops compute `Parse` with at most (length + 6) / 5 turns of both loops together, all indices in bounds |
| `Capex.DesyncStops` | research/linux-stream-poc/src/gear360/sap.py:215-228 | wherever an inner loop breaks off, the outer loop finds no further record and ends in its next turn |
| `Capex.TruncationKeepsPrefix` | research/linux-stream-poc/src/gear360/sap.py:183-246 | parsing any prefix of a message yields a prefix of the services of the message |
| `Capex.CutExactly` | research/linux-stream-poc/src/gear360/sap.py:183-246 | of an encoded response cut anywhere exactly the services that lie whole in what is left are told, those before a break inside a record included |
| `Completion.ParseExactly` | research/linux-stream-poc/src/gear360/sap.py:183-246 | for every message: nothing is parsed without type 2 and a query type; with them it is the beginning of a whole response, and whichever that is, exactly the services lying whole in the message are parsed |
| `Capex.ServicesTakeRoom` | research/linux-stream-poc/src/gear360/sap.py:186-244 | n > 0 services need a message of at least 9 + 8n octets |
| `Capex.RoundTrip` | research/linux-stream-poc/src/gear360/sap.py:183-246 | parsing the encoding of any records, for any query type, checksum and trailing octets, gives the flattened list of services, whatever octets (also 0x3B) the binary fields hold |
| `Capex.MakeCapexResponse` | research/linux-stream-poc/src/gear360/sap.py:136-158 | the frame built step by step is the general encoding of the one advertised record |
| `Capex.OwnResponseParses` | research/linux-stream-poc/src/gear360/sap.py:136-158 | it parses to exactly the one provider service, for every query type and checksum |
| `Capex.FormatOctets` | research/linux-stream-poc/src/gear360/sap.py:136-158 | every octet of a service and of a record, words high octet first |
| `Capex.OwnResponseOctets` | research/linux-stream-poc/src/gear360/sap.py:136-158 | every octet of the response, its checksum present for query types 2 and 3 alone |
| `Capex.LegacyOctets` | research/linux-stream-poc/src/gear360/sap.py:161-180 | every octet of the legacy response |
| `Capex.MakeCapexQuery` | research/linux-stream-poc/src/gear360/sap.py:114-133 | builds the query with its profile filter, whatever octets the profiles hold, or raises for 256 profiles or more |
| `Capex.QueryRecoverable` | research/linux-stream-poc/src/gear360/sap.py:114-133 | type, number of filter profiles and checksum where present can be read back from the query's octets; the profiles themselves if and only if none holds a `;` |
| `Capex.QueryOctets` | research/linux-stream-poc/src/gear360/sap.py:114-133 | the head of a query octet by octet, its checksum present for types 2 and 3 alone, and its length |
| `ServiceConnection.MakeServiceConnectionRequest` | research/linux-stream-poc/src/gear360/sap.py:81-111 | head and four column loops build the request, whatever octets the profile holds, or raise for 65536 channels or more |
| `ServiceConnection.RequestRoundTrip` | research/linux-stream-poc/src/gear360/sap.py:98-111 | ids, profile and all six fields of every channel are recovered from the four column groups if and only if the profile holds no `;`; the length is 8 + profile + 8 per channel |
| `ServiceConnection.RequestOctets` | research/linux-stream-poc/src/gear360/sap.py:81-111 | where every field of a request stands: ids, profile, separator, count, and each field of the i-th channel in its column |
| `ServiceConnection.ReadingsExactly` | research/linux-stream-poc/src/gear360/sap.py:81-111 | a request has given octets if and only if they begin with type 1 and it is their reading at some `;` whose count accounts for exactly the octets behind it |
| `ServiceConnection.SharedExactly` | research/linux-stream-poc/src/gear360/sap.py:81-111 | a request shares its octets with another one if and only if in them such a `;` stands elsewhere than at the end of its own profile |
| `ServiceConnection.RequestInjective` | research/linux-stream-poc/src/gear360/sap.py:81-111 | in particular different requests, their profiles without `;`, have different octets |
| `ServiceConnection.SeparatorsCollide` | research/linux-stream-poc/src/gear360/sap.py:81-111 | a witness of shared octets: two different requests, one of them with a `;` in its profile |
| `ServiceConnection.ReadAnswer` | research/linux-stream-poc/src/gear360/session.py:290-306 | the response loop yields no answer without `;`, an IndexError when `;` ends the message, otherwise status and sessions as parsed |
| `ServiceConnection.AnswerOctets` | research/linux-stream-poc/src/gear360/session.py:290-306 | what is made of any message by its first `;` from octet 5 on: none, nothing behind it, or whether the octet behind it is 0 and the complete words from the fourth octet behind it on, as many as the count says |
| `ServiceConnection.ResponseTold` | research/linux-stream-poc/src/gear360/session.py:289-306 | of a response cut off anywhere, or followed by anything, exactly the complete leading session entries are told; no answer up to `;`, IndexError right after it |
| `ServiceConnection.ResponseRoundTrip` | research/PROTOCOL.md:182-184 | a whole response gives (status = 0, sessions) for all ids, profiles without `;` and session lists |
| `ServicePhase.QueriesConserved` | research/linux-stream-poc/src/gear360/session.py:326-373 | over every run of phase 3, what is sent beside the own requests is exactly one reply per query read, in order of arrival |
| `ServicePhase.RepliesExactly` | research/linux-stream-poc/src/gear360/session.py:268-276 | a read is replied to if and only if it is a frame of at least two octets whose first is 1 or 5, whatever the session and the rest |
| `ServicePhase.QueriesAnswered` | research/linux-stream-poc/src/gear360/session.py:326-373 | over every run, the frames that are no requests are as many as such reads |
| `ServicePhase.ReplyOctets` | research/linux-stream-poc/src/gear360/session.py:268-276 | every octet of the reply: type 1 gets the response for its query type, type 5 the legacy form, on the session of the query |
| `ServicePhase.ReplyMatchesQuery` | research/linux-stream-poc/src/gear360/session.py:268-276 | the reply goes out on the query's session; type 1 gets a response that echoes its query type and parses to the one service provided, type 5 the legacy form, in which every field up to the last octet tells of the same service |
| `ServicePhase.RequestsArePrefix` | research/linux-stream-poc/src/gear360/session.py:312-370 | over every run the own requests are a prefix of three, written out in the next row |
| `ServicePhase.RequestsWrittenOut` | research/linux-stream-poc/src/gear360/session.py:312-370 | over every run: the first request goes out on 1023 with 0xFFFF as both ids, the second is seven octets on the first session granted (or 1), the third goes out on 1023 with the discovered component (or 0) as acceptor and 0 as initiator; profiles and channels as numbers and text |
| `ServiceOutcome.RequestsExactly` | research/linux-stream-poc/src/gear360/session.py:312-370 | the second goes out if and only if a granted answer came and the queries ended, the third if and only if the search for the services ended after that; on the reads alone |
| `ServicePhase.AnswerExactly` | research/linux-stream-poc/src/gear360/session.py:286-289 | a message is read as an answer if and only if its first octet is 2 and it came on session 1023 |
| `ServicePhase.FirstAnswerExactly` | research/linux-stream-poc/src/gear360/session.py:279-309 | the answer taken is that of the first read that has one |
| `ServicePhase.CapexSessionExactly` | research/linux-stream-poc/src/gear360/session.py:320-324 | the capability session is the first one granted, or 1 if none is named |
| `ServicePhase.ComponentExactly` | research/linux-stream-poc/src/gear360/session.py:342-356 | the search ends on a message of at least two octets of type 2 or 6; only type 2 names a component |
| `ServicePhase.MatchesExactly` | research/linux-stream-poc/src/gear360/session.py:348-351 | a service matches if its profile is the one asked for or has the mark anywhere in it |
| `ServicePhase.LastMatchExactly` | research/linux-stream-poc/src/gear360/session.py:348-351 | the component is that of the last matching service, or there is none |
| `ServicePhase.DiscoveredExactly` | research/linux-stream-poc/src/gear360/session.py:342-356 | the component discovered is told by the first of ten reads that ends the search |
| `ServicePhase.CommandSessionIsGranted` | research/linux-stream-poc/src/gear360/session.py:371-379 | a command session is returned only after all three requests, and is the first session of the granting response just read, or 10 |
| `ServiceOutcome.CommandExactly` | research/linux-stream-poc/src/gear360/session.py:312-379 | the phase consumes just these reads and returns a command session if and only if they are: a granted first answer among ten, queries until silence follows one or fifteen reads are over, the camera's services or ten reads without, and a granted first answer within fifteen, whose first session (or 10) it is |
| `ServiceOutcome.RaisesExactly` | research/linux-stream-poc/src/gear360/session.py:279-370 | the phase consumes just these reads and raises if and only if the last is an answer with nothing behind its `;` while one is waited for: within the first ten reads, or within fifteen after the service request |
| `ServicePhase.AtMostFiftyReads` | research/linux-stream-poc/src/gear360/session.py:312-379 | whatever arrives, the phase has ended after at most fifty reads |
| `ServicePhase.SendsOnlySendable` | research/linux-stream-poc/src/gear360/session.py:312-370 | everything the phase sends fits its frames, so no send raises |
| `ServicePhase.CarriedExactly` | research/linux-stream-poc/src/gear360/session.py:312-370 | over every run the headers carry every frame sent if and only if fewer than two requests went out or the session granted is below 1024 |
| `Handshake.NoSlpBeforeAcceptance` | research/linux-stream-poc/src/gear360/session.py:193-257 | over every session, an SLP frame is preceded by the complete login (CRC mode, PD_RESPONSE, authenticator, AUTH_RESPONSE, accepted verdict), and the last plain message read is an AUTH_CONFIRM whose body the authenticator accepts after the challenge read |
| `Handshake.PlainFramesArePrefix` | research/linux-stream-poc/src/gear360/session.py:210-243 | over every session the plain frames sent are a prefix of PD_RESPONSE (echoing the versions read) and AUTH_RESPONSE (the authenticator's answer to the challenge read) |
| `Handshake.CrcModeIsFixed` | research/linux-stream-poc/src/gear360/session.py:203-204 | the CRC mode is set at most once, as the first action; from then on it is on if and only if the first message has at least 20 octets and its octet 19 is 1 |
| `Handshake.PeerDescriptionOctets` | research/linux-stream-poc/src/gear360/sap.py:47-78 | every octet of PD_RESPONSE for the two versions given |
| `LoginOutcome.LoginExactly` | research/linux-stream-poc/src/gear360/session.py:193-255 | how far a login gets, on the reads alone: PD_RESPONSE, authenticator, AUTH_RESPONSE, verdict and success, each if and only if the messages read so far have the types and lengths it needs, a PD_SUCCESS or none between, and the authenticator does its part |
| `LoginOutcome.LoginActions` | research/linux-stream-poc/src/gear360/session.py:193-255 | what these actions are: CRC mode from octet 19, the versions from octets 1 to 4, the answer behind octets 17 and 0, the verdict |
| `LoginOutcome.RaisesExactly` | research/linux-stream-poc/src/gear360/session.py:193-255 | the login ends with an exception if and only if its last read raises, the request is too short for the versions, the challenge too short to be sliced off, or the authenticator raises or answers too much for a frame |
| `Handshake.EverythingIsClosed` | research/linux-stream-poc/src/gear360/session.py:262-265 | however a session ends, the connection is closed last and once, and right before it the authenticator if one was made |
| `Program.HandleCapex` | research/linux-stream-poc/src/gear360/session.py:268-276 | sends exactly the reply to the given frame, which `ServicePhase.ReplyOctets` writes out |
| `Program.WaitServiceConnection` | research/linux-stream-poc/src/gear360/session.py:279-309 | in both its uses the loop stays in step with the machine: reads explained by the peer's octets, same replies, same outcome |
| `Program.AnswerCamera` | research/linux-stream-poc/src/gear360/session.py:326-336 | the query-answering loop stays in step on reads explained by the peer's octets, its early break included, owing only the services query |
| `Program.LearnComponent` | research/linux-stream-poc/src/gear360/session.py:342-356 | the discovery loop stays in step on reads explained by the peer's octets and owes the service request for the component it returns |
| `Program.RunServiceConnection` | research/linux-stream-poc/src/gear360/session.py:312-379 | from any journal, the phase's reads, explained by the peer's octets, and its sends are a run of the machine up to its end state, which is what is returned; the machine's requests and replies are written out in the rows above |
| `Program.RunLogin` | research/linux-stream-poc/src/gear360/session.py:193-255 | the sequential code of phases 1 and 2, making the authenticator object and calling its methods, is in step with the login machine on reads explained by the peer's octets, exceptions included, until that has ended |
| `Program.RunWifiSession` | research/linux-stream-poc/src/gear360/session.py:175-265 | for any octets, read schedule, silences and ending of the peer's stream, with an injected authenticator or the stateful Python client: the reads are those that stream gives and go on as long as login and phase 3 do, the actions are the trace the reads determine, the octets written are those of the trace, and the command session, and whether an exception escapes, are theirs |
| `CameraSide.CameraReadsWhatWasSent` | research/linux-stream-poc/src/gear360/session.py:114-165 | the wire of a session begins with the login's two plain frames; behind them a reader whose CRC mode is that of octet 19 of the first message (if that has as many) finds the frames phase 3 sent, sessions modulo 1024, unflagged, and nothing more; they are the very frames sent if and only if fewer than two requests went out or the session granted is below 1024 |
| `CameraSide.LoginFrames` | research/linux-stream-poc/src/gear360/session.py:210-237 | the octets of a login that went through, whatever follows, decode to PD_RESPONSE with the versions read and AUTH_RESPONSE with the authenticator's answer |
| `CameraSide.WideSessionIsLost` | research/linux-stream-poc/src/gear360/session.py:313-342 | after a response granting session 1024, one query and silence, the services query goes out for session 1024 and is on session 0 on the wire |
| `Authentication.WsmAuthenticator.ProcessChallenge` | research/linux-stream-poc/src/gear360/connect_libpy.py:22-28 | the wrapper runs the stateful client and answers as the model of it used for the login does, every failure being a refusal |
| `Authentication.WsmAuthenticator.VerifyConfirm` | research/linux-stream-poc/src/gear360/connect_libpy.py:30-36 | after a challenge the client's verdict on a confirmation is that of the model, a ValueError being a rejection and a missing challenge an exception |
| `Authentication.PythonExactly` | research/linux-stream-poc/src/gear360/connect_libpy.py:22-36 | the wrapper on octets: every challenge but one of the right length, header and point is refused, the others get the response with its MAC; a confirmation is accepted if and only if the server MAC stands behind its header, raises if and only if it has length and header but there was no agreement |
| `Authentication.NoSlpWithoutCameraMac` | research/linux-stream-poc/src/gear360/connect_libpy.py:9-36 | with the Python client, no SLP frame goes out unless the last plain message carried the server MAC over this session's nonces under the key of the ECDH secret and the fresh nonce |
| `Authentication.CameraMacWasSent` | research/linux-stream-poc/src/gear360/connect_libpy.py:9-36 | on the peer's octets: no SLP frame goes out unless they hold a well-formed challenge and the server MAC for it under the key of the ECDH secret and the fresh nonce |
| `HonestCamera.LogsIn` | research/linux-stream-poc/src/gear360/session.py:193-255 | for all key pairs, nonces and ids, and with or without PD_SUCCESS, the reads of a camera that plays its part end logged in, and the AUTH_RESPONSE they lead to passes the camera's check |
| `HonestCamera.LoginIsRead` | research/linux-stream-poc/src/gear360/session.py:193-255 | on octets: when the camera's messages come one by one, a completed login has read just these and leaves what the camera sends behind them |
| `HonestCamera.SessionOnOctets` | research/linux-stream-poc/src/gear360/session.py:175-265 | a session with a stream of the camera's login messages and then the encodings of any frames reads just these, and comes to a command session if and only if some of the reads these frames and the silences amount to grant it |
| `HonestCamera.ConversationGrants` | research/linux-stream-poc/src/gear360/session.py:312-379 | a granting response, one to fourteen queries, a pause, the services and a granting response are such frames, and grant the first session of the last response, or 10 |
| `HonestCamera.SessionGoesThrough` | research/linux-stream-poc/src/gear360/session.py:175-265 | from octets to command session: with the Python client, for all keys, nonces, ids, versions, CRC modes, queries and services, a session with a camera that plays its part throughout returns the session its last response names, or 10 |
| `Wsm.WSMClient.ProcessChallenge` | research/wsm-reveng/src/wsm/client.py:24-65 | the new fields and the response or exception are those of `Process`; a bad point is raised with the nonces already replaced |
| `Wsm.WSMClient.VerifyConfirm` | research/wsm-reveng/src/wsm/client.py:67-84 | the outcome, every exception told apart, is that of `Check` on the current fields |
| `Wsm.KeyIs` | research/wsm-reveng/src/wsm/crypto.py:16-21 | the key is the hash of the secret, the two table entries of the nonce, the server id and the client id, in this order |
| `Wsm.KeyDataAt` | research/wsm-reveng/src/wsm/crypto.py:16-21 | where each of these stands in the hashed octets, for a secret of 32 |
| `Wsm.MacsAre` | research/wsm-reveng/src/wsm/crypto.py:24-34 | what each of the two MACs covers, in order |
| `Wsm.ResponseExactly` | research/wsm-reveng/src/wsm/client.py:24-65 | which challenge gets which exception, and every part of the 102-octet response to the others |
| `Wsm.CheckExactly` | research/wsm-reveng/src/wsm/client.py:67-84 | which confirmation gets which exception or is verified, on its octets and the fields |
| `Wsm.Agreement` | research/wsm-reveng/scripts/parity_test.py:88-128 | for all key pairs, nonces, ids and client states, the response to a camera's challenge passes the camera's check and the camera's confirmation verifies; the camera takes the octets apart and makes keys and MACs by an account of its own, not the client's |
| `Wsm.DataCoincideExactly` | research/wsm-reveng/src/wsm/crypto.py:24-34 | client and server MAC cover the same octets if and only if the nonces are equal and both ids are powers of one word |
| `Wsm.DistinctIdsSeparate` | research/wsm-reveng/src/wsm/crypto.py:30-34 | never for distinct ids of one length |
| `Wsm.ReflectionExactly` | research/wsm-reveng/src/wsm/crypto.py:30-34 | the client's own MAC passes as the confirmation if and only if the nonces are equal and the ids are powers of one word, or HMAC collides on the two inputs named |
| `Wsm.ReflectionCanPass` | research/wsm-reveng/src/wsm/crypto.py:30-34 | it does pass for equal ids when the random nonce repeats the challenge nonce |
| `Wsm.ReflectionRefused` | research/wsm-reveng/src/wsm/crypto.py:30-34 | for distinct ids of one length it passes if and only if HMAC collides on the two keys and inputs named, those of this very exchange |
| `Wsm.StateTells` | research/wsm-reveng/src/wsm/client.py:31-48 | after any sequence of challenges, good and bad, the nonces are those of the latest well-formed one and the key is that of the latest successful agreement |
| `Wsm.OwnConfirmationExactly` | research/wsm-reveng/src/wsm/client.py:67-84 | the honest confirmation of the latest agreement verifies if and only if the nonces are still its own or HMAC collides on the two inputs named |
| `Wsm.AcceptedExactly` | research/wsm-reveng/src/wsm/client.py:67-84 | after any run with an agreement, a confirmation made under any secret and nonces verifies if and only if its nonces are those of the latest well-formed challenge and its secret and expanded response nonce are those of the latest agreement (or collide with them under SHA-256), or HMAC collides on the two inputs named |
| `Wsm.ExpansionInjectiveExactly` | research/wsm-reveng/src/wsm/nonce_table.py:72-75 | for any table, expansion tells all nonces apart if and only if the 256 entries are distinct |
| `Ttts.Response.ReadExactBytes` | research/linux-stream-poc/src/gear360/stream.py:152-164 | accumulating short reads yields the next `size` octets, or nothing at the end of the stream or on a time-out, or the OSError, whatever the schedule of short reads |
| `Ttts.IterVideoFrames` | research/linux-stream-poc/src/gear360/stream.py:125-164 | the frames yielded, and whether an OSError escapes, are those of `Demux` on the stream, its time-outs included, under any short-read schedule |
| `Ttts.DemuxAll` | research/linux-stream-poc/src/gear360/stream.py:125-149 | for any interleaving of headers, audio and video chunks, and whatever follows, exactly the video payloads come out in order |
| `Ttts.DemuxOctets` | research/linux-stream-poc/src/gear360/stream.py:125-149 | what each item does, by its octets: a header is passed over with the 200 octets behind it, a 00VD chunk yields its payload, an 00AU chunk nothing, any other tag ends the loop; sizes high octet first |
| `Ttts.CutKeepsPrefix` | research/linux-stream-poc/src/gear360/stream.py:125-164 | the frames of any stream cut short, by its end or by an OSError, are a prefix of the frames of the whole |
| `Ttts.EndNeverRaises` | research/linux-stream-poc/src/gear360/stream.py:125-164 | the end of the stream, wherever it comes, ends the loop without an exception |
| `Ttts.StallIsEndExactly` | research/linux-stream-poc/src/gear360/stream.py:152-164 | a time-out is taken for the end of the stream, whatever follows it, if and only if what is left behind the complete items does not end inside a header or between a chunk's tag and its payload |
| `Ttts.StallExactly` | research/linux-stream-poc/src/gear360/stream.py:152-164 | with a source whose later reads raise, as those of an HTTP response over a CPython socket do, a time-out yields the frames a clean end would have yielded, and raises if and only if the items are left inside such a head |
| `Ttts.GoingOnExactly` | research/linux-stream-poc/src/gear360/stream.py:136-141 | with a source whose later reads go on, which an HTTP response is not, a time-out is taken for the end of the stream if and only if the items are not left inside a header or a time stamp |
| `Ttts.StallCanMisalign` | research/linux-stream-poc/src/gear360/stream.py:136-141 | a witness on a source that goes on, not an HTTP response: a time-out inside a time stamp makes octets of the time stamp come out as a frame |
| `Elf.FindDynamicOffset` | research/libwsm-reveng/scripts/patch_libwsm.py:19-29 | the indexed scan computes `Dynamic`, characterised in the next two rows |
| `Elf.ScanExactly` | research/libwsm-reveng/scripts/patch_libwsm.py:24-29 | the scan yields v if and only if some header is readable, of type PT_DYNAMIC and tells v, and all before it are readable and of other types; no PT_DYNAMIC if and only if all are readable and none matches; struct.error if and only if the first header not so skipped lies outside the image |
| `Elf.DynamicExactly` | research/libwsm-reveng/scripts/patch_libwsm.py:19-29 | the same for the image, whose header fields must be there |
| `Elf.PatchLibrary` | research/libwsm-reveng/scripts/patch_libwsm.py:32-55 | in-place patching of the read image is `PatchImage`; the file is rewritten only on success with changes, and untouched by any exception |
| `Elf.TurnedAway` | research/libwsm-reveng/scripts/patch_libwsm.py:35-38 | which files are turned away with which exception, by their first six octets |
| `Elf.HeaderFields` | research/libwsm-reveng/scripts/patch_libwsm.py:21-23 | where the program headers are, how large and how many, by the octets |
| `Elf.HeaderOctets` | research/libwsm-reveng/scripts/patch_libwsm.py:24-28 | a header tells the offset if its first four octets are 2, 0, 0, 0, and is passed over if they are others |
| `Elf.PatchOctets` | research/libwsm-reveng/scripts/patch_libwsm.py:40-50 | with the tags as numbers: success if and only if a terminator ends the table; then the second word of each entry with tag 27 or 28 before it is zero, every other octet is kept, and the names tell which of these had a size, 27 giving DT_INIT_ARRAYSZ and 28 DT_FINI_ARRAYSZ |
| `Elf.PatchErrors` | research/libwsm-reveng/scripts/patch_libwsm.py:42-50 | a table without a terminator ends in a struct.error |
| `Elf.PatchExactly` | research/libwsm-reveng/scripts/patch_libwsm.py:40-50 | the loop ends normally if and only if the table has a terminator, and then zeroes exactly the size words of array entries before it, every other octet kept |
| `Elf.NamesExactly` | research/libwsm-reveng/scripts/patch_libwsm.py:47-55 | the names returned are those of the array entries that had a size in the image before patching, in table order |
| `Elf.NamesMeanChanges` | research/libwsm-reveng/scripts/patch_libwsm.py:47-55 | the returned list is empty if and only if the image is unchanged |
| `Elf.ImageExactly` | research/libwsm-reveng/scripts/patch_libwsm.py:32-55 | the script succeeds if and only if magic and class octets are right and the dynamic table found has a terminator; the image is then the masked one, array sizes zeroed |
| `Elf.TableTwice` | research/libwsm-reveng/scripts/patch_libwsm.py:40-50 | patching a table a second time changes and returns nothing |
| `Elf.UnchangedExactly` | research/libwsm-reveng/scripts/patch_libwsm.py:32-55 | a run succeeds, changes nothing and returns an empty list if and only if the image is accepted, its dynamic table has a terminator, and all array sizes in it are zero |
| `Elf.SecondRunExactly` | research/libwsm-reveng/scripts/patch_libwsm.py:32-55 | after a successful run a second one succeeds, changes nothing and returns an empty list if and only if that holds of the masked original |
| `Elf.SameTableSettles` | research/libwsm-reveng/scripts/patch_libwsm.py:32-55 | it does when masking spares magic and class octets and leaves the scan's result as it was |
| `Elf.SecondRunChangesNothing` | research/libwsm-reveng/scripts/patch_libwsm.py:32-55 | in particular when the dynamic table overlaps neither the header fields read nor a program header |
| `Elf.OverlapCanBreakSecondRun` | research/libwsm-reveng/scripts/patch_libwsm.py:32-55 | a 70-octet image whose table overlaps a program header is patched once and rejected the second time |

## Left out

- Ttts.IterVideoFrames: the generator is modelled as the list of all it yields, so when each frame is handed out is not captured.
- Phase 4 and later (JSON messages, WiFi, UPnP, live view): library serializers and I/O; the session model ends after phase 3, where the clean-up follows directly.
- Time-outs in the middle of a frame and the lengths of waits: a wait either brings data or is a time-out before a frame.
- Partial or failing `os.write`: writes take all octets.
- The message fields of PD_RESPONSE beyond the echoed versions are constants of the model, as in the source.
- A failing `make_authenticator`, and authenticators whose behaviour in one session is not a function of the octets they are given.
- SHA-256, HMAC, P-256 and the 2048 octets of the nonce table: parameters.
- D-Bus, BlueZ, SSDP, HTTP, `nmcli`, ffplay and NDI glue, the macOS spike, shell scripts and the C programs around `libwsm.so`: foreign calls.
