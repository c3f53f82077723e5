/** Capability discovery ("capex"): the response parser, its inverse encoder, and the messages the program builds. */
module Capex {
  import opened Bytes

  const MSG_CAPEX_QUERY: byte := 1
  const MSG_CAPEX_RESPONSE: byte := 2
  const MSG_CAPEX_RESPONSE_LEGACY: byte := 6
  const ROLE_PROVIDER: byte := 2
  const ASP_VERSION: u16 := 0x0100

  const SERVER_FRIENDLY_NAME: bytes := Ascii("NX360_SERVER")
  const DEVICE_PROFILE: bytes := Ascii("/system/DI_360_2D")

  /** One parsed service; names stay octet strings. */
  datatype Service = Service(uuid: u16, name: bytes, component: u16, profile: bytes, asp: u16, role: byte, timeout: u16)

  // ---------- Parsing, as a function of message and offset ----------

  datatype AgentStep = Broken(offset: nat) | Found(service: Service, offset: nat)

  /** One turn of the inner loop: a whole agent, or where the turn broke off. */
  function NextAgent(msg: bytes, offset: nat, uuid: u16, name: bytes): (r: AgentStep)
    ensures r.Found? ==> offset + 8 <= r.offset <= |msg|
    ensures offset <= |msg| ==> offset <= r.offset <= |msg|
  {
    if offset + 2 > |msg| then Broken(offset)
    else
      var end := Find(msg, offset + 2);
      if end.None? then Broken(offset + 2)
      else
        var at := end.value + 1;
        if at + 5 > |msg| then Broken(at)
        else
          Found(Service(uuid, name, U16At(msg, offset), msg[offset + 2..end.value], U16At(msg, at), msg[at + 2], U16At(msg, at + 3)),
                at + 5)
  }

  datatype RecordStep = Stop | Header(uuid: u16, name: bytes, nAgents: u16, offset: nat)

  /** The head of one turn of the outer loop; every failure in it leaves the loop. */
  function NextRecord(msg: bytes, offset: nat): (r: RecordStep)
    ensures r.Header? ==> offset + 5 <= r.offset <= |msg|
  {
    if offset + 2 > |msg| then Stop
    else
      var end := Find(msg, offset + 2);
      if end.None? || end.value + 3 > |msg| then Stop
      else Header(U16At(msg, offset), msg[offset + 2..end.value], U16At(msg, end.value + 1), end.value + 3)
  }

  /** The inner loop from `offset`: services found, where it stopped, and whether no turn broke off. */
  datatype Agents = Agents(services: seq<Service>, offset: nat, complete: bool)

  function ParseAgents(msg: bytes, offset: nat, n: nat, uuid: u16, name: bytes): Agents
    decreases n
  {
    if n == 0 then Agents([], offset, true)
    else
      match NextAgent(msg, offset, uuid, name)
      case Broken(at) => Agents([], at, false)
      case Found(service, next) =>
        var rest := ParseAgents(msg, next, n - 1, uuid, name);
        Agents([service] + rest.services, rest.offset, rest.complete)
  }

  /** The outer loop from `offset`. */
  function ParseRecords(msg: bytes, offset: nat, n: nat): seq<Service>
    decreases n
  {
    if n == 0 then []
    else
      match NextRecord(msg, offset)
      case Stop => []
      case Header(uuid, name, nAgents, start) =>
        var agents := ParseAgents(msg, start, nAgents, uuid, name);
        agents.services + ParseRecords(msg, agents.offset, n - 1)
  }

  /** Where the record count stands. */
  function CountAt(queryType: byte): nat {
    if queryType == 2 || queryType == 3 then 6 else 2
  }

  function Parse(msg: bytes): seq<Service> {
    if |msg| < 2 || msg[0] != MSG_CAPEX_RESPONSE || CountAt(msg[1]) + 2 > |msg| then []
    else ParseRecords(msg, CountAt(msg[1]) + 2, U16At(msg, CountAt(msg[1])))
  }

  // ---------- Desynchronisation ----------

  lemma {:induction false} FindLater(msg: bytes, from: nat, later: nat)
    requires from <= later && Find(msg, from).None?
    ensures Find(msg, later).None?
    decreases later - from
  {
    if from < later {
      FindLater(msg, from + 1, later);
    }
  }

  lemma BrokenStops(msg: bytes, offset: nat, uuid: u16, name: bytes)
    requires NextAgent(msg, offset, uuid, name).Broken?
    ensures NextRecord(msg, NextAgent(msg, offset, uuid, name).offset) == Stop
  {
    if offset + 2 <= |msg| && Find(msg, offset + 2).None? {
      FindLater(msg, offset + 2, offset + 4);
    }
  }

  /** However an agent list breaks off, the outer loop finds no further record there: it ends in its next turn. */
  lemma {:induction false} DesyncStops(msg: bytes, offset: nat, n: nat, uuid: u16, name: bytes)
    requires !ParseAgents(msg, offset, n, uuid, name).complete
    ensures NextRecord(msg, ParseAgents(msg, offset, n, uuid, name).offset) == Stop
    decreases n
  {
    var step := NextAgent(msg, offset, uuid, name);
    if step.Broken? {
      BrokenStops(msg, offset, uuid, name);
    } else {
      DesyncStops(msg, step.offset, n - 1, uuid, name);
    }
  }

  // ---------- The parser as it runs ----------

  /** The inner loop. `rounds` counts its turns. */
  method AppendAgents(msg: bytes, start: nat, nAgents: nat, uuid: u16, name: bytes, found: seq<Service>)
    returns (services: seq<Service>, offset: nat, ghost rounds: nat)
    requires start <= |msg|
    ensures Agents(services, offset, ParseAgents(msg, start, nAgents, uuid, name).complete)
         == Prepend(found, ParseAgents(msg, start, nAgents, uuid, name))
    ensures offset <= |msg|
    ensures 5 * rounds <= offset - start + if ParseAgents(msg, start, nAgents, uuid, name).complete then 0 else 5
  {
    services, offset, rounds := found, start, 0;
    ghost var all := Prepend(found, ParseAgents(msg, start, nAgents, uuid, name));
    var agent := 0;
    while agent < nAgents
      invariant agent <= nAgents
      invariant start <= offset <= |msg| && 5 * rounds <= offset - start
      invariant all == Prepend(services, ParseAgents(msg, offset, nAgents - agent, uuid, name))
    {
      rounds := rounds + 1;
      var step := NextAgent(msg, offset, uuid, name);
      if step.Broken? {
        offset := step.offset;
        break;
      }
      PrependStep(services, step.service, ParseAgents(msg, step.offset, nAgents - agent - 1, uuid, name));
      services, offset, agent := services + [step.service], step.offset, agent + 1;
    }
  }

  ghost function Prepend(services: seq<Service>, rest: Agents): Agents {
    Agents(services + rest.services, rest.offset, rest.complete)
  }

  lemma PrependStep(services: seq<Service>, s: Service, rest: Agents)
    ensures Prepend(services, Agents([s] + rest.services, rest.offset, rest.complete)) == Prepend(services + [s], rest)
  {
  }

  lemma Regroup(a: seq<Service>, b: seq<Service>, c: seq<Service>)
    ensures a + (b + c) == (a + b) + c
  {
  }

  /** The work of the nested loops is linear in the message although two counts of up to 65535 nest. */
  method ParseCapexResponse(msg: bytes) returns (services: seq<Service>, ghost rounds: nat)
    ensures services == Parse(msg)
    ensures 5 * rounds <= |msg| + 6
  {
    hide NextRecord, ParseAgents;
    services, rounds := [], 0;
    if |msg| < 2 || msg[0] != MSG_CAPEX_RESPONSE {
      return;
    }
    var offset: nat := 2;
    if msg[1] == 2 || msg[1] == 3 {
      offset := offset + 4;
    }
    if offset + 2 > |msg| {
      return;
    }
    var nRecords := U16At(msg, offset);
    offset := offset + 2;
    ghost var all := ParseRecords(msg, offset, nRecords);
    ghost var desynced := false;
    var record := 0;
    while record < nRecords
      invariant record <= nRecords && offset <= |msg|
      invariant all == services + ParseRecords(msg, offset, nRecords - record)
      invariant desynced ==> NextRecord(msg, offset).Stop?
      invariant 5 * rounds + 4 <= offset + if desynced then 5 else 0
    {
      rounds := rounds + 1;
      var head := NextRecord(msg, offset);
      if head.Stop? {
        break;
      }
      ghost var agents := ParseAgents(msg, head.offset, head.nAgents, head.uuid, head.name);
      if !agents.complete {
        DesyncStops(msg, head.offset, head.nAgents, head.uuid, head.name);
      }
      ghost var before := services;
      ghost var inner: nat;
      services, offset, inner := AppendAgents(msg, head.offset, head.nAgents, head.uuid, head.name, services);
      rounds, record, desynced := rounds + inner, record + 1, !agents.complete;
      Regroup(before, agents.services, ParseRecords(msg, offset, nRecords - record));
    }
  }

  // ---------- Truncation ----------

  lemma {:induction false} FindInPrefix(short: bytes, msg: bytes, from: nat)
    requires short <= msg
    ensures Find(short, from).Some? ==> Find(msg, from) == Find(short, from)
    decreases |short| - from
  {
    if from < |short| && msg[from] != FIELD_SEPARATOR {
      FindInPrefix(short, msg, from + 1);
    }
  }

  lemma SliceInPrefix(short: bytes, msg: bytes, i: nat, j: nat)
    requires short <= msg && i <= j <= |short|
    ensures short[i..j] == msg[i..j]
  {
  }

  lemma NextAgentInPrefix(short: bytes, msg: bytes, offset: nat, uuid: u16, name: bytes)
    requires short <= msg && NextAgent(short, offset, uuid, name).Found?
    ensures NextAgent(msg, offset, uuid, name) == NextAgent(short, offset, uuid, name)
  {
    FindInPrefix(short, msg, offset + 2);
    SliceInPrefix(short, msg, offset + 2, Find(short, offset + 2).value);
  }

  lemma NextRecordInPrefix(short: bytes, msg: bytes, offset: nat)
    requires short <= msg && NextRecord(short, offset).Header?
    ensures NextRecord(msg, offset) == NextRecord(short, offset)
  {
    FindInPrefix(short, msg, offset + 2);
    SliceInPrefix(short, msg, offset + 2, Find(short, offset + 2).value);
  }

  lemma {:induction false} AgentsInPrefix(short: bytes, msg: bytes, offset: nat, n: nat, uuid: u16, name: bytes)
    requires short <= msg
    ensures ParseAgents(short, offset, n, uuid, name).services <= ParseAgents(msg, offset, n, uuid, name).services
    ensures ParseAgents(short, offset, n, uuid, name).complete
        ==> ParseAgents(short, offset, n, uuid, name) == ParseAgents(msg, offset, n, uuid, name)
    decreases n
  {
    var step := NextAgent(short, offset, uuid, name);
    if n > 0 && step.Found? {
      NextAgentInPrefix(short, msg, offset, uuid, name);
      AgentsInPrefix(short, msg, step.offset, n - 1, uuid, name);
    }
  }

  lemma PrefixJoin(a: seq<Service>, b: seq<Service>, c: seq<Service>, d: seq<Service>)
    requires (a == c && b <= d) || (a <= c && b == [])
    ensures a + b <= c + d
  {
  }

  lemma {:induction false} RecordsInPrefix(short: bytes, msg: bytes, offset: nat, n: nat)
    requires short <= msg
    ensures ParseRecords(short, offset, n) <= ParseRecords(msg, offset, n)
    decreases n
  {
    hide ParseAgents, NextRecord;
    var head := NextRecord(short, offset);
    if n > 0 && head.Header? {
      NextRecordInPrefix(short, msg, offset);
      AgentsInPrefix(short, msg, head.offset, head.nAgents, head.uuid, head.name);
      var a := ParseAgents(short, head.offset, head.nAgents, head.uuid, head.name);
      var b := ParseAgents(msg, head.offset, head.nAgents, head.uuid, head.name);
      if a.complete {
        RecordsInPrefix(short, msg, a.offset, n - 1);
      } else {
        DesyncStops(short, head.offset, head.nAgents, head.uuid, head.name);
      }
      PrefixJoin(a.services, ParseRecords(short, a.offset, n - 1), b.services, ParseRecords(msg, b.offset, n - 1));
    }
  }

  /** A message cut off anywhere yields a prefix of the services of the whole message. */
  lemma TruncationKeepsPrefix(short: bytes, msg: bytes)
    requires short <= msg
    ensures Parse(short) <= Parse(msg)
  {
    hide ParseRecords;
    if |short| >= 2 && CountAt(msg[1]) + 2 <= |short| {
      RecordsInPrefix(short, msg, CountAt(msg[1]) + 2, U16At(msg, CountAt(msg[1])));
    }
  }

  // ---------- Size ----------

  lemma {:induction false} AgentsTakeRoom(msg: bytes, offset: nat, n: nat, uuid: u16, name: bytes)
    requires offset <= |msg|
    ensures var r := ParseAgents(msg, offset, n, uuid, name);
      offset + 8 * |r.services| <= r.offset <= |msg|
    decreases n
  {
    var step := NextAgent(msg, offset, uuid, name);
    if n > 0 && step.Found? {
      AgentsTakeRoom(msg, step.offset, n - 1, uuid, name);
    }
  }

  lemma {:induction false} RecordsTakeRoom(msg: bytes, offset: nat, n: nat)
    requires offset <= |msg|
    ensures ParseRecords(msg, offset, n) != [] ==> offset + 5 + 8 * |ParseRecords(msg, offset, n)| <= |msg|
    decreases n
  {
    var head := NextRecord(msg, offset);
    if n > 0 && head.Header? {
      AgentsTakeRoom(msg, head.offset, head.nAgents, head.uuid, head.name);
      RecordsTakeRoom(msg, ParseAgents(msg, head.offset, head.nAgents, head.uuid, head.name).offset, n - 1);
    }
  }

  /** Services are backed by octets: at least 8 each, besides the 4-octet header and one 5-octet record head. */
  lemma ServicesTakeRoom(msg: bytes)
    ensures Parse(msg) != [] ==> 9 + 8 * |Parse(msg)| <= |msg|
  {
    if |msg| >= 2 && CountAt(msg[1]) + 2 <= |msg| {
      RecordsTakeRoom(msg, CountAt(msg[1]) + 2, U16At(msg, CountAt(msg[1])));
    }
  }

  // ---------- The format, as an encoder ----------

  datatype Agent = Agent(component: u16, profile: Name, asp: u16, role: byte, timeout: u16)

  datatype RecordData = Record(uuid: u16, name: Name, agents: seq<Agent>)

  type Record = r: RecordData | |r.agents| < 0x1_0000 witness Record(0, [], [])

  function EncodeAgent(a: Agent): (b: bytes)
    ensures |b| == 8 + |a.profile|
  {
    Be16(a.component) + (Terminated(a.profile) + (Be16(a.asp) + ([a.role] + Be16(a.timeout))))
  }

  function EncodeAgents(agents: seq<Agent>): bytes {
    if agents == [] then [] else EncodeAgent(agents[0]) + EncodeAgents(agents[1..])
  }

  function EncodeRecord(r: Record): (b: bytes)
    ensures |b| == 5 + |r.name| + |EncodeAgents(r.agents)|
  {
    Be16(r.uuid) + (Terminated(r.name) + (Be16(|r.agents|) + EncodeAgents(r.agents)))
  }

  function EncodeRecords(records: seq<Record>): bytes {
    if records == [] then [] else EncodeRecord(records[0]) + EncodeRecords(records[1..])
  }

  function Encode(queryType: byte, checksum: u32, records: seq<Record>): bytes
    requires |records| < 0x1_0000
  {
    ResponseHead(queryType, checksum) + (Be16(|records|) + EncodeRecords(records))
  }

  function ResponseHead(queryType: byte, checksum: u32): (b: bytes)
    ensures |b| == CountAt(queryType)
  {
    [MSG_CAPEX_RESPONSE, queryType] + if queryType == 2 || queryType == 3 then Be32(checksum) else []
  }

  function ServiceOf(uuid: u16, name: bytes, a: Agent): Service {
    Service(uuid, name, a.component, a.profile, a.asp, a.role, a.timeout)
  }

  function ServicesOf(uuid: u16, name: bytes, agents: seq<Agent>): seq<Service> {
    if agents == [] then [] else [ServiceOf(uuid, name, agents[0])] + ServicesOf(uuid, name, agents[1..])
  }

  function AllServices(records: seq<Record>): seq<Service> {
    if records == [] then []
    else ServicesOf(records[0].uuid, records[0].name, records[0].agents) + AllServices(records[1..])
  }

  lemma AgentAt(msg: bytes, i: nat, a: Agent, uuid: u16, name: bytes)
    requires At(msg, i, EncodeAgent(a))
    ensures NextAgent(msg, i, uuid, name) == Found(ServiceOf(uuid, name, a), i + |EncodeAgent(a)|)
  {
    hide At, Find, U16At;
    var last := Be16(a.timeout);
    var role := [a.role] + last;
    var asp := Be16(a.asp) + role;
    var end := i + 2 + |a.profile|;
    AtSplit(msg, i, Be16(a.component), Terminated(a.profile) + asp);
    AtSplit(msg, i + 2, Terminated(a.profile), asp);
    AtSplit(msg, end + 1, Be16(a.asp), role);
    AtSplit(msg, end + 3, [a.role], last);
    AtU16(msg, i, a.component);
    AtName(msg, i + 2, a.profile);
    AtU16(msg, end + 1, a.asp);
    AtByte(msg, end + 3, a.role);
    AtU16(msg, end + 4, a.timeout);
  }

  lemma {:induction false} AgentsAt(msg: bytes, i: nat, agents: seq<Agent>, uuid: u16, name: bytes)
    requires At(msg, i, EncodeAgents(agents))
    ensures ParseAgents(msg, i, |agents|, uuid, name) == Agents(ServicesOf(uuid, name, agents), i + |EncodeAgents(agents)|, true)
    decreases |agents|
  {
    hide At, NextAgent;
    if agents != [] {
      var first := EncodeAgent(agents[0]);
      AtSplit(msg, i, first, EncodeAgents(agents[1..]));
      AgentAt(msg, i, agents[0], uuid, name);
      AgentsAt(msg, i + |first|, agents[1..], uuid, name);
    }
  }

  lemma RecordAt(msg: bytes, i: nat, r: Record)
    requires At(msg, i, EncodeRecord(r))
    ensures NextRecord(msg, i) == Header(r.uuid, r.name, |r.agents|, i + 5 + |r.name|)
    ensures At(msg, i + 5 + |r.name|, EncodeAgents(r.agents))
  {
    hide At, Find, U16At, EncodeAgents;
    var agents := EncodeAgents(r.agents);
    var count := Be16(|r.agents|) + agents;
    AtSplit(msg, i, Be16(r.uuid), Terminated(r.name) + count);
    AtSplit(msg, i + 2, Terminated(r.name), count);
    AtSplit(msg, i + 3 + |r.name|, Be16(|r.agents|), agents);
    AtU16(msg, i, r.uuid);
    AtName(msg, i + 2, r.name);
    AtU16(msg, i + 3 + |r.name|, |r.agents|);
  }

  lemma {:induction false} RecordsAt(msg: bytes, i: nat, records: seq<Record>)
    requires At(msg, i, EncodeRecords(records))
    ensures ParseRecords(msg, i, |records|) == AllServices(records)
    decreases |records|
  {
    hide ParseAgents, NextRecord, Find, EncodeRecord, EncodeAgents, ServicesOf, At;
    if records != [] {
      var r := records[0];
      var first := EncodeRecord(r);
      AtSplit(msg, i, first, EncodeRecords(records[1..]));
      RecordAt(msg, i, r);
      var start := i + 5 + |r.name|;
      AgentsAt(msg, start, r.agents, r.uuid, r.name);
      RecordsAt(msg, i + |first|, records[1..]);
    }
  }

  /** Whatever octets the fields hold, and whatever follows, parsing an encoded response gives back its services. */
  lemma RoundTrip(queryType: byte, checksum: u32, records: seq<Record>, after: bytes)
    requires |records| < 0x1_0000
    ensures Parse(Encode(queryType, checksum, records) + after) == AllServices(records)
  {
    AtWhole(Encode(queryType, checksum, records), after);
    ResponseAt(Encode(queryType, checksum, records) + after, queryType, checksum, records);
  }

  lemma ParseFromCount(msg: bytes)
    requires |msg| >= 2 && msg[0] == MSG_CAPEX_RESPONSE && CountAt(msg[1]) + 2 <= |msg|
    ensures Parse(msg) == ParseRecords(msg, CountAt(msg[1]) + 2, U16At(msg, CountAt(msg[1])))
  {
  }

  lemma ResponseParts(msg: bytes, queryType: byte, checksum: u32, records: seq<Record>)
    requires |records| < 0x1_0000 && At(msg, 0, Encode(queryType, checksum, records))
    ensures var at := CountAt(queryType);
      && At(msg, 0, [MSG_CAPEX_RESPONSE]) && At(msg, 1, [queryType])
      && At(msg, at, Be16(|records|)) && At(msg, at + 2, EncodeRecords(records))
  {
    hide At, EncodeRecords, Be16, Be32;
    var at := CountAt(queryType);
    var checked := if queryType == 2 || queryType == 3 then Be32(checksum) else [];
    var body := Be16(|records|) + EncodeRecords(records);
    assert ResponseHead(queryType, checksum) == [MSG_CAPEX_RESPONSE] + ([queryType] + checked);
    AtSplit(msg, 0, ResponseHead(queryType, checksum), body);
    AtSplit(msg, 0, [MSG_CAPEX_RESPONSE], [queryType] + checked);
    AtSplit(msg, 1, [queryType], checked);
    AtSplit(msg, at, Be16(|records|), EncodeRecords(records));
  }

  lemma ResponseAt(msg: bytes, queryType: byte, checksum: u32, records: seq<Record>)
    requires |records| < 0x1_0000 && At(msg, 0, Encode(queryType, checksum, records))
    ensures Parse(msg) == AllServices(records)
  {
    hide At, Encode, Parse, ParseRecords, EncodeRecords, AllServices, U16At, Be16;
    var at := CountAt(queryType);
    ResponseParts(msg, queryType, checksum, records);
    AtByte(msg, 0, MSG_CAPEX_RESPONSE);
    AtByte(msg, 1, queryType);
    AtU16(msg, at, |records|);
    ParseFromCount(msg);
    RecordsAt(msg, at + 2, records);
  }

  /** Every octet of the format: words have their high octet first. */
  lemma FormatOctets(a: Agent, r: Record)
    ensures EncodeAgent(a)
         == [a.component / 0x100, a.component % 0x100] + a.profile
            + [0x3B, a.asp / 0x100, a.asp % 0x100, a.role, a.timeout / 0x100, a.timeout % 0x100]
    ensures EncodeRecord(r)
         == [r.uuid / 0x100, r.uuid % 0x100] + r.name + [0x3B, |r.agents| / 0x100, |r.agents| % 0x100] + EncodeAgents(r.agents)
  {
    hide EncodeAgents;
  }

  // ---------- Messages that are cut off, exactly ----------

  /** How many leading agents stand wholly in the first `room` octets. */
  function WholeAgents(agents: seq<Agent>, room: int): (k: nat)
    ensures k <= |agents|
  {
    if agents == [] || |EncodeAgent(agents[0])| > room then 0
    else 1 + WholeAgents(agents[1..], room - |EncodeAgent(agents[0])|)
  }

  /** How many leading services do. */
  function WholeServices(records: seq<Record>, room: int): nat {
    if records == [] || 5 + |records[0].name| > room then 0
    else
      var k := WholeAgents(records[0].agents, room - 5 - |records[0].name|);
      if k < |records[0].agents| then k else k + WholeServices(records[1..], room - |EncodeRecord(records[0])|)
  }

  lemma AtInPrefix(short: bytes, msg: bytes, i: nat, part: bytes)
    requires short <= msg && At(msg, i, part) && i + |part| <= |short|
    ensures At(short, i, part)
  {
  }

  lemma CutAgent(short: bytes, msg: bytes, i: nat, a: Agent, uuid: u16, name: bytes)
    requires short <= msg && At(msg, i, EncodeAgent(a)) && |short| < i + |EncodeAgent(a)|
    ensures NextAgent(short, i, uuid, name).Broken?
  {
    hide At, U16At, Find;
    FindInPrefix(short, msg, i + 2);
    AtSplit(msg, i, Be16(a.component), Terminated(a.profile) + (Be16(a.asp) + ([a.role] + Be16(a.timeout))));
    AtSplit(msg, i + 2, Terminated(a.profile), Be16(a.asp) + ([a.role] + Be16(a.timeout)));
    AtName(msg, i + 2, a.profile);
  }

  lemma CutRecord(short: bytes, msg: bytes, i: nat, r: Record)
    requires short <= msg && At(msg, i, EncodeRecord(r)) && |short| < i + 5 + |r.name|
    ensures NextRecord(short, i) == Stop
  {
    hide At, U16At, Find, EncodeAgents;
    FindInPrefix(short, msg, i + 2);
    AtSplit(msg, i, Be16(r.uuid), Terminated(r.name) + (Be16(|r.agents|) + EncodeAgents(r.agents)));
    AtSplit(msg, i + 2, Terminated(r.name), Be16(|r.agents|) + EncodeAgents(r.agents));
    AtName(msg, i + 2, r.name);
  }

  lemma ServicesOfSize(uuid: u16, name: bytes, agents: seq<Agent>)
    ensures |ServicesOf(uuid, name, agents)| == |agents|
  {
  }

  lemma {:induction false} AgentsCut(short: bytes, msg: bytes, i: nat, agents: seq<Agent>, uuid: u16, name: bytes)
    requires short <= msg && At(msg, i, EncodeAgents(agents)) && i <= |short|
    ensures |ServicesOf(uuid, name, agents)| == |agents|
    ensures var k, r := WholeAgents(agents, |short| - i), ParseAgents(short, i, |agents|, uuid, name);
      && r.services == ServicesOf(uuid, name, agents)[..k] && (r.complete <==> k == |agents|)
      && (r.complete ==> r.offset == i + |EncodeAgents(agents)| && r.offset <= |short|)
    decreases |agents|
  {
    hide At, NextAgent, EncodeAgent, ServiceOf;
    ServicesOfSize(uuid, name, agents);
    if agents != [] {
      var first := EncodeAgent(agents[0]);
      AtSplit(msg, i, first, EncodeAgents(agents[1..]));
      if i + |first| <= |short| {
        AtInPrefix(short, msg, i, first);
        AgentAt(short, i, agents[0], uuid, name);
        AgentsCut(short, msg, i + |first|, agents[1..], uuid, name);
      } else {
        CutAgent(short, msg, i, agents[0], uuid, name);
      }
    }
  }

  lemma {:induction false} RecordsCut(short: bytes, msg: bytes, i: nat, records: seq<Record>)
    requires short <= msg && At(msg, i, EncodeRecords(records)) && i <= |short|
    ensures WholeServices(records, |short| - i) <= |AllServices(records)|
    ensures ParseRecords(short, i, |records|) == AllServices(records)[..WholeServices(records, |short| - i)]
    decreases |records|
  {
    hide At, NextRecord, ParseAgents, EncodeRecord, EncodeAgents, ServicesOf, WholeAgents;
    if records != [] {
      var r := records[0];
      var first, start := EncodeRecord(r), i + 5 + |r.name|;
      AtSplit(msg, i, first, EncodeRecords(records[1..]));
      if start > |short| {
        CutRecord(short, msg, i, r);
      } else {
        RecordAt(msg, i, r);
        HeadInPrefix(short, msg, i, r);
        AgentsCut(short, msg, start, r.agents, r.uuid, r.name);
        if WholeAgents(r.agents, |short| - start) == |r.agents| {
          RecordsCut(short, msg, i + |first|, records[1..]);
        } else {
          DesyncStops(short, start, |r.agents|, r.uuid, r.name);
        }
      }
    }
  }

  lemma HeadInPrefix(short: bytes, msg: bytes, i: nat, r: Record)
    requires short <= msg && At(msg, i, EncodeRecord(r)) && i + 5 + |r.name| <= |short|
    ensures NextRecord(short, i) == Header(r.uuid, r.name, |r.agents|, i + 5 + |r.name|)
  {
    hide At, Find, U16At, EncodeAgents;
    var agents := EncodeAgents(r.agents);
    var count := Be16(|r.agents|) + agents;
    AtSplit(msg, i, Be16(r.uuid), Terminated(r.name) + count);
    AtSplit(msg, i + 2, Terminated(r.name), count);
    AtSplit(msg, i + 3 + |r.name|, Be16(|r.agents|), agents);
    AtInPrefix(short, msg, i, Be16(r.uuid));
    AtInPrefix(short, msg, i + 2, Terminated(r.name));
    AtInPrefix(short, msg, i + 3 + |r.name|, Be16(|r.agents|));
    AtU16(short, i, r.uuid);
    AtName(short, i + 2, r.name);
    AtU16(short, i + 3 + |r.name|, |r.agents|);
  }

  /**
   However much of a response arrives, exactly the services whose octets are all there are parsed: those before a break
   are kept. The records begin at 4, or at 8 in a response with a checksum.
   */
  lemma CutExactly(short: bytes, msg: bytes, queryType: byte, checksum: u32, records: seq<Record>)
    requires |records| < 0x1_0000 && short <= msg && At(msg, 0, Encode(queryType, checksum, records))
    ensures var start := if queryType == 2 || queryType == 3 then 8 else 4;
      var k := WholeServices(records, |short| - start);
      k <= |AllServices(records)| && Parse(short) == AllServices(records)[..k]
  {
    hide At, Encode, Parse, ParseRecords, EncodeRecords, AllServices, WholeServices, U16At, Be16;
    var at := CountAt(queryType);
    ResponseParts(msg, queryType, checksum, records);
    if |short| >= at + 2 {
      AtInPrefix(short, msg, 0, [MSG_CAPEX_RESPONSE]);
      AtInPrefix(short, msg, 1, [queryType]);
      AtInPrefix(short, msg, at, Be16(|records|));
      AtByte(short, 0, MSG_CAPEX_RESPONSE);
      AtByte(short, 1, queryType);
      AtU16(short, at, |records|);
      ParseFromCount(short);
      RecordsCut(short, msg, at + 2, records);
    } else {
      TooShort(short, msg, queryType);
      NothingWhole(records, |short| - at - 2);
    }
  }

  lemma NothingWhole(records: seq<Record>, room: int)
    requires room < 0
    ensures WholeServices(records, room) == 0
  {
  }

  lemma TooShort(short: bytes, msg: bytes, queryType: byte)
    requires short <= msg && |short| < CountAt(queryType) + 2 && At(msg, 1, [queryType])
    ensures Parse(short) == []
  {
    AtByte(msg, 1, queryType);
  }

  // ---------- What the program sends ----------

  /** The endpoint and the one service the program advertises. */
  const OWN_RECORD: Record := Record(0, OWN_NAME, [Agent(0, OWN_PROFILE, ASP_VERSION, ROLE_PROVIDER, 10)])

  const OWN_NAME: Name := (NoSeparatorInOwnNames(); SERVER_FRIENDLY_NAME)

  const OWN_PROFILE: Name := (NoSeparatorInOwnNames(); DEVICE_PROFILE)

  lemma NoSeparatorInOwnNames()
    ensures FIELD_SEPARATOR !in SERVER_FRIENDLY_NAME && FIELD_SEPARATOR !in DEVICE_PROFILE
  {
  }

  method MakeCapexResponse(queryType: byte, checksum: u32) returns (frame: bytes)
    ensures frame == Encode(queryType, checksum, [OWN_RECORD])
  {
    hide Be16, Be32, Terminated, SERVER_FRIENDLY_NAME, DEVICE_PROFILE;
    frame := [MSG_CAPEX_RESPONSE];
    frame := frame + [queryType];
    if queryType == 2 || queryType == 3 {
      frame := frame + Be32(checksum);
    }
    assert frame == ResponseHead(queryType, checksum);
    ghost var head := frame;
    frame := frame + Be16(1);
    frame := frame + Be16(0);
    frame := frame + Terminated(SERVER_FRIENDLY_NAME);
    frame := frame + Be16(1);
    ghost var start := frame;
    frame := frame + Be16(0);
    frame := frame + Terminated(DEVICE_PROFILE);
    frame := frame + Be16(ASP_VERSION);
    frame := frame + [ROLE_PROVIDER];
    frame := frame + Be16(10);
    assert frame == start + EncodeAgent(OWN_RECORD.agents[0]);
    assert EncodeAgents(OWN_RECORD.agents) == EncodeAgent(OWN_RECORD.agents[0]);
    assert frame == head + (Be16(1) + EncodeRecord(OWN_RECORD));
    assert EncodeRecords([OWN_RECORD]) == EncodeRecord(OWN_RECORD);
  }

  function EncodeNames(names: seq<bytes>): bytes {
    if names == [] then [] else Terminated(names[0]) + EncodeNames(names[1..])
  }

  lemma {:induction false} NamesLast(names: seq<bytes>, name: bytes)
    ensures EncodeNames(names + [name]) == EncodeNames(names) + Terminated(name)
    decreases |names|
  {
    hide Terminated;
    if names == [] {
      assert [name][1..] == [];
    } else {
      assert (names + [name])[1..] == names[1..] + [name];
      NamesLast(names[1..], name);
    }
  }

  function EncodeQuery(queryType: byte, checksum: u32, profiles: seq<bytes>): bytes
    requires |profiles| < 0x100
  {
    [MSG_CAPEX_QUERY] + ([queryType] + ((if queryType == 2 || queryType == 3 then Be32(checksum) else [])
    + ([|profiles|] + EncodeNames(profiles))))
  }

  /** `n` terminated names from position `i` on. */
  function NamesFrom(msg: bytes, i: nat, n: nat): Option<seq<bytes>>
    decreases n
  {
    if n == 0 then Some([])
    else
      match Find(msg, i)
      case None => None
      case Some(end) =>
        match NamesFrom(msg, end + 1, n - 1)
        case None => None
        case Some(rest) => Some([msg[i..end]] + rest)
  }

  lemma {:induction false} NamesAt(msg: bytes, i: nat, names: seq<Name>)
    requires At(msg, i, EncodeNames(names))
    ensures NamesFrom(msg, i, |names|) == Some(names)
    decreases |names|
  {
    hide At, Find, Terminated;
    if names != [] {
      AtSplit(msg, i, Terminated(names[0]), EncodeNames(names[1..]));
      AtName(msg, i, names[0]);
      NamesAt(msg, i + |names[0]| + 1, names[1..]);
      assert [names[0]] + names[1..] == names;
    }
  }

  predicate NoSeparators(names: seq<bytes>) {
    forall i :: 0 <= i < |names| ==> FIELD_SEPARATOR !in names[i]
  }

  /** Names that are read never hold a terminator. */
  lemma {:induction false} NamesReadAreClean(msg: bytes, i: nat, n: nat)
    ensures NamesFrom(msg, i, n).Some? ==> NoSeparators(NamesFrom(msg, i, n).value)
    decreases n
  {
    if n > 0 && Find(msg, i).Some? {
      var end := Find(msg, i).value;
      FindIs(msg, i, end);
      NamesReadAreClean(msg, end + 1, n - 1);
    }
  }

  /**
   A query's octets tell its type, the number of its filter profiles and, for types 2 and 3, its checksum; they tell
   the profiles exactly when none of them holds a `;`.
   */
  lemma QueryRecoverable(queryType: byte, checksum: u32, profiles: seq<bytes>)
    requires |profiles| < 0x100
    ensures var msg, at := EncodeQuery(queryType, checksum, profiles), CountAt(queryType);
      |msg| > at && msg[0] == MSG_CAPEX_QUERY && msg[1] == queryType && msg[at] == |profiles|
      && (at == 6 ==> U32At(msg, 2) == checksum)
      && (NamesFrom(msg, at + 1, |profiles|) == Some(profiles) <==> NoSeparators(profiles))
  {
    hide At, NamesFrom, EncodeNames, U32At, Be32;
    var msg, at := EncodeQuery(queryType, checksum, profiles), CountAt(queryType);
    var checked := if queryType == 2 || queryType == 3 then Be32(checksum) else [];
    var tail := [|profiles|] + EncodeNames(profiles);
    assert msg + [] == msg;
    AtWhole(msg, []);
    AtSplit(msg, 0, [MSG_CAPEX_QUERY], [queryType] + (checked + tail));
    AtSplit(msg, 1, [queryType], checked + tail);
    AtSplit(msg, 2, checked, tail);
    AtSplit(msg, at, [|profiles|], EncodeNames(profiles));
    AtByte(msg, 0, MSG_CAPEX_QUERY);
    AtByte(msg, 1, queryType);
    AtByte(msg, at, |profiles|);
    NamesReadAreClean(msg, at + 1, |profiles|);
    if NoSeparators(profiles) {
      NamesAt(msg, at + 1, profiles);
    }
    if at == 6 {
      assert msg == [MSG_CAPEX_QUERY, queryType] + Be32(checksum) + tail;
      Be32At([MSG_CAPEX_QUERY, queryType], checksum, tail);
    }
  }

  /** `None` is the ValueError of a profile count that does not fit its octet. */
  method MakeCapexQuery(queryType: byte, checksum: u32, profiles: seq<bytes>) returns (r: Option<bytes>)
    ensures r == if |profiles| < 0x100 then Some(EncodeQuery(queryType, checksum, profiles)) else None
  {
    hide Be32, Terminated;
    var frame: bytes := [MSG_CAPEX_QUERY];
    frame := frame + [queryType];
    if queryType == 2 || queryType == 3 {
      frame := frame + Be32(checksum);
    }
    if |profiles| >= 0x100 {
      return None;
    }
    frame := frame + [|profiles|];
    ghost var head := frame;
    ghost var checked := if queryType == 2 || queryType == 3 then Be32(checksum) else [];
    assert head == [MSG_CAPEX_QUERY] + ([queryType] + (checked + [|profiles|]));
    for i := 0 to |profiles|
      invariant frame == head + EncodeNames(profiles[..i])
    {
      assert profiles[..i + 1] == profiles[..i] + [profiles[i]];
      NamesLast(profiles[..i], profiles[i]);
      frame := frame + Terminated(profiles[i]);
    }
    assert profiles[..|profiles|] == profiles;
    assert frame == [MSG_CAPEX_QUERY] + ([queryType] + (checked + ([|profiles|] + EncodeNames(profiles))));
    r := Some(frame);
  }

  /** The message for older cameras: 32-bit record count, two padding octets, role in the top bits of one octet. */
  function EncodeLegacy(name: bytes, profile: bytes): bytes {
    [MSG_CAPEX_RESPONSE_LEGACY] + (Be32(1) + (Be16(0) + (Terminated(name) + ([0x00] + LegacyAgents(profile)))))
  }

  function LegacyAgents(profile: bytes): (b: bytes)
    ensures |b| == 7 + |profile|
  {
    [0x01] + (Be16(0) + (Terminated(profile) + (Be16(ASP_VERSION) + [ROLE_PROVIDER * 64])))
  }

  function LegacyResponse(): bytes {
    EncodeLegacy(SERVER_FRIENDLY_NAME, DEVICE_PROFILE)
  }

  /** One record, and in it one service, read field by field up to the message's last octet. */
  predicate TellsLegacyService(m: bytes, name: bytes, profile: bytes) {
    var nameEnd := 7 + |name|;
    && |m| > nameEnd + 2 && m[0] == MSG_CAPEX_RESPONSE_LEGACY && U32At(m, 1) == 1
    && U16At(m, 5) == 0 && Find(m, 7) == Some(nameEnd) && m[7..nameEnd] == name && m[nameEnd + 1] == 0
    && TellsLegacyAgent(m, nameEnd + 2, profile)
  }

  predicate TellsLegacyAgent(m: bytes, i: nat, profile: bytes) {
    var profileEnd := i + 3 + |profile|;
    && |m| == profileEnd + 4 && m[i] == 1
    && U16At(m, i + 1) == 0 && Find(m, i + 3) == Some(profileEnd) && m[i + 3..profileEnd] == profile
    && U16At(m, profileEnd + 1) == ASP_VERSION && m[profileEnd + 3] / 64 == ROLE_PROVIDER && m[profileEnd + 3] % 64 == 0
  }

  lemma LegacyAgentAt(m: bytes, i: nat, profile: Name)
    requires At(m, i, LegacyAgents(profile)) && |m| == i + |LegacyAgents(profile)|
    ensures TellsLegacyAgent(m, i, profile)
  {
    hide At, Find, U16At, Be16, Terminated;
    var profileEnd := i + 3 + |profile|;
    var asp := Be16(ASP_VERSION) + [ROLE_PROVIDER * 64];
    AtSplit(m, i, [0x01], Be16(0) + (Terminated(profile) + asp));
    AtSplit(m, i + 1, Be16(0), Terminated(profile) + asp);
    AtSplit(m, i + 3, Terminated(profile), asp);
    AtSplit(m, profileEnd + 1, Be16(ASP_VERSION), [ROLE_PROVIDER * 64]);
    AtByte(m, i, 0x01);
    AtU16(m, i + 1, 0);
    AtName(m, i + 3, profile);
    AtU16(m, profileEnd + 1, ASP_VERSION);
    AtByte(m, profileEnd + 3, ROLE_PROVIDER * 64);
  }

  lemma LegacyTells(name: Name, profile: Name)
    ensures TellsLegacyService(EncodeLegacy(name, profile), name, profile)
  {
    hide At, Find, U16At, U32At, Be32, Be16, Terminated, LegacyAgents, TellsLegacyAgent;
    var m := EncodeLegacy(name, profile);
    var nameEnd := 7 + |name|;
    var rest := [0x00] + LegacyAgents(profile);
    var uuid := Be16(0) + (Terminated(name) + rest);
    assert m + [] == m;
    AtWhole(m, []);
    AtSplit(m, 0, [MSG_CAPEX_RESPONSE_LEGACY], Be32(1) + uuid);
    AtSplit(m, 1, Be32(1), uuid);
    AtSplit(m, 5, Be16(0), Terminated(name) + rest);
    AtSplit(m, 7, Terminated(name), rest);
    AtSplit(m, nameEnd + 1, [0x00], LegacyAgents(profile));
    AtByte(m, 0, MSG_CAPEX_RESPONSE_LEGACY);
    AtU32(m, 1, 1);
    AtU16(m, 5, 0);
    AtName(m, 7, name);
    AtByte(m, nameEnd + 1, 0);
    LegacyAgentAt(m, nameEnd + 2, profile);
  }

  /** The legacy response tells of the one service the program advertises. */
  lemma LegacyResponseTells()
    ensures TellsLegacyService(LegacyResponse(), SERVER_FRIENDLY_NAME, DEVICE_PROFILE)
  {
    hide TellsLegacyService, EncodeLegacy, Ascii, FIELD_SEPARATOR;
    NoSeparatorInOwnNames();
    LegacyTells(SERVER_FRIENDLY_NAME, DEVICE_PROFILE);
  }

  // ---------- Octet by octet ----------

  /** Every octet of the program's response; a checksum stands in it, high octet first, for query types 2 and 3. */
  lemma OwnResponseOctets(queryType: byte, checksum: u32)
    ensures Encode(queryType, checksum, [OWN_RECORD])
         == [2, queryType]
            + (if queryType == 2 || queryType == 3
               then [checksum / 0x100_0000, checksum / 0x1_0000 % 0x100, checksum / 0x100 % 0x100, checksum % 0x100] else [])
            + [0, 1, 0, 0] + Ascii("NX360_SERVER") + [0x3B, 0, 1, 0, 0] + Ascii("/system/DI_360_2D") + [0x3B, 1, 0, 2, 0, 10]
  {
    hide Ascii, Be32;
    OwnRecordOctets();
    Be32Octets(checksum);
    assert Be16(1) == [0, 1];
    assert EncodeRecords([OWN_RECORD]) == EncodeRecord(OWN_RECORD);
    assert ResponseHead(queryType, checksum)
        == [2, queryType]
           + (if queryType == 2 || queryType == 3
              then [checksum / 0x100_0000, checksum / 0x1_0000 % 0x100, checksum / 0x100 % 0x100, checksum % 0x100] else []);
  }

  lemma Be32Octets(v: u32)
    ensures Be32(v) == [v / 0x100_0000, v / 0x1_0000 % 0x100, v / 0x100 % 0x100, v % 0x100]
  {
  }

  lemma OwnRecordOctets()
    ensures EncodeRecord(OWN_RECORD)
         == [0, 0] + Ascii("NX360_SERVER") + [0x3B, 0, 1, 0, 0] + Ascii("/system/DI_360_2D") + [0x3B, 1, 0, 2, 0, 10]
  {
    hide Ascii;
    assert EncodeAgents(OWN_RECORD.agents) == EncodeAgent(OWN_RECORD.agents[0]);
    assert EncodeAgent(OWN_RECORD.agents[0]) == [0, 0] + Ascii("/system/DI_360_2D") + [0x3B, 1, 0, 2, 0, 10];
  }

  /** Every octet of the legacy response. */
  lemma LegacyOctets()
    ensures LegacyResponse()
         == [6, 0, 0, 0, 1, 0, 0] + Ascii("NX360_SERVER") + [0x3B, 0, 1, 0, 0] + Ascii("/system/DI_360_2D") + [0x3B, 1, 0, 128]
  {
    hide Ascii;
    assert LegacyAgents(DEVICE_PROFILE) == [1, 0, 0] + Ascii("/system/DI_360_2D") + [0x3B, 1, 0, 128];
    assert Be32(1) == [0, 0, 0, 1];
  }

  /** The octets that follow a query's head: each name and a `;`. */
  function NamesSize(names: seq<bytes>): nat {
    if names == [] then 0 else |names[0]| + 1 + NamesSize(names[1..])
  }

  lemma {:induction false} NamesSizeIs(names: seq<bytes>)
    ensures |EncodeNames(names)| == NamesSize(names)
  {
    if names != [] {
      NamesSizeIs(names[1..]);
    }
  }

  /** The head of a query, with its checksum for types 2 and 3 alone, and the length of it all. */
  lemma QueryOctets(queryType: byte, checksum: u32, profiles: seq<bytes>)
    requires |profiles| < 0x100
    ensures var m := EncodeQuery(queryType, checksum, profiles);
      if queryType == 2 || queryType == 3
      then |m| == 7 + NamesSize(profiles)
           && m[..7] == [1, queryType, checksum / 0x100_0000, checksum / 0x1_0000 % 0x100, checksum / 0x100 % 0x100, checksum % 0x100, |profiles|]
           && m[7..] == EncodeNames(profiles)
      else |m| == 3 + NamesSize(profiles) && m[..3] == [1, queryType, |profiles|] && m[3..] == EncodeNames(profiles)
  {
    hide Be32, EncodeNames, NamesSize;
    NamesSizeIs(profiles);
    Be32Octets(checksum);
  }

  lemma OwnMessagesAreShort(queryType: byte, checksum: u32)
    ensures |Encode(queryType, checksum, [OWN_RECORD])| < 0x100 && |LegacyResponse()| < 0x100
    ensures |EncodeQuery(queryType, checksum, [])| < 0x100
  {
    assert EncodeAgents(OWN_RECORD.agents) == EncodeAgent(OWN_RECORD.agents[0]);
    assert EncodeRecords([OWN_RECORD]) == EncodeRecord(OWN_RECORD);
  }

  /** The program's own response parses to the one service it advertises, for every query type. */
  lemma OwnResponseParses(queryType: byte, checksum: u32, after: bytes)
    ensures Parse(Encode(queryType, checksum, [OWN_RECORD]) + after)
         == [Service(0, SERVER_FRIENDLY_NAME, 0, DEVICE_PROFILE, ASP_VERSION, ROLE_PROVIDER, 10)]
  {
    hide Parse, Encode;
    RoundTrip(queryType, checksum, [OWN_RECORD], after);
    assert AllServices([OWN_RECORD]) == ServicesOf(0, OWN_NAME, OWN_RECORD.agents) + AllServices([]);
    assert ServicesOf(0, OWN_NAME, OWN_RECORD.agents) == [ServiceOf(0, OWN_NAME, OWN_RECORD.agents[0])];
  }
}
