/** Every capability response, however broken, is a whole one cut off: so what is parsed of any message is settled. */
module Completion {
  import opened Bytes
  import opened Capex

  // ---------- Putting octets together ----------

  lemma AtJoin(s: bytes, i: nat, a: bytes, b: bytes)
    requires At(s, i, a) && At(s, i + |a|, b)
    ensures At(s, i, a + b)
  {
    assert s[i..i + |a| + |b|] == s[i..i + |a|] + s[i + |a|..i + |a| + |b|];
  }

  lemma AtGrows(short: bytes, long: bytes, i: nat, part: bytes)
    requires short <= long && At(short, i, part)
    ensures At(long, i, part)
  {
    SliceInPrefix(short, long, i, i + |part|);
  }

  lemma AtEnd(s: bytes, i: nat)
    requires i <= |s|
    ensures At(s, i, [])
  {
  }

  lemma WordAt(s: bytes, i: nat)
    requires i + 2 <= |s|
    ensures At(s, i, Be16(U16At(s, i)))
  {
  }

  lemma HalvesOf(high: u16, low: u16, v: nat)
    requires v == 0x1_0000 * high + low
    ensures v / 0x1_0000 == high && v % 0x1_0000 == low
  {
  }

  lemma OctetsOf(high: byte, low: byte, v: nat)
    requires v == 0x100 * high as nat + low
    ensures v / 0x100 == high && v % 0x100 == low
  {
  }

  lemma LongAt(s: bytes, i: nat)
    requires i + 4 <= |s|
    ensures At(s, i, Be32(U32At(s, i)))
  {
    var v: u32, high: u16, low: u16 := U32At(s, i), U16At(s, i), U16At(s, i + 2);
    LongIs(s, i);
    HalvesOf(high, low, v);
    OctetsOf(s[i], s[i + 1], high);
    OctetsOf(s[i + 2], s[i + 3], low);
    Halves(v);
    assert Be32(v) == [s[i], s[i + 1], s[i + 2], s[i + 3]] by {
      hide U32At, U16At;
    }
  }

  lemma LongIs(s: bytes, i: nat)
    requires i + 4 <= |s|
    ensures U32At(s, i) == 0x1_0000 * U16At(s, i) + U16At(s, i + 2)
  {
  }

  lemma OctetAt(s: bytes, i: nat)
    requires i < |s|
    ensures At(s, i, [s[i]])
  {
  }

  /** What `n` more separators make of a message. */
  function Filled(msg: bytes, n: nat): (whole: bytes)
    ensures msg <= whole && |whole| == |msg| + n && forall i :: |msg| <= i < |whole| ==> whole[i] == FIELD_SEPARATOR
  {
    msg + seq(n, _ => FIELD_SEPARATOR)
  }

  lemma NameFits(s: bytes, i: nat, k: nat) returns (name: Name)
    requires i <= k < |s| && s[k] == FIELD_SEPARATOR
    ensures i + |name| <= k && At(s, i, Terminated(name))
  {
    var e := i;
    while s[e] != FIELD_SEPARATOR
      invariant i <= e <= k && FIELD_SEPARATOR !in s[i..e]
      decreases k - e
    {
      assert s[i..e + 1] == s[i..e] + [s[e]];
      e := e + 1;
    }
    name := s[i..e];
    OctetAt(s, e);
    AtJoin(s, i, name, [FIELD_SEPARATOR]);
  }

  // ---------- Filling up ----------

  lemma AgentFits(msg: bytes, i: nat) returns (whole: bytes, a: Agent)
    requires i <= |msg|
    ensures msg <= whole && At(whole, i, EncodeAgent(a))
  {
    hide At, Be16, U16At;
    whole := Filled(msg, 8);
    var k := if i + 2 <= |msg| then |msg| else i + 2;
    var name := NameFits(whole, i + 2, k);
    var at := i + 3 + |name|;
    a := Agent(U16At(whole, i), name, U16At(whole, at), whole[at + 2], U16At(whole, at + 3));
    WordAt(whole, i);
    WordAt(whole, at);
    OctetAt(whole, at + 2);
    WordAt(whole, at + 3);
    AtJoin(whole, at + 2, [a.role], Be16(a.timeout));
    AtJoin(whole, at, Be16(a.asp), [a.role] + Be16(a.timeout));
    AtJoin(whole, i + 2, Terminated(name), Be16(a.asp) + ([a.role] + Be16(a.timeout)));
    AtJoin(whole, i, Be16(a.component), Terminated(name) + (Be16(a.asp) + ([a.role] + Be16(a.timeout))));
  }

  lemma {:induction false} AgentsFit(msg: bytes, i: nat, n: nat) returns (whole: bytes, agents: seq<Agent>)
    requires i <= |msg|
    ensures msg <= whole && |agents| == n && At(whole, i, EncodeAgents(agents))
    decreases n
  {
    hide EncodeAgent;
    if n == 0 {
      whole, agents := msg, [];
    } else {
      var more, a := AgentFits(msg, i);
      var rest;
      whole, rest := AgentsFit(more, i + |EncodeAgent(a)|, n - 1);
      agents := [a] + rest;
      assert agents[1..] == rest;
      AtGrows(more, whole, i, EncodeAgent(a));
      AtJoin(whole, i, EncodeAgent(a), EncodeAgents(rest));
    }
  }

  lemma RecordFits(msg: bytes, i: nat) returns (whole: bytes, r: Record)
    requires i <= |msg|
    ensures msg <= whole && At(whole, i, EncodeRecord(r))
  {
    hide At, Be16, U16At, EncodeAgents;
    var more := Filled(msg, 5);
    var k := if i + 2 <= |msg| then |msg| else i + 2;
    var name := NameFits(more, i + 2, k);
    var at := i + 3 + |name|;
    var uuid, n := U16At(more, i), U16At(more, at);
    WordAt(more, i);
    WordAt(more, at);
    var agents;
    whole, agents := AgentsFit(more, at + 2, n);
    r := Record(uuid, name, agents);
    AtGrows(more, whole, i, Be16(uuid));
    AtGrows(more, whole, i + 2, Terminated(name));
    AtGrows(more, whole, at, Be16(n));
    AtJoin(whole, at, Be16(n), EncodeAgents(agents));
    AtJoin(whole, i + 2, Terminated(name), Be16(n) + EncodeAgents(agents));
    AtJoin(whole, i, Be16(uuid), Terminated(name) + (Be16(n) + EncodeAgents(agents)));
  }

  lemma {:induction false} RecordsFit(msg: bytes, i: nat, n: nat) returns (whole: bytes, records: seq<Record>)
    requires i <= |msg|
    ensures msg <= whole && |records| == n && At(whole, i, EncodeRecords(records))
    decreases n
  {
    hide EncodeRecord;
    if n == 0 {
      whole, records := msg, [];
    } else {
      var more, r := RecordFits(msg, i);
      var rest;
      whole, rest := RecordsFit(more, i + |EncodeRecord(r)|, n - 1);
      records := [r] + rest;
      assert records[1..] == rest;
      AtGrows(more, whole, i, EncodeRecord(r));
      AtJoin(whole, i, EncodeRecord(r), EncodeRecords(rest));
    }
  }

  lemma HeadAt(msg: bytes) returns (checksum: u32)
    requires |msg| >= 2 && msg[0] == 2 && |msg| >= CountAt(msg[1])
    ensures At(msg, 0, ResponseHead(msg[1], checksum))
  {
    hide At, Be32, U32At;
    OctetAt(msg, 0);
    OctetAt(msg, 1);
    AtJoin(msg, 0, [2], [msg[1]]);
    assert [2] + [msg[1]] == [2, msg[1]];
    if msg[1] == 2 || msg[1] == 3 {
      checksum := U32At(msg, 2);
      LongAt(msg, 2);
      AtJoin(msg, 0, [2, msg[1]], Be32(checksum));
    } else {
      checksum := 0;
      assert [2, msg[1]] + [] == [2, msg[1]];
    }
  }

  /** Every message of type 2 that holds a query type is the beginning of a whole response. */
  lemma ResponseFits(msg: bytes) returns (whole: bytes, checksum: u32, records: seq<Record>)
    requires |msg| >= 2 && msg[0] == 2
    ensures msg <= whole && |records| < 0x1_0000 && At(whole, 0, Encode(msg[1], checksum, records))
  {
    hide At, EncodeRecords, Be16, U16At, ResponseHead;
    var more, at := Filled(msg, 6), CountAt(msg[1]);
    checksum := HeadAt(more);
    var n := U16At(more, at);
    WordAt(more, at);
    whole, records := RecordsFit(more, at + 2, n);
    AtGrows(more, whole, 0, ResponseHead(msg[1], checksum));
    AtGrows(more, whole, at, Be16(n));
    AtJoin(whole, at, Be16(n), EncodeRecords(records));
    AtJoin(whole, 0, ResponseHead(msg[1], checksum), Be16(n) + EncodeRecords(records));
  }

  // ---------- Every message ----------

  /** `records` are what a whole response tells that begins with `msg`. */
  ghost predicate Begins(msg: bytes, records: seq<Record>) {
    |msg| >= 2 && |records| < 0x1_0000
    && exists whole: bytes, checksum: u32 :: msg <= whole && At(whole, 0, Encode(msg[1], checksum, records))
  }

  /** Of `records` those services that lie whole in the first `size` octets of their response. */
  function Told(queryType: byte, size: nat, records: seq<Record>): seq<Service> {
    var k := WholeServices(records, size - if queryType == 2 || queryType == 3 then 8 else 4);
    if k <= |AllServices(records)| then AllServices(records)[..k] else []
  }

  /**
   For every message: without type 2 and a query type nothing is parsed; with them it is the beginning of a whole
   response, and whichever that is, exactly the services lying whole in the message are parsed.
   */
  lemma ParseExactly(msg: bytes)
    ensures |msg| < 2 || msg[0] != 2 ==> Parse(msg) == []
    ensures |msg| >= 2 && msg[0] == 2 ==> exists records :: Begins(msg, records)
    ensures |msg| >= 2 && msg[0] == 2 ==> forall records :: Begins(msg, records) ==> Parse(msg) == Told(msg[1], |msg|, records)
  {
    hide Encode, At, AllServices, WholeServices, ParseRecords;
    if |msg| >= 2 && msg[0] == 2 {
      var whole, checksum, records := ResponseFits(msg);
      assert Begins(msg, records);
      forall records | Begins(msg, records)
        ensures Parse(msg) == Told(msg[1], |msg|, records)
      {
        var whole: bytes, checksum: u32 :| msg <= whole && At(whole, 0, Encode(msg[1], checksum, records));
        CutExactly(msg, whole, msg[1], checksum, records);
      }
    }
  }
}
