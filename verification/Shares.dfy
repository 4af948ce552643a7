/**
 * What one packet is worth to one rule, read off the packet, the rule and the detectors'
 * answers; and what that makes of the counters over a trace.
 */
module Shares {
  import opened Base
  import opened Client
  import opened Rules
  import opened Counters
  import opened Flow
  import opened Dispatch
  import opened Connections

  predicate OnPort(r: Rule, port: u16) {
    r.ports.None? || port in r.ports.value
  }

  /** The rule has no match expression, or it holds of this part of the packet. */
  predicate Passes(env: Env, r: Rule, p: Packet, part: Unit) {
    r.program.None? || env.eval(r.program.value, Context(p.client, p.flow.dport, part))
  }

  /** One unit of `size` bytes: one request, or its bytes. */
  function Worth(r: Rule, client: ClientId, size: nat): seq<Added> {
    match r.metric
    case Requests => [Added(client, r.id, Metric.Requests, 1)]
    case Bytes => [Added(client, r.id, Metric.Bytes, Min(U64_MAX, size))]
    case Connections => []
  }

  function LinesWorth(env: Env, r: Rule, p: Packet, lines: seq<WiLine>): seq<Added> {
    if lines == [] then []
    else
      var line := lines[0];
      (if Passes(env, r, p, Line(line.prefix, line.throttle, line.command))
       then Worth(r, p.client, |line.command|) else [])
      + LinesWorth(env, r, p, lines[1..])
  }

  function RecordsWorth(env: Env, r: Rule, p: Packet, records: seq<Z21.Record>): seq<Added> {
    if records == [] then []
    else
      var rec := records[0];
      (if Passes(env, r, p, LanRecord(rec.header, rec.xheader, rec.dataLen))
       then Worth(r, p.client, rec.dataLen) else [])
      + RecordsWorth(env, r, p, records[1..])
  }

  /** What a packet is worth to a Requests or Bytes rule, protocol by protocol. */
  function Share(env: Env, r: Rule, p: Packet, isWs: bool): seq<Added> {
    if !OnPort(r, p.flow.dport) then []
    else
      match r.protocol
      case Tcp =>
        if p.transport.OverTcp? && r.metric == Metric.Bytes && p.payload != [] && Passes(env, r, p, Plain)
        then Worth(r, p.client, |p.payload|) else []
      case Udp =>
        if p.transport.OverUdp? && r.metric == Metric.Bytes && p.payload != [] && Passes(env, r, p, Plain)
        then Worth(r, p.client, |p.payload|) else []
      case Http =>
        var http := env.http(p.payload);
        if p.transport.OverTcp? && !isWs && http.Some? && !http.value.upgradeWs
           && Passes(env, r, p, Request(http.value.verb, http.value.path))
        then Worth(r, p.client, |p.payload|) else []
      case WebSocket =>
        var f := env.frame(p.payload);
        if p.transport.OverTcp? && isWs && f.Some?
           && Passes(env, r, p, Frame(f.value.fin, f.value.opcode, f.value.payloadLen))
        then Worth(r, p.client, |p.payload|) else []
      case Withrottle =>
        if p.transport.OverTcp? && !isWs && env.http(p.payload).None?
        then LinesWorth(env, r, p, env.lines(p.payload)) else []
      case Z21 =>
        if p.transport.OverUdp? then RecordsWorth(env, r, p, Z21.Parse(p.payload)) else []
  }

  // ---- one packet -----------------------------------------------------------------------------

  lemma {:induction false} PartsAppend(env: Env, r: Rule, client: ClientId, port: u16, us: seq<Parsed>, u: Parsed)
    ensures RuleParts(env, r, client, port, [u] + us)
         == PartOne(env, r, client, port, u) + RuleParts(env, r, client, port, us)
  {
    hide PartOne;
    if us == [] {
      assert [u] + us == [u] && [u][..0] == [];
      assert RuleParts(env, r, client, port, [u])
        == RuleParts(env, r, client, port, []) + PartOne(env, r, client, port, u);
    } else {
      var k := |us| - 1;
      assert ([u] + us)[..|us|] == [u] + us[..k] && ([u] + us)[|us|] == us[k];
      PartsAppend(env, r, client, port, us[..k], u);
    }
  }

  lemma {:induction false} LinesAre(env: Env, r: Rule, p: Packet, lines: seq<WiLine>)
    ensures RuleParts(env, r, p.client, p.flow.dport, LineParts(lines)) == LinesWorth(env, r, p, lines)
  {
    if lines != [] {
      LinesAre(env, r, p, lines[1..]);
      assert LineParts(lines) == [LineParts(lines)[0]] + LineParts(lines[1..]);
      PartsAppend(env, r, p.client, p.flow.dport, LineParts(lines[1..]), LineParts(lines)[0]);
    }
  }

  lemma {:induction false} RecordsAre(env: Env, r: Rule, p: Packet, records: seq<Z21.Record>)
    ensures RuleParts(env, r, p.client, p.flow.dport, RecordParts(records)) == RecordsWorth(env, r, p, records)
  {
    if records != [] {
      RecordsAre(env, r, p, records[1..]);
      assert RecordParts(records) == [RecordParts(records)[0]] + RecordParts(records[1..]);
      PartsAppend(env, r, p.client, p.flow.dport, RecordParts(records[1..]), RecordParts(records)[0]);
    }
  }

  lemma MatchingLone(r: Rule, protocol: Protocol, port: u16)
    ensures Matching([r], protocol, port) == if r.protocol == protocol && OnPort(r, port) then [r] else []
  {
    assert [r][1..] == [];
  }

  lemma AddsLone(env: Env, r: Rule, p: Packet, unseen: bool, port: u16, us: seq<Parsed>)
    ensures GenericAdds(env, [r], p, unseen) == GenericOne(env, r, p, unseen)
    ensures PartAdds(env, [r], p.client, port, us) == RuleParts(env, r, p.client, port, us)
  {
    assert [r][..0] == [];
  }

  /** What the only rule loaded gets from a packet's content. */
  lemma LoneContent(env: Env, r: Rule, p: Packet, isWs: bool)
    requires r.metric != Metric.Connections && OnPort(r, p.flow.dport) && r.protocol == Content(env, p, isWs).0
    ensures IsParsed(r.protocol)
    ensures RuleParts(env, r, p.client, p.flow.dport, Content(env, p, isWs).1) == Share(env, r, p, isWs)
  {
    hide RuleParts, LinesWorth, RecordsWorth, LineParts, RecordParts, Passes, Worth;
    match r.protocol
    case Withrottle =>
      LinesAre(env, r, p, env.lines(p.payload));
      NoUnit(env, r, p);
    case Z21 =>
      RecordsAre(env, r, p, Z21.Parse(p.payload));
    case Http =>
      NoUnit(env, r, p);
      if env.http(p.payload).Some? {
        var http := env.http(p.payload).value;
        OneUnit(env, r, p, Request(http.verb, http.path), |p.payload|);
      }
    case WebSocket =>
      NoUnit(env, r, p);
      if env.frame(p.payload).Some? {
        var f := env.frame(p.payload).value;
        OneUnit(env, r, p, Frame(f.fin, f.opcode, f.payloadLen), |p.payload|);
      }
    case _ =>
  }

  lemma NoUnit(env: Env, r: Rule, p: Packet)
    ensures RuleParts(env, r, p.client, p.flow.dport, []) == []
  {
  }

  lemma OneUnit(env: Env, r: Rule, p: Packet, part: Unit, size: nat)
    requires r.metric != Metric.Connections
    ensures RuleParts(env, r, p.client, p.flow.dport, [Parsed(part, Len64(size))])
         == if Passes(env, r, p, part) then Worth(r, p.client, size) else []
  {
    assert [Parsed(part, Len64(size))][..0] == [];
  }

  lemma LoneShare(env: Env, r: Rule, p: Packet, isWs: bool, unseen: bool)
    requires r.metric != Metric.Connections
    ensures PacketAdds(env, [r], p, isWs, unseen) == Share(env, r, p, isWs)
  {
    hide LinesWorth, RecordsWorth, RuleParts;
    var port := p.flow.dport;
    var (protocol, us) := Content(env, p, isWs);
    MatchingLone(r, GenericProtocol(p), port);
    MatchingLone(r, protocol, port);
    AddsLone(env, r, p, unseen, port, us);
    if r.protocol == protocol && OnPort(r, port) {
      LoneContent(env, r, p, isWs);
    }
  }

  /**
   * Among any rules with distinct ids, a Requests or Bytes rule gets from a packet exactly
   * what the packet is worth to it.
   */
  lemma ContentShare(env: Env, rules: seq<Rule>, i: nat, p: Packet, isWs: bool, unseen: bool)
    requires DistinctIds(rules) && i < |rules| && rules[i].metric != Metric.Connections
    ensures For(PacketAdds(env, rules, p, isWs, unseen), rules[i].id) == Share(env, rules[i], p, isWs)
  {
    hide PacketAdds, Share;
    IdsApart(rules, i);
    PacketFor(env, rules, p, isWs, unseen, unseen, rules[i].id);
    OnlyIsAlone(rules, i);
    LoneShare(env, rules[i], p, isWs, unseen);
  }

  /** A Connections rule of the packet's transport and port. */
  predicate WatchesFlow(r: Rule, p: Packet) {
    && r.metric == Metric.Connections && OnPort(r, p.flow.dport)
    && r.protocol == if p.transport.OverUdp? then Udp else Tcp
  }

  lemma HasEither(a: seq<Rule>, b: seq<Rule>)
    ensures HasConnections(a + b) <==> HasConnections(a) || HasConnections(b)
  {
    if i :| 0 <= i < |a| && a[i].metric == Metric.Connections {
      assert (a + b)[i] == a[i];
    } else if j :| 0 <= j < |b| && b[j].metric == Metric.Connections {
      assert (a + b)[|a| + j] == b[j];
    }
  }

  lemma WatchesFirst(rules: seq<Rule>, p: Packet)
    requires rules != []
    ensures (exists j :: 0 <= j < |rules| && WatchesFlow(rules[j], p)) <==>
      WatchesFlow(rules[0], p) || exists j :: 0 <= j < |rules[1..]| && WatchesFlow(rules[1..][j], p)
  {
    hide WatchesFlow;
    var rest := rules[1..];
    if j :| 0 <= j < |rest| && WatchesFlow(rest[j], p) {
      assert rules[j + 1] == rest[j];
    }
    assert forall j {:trigger rules[j]} :: 0 < j < |rules| ==> rules[j] == rest[j - 1];
  }

  lemma {:induction false} HasWatcher(rules: seq<Rule>, p: Packet)
    ensures HasConnections(Chosen(rules, p)) <==> exists j :: 0 <= j < |rules| && WatchesFlow(rules[j], p)
  {
    if rules != [] {
      hide HasConnections;
      var first := if Selects(rules[0], p) then [rules[0]] else [];
      HasWatcher(rules[1..], p);
      HasEither(first, Chosen(rules[1..], p));
      assert Chosen(rules, p) == first + Chosen(rules[1..], p);
      WatchesFirst(rules, p);
      assert HasConnections(first) <==> WatchesFlow(rules[0], p) by {
        FirstWatches(rules[0], p);
      }
    }
  }

  lemma FirstWatches(r: Rule, p: Packet)
    ensures HasConnections(if Selects(r, p) then [r] else []) <==> WatchesFlow(r, p)
  {
    if WatchesFlow(r, p) {
      assert [r][0].metric == Metric.Connections;
    }
  }

  /**
   * A Connections rule gets one connection from a packet that opens a flow of its
   * transport and port, if the table calls the flow new, the match holds, and no rule
   * before it watches the same flow; else nothing.
   */
  lemma FlowShare(env: Env, rules: seq<Rule>, i: nat, p: Packet, isWs: bool, unseen: bool)
    requires DistinctIds(rules) && i < |rules| && rules[i].metric == Metric.Connections
    ensures For(PacketAdds(env, rules, p, isWs, unseen), rules[i].id)
         == if && (p.transport.OverUdp? || p.transport.syn) && WatchesFlow(rules[i], p) && unseen
               && Passes(env, rules[i], p, Plain) && forall j :: 0 <= j < i ==> !WatchesFlow(rules[j], p)
            then [Added(p.client, rules[i].id, Metric.Connections, 1)] else []
  {
    hide PacketAdds, Chosen;
    PacketShare(rules, i, Arrival(env, rules, p, unseen), isWs);
    HasWatcher(rules[..i], p);
    assert forall j :: 0 <= j < i ==> rules[..i][j] == rules[j];
  }

  // ---- a trace ---------------------------------------------------------------------------------

  /** Some packet of the trace upgraded the connection to a WebSocket. */
  predicate Upgraded(trace: seq<Arrival>, flow: FlowKey) {
    exists n :: 0 <= n < |trace| && Upgrades(trace[n], flow)
  }

  predicate Upgrades(a: Arrival, flow: FlowKey) {
    && a.packet.transport.OverTcp? && a.packet.flow == flow
    && a.env.http(a.packet.payload).Some? && a.env.http(a.packet.payload).value.upgradeWs
  }

  /** The marked connections are the upgraded ones. */
  lemma {:induction false} MarkedExactly(trace: seq<Arrival>, flow: FlowKey)
    ensures flow in WsAfter(trace) <==> Upgraded(trace, flow)
  {
    if trace != [] {
      var front, a := trace[..|trace| - 1], trace[|trace| - 1];
      MarkedExactly(front, flow);
      MarkedExactly(front, a.packet.flow);
      if Upgraded(front, flow) {
        var n :| 0 <= n < |front| && Upgrades(front[n], flow);
        assert Upgrades(trace[n], flow);
      } else {
        forall n | 0 <= n < |front| ensures !Upgrades(trace[n], flow) {
          assert trace[n] == front[n];
        }
      }
    }
  }

  /** A handshake is counted for a packet that upgrades a connection not yet upgraded. */
  lemma HandshakeExactly(trace: seq<Arrival>, a: Arrival)
    ensures IsHandshake(a.env, a.packet, a.packet.flow in WsAfter(trace)) <==>
      Upgrades(a, a.packet.flow) && !Upgraded(trace, a.packet.flow)
  {
    MarkedExactly(trace, a.packet.flow);
  }

  function Amounts(adds: seq<Added>): nat {
    if adds == [] then 0 else Amounts(adds[..|adds| - 1]) + adds[|adds| - 1].amount
  }

  /** What the client's packets were worth to the rule, each as its connection stood. */
  function WorthOf(r: Rule, client: ClientId, trace: seq<Arrival>): nat {
    if trace == [] then 0
    else
      var front, a := trace[..|trace| - 1], trace[|trace| - 1];
      WorthOf(r, client, front)
      + if a.packet.client == client then Amounts(Share(a.env, r, a.packet, Upgraded(front, a.packet.flow))) else 0
  }

  lemma {:induction false} WorthIsOwn(env: Env, r: Rule, p: Packet, isWs: bool)
    ensures forall a :: a in Share(env, r, p, isWs) ==> a.client == p.client && a.rule == r.id && a.metric == r.metric
  {
    LinesOwn(env, r, p, env.lines(p.payload));
    RecordsOwn(env, r, p, Z21.Parse(p.payload));
  }

  lemma {:induction false} LinesOwn(env: Env, r: Rule, p: Packet, lines: seq<WiLine>)
    ensures forall a :: a in LinesWorth(env, r, p, lines) ==>
      a.client == p.client && a.rule == r.id && a.metric == r.metric
  {
    if lines != [] {
      LinesOwn(env, r, p, lines[1..]);
    }
  }

  lemma {:induction false} RecordsOwn(env: Env, r: Rule, p: Packet, records: seq<Z21.Record>)
    ensures forall a :: a in RecordsWorth(env, r, p, records) ==>
      a.client == p.client && a.rule == r.id && a.metric == r.metric
  {
    if records != [] {
      RecordsOwn(env, r, p, records[1..]);
    }
  }

  lemma {:induction false} AddOwn(m: RuleCounts, adds: seq<Added>, client: ClientId, metric: Metric, k: CounterKey)
    requires forall a :: a in adds ==> a.client == client && a.rule == k.rule && a.metric == metric
    ensures forall o: Metric ::
      Count(CountsOf(AddAll(m, adds), k), o) ==
        if client == k.client && o == metric then Min(U64_MAX, Count(CountsOf(m, k), o) + Amounts(adds))
        else Count(CountsOf(m, k), o)
  {
    if adds != [] {
      var n := |adds| - 1;
      assert adds[n] in adds && forall a :: a in adds[..n] ==> a in adds;
      AddOwn(m, adds[..n], client, metric, k);
    }
  }

  /**
   * Over any trace, the counter of a Requests or Bytes rule is, saturated, what the
   * client's packets were worth to it, and counts nothing else.
   */
  lemma {:induction false} CounterIsWorth(rules: seq<Rule>, i: nat, client: ClientId, trace: seq<Arrival>)
    requires DistinctIds(rules) && i < |rules| && rules[i].metric != Metric.Connections
    requires forall n :: 0 <= n < |trace| ==> trace[n].rules == rules
    ensures forall m: Metric ::
      Count(CountsOf(CountsAfter(trace), CounterKey(client, rules[i].id)), m) ==
        if m == rules[i].metric then Min(U64_MAX, WorthOf(rules[i], client, trace)) else 0
  {
    hide PacketAdds, Share, For, Upgraded;
    if trace != [] {
      var front, a, r := trace[..|trace| - 1], trace[|trace| - 1], rules[i];
      var k, isWs := CounterKey(client, r.id), a.packet.flow in WsAfter(front);
      CounterIsWorth(rules, i, client, front);
      MarkedExactly(front, a.packet.flow);
      ContentShare(a.env, rules, i, a.packet, isWs, a.isNew);
      CountsFromFor(CountsAfter(front), CountsAfter(front), PacketAdds(a.env, rules, a.packet, isWs, a.isNew), k);
      WorthIsOwn(a.env, r, a.packet, isWs);
      AddOwn(CountsAfter(front), Share(a.env, r, a.packet, isWs), a.packet.client, r.metric, k);
    }
  }
}
