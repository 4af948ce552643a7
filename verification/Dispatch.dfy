/**
 * Packet dispatch: which counters one packet adds to. Detectors and the match
 * evaluator are arbitrary functions, fixed while one packet is handled.
 */
module Dispatch {
  import opened Base
  import opened Client
  import opened Rules
  import opened Counters
  import opened Flow
  import Z21

  datatype WsFrame = WsFrame(fin: bool, opcode: u8, payloadLen: nat)
  datatype HttpRequest = HttpRequest(verb: string, path: string, upgradeWs: bool)
  datatype WiLine = WiLine(prefix: string, throttle: string, command: string)

  /** What a match expression is evaluated on besides client and port. */
  datatype Unit =
    | Plain
    | Frame(fin: bool, opcode: u8, payloadLen: nat)
    | Request(verb: string, path: string)
    | Line(prefix: string, throttle: string, command: string)
    | LanRecord(header: u16, xheader: u8, dataLen: u16)

  datatype Context = Context(client: ClientId, port: u16, part: Unit)

  datatype Env = Env(
    eval: (nat, Context) -> bool,
    http: seq<u8> -> Option<HttpRequest>,
    frame: seq<u8> -> Option<WsFrame>,
    lines: seq<u8> -> seq<WiLine>)

  datatype Transport = OverTcp(syn: bool) | OverUdp

  datatype Packet = Packet(transport: Transport, client: ClientId, flow: FlowKey, payload: seq<u8>)

  /** One parsed unit and the bytes it stands for. */
  datatype Parsed = Parsed(part: Unit, size: u64)

  /** A length as 64 bits. */
  function Len64(n: nat): u64 {
    Min(U64_MAX, n)
  }

  predicate MatchOk(env: Env, r: Rule, ctx: Context) {
    r.program.None? || env.eval(r.program.value, ctx)
  }

  /** A packet that can open a flow. */
  predicate Opens(p: Packet) {
    p.transport.OverUdp? || p.transport.syn
  }

  predicate HasConnections(ms: seq<Rule>) {
    exists i :: 0 <= i < |ms| && ms[i].metric == Connections
  }

  /** What one generic rule adds; `unseen` when it is asked about a flow not seen before. */
  function GenericOne(env: Env, r: Rule, p: Packet, unseen: bool): seq<Added> {
    var ok := MatchOk(env, r, Context(p.client, p.flow.dport, Plain));
    if r.metric == Connections && Opens(p) && unseen && ok then [Added(p.client, r.id, Connections, 1)]
    else if r.metric == Bytes && p.payload != [] && ok then [Added(p.client, r.id, Bytes, Len64(|p.payload|))]
    else []
  }

  /** Only the first Connections rule is asked while the flow is still new. */
  function GenericAdds(env: Env, ms: seq<Rule>, p: Packet, unseen: bool): seq<Added> {
    if ms == [] then []
    else
      var front := ms[..|ms| - 1];
      GenericAdds(env, front, p, unseen) + GenericOne(env, ms[|ms| - 1], p, unseen && !HasConnections(front))
  }

  function PartOne(env: Env, r: Rule, client: ClientId, port: u16, u: Parsed): seq<Added> {
    if !MatchOk(env, r, Context(client, port, u.part)) then []
    else if r.metric == Requests then [Added(client, r.id, Requests, 1)]
    else if r.metric == Bytes then [Added(client, r.id, Bytes, u.size)]
    else []
  }

  function RuleParts(env: Env, r: Rule, client: ClientId, port: u16, us: seq<Parsed>): seq<Added> {
    if us == [] then []
    else RuleParts(env, r, client, port, us[..|us| - 1]) + PartOne(env, r, client, port, us[|us| - 1])
  }

  function PartAdds(env: Env, ms: seq<Rule>, client: ClientId, port: u16, us: seq<Parsed>): seq<Added> {
    if ms == [] then []
    else PartAdds(env, ms[..|ms| - 1], client, port, us) + RuleParts(env, ms[|ms| - 1], client, port, us)
  }

  function LineParts(ls: seq<WiLine>): seq<Parsed> {
    seq(|ls|, i requires 0 <= i < |ls| =>
      Parsed(Line(ls[i].prefix, ls[i].throttle, ls[i].command), Len64(|ls[i].command|)))
  }

  function RecordParts(rs: seq<Z21.Record>): seq<Parsed> {
    seq(|rs|, i requires 0 <= i < |rs| => Parsed(LanRecord(rs[i].header, rs[i].xheader, rs[i].dataLen), rs[i].dataLen))
  }

  /** The protocol whose rules see the packet's content, and the units they see. */
  function Content(env: Env, p: Packet, isWs: bool): (Protocol, seq<Parsed>) {
    if p.transport.OverUdp? then (Protocol.Z21, RecordParts(Z21.Parse(p.payload)))
    else if isWs then
      var f := env.frame(p.payload);
      (WebSocket,
        if f.None? then []
        else [Parsed(Frame(f.value.fin, f.value.opcode, f.value.payloadLen), Len64(|p.payload|))])
    else if env.http(p.payload).Some? then
      var r := env.http(p.payload).value;
      (Http, if r.upgradeWs then [] else [Parsed(Request(r.verb, r.path), Len64(|p.payload|))])
    else (Withrottle, LineParts(env.lines(p.payload)))
  }

  function GenericProtocol(p: Packet): Protocol {
    if p.transport.OverUdp? then Udp else Tcp
  }

  /** Every addition one packet makes. */
  function PacketAdds(env: Env, rules: seq<Rule>, p: Packet, isWs: bool, unseen: bool): seq<Added> {
    var port := p.flow.dport;
    var (protocol, us) := Content(env, p, isWs);
    GenericAdds(env, Matching(rules, GenericProtocol(p), port), p, unseen)
    + PartAdds(env, Matching(rules, protocol, port), p.client, port, us)
  }

  /** A handshake marks the connection, so that its later packets are read as frames. */
  predicate IsHandshake(env: Env, p: Packet, isWs: bool) {
    p.transport.OverTcp? && !isWs && env.http(p.payload).Some? && env.http(p.payload).value.upgradeWs
  }

  function AddAll(m: RuleCounts, adds: seq<Added>): RuleCounts {
    if adds == [] then m else BumpRule(AddAll(m, adds[..|adds| - 1]), adds[|adds| - 1])
  }

  function AddAllClients(m: ClientCounts, adds: seq<Added>): ClientCounts {
    if adds == [] then m else BumpClient(AddAllClients(m, adds[..|adds| - 1]), adds[|adds| - 1])
  }

  lemma {:induction false} AddAllAppend(m: RuleCounts, n: ClientCounts, a: seq<Added>, b: seq<Added>)
    ensures AddAll(m, a + b) == AddAll(AddAll(m, a), b)
    ensures AddAllClients(n, a + b) == AddAllClients(AddAllClients(n, a), b)
  {
    if b == [] {
      assert a + b == a;
    } else {
      var front := b[..|b| - 1];
      assert (a + b)[..|a + b| - 1] == a + front;
      AddAllAppend(m, n, a, front);
    }
  }

  /** The state the sniffer thread keeps to itself. */
  class Sniffer {
    const flows: FlowTable
    var wsConns: set<FlowKey>

    constructor ()
      ensures fresh(flows) && flows.flows == map[] && wsConns == {}
      ensures flows.max == 8192 && flows.idle == 60 * NANOS
    {
      flows := new FlowTable();
      wsConns := {};
    }

    method Credit(counters: CounterStore, adds: seq<Added>, ghost m: RuleCounts, ghost n: ClientCounts,
                  ghost sofar: seq<Added>)
      requires |adds| <= 1
      requires counters.byRule == AddAll(m, sofar) && counters.byClient == AddAllClients(n, sofar)
      modifies counters
      ensures counters.byRule == AddAll(m, sofar + adds) && counters.byClient == AddAllClients(n, sofar + adds)
    {
      AddAllAppend(m, n, sofar, adds);
      if |adds| == 1 {
        assert adds[..0] == [];
        counters.Add(adds[0]);
      } else {
        assert sofar + adds == sofar;
      }
    }

    ghost predicate Asked(before: Flows, p: Packet, now: nat, isNew: bool)
      reads flows
    {
      Observed(before, p.flow, now, flows.max, flows.idle, flows.flows, isNew)
    }

    /** Asks the flow table for one rule; only the first question can find the flow new. */
    method Ask(r: Rule, p: Packet, now: nat, ghost before: Flows, ghost asked: bool, ghost isNew: bool)
      returns (answer: bool, ghost isNew': bool)
      requires flows.idle > 0
      requires if asked then Asked(before, p, now, isNew) else flows.flows == before
      modifies flows
      ensures if asked || (r.metric == Connections && Opens(p)) then Asked(before, p, now, isNew')
        else flows.flows == before
      ensures asked || r.metric != Connections || !Opens(p) ==> !answer && isNew' == isNew
      ensures !asked && r.metric == Connections && Opens(p) ==> isNew' == answer
    {
      answer, isNew' := false, isNew;
      if r.metric == Connections && Opens(p) {
        ghost var table := flows.flows;
        answer := flows.Observe(p.flow, now);
        if asked {
          ObserveAgain(before, p.flow, now, flows.max, flows.idle, table, isNew, flows.flows, answer);
        } else {
          isNew' := answer;
        }
      }
    }

    /** The loop over generic rules. `isNew` is the flow table's answer, if it was asked. */
    method CountGeneric(counters: CounterStore, env: Env, ms: seq<Rule>, p: Packet,
                        now: nat) returns (ghost isNew: bool)
      requires flows.idle > 0
      modifies counters, flows
      ensures counters.byRule == AddAll(old(counters.byRule), GenericAdds(env, ms, p, isNew))
      ensures counters.byClient == AddAllClients(old(counters.byClient), GenericAdds(env, ms, p, isNew))
      ensures if Opens(p) && HasConnections(ms) then Asked(old(flows.flows), p, now, isNew)
        else flows.flows == old(flows.flows)
    {
      hide AddAll, AddAllClients;
      isNew := false;
      ghost var m, n := counters.byRule, counters.byClient;
      assert AddAll(m, []) == m && AddAllClients(n, []) == n by {
        AddNone(m, n);
      }
      for i := 0 to |ms|
        invariant counters.byRule == AddAll(m, GenericAdds(env, ms[..i], p, isNew))
        invariant counters.byClient == AddAllClients(n, GenericAdds(env, ms[..i], p, isNew))
        invariant if Opens(p) && HasConnections(ms[..i]) then Asked(old(flows.flows), p, now, isNew)
          else flows.flows == old(flows.flows)
      {
        hide Asked, HasConnections, GenericOne;
        var r := ms[i];
        ghost var was := isNew;
        var answer;
        answer, isNew := Ask(r, p, now, old(flows.flows), Opens(p) && HasConnections(ms[..i]), isNew);
        GenericStep(env, ms, p, i, was, isNew, answer);
        Credit(counters, GenericOne(env, r, p, answer), m, n, GenericAdds(env, ms[..i], p, isNew));
      }
      assert ms[..|ms|] == ms;
    }

    /** The loop over the units that one rule of a parsed protocol sees. */
    method CountRule(counters: CounterStore, env: Env, r: Rule, client: ClientId, port: u16, us: seq<Parsed>)
      modifies counters
      ensures counters.byRule == AddAll(old(counters.byRule), RuleParts(env, r, client, port, us))
      ensures counters.byClient == AddAllClients(old(counters.byClient), RuleParts(env, r, client, port, us))
    {
      hide AddAll, AddAllClients, PartOne, MatchOk;
      ghost var m, n := counters.byRule, counters.byClient;
      AddNone(m, n);
      for j := 0 to |us|
        invariant counters.byRule == AddAll(m, RuleParts(env, r, client, port, us[..j]))
        invariant counters.byClient == AddAllClients(n, RuleParts(env, r, client, port, us[..j]))
      {
        var adds := PartOne(env, r, client, port, us[j]);
        OneAtMost(env, r, client, port, us[j]);
        Credit(counters, adds, m, n, RuleParts(env, r, client, port, us[..j]));
        assert us[..j + 1][..j] == us[..j];
      }
      assert us[..|us|] == us;
    }

    /** The loops over the rules for a packet's content and the units found in it. */
    method CountParts(counters: CounterStore, env: Env, ms: seq<Rule>, client: ClientId, port: u16, us: seq<Parsed>)
      modifies counters
      ensures counters.byRule == AddAll(old(counters.byRule), PartAdds(env, ms, client, port, us))
      ensures counters.byClient == AddAllClients(old(counters.byClient), PartAdds(env, ms, client, port, us))
    {
      hide AddAll, AddAllClients, RuleParts;
      ghost var m, n := counters.byRule, counters.byClient;
      AddNone(m, n);
      for i := 0 to |ms|
        invariant counters.byRule == AddAll(m, PartAdds(env, ms[..i], client, port, us))
        invariant counters.byClient == AddAllClients(n, PartAdds(env, ms[..i], client, port, us))
      {
        CountRule(counters, env, ms[i], client, port, us);
        AddAllAppend(m, n, PartAdds(env, ms[..i], client, port, us), RuleParts(env, ms[i], client, port, us));
        assert ms[..i + 1][..i] == ms[..i];
      }
      assert ms[..|ms|] == ms;
    }

    /** Handles one packet. `isNew` is the flow table's answer, if it was asked. */
    method Dispatch(counters: CounterStore, env: Env, rules: seq<Rule>, p: Packet, now: nat) returns (ghost isNew: bool)
      requires flows.idle > 0
      modifies this, counters, flows
      ensures var isWs := p.flow in old(wsConns);
        && counters.byRule == AddAll(old(counters.byRule), PacketAdds(env, rules, p, isWs, isNew))
        && counters.byClient == (
             var m := AddAllClients(old(counters.byClient), PacketAdds(env, rules, p, isWs, isNew));
             if IsHandshake(env, p, isWs) then BumpHandshake(m, p.client) else m)
        && wsConns == old(wsConns) + if IsHandshake(env, p, isWs) then {p.flow} else {}
      ensures if Opens(p) && HasConnections(Matching(rules, GenericProtocol(p), p.flow.dport))
        then Observed(old(flows.flows), p.flow, now, flows.max, flows.idle, flows.flows, isNew)
        else flows.flows == old(flows.flows)
    {
      var isWs := p.flow in wsConns;
      var port := p.flow.dport;
      ghost var m, n := counters.byRule, counters.byClient;
      var generic := Matching(rules, GenericProtocol(p), port);
      isNew := CountGeneric(counters, env, generic, p, now);
      var (protocol, us) := Content(env, p, isWs);
      var ms := Matching(rules, protocol, port);
      CountParts(counters, env, ms, p.client, port, us);
      AddAllAppend(m, n, GenericAdds(env, generic, p, isNew), PartAdds(env, ms, p.client, port, us));
      if IsHandshake(env, p, isWs) {
        wsConns := wsConns + {p.flow};
        counters.AddWsConnection(p.client);
      }
    }
  }

  lemma OneAtMost(env: Env, r: Rule, client: ClientId, port: u16, u: Parsed)
    ensures |PartOne(env, r, client, port, u)| <= 1
  {
  }

  lemma AddNone(m: RuleCounts, n: ClientCounts)
    ensures AddAll(m, []) == m && AddAllClients(n, []) == n
  {
  }

  /** One turn of the generic loop, `answer` being what the table said for rule `i`. */
  lemma GenericStep(env: Env, ms: seq<Rule>, p: Packet, i: nat, was: bool, isNew: bool, answer: bool)
    requires i < |ms|
    requires HasConnections(ms[..i]) || ms[i].metric != Connections || !Opens(p) ==> isNew == was
    requires Opens(p) && HasConnections(ms[..i]) ==> !answer
    requires !HasConnections(ms[..i]) && ms[i].metric == Connections && Opens(p) ==> isNew == answer
    ensures GenericAdds(env, ms[..i], p, was) == GenericAdds(env, ms[..i], p, isNew)
    ensures |GenericOne(env, ms[i], p, answer)| <= 1
    ensures GenericAdds(env, ms[..i + 1], p, isNew)
         == GenericAdds(env, ms[..i], p, isNew) + GenericOne(env, ms[i], p, answer)
    ensures HasConnections(ms[..i + 1]) <==> HasConnections(ms[..i]) || ms[i].metric == Connections
  {
    HasConnectionsAppend(ms, i);
    if !HasConnections(ms[..i]) {
      FreshUnasked(env, ms[..i], p, was, isNew);
    }
    assert ms[..i + 1][..i] == ms[..i] && ms[..i + 1][i] == ms[i];
  }

  lemma HasConnectionsAppend(ms: seq<Rule>, i: nat)
    requires i < |ms|
    ensures HasConnections(ms[..i + 1]) <==> HasConnections(ms[..i]) || ms[i].metric == Connections
  {
    assert ms[i].metric == Connections ==> ms[..i + 1][i].metric == Connections;
    forall j | 0 <= j < i ensures ms[..i + 1][j] == ms[..i][j] {
    }
  }

  /** Until a Connections rule is reached the table's answer makes no difference. */
  lemma {:induction false} FreshUnasked(env: Env, ms: seq<Rule>, p: Packet, a: bool, b: bool)
    requires !HasConnections(ms)
    ensures GenericAdds(env, ms, p, a) == GenericAdds(env, ms, p, b)
  {
    if ms != [] {
      var k := |ms| - 1;
      assert ms[k].metric != Connections;
      assert ms[..k + 1] == ms;
      HasConnectionsAppend(ms, k);
      FreshUnasked(env, ms[..k], p, a, b);
    }
  }

  // ---- non-interference ------------------------------------------------------------------------

  /** The rules with one id. */
  function Only(rules: seq<Rule>, id: RuleId): seq<Rule> {
    if rules == [] then []
    else Only(rules[..|rules| - 1], id) + if rules[|rules| - 1].id == id then [rules[|rules| - 1]] else []
  }

  function For(adds: seq<Added>, id: RuleId): seq<Added> {
    if adds == [] then []
    else For(adds[..|adds| - 1], id) + if adds[|adds| - 1].rule == id then [adds[|adds| - 1]] else []
  }

  /** No rule with this id counts connections. */
  predicate CountsNoFlows(rules: seq<Rule>, id: RuleId) {
    forall r :: r in rules && r.id == id ==> r.metric != Connections
  }

  lemma {:induction false} ForAppend(a: seq<Added>, b: seq<Added>, id: RuleId)
    ensures For(a + b, id) == For(a, id) + For(b, id)
  {
    if b == [] {
      assert a + b == a;
    } else {
      assert (a + b)[..|a + b| - 1] == a + b[..|b| - 1];
      ForAppend(a, b[..|b| - 1], id);
    }
  }

  lemma {:induction false} ForAll(adds: seq<Added>, id: RuleId)
    ensures (forall a :: a in adds ==> a.rule == id) ==> For(adds, id) == adds
    ensures (forall a :: a in adds ==> a.rule != id) ==> For(adds, id) == []
  {
    if adds != [] {
      var front, a := adds[..|adds| - 1], adds[|adds| - 1];
      ForAll(front, id);
      assert adds == front + [a];
    }
  }

  lemma {:induction false} MatchingAppend(rules: seq<Rule>, r: Rule, protocol: Protocol, port: u16)
    ensures Matching(rules + [r], protocol, port)
         == Matching(rules, protocol, port) + if r.protocol == protocol && MatchesPort(r, port) then [r] else []
  {
    if rules == [] {
      assert [r][1..] == [];
    } else {
      assert (rules + [r])[1..] == rules[1..] + [r];
      MatchingAppend(rules[1..], r, protocol, port);
    }
  }

  lemma {:induction false} OnlyAppend(a: seq<Rule>, b: seq<Rule>, id: RuleId)
    ensures Only(a + b, id) == Only(a, id) + Only(b, id)
  {
    if b == [] {
      assert a + b == a;
    } else {
      assert (a + b)[..|a + b| - 1] == a + b[..|b| - 1];
      OnlyAppend(a, b[..|b| - 1], id);
    }
  }

  lemma OnlyOne(r: Rule, id: RuleId)
    ensures Only([r], id) == if r.id == id then [r] else []
  {
    assert [r][..0] == [];
  }

  lemma {:induction false} MatchingOnly(rules: seq<Rule>, id: RuleId, protocol: Protocol, port: u16)
    ensures Matching(Only(rules, id), protocol, port) == Only(Matching(rules, protocol, port), id)
  {
    if rules != [] {
      var front, r := rules[..|rules| - 1], rules[|rules| - 1];
      assert rules == front + [r];
      MatchingOnly(front, id, protocol, port);
      MatchingAppend(front, r, protocol, port);
      MatchingAppend(Only(front, id), r, protocol, port);
      var picked := if r.protocol == protocol && MatchesPort(r, port) then [r] else [];
      OnlyAppend(Matching(front, protocol, port), picked, id);
      OnlyOne(r, id);
      if r.id != id {
        assert Only(rules, id) == Only(front, id);
      }
    }
  }

  lemma {:induction false} MatchingMembers(rules: seq<Rule>, protocol: Protocol, port: u16)
    ensures forall r :: r in Matching(rules, protocol, port) ==> r in rules
  {
    if rules != [] {
      MatchingMembers(rules[1..], protocol, port);
    }
  }

  lemma GenericOneFor(env: Env, r: Rule, p: Packet, a: bool, b: bool, id: RuleId)
    requires r.id == id ==> r.metric != Connections
    ensures For(GenericOne(env, r, p, a), id) == if r.id == id then GenericOne(env, r, p, b) else []
  {
    ForAll(GenericOne(env, r, p, a), id);
  }

  /** One more rule: it is asked for itself alone when it has the id, else not at all. */
  lemma GenericOnly(env: Env, front: seq<Rule>, r: Rule, p: Packet, b: bool, id: RuleId)
    ensures GenericAdds(env, Only(front + [r], id), p, b) == GenericAdds(env, Only(front, id), p, b)
         + if r.id == id then GenericOne(env, r, p, b && !HasConnections(Only(front, id))) else []
  {
    hide GenericOne, HasConnections;
    assert (front + [r])[..|front|] == front;
    if r.id == id {
      assert Only(front + [r], id)[..|Only(front + [r], id)| - 1] == Only(front, id);
    } else {
      assert Only(front + [r], id) == Only(front, id);
    }
  }

  lemma {:induction false} GenericFor(env: Env, ms: seq<Rule>, p: Packet, a: bool, b: bool, id: RuleId)
    requires CountsNoFlows(ms, id)
    ensures For(GenericAdds(env, ms, p, a), id) == GenericAdds(env, Only(ms, id), p, b)
  {
    hide GenericOne, HasConnections, For;
    if ms != [] {
      var front, r := ms[..|ms| - 1], ms[|ms| - 1];
      assert ms == front + [r];
      GenericFor(env, front, p, a, b, id);
      ForAppend(GenericAdds(env, front, p, a), GenericOne(env, r, p, a && !HasConnections(front)), id);
      GenericOneFor(env, r, p, a && !HasConnections(front), b && !HasConnections(Only(front, id)), id);
      GenericOnly(env, front, r, p, b, id);
    } else {
      assert For([], id) == [] by {
        ForAll([], id);
      }
    }
  }

  lemma {:induction false} RulePartsIds(env: Env, r: Rule, client: ClientId, port: u16, us: seq<Parsed>)
    ensures forall a :: a in RuleParts(env, r, client, port, us) ==> a.rule == r.id
  {
    if us != [] {
      RulePartsIds(env, r, client, port, us[..|us| - 1]);
    }
  }

  lemma {:induction false} PartsFor(env: Env, ms: seq<Rule>, client: ClientId, port: u16, us: seq<Parsed>, id: RuleId)
    ensures For(PartAdds(env, ms, client, port, us), id) == PartAdds(env, Only(ms, id), client, port, us)
  {
    if ms != [] {
      var front, r := ms[..|ms| - 1], ms[|ms| - 1];
      PartsFor(env, front, client, port, us, id);
      ForAppend(PartAdds(env, front, client, port, us), RuleParts(env, r, client, port, us), id);
      RulePartsIds(env, r, client, port, us);
      ForAll(RuleParts(env, r, client, port, us), id);
      if r.id == id {
        assert Only(ms, id)[..|Only(ms, id)| - 1] == Only(front, id);
      } else {
        assert Only(ms, id) == Only(front, id);
      }
    }
  }

  /** What one packet adds for a rule is what it would add were the rule alone. */
  lemma PacketFor(env: Env, rules: seq<Rule>, p: Packet, isWs: bool, a: bool, b: bool, id: RuleId)
    requires CountsNoFlows(rules, id)
    ensures For(PacketAdds(env, rules, p, isWs, a), id) == PacketAdds(env, Only(rules, id), p, isWs, b)
  {
    var port := p.flow.dport;
    var (protocol, us) := Content(env, p, isWs);
    var generic, ms := Matching(rules, GenericProtocol(p), port), Matching(rules, protocol, port);
    MatchingOnly(rules, id, GenericProtocol(p), port);
    MatchingOnly(rules, id, protocol, port);
    MatchingMembers(rules, GenericProtocol(p), port);
    GenericFor(env, generic, p, a, b, id);
    PartsFor(env, ms, p.client, port, us, id);
    ForAppend(GenericAdds(env, generic, p, a), PartAdds(env, ms, p.client, port, us), id);
  }

  /** One packet of a trace, the rules loaded when it arrived, and the table's answer. */
  datatype Arrival = Arrival(env: Env, rules: seq<Rule>, packet: Packet, isNew: bool)

  function WsAfter(trace: seq<Arrival>): set<FlowKey> {
    if trace == [] then {}
    else
      var ws := WsAfter(trace[..|trace| - 1]);
      var a := trace[|trace| - 1];
      ws + if IsHandshake(a.env, a.packet, a.packet.flow in ws) then {a.packet.flow} else {}
  }

  function CountsAfter(trace: seq<Arrival>): RuleCounts {
    if trace == [] then map[]
    else
      var front := trace[..|trace| - 1];
      var a := trace[|trace| - 1];
      AddAll(CountsAfter(front), PacketAdds(a.env, a.rules, a.packet, a.packet.flow in WsAfter(front), a.isNew))
  }

  /** A counter depends only on the additions for its rule. */
  lemma {:induction false} CountsFromFor(m: RuleCounts, m': RuleCounts, adds: seq<Added>, k: CounterKey)
    requires CountsOf(m, k) == CountsOf(m', k)
    ensures CountsOf(AddAll(m, adds), k) == CountsOf(AddAll(m', For(adds, k.rule)), k)
  {
    if adds != [] {
      var front, a := adds[..|adds| - 1], adds[|adds| - 1];
      CountsFromFor(m, m', front, k);
      if a.rule == k.rule {
        assert For(adds, k.rule)[..|For(adds, k.rule)| - 1] == For(front, k.rule);
      } else {
        assert For(adds, k.rule) == For(front, k.rule);
      }
    }
  }

  /** The same packets with every other rule taken out, whatever the flow table answers. */
  ghost predicate Isolated(trace: seq<Arrival>, alone: seq<Arrival>, id: RuleId) {
    && |trace| == |alone|
    && forall i :: 0 <= i < |trace| ==>
         && CountsNoFlows(trace[i].rules, id)
         && alone[i] == trace[i].(rules := Only(trace[i].rules, id), isNew := alone[i].isNew)
  }

  /**
   * Rule non-interference: over any packet trace, across reloads, the counter of a
   * Requests or Bytes rule is what it would be were that rule the only one loaded.
   */
  lemma {:induction false} RulesDoNotInterfere(trace: seq<Arrival>, alone: seq<Arrival>, k: CounterKey)
    requires Isolated(trace, alone, k.rule)
    ensures CountsOf(CountsAfter(trace), k) == CountsOf(CountsAfter(alone), k)
    ensures WsAfter(trace) == WsAfter(alone)
  {
    if trace != [] {
      var n := |trace| - 1;
      var a, b := trace[n], alone[n];
      RulesDoNotInterfere(trace[..n], alone[..n], k);
      var isWs := a.packet.flow in WsAfter(trace[..n]);
      var adds := PacketAdds(a.env, a.rules, a.packet, isWs, a.isNew);
      PacketFor(a.env, a.rules, a.packet, isWs, a.isNew, b.isNew, k.rule);
      CountsFromFor(CountsAfter(trace[..n]), CountsAfter(alone[..n]), adds, k);
    }
  }

  /** With distinct ids, the rules with a rule's id are that rule. */
  lemma {:induction false} OnlyIsAlone(rules: seq<Rule>, i: nat)
    requires DistinctIds(rules) && i < |rules|
    ensures Only(rules, rules[i].id) == [rules[i]]
  {
    var front := rules[..|rules| - 1];
    if i < |front| {
      OnlyIsAlone(front, i);
    } else {
      OnlyNone(front, rules[i].id);
    }
  }

  lemma {:induction false} OnlyNone(rules: seq<Rule>, id: RuleId)
    requires forall r :: r in rules ==> r.id != id
    ensures Only(rules, id) == []
  {
    if rules != [] {
      OnlyNone(rules[..|rules| - 1], id);
    }
  }

  /**
   * For one rule set with distinct ids: over any packet trace every Requests or Bytes
   * rule counts, for every client, what it would count as the only rule loaded.
   */
  lemma RuleCountsAlone(rules: seq<Rule>, i: nat, trace: seq<Arrival>, alone: seq<Arrival>, client: ClientId)
    requires DistinctIds(rules) && i < |rules| && rules[i].metric != Connections
    requires |trace| == |alone|
    requires forall j :: 0 <= j < |trace| ==>
      trace[j].rules == rules && alone[j] == trace[j].(rules := [rules[i]], isNew := alone[j].isNew)
    ensures var k := CounterKey(client, rules[i].id);
      CountsOf(CountsAfter(trace), k) == CountsOf(CountsAfter(alone), k)
  {
    OnlyIsAlone(rules, i);
    assert forall r :: r in rules && r.id == rules[i].id ==> r == rules[i];
    RulesDoNotInterfere(trace, alone, CounterKey(client, rules[i].id));
  }

  // ---- connections are not independent -----------------------------------------------------------

  /**
   * A Connections rule is credited with a packet exactly when the flow is new, the rule
   * matches, and no Connections rule stands before it among the rules selected.
   */
  lemma {:induction false} ConnectionsCredit(env: Env, ms: seq<Rule>, p: Packet, unseen: bool, i: nat)
    requires i < |ms| && DistinctIds(ms) && ms[i].metric == Connections
    ensures Added(p.client, ms[i].id, Connections, 1) in GenericAdds(env, ms, p, unseen) <==>
      && Opens(p) && unseen && MatchOk(env, ms[i], Context(p.client, p.flow.dport, Plain))
      && !HasConnections(ms[..i])
  {
    var k := |ms| - 1;
    var front, add := ms[..k], Added(p.client, ms[i].id, Connections, 1);
    hide HasConnections, MatchOk, GenericOne;
    CreditOne(env, ms[k], p, unseen && !HasConnections(front), add);
    if i < k {
      assert front[..i] == ms[..i];
      ConnectionsCredit(env, front, p, unseen, i);
    } else {
      GenericIds(env, front, p, unseen);
      assert add !in GenericAdds(env, front, p, unseen);
    }
  }

  lemma CreditOne(env: Env, r: Rule, p: Packet, unseen: bool, add: Added)
    requires add == Added(p.client, add.rule, Connections, 1)
    ensures add in GenericOne(env, r, p, unseen) <==>
      && r.id == add.rule && r.metric == Connections
      && Opens(p) && unseen && MatchOk(env, r, Context(p.client, p.flow.dport, Plain))
  {
  }

  lemma {:induction false} GenericIds(env: Env, ms: seq<Rule>, p: Packet, unseen: bool)
    ensures forall a :: a in GenericAdds(env, ms, p, unseen) ==> exists i :: 0 <= i < |ms| && ms[i].id == a.rule
  {
    if ms != [] {
      var k := |ms| - 1;
      GenericIds(env, ms[..k], p, unseen);
      forall a | a in GenericAdds(env, ms, p, unseen) ensures exists i :: 0 <= i < |ms| && ms[i].id == a.rule {
        if a in GenericAdds(env, ms[..k], p, unseen) {
          var i :| 0 <= i < k && ms[..k][i].id == a.rule;
          assert ms[i].id == a.rule;
        } else {
          assert ms[k].id == a.rule;
        }
      }
    }
  }

  /**
   * "Each rule is counted independently": with the flow table answering `unseen` among
   * the others and `unseenAlone` without them, a Connections rule counts a packet as it
   * would alone exactly when the packet is not for it to count, or it is the first
   * Connections rule selected and both answers agree, or a later one and alone it would
   * be told of a known flow.
   */
  lemma ConnectionsIndependentExactly(env: Env, ms: seq<Rule>, p: Packet, unseen: bool, unseenAlone: bool, i: nat)
    requires i < |ms| && DistinctIds(ms) && ms[i].metric == Connections
    ensures var add := Added(p.client, ms[i].id, Connections, 1);
      (add in GenericAdds(env, ms, p, unseen) <==> add in GenericAdds(env, [ms[i]], p, unseenAlone)) <==>
        || !(Opens(p) && MatchOk(env, ms[i], Context(p.client, p.flow.dport, Plain)))
        || (if HasConnections(ms[..i]) then !unseenAlone else unseen == unseenAlone)
  {
    ConnectionsCredit(env, ms, p, unseen, i);
    ConnectionsCredit(env, [ms[i]], p, unseenAlone, 0);
    assert [ms[i]][..0] == [];
  }

  /** Two overlapping Connections rules, one new flow: only the first counts it. */
  lemma SecondConnectionsRuleMissesFlow(env: Env, p: Packet, a: Rule, b: Rule)
    requires a.id == "a" && b.id == "b" && a.metric == b.metric == Connections
    requires a.program.None? && b.program.None? && Opens(p)
    ensures Added(p.client, "a", Connections, 1) in GenericAdds(env, [a, b], p, true)
    ensures Added(p.client, "b", Connections, 1) !in GenericAdds(env, [a, b], p, true)
    ensures Added(p.client, "b", Connections, 1) in GenericAdds(env, [b], p, true)
  {
    assert [a, b][0].id != [a, b][1].id;
    ConnectionsCredit(env, [a, b], p, true, 0);
    ConnectionsCredit(env, [a, b], p, true, 1);
    ConnectionsCredit(env, [b], p, true, 0);
    assert [a, b][..1][0].metric == Connections;
  }
}
