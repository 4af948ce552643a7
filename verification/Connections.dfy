/**
 * Connections rules over packet traces, with the flow table itself in the picture. A
 * rule is asked about flows in the company of the other rules, so both the order of the
 * rules and the room in the table decide what it counts.
 */
module Connections {
  import opened Base
  import opened Client
  import opened Rules
  import opened Counters
  import opened Flow
  import opened Dispatch

  datatype Timed = Timed(env: Env, packet: Packet, at: nat)

  /** A flow key names its packet's transport. */
  predicate Proper(p: Packet) {
    p.flow.proto == if p.transport.OverUdp? then 17 else 6
  }

  /** The generic rules a packet selects. */
  function Chosen(rules: seq<Rule>, p: Packet): seq<Rule> {
    Matching(rules, GenericProtocol(p), p.flow.dport)
  }

  /** Whether the flow table is asked about the packet. */
  predicate Asks(rules: seq<Rule>, p: Packet) {
    Opens(p) && HasConnections(Chosen(rules, p))
  }

  /** The observations the flow table sees. */
  function Observations(rules: seq<Rule>, trace: seq<Timed>): seq<Seen> {
    if trace == [] then []
    else
      var t := trace[|trace| - 1];
      Observations(rules, trace[..|trace| - 1])
      + if Asks(rules, t.packet) then [Seen(t.packet.flow, t.at)] else []
  }

  /** The table's answers to those observations. */
  ghost predicate Answers(rules: seq<Rule>, trace: seq<Timed>, tables: seq<Flows>, news: seq<bool>, max: nat,
                      idle: nat)
  {
    Runs(Observations(rules, trace), tables, news, max, idle)
  }

  /** The answer to packet `n`, if there was a question. */
  function AnswerTo(rules: seq<Rule>, trace: seq<Timed>, news: seq<bool>, n: nat): bool
    requires n < |trace|
  {
    var k := |Observations(rules, trace[..n])|;
    Asks(rules, trace[n].packet) && k < |news| && news[k]
  }

  function Arrivals(rules: seq<Rule>, trace: seq<Timed>, news: seq<bool>): seq<Arrival> {
    seq(|trace|, n requires 0 <= n < |trace| =>
      Arrival(trace[n].env, rules, trace[n].packet, AnswerTo(rules, trace, news, n)))
  }

  // ---- what a Connections counter holds --------------------------------------------------

  predicate Selects(r: Rule, p: Packet) {
    r.protocol == GenericProtocol(p) && MatchesPort(r, p.flow.dport)
  }

  /** No Connections rule before rule `i` selects the packet. */
  predicate First(rules: seq<Rule>, i: nat, p: Packet)
    requires i < |rules|
  {
    !HasConnections(Chosen(rules[..i], p))
  }

  predicate Credited(rules: seq<Rule>, i: nat, a: Arrival)
    requires i < |rules|
  {
    && Opens(a.packet) && Selects(rules[i], a.packet) && First(rules, i, a.packet) && a.isNew
    && MatchOk(a.env, rules[i], Context(a.packet.client, a.packet.flow.dport, Plain))
  }

  function Tally(rules: seq<Rule>, i: nat, client: ClientId, arrivals: seq<Arrival>): (t: nat)
    requires i < |rules|
    ensures t <= |arrivals|
  {
    if arrivals == [] then 0
    else
      var a := arrivals[|arrivals| - 1];
      Tally(rules, i, client, arrivals[..|arrivals| - 1])
      + if a.packet.client == client && Credited(rules, i, a) then 1 else 0
  }

  lemma {:induction false} ChosenSplit(rules: seq<Rule>, i: nat, p: Packet)
    requires i < |rules|
    ensures Chosen(rules, p) == Chosen(rules[..i], p)
         + (if Selects(rules[i], p) then [rules[i]] else []) + Chosen(rules[i + 1..], p)
  {
    if i == 0 {
      assert rules[..0] == [];
    } else {
      ChosenSplit(rules[1..], i - 1, p);
      assert rules[1..][..i - 1] == rules[..i][1..] && rules[1..][i..] == rules[i + 1..];
    }
  }

  lemma {:induction false} ChosenWithout(rules: seq<Rule>, id: RuleId, p: Packet)
    requires forall r :: r in rules ==> r.id != id
    ensures forall r :: r in Chosen(rules, p) ==> r.id != id
  {
    if rules != [] {
      ChosenWithout(rules[1..], id, p);
    }
  }

  /** Of what the generic rules add, the part with an id that no rule has. */
  lemma {:induction false} NoneFor(env: Env, ms: seq<Rule>, p: Packet, unseen: bool, id: RuleId)
    requires forall r :: r in ms ==> r.id != id
    ensures For(GenericAdds(env, ms, p, unseen), id) == []
  {
    GenericIds(env, ms, p, unseen);
    ForAll(GenericAdds(env, ms, p, unseen), id);
  }

  lemma OneShare(env: Env, r: Rule, p: Packet, unseen: bool, id: RuleId)
    ensures For(GenericOne(env, r, p, unseen), id) == if r.id == id then GenericOne(env, r, p, unseen) else []
  {
    ForAll(GenericOne(env, r, p, unseen), id);
  }

  lemma OneMore(env: Env, front: seq<Rule>, r: Rule, p: Packet, unseen: bool, id: RuleId)
    ensures For(GenericAdds(env, front + [r], p, unseen), id)
         == For(GenericAdds(env, front, p, unseen), id)
         + if r.id == id then GenericOne(env, r, p, unseen && !HasConnections(front)) else []
  {
    hide GenericOne, HasConnections, For;
    assert (front + [r])[..|front|] == front;
    ForAppend(GenericAdds(env, front, p, unseen), GenericOne(env, r, p, unseen && !HasConnections(front)), id);
    OneShare(env, r, p, unseen && !HasConnections(front), id);
  }

  /** What one of the generic rules adds, read off among all the others. */
  lemma {:induction false} GenericShare(env: Env, before: seq<Rule>, r: Rule, after: seq<Rule>, p: Packet, unseen: bool)
    requires forall o :: o in before || o in after ==> o.id != r.id
    ensures For(GenericAdds(env, before + [r] + after, p, unseen), r.id)
         == GenericOne(env, r, p, unseen && !HasConnections(before))
    decreases after
  {
    hide GenericOne, HasConnections, For, GenericAdds;
    if after == [] {
      assert before + [r] + after == before + [r];
      NoneFor(env, before, p, unseen, r.id);
      OneMore(env, before, r, p, unseen, r.id);
    } else {
      var j := |after| - 1;
      var front := before + [r] + after[..j];
      assert before + [r] + after == front + [after[j]];
      GenericShare(env, before, r, after[..j], p, unseen);
      OneMore(env, front, after[j], p, unseen, r.id);
    }
  }

  /** A Connections rule adds nothing for a packet's content. */
  lemma {:induction false} PartsShare(env: Env, ms: seq<Rule>, client: ClientId, port: u16, us: seq<Parsed>, id: RuleId)
    requires forall r :: r in ms && r.id == id ==> r.metric == Metric.Connections
    ensures For(PartAdds(env, ms, client, port, us), id) == []
  {
    if ms != [] {
      var front, r := ms[..|ms| - 1], ms[|ms| - 1];
      PartsShare(env, front, client, port, us, id);
      ForAppend(PartAdds(env, front, client, port, us), RuleParts(env, r, client, port, us), id);
      RulePartsIds(env, r, client, port, us);
      ForAll(RuleParts(env, r, client, port, us), id);
      if r.id == id {
        NoParts(env, r, client, port, us);
      }
    }
  }

  lemma {:induction false} NoParts(env: Env, r: Rule, client: ClientId, port: u16, us: seq<Parsed>)
    requires r.metric == Metric.Connections
    ensures RuleParts(env, r, client, port, us) == []
  {
    if us != [] {
      NoParts(env, r, client, port, us[..|us| - 1]);
    }
  }

  lemma IdsApart(rules: seq<Rule>, i: nat)
    requires DistinctIds(rules) && i < |rules|
    ensures forall r :: r in rules[..i] || r in rules[i + 1..] ==> r.id != rules[i].id
    ensures forall r :: r in rules && r.id == rules[i].id ==> r == rules[i]
  {
    forall r | r in rules[..i] || r in rules[i + 1..] ensures r.id != rules[i].id {
      if r in rules[..i] {
        var j :| 0 <= j < i && rules[..i][j] == r;
        assert rules[j] == r;
      } else {
        var j :| 0 <= j < |rules[i + 1..]| && rules[i + 1..][j] == r;
        assert rules[i + 1 + j] == r;
      }
    }
  }

  /** What one packet adds for a Connections rule. */
  lemma PacketShare(rules: seq<Rule>, i: nat, a: Arrival, isWs: bool)
    requires DistinctIds(rules) && i < |rules| && rules[i].metric == Metric.Connections && a.rules == rules
    ensures For(PacketAdds(a.env, rules, a.packet, isWs, a.isNew), rules[i].id)
         == if Credited(rules, i, a) then [Added(a.packet.client, rules[i].id, Metric.Connections, 1)] else []
  {
    var p, r := a.packet, rules[i];
    var (protocol, us) := Content(a.env, p, isWs);
    var ms := Matching(rules, protocol, p.flow.dport);
    var before, after := Chosen(rules[..i], p), Chosen(rules[i + 1..], p);
    IdsApart(rules, i);
    ChosenWithout(rules[..i], r.id, p);
    ChosenWithout(rules[i + 1..], r.id, p);
    ChosenSplit(rules, i, p);
    MatchingMembers(rules, protocol, p.flow.dport);
    PartsShare(a.env, ms, p.client, p.flow.dport, us, r.id);
    ForAppend(GenericAdds(a.env, Chosen(rules, p), p, a.isNew), PartAdds(a.env, ms, p.client, p.flow.dport, us), r.id);
    if Selects(r, p) {
      GenericShare(a.env, before, r, after, p, a.isNew);
    } else {
      NoneFor(a.env, Chosen(rules, p), p, a.isNew, r.id);
    }
  }

  /**
   * A Connections counter is, saturated, the number of the client's opening packets that
   * the rule was the first to be asked about, that it matched, and that were new.
   */
  lemma {:induction false} CounterIsTally(rules: seq<Rule>, i: nat, client: ClientId, arrivals: seq<Arrival>)
    requires DistinctIds(rules) && i < |rules| && rules[i].metric == Metric.Connections
    requires forall n :: 0 <= n < |arrivals| ==> arrivals[n].rules == rules
    ensures CountsOf(CountsAfter(arrivals), CounterKey(client, rules[i].id))
         == Counts(0, 0, Min(U64_MAX, Tally(rules, i, client, arrivals)))
  {
    hide PacketAdds, Credited, For;
    if arrivals != [] {
      var front, a := arrivals[..|arrivals| - 1], arrivals[|arrivals| - 1];
      var k := CounterKey(client, rules[i].id);
      CounterIsTally(rules, i, client, front);
      var isWs := a.packet.flow in WsAfter(front);
      var adds := PacketAdds(a.env, rules, a.packet, isWs, a.isNew);
      PacketShare(rules, i, a, isWs);
      CountsFromFor(CountsAfter(front), CountsAfter(front), adds, k);
      AddOne(CountsAfter(front), For(adds, k.rule), k);
    }
  }

  lemma AddOne(m: RuleCounts, adds: seq<Added>, k: CounterKey)
    requires |adds| <= 1
    ensures CountsOf(AddAll(m, adds), k)
         == if |adds| == 1 && adds[0].client == k.client && adds[0].rule == k.rule
            then Bump(CountsOf(m, k), adds[0].metric, adds[0].amount) else CountsOf(m, k)
  {
    if |adds| == 1 {
      assert adds[..0] == [];
    }
  }

  // ---- against the rule alone ---------------------------------------------------------------

  /**
   * Packet for packet, among the others and alone: the rule is asked first and told the
   * flow is new exactly when it would be told so alone.
   */
  predicate SameAnswers(rules: seq<Rule>, i: nat, trace: seq<Timed>, news: seq<bool>, newsAlone: seq<bool>)
    requires i < |rules|
  {
    forall n :: 0 <= n < |trace| && Concerns(rules[i], trace[n]) ==>
      (First(rules, i, trace[n].packet) && AnswerTo(rules, trace, news, n))
        == AnswerTo([rules[i]], trace, newsAlone, n)
  }

  /** A packet for the rule to count, if its flow is new. */
  predicate Concerns(r: Rule, t: Timed) {
    Opens(t.packet) && Selects(r, t.packet) && MatchOk(t.env, r, Context(t.packet.client, t.packet.flow.dport, Plain))
  }

  function TallyTo(rules: seq<Rule>, i: nat, client: ClientId, trace: seq<Timed>, news: seq<bool>, n: nat): (t: nat)
    requires i < |rules| && n <= |trace|
    ensures t <= n
  {
    Tally(rules, i, client, Arrivals(rules, trace, news)[..n])
  }

  /** Whether packet `n` is counted. */
  predicate Counted(rules: seq<Rule>, i: nat, trace: seq<Timed>, news: seq<bool>, n: nat)
    requires i < |rules| && n < |trace|
  {
    Concerns(rules[i], trace[n]) && First(rules, i, trace[n].packet) && AnswerTo(rules, trace, news, n)
  }

  lemma TallyStep(rules: seq<Rule>, i: nat, client: ClientId, trace: seq<Timed>, news: seq<bool>, n: nat)
    requires i < |rules| && n < |trace|
    ensures TallyTo(rules, i, client, trace, news, n + 1) == TallyTo(rules, i, client, trace, news, n)
         + if trace[n].packet.client == client && Counted(rules, i, trace, news, n) then 1 else 0
  {
    var all := Arrivals(rules, trace, news);
    assert all[..n + 1][..n] == all[..n];
  }

  lemma AloneCounted(rules: seq<Rule>, i: nat, trace: seq<Timed>, newsAlone: seq<bool>, n: nat)
    requires i < |rules| && n < |trace|
    ensures Counted([rules[i]], 0, trace, newsAlone, n) <==>
      Concerns(rules[i], trace[n]) && AnswerTo([rules[i]], trace, newsAlone, n)
  {
    assert [rules[i]][..0] == [];
  }

  lemma {:induction false} SameTallies(rules: seq<Rule>, i: nat, client: ClientId, trace: seq<Timed>,
                                       news: seq<bool>, newsAlone: seq<bool>, n: nat)
    requires i < |rules| && n <= |trace| && SameAnswers(rules, i, trace, news, newsAlone)
    ensures TallyTo(rules, i, client, trace, news, n) == TallyTo([rules[i]], 0, client, trace, newsAlone, n)
  {
    if n > 0 {
      SameTallies(rules, i, client, trace, news, newsAlone, n - 1);
      TallyStep(rules, i, client, trace, news, n - 1);
      TallyStep([rules[i]], 0, client, trace, newsAlone, n - 1);
      AloneCounted(rules, i, trace, newsAlone, n - 1);
    }
  }

  /** The rule's counter when `n` packets have come. */
  function CounterAt(rules: seq<Rule>, trace: seq<Timed>, news: seq<bool>, n: nat, k: CounterKey): Counts
    requires n <= |trace|
  {
    CountsOf(CountsAfter(Arrivals(rules, trace, news)[..n]), k)
  }

  lemma CounterAtIs(rules: seq<Rule>, i: nat, client: ClientId, trace: seq<Timed>, news: seq<bool>, n: nat)
    requires DistinctIds(rules) && i < |rules| && rules[i].metric == Metric.Connections
    requires n <= |trace| <= U64_MAX
    ensures CounterAt(rules, trace, news, n, CounterKey(client, rules[i].id))
         == Counts(0, 0, TallyTo(rules, i, client, trace, news, n))
  {
    CounterIsTally(rules, i, client, Arrivals(rules, trace, news)[..n]);
  }

  /**
   * The exact condition for independence: all along the trace and for every client the
   * counter of a Connections rule is what it would be alone, if and only if its
   * questions get the same answers, packet for packet. (The trace is shorter than 2^64
   * packets, so that no counter saturates.)
   */
  lemma AloneExactly(rules: seq<Rule>, i: nat, trace: seq<Timed>, news: seq<bool>, newsAlone: seq<bool>)
    requires DistinctIds(rules) && i < |rules| && rules[i].metric == Metric.Connections && |trace| <= U64_MAX
    ensures SameAnswers(rules, i, trace, news, newsAlone) <==>
      forall n, client :: 0 <= n <= |trace| ==>
        CounterAt(rules, trace, news, n, CounterKey(client, rules[i].id))
          == CounterAt([rules[i]], trace, newsAlone, n, CounterKey(client, rules[i].id))
  {
    hide CounterAt, TallyTo;
    forall n, client | 0 <= n <= |trace|
      ensures CounterAt(rules, trace, news, n, CounterKey(client, rules[i].id))
           == Counts(0, 0, TallyTo(rules, i, client, trace, news, n))
      ensures CounterAt([rules[i]], trace, newsAlone, n, CounterKey(client, rules[i].id))
           == Counts(0, 0, TallyTo([rules[i]], 0, client, trace, newsAlone, n))
    {
      CounterAtIs(rules, i, client, trace, news, n);
      CounterAtIs([rules[i]], 0, client, trace, newsAlone, n);
    }
    if SameAnswers(rules, i, trace, news, newsAlone) {
      forall n, client | 0 <= n <= |trace|
        ensures CounterAt(rules, trace, news, n, CounterKey(client, rules[i].id))
             == CounterAt([rules[i]], trace, newsAlone, n, CounterKey(client, rules[i].id))
      {
        SameTallies(rules, i, client, trace, news, newsAlone, n);
      }
    } else {
      var n :| 0 <= n < |trace| && Concerns(rules[i], trace[n])
        && (First(rules, i, trace[n].packet) && AnswerTo(rules, trace, news, n))
           != AnswerTo([rules[i]], trace, newsAlone, n);
      var client := trace[n].packet.client;
      TallyStep(rules, i, client, trace, news, n);
      TallyStep([rules[i]], 0, client, trace, newsAlone, n);
      AloneCounted(rules, i, trace, newsAlone, n);
      var k := CounterKey(client, rules[i].id);
      assert CounterAt(rules, trace, news, n, k) != CounterAt([rules[i]], trace, newsAlone, n, k)
        || CounterAt(rules, trace, news, n + 1, k) != CounterAt([rules[i]], trace, newsAlone, n + 1, k);
    }
  }

  // ---- room in the table ------------------------------------------------------------------------

  predicate Ordered(trace: seq<Timed>) {
    && (forall n :: 0 <= n < |trace| ==> Proper(trace[n].packet))
    && (forall n, k :: 0 <= n <= k < |trace| ==> trace[n].at <= trace[k].at)
  }

  /** The observations made before packet `n`, as part of all of them. */
  lemma {:induction false} ObservedBefore(rules: seq<Rule>, trace: seq<Timed>, n: nat)
    requires n <= |trace|
    ensures var k, h := |Observations(rules, trace[..n])|, Observations(rules, trace);
      && k <= |h| && Observations(rules, trace[..n]) == h[..k]
      && (n < |trace| && Asks(rules, trace[n].packet) ==>
            k < |h| && h[k] == Seen(trace[n].packet.flow, trace[n].at))
  {
    if n == |trace| {
      assert trace[..n] == trace;
    } else {
      var front := trace[..|trace| - 1];
      assert front[..n] == trace[..n];
      ObservedBefore(rules, front, n);
      if n == |front| {
        assert front[..n] == front;
      }
    }
  }

  lemma {:induction false} ObservationsOrdered(rules: seq<Rule>, trace: seq<Timed>)
    requires Ordered(trace)
    ensures TimesMonotone(Observations(rules, trace))
    ensures forall s :: s in Observations(rules, trace) ==> trace != [] && s.at <= trace[|trace| - 1].at
  {
    if trace != [] {
      ObservationsOrdered(rules, trace[..|trace| - 1]);
    }
  }

  /** Alone the rule asks whenever it asks among others, about flows it selects. */
  lemma AsksAlone(rules: seq<Rule>, i: nat, p: Packet)
    requires i < |rules| && rules[i].metric == Metric.Connections
    ensures Asks([rules[i]], p) <==> Opens(p) && Selects(rules[i], p)
    ensures Asks([rules[i]], p) ==> Asks(rules, p)
  {
    var r := rules[i];
    assert Matching([r][1..], GenericProtocol(p), p.flow.dport) == [];
    if Selects(r, p) {
      ChosenSplit(rules, i, p);
      assert Chosen([r], p) == [r];
      assert Chosen(rules, p)[|Chosen(rules[..i], p)|] == r;
    }
  }

  lemma HeardNext(rules: seq<Rule>, trace: seq<Timed>, flow: FlowKey)
    requires trace != []
    ensures var front, q := trace[..|trace| - 1], trace[|trace| - 1];
      && LastSeen(Observations(rules, trace), flow)
         == (if Asks(rules, q.packet) && q.packet.flow == flow then Some(q.at)
             else LastSeen(Observations(rules, front), flow))
      && forall s :: s in Observations(rules, trace) <==>
           s in Observations(rules, front) || (Asks(rules, q.packet) && s == Seen(q.packet.flow, q.at))
  {
    hide Asks, LastSeen;
    var front, q := trace[..|trace| - 1], trace[|trace| - 1];
    if Asks(rules, q.packet) {
      LastSeenAppend(Observations(rules, front), Seen(q.packet.flow, q.at), flow);
    } else {
      assert Observations(rules, trace) == Observations(rules, front);
    }
  }

  /** The table hears the same of a flow the rule selects, and of fewer others. */
  lemma {:induction false} HeardAlone(rules: seq<Rule>, i: nat, trace: seq<Timed>, p: Packet)
    requires i < |rules| && rules[i].metric == Metric.Connections
    requires Selects(rules[i], p) && Proper(p) && forall n :: 0 <= n < |trace| ==> Proper(trace[n].packet)
    ensures LastSeen(Observations([rules[i]], trace), p.flow) == LastSeen(Observations(rules, trace), p.flow)
    ensures forall s :: s in Observations([rules[i]], trace) ==> s in Observations(rules, trace)
  {
    hide HasConnections, Chosen, LastSeen;
    if trace == [] {
      assert Observations([rules[i]], trace) == Observations(rules, trace);
    } else {
      hide Observations;
      var front, q := trace[..|trace| - 1], trace[|trace| - 1];
      HeardAlone(rules, i, front, p);
      AsksAlone(rules, i, q.packet);
      HeardNext(rules, trace, p.flow);
      HeardNext([rules[i]], trace, p.flow);
      if q.packet.flow == p.flow {
        assert GenericProtocol(q.packet) == GenericProtocol(p) && Selects(rules[i], q.packet);
        assert Asks(rules, q.packet) ==> Asks([rules[i]], q.packet);
      }
    }
  }

  /** At packet `n`: fewer than `max` other flows were observed since this one last was. */
  predicate Roomy(rules: seq<Rule>, trace: seq<Timed>, n: nat, max: nat)
    requires n < |trace|
  {
    var h, flow := Observations(rules, trace[..n]), trace[n].packet.flow;
    LastSeen(h, flow).Some? ==> |OthersSince(h, flow, LastSeen(h, flow).value)| < max
  }

  lemma RoomyAnswer(rules: seq<Rule>, trace: seq<Timed>, tables: seq<Flows>, news: seq<bool>, max: nat, idle: nat,
                    n: nat)
    requires Answers(rules, trace, tables, news, max, idle) && Ordered(trace) && max >= 1
    requires n < |trace| && Asks(rules, trace[n].packet) && Roomy(rules, trace, n, max)
    ensures var last := LastSeen(Observations(rules, trace[..n]), trace[n].packet.flow);
      AnswerTo(rules, trace, news, n) <==> last.None? || trace[n].at - last.value >= idle
  {
    hide Observed;
    ObservedBefore(rules, trace, n);
    ObservationsOrdered(rules, trace);
    ExactUntilCrowded(Observations(rules, trace), tables, news, max, idle, |Observations(rules, trace[..n])|);
  }

  /**
   * When a Connections rule counts as it would alone: it is the first selected by every
   * packet that opens a flow for it, and since each such flow was last seen fewer
   * other flows were observed than the table holds.
   */
  lemma FirstAndRoomyCountsAlone(rules: seq<Rule>, i: nat, trace: seq<Timed>, tables: seq<Flows>, news: seq<bool>,
                                 tablesAlone: seq<Flows>, newsAlone: seq<bool>, max: nat, idle: nat)
    requires DistinctIds(rules) && i < |rules| && rules[i].metric == Metric.Connections && |trace| <= U64_MAX
    requires Answers(rules, trace, tables, news, max, idle) && Ordered(trace) && max >= 1
    requires Answers([rules[i]], trace, tablesAlone, newsAlone, max, idle)
    requires forall n :: 0 <= n < |trace| && Opens(trace[n].packet) && Selects(rules[i], trace[n].packet) ==>
      First(rules, i, trace[n].packet) && Roomy(rules, trace, n, max)
    ensures forall n, client :: 0 <= n <= |trace| ==>
      CounterAt(rules, trace, news, n, CounterKey(client, rules[i].id))
        == CounterAt([rules[i]], trace, newsAlone, n, CounterKey(client, rules[i].id))
  {
    hide CounterAt, AnswerTo, First, Answers, Roomy;
    forall n | 0 <= n < |trace| && Concerns(rules[i], trace[n])
      ensures AnswerTo(rules, trace, news, n) == AnswerTo([rules[i]], trace, newsAlone, n)
    {
      SameAnswer(rules, i, trace, tables, news, tablesAlone, newsAlone, max, idle, n);
    }
    AloneExactly(rules, i, trace, news, newsAlone);
  }

  lemma SameAnswer(rules: seq<Rule>, i: nat, trace: seq<Timed>, tables: seq<Flows>, news: seq<bool>,
                   tablesAlone: seq<Flows>, newsAlone: seq<bool>, max: nat, idle: nat, n: nat)
    requires i < |rules| && rules[i].metric == Metric.Connections
    requires Answers(rules, trace, tables, news, max, idle) && Ordered(trace) && max >= 1
    requires Answers([rules[i]], trace, tablesAlone, newsAlone, max, idle)
    requires n < |trace| && Opens(trace[n].packet) && Selects(rules[i], trace[n].packet) && Roomy(rules, trace, n, max)
    ensures AnswerTo(rules, trace, news, n) == AnswerTo([rules[i]], trace, newsAlone, n)
  {
    hide AnswerTo, Answers;
    var p, r := trace[n].packet, rules[i];
    AsksAlone(rules, i, p);
    HeardAlone(rules, i, trace[..n], p);
    var h, alone := Observations(rules, trace[..n]), Observations([r], trace[..n]);
    if LastSeen(h, p.flow).Some? {
      var from := LastSeen(h, p.flow).value;
      SubsetSize(OthersSince(alone, p.flow, from), OthersSince(h, p.flow, from));
    }
    RoomyAnswer(rules, trace, tables, news, max, idle, n);
    RoomyAnswer([r], trace, tablesAlone, newsAlone, max, idle, n);
  }

  // ---- the exact condition, on rules, packets and times -------------------------------------------

  /** As `Ordered`, with no two packets at one instant. */
  predicate StrictlyOrdered(trace: seq<Timed>) {
    && (forall n :: 0 <= n < |trace| ==> Proper(trace[n].packet))
    && (forall n, k :: 0 <= n < k < |trace| ==> trace[n].at < trace[k].at)
  }

  lemma {:induction false} ObservationsIncrease(rules: seq<Rule>, trace: seq<Timed>)
    requires StrictlyOrdered(trace)
    ensures TimesIncrease(Observations(rules, trace))
    ensures forall s :: s in Observations(rules, trace) ==> trace != [] && s.at <= trace[|trace| - 1].at
  {
    if trace != [] {
      var front := trace[..|trace| - 1];
      ObservationsIncrease(rules, front);
      var h := Observations(rules, front);
      assert forall i :: 0 <= i < |h| ==> h[i] in h;
    }
  }

  /** Packet `n` opens a flow unknown to a table that was asked by these rules. */
  predicate UnknownAt(rules: seq<Rule>, trace: seq<Timed>, n: nat, max: nat, idle: nat)
    requires n < |trace|
  {
    Unknown(Observations(rules, trace[..n]), Seen(trace[n].packet.flow, trace[n].at), max, idle)
  }

  lemma AnswerIsUnknown(rules: seq<Rule>, trace: seq<Timed>, tables: seq<Flows>, news: seq<bool>, max: nat,
                      idle: nat, n: nat)
    requires Answers(rules, trace, tables, news, max, idle) && StrictlyOrdered(trace) && max >= 1
    requires n < |trace| && Asks(rules, trace[n].packet)
    ensures AnswerTo(rules, trace, news, n) <==> UnknownAt(rules, trace, n, max, idle)
  {
    hide Observed, Unknown;
    ObservedBefore(rules, trace, n);
    ObservationsIncrease(rules, trace);
    NewExactly(Observations(rules, trace), tables, news, max, idle, |Observations(rules, trace[..n])|);
  }

  /**
   * What decides independence: for every packet the rule is to count, its flow is
   * unknown alone just when it is unknown among the others and no Connections rule
   * stands before this one.
   */
  predicate Undisturbed(rules: seq<Rule>, i: nat, trace: seq<Timed>, max: nat, idle: nat)
    requires i < |rules|
  {
    forall n :: 0 <= n < |trace| && Concerns(rules[i], trace[n]) ==>
      (First(rules, i, trace[n].packet) && UnknownAt(rules, trace, n, max, idle))
        == UnknownAt([rules[i]], trace, n, max, idle)
  }

  /**
   * All along the trace and for every client a Connections rule counts what it would
   * alone, if and only if the rules, packets and times leave it undisturbed: whatever
   * the two tables do.
   */
  lemma UndisturbedExactly(rules: seq<Rule>, i: nat, trace: seq<Timed>, tables: seq<Flows>, news: seq<bool>,
                           tablesAlone: seq<Flows>, newsAlone: seq<bool>, max: nat, idle: nat)
    requires DistinctIds(rules) && i < |rules| && rules[i].metric == Metric.Connections && |trace| <= U64_MAX
    requires Answers(rules, trace, tables, news, max, idle) && StrictlyOrdered(trace) && max >= 1
    requires Answers([rules[i]], trace, tablesAlone, newsAlone, max, idle)
    ensures Undisturbed(rules, i, trace, max, idle) <==>
      forall n, client :: 0 <= n <= |trace| ==>
        CounterAt(rules, trace, news, n, CounterKey(client, rules[i].id))
          == CounterAt([rules[i]], trace, newsAlone, n, CounterKey(client, rules[i].id))
  {
    hide CounterAt, AnswerTo, First, Answers, UnknownAt;
    forall n | 0 <= n < |trace| && Concerns(rules[i], trace[n])
      ensures AnswerTo(rules, trace, news, n) == UnknownAt(rules, trace, n, max, idle)
      ensures AnswerTo([rules[i]], trace, newsAlone, n) == UnknownAt([rules[i]], trace, n, max, idle)
    {
      AsksAlone(rules, i, trace[n].packet);
      AnswerIsUnknown(rules, trace, tables, news, max, idle, n);
      AnswerIsUnknown([rules[i]], trace, tablesAlone, newsAlone, max, idle, n);
    }
    AloneExactly(rules, i, trace, news, newsAlone);
  }

  // ---- a full table makes a rule count a flow again ---------------------------------------------

  const WATCHES_81 :=
    Rule("a", Tcp, Some([81]), Metric.Connections, PerSecond, 0, Action.Block, 0, None)
  const WATCHES_80 :=
    Rule("b", Tcp, Some([80]), Metric.Connections, PerSecond, 0, Action.Block, 0, None)
  const BOTH := [WATCHES_81, WATCHES_80]

  function Syn(c: ClientId, sport: u16, dport: u16): Packet {
    Packet(OverTcp(true), c, FlowKey([10, 0, 0, 1], sport, [10, 0, 0, 2], dport, 6), [])
  }

  /** One flow to port 80, then `max` flows to port 81, then the first flow again. */
  function PacketAt(c: ClientId, max: nat, n: nat): Packet
    requires max <= 0x1_0000
  {
    if 1 <= n <= max then Syn(c, n - 1, 81) else Syn(c, 0, 80)
  }

  function TimeAt(max: nat, n: nat): nat {
    if n == 0 then 0 else if n <= max then 1 else 2
  }

  function Crowd(env: Env, c: ClientId, max: nat): seq<Timed>
    requires max <= 0x1_0000
  {
    seq(max + 2, n requires 0 <= n < max + 2 => Timed(env, PacketAt(c, max, n), TimeAt(max, n)))
  }

  lemma NeitherSelectsBoth(c: ClientId, sport: u16)
    ensures First(BOTH, 1, Syn(c, sport, 80))
  {
    var p := Syn(c, sport, 80);
    assert BOTH[..1] == [WATCHES_81] && [WATCHES_81][1..] == [];
    assert 80 !in WATCHES_81.ports.value;
    assert Matching([WATCHES_81][1..], Tcp, 80) == [];
    assert Matching([WATCHES_81], Tcp, 80) == [];
    assert Chosen(BOTH[..1], p) == [];
  }

  lemma CrowdAsks(c: ClientId, sport: u16, dport: u16)
    requires dport == 80 || dport == 81
    ensures Asks(BOTH, Syn(c, sport, dport))
    ensures Asks([WATCHES_80], Syn(c, sport, dport)) <==> dport == 80
  {
    var p := Syn(c, sport, dport);
    AsksAlone(BOTH, 0, p);
    AsksAlone(BOTH, 1, p);
    assert [BOTH[0]] == [WATCHES_81] && [BOTH[1]] == [WATCHES_80];
  }

  /** What the table hears of the crowd, with both rules and with one. */
  function HeardAt(c: ClientId, max: nat, n: nat): Seen
    requires max <= 0x1_0000
  {
    Seen(PacketAt(c, max, n).flow, TimeAt(max, n))
  }

  lemma {:induction false} CrowdObserved(env: Env, c: ClientId, max: nat, n: nat)
    requires 1 <= max <= 0x1_0000 && n <= max + 2
    ensures var t := Crowd(env, c, max);
      && Observations(BOTH, t[..n]) == seq(n, k requires 0 <= k < n => HeardAt(c, max, k))
      && Observations([WATCHES_80], t[..n])
         == (if n == 0 then [] else [HeardAt(c, max, 0)]) + (if n == max + 2 then [HeardAt(c, max, max + 1)] else [])
  {
    if n > 0 {
      hide Asks;
      var t := Crowd(env, c, max);
      CrowdObserved(env, c, max, n - 1);
      assert t[..n][..n - 1] == t[..n - 1];
      var p := PacketAt(c, max, n - 1);
      CrowdAsks(c, p.flow.sport, p.flow.dport);
    }
  }

  /** Observations like the crowd's. */
  predicate CrowdHeard(h: seq<Seen>, first: FlowKey, max: nat) {
    && |h| == max + 2 && first.dport == 80 && h[0] == Seen(first, 0) && h[max + 1] == Seen(first, 2)
    && forall k :: 1 <= k <= max ==> h[k].at == 1 && h[k].key.dport == 81 && h[k].key.sport == k - 1
  }

  lemma CrowdIsHeard(env: Env, c: ClientId, max: nat)
    requires 1 <= max <= 0x1_0000
    ensures CrowdHeard(Observations(BOTH, Crowd(env, c, max)), PacketAt(c, max, 0).flow, max)
    ensures Observations([WATCHES_80], Crowd(env, c, max))
         == [Seen(PacketAt(c, max, 0).flow, 0), Seen(PacketAt(c, max, 0).flow, 2)]
  {
    var t := Crowd(env, c, max);
    CrowdObserved(env, c, max, max + 2);
    assert t[..max + 2] == t;
  }

  /** The first flow and `n` others are in the table, and it is the oldest. */
  ghost predicate Crowded(flows: Flows, first: FlowKey, n: nat) {
    && |flows| == n + 1 && first in flows && flows[first] == 0
    && forall k :: k in flows && k != first ==> flows[k] == 1 && k.dport == 81 && k.sport < n
  }

  lemma CrowdStep(flows: Flows, first: FlowKey, key: FlowKey, max: nat, idle: nat, after: Flows, isNew: bool, n: nat)
    requires 1 <= n <= max && idle > 2 && first.dport == 80
    requires Crowded(flows, first, n - 1) && key.dport == 81 && key.sport == n - 1
    requires Observed(flows, key, 1, max, idle, after, isNew)
    ensures if n < max then Crowded(after, first, n) else first !in after
  {
    assert Kept(flows, 1, idle) == flows;
    assert key !in flows;
    if n < max {
      assert after.Keys == flows.Keys + {key};
      assert |after.Keys| == |flows.Keys| + 1;
    }
  }

  lemma {:induction false} CrowdFills(h: seq<Seen>, first: FlowKey, tables: seq<Flows>, news: seq<bool>, max: nat,
                      idle: nat, n: nat)
    requires 1 <= n <= max && idle > 2
    requires CrowdHeard(h, first, max) && Runs(h, tables, news, max, idle)
    ensures if n < max then Crowded(tables[n + 1], first, n) else first !in tables[n + 1]
  {
    hide Observed, Crowded;
    if n == 1 {
      CrowdStarts(h, first, tables, news, max, idle);
    } else {
      CrowdFills(h, first, tables, news, max, idle, n - 1);
    }
    CrowdStep(tables[n], first, h[n].key, max, idle, tables[n + 1], news[n], n);
  }

  lemma CrowdStarts(h: seq<Seen>, first: FlowKey, tables: seq<Flows>, news: seq<bool>, max: nat, idle: nat)
    requires max >= 1 && idle > 2
    requires CrowdHeard(h, first, max) && Runs(h, tables, news, max, idle)
    ensures news[0] && Crowded(tables[1], first, 0)
  {
    assert Observed(tables[0], first, 0, max, idle, tables[1], news[0]);
    assert Kept(tables[0], 0, idle) == map[];
    assert tables[1] == map[first := 0];
  }

  /** With both rules the first flow is new again; alone it is still known. */
  lemma CrowdAnswers(env: Env, c: ClientId, max: nat, idle: nat, tables: seq<Flows>, news: seq<bool>)
    requires 1 <= max <= 0x1_0000 && idle > 2
    requires Answers(BOTH, Crowd(env, c, max), tables, news, max, idle)
    ensures |news| == max + 2 && news[0] && news[max + 1]
  {
    var h, first := Observations(BOTH, Crowd(env, c, max)), PacketAt(c, max, 0).flow;
    CrowdIsHeard(env, c, max);
    CrowdStarts(h, first, tables, news, max, idle);
    CrowdFills(h, first, tables, news, max, idle, max);
    assert Observed(tables[max + 1], first, 2, max, idle, tables[max + 2], news[max + 1]);
  }

  lemma CrowdAnswersAlone(env: Env, c: ClientId, max: nat, idle: nat, tables: seq<Flows>, news: seq<bool>)
    requires 1 <= max <= 0x1_0000 && idle > 2
    requires Answers([WATCHES_80], Crowd(env, c, max), tables, news, max, idle)
    ensures |news| == 2 && news[0] && !news[1]
  {
    var first := PacketAt(c, max, 0).flow;
    CrowdIsHeard(env, c, max);
    assert Observed(tables[0], first, 0, max, idle, tables[1], news[0]);
    assert Kept(tables[0], 0, idle) == map[];
    assert Observed(tables[1], first, 2, max, idle, tables[2], news[1]);
    assert tables[1] == map[first := 0];
  }

  lemma CrowdCounted(env: Env, c: ClientId, max: nat, idle: nat, tables: seq<Flows>, news: seq<bool>,
                     tablesAlone: seq<Flows>, newsAlone: seq<bool>, n: nat)
    requires 1 <= max <= 0x1_0000 && idle > 2 && n < max + 2
    requires Answers(BOTH, Crowd(env, c, max), tables, news, max, idle)
    requires Answers([WATCHES_80], Crowd(env, c, max), tablesAlone, newsAlone, max, idle)
    ensures Counted(BOTH, 1, Crowd(env, c, max), news, n) <==> n == 0 || n == max + 1
    ensures Counted([WATCHES_80], 0, Crowd(env, c, max), newsAlone, n) <==> n == 0
  {
    hide Answers, Asks, First;
    var t, p := Crowd(env, c, max), PacketAt(c, max, n);
    CrowdAnswers(env, c, max, idle, tables, news);
    CrowdAnswersAlone(env, c, max, idle, tablesAlone, newsAlone);
    CrowdAsks(c, p.flow.sport, p.flow.dport);
    NeitherSelectsBoth(c, p.flow.sport);
    CrowdObserved(env, c, max, n);
    AloneCounted(BOTH, 1, t, newsAlone, n);
    assert [BOTH[1]] == [WATCHES_80];
  }

  lemma {:induction false} CrowdTally(env: Env, c: ClientId, max: nat, idle: nat, tables: seq<Flows>, news: seq<bool>,
                                      tablesAlone: seq<Flows>, newsAlone: seq<bool>, n: nat)
    requires 1 <= max <= 0x1_0000 && idle > 2 && 1 <= n <= max + 2
    requires Answers(BOTH, Crowd(env, c, max), tables, news, max, idle)
    requires Answers([WATCHES_80], Crowd(env, c, max), tablesAlone, newsAlone, max, idle)
    ensures TallyTo(BOTH, 1, c, Crowd(env, c, max), news, n) == if n == max + 2 then 2 else 1
    ensures TallyTo([WATCHES_80], 0, c, Crowd(env, c, max), newsAlone, n) == 1
  {
    hide Counted, Answers, TallyTo;
    var t := Crowd(env, c, max);
    CrowdCounted(env, c, max, idle, tables, news, tablesAlone, newsAlone, n - 1);
    TallyStep(BOTH, 1, c, t, news, n - 1);
    TallyStep([WATCHES_80], 0, c, t, newsAlone, n - 1);
    if n > 1 {
      CrowdTally(env, c, max, idle, tables, news, tablesAlone, newsAlone, n - 1);
    }
  }

  /**
   * Two rules that never select the same packet still interfere: the flows one of them
   * counts push a flow of the other out of the table, and it is counted twice.
   */
  lemma CrowdingRecounts(env: Env, c: ClientId, max: nat, idle: nat, tables: seq<Flows>, news: seq<bool>,
                         tablesAlone: seq<Flows>, newsAlone: seq<bool>)
    requires 1 <= max <= 0x1_0000 && idle > 2
    requires Answers(BOTH, Crowd(env, c, max), tables, news, max, idle)
    requires Answers([WATCHES_80], Crowd(env, c, max), tablesAlone, newsAlone, max, idle)
    ensures var t, k := Crowd(env, c, max), CounterKey(c, "b");
      && CounterAt(BOTH, t, news, |t|, k) == Counts(0, 0, 2)
      && CounterAt([WATCHES_80], t, newsAlone, |t|, k) == Counts(0, 0, 1)
  {
    hide CounterAt, TallyTo, Answers;
    var t := Crowd(env, c, max);
    assert "a" != "b";
    CrowdTally(env, c, max, idle, tables, news, tablesAlone, newsAlone, max + 2);
    CounterAtIs(BOTH, 1, c, t, news, |t|);
    CounterAtIs([WATCHES_80], 0, c, t, newsAlone, |t|);
  }

  /** With the daemon's own table: two rules on different ports, one flow counted twice by the second. */
  lemma OtherRulesRecount(env: Env, c: ClientId)
    returns (tables: seq<Flows>, news: seq<bool>, tablesAlone: seq<Flows>, newsAlone: seq<bool>)
    ensures Answers(BOTH, Crowd(env, c, 8192), tables, news, 8192, 60 * NANOS)
    ensures Answers([WATCHES_80], Crowd(env, c, 8192), tablesAlone, newsAlone, 8192, 60 * NANOS)
    ensures CounterAt(BOTH, Crowd(env, c, 8192), news, 8194, CounterKey(c, "b")) == Counts(0, 0, 2)
    ensures CounterAt([WATCHES_80], Crowd(env, c, 8192), newsAlone, 8194, CounterKey(c, "b")) == Counts(0, 0, 1)
  {
    hide CounterAt, Runs, Observations;
    tables, news := SomeRun(Observations(BOTH, Crowd(env, c, 8192)), 8192, 60 * NANOS);
    tablesAlone, newsAlone := SomeRun(Observations([WATCHES_80], Crowd(env, c, 8192)), 8192, 60 * NANOS);
    CrowdingRecounts(env, c, 8192, 60 * NANOS, tables, news, tablesAlone, newsAlone);
  }
}
