/** Cumulative counters: saturating totals per (client, rule) and per client. */
module Counters {
  import opened Base
  import opened Client
  import opened Rules

  datatype Counts = Counts(requests: u64, bytes: u64, connections: u64)

  const NOTHING := Counts(0, 0, 0)

  datatype CounterKey = CounterKey(client: ClientId, rule: RuleId)

  datatype Cumulative = Cumulative(counts: Counts, wsConnections: u64)

  /** One call of `add_requests`, `add_bytes` or `add_connections`. */
  datatype Added = Added(client: ClientId, rule: RuleId, metric: Metric, amount: u64)

  type RuleCounts = map<CounterKey, Counts>
  type ClientCounts = map<ClientId, Cumulative>

  function Count(c: Counts, m: Metric): u64 {
    match m
    case Requests => c.requests
    case Bytes => c.bytes
    case Connections => c.connections
  }

  function Bump(c: Counts, m: Metric, amount: u64): Counts {
    match m
    case Requests => c.(requests := SatAdd(c.requests, amount))
    case Bytes => c.(bytes := SatAdd(c.bytes, amount))
    case Connections => c.(connections := SatAdd(c.connections, amount))
  }

  /** A key that was never counted reads as zero. */
  function CountsOf(m: RuleCounts, k: CounterKey): Counts {
    if k in m then m[k] else NOTHING
  }

  function CumulativeOf(m: ClientCounts, c: ClientId): Cumulative {
    if c in m then m[c] else Cumulative(NOTHING, 0)
  }

  function BumpRule(m: RuleCounts, a: Added): RuleCounts {
    var k := CounterKey(a.client, a.rule);
    m[k := Bump(CountsOf(m, k), a.metric, a.amount)]
  }

  function BumpClient(m: ClientCounts, a: Added): ClientCounts {
    var c := CumulativeOf(m, a.client);
    m[a.client := c.(counts := Bump(c.counts, a.metric, a.amount))]
  }

  function BumpHandshake(m: ClientCounts, client: ClientId): ClientCounts {
    var c := CumulativeOf(m, client);
    m[client := c.(wsConnections := SatAdd(c.wsConnections, 1))]
  }

  predicate NoLess(a: Counts, b: Counts) {
    forall m: Metric :: Count(a, m) <= Count(b, m)
  }

  class CounterStore {
    var byRule: RuleCounts
    var byClient: ClientCounts

    constructor ()
      ensures byRule == map[] && byClient == map[]
    {
      byRule, byClient := map[], map[];
    }

    /** The first critical section of an addition. */
    method AddToRule(a: Added)
      modifies this`byRule
      ensures byRule == BumpRule(old(byRule), a)
    {
      var k := CounterKey(a.client, a.rule);
      if k !in byRule {
        byRule := byRule[k := NOTHING];
      }
      byRule := byRule[k := Bump(byRule[k], a.metric, a.amount)];
    }

    /** The second critical section; readers may run between the two. */
    method AddToClient(a: Added)
      modifies this`byClient
      ensures byClient == BumpClient(old(byClient), a)
    {
      if a.client !in byClient {
        byClient := byClient[a.client := Cumulative(NOTHING, 0)];
      }
      var c := byClient[a.client];
      byClient := byClient[a.client := c.(counts := Bump(c.counts, a.metric, a.amount))];
    }

    method Add(a: Added)
      modifies this
      ensures byRule == BumpRule(old(byRule), a)
      ensures byClient == BumpClient(old(byClient), a)
    {
      AddToRule(a);
      AddToClient(a);
    }

    method AddWsConnection(client: ClientId)
      modifies this`byClient
      ensures byClient == BumpHandshake(old(byClient), client)
    {
      var c := if client in byClient then byClient[client] else Cumulative(NOTHING, 0);
      byClient := byClient[client := c.(wsConnections := SatAdd(c.wsConnections, 1))];
    }
  }

  // ---- conservation over the sniffer's critical sections -------------------------

  /** What the sniffer thread does under a lock; snapshots may be read after any step. */
  datatype CounterStep =
    | RuleHalf(added: Added)
    | ClientHalf
    | Handshake(client: ClientId)

  datatype Store = Store(byRule: RuleCounts, byClient: ClientCounts, pending: Option<Added>)

  /** One thread: an addition's two halves are not interrupted by another addition. */
  predicate Enabled(s: Store, step: CounterStep) {
    step.ClientHalf? <==> s.pending.Some?
  }

  function Next(s: Store, step: CounterStep): Store
    requires Enabled(s, step)
  {
    match step
    case RuleHalf(a) => s.(byRule := BumpRule(s.byRule, a), pending := Some(a))
    case ClientHalf => s.(byClient := BumpClient(s.byClient, s.pending.value), pending := None)
    case Handshake(c) => s.(byClient := BumpHandshake(s.byClient, c))
  }

  /** The store after some steps, when each was enabled. */
  function After(steps: seq<CounterStep>): Option<Store> {
    if steps == [] then Some(Store(map[], map[], None))
    else
      var s := After(steps[..|steps| - 1]);
      var step := steps[|steps| - 1];
      if s.Some? && Enabled(s.value, step) then Some(Next(s.value, step)) else None
  }

  /** Exact amount added for one metric to the keys that `counts` selects. */
  function AddedTo(steps: seq<CounterStep>, counts: Added -> bool, m: Metric): nat {
    if steps == [] then 0
    else
      var step := steps[|steps| - 1];
      AddedTo(steps[..|steps| - 1], counts, m)
      + if step.RuleHalf? && step.added.metric == m && counts(step.added) then step.added.amount else 0
  }

  function Handshakes(steps: seq<CounterStep>, client: ClientId): nat {
    if steps == [] then 0
    else Handshakes(steps[..|steps| - 1], client) + if steps[|steps| - 1] == Handshake(client) then 1 else 0
  }

  function ForKey(k: CounterKey): Added -> bool {
    (a: Added) => a.client == k.client && a.rule == k.rule
  }

  function ForClient(c: ClientId): Added -> bool {
    (a: Added) => a.client == c
  }

  function Pending(s: Store, c: ClientId, m: Metric): nat {
    if s.pending.Some? && s.pending.value.client == c && s.pending.value.metric == m
    then s.pending.value.amount else 0
  }

  lemma {:induction false} RuleCountersConserve(steps: seq<CounterStep>, k: CounterKey, m: Metric)
    requires After(steps).Some?
    ensures Count(CountsOf(After(steps).value.byRule, k), m) == Min(U64_MAX, AddedTo(steps, ForKey(k), m))
  {
    if steps != [] {
      RuleCountersConserve(steps[..|steps| - 1], k, m);
    }
  }

  lemma {:induction false} ClientCountersConserve(steps: seq<CounterStep>, c: ClientId, m: Metric)
    requires After(steps).Some?
    ensures var s := After(steps).value;
      && Pending(s, c, m) <= AddedTo(steps, ForClient(c), m)
      && Count(CumulativeOf(s.byClient, c).counts, m)
         == Min(U64_MAX, AddedTo(steps, ForClient(c), m) - Pending(s, c, m))
  {
    if steps != [] {
      ClientCountersConserve(steps[..|steps| - 1], c, m);
    }
  }

  lemma {:induction false} HandshakesConserve(steps: seq<CounterStep>, c: ClientId)
    requires After(steps).Some?
    ensures CumulativeOf(After(steps).value.byClient, c).wsConnections == Min(U64_MAX, Handshakes(steps, c))
  {
    if steps != [] {
      HandshakesConserve(steps[..|steps| - 1], c);
    }
  }

  /**
   * Conservation at every point a reader can see: a rule's counter is all that was
   * added to it, and a client's counter is all that was added to any of its rules
   * less at most the one addition whose second half is still to run.
   */
  lemma CountersConserve(steps: seq<CounterStep>, k: CounterKey, m: Metric)
    requires After(steps).Some?
    ensures var s := After(steps).value;
      && Count(CountsOf(s.byRule, k), m) == Min(U64_MAX, AddedTo(steps, ForKey(k), m))
      && Pending(s, k.client, m) <= AddedTo(steps, ForClient(k.client), m)
      && Count(CumulativeOf(s.byClient, k.client).counts, m)
         == Min(U64_MAX, AddedTo(steps, ForClient(k.client), m) - Pending(s, k.client, m))
      && CumulativeOf(s.byClient, k.client).wsConnections == Min(U64_MAX, Handshakes(steps, k.client))
  {
    RuleCountersConserve(steps, k, m);
    ClientCountersConserve(steps, k.client, m);
    HandshakesConserve(steps, k.client);
  }

  /** No counter ever goes down. */
  lemma {:induction false} CountersGrow(steps: seq<CounterStep>, n: nat, k: CounterKey)
    requires n <= |steps| && After(steps).Some?
    ensures After(steps[..n]).Some?
    ensures var early, late := After(steps[..n]).value, After(steps).value;
      && NoLess(CountsOf(early.byRule, k), CountsOf(late.byRule, k))
      && NoLess(CumulativeOf(early.byClient, k.client).counts, CumulativeOf(late.byClient, k.client).counts)
      && CumulativeOf(early.byClient, k.client).wsConnections <= CumulativeOf(late.byClient, k.client).wsConnections
  {
    if n == |steps| {
      assert steps[..n] == steps;
    } else {
      var front := steps[..|steps| - 1];
      assert front[..n] == steps[..n];
      CountersGrow(front, n, k);
    }
  }
}
