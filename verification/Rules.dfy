/** Rules, their validation and the immutable rule set. */
module Rules {
  import opened Base

  type RuleId = string

  const MAX_RULES: nat := 256

  datatype Protocol = Http | WebSocket | Z21 | Withrottle | Udp | Tcp

  datatype Metric = Requests | Bytes | Connections

  datatype Span = PerSecond | PerMinute

  datatype Action = Throttle(dropRate: u8) | Block

  /** `program` names a compiled match expression; None matches everything. */
  datatype Rule = Rule(
    id: RuleId, protocol: Protocol, ports: Option<seq<u16>>, metric: Metric,
    span: Span, limit: u64, action: Action, minThreshold: u64, program: Option<nat>)

  datatype ConfigError =
    | TooManyRules(count: nat)
    | PortsRequired(id: RuleId)
    | InvalidMetric(id: RuleId)
    | InvalidDropRate(id: RuleId, rate: u8)
    | DuplicateRuleId(id: RuleId)

  function Secs(s: Span): nat {
    match s
    case PerSecond => 1
    case PerMinute => 60
  }

  predicate IsParsed(p: Protocol) {
    p != Udp && p != Tcp
  }

  predicate ValidFor(m: Metric, p: Protocol) {
    if IsParsed(p) then m == Requests || m == Bytes else m == Connections || m == Bytes
  }

  predicate MatchesPort(r: Rule, port: u16) {
    match r.ports
    case None => true
    case Some(ports) => port in ports
  }

  /** The first constraint a rule breaks, in the order the source tests them. */
  function Validate(r: Rule): Option<ConfigError> {
    if IsParsed(r.protocol) && (r.ports.None? || r.ports.value == []) then Some(PortsRequired(r.id))
    else if !ValidFor(r.metric, r.protocol) then Some(InvalidMetric(r.id))
    else if r.action.Throttle? && r.action.dropRate > 100 then Some(InvalidDropRate(r.id, r.action.dropRate))
    else None
  }

  /** What loading a rule set promises about every loaded rule. */
  predicate WellFormed(r: Rule) {
    && (IsParsed(r.protocol) ==> r.ports.Some? && r.ports.value != [] && r.metric != Connections)
    && (!IsParsed(r.protocol) ==> r.metric != Requests)
    && (r.action.Throttle? ==> r.action.dropRate <= 100)
  }

  predicate DistinctIds(rules: seq<Rule>) {
    forall i, j :: 0 <= i < j < |rules| ==> rules[i].id != rules[j].id
  }

  /** Rules that select a protocol and destination port, in load order. */
  function Matching(rules: seq<Rule>, protocol: Protocol, port: u16): seq<Rule> {
    if rules == [] then []
    else
      var rest := Matching(rules[1..], protocol, port);
      if rules[0].protocol == protocol && MatchesPort(rules[0], port) then [rules[0]] + rest else rest
  }

  /**
   * A rule is accepted exactly when a parsed protocol names ports and counts requests or
   * bytes, TCP and UDP count connections or bytes, and a throttle is a percentage.
   */
  lemma AcceptedExactly(r: Rule)
    ensures WellFormed(r) <==> Validate(r).None?
    ensures WellFormed(r) <==>
      && (r.protocol in {Http, WebSocket, Z21, Withrottle} ==>
            r.ports.Some? && r.ports.value != [] && r.metric in {Requests, Bytes})
      && (r.protocol in {Tcp, Udp} ==> r.metric in {Connections, Bytes})
      && (r.action.Throttle? ==> r.action.dropRate <= 100)
  {
  }

  /** The rule at `i` is the first to be refused, with error `e`. */
  predicate FirstRefused(rules: seq<Rule>, i: nat, e: ConfigError)
    requires i < |rules|
  {
    && (forall k :: 0 <= k < i ==> WellFormed(rules[k]))
    && DistinctIds(rules[..i])
    && match e
       case DuplicateRuleId(id) =>
         id == rules[i].id && WellFormed(rules[i]) && exists k :: 0 <= k < i && rules[k].id == id
       case TooManyRules(_) => false
       case PortsRequired(id) =>
         id == rules[i].id && IsParsed(rules[i].protocol) && (rules[i].ports.None? || rules[i].ports.value == [])
       case InvalidMetric(id) =>
         id == rules[i].id && !ValidFor(rules[i].metric, rules[i].protocol)
       case InvalidDropRate(id, rate) =>
         id == rules[i].id && rules[i].action == Throttle(rate) && rate > 100
  }

  /**
   * Builds a rule set. It succeeds exactly on at most MAX_RULES well-formed rules
   * with distinct ids, keeping their order; otherwise it reports the first rule
   * that cannot be accepted after those before it.
   */
  method NewRuleSet(rules: seq<Rule>) returns (r: Result<seq<Rule>, ConfigError>)
    ensures r.Ok? <==>
      |rules| <= 256 && DistinctIds(rules) && forall k :: 0 <= k < |rules| ==> WellFormed(rules[k])
    ensures r.Ok? ==> r.value == rules
    ensures r.Err? && |rules| > 256 ==> r.error == TooManyRules(|rules|)
    ensures r.Err? && |rules| <= 256 ==> exists i :: 0 <= i < |rules| && FirstRefused(rules, i, r.error)
  {
    if |rules| > MAX_RULES {
      return Err(TooManyRules(|rules|));
    }
    var seen: set<RuleId> := {};
    for i := 0 to |rules|
      invariant forall k :: 0 <= k < i ==> WellFormed(rules[k])
      invariant DistinctIds(rules[..i])
      invariant forall id :: id in seen <==> exists k :: 0 <= k < i && rules[k].id == id
    {
      var broken := Validate(rules[i]);
      if broken.Some? {
        assert FirstRefused(rules, i, broken.value);
        return Err(broken.value);
      }
      if rules[i].id in seen {
        assert FirstRefused(rules, i, DuplicateRuleId(rules[i].id));
        return Err(DuplicateRuleId(rules[i].id));
      }
      seen := seen + {rules[i].id};
    }
    assert rules[..|rules|] == rules;
    return Ok(rules);
  }
}
