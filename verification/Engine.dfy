/** The rule engine: which rules a client's windows violate. */
module Engine {
  import opened Base
  import opened Rules
  import opened Window

  datatype Violation = Violation(rule: RuleId, value: u64, limit: u64, action: Action)

  /** The rules whose observed value exceeds their limit, in load order. */
  function Exceeding(rules: seq<Rule>, value: Rule -> u64): seq<Violation> {
    if rules == [] then []
    else
      var r := rules[0];
      var rest := Exceeding(rules[1..], value);
      if value(r) > r.limit then [Violation(r.id, value(r), r.limit, r.action)] + rest else rest
  }

  function Observed(ws: WinMap): Rule -> u64 {
    (r: Rule) => SumRule(ws, r.id, r.metric, Secs(r.span))
  }

  function Evaluate(rules: seq<Rule>, ws: WinMap): seq<Violation> {
    Exceeding(rules, Observed(ws))
  }

  lemma {:induction false} ExceedingAppend(front: seq<Rule>, r: Rule, value: Rule -> u64)
    ensures Exceeding(front + [r], value) == Exceeding(front, value)
         + if value(r) > r.limit then [Violation(r.id, value(r), r.limit, r.action)] else []
  {
    if front == [] {
      assert [r][1..] == [];
    } else {
      assert (front + [r])[1..] == front[1..] + [r];
      ExceedingAppend(front[1..], r, value);
    }
  }

  /** Only the observed values of the listed rules matter. */
  lemma {:induction false} ExceedingAgrees(rules: seq<Rule>, f: Rule -> u64, g: Rule -> u64)
    requires forall r :: r in rules ==> f(r) == g(r)
    ensures Exceeding(rules, f) == Exceeding(rules, g)
  {
    if rules != [] {
      ExceedingAgrees(rules[1..], f, g);
    }
  }

  /** Every violation reports one rule above its limit, and every such rule is reported. */
  lemma {:induction false} ExceedingExactly(rules: seq<Rule>, value: Rule -> u64, v: Violation)
    ensures v in Exceeding(rules, value) <==>
      exists r :: r in rules && value(r) > r.limit && v == Violation(r.id, value(r), r.limit, r.action)
  {
    if rules != [] {
      ExceedingExactly(rules[1..], value, v);
      assert forall r :: r in rules <==> r == rules[0] || r in rules[1..];
    }
  }
}
