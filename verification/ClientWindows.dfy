/** The windows of every client, and how one tick feeds them from the counters. */
module ClientWindows {
  import opened Base
  import opened Client
  import opened Rules
  import opened Window
  import opened Counters
  import opened TickWindows
  import opened Engine

  function RulesOf(snapshot: RuleCounts, client: ClientId): set<RuleId> {
    set k | k in snapshot && k.client == client :: k.rule
  }

  function TickRule(ws: WinMap, snapshot: RuleCounts, last: RuleCounts, client: ClientId, now: nat,
                    id: RuleId): Option<Win>
  {
    var k := CounterKey(client, id);
    TickWin(Get(ws, id), CountsOf(last, k), CountsOf(snapshot, k), now)
  }

  /** A client's windows after a tick, rule by rule. */
  function TickClient(ws: WinMap, snapshot: RuleCounts, last: RuleCounts, client: ClientId, now: nat): WinMap {
    map id | id in ws.Keys + RulesOf(snapshot, client) && TickRule(ws, snapshot, last, client, now, id).Some?
      :: TickRule(ws, snapshot, last, client, now, id).value
  }

  /** One rule's deltas, added to windows that were all advanced to `now`. */
  function FeedRule(ws: WinMap, was: Counts, counts: Counts, id: RuleId, now: nat): WinMap {
    var w1 := if Delta(was, counts, Requests) > 0
              then AddRule(ws, id, Requests, Delta(was, counts, Requests), now) else ws;
    var w2 := if Delta(was, counts, Bytes) > 0
              then AddRule(w1, id, Bytes, Delta(was, counts, Bytes), now) else w1;
    if Delta(was, counts, Connections) > 0
    then AddRule(w2, id, Connections, Delta(was, counts, Connections), now) else w2
  }

  lemma FeedRuleIs(ws: WinMap, advanced: WinMap, was: Counts, counts: Counts, id: RuleId, now: nat)
    requires Get(advanced, id) == if id in ws then Some(AdvanceWin(ws[id], now)) else None
    ensures Get(FeedRule(advanced, was, counts, id, now), id) == TickWin(Get(ws, id), was, counts, now)
    ensures forall other :: other != id ==> Get(FeedRule(advanced, was, counts, id, now), other) == Get(advanced, other)
  {
  }

  lemma WinMapsEqual(a: WinMap, b: WinMap)
    requires forall id :: Get(a, id) == Get(b, id)
    ensures a == b
  {
    assert forall id :: (id in a <==> Get(a, id).Some?) && (id in b <==> Get(b, id).Some?);
  }

  method FeedDelta(win: RuleWindows, id: RuleId, m: Metric, delta: u64, now: nat)
    requires win.Valid()
    modifies win.Repr
    ensures win.Valid() && fresh(win.Repr - old(win.Repr))
    ensures win.wins == if delta > 0 then AddRule(old(win.wins), id, m, delta, now) else old(win.wins)
  {
    if delta > 0 {
      win.Add(id, m, delta, now);
    }
  }

  method FeedKey(win: RuleWindows, was: Counts, counts: Counts, id: RuleId, now: nat)
    requires win.Valid()
    modifies win.Repr
    ensures win.Valid() && fresh(win.Repr - old(win.Repr))
    ensures win.wins == FeedRule(old(win.wins), was, counts, id, now)
  {
    FeedDelta(win, id, Requests, Delta(was, counts, Requests), now);
    FeedDelta(win, id, Bytes, Delta(was, counts, Bytes), now);
    FeedDelta(win, id, Connections, Delta(was, counts, Connections), now);
  }

  /** The client's windows when the keys in `fed` have had their deltas. */
  function Fed(ws: WinMap, snapshot: RuleCounts, last: RuleCounts, client: ClientId, now: nat,
               fed: set<CounterKey>): WinMap
  {
    map id | id in ws.Keys + RulesOf(snapshot, client) && FedRule(ws, snapshot, last, client, now, fed, id).Some?
      :: FedRule(ws, snapshot, last, client, now, fed, id).value
  }

  function FedRule(ws: WinMap, snapshot: RuleCounts, last: RuleCounts, client: ClientId, now: nat,
                   fed: set<CounterKey>, id: RuleId): Option<Win>
  {
    if CounterKey(client, id) in fed then TickRule(ws, snapshot, last, client, now, id)
    else if id in ws then Some(AdvanceWin(ws[id], now))
    else None
  }

  lemma FedIs(ws: WinMap, snapshot: RuleCounts, last: RuleCounts, client: ClientId, now: nat, fed: set<CounterKey>,
              id: RuleId)
    requires fed <= snapshot.Keys
    ensures Get(Fed(ws, snapshot, last, client, now, fed), id) == FedRule(ws, snapshot, last, client, now, fed, id)
  {
    if CounterKey(client, id) in fed {
      assert id in RulesOf(snapshot, client);
    }
  }

  lemma FedNone(ws: WinMap, snapshot: RuleCounts, last: RuleCounts, client: ClientId, now: nat)
    ensures Fed(ws, snapshot, last, client, now, {}) == AdvanceRules(ws, now)
  {
    forall id ensures Get(Fed(ws, snapshot, last, client, now, {}), id) == Get(AdvanceRules(ws, now), id) {
      FedIs(ws, snapshot, last, client, now, {}, id);
    }
    WinMapsEqual(Fed(ws, snapshot, last, client, now, {}), AdvanceRules(ws, now));
  }

  lemma FedOne(ws: WinMap, snapshot: RuleCounts, last: RuleCounts, client: ClientId, now: nat,
               fed: set<CounterKey>, k: CounterKey)
    requires fed <= snapshot.Keys && k in snapshot && k !in fed && k.client == client
    ensures Fed(ws, snapshot, last, client, now, fed + {k})
         == FeedRule(Fed(ws, snapshot, last, client, now, fed), CountsOf(last, k), snapshot[k], k.rule, now)
  {
    var before, after := Fed(ws, snapshot, last, client, now, fed), Fed(ws, snapshot, last, client, now, fed + {k});
    var step := FeedRule(before, CountsOf(last, k), snapshot[k], k.rule, now);
    FedIs(ws, snapshot, last, client, now, fed, k.rule);
    assert k == CounterKey(client, k.rule);
    FeedRuleIs(ws, before, CountsOf(last, k), snapshot[k], k.rule, now);
    forall id ensures Get(after, id) == Get(step, id) {
      FedIs(ws, snapshot, last, client, now, fed, id);
      FedIs(ws, snapshot, last, client, now, fed + {k}, id);
    }
    WinMapsEqual(after, step);
  }

  lemma FedOther(ws: WinMap, snapshot: RuleCounts, last: RuleCounts, client: ClientId, now: nat,
                 fed: set<CounterKey>, k: CounterKey)
    requires fed <= snapshot.Keys && k in snapshot && k.client != client
    ensures Fed(ws, snapshot, last, client, now, fed + {k}) == Fed(ws, snapshot, last, client, now, fed)
  {
    var a, b := Fed(ws, snapshot, last, client, now, fed + {k}), Fed(ws, snapshot, last, client, now, fed);
    forall id ensures Get(a, id) == Get(b, id) {
      FedIs(ws, snapshot, last, client, now, fed, id);
      FedIs(ws, snapshot, last, client, now, fed + {k}, id);
    }
    WinMapsEqual(a, b);
  }

  lemma FedAll(ws: WinMap, snapshot: RuleCounts, last: RuleCounts, client: ClientId, now: nat)
    ensures Fed(ws, snapshot, last, client, now, snapshot.Keys) == TickClient(ws, snapshot, last, client, now)
  {
    var a, b := Fed(ws, snapshot, last, client, now, snapshot.Keys), TickClient(ws, snapshot, last, client, now);
    forall id ensures Get(a, id) == Get(b, id) {
      FedIs(ws, snapshot, last, client, now, snapshot.Keys, id);
    }
    WinMapsEqual(a, b);
  }

  /** Feeds one client's deltas into its advanced windows, key by key in any order. */
  method FeedClient(win: RuleWindows, snapshot: RuleCounts, last: RuleCounts, client: ClientId, now: nat,
                    ghost ws: WinMap)
    requires win.Valid() && win.wins == AdvanceRules(ws, now)
    modifies win.Repr
    ensures win.Valid() && fresh(win.Repr - old(win.Repr))
    ensures win.wins == TickClient(ws, snapshot, last, client, now)
  {
    var todo := snapshot.Keys;
    FedNone(ws, snapshot, last, client, now);
    assert snapshot.Keys - todo == {};
    while todo != {}
      invariant todo <= snapshot.Keys
      invariant win.Valid() && fresh(win.Repr - old(win.Repr))
      invariant win.wins == Fed(ws, snapshot, last, client, now, snapshot.Keys - todo)
      decreases todo
    {
      var key :| key in todo;
      ghost var fed := snapshot.Keys - todo;
      if key.client == client {
        FedOne(ws, snapshot, last, client, now, fed, key);
        FeedKey(win, CountsOf(last, key), snapshot[key], key.rule, now);
      } else {
        FedOther(ws, snapshot, last, client, now, fed, key);
      }
      todo := todo - {key};
      assert snapshot.Keys - todo == fed + {key};
    }
    FedAll(ws, snapshot, last, client, now);
    assert snapshot.Keys - todo == snapshot.Keys;
  }

  method AdvanceAndFeed(win: RuleWindows, snapshot: RuleCounts, last: RuleCounts, client: ClientId, now: nat)
    requires win.Valid()
    modifies win.Repr
    ensures win.Valid() && fresh(win.Repr - old(win.Repr))
    ensures win.wins == TickClient(old(win.wins), snapshot, last, client, now)
  {
    ghost var ws := win.wins;
    win.AdvanceAll(now);
    FeedClient(win, snapshot, last, client, now, ws);
  }

  class WindowTable {
    var table: map<ClientId, RuleWindows>
    ghost var wins: map<ClientId, WinMap>  // what every client's windows hold
    ghost var Repr: set<object>

    ghost predicate Owns(c: ClientId)
      reads this, Repr
    {
      && c in table && c in wins
      && table[c] in Repr && table[c].Repr <= Repr && this !in table[c].Repr
      && table[c].Valid() && table[c].wins == wins[c]
    }

    ghost predicate Apart(c: ClientId, d: ClientId)
      requires c in table && d in table && table[c] in Repr && table[d] in Repr
      reads this, Repr
    {
      table[c].Repr !! table[d].Repr
    }

    /** Clients share no window. */
    ghost predicate Valid()
      reads this, Repr
      ensures Valid() ==> this in Repr
    {
      && this in Repr
      && wins.Keys == table.Keys
      && (forall c | c in table :: Owns(c))
      && (forall c, d | c in table && d in table && c != d :: Apart(c, d))
    }

    constructor ()
      ensures Valid() && fresh(Repr) && wins == map[]
    {
      table, wins, Repr := map[], map[], {this};
    }

    method Ensure(c: ClientId)
      requires Valid()
      modifies this
      ensures Valid() && c in table && fresh(Repr - old(Repr))
      ensures wins == if c in old(wins) then old(wins) else old(wins)[c := map[]]
    {
      hide RuleWindows.Valid;
      if c !in table {
        var w := new RuleWindows();
        forall d | d in table ensures Owns(d) && table[d].Repr !! w.Repr {
          assert old(Owns(d));
        }
        table, wins, Repr := table[c := w], wins[c := map[]], Repr + w.Repr;
        forall d, e | d in table && e in table && d != e ensures table[d].Repr !! table[e].Repr {
          assert d != c && e != c ==> old(Apart(d, e));
        }
        forall d | d in table ensures Owns(d) {
          assert d != c ==> old(Owns(d));
        }
      }
    }

    /** Works on one client's windows; the other clients' are not touched. */
    method FeedOwned(c: ClientId, snapshot: RuleCounts, last: RuleCounts, now: nat)
      requires Valid() && c in table
      modifies table[c].Repr
      ensures table[c].Valid() && this !in table[c].Repr && fresh(table[c].Repr - old(table[c].Repr))
      ensures table[c].wins == TickClient(old(wins)[c], snapshot, last, c, now)
      ensures forall d | d in table && d != c :: Owns(d) && table[d].Repr !! table[c].Repr
      ensures forall d, e | d in table && e in table && d != c && e != c && d != e :: table[d].Repr !! table[e].Repr
    {
      assert Owns(c);
      forall d | d in table && d != c ensures table[d] in table[d].Repr && table[d].Repr !! table[c].Repr && Owns(d) {
        assert Apart(c, d);
      }
      AdvanceAndFeed(table[c], snapshot, last, c, now);
      forall d, e | d in table && e in table && d != c && e != c && d != e ensures table[d].Repr !! table[e].Repr {
        assert old(Apart(d, e));
      }
    }

    /** Takes note of what a client's windows now hold. */
    method Absorb(c: ClientId)
      requires this in Repr && wins.Keys == table.Keys && c in table
      requires table[c] in Repr && this !in table[c].Repr && table[c].Valid()
      requires forall d | d in table && d != c :: Owns(d) && table[d].Repr !! table[c].Repr
      requires forall d, e | d in table && e in table && d != c && e != c && d != e :: table[d].Repr !! table[e].Repr
      modifies this`wins, this`Repr
      ensures Valid() && wins == old(wins)[c := table[c].wins] && Repr == old(Repr) + table[c].Repr
    {
      assert forall d, e | d in table && e in table && d != e :: table[d].Repr !! table[e].Repr;
      wins, Repr := wins[c := table[c].wins], Repr + table[c].Repr;
      forall d | d in table ensures Owns(d) {
        assert d != c ==> old(Owns(d));
      }
    }

    method Feed(c: ClientId, snapshot: RuleCounts, last: RuleCounts, now: nat)
      requires Valid() && c in table
      modifies this`wins, this`Repr, table[c].Repr
      ensures Valid() && c in table && fresh(Repr - old(Repr))
      ensures wins == old(wins)[c := TickClient(old(wins)[c], snapshot, last, c, now)]
    {
      assert Owns(c);
      FeedOwned(c, snapshot, last, now);
      Absorb(c);
    }

    /** A tick's work on one client: advance every window, then feed the deltas. */
    method Observe(c: ClientId, snapshot: RuleCounts, last: RuleCounts, now: nat)
      requires Valid()
      modifies Repr
      ensures Valid() && c in table && fresh(Repr - old(Repr))
      ensures wins == old(wins)[c := TickClient(WinsOf(old(wins), c), snapshot, last, c, now)]
    {
      ghost var was := wins;
      Ensure(c);
      Feed(c, snapshot, last, now);
      UpdateTwice(was, c, map[], wins[c]);
    }

    method Evaluate(c: ClientId, rules: seq<Rule>) returns (vs: seq<Violation>)
      requires Valid() && c in table
      ensures vs == Engine.Evaluate(rules, wins[c])
    {
      vs := [];
      ghost var value := Observed(wins[c]);
      for i := 0 to |rules|
        invariant vs == Exceeding(rules[..i], value)
      {
        var r := rules[i];
        var v := table[c].Sum(r.id, r.metric, Secs(r.span));
        if v > r.limit {
          vs := vs + [Violation(r.id, v, r.limit, r.action)];
        }
        ExceedingAppend(rules[..i], r, value);
        assert rules[..i + 1] == rules[..i] + [r];
      }
      assert rules[..|rules|] == rules;
    }
  }

  function WinsOf(ws: map<ClientId, WinMap>, c: ClientId): WinMap {
    if c in ws then ws[c] else map[]
  }
}
