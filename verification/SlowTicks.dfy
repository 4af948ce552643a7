/**
 * A run of slow ticks: what a per-minute rule holds against a client nearly two minutes
 * after the fact.
 */
module SlowTicks {
  import opened Base
  import opened Client
  import opened Rules
  import opened Counters
  import opened TickWindows
  import opened Engine
  import opened Daemon
  import opened Runs
  import opened History

  const SLOW: nat := 1_900_000_000

  /** One count, then a tick every 1.9 seconds. */
  function SlowRun(a: Added, k: nat): (run: seq<Event>)
    ensures |run| == k + 2 && run[1] == Tick(0) && run[k + 1] == Tick(k * SLOW)
  {
    if k == 0 then [Sniff(a), Tick(0)] else SlowRun(a, k - 1) + [Tick(k * SLOW)]
  }

  function SlowSnapshots(a: Added, k: nat): seq<TickRec> {
    var t := TickRec(k * SLOW, Bump(NOTHING, a.metric, a.amount));
    if k == 0 then [t] else SlowSnapshots(a, k - 1) + [t]
  }

  lemma CountedOnce(setup: Setup, a: Added)
    ensures Exec(setup, [Sniff(a)]).counters == map[CounterKey(a.client, a.rule) := Bump(NOTHING, a.metric, a.amount)]
    ensures Exec(setup, [Sniff(a)]).live == setup.live
    ensures TicksOf(setup, [Sniff(a)], CounterKey(a.client, a.rule)) == []
  {
    assert Front([Sniff(a)]) == [];
    assert Exec(setup, []) == Boot(setup);
    assert TicksOf(setup, [], CounterKey(a.client, a.rule)) == [];
  }

  lemma {:induction false} SlowClock(a: Added, k: nat)
    ensures TicksMonotone(SlowRun(a, k)) && LastTickTime(SlowRun(a, k)) == k * SLOW
  {
    var run := SlowRun(a, k);
    var front := if k == 0 then [Sniff(a)] else SlowRun(a, k - 1);
    assert run == front + [Tick(k * SLOW)];
    assert Front(run) == front && Last(run) == Tick(k * SLOW);
    if k == 0 {
      assert Front(front) == [] && TicksMonotone([]) && LastTickTime([]) == 0;
      assert TicksMonotone(front) && LastTickTime(front) == 0;
    } else {
      SlowClock(a, k - 1);
    }
  }

  /** The counter, the configuration and the snapshots before and after a tick. */
  lemma TickKeeps(setup: Setup, front: seq<Event>, now: nat, key: CounterKey)
    ensures var run := front + [Tick(now)];
      && Exec(setup, run).counters == Exec(setup, front).counters
      && Exec(setup, run).live == Exec(setup, front).live
      && TicksOf(setup, run, key)
         == TicksOf(setup, front, key) + [TickRec(now, CountsOf(Exec(setup, front).counters, key))]
  {
    hide TickState, CountsOf;
    var run, s := front + [Tick(now)], Exec(setup, front);
    assert Front(run) == front;
    TickStep(s, Tick(now), setup.offset);
    TickGives(s, now, s.live.rules, Cooldown(s.live), key.client);
  }

  lemma {:induction false} SlowExec(setup: Setup, a: Added, k: nat)
    ensures var run, key := SlowRun(a, k), CounterKey(a.client, a.rule);
      && Exec(setup, run).counters == map[key := Bump(NOTHING, a.metric, a.amount)]
      && Exec(setup, run).live == setup.live && Exec(setup, Front(run)).live == setup.live
      && TicksOf(setup, run, key) == SlowSnapshots(a, k)
  {
    hide Exec, TicksOf, Bump;
    var run, key := SlowRun(a, k), CounterKey(a.client, a.rule);
    var front := if k == 0 then [Sniff(a)] else SlowRun(a, k - 1);
    assert run == front + [Tick(k * SLOW)] && Front(run) == front;
    TickKeeps(setup, front, k * SLOW, key);
    if k == 0 {
      CountedOnce(setup, a);
    } else {
      SlowExec(setup, a, k - 1);
    }
  }

  lemma {:induction false} SlowAges(a: Added, k: nat, j: nat)
    requires a.amount > 0
    ensures |SlowSnapshots(a, k)| == k + 1 && LastAdvance(SlowSnapshots(a, k)) == Some(k * SLOW)
    ensures LastCounts(SlowSnapshots(a, k)) == Bump(NOTHING, a.metric, a.amount)
    ensures j <= k ==> Age(SlowSnapshots(a, k), j) == k - j
  {
    var h := SlowSnapshots(a, k);
    if k == 0 {
      assert h[..0] == [];
    } else {
      SlowAges(a, k - 1, j);
      assert h[..k] == SlowSnapshots(a, k - 1);
    }
  }

  /**
   * Ticks 1.9 seconds apart: a per-minute rule is still broken by what a tick saw 112.1
   * seconds before, with nothing counted since.
   */
  lemma MinuteOutlivesItself(setup: Setup, a: Added, r: Rule)
    requires setup.live.rules == [r] && r.span == PerMinute && r.id == a.rule && r.metric == a.metric
    requires a.amount > r.limit
    ensures var run := SlowRun(a, 59);
      && TicksMonotone(run) && run[1] == Tick(0) && Last(run) == Tick(112_100_000_000)
      && ViolationsAt(Exec(setup, Front(run)), a.client, Last(run).now, [r])
         == [Violation(r.id, a.amount, r.limit, r.action)]
  {
    hide Exec, ViolationsAt, Age, LastAdvance, Breaches;
    var run, key := SlowRun(a, 59), CounterKey(a.client, a.rule);
    var h := SlowSnapshots(a, 59);
    SlowExec(setup, a, 59);
    SlowClock(a, 59);
    SlowAges(a, 59, 0);
    forall j | 0 <= j <= 59 ensures Age(h, j) < 60 {
      SlowAges(a, 59, j);
    }
    assert LastFallen(h, 60, |h|) == -1;
    assert Grown(setup, run, a.client)(r) == a.amount;
    ViolationsAreBreaches(setup, run, a.client);
    BreachesOne(setup, run, a.client, r);
  }

  lemma BreachesOne(setup: Setup, run: seq<Event>, c: ClientId, r: Rule)
    requires run != [] && Exec(setup, Front(run)).live.rules == [r] && Grown(setup, run, c)(r) > r.limit
    ensures Breaches(setup, run, c) == [Violation(r.id, Grown(setup, run, c)(r), r.limit, r.action)]
  {
    hide Exec;
    assert Exceeding([r][1..], Grown(setup, run, c)) == [];
  }
}
