/**
 * Enforcement as a function of history: no window and no policy appears in the
 * reference below, only counter snapshots, rules read, and cooldowns.
 */
module History {
  import opened Base
  import opened Client
  import opened Rules
  import opened Counters
  import opened TickWindows
  import opened ClientWindows
  import opened Engine
  import opened Policy
  import opened PolicyStore
  import opened Enforcer
  import opened Daemon
  import opened Runs

  /** A rule's value at the last tick: the snapshot less the one fallen out of its span. */
  function Grown(setup: Setup, run: seq<Event>, c: ClientId): Rule -> u64 {
    (r: Rule) =>
      var h := TicksOf(setup, run, CounterKey(c, r.id));
      SatSub(Count(LastCounts(h), r.metric), Count(FallenCounts(h, Secs(r.span)), r.metric))
  }

  /** The rules a client breaks at the tick that ends the run. */
  function Breaches(setup: Setup, run: seq<Event>, c: ClientId): seq<Violation>
    requires run != []
  {
    Exceeding(Exec(setup, Front(run)).live.rules, Grown(setup, run, c))
  }

  lemma ObservedIsGrown(setup: Setup, run: seq<Event>, c: ClientId, r: Rule)
    requires run != [] && IsTick(Last(run))
    ensures Observed(WinsAfter(Exec(setup, Front(run)), c, Last(run).now))(r) == Grown(setup, run, c)(r)
  {
    hide Step, TickClient, TickWin;
    var s, k := Exec(setup, Front(run)), CounterKey(c, r.id);
    var h := TicksOf(setup, Front(run), k);
    var all := h + [TickRec(Last(run).now, CountsOf(s.counters, k))];
    assert all[..|all| - 1] == h;
    RunFollows(setup, Front(run), k);
    RunFollows(setup, run, k);
    TickClientGet(WinsOf(s.windows, c), s.counters, s.last, k, Last(run).now);
    ReadIsDifference(all, r.metric, Secs(r.span));
  }

  /**
   * What the engine finds at a tick is exactly what the counter snapshots say: a rule
   * is violated when the counter grew by more than its limit since the last tick that
   * has left its span.
   */
  lemma ViolationsAreBreaches(setup: Setup, run: seq<Event>, c: ClientId)
    requires run != [] && IsTick(Last(run))
    ensures ViolationsAt(Exec(setup, Front(run)), c, Last(run).now, Exec(setup, Front(run)).live.rules)
         == Breaches(setup, run, c)
  {
    var s := Exec(setup, Front(run));
    var f, g := Observed(WinsAfter(s, c, Last(run).now)), Grown(setup, run, c);
    forall r | r in s.live.rules ensures f(r) == g(r) {
      ObservedIsGrown(setup, run, c, r);
    }
    ExceedingAgrees(s.live.rules, f, g);
  }

  function LastTickTime(run: seq<Event>): nat {
    if run == [] then 0
    else if IsTick(Last(run)) then Last(run).now
    else LastTickTime(Front(run))
  }

  /** Ticks read a monotone clock; the other events may carry any times. */
  predicate TicksMonotone(run: seq<Event>) {
    run == [] || (TicksMonotone(Front(run)) && (IsTick(Last(run)) ==> LastTickTime(Front(run)) <= Last(run).now))
  }

  lemma {:induction false} TicksOfMonotone(setup: Setup, run: seq<Event>, k: CounterKey)
    requires TicksMonotone(run)
    ensures ClockMonotone(TicksOf(setup, run, k))
    ensures forall i :: 0 <= i < |TicksOf(setup, run, k)| ==> TicksOf(setup, run, k)[i].now <= LastTickTime(run)
  {
    hide Exec;
    if run != [] && !Last(run).Restart? {
      TicksOfMonotone(setup, Front(run), k);
    }
  }

  /**
   * In seconds: what a rule over n buckets sees has everything first seen by a tick at
   * most n-1 seconds ago and nothing already seen by a tick 2n-1 or more seconds ago.
   */
  lemma GrownInTime(setup: Setup, run: seq<Event>, c: ClientId, r: Rule, j: nat)
    requires run != [] && IsTick(Last(run)) && TicksMonotone(run)
    requires j < |TicksOf(setup, run, CounterKey(c, r.id))|
    ensures var h, n := TicksOf(setup, run, CounterKey(c, r.id)), Secs(r.span);
      && (h[j].now + (2 * n - 1) * NANOS <= Last(run).now ==>
            Grown(setup, run, c)(r) <= Count(LastCounts(h), r.metric) - Count(h[j].counts, r.metric))
      && (Last(run).now <= h[j].now + (n - 1) * NANOS ==>
            Grown(setup, run, c)(r) >= Count(LastCounts(h), r.metric) - Count(LastCounts(h[..j]), r.metric))
  {
    hide Exec;
    var k := CounterKey(c, r.id);
    RunFollows(setup, run, k);
    TicksOfMonotone(setup, run, k);
    ReadIsDifference(TicksOf(setup, run, k), r.metric, Secs(r.span));
    ReadIsBracketedInTime(TicksOf(setup, run, k), r.metric, Secs(r.span), j);
  }

  /** The automatic policy of the most recent tick since a restart that found a breach. */
  function LastFound(setup: Setup, run: seq<Event>, c: ClientId): Option<AutoPolicy> {
    if run == [] || Last(run).Restart? then None
    else if IsTick(Last(run)) && Breaches(setup, run, c) != [] then
      StrongestAuto(Breaches(setup, run, c), Last(run).now,
        Cooldown(LiveAfter(Exec(setup, Front(run)).live, Last(run))))
    else LastFound(setup, Front(run), c)
  }

  function Unexpired(a: Option<AutoPolicy>, now: nat): Option<AutoPolicy> {
    if a.Some? && AutoExpired(a.value, now) then None else a
  }

  lemma StartedHasNoAuto(mode: Mode, live: Live, s: State, now: nat, wall: nat, c: ClientId)
    ensures PolicyOf(Started(mode, live, Reopened(s.store), now, wall).policies, c).auto == None
  {
    var loaded := Loaded(Reopened(s.store), wall);
    ExtendGet(map[], loaded.Keys, Hydrated(loaded, now, wall), c);
  }

  lemma TickAuto(s: State, now: nat, rules: seq<Rule>, cooldown: nat, c: ClientId)
    requires Consistent(s, c)
    ensures PolicyOf(TickState(s, now, rules, cooldown).policies, c).auto
         == AutoAfter(PolicyOf(s.policies, c).auto, ViolationsAt(s, c, now, rules), now, cooldown)
    ensures PolicyOf(TickState(s, now, rules, cooldown).policies, c).manual
         == ManualAfter(PolicyOf(s.policies, c).manual, now)
  {
    hide TickSome, TickState, TickClient, Evaluate;
    TickGives(s, now, rules, cooldown, c);
    if c !in Visited(s) {
      UnvisitedBreaksNothing(s, c, now, rules);
    }
  }

  /** A client never counted and without windows breaks no rule. */
  lemma UnvisitedBreaksNothing(s: State, c: ClientId, now: nat, rules: seq<Rule>)
    requires c !in Visited(s) && Consistent(s, c)
    ensures ViolationsAt(s, c, now, rules) == []
  {
    assert RulesOf(s.counters, c) == {};
    assert WinsAfter(s, c, now) == map[];
    NothingExceeds(rules, Observed(map[]));
  }

  lemma {:induction false} NothingExceeds(rules: seq<Rule>, value: Rule -> u64)
    requires forall r: Rule :: value(r) == 0
    ensures Exceeding(rules, value) == []
  {
    if rules != [] {
      NothingExceeds(rules[1..], value);
    }
  }

  /**
   * In every reachable state a client's automatic policy is the strongest breach of
   * the most recent tick that had any, dropped once a tick at or past its expiry saw
   * none, whatever requests, increments and reloads came between.
   */
  lemma {:induction false} AutoIsHistory(setup: Setup, run: seq<Event>, c: ClientId)
    requires TicksMonotone(run)
    ensures PolicyOf(Exec(setup, run).policies, c).auto
         == Unexpired(LastFound(setup, run, c), LastTickTime(run))
  {
    hide TickState, ViolationsAt, Breaches, Started, AutoAfter;
    if run != [] {
      var s, e := Exec(setup, Front(run)), Last(run);
      AutoIsHistory(setup, Front(run), c);
      if IsTick(e) {
        RunConsistent(setup, Front(run), c);
        TickStep(s, e, setup.offset);
        var cooldown := Cooldown(LiveAfter(s.live, e));
        TickAuto(s.(live := LiveAfter(s.live, e)), e.now, s.live.rules, cooldown, c);
        ViolationsAreBreaches(setup, run, c);
        SameViolations(s, LiveAfter(s.live, e), c, e.now, s.live.rules);
        AutoStep(PolicyOf(s.policies, c).auto, LastFound(setup, Front(run), c), LastTickTime(Front(run)),
          Breaches(setup, run, c), e.now, cooldown);
      } else if e.Restart? {
        StartedHasNoAuto(e.mode, e.live, s, e.now, e.now + setup.offset, c);
      } else {
        hide Step;
        OtherStep(s, e, setup.offset, c);
      }
    }
  }

  lemma SameViolations(s: State, live: Live, c: ClientId, now: nat, rules: seq<Rule>)
    ensures ViolationsAt(s.(live := live), c, now, rules) == ViolationsAt(s, c, now, rules)
  {
  }

  lemma AutoStep(auto: Option<AutoPolicy>, found: Option<AutoPolicy>, before: nat, vs: seq<Violation>, now: nat,
                 cooldown: nat)
    requires auto == Unexpired(found, before) && before <= now && cooldown > 0
    ensures AutoAfter(auto, vs, now, cooldown)
         == Unexpired(if vs != [] then StrongestAuto(vs, now, cooldown) else found, now)
  {
  }

  /**
   * The whole of enforcement: after a tick the enforcer holds, for every client, the
   * stronger of its live manual overlay and its last found breach, while that lasts.
   */
  lemma EnforcementIsHistory(setup: Setup, run: seq<Event>, c: ClientId)
    requires run != [] && IsTick(Last(run)) && TicksMonotone(run)
    ensures var now := Last(run).now;
      Get(Exec(setup, run).enforced, c) == EnforcedAfter(
        Join(ManualAction(PolicyOf(Exec(setup, run).policies, c).manual, now),
             AutoAction(LastFound(setup, run, c), now)))
  {
    hide Exec, LastFound, LastTickTime, TicksMonotone, AutoAfter;
    EnforcerAgrees(setup, run, c);
    AutoIsHistory(setup, run, c);
    assert LastTickTime(run) == Last(run).now by {
      TickIsLast(run);
    }
  }

  lemma TickIsLast(run: seq<Event>)
    requires run != [] && IsTick(Last(run))
    ensures LastTickTime(run) == Last(run).now
  {
  }

  // ---- no gap, and release --------------------------------------------------------------------

  /** The cooldown is `cooldown` and every throttle rule drops something. */
  predicate Steady(live: Live, cooldown: nat) {
    && Cooldown(live) == cooldown
    && forall r :: r in live.rules && r.action.Throttle? ==> r.action.dropRate >= 1
  }

  /** From event `n` on: no restart, and only steady configurations. */
  predicate SteadyFrom(setup: Setup, run: seq<Event>, n: nat, cooldown: nat) {
    && n <= |run|
    && Steady(Exec(setup, run[..n]).live, cooldown)
    && forall i :: n <= i < |run| ==>
         !run[i].Restart? && (run[i].Swap? || run[i].TickRacing? ==> Steady(run[i].live, cooldown))
  }

  lemma {:induction false} SteadyStays(setup: Setup, run: seq<Event>, n: nat, cooldown: nat)
    requires SteadyFrom(setup, run, n, cooldown)
    ensures Steady(Exec(setup, run).live, cooldown)
  {
    hide Steady;
    if |run| == n {
      assert run[..n] == run;
    } else {
      assert Front(run)[..n] == run[..n];
      SteadyStays(setup, Front(run), n, cooldown);
      LiveStep(Exec(setup, Front(run)), Last(run), setup.offset);
    }
  }

  lemma LiveStep(s: State, e: Event, offset: nat)
    ensures Step(s, e, offset).live == LiveAfter(s.live, e)
  {
    hide TickState;
    if IsTick(e) {
      TickStep(s, e, offset);
      TickGives(s.(live := LiveAfter(s.live, e)), e.now, s.live.rules, Cooldown(LiveAfter(s.live, e)),
        ANYONE);
    }
  }

  /** A breach of steady rules asks for something for a whole cooldown. */
  lemma BreachActs(setup: Setup, run: seq<Event>, c: ClientId, cooldown: nat, t: nat)
    requires run != [] && Steady(Exec(setup, Front(run)).live, cooldown)
    requires Breaches(setup, run, c) != [] && t < LastTickTime(run) + cooldown
    ensures AutoAction(StrongestAuto(Breaches(setup, run, c), LastTickTime(run), cooldown), t) != PassAll
  {
    var rules, vs := Exec(setup, Front(run)).live.rules, Breaches(setup, run, c);
    var v := vs[FirstStrongest(vs)];
    ExceedingExactly(rules, Grown(setup, run, c), v);
  }

  lemma {:induction false} LastTickLater(run: seq<Event>, n: nat)
    requires n < |run| && IsTick(run[n]) && TicksMonotone(run)
    ensures run[n].now <= LastTickTime(run)
  {
    if n < |run| - 1 {
      LastTickLater(Front(run), n);
    }
  }

  lemma {:induction false} FoundLasts(setup: Setup, run: seq<Event>, n: nat, c: ClientId, cooldown: nat, t: nat)
    requires n < |run| && IsTick(run[n]) && TicksMonotone(run) && SteadyFrom(setup, run, n, cooldown)
    requires Breaches(setup, run[..n + 1], c) != [] && t < run[n].now + cooldown
    ensures AutoAction(LastFound(setup, run, c), t) != PassAll
  {
    hide Steady, Exec, Breaches, StrongestAuto, AutoAction;
    var front := Front(run);
    assert front[..n] == run[..n];
    SteadyStays(setup, front, n, cooldown);
    assert run[..|run|] == run;
    if IsTick(Last(run)) && Breaches(setup, run, c) != [] {
      LastTickLater(run, n);
      BreachActs(setup, run, c, cooldown, t);
      SteadyCooldown(LiveAfter(Exec(setup, front).live, Last(run)), cooldown);
    } else {
      assert front[..n + 1] == run[..n + 1];
      FoundLasts(setup, front, n, c, cooldown, t);
    }
  }

  lemma SteadyCooldown(live: Live, cooldown: nat)
    requires Steady(live, cooldown)
    ensures Cooldown(live) == cooldown
  {
  }

  /**
   * No gap: with the cooldown unchanged and throttle rates at least one, every tick
   * less than a cooldown after a tick that found a breach enforces something.
   */
  lemma NoGapInCooldown(setup: Setup, run: seq<Event>, n: nat, c: ClientId, cooldown: nat)
    requires n < |run| && IsTick(run[n]) && IsTick(Last(run)) && TicksMonotone(run)
    requires SteadyFrom(setup, run, n, cooldown)
    requires Breaches(setup, run[..n + 1], c) != [] && Last(run).now < run[n].now + cooldown
    ensures Get(Exec(setup, run).enforced, c).Some?
  {
    hide Exec, LastFound, TicksMonotone, SteadyFrom, Breaches;
    FoundLasts(setup, run, n, c, cooldown, Last(run).now);
    EnforcementIsHistory(setup, run, c);
  }

  /**
   * Release: a tick leaves a client without an entry exactly when no live manual
   * overlay asks for anything and the last breach found is over or asks for nothing.
   */
  lemma ReleasedExactly(setup: Setup, run: seq<Event>, c: ClientId)
    requires run != [] && IsTick(Last(run)) && TicksMonotone(run)
    ensures Get(Exec(setup, run).enforced, c).None? <==>
      && ManualAction(PolicyOf(Exec(setup, run).policies, c).manual, Last(run).now) == PassAll
      && AutoAction(LastFound(setup, run, c), Last(run).now) == PassAll
  {
    hide Exec, LastFound, TicksMonotone;
    EnforcementIsHistory(setup, run, c);
  }
}
