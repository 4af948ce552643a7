/**
 * Drop rates over whole runs. A loaded rule set bounds its rates by one hundred; a
 * manual throttle request does not, so the bound holds exactly as far as the operators
 * keep it.
 */
module Rates {
  import opened Base
  import opened Client
  import opened Rules
  import opened Engine
  import opened Policy
  import opened Enforcer
  import opened PolicyStore
  import opened Daemon
  import opened Overlays
  import opened Runs
  import opened Restarts
  import opened History

  /** Rules as `NewRuleSet` lets them through. */
  predicate Checked(live: Live) {
    forall r :: r in live.rules ==> WellFormed(r)
  }

  /** Every configuration of the run was loaded through the rule set's checks. */
  predicate Vetted(setup: Setup, run: seq<Event>) {
    if run == [] then Checked(setup.live)
    else
      && Vetted(setup, Front(run))
      && (Last(run).TickRacing? || Last(run).Swap? || Last(run).Restart? ==> Checked(Last(run).live))
  }

  /** No throttle request of the run asks for more than a hundred percent. */
  predicate Modest(run: seq<Event>) {
    run == [] || (Modest(Front(run)) && (Last(run).Throttle? ==> RateOk(Last(run).rate)))
  }

  predicate RateOk(rate: Option<u8>) {
    rate.Some? ==> rate.value <= 100
  }

  predicate AutoOk(a: Option<AutoPolicy>) {
    a.Some? ==> a.value.dropRate <= 100
  }

  predicate ManualOk(m: Option<ManualPolicy>) {
    m.Some? ==> RateOk(m.value.throttle)
  }

  predicate StoredOk(e: Option<Entry>) {
    e.Some? ==> RateOk(e.value.policy.throttle)
  }

  predicate ActionOk(a: Option<EffectiveAction>) {
    a.Some? && a.value.ThrottleTo? ==> a.value.dropRate <= 100
  }

  lemma {:induction false} LiveChecked(setup: Setup, run: seq<Event>)
    requires Vetted(setup, run)
    ensures Checked(Exec(setup, run).live)
  {
    hide Step, Checked;
    if run != [] {
      LiveChecked(setup, Front(run));
      LiveStep(Exec(setup, Front(run)), Last(run), setup.offset);
    }
  }

  lemma FoundOk(rules: seq<Rule>, value: Rule -> u64, now: nat, cooldown: nat)
    requires forall r :: r in rules ==> WellFormed(r)
    ensures AutoOk(StrongestAuto(Exceeding(rules, value), now, cooldown))
  {
    var vs := Exceeding(rules, value);
    if vs != [] {
      ExceedingExactly(rules, value, vs[FirstStrongest(vs)]);
    }
  }

  /** An automatic rate is always one that a loaded rule asked for. */
  lemma {:induction false} AutoStaysOk(setup: Setup, run: seq<Event>, c: ClientId)
    requires Vetted(setup, run)
    ensures AutoOk(PolicyOf(Exec(setup, run).policies, c).auto)
  {
    hide TickState, Started, Observed, Checked, WinsAfter;
    if run != [] {
      var s, e := Exec(setup, Front(run)), Last(run);
      AutoStaysOk(setup, Front(run), c);
      if IsTick(e) {
        var live := LiveAfter(s.live, e);
        RunConsistent(setup, Front(run), c);
        TickStep(s, e, setup.offset);
        TickAuto(s.(live := live), e.now, s.live.rules, Cooldown(live), c);
        LiveChecked(setup, Front(run));
        assert forall r :: r in s.live.rules ==> WellFormed(r) by {
          RulesChecked(s.live);
        }
        FoundOk(s.live.rules, Observed(WinsAfter(s.(live := live), c, e.now)), e.now, Cooldown(live));
      } else if e.Restart? {
        StartedHasNoAuto(e.mode, e.live, s, e.now, e.now + setup.offset, c);
      } else {
        hide Step;
        OtherStep(s, e, setup.offset, c);
      }
    }
  }

  lemma RulesChecked(live: Live)
    requires Checked(live)
    ensures forall r :: r in live.rules ==> WellFormed(r)
  {
  }

  lemma SetManualOk(s: State, d: ClientId, m: ManualPolicy, now: nat, wall: nat, c: ClientId)
    requires ManualOk(Manual(s, c)) && StoredOk(Get(s.store.entries, c)) && RateOk(m.throttle)
    ensures var t := SetManual(s, d, m, now, wall); ManualOk(Manual(t, c)) && StoredOk(Get(t.store.entries, c))
    ensures var t := DropManual(s, d); ManualOk(Manual(t, c)) && StoredOk(Get(t.store.entries, c))
  {
    hide FromRuntime, Deadline;
    SavedRate(m, now, wall);
  }

  lemma SavedRate(m: ManualPolicy, now: nat, wall: nat)
    ensures FromRuntime(m, now, wall).throttle == m.throttle
  {
  }

  lemma HandlerOk(s: State, e: Event, offset: nat, c: ClientId)
    requires IsHandler(e) && (e.Throttle? ==> RateOk(e.rate))
    requires ManualOk(Manual(s, c)) && StoredOk(Get(s.store.entries, c)) && ManualOk(Manual(s, e.client))
    ensures var t := Step(s, e, offset); ManualOk(Manual(t, c)) && StoredOk(Get(t.store.entries, c))
  {
    hide SetManual, DropManual, Step;
    HandlerIs(s, e, offset);
    SetManualOk(s, e.client, Edited(s, e), e.now, e.now + offset, c);
  }

  /** In memory and in the store, across restarts. */
  lemma {:induction false} ManualStaysOk(setup: Setup, run: seq<Event>, c: ClientId)
    requires Modest(run)
    ensures var s := Exec(setup, run); ManualOk(Manual(s, c)) && StoredOk(Get(s.store.entries, c))
  {
    hide TickState, Started, ManualOk, StoredOk;
    if run == [] {
      NothingOk();
    } else {
      var s, e, offset := Exec(setup, Front(run)), Last(run), setup.offset;
      ManualStaysOk(setup, Front(run), c);
      if IsTick(e) {
        var live := LiveAfter(s.live, e);
        TickStep(s, e, offset);
        TickGives(s.(live := live), e.now, s.live.rules, Cooldown(live), c);
        TickManual(s.(live := live), e.now, s.live.rules, Cooldown(live), c);
        ManualAfterOk(Manual(s, c), e.now);
      } else if e.Restart? {
        StartedManual(e.mode, e.live, Reopened(s.store), e.now, e.now + offset, c);
        StartedStore(e.mode, e.live, Reopened(s.store), e.now, e.now + offset);
        RestoredOk(s.store, e.now, e.now + offset, c);
      } else if !e.Sniff? && !e.Swap? {
        ManualStaysOk(setup, Front(run), e.client);
        HandlerOk(s, e, offset, c);
      }
    }
  }

  lemma NothingOk()
    ensures ManualOk(None) && StoredOk(None)
  {
  }

  lemma ManualAfterOk(m: Option<ManualPolicy>, now: nat)
    requires ManualOk(m)
    ensures ManualOk(ManualAfter(m, now))
  {
  }

  lemma RestoredOk(store: Storage, now: nat, wall: nat, c: ClientId)
    requires StoredOk(Get(store.entries, c))
    ensures ManualOk(Restored(Reopened(store), now, wall, c))
    ensures StoredOk(Get(Reopened(store).entries, c))
  {
  }

  /**
   * "A drop rate is a percentage": over every run whose rule sets were loaded through
   * the checks and whose throttle requests stay within a hundred, so does every rate
   * the enforcer ever holds.
   */
  lemma {:induction false} RatesArePercentages(setup: Setup, run: seq<Event>, c: ClientId)
    requires Vetted(setup, run) && Modest(run)
    ensures ActionOk(Get(Exec(setup, run).enforced, c))
  {
    hide TickState, Started, Merge, Checked, AutoOk, ManualOk;
    if run != [] {
      var s, e := Exec(setup, Front(run)), Last(run);
      RatesArePercentages(setup, Front(run), c);
      if IsTick(e) {
        EnforcerAgrees(setup, run, c);
        AutoStaysOk(setup, run, c);
        ManualStaysOk(setup, run, c);
        MergedOk(PolicyOf(Exec(setup, run).policies, c), e.now);
      } else if e.Restart? {
        StartedEnforcesNothing(e.mode, e.live, Reopened(s.store), e.now, e.now + setup.offset);
      } else {
        hide Step;
        OtherStep(s, e, setup.offset, c);
      }
    }
  }

  lemma StartedEnforcesNothing(mode: Mode, live: Live, store: Storage, now: nat, wall: nat)
    ensures Started(mode, live, store, now, wall).enforced == map[]
  {
  }

  lemma MergedOk(p: ClientPolicy, now: nat)
    requires AutoOk(p.auto) && ManualOk(p.manual)
    ensures ActionOk(EnforcedAfter(Merge(p, now)))
  {
  }

  lemma ExcessMerged(setup: Setup, run: seq<Event>, c: ClientId)
    requires run != [] && IsTick(Last(run)) && Vetted(setup, run)
    ensures var t, now := Exec(setup, run), Last(run).now;
      !ActionOk(Get(t.enforced, c)) <==>
        && !ActionOk(Some(ManualAction(Manual(t, c), now)))
        && AutoAction(PolicyOf(t.policies, c).auto, now) != BlockAll
  {
    hide Exec, Vetted;
    EnforcerAgrees(setup, run, c);
    AutoStaysOk(setup, run, c);
  }

  /** An overlay that throttles by more than a hundred percent at a moment. */
  predicate Excessive(m: Option<ManualPolicy>, now: nat) {
    m.Some? && !ManualExpired(m.value, now) && !m.value.blocked && !RateOk(m.value.throttle)
  }

  lemma ExcessiveActs(m: Option<ManualPolicy>, now: nat)
    ensures !ActionOk(Some(ManualAction(ManualAfter(m, now), now))) <==> Excessive(m, now)
  {
  }

  /**
   * Without the premise on requests: a tick enforces more than a hundred percent exactly
   * when the overlay it finds is live, not a block and asks for that much, and no block
   * found by a rule is still cooling down.
   */
  lemma ExcessExactly(setup: Setup, run: seq<Event>, c: ClientId)
    requires run != [] && IsTick(Last(run)) && Vetted(setup, run) && TicksMonotone(run)
    ensures var s, now := Exec(setup, Front(run)), Last(run).now;
      !ActionOk(Get(Exec(setup, run).enforced, c)) <==>
        Excessive(Manual(s, c), now) && AutoAction(LastFound(setup, run, c), now) != BlockAll
  {
    hide Exec, Vetted, TicksMonotone, LastFound, LastTickTime, Excessive, ActionOk, Merge, TickState, ManualAfter;
    var s, e := Exec(setup, Front(run)), Last(run);
    ExcessMerged(setup, run, c);
    AutoIsHistory(setup, run, c);
    TickIsLast(run);
    FoundActs(LastFound(setup, run, c), e.now);
    ManualAtTick(setup, run, c);
    ExcessiveActs(Manual(s, c), e.now);
  }

  lemma FoundActs(found: Option<AutoPolicy>, now: nat)
    ensures AutoAction(Unexpired(found, now), now) == AutoAction(found, now)
  {
  }

  lemma ManualAtTick(setup: Setup, run: seq<Event>, c: ClientId)
    requires run != [] && IsTick(Last(run))
    ensures Manual(Exec(setup, run), c) == ManualAfter(Manual(Exec(setup, Front(run)), c), Last(run).now)
  {
    hide TickState, ManualAfter;
    var s, e := Exec(setup, Front(run)), Last(run);
    TickStep(s, e, setup.offset);
    TickManual(s.(live := LiveAfter(s.live, e)), e.now, s.live.rules, Cooldown(LiveAfter(s.live, e)), c);
  }

  lemma AskedState(setup: Setup, c: ClientId)
    ensures var s := Exec(setup, [Event.Throttle(c, Some(200), None, 0)]);
      && PolicyOf(s.policies, c) == ClientPolicy(Some(ManualPolicy(Some(200), false, None)), None)
      && s.windows == map[] && s.counters == map[] && s.last == map[]
  {
    var asked := [Event.Throttle(c, Some(200), None, 0)];
    assert asked[..0] == [];
    assert Exec(setup, []) == Boot(setup);
  }

  /** A request for 200 percent is taken as it is, and enforced by the next tick. */
  lemma ExcessIsEnforced(setup: Setup, c: ClientId)
    ensures Get(Exec(setup, [Event.Throttle(c, Some(200), None, 0), Tick(0)]).enforced, c) == Some(ThrottleTo(200))
  {
    hide TickState, ThrottleState, Boot;
    var asked := [Event.Throttle(c, Some(200), None, 0)];
    var run := [Event.Throttle(c, Some(200), None, 0), Tick(0)];
    assert Front(run) == asked;
    var s := Exec(setup, asked);
    AskedState(setup, c);
    assert WinsAfter(s, c, 0) == map[];
    NothingExceeds(s.live.rules, Observed(map[]));
    RunConsistent(setup, asked, c);
    TickStep(s, Tick(0), setup.offset);
    TickAuto(s, 0, s.live.rules, Cooldown(s.live), c);
    EnforcerAgrees(setup, run, c);
  }
}
