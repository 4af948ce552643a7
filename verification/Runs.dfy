/**
 * Whole runs of the daemon: sniffer increments, ticks, IPC requests, reloads and
 * restarts in any order. The theorems say what the enforcer holds after a tick in
 * terms of the run's history alone.
 */
module Runs {
  import opened Base
  import opened Client
  import opened Rules
  import opened Window
  import opened Counters
  import opened TickWindows
  import opened ClientWindows
  import opened Policy
  import opened Enforcer
  import opened PolicyStore
  import opened Daemon

  datatype Event =
    | Sniff(added: Added)
    | Tick(now: nat)
    | TickRacing(now: nat, live: Live)  // a reload lands between the tick's two reads
    | Throttle(client: ClientId, rate: Option<u8>, duration: Option<u64>, now: nat)
    | Block(client: ClientId, duration: Option<u64>, now: nat)
    | Unthrottle(client: ClientId, now: nat)
    | Unblock(client: ClientId, now: nat)
    | Swap(live: Live)
    | Restart(mode: Mode, live: Live, now: nat)

  predicate IsTick(e: Event) {
    e.Tick? || e.TickRacing?
  }

  /** Configuration in force once the event is over. */
  function LiveAfter(live: Live, e: Event): Live {
    if e.TickRacing? || e.Swap? || e.Restart? then e.live else live
  }

  /** The wall clock is the monotone clock plus `offset`. */
  function Step(s: State, e: Event, offset: nat): State {
    match e
    case Sniff(a) => s.(counters := BumpRule(s.counters, a))
    case Tick(now) => TickState(s, now, s.live.rules, Cooldown(s.live))
    case TickRacing(now, live) => TickState(s.(live := live), now, s.live.rules, Cooldown(live))
    case Throttle(c, rate, duration, now) => ThrottleState(s, c, rate, duration, now, now + offset)
    case Block(c, duration, now) => BlockState(s, c, duration, now, now + offset)
    case Unthrottle(c, now) => UnthrottleState(s, c, now, now + offset)
    case Unblock(c, now) => UnblockState(s, c, now, now + offset)
    case Swap(live) => s.(live := live)
    case Restart(mode, live, now) => Started(mode, live, Reopened(s.store), now, now + offset)
  }

  /** The first start, on an empty store. */
  function Boot(setup: Setup): State {
    State(setup.mode, setup.live, map[], map[], map[], map[], map[], map[], Storage(setup.redis, map[]))
  }

  /** `redis` tells the backend that every start of the run finds. */
  datatype Setup = Setup(mode: Mode, live: Live, redis: bool, offset: nat)

  function Exec(setup: Setup, run: seq<Event>): State {
    if run == [] then Boot(setup)
    else Step(Exec(setup, Front(run)), Last(run), setup.offset)
  }

  function Front(run: seq<Event>): seq<Event>
    requires run != []
  {
    run[..|run| - 1]
  }

  function Last(run: seq<Event>): Event
    requires run != []
  {
    run[|run| - 1]
  }

  // ---- what a tick leaves for one client ------------------------------------------------------

  lemma ExtendGet<V>(m: map<ClientId, V>, over: set<ClientId>, f: ClientId -> V, c: ClientId)
    ensures Get(Extend(m, over, f), c) == if c in over then Some(f(c)) else Get(m, c)
  {
  }

  lemma OverrideGet<V>(m: map<ClientId, V>, over: set<ClientId>, f: ClientId -> Option<V>, c: ClientId)
    ensures Get(Override(m, over, f), c) == if c in over then f(c) else Get(m, c)
  {
  }

  lemma TickGives(s: State, now: nat, rules: seq<Rule>, cooldown: nat, c: ClientId)
    ensures var t := TickState(s, now, rules, cooldown);
      && t.mode == s.mode && t.live == s.live && t.counters == s.counters && t.last == s.counters && t.store == s.store
      && Get(t.windows, c) == (if c in Visited(s) then Some(WinsAfter(s, c, now)) else Get(s.windows, c))
      && Get(t.policies, c) == (if c in Visited(s) then Some(TickPolicy(s, c, now, rules, cooldown)) else None)
      && Get(t.enforced, c) == (if c in Visited(s)
           then EnforcedAfter(Merge(TickPolicy(s, c, now, rules, cooldown), now)) else Get(s.enforced, c))
      && Get(t.wouldBe, c) == (if c in Visited(s)
           then WouldBeAfter(s.mode, Get(s.wouldBe, c), Merge(TickPolicy(s, c, now, rules, cooldown), now))
           else Get(s.wouldBe, c))
  {
    hide Extend, Override, TickClient;
    ExtendGet(s.windows, Visited(s), TickWins(s, now), c);
    ExtendGet(s.policies, Visited(s), TickPolicies(s, now, rules, cooldown), c);
    OverrideGet(s.enforced, Visited(s), TickEnforced(s, now, rules, cooldown), c);
    OverrideGet(s.wouldBe, Visited(s), TickWouldBe(s, now, rules, cooldown), c);
  }

  /** A tick event is one TickState, from the state with the new configuration. */
  lemma TickStep(s: State, e: Event, offset: nat)
    requires IsTick(e)
    ensures Step(s, e, offset)
         == TickState(s.(live := LiveAfter(s.live, e)), e.now, s.live.rules, Cooldown(LiveAfter(s.live, e)))
  {
  }

  /** Only the manual overlay and the store differ. */
  predicate ManualOnly(s: State, t: State, c: ClientId) {
    && t == s.(policies := t.policies, store := t.store)
    && (c in s.policies ==> c in t.policies)
    && PolicyOf(t.policies, c).auto == PolicyOf(s.policies, c).auto
  }

  lemma SetManualOnly(s: State, d: ClientId, m: ManualPolicy, now: nat, wall: nat, c: ClientId)
    ensures ManualOnly(s, SetManual(s, d, m, now, wall), c)
    ensures ManualOnly(s, DropManual(s, d), c)
  {
  }

  predicate IsHandler(e: Event) {
    e.Throttle? || e.Block? || e.Unthrottle? || e.Unblock?
  }

  /** The overlay a handler leaves, if it leaves one. */
  function Edited(s: State, e: Event): ManualPolicy
    requires IsHandler(e)
  {
    var m := ManualOf(s, e.client);
    match e
    case Throttle(_, rate, duration, now) =>
      m.(throttle := Some(if rate.Some? then rate.value else 50), until := Until(now, duration))
    case Block(_, duration, now) => m.(blocked := true, until := Until(now, duration))
    case Unthrottle(_, _) => m.(throttle := None)
    case Unblock(_, _) => m.(blocked := false)
  }

  /** A handler does nothing, sets the edited overlay, or drops the overlay. */
  lemma HandlerIs(s: State, e: Event, offset: nat)
    requires IsHandler(e)
    ensures Step(s, e, offset) == s
      || Step(s, e, offset) == SetManual(s, e.client, Edited(s, e), e.now, e.now + offset)
      || Step(s, e, offset) == DropManual(s, e.client)
  {
    hide SetManual, DropManual, ManualOf, PolicyOf;
  }

  lemma HandlerManualOnly(s: State, e: Event, offset: nat, c: ClientId)
    requires IsHandler(e)
    ensures ManualOnly(s, Step(s, e, offset), c)
  {
    hide SetManual, DropManual, Step, Edited;
    HandlerIs(s, e, offset);
    SetManualOnly(s, e.client, Edited(s, e), e.now, e.now + offset, c);
  }

  /** What no event but a tick or a restart touches. */
  lemma OtherStep(s: State, e: Event, offset: nat, c: ClientId)
    requires !IsTick(e) && !e.Restart?
    ensures var t := Step(s, e, offset);
      && t == s.(live := LiveAfter(s.live, e), policies := t.policies, counters := t.counters, store := t.store)
      && (c in s.policies ==> c in t.policies)
      && PolicyOf(t.policies, c).auto == PolicyOf(s.policies, c).auto
      && t.counters == if e.Sniff? then BumpRule(s.counters, e.added) else s.counters
  {
    hide TickState, ThrottleState, BlockState, UnthrottleState, UnblockState, BumpRule;
    if IsHandler(e) {
      HandlerManualOnly(s, e, offset, c);
    }
  }

  // ---- the enforcer agrees with the policies ----------------------------------------------------

  /** Kept by every event: nothing is enforced, windowed or would-be outside the policy map. */
  predicate Consistent(s: State, c: ClientId) {
    && (c !in s.policies ==> c !in s.enforced && c !in s.windows)
    && Get(s.wouldBe, c) == (if s.mode == Permissive then Get(s.enforced, c) else None)
  }

  lemma TickConsistent(s: State, now: nat, rules: seq<Rule>, cooldown: nat, c: ClientId)
    requires Consistent(s, c)
    ensures var t := TickState(s, now, rules, cooldown);
      && Consistent(t, c)
      && Get(t.enforced, c) == EnforcedAfter(Merge(PolicyOf(t.policies, c), now))
  {
    hide TickSome, TickState, TickPolicy, TickClient;
    TickGives(s, now, rules, cooldown, c);
    assert c in s.policies ==> c in Visited(s);
  }

  lemma {:induction false} RunConsistent(setup: Setup, run: seq<Event>, c: ClientId)
    ensures Consistent(Exec(setup, run), c)
  {
    hide TickState;
    if run != [] {
      var s, e := Exec(setup, Front(run)), Last(run);
      RunConsistent(setup, Front(run), c);
      if IsTick(e) {
        TickStep(s, e, setup.offset);
        TickConsistent(s.(live := LiveAfter(s.live, e)), e.now, s.live.rules, Cooldown(LiveAfter(s.live, e)), c);
      } else if !e.Restart? {
        hide Step;
        OtherStep(s, e, setup.offset, c);
      }
    }
  }

  /**
   * After every tick, for every client known or not: the enforcer holds exactly the
   * merged policy at the tick's time, None being no entry; the would-be map is the
   * same in permissive mode and empty in enforce mode.
   */
  lemma EnforcerAgrees(setup: Setup, run: seq<Event>, c: ClientId)
    requires run != [] && IsTick(Last(run))
    ensures var t := Exec(setup, run);
      && Get(t.enforced, c) == EnforcedAfter(Merge(PolicyOf(t.policies, c), Last(run).now))
      && (c in t.enforced <==> Merge(PolicyOf(t.policies, c), Last(run).now) != PassAll)
      && (c in t.enforced ==> t.enforced[c] == Merge(PolicyOf(t.policies, c), Last(run).now))
      && Get(t.wouldBe, c) == (if t.mode == Permissive then Get(t.enforced, c) else None)
  {
    hide TickState;
    var s, e := Exec(setup, Front(run)), Last(run);
    RunConsistent(setup, Front(run), c);
    TickStep(s, e, setup.offset);
    TickConsistent(s.(live := LiveAfter(s.live, e)), e.now, s.live.rules, Cooldown(LiveAfter(s.live, e)), c);
  }

  // ---- windows are a function of the counter snapshots -------------------------------------------

  /** The snapshots of one counter at the ticks since the last restart. */
  function TicksOf(setup: Setup, run: seq<Event>, k: CounterKey): seq<TickRec> {
    if run == [] || Last(run).Restart? then []
    else if IsTick(Last(run)) then
      TicksOf(setup, Front(run), k)
        + [TickRec(Last(run).now, CountsOf(Exec(setup, Front(run)).counters, k))]
    else TicksOf(setup, Front(run), k)
  }

  ghost predicate Follows(s: State, h: seq<TickRec>, k: CounterKey) {
    && Get(WinsOf(s.windows, k.client), k.rule) == WinAfter(h)
    && CountsOf(s.last, k) == LastCounts(h)
    && NoLess(LastCounts(h), CountsOf(s.counters, k))
    && Growing(h)
  }

  lemma NoLessTrans(a: Counts, b: Counts, c: Counts)
    requires NoLess(a, b) && NoLess(b, c)
    ensures NoLess(a, c)
  {
  }

  lemma TickClientGet(ws: WinMap, snapshot: RuleCounts, last: RuleCounts, k: CounterKey, now: nat)
    ensures Get(TickClient(ws, snapshot, last, k.client, now), k.rule)
         == TickWin(Get(ws, k.rule), CountsOf(last, k), CountsOf(snapshot, k), now)
  {
    if k in snapshot {
      assert k.rule in RulesOf(snapshot, k.client);
    }
  }

  lemma TickFollows(s: State, h: seq<TickRec>, now: nat, rules: seq<Rule>, cooldown: nat, k: CounterKey)
    requires Follows(s, h, k) && Consistent(s, k.client)
    ensures Follows(TickState(s, now, rules, cooldown), h + [TickRec(now, CountsOf(s.counters, k))], k)
  {
    hide TickSome, TickState, TickPolicy, TickClient;
    var t, rec := TickState(s, now, rules, cooldown), TickRec(now, CountsOf(s.counters, k));
    var all := h + [rec];
    assert all[..|all| - 1] == h;
    TickGives(s, now, rules, cooldown, k.client);
    TickClientGet(WinsOf(s.windows, k.client), s.counters, s.last, k, now);
    if k.client !in Visited(s) {
      assert k !in s.counters;
    }
    forall i, j | 0 <= i <= j < |all| ensures NoLess(all[i].counts, all[j].counts) {
      if i < |h| && j == |h| {
        NoLessTrans(h[i].counts, LastCounts(h), rec.counts);
      }
    }
  }

  lemma BootFollows(s: State, k: CounterKey)
    requires s.windows == map[] && s.counters == map[] && s.last == map[]
    ensures Follows(s, [], k)
  {
  }

  lemma CountFollows(s: State, h: seq<TickRec>, a: Added, k: CounterKey)
    requires Follows(s, h, k)
    ensures Follows(s.(counters := BumpRule(s.counters, a)), h, k)
  {
    NoLessTrans(LastCounts(h), CountsOf(s.counters, k), CountsOf(BumpRule(s.counters, a), k));
  }

  lemma {:induction false} RunFollows(setup: Setup, run: seq<Event>, k: CounterKey)
    ensures Follows(Exec(setup, run), TicksOf(setup, run, k), k)
  {
    hide TickState, WinAfter, Growing, BumpRule, NoLess;
    if run == [] {
      BootFollows(Boot(setup), k);
    } else {
      var s, e, h := Exec(setup, Front(run)), Last(run), TicksOf(setup, Front(run), k);
      RunFollows(setup, Front(run), k);
      if IsTick(e) {
        RunConsistent(setup, Front(run), k.client);
        TickStep(s, e, setup.offset);
        TickFollows(s.(live := LiveAfter(s.live, e)), h, e.now, s.live.rules, Cooldown(LiveAfter(s.live, e)), k);
      } else if e.Restart? {
        BootFollows(Step(s, e, setup.offset), k);
      } else {
        hide Step;
        OtherStep(s, e, setup.offset, k.client);
        if e.Sniff? {
          CountFollows(s, h, e.added, k);
        }
      }
    }
  }

  /**
   * In every reachable state the sixty buckets of a window together hold no more than
   * the counter they were fed from, so no sum over them saturates.
   */
  lemma NoWindowSaturates(setup: Setup, run: seq<Event>, k: CounterKey, m: Metric, n: nat)
    requires n <= SLOTS && k.rule in WinsOf(Exec(setup, run).windows, k.client)
    ensures var s := Exec(setup, run);
      var w := WinsOf(s.windows, k.client)[k.rule];
      && Exactly(w.slots, m) <= Count(CountsOf(s.last, k), m) <= Count(CountsOf(s.counters, k), m)
      && Total(w.slots[..n], m) == Exactly(w.slots[..n], m)
  {
    hide Exec, WinAfter;
    RunFollows(setup, run, k);
    WindowsNeverSaturate(TicksOf(setup, run, k), m, n);
  }
}
