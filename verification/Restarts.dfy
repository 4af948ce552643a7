/**
 * The store against memory: over any run, restarts included, what is saved is what
 * is in force, so a restart neither strengthens nor prolongs a manual overlay.
 */
module Restarts {
  import opened Base
  import opened Client
  import opened Rules
  import opened ClientWindows
  import opened Policy
  import opened Enforcer
  import opened PolicyStore
  import opened Daemon
  import opened Overlays
  import opened Runs

  predicate HasTime(e: Event) {
    !e.Sniff? && !e.Swap?
  }

  /** The latest time any event has read; one that waited for a lock may act on an older time. */
  function Clock(run: seq<Event>): nat {
    if run == [] then 0
    else if HasTime(Last(run)) then Max(Clock(Front(run)), Last(run).now)
    else Clock(Front(run))
  }

  /** A duration the saved form can hold: its wall-clock end fits 64 bits of seconds. */
  predicate Representable(e: Event, offset: nat) {
    (e.Throttle? || e.Block?) && e.duration.Some? ==> (e.now + offset) / NANOS + e.duration.value <= U64_MAX
  }

  predicate Durations(run: seq<Event>, offset: nat) {
    run == [] || (Durations(Front(run), offset) && Representable(Last(run), offset))
  }

  /** A saved overlay stands for one in memory, as seen at `now`. */
  predicate Stands(p: StoredManual, m: ManualPolicy, now: nat, offset: nat) {
    && p.throttle == m.throttle && p.blocked == m.blocked
    && (p.untilUnix.Some? <==> m.until.Some?)
    && (m.until.Some? ==>
          && Expiry(p) <= Max(m.until.value, now) + offset
          && (now < m.until.value ==>
                && m.until.value + offset < Expiry(p) + 2 * NANOS
                && (m.until.value + offset) / NANOS <= U64_MAX))
  }

  predicate Gone(p: StoredManual, now: nat, offset: nat) {
    p.untilUnix.Some? && Expiry(p) <= now + offset
  }

  /**
   * Every overlay in memory is saved; a saved one without memory is already over; and
   * no entry is dropped before its overlay is over.
   */
  predicate Saved(manual: Option<ManualPolicy>, stored: Option<Entry>, now: nat, offset: nat) {
    && (stored.Some? ==> Lasts(stored.value))
    && if manual.Some? then stored.Some? && Stands(stored.value.policy, manual.value, now, offset)
       else stored.Some? ==> Gone(stored.value.policy, now, offset)
  }

  lemma SavedLater(manual: Option<ManualPolicy>, stored: Option<Entry>, now: nat, later: nat, offset: nat)
    requires Saved(manual, stored, now, offset) && now <= later
    ensures Saved(manual, stored, later, offset)
  {
  }

  lemma SavedAfterTick(manual: Option<ManualPolicy>, stored: Option<Entry>, now: nat, clock: nat, offset: nat)
    requires Saved(manual, stored, clock, offset) && now <= clock
    ensures Saved(ManualAfter(manual, now), stored, clock, offset)
  {
  }

  /** Saving an overlay makes the store stand for it, also when the saver's time is not the latest. */
  lemma SavingStands(m: ManualPolicy, now: nat, clock: nat, offset: nat)
    requires now <= clock
    requires m.until.Some? && clock < m.until.value ==> (m.until.value + offset) / NANOS <= U64_MAX
    ensures Stands(FromRuntime(m, now, now + offset), m, clock, offset)
  {
  }

  lemma RestoringStands(p: StoredManual, now: nat, offset: nat)
    ensures Stands(p, ToRuntime(p, now, now + offset), now, offset)
  {
  }

  /** A handler's new overlay keeps within the range that can be saved. */
  predicate Fitting(m: Option<ManualPolicy>, now: nat, offset: nat) {
    m.Some? && m.value.until.Some? && now < m.value.until.value ==>
      (m.value.until.value + offset) / NANOS <= U64_MAX
  }

  lemma UnexpiringLasts(p: StoredManual)
    ensures Lasts(Entry(p, None))
  {
  }

  lemma SavedFits(s: State, c: ClientId, clock: nat, offset: nat)
    requires Saved(Manual(s, c), Get(s.store.entries, c), clock, offset)
    ensures Fitting(Manual(s, c), clock, offset)
  {
  }

  lemma SetSaves(s: State, d: ClientId, m: ManualPolicy, now: nat, clock: nat, offset: nat, c: ClientId)
    requires Saved(Manual(s, c), Get(s.store.entries, c), clock, offset)
    requires Fitting(Some(m), clock, offset) && now <= clock
    ensures var t := SetManual(s, d, m, now, now + offset); Saved(Manual(t, c), Get(t.store.entries, c), clock, offset)
    ensures var t := DropManual(s, d); Saved(Manual(t, c), Get(t.store.entries, c), clock, offset)
  {
    hide FromRuntime, Stands, Lasts, Deadline;
    SavingStands(m, now, clock, offset);
    SavedLasts(FromRuntime(m, now, now + offset), now + offset);
    UnexpiringLasts(FromRuntime(m, now, now + offset));
  }

  lemma HandlerSaves(s: State, e: Event, clock: nat, offset: nat, c: ClientId)
    requires IsHandler(e) && Representable(e, offset) && e.now <= clock
    requires Saved(Manual(s, c), Get(s.store.entries, c), clock, offset)
    requires Saved(Manual(s, e.client), Get(s.store.entries, e.client), clock, offset)
    ensures var t := Step(s, e, offset); Saved(Manual(t, c), Get(t.store.entries, c), clock, offset)
  {
    hide SetManual, DropManual, Step, Saved;
    HandlerIs(s, e, offset);
    SavedFits(s, e.client, clock, offset);
    EditedFits(s, e, clock, offset);
    SetSaves(s, e.client, Edited(s, e), e.now, clock, offset, c);
  }

  lemma EditedFits(s: State, e: Event, clock: nat, offset: nat)
    requires IsHandler(e) && Representable(e, offset) && Fitting(Manual(s, e.client), clock, offset)
    ensures Fitting(Some(Edited(s, e)), clock, offset)
  {
    if e.Throttle? || e.Block? {
      UntilFits(e, offset, e.duration);
    }
  }

  lemma UntilFits(e: Event, offset: nat, duration: Option<u64>)
    requires (e.Throttle? || e.Block?) && e.duration == duration && Representable(e, offset)
    ensures Until(e.now, duration).Some? ==> (Until(e.now, duration).value + offset) / NANOS <= U64_MAX
  {
  }

  lemma TickManual(s: State, now: nat, rules: seq<Rule>, cooldown: nat, c: ClientId)
    ensures Manual(TickState(s, now, rules, cooldown), c) == ManualAfter(Manual(s, c), now)
  {
    hide TickSome, TickState, TickClient, AutoAfter;
    TickGives(s, now, rules, cooldown, c);
  }

  /** The overlay a client comes back with. */
  function Restored(store: Storage, now: nat, wall: nat, c: ClientId): Option<ManualPolicy> {
    var loaded := Loaded(store, wall);
    if c in loaded then Some(ToRuntime(loaded[c], now, wall)) else None
  }

  lemma StartedManual(mode: Mode, live: Live, store: Storage, now: nat, wall: nat, c: ClientId)
    ensures Manual(Started(mode, live, store, now, wall), c) == Restored(store, now, wall, c)
  {
    var loaded := Loaded(store, wall);
    ExtendGet(map[], loaded.Keys, Hydrated(loaded, now, wall), c);
  }

  /** Memory and store agree after any run, as seen at the latest time read. */
  lemma {:induction false} RunSaves(setup: Setup, run: seq<Event>, c: ClientId)
    requires Durations(run, setup.offset)
    ensures var s := Exec(setup, run); Saved(Manual(s, c), Get(s.store.entries, c), Clock(run), setup.offset)
  {
    hide TickState, Started, Saved;
    if run == [] {
      assert Saved(None, None, 0, setup.offset) by {
        NothingSaved(setup.offset);
      }
    } else {
      var s, e, offset := Exec(setup, Front(run)), Last(run), setup.offset;
      var clock := Clock(run);
      RunSaves(setup, Front(run), c);
      SavedLater(Manual(s, c), Get(s.store.entries, c), Clock(Front(run)), clock, offset);
      if IsTick(e) {
        TickStep(s, e, offset);
        TickGives(s.(live := LiveAfter(s.live, e)), e.now, s.live.rules, Cooldown(LiveAfter(s.live, e)), c);
        TickManual(s.(live := LiveAfter(s.live, e)), e.now, s.live.rules, Cooldown(LiveAfter(s.live, e)), c);
        SavedAfterTick(Manual(s, c), Get(s.store.entries, c), e.now, clock, offset);
      } else if e.Restart? {
        StartedManual(e.mode, e.live, Reopened(s.store), e.now, e.now + offset, c);
        RestoreSaves(s.store, Manual(s, c), e.now, clock, offset, c);
        StartedStore(e.mode, e.live, Reopened(s.store), e.now, e.now + offset);
      } else if !e.Sniff? && !e.Swap? {
        RunSaves(setup, Front(run), e.client);
        SavedLater(Manual(s, e.client), Get(s.store.entries, e.client), Clock(Front(run)), clock, offset);
        HandlerSaves(s, e, clock, offset, c);
      }
    }
  }

  lemma NothingSaved(offset: nat)
    ensures Saved(None, None, 0, offset)
  {
  }

  lemma StartedStore(mode: Mode, live: Live, store: Storage, now: nat, wall: nat)
    ensures Started(mode, live, store, now, wall).store == store
  {
  }

  lemma RestoreSaves(store: Storage, manual: Option<ManualPolicy>, now: nat, clock: nat, offset: nat, c: ClientId)
    requires Saved(manual, Get(store.entries, c), clock, offset) && now <= clock
    ensures var st := Reopened(store); Saved(Restored(st, now, now + offset, c), Get(st.entries, c), clock, offset)
  {
    var st := Reopened(store);
    if c in Loaded(st, now + offset) {
      RestoringStands(st.entries[c].policy, now, offset);
    }
  }

  lemma SetSameBackend(s: State, d: ClientId, m: ManualPolicy, now: nat, wall: nat)
    ensures SetManual(s, d, m, now, wall).store.redis == DropManual(s, d).store.redis == s.store.redis
  {
  }

  lemma HandlerSameBackend(s: State, e: Event, offset: nat)
    requires IsHandler(e)
    ensures Step(s, e, offset).store.redis == s.store.redis
  {
    hide SetManual, DropManual, Step, Edited;
    HandlerIs(s, e, offset);
    SetSameBackend(s, e.client, Edited(s, e), e.now, e.now + offset);
  }

  /** Which backend a run is on never changes. */
  lemma {:induction false} SameBackend(setup: Setup, run: seq<Event>)
    ensures Exec(setup, run).store.redis == setup.redis
  {
    hide TickState, Started, ThrottleState, BlockState, UnthrottleState, UnblockState;
    if run != [] {
      var s, e, offset := Exec(setup, Front(run)), Last(run), setup.offset;
      SameBackend(setup, Front(run));
      if IsTick(e) {
        TickStep(s, e, offset);
        TickGives(s.(live := LiveAfter(s.live, e)), e.now, s.live.rules, Cooldown(LiveAfter(s.live, e)), ANYONE);
      } else if e.Restart? {
        StartedStore(e.mode, e.live, Reopened(s.store), e.now, e.now + offset);
      } else if !e.Sniff? && !e.Swap? {
        HandlerSameBackend(s, e, offset);
      }
    }
  }

  /**
   * Restart refinement: at any time after a restart on Redis each client's manual
   * action is what it would have been, or has ended, and then less than two seconds
   * early. So a restart never strengthens or prolongs an overlay.
   */
  lemma RestartKeepsManual(setup: Setup, run: seq<Event>, mode: Mode, live: Live, now: nat, later: nat, c: ClientId)
    requires setup.redis && Durations(run, setup.offset) && Clock(run) <= now <= later
    ensures var s := Exec(setup, run);
      var t := Started(mode, live, Reopened(s.store), now, now + setup.offset);
      var before, after := ManualAction(Manual(s, c), later), ManualAction(Manual(t, c), later);
      after == before
      || (after == PassAll && Manual(s, c).value.until.Some? && Manual(s, c).value.until.value < later + 2 * NANOS)
  {
    hide Exec, Started;
    var s := Exec(setup, run);
    RunSaves(setup, run, c);
    SameBackend(setup, run);
    StartedManual(mode, live, Reopened(s.store), now, now + setup.offset, c);
  }

  /** Without Redis a restart forgets every overlay. */
  lemma MemoryForgets(setup: Setup, run: seq<Event>, mode: Mode, live: Live, now: nat, c: ClientId)
    requires !setup.redis
    ensures Manual(Started(mode, live, Reopened(Exec(setup, run).store), now, now + setup.offset), c) == None
  {
    hide Exec, Started;
    SameBackend(setup, run);
    StartedManual(mode, live, Reopened(Exec(setup, run).store), now, now + setup.offset, c);
  }

  /** A second restart with nothing saved in between costs nothing more. */
  lemma RestartTwice(setup: Setup, run: seq<Event>, mode: Mode, live: Live, now: nat, again: nat, later: nat,
                     c: ClientId)
    requires setup.redis && Durations(run, setup.offset) && Clock(run) <= now <= again <= later
    ensures var once := Started(mode, live, Reopened(Exec(setup, run).store), now, now + setup.offset);
      var twice := Started(mode, live, Reopened(once.store), again, again + setup.offset);
      ManualAction(Manual(twice, c), later) == ManualAction(Manual(once, c), later)
  {
    hide Exec, Started;
    var s, offset := Exec(setup, run), setup.offset;
    RunSaves(setup, run, c);
    SameBackend(setup, run);
    StartedStore(mode, live, s.store, now, now + offset);
    StartedManual(mode, live, s.store, now, now + offset, c);
    StartedManual(mode, live, s.store, again, again + offset, c);
    LoadedTwice(s.store, now, again, later, offset, c);
  }

  lemma LoadedTwice(store: Storage, now: nat, again: nat, later: nat, offset: nat, c: ClientId)
    requires c in store.entries ==> Lasts(store.entries[c])
    requires now <= again <= later
    ensures ManualAction(Restored(store, again, again + offset, c), later)
         == ManualAction(Restored(store, now, now + offset, c), later)
  {
  }

  // ---- a restart followed by a request, before the next tick -----------------------------------

  /**
   * A client with no overlay in memory is not blocked by a throttle. After a restart
   * it is exactly when Redis still hands out a block for it, over as that may be.
   */
  lemma RestartRevivesExactly(setup: Setup, run: seq<Event>, mode: Mode, live: Live, c: ClientId,
                              rate: Option<u8>, duration: Option<u64>, now: nat, later: nat)
    requires setup.redis && Manual(Exec(setup, run), c).None? && now <= later
    ensures var s, offset := Exec(setup, run), setup.offset;
      var t := Started(mode, live, Reopened(s.store), now, now + offset);
      && ManualAction(Manual(ThrottleState(s, c, rate, duration, later, later + offset), c), later) != BlockAll
      && (ManualAction(Manual(ThrottleState(t, c, rate, duration, later, later + offset), c), later) == BlockAll <==>
            && duration != Some(0)
            && c in s.store.entries && Alive(s.store.entries[c], now + offset) && s.store.entries[c].policy.blocked)
  {
    hide Exec, Started, ThrottleState;
    var s, offset := Exec(setup, run), setup.offset;
    var t := Started(mode, live, Reopened(s.store), now, now + offset);
    SameBackend(setup, run);
    StartedManual(mode, live, s.store, now, now + offset, c);
    ThrottleActs(s, c, rate, duration, later, later + offset, later);
    ThrottleActs(t, c, rate, duration, later, later + offset, later);
  }

  const MS := 1_000_000

  /** A wall clock that shows whole seconds when the monotone one does, and whose seconds fit. */
  predicate OnTheSecond(setup: Setup) {
    setup.redis && setup.offset % NANOS == 0 && setup.offset / NANOS <= U64_MAX
  }

  /** Half a second of a block is left as it is saved again, so its entry lives a whole second. */
  function LateEntry(setup: Setup): Entry
    requires OnTheSecond(setup)
  {
    Entry(StoredManual(None, true, Some(setup.offset / NANOS)), Some(setup.offset + 1500 * MS))
  }

  lemma SavedLate(setup: Setup, c: ClientId)
    requires OnTheSecond(setup)
    ensures var s := Exec(setup, [Event.Block(c, Some(1), 0), Event.Unthrottle(c, 500 * MS)]);
      && Manual(s, c) == Some(ManualPolicy(None, true, Some(NANOS)))
      && Get(s.store.entries, c) == Some(LateEntry(setup))
  {
    hide Deadline, FromRuntime, LateEntry;
    var blocked := [Event.Block(c, Some(1), 0)];
    var m := ManualPolicy(None, true, Some(NANOS));
    assert blocked[..0] == [];
    assert Exec(setup, []) == Boot(setup);
    var s := Exec(setup, blocked);
    assert Manual(s, c) == Some(m) && s.store.redis;
    assert [Event.Block(c, Some(1), 0), Event.Unthrottle(c, 500 * MS)][..1] == blocked;
    SavedForm(setup, m);
  }

  lemma SavedForm(setup: Setup, m: ManualPolicy)
    requires OnTheSecond(setup) && m == ManualPolicy(None, true, Some(NANOS))
    ensures var p := FromRuntime(m, 500 * MS, 500 * MS + setup.offset);
      Entry(p, Deadline(p, 500 * MS + setup.offset)) == LateEntry(setup)
  {
    var k := setup.offset / NANOS;
    assert setup.offset == k * NANOS;
    assert (500 * MS + setup.offset) / NANOS == k;
  }

  /** The tick drops the expired block from memory and leaves it in the store. */
  lemma BlockReaped(setup: Setup, c: ClientId)
    requires OnTheSecond(setup)
    ensures var s := Exec(setup, [Event.Block(c, Some(1), 0), Event.Unthrottle(c, 500 * MS), Tick(1100 * MS)]);
      Manual(s, c) == None && Get(s.store.entries, c) == Some(LateEntry(setup))
  {
    hide TickState, Step, LateEntry;
    var saved := [Event.Block(c, Some(1), 0), Event.Unthrottle(c, 500 * MS)];
    var reaped := [Event.Block(c, Some(1), 0), Event.Unthrottle(c, 500 * MS), Tick(1100 * MS)];
    assert Front(reaped) == saved;
    var s := Exec(setup, saved);
    SavedLate(setup, c);
    TickStep(s, Tick(1100 * MS), setup.offset);
    TickManual(s, 1100 * MS, s.live.rules, Cooldown(s.live), c);
    TickGives(s, 1100 * MS, s.live.rules, Cooldown(s.live), c);
  }

  /**
   * An overlay past its expiry is not always dropped on load: a one-second block, saved
   * again at half time and reaped by a tick, blocks once more when the client is
   * throttled between a restart and the next tick.
   */
  lemma RestartThenThrottleRevives(setup: Setup, c: ClientId)
    requires OnTheSecond(setup)
    ensures var reaped := [Event.Block(c, Some(1), 0), Event.Unthrottle(c, 500 * MS), Tick(1100 * MS)];
      var s := Exec(setup, reaped);
      var t := Started(setup.mode, setup.live, Reopened(s.store), 1200 * MS, 1200 * MS + setup.offset);
      var now, wall := 1200 * MS, 1200 * MS + setup.offset;
      && ManualAction(Manual(ThrottleState(s, c, None, None, now, wall), c), now) == ThrottleTo(50)
      && ManualAction(Manual(ThrottleState(t, c, None, None, now, wall), c), now) == BlockAll
  {
    hide Exec, Started, ThrottleState;
    var reaped := [Event.Block(c, Some(1), 0), Event.Unthrottle(c, 500 * MS), Tick(1100 * MS)];
    BlockReaped(setup, c);
    RestartRevivesExactly(setup, reaped, setup.mode, setup.live, c, None, None, 1200 * MS, 1200 * MS);
    ThrottleActs(Exec(setup, reaped), c, None, None, 1200 * MS, 1200 * MS + setup.offset, 1200 * MS);
  }
}
