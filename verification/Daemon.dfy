/**
 * The daemon: what a decision tick, an IPC handler, a reload and a start-up do to
 * its state. `State` is the whole of it as a value; the class updates it in place.
 */
module Daemon {
  import opened Base
  import opened Client
  import opened Rules
  import opened Window
  import opened Counters
  import opened ClientWindows
  import opened Engine
  import opened Policy
  import opened Enforcer
  import opened PolicyStore

  datatype Live = Live(rules: seq<Rule>, cooldownSecs: u64)

  type Policies = map<ClientId, ClientPolicy>

  datatype State = State(
    mode: Mode,
    live: Live,
    policies: Policies,
    windows: map<ClientId, WinMap>,
    counters: RuleCounts,
    last: RuleCounts,
    wouldBe: Actions,
    enforced: Actions,
    store: Storage)

  function PolicyOf(policies: Policies, c: ClientId): ClientPolicy {
    if c in policies then policies[c] else NO_POLICY
  }

  function Cooldown(live: Live): nat {
    Max(live.cooldownSecs, 1) * NANOS
  }

  // ---- one tick --------------------------------------------------------------------

  /** Clients the tick visits: everyone counted and everyone with a policy entry. */
  function Visited(s: State): set<ClientId> {
    (set k | k in s.counters :: k.client) + s.policies.Keys
  }

  function WinsAfter(s: State, c: ClientId, now: nat): WinMap {
    TickClient(WinsOf(s.windows, c), s.counters, s.last, c, now)
  }

  function ViolationsAt(s: State, c: ClientId, now: nat, rules: seq<Rule>): seq<Violation> {
    Evaluate(rules, WinsAfter(s, c, now))
  }

  function AutoAfter(auto: Option<AutoPolicy>, vs: seq<Violation>, now: nat, cooldown: nat): Option<AutoPolicy> {
    var found := StrongestAuto(vs, now, cooldown);
    if found.Some? then found
    else if auto.Some? && AutoExpired(auto.value, now) then None
    else auto
  }

  function ManualAfter(manual: Option<ManualPolicy>, now: nat): Option<ManualPolicy> {
    if manual.Some? && ManualExpired(manual.value, now) then None else manual
  }

  function TickPolicy(s: State, c: ClientId, now: nat, rules: seq<Rule>, cooldown: nat): ClientPolicy {
    var p := PolicyOf(s.policies, c);
    ClientPolicy(ManualAfter(p.manual, now), AutoAfter(p.auto, ViolationsAt(s, c, now, rules), now, cooldown))
  }

  /** What the tick leaves in the would-be map for a client; enforce mode only removes. */
  function WouldBeAfter(mode: Mode, before: Option<EffectiveAction>,
                      effective: EffectiveAction): Option<EffectiveAction>
  {
    if effective == PassAll then None
    else if mode == Permissive then Some(effective)
    else before
  }

  function EnforcedAfter(effective: EffectiveAction): Option<EffectiveAction> {
    if effective == PassAll then None else Some(effective)
  }

  function TickWins(s: State, now: nat): ClientId -> WinMap {
    (c: ClientId) => WinsAfter(s, c, now)
  }

  function TickPolicies(s: State, now: nat, rules: seq<Rule>, cooldown: nat): ClientId -> ClientPolicy {
    (c: ClientId) => TickPolicy(s, c, now, rules, cooldown)
  }

  function TickWouldBe(s: State, now: nat, rules: seq<Rule>, cooldown: nat): ClientId -> Option<EffectiveAction> {
    (c: ClientId) => WouldBeAfter(s.mode, Get(s.wouldBe, c), Merge(TickPolicy(s, c, now, rules, cooldown), now))
  }

  function TickEnforced(s: State, now: nat, rules: seq<Rule>, cooldown: nat): ClientId -> Option<EffectiveAction> {
    (c: ClientId) => EnforcedAfter(Merge(TickPolicy(s, c, now, rules, cooldown), now))
  }

  /** The state when the clients in `done` have been visited. */
  function TickSome(s: State, now: nat, rules: seq<Rule>, cooldown: nat, done: set<ClientId>): State {
    s.(
      windows := Extend(s.windows, done, TickWins(s, now)),
      policies := Extend(s.policies, done, TickPolicies(s, now, rules, cooldown)),
      wouldBe := Override(s.wouldBe, done, TickWouldBe(s, now, rules, cooldown)),
      enforced := Override(s.enforced, done, TickEnforced(s, now, rules, cooldown)))
  }

  function TickState(s: State, now: nat, rules: seq<Rule>, cooldown: nat): State {
    TickSome(s, now, rules, cooldown, Visited(s)).(last := s.counters)
  }

  function Assign<V>(m: map<ClientId, V>, c: ClientId, v: Option<V>): map<ClientId, V> {
    if v.Some? then m[c := v.value] else m - {c}
  }

  /** The changes that visiting `c` makes to `t`, computed from the state `s` the tick began in. */
  function Visit(t: State, s: State, c: ClientId, now: nat, rules: seq<Rule>, cooldown: nat): State {
    var p := TickPolicy(s, c, now, rules, cooldown);
    var effective := Merge(p, now);
    t.(
      windows := t.windows[c := WinsAfter(s, c, now)],
      policies := t.policies[c := p],
      wouldBe := Assign(t.wouldBe, c, WouldBeAfter(s.mode, Get(t.wouldBe, c), effective)),
      enforced := Assign(t.enforced, c, EnforcedAfter(effective)))
  }

  lemma OverrideOne<V>(m: map<ClientId, V>, done: set<ClientId>, c: ClientId, f: ClientId -> Option<V>)
    requires c !in done
    ensures Override(m, done + {c}, f) == Assign(Override(m, done, f), c, f(c))
    ensures Get(Override(m, done, f), c) == Get(m, c)
  {
  }

  lemma ExtendOne<V>(m: map<ClientId, V>, done: set<ClientId>, c: ClientId, f: ClientId -> V)
    requires c !in done
    ensures Extend(m, done + {c}, f) == Extend(m, done, f)[c := f(c)]
    ensures Get(Extend(m, done, f), c) == Get(m, c)
  {
  }

  lemma TickSomeOne(s: State, now: nat, rules: seq<Rule>, cooldown: nat, done: set<ClientId>, c: ClientId)
    requires c !in done
    ensures var t := TickSome(s, now, rules, cooldown, done);
      && TickSome(s, now, rules, cooldown, done + {c}) == Visit(t, s, c, now, rules, cooldown)
      && Get(t.windows, c) == Get(s.windows, c)
      && Get(t.policies, c) == Get(s.policies, c)
  {
    ExtendOne(s.windows, done, c, TickWins(s, now));
    ExtendOne(s.policies, done, c, TickPolicies(s, now, rules, cooldown));
    OverrideOne(s.wouldBe, done, c, TickWouldBe(s, now, rules, cooldown));
    OverrideOne(s.enforced, done, c, TickEnforced(s, now, rules, cooldown));
  }

  /** A client not yet visited looks as it did when the tick began. */
  lemma StepFacts(t: State, s: State, now: nat, rules: seq<Rule>, cooldown: nat, done: set<ClientId>, c: ClientId)
    requires t == TickSome(s, now, rules, cooldown, done) && c !in done
    ensures t.mode == s.mode && t.last == s.last
    ensures TickClient(WinsOf(t.windows, c), s.counters, t.last, c, now) == WinsAfter(s, c, now)
    ensures PolicyOf(t.policies, c) == PolicyOf(s.policies, c)
    ensures TickSome(s, now, rules, cooldown, done + {c}) == Visit(t, s, c, now, rules, cooldown)
  {
    hide Extend, Override, TickClient, Visit;
    TickSomeOne(s, now, rules, cooldown, done, c);
    assert WinsOf(t.windows, c) == WinsOf(s.windows, c);
  }

  lemma VisitIs(t: State, u: State, s: State, c: ClientId, now: nat, rules: seq<Rule>, cooldown: nat)
    requires u == t.(windows := u.windows, policies := u.policies, wouldBe := u.wouldBe, enforced := u.enforced)
    requires u.windows == t.windows[c := WinsAfter(s, c, now)]
    requires u.policies == t.policies[c := TickPolicy(s, c, now, rules, cooldown)]
    requires var effective := Merge(TickPolicy(s, c, now, rules, cooldown), now);
      && u.wouldBe == Assign(t.wouldBe, c, WouldBeAfter(s.mode, Get(t.wouldBe, c), effective))
      && u.enforced == Assign(t.enforced, c, EnforcedAfter(effective))
    ensures u == Visit(t, s, c, now, rules, cooldown)
  {
  }

  lemma NoneDone<V>(m: map<ClientId, V>, f: ClientId -> V, g: ClientId -> Option<V>)
    ensures Extend(m, {}, f) == m == Override(m, {}, g)
  {
  }

  lemma TickSomeNone(s: State, now: nat, rules: seq<Rule>, cooldown: nat)
    ensures TickSome(s, now, rules, cooldown, {}) == s
  {
    NoneDone(s.windows, TickWins(s, now), (c: ClientId) => None);
    NoneDone(s.policies, TickPolicies(s, now, rules, cooldown), (c: ClientId) => None);
    NoneDone(s.wouldBe, (c: ClientId) => PassAll, TickWouldBe(s, now, rules, cooldown));
    NoneDone(s.enforced, (c: ClientId) => PassAll, TickEnforced(s, now, rules, cooldown));
  }

  // ---- IPC handlers, reload and start-up ---------------------------------------------------

  const NO_MANUAL := ManualPolicy(None, false, None)

  /** The manual overlay in memory, expired or not. */
  function ManualOf(s: State, c: ClientId): ManualPolicy {
    var m := PolicyOf(s.policies, c).manual;
    if m.Some? then m.value else NO_MANUAL
  }

  function Until(now: nat, durationSecs: Option<u64>): Option<nat> {
    if durationSecs.None? then None else Some(now + durationSecs.value * NANOS)
  }

  /** Sets the overlay in memory and in the store. */
  function SetManual(s: State, c: ClientId, m: ManualPolicy, now: nat, wall: nat): State {
    s.(policies := s.policies[c := PolicyOf(s.policies, c).(manual := Some(m))],
       store := Save(s.store, c, FromRuntime(m, now, wall), wall))
  }

  function DropManual(s: State, c: ClientId): State {
    s.(policies := s.policies[c := PolicyOf(s.policies, c).(manual := None)], store := Erase(s.store, c))
  }

  function ThrottleState(s: State, c: ClientId, rate: Option<u8>, duration: Option<u64>, now: nat, wall: nat): State {
    var r := if rate.Some? then rate.value else 50;
    SetManual(s, c, ManualOf(s, c).(throttle := Some(r), until := Until(now, duration)), now, wall)
  }

  function BlockState(s: State, c: ClientId, duration: Option<u64>, now: nat, wall: nat): State {
    SetManual(s, c, ManualOf(s, c).(blocked := true, until := Until(now, duration)), now, wall)
  }

  function UnthrottleState(s: State, c: ClientId, now: nat, wall: nat): State {
    if PolicyOf(s.policies, c).manual.None? then s
    else if ManualOf(s, c).blocked then SetManual(s, c, ManualOf(s, c).(throttle := None), now, wall)
    else DropManual(s, c)
  }

  function UnblockState(s: State, c: ClientId, now: nat, wall: nat): State {
    if PolicyOf(s.policies, c).manual.None? then s
    else if ManualOf(s, c).throttle.Some? then SetManual(s, c, ManualOf(s, c).(blocked := false), now, wall)
    else DropManual(s, c)
  }

  /** The policy a stored overlay comes back as; the automatic part is not stored. */
  function Hydrated(loaded: map<ClientId, StoredManual>, now: nat, wall: nat): ClientId -> ClientPolicy {
    (c: ClientId) =>
      if c in loaded then ClientPolicy(Some(ToRuntime(loaded[c], now, wall)), None) else NO_POLICY
  }

  /** A new process on a store, with the overlays the store still hands out. */
  function Started(mode: Mode, live: Live, store: Storage, now: nat, wall: nat): State {
    State(mode, live,
      Extend(map[], Loaded(store, wall).Keys, Hydrated(Loaded(store, wall), now, wall)),
      map[], map[], map[], map[], map[], store)
  }

  const EMPTY_MEMORY := Storage(false, map[])

  /** The store the next process finds: Redis outlives the process, a map in memory does not. */
  function Reopened(store: Storage): Storage {
    if store.redis then store else EMPTY_MEMORY
  }

  datatype ClientRefError = ClientRefError

  datatype EnforcerRef = Log(log: PermissiveEnforcer) | Bpf(bpf: BpfEnforcer)

  ghost function EnforcerObject(e: EnforcerRef): object {
    match e
    case Log(p) => p
    case Bpf(b) => b
  }

  class DaemonState {
    const mode: Mode
    var live: Live
    var policies: Policies
    const windows: WindowTable
    const counters: CounterStore
    var lastCounters: RuleCounts
    var wouldBe: Actions
    const enforcer: EnforcerRef
    ghost var enforced: Actions  // what the calls to the enforcer amount to

    /** The enforcer, whichever it is, holds what its calls amount to. */
    ghost predicate EnforcerHolds()
      reads this, EnforcerObject(enforcer)
    {
      match enforcer
      case Log(p) => p.log == enforced
      case Bpf(b) => Mirrors(b.mirror, enforced)
    }

    ghost predicate Valid()
      reads this, windows, windows.Repr, EnforcerObject(enforcer)
    {
      && windows.Valid() && EnforcerHolds()
      && EnforcerObject(enforcer) != this && EnforcerObject(enforcer) != counters
      && this !in windows.Repr && counters !in windows.Repr && EnforcerObject(enforcer) !in windows.Repr
    }

    ghost function Abs(stored: Storage): State
      reads this, windows, counters
    {
      State(mode, live, policies, windows.wins, counters.byRule, lastCounters, wouldBe, enforced, stored)
    }

    constructor (mode: Mode, live: Live, enforcer: EnforcerRef)
      requires match enforcer case Log(p) => p.log == map[] case Bpf(b) => b.mirror == map[]
      ensures Valid() && fresh(windows.Repr) && fresh(counters) && this.enforcer == enforcer
      ensures forall stored :: Abs(stored) == State(mode, live, map[], map[], map[], map[], map[], map[], stored)
    {
      this.mode, this.live, this.enforcer := mode, live, enforcer;
      policies, lastCounters, wouldBe, enforced := map[], map[], map[], map[];
      windows := new WindowTable();
      counters := new CounterStore();
    }

    /** Hands an action to the enforcer, and notes it in permissive mode. */
    method Apply(c: ClientId, action: EffectiveAction)
      requires EnforcerHolds() && EnforcerObject(enforcer) != this
      modifies this`wouldBe, this`enforced, EnforcerObject(enforcer)
      ensures EnforcerHolds()
      ensures wouldBe == if mode == Permissive then old(wouldBe)[c := action] else old(wouldBe)
      ensures enforced == old(enforced)[c := action]
    {
      if mode == Permissive {
        wouldBe := wouldBe[c := action];
      }
      match enforcer {
        case Log(p) => p.Apply(c, action);
        case Bpf(b) => b.Apply(c, action);
      }
      enforced := enforced[c := action];
    }

    method Clear(c: ClientId)
      requires EnforcerHolds() && EnforcerObject(enforcer) != this
      modifies this`wouldBe, this`enforced, EnforcerObject(enforcer)
      ensures EnforcerHolds()
      ensures wouldBe == old(wouldBe) - {c} && enforced == old(enforced) - {c}
    {
      wouldBe := wouldBe - {c};
      match enforcer {
        case Log(p) => p.Clear(c);
        case Bpf(b) => b.Clear(c);
      }
      enforced := enforced - {c};
    }

    method SwapLive(live: Live)
      modifies this`live
      ensures this.live == live
    {
      this.live := live;
    }

    /** The policy of a visited client: a fresh violation replaces it, an expired part is dropped. */
    method Decide(p: ClientPolicy, vs: seq<Violation>, now: nat, cooldown: nat) returns (q: ClientPolicy)
      ensures q == ClientPolicy(ManualAfter(p.manual, now), AutoAfter(p.auto, vs, now, cooldown))
    {
      q := p;
      var auto := PickStrongest(vs, now, cooldown);
      if auto.Some? {
        q := q.(auto := auto);
      } else if q.auto.Some? && AutoExpired(q.auto.value, now) {
        q := q.(auto := None);
      }
      if q.manual.Some? && ManualExpired(q.manual.value, now) {
        q := q.(manual := None);
      }
    }

    method Carry(c: ClientId, effective: EffectiveAction)
      requires EnforcerHolds() && EnforcerObject(enforcer) != this
      modifies this`wouldBe, this`enforced, EnforcerObject(enforcer)
      ensures EnforcerHolds()
      ensures wouldBe == Assign(old(wouldBe), c, WouldBeAfter(mode, Get(old(wouldBe), c), effective))
      ensures enforced == Assign(old(enforced), c, EnforcedAfter(effective))
    {
      if effective == PassAll {
        Clear(c);
      } else {
        Apply(c, effective);
      }
    }

    /** Brings a client's windows up to date and evaluates the rules on them. */
    method Judge(c: ClientId, now: nat, rules: seq<Rule>, snapshot: RuleCounts) returns (vs: seq<Violation>)
      requires Valid()
      modifies windows.Repr
      ensures Valid() && fresh(windows.Repr - old(windows.Repr))
      ensures windows.wins ==
        old(windows.wins)[c := TickClient(WinsOf(old(windows.wins), c), snapshot, old(lastCounters), c, now)]
      ensures vs == Evaluate(rules, TickClient(WinsOf(old(windows.wins), c), snapshot, old(lastCounters), c, now))
    {
      windows.Observe(c, snapshot, lastCounters, now);
      vs := windows.Evaluate(c, rules);
    }

    /** Visits one client: windows, then policy, then enforcement. */
    method VisitClient(c: ClientId, now: nat, rules: seq<Rule>, cooldown: nat, snapshot: RuleCounts)
      requires Valid()
      modifies this`policies, this`wouldBe, this`enforced, windows.Repr, EnforcerObject(enforcer)
      ensures Valid() && fresh(windows.Repr - old(windows.Repr))
      ensures windows.wins ==
        old(windows.wins)[c := TickClient(WinsOf(old(windows.wins), c), snapshot, old(lastCounters), c, now)]
      ensures c in policies && policies == old(policies)[c := policies[c]]
      ensures var p := PolicyOf(old(policies), c);
        var vs := Evaluate(rules, TickClient(WinsOf(old(windows.wins), c), snapshot, old(lastCounters), c, now));
        policies[c] == ClientPolicy(ManualAfter(p.manual, now), AutoAfter(p.auto, vs, now, cooldown))
      ensures wouldBe == Assign(old(wouldBe), c, WouldBeAfter(mode, Get(old(wouldBe), c), Merge(policies[c], now)))
      ensures enforced == Assign(old(enforced), c, EnforcedAfter(Merge(policies[c], now)))
    {
      hide WindowTable.Valid;
      hide TickClient, Evaluate;
      var vs := Judge(c, now, rules, snapshot);
      var p := Decide(PolicyOf(policies, c), vs, now, cooldown);
      policies := policies[c := p];
      Carry(c, Merge(p, now));
    }

    method TickStep(c: ClientId, now: nat, rules: seq<Rule>, cooldown: nat, snapshot: RuleCounts,
                    ghost s: State, ghost done: set<ClientId>, ghost stored: Storage)
      requires Valid() && snapshot == s.counters && c !in done
      requires Abs(stored) == TickSome(s, now, rules, cooldown, done)
      modifies this`policies, this`wouldBe, this`enforced, windows.Repr, EnforcerObject(enforcer)
      ensures Valid() && fresh(windows.Repr - old(windows.Repr))
      ensures Abs(stored) == TickSome(s, now, rules, cooldown, done + {c})
    {
      hide WindowTable.Valid;
      hide TickClient, Evaluate, TickSome, Visit;
      ghost var t := Abs(stored);
      StepFacts(t, s, now, rules, cooldown, done, c);
      VisitClient(c, now, rules, cooldown, snapshot);
      VisitIs(t, Abs(stored), s, c, now, rules, cooldown);
    }

    /**
     * One tick of the decision loop. The rules and the cooldown are two reads of the
     * live configuration; `swapped` is a reload that lands between them, if any.
     */
    method Tick(now: nat, swapped: Option<Live>, ghost stored: Storage)
      requires Valid()
      modifies this, windows.Repr, EnforcerObject(enforcer)
      ensures Valid() && fresh(windows.Repr - old(windows.Repr))
      ensures Abs(stored) ==
        var live' := if swapped.Some? then swapped.value else old(live);
        TickState(old(Abs(stored)).(live := live'), now, old(live).rules, Cooldown(live'))
    {
      hide WindowTable.Valid;
      hide TickClient, Evaluate, Extend, Override, TickSome;
      var rules := live.rules;
      if swapped.Some? {
        SwapLive(swapped.value);
      }
      var cooldown := Cooldown(live);
      var snapshot := counters.byRule;
      ghost var s := Abs(stored);
      var visited := (set k | k in snapshot :: k.client) + policies.Keys;
      var todo := visited;
      TickSomeNone(s, now, rules, cooldown);
      assert visited - todo == {};
      while todo != {}
        invariant todo <= visited
        invariant Valid() && fresh(windows.Repr - old(windows.Repr))
        invariant Abs(stored) == TickSome(s, now, rules, cooldown, visited - todo)
        decreases todo
      {
        var c :| c in todo;
        ghost var done := visited - todo;
        TickStep(c, now, rules, cooldown, snapshot, s, done, stored);
        todo := todo - {c};
        assert visited - todo == done + {c};
      }
      assert visited - todo == visited;
      lastCounters := snapshot;
    }

    // The handlers receive the parsed client reference, None when it did not parse.

    method Throttle(store: StoreBackend, client: Option<ClientId>, rate: Option<u8>, duration: Option<u64>,
                    now: nat, wall: nat)
      returns (r: Result<(), ClientRefError>)
      modifies this`policies, StoreObject(store)
      ensures r.Err? <==> client.None?
      ensures Abs(Contents(store)) ==
        if client.None? then old(Abs(Contents(store)))
        else ThrottleState(old(Abs(Contents(store))), client.value, rate, duration, now, wall)
    {
      if client.None? {
        return Err(ClientRefError);
      }
      var c := client.value;
      var entry := if c in policies then policies[c] else NO_POLICY;
      var manual := if entry.manual.Some? then entry.manual.value else NO_MANUAL;
      manual := manual.(throttle := Some(if rate.Some? then rate.value else 50));
      manual := manual.(until := Until(now, duration));
      policies := policies[c := entry.(manual := Some(manual))];
      PersistManual(store, c, Some(FromRuntime(manual, now, wall)), wall);
      return Ok(());
    }

    method Block(store: StoreBackend, client: Option<ClientId>, duration: Option<u64>, now: nat, wall: nat)
      returns (r: Result<(), ClientRefError>)
      modifies this`policies, StoreObject(store)
      ensures r.Err? <==> client.None?
      ensures Abs(Contents(store)) ==
        if client.None? then old(Abs(Contents(store)))
        else BlockState(old(Abs(Contents(store))), client.value, duration, now, wall)
    {
      if client.None? {
        return Err(ClientRefError);
      }
      var c := client.value;
      var entry := if c in policies then policies[c] else NO_POLICY;
      var manual := if entry.manual.Some? then entry.manual.value else NO_MANUAL;
      manual := manual.(blocked := true);
      manual := manual.(until := Until(now, duration));
      policies := policies[c := entry.(manual := Some(manual))];
      PersistManual(store, c, Some(FromRuntime(manual, now, wall)), wall);
      return Ok(());
    }

    method ClearManualThrottle(store: StoreBackend, client: Option<ClientId>, now: nat, wall: nat)
      returns (r: Result<(), ClientRefError>)
      modifies this`policies, StoreObject(store)
      ensures r.Err? <==> client.None?
      ensures Abs(Contents(store)) ==
        if client.None? then old(Abs(Contents(store)))
        else UnthrottleState(old(Abs(Contents(store))), client.value, now, wall)
    {
      if client.None? {
        return Err(ClientRefError);
      }
      var c := client.value;
      if c in policies && policies[c].manual.Some? {
        var m := policies[c].manual.value.(throttle := None);
        if !m.blocked {
          policies := policies[c := policies[c].(manual := None)];
          PersistManual(store, c, None, wall);
        } else {
          policies := policies[c := policies[c].(manual := Some(m))];
          PersistManual(store, c, Some(FromRuntime(m, now, wall)), wall);
        }
      }
      return Ok(());
    }

    method ClearManualBlock(store: StoreBackend, client: Option<ClientId>, now: nat, wall: nat)
      returns (r: Result<(), ClientRefError>)
      modifies this`policies, StoreObject(store)
      ensures r.Err? <==> client.None?
      ensures Abs(Contents(store)) ==
        if client.None? then old(Abs(Contents(store)))
        else UnblockState(old(Abs(Contents(store))), client.value, now, wall)
    {
      if client.None? {
        return Err(ClientRefError);
      }
      var c := client.value;
      if c in policies && policies[c].manual.Some? {
        var m := policies[c].manual.value.(blocked := false);
        if m.throttle.None? {
          policies := policies[c := policies[c].(manual := None)];
          PersistManual(store, c, None, wall);
        } else {
          policies := policies[c := policies[c].(manual := Some(m))];
          PersistManual(store, c, Some(FromRuntime(m, now, wall)), wall);
        }
      }
      return Ok(());
    }

    /** Takes in the loaded policies, in whatever order they are listed. */
    method TakeIn(loaded: seq<(ClientId, StoredManual)>, ghost m: map<ClientId, StoredManual>, now: nat, wall: nat)
      requires Lists(loaded, m)
      modifies this`policies
      ensures policies == Extend(old(policies), m.Keys, Hydrated(m, now, wall))
    {
      ghost var was, f := policies, Hydrated(m, now, wall);
      ghost var done: set<ClientId> := {};
      NoneDone(was, f, (c: ClientId) => None);
      hide Extend;
      for i := 0 to |loaded|
        invariant forall c :: c in done <==> exists j :: 0 <= j < i && loaded[j].0 == c
        invariant done <= m.Keys
        invariant policies == Extend(was, done, f)
      {
        var (c, stored) := loaded[i];
        ExtendOne(was, done, c, f);
        policies := policies[c := ClientPolicy(Some(ToRuntime(stored, now, wall)), None)];
        done := done + {c};
      }
      forall c ensures c in done <==> c in m {
        assert c in m ==> (c, m[c]) in loaded;
      }
      assert done == m.Keys;
    }

    /** Loads every stored policy, replacing what memory holds for those clients. */
    method Hydrate(store: StoreBackend, now: nat, wall: nat)
      modifies this`policies
      ensures var m := Loaded(old(Contents(store)), wall);
        policies == Extend(old(policies), m.Keys, Hydrated(m, now, wall))
    {
      hide Extend, Lists;
      var loaded := LoadManual(store, wall);
      TakeIn(loaded, Loaded(Contents(store), wall), now, wall);
    }
  }

  /** Start-up: a fresh state with its enforcer, hydrated from Redis, or on a fresh map when there is none. */
  method Start(mode: Mode, live: Live, redis: Option<RedisStore>, enforcer: EnforcerRef, now: nat, wall: nat)
    returns (d: DaemonState, store: StoreBackend)
    requires match enforcer case Log(p) => p.log == map[] case Bpf(b) => b.mirror == map[]
    ensures fresh(d) && d.Valid() && fresh(d.windows.Repr) && fresh(d.counters) && d.enforcer == enforcer
    ensures if redis.Some? then store == Redis(redis.value) else store.Memory? && fresh(store.memory)
    ensures d.Abs(Contents(store)) ==
      Started(mode, live, if redis.Some? then old(Contents(Redis(redis.value))) else EMPTY_MEMORY, now, wall)
  {
    hide WindowTable.Valid;
    d := new DaemonState(mode, live, enforcer);
    match redis {
      case Some(r) =>
        store := Redis(r);
        ghost var empty := d.Abs(Contents(store));
        d.Hydrate(store, now, wall);
        assert d.Abs(Contents(store)) == empty.(policies := d.policies);
      case None =>
        var memory := new MemoryStore();
        store := Memory(memory);
        assert InMemory(map[]) == EMPTY_MEMORY;
        assert Loaded(EMPTY_MEMORY, wall) == map[];
    }
  }
}
