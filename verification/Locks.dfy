/**
 * The order in which the daemon's threads take its mutexes. Every job a thread can
 * do is the list of its lock operations; threads interleave at those operations.
 */
module Locks {
  datatype Lock =
    | ByRule | ByClient | LastCounters | Windows | Policies | WouldBe
    | EnforcerSlot | EnforcerMap | ManualTable | StatsTable

  datatype Op = Acquire(lock: Lock) | Release(lock: Lock)

  /** One client of a tick: a keyed client also has an entry in the enforcer's own map. */
  datatype Visit = Cleared(keyed: bool) | Applied(permissive: bool, keyed: bool)

  /** One count of a packet: a rule's counter, or the handshake diagnostic. */
  datatype Add = ForRule | Handshake

  datatype Job =
    | Tick(visits: seq<Visit>)
    | SnapshotStats(stored: bool)
    | Packet(adds: seq<Add>)
    | Top
    | ListClients
    | SetManual
    | ClearManual(found: bool)

  /** A guard taken for the length of a scope. */
  function Guard(l: Lock, scope: seq<Op>): seq<Op> {
    [Acquire(l)] + scope + [Release(l)]
  }

  function Brief(l: Lock): seq<Op> {
    Guard(l, [])
  }

  function Enforcing(keyed: bool): seq<Op> {
    Guard(EnforcerSlot, if keyed then Brief(EnforcerMap) else [])
  }

  function VisitOps(v: Visit): seq<Op> {
    match v
    case Cleared(keyed) => Brief(WouldBe) + Enforcing(keyed)
    case Applied(permissive, keyed) => (if permissive then Brief(WouldBe) else []) + Enforcing(keyed)
  }

  function VisitsOps(vs: seq<Visit>): seq<Op> {
    if vs == [] then [] else VisitOps(vs[0]) + VisitsOps(vs[1..])
  }

  function AddOps(add: Add): seq<Op> {
    (if add == ForRule then Brief(ByRule) else []) + Brief(ByClient)
  }

  function AddsOps(adds: seq<Add>): seq<Op> {
    if adds == [] then [] else AddOps(adds[0]) + AddsOps(adds[1..])
  }

  function Ops(job: Job): seq<Op> {
    match job
    case Tick(visits) =>
      Brief(ByRule) + Guard(LastCounters, Guard(Windows, Guard(Policies, VisitsOps(visits))))
    case SnapshotStats(stored) => Brief(ByClient) + if stored then Brief(StatsTable) else []
    case Packet(adds) => AddsOps(adds)
    case Top => Guard(Windows, Guard(WouldBe, Guard(Policies, Brief(ByClient))))
    case ListClients => Guard(Policies, Guard(WouldBe, Brief(ByClient)))
    case SetManual => Guard(Policies, Brief(ManualTable))
    case ClearManual(found) => Guard(Policies, if found then Brief(ManualTable) else [])
  }

  // ---- threads ----------------------------------------------------------------------

  datatype Thread = Thread(job: Job, todo: seq<Op>, held: set<Lock>)

  type State = seq<Thread>

  /** A thread starts a job when it has none, or does the next operation of its job. */
  datatype Step = Begin(tid: nat, job: Job) | Next(tid: nat)

  /** A mutex is not re-entrant: it is free when no thread holds it. */
  predicate Free(s: State, l: Lock) {
    forall u :: 0 <= u < |s| ==> l !in s[u].held
  }

  predicate CanMove(s: State, t: nat) {
    && t < |s| && s[t].todo != []
    && (s[t].todo[0].Acquire? ==> Free(s, s[t].todo[0].lock))
  }

  predicate Enabled(s: State, step: Step) {
    match step
    case Begin(t, _) => t < |s| && s[t].todo == []
    case Next(t) => CanMove(s, t)
  }

  function Do(th: Thread): Thread
    requires th.todo != []
  {
    match th.todo[0]
    case Acquire(l) => Thread(th.job, th.todo[1..], th.held + {l})
    case Release(l) => Thread(th.job, th.todo[1..], th.held - {l})
  }

  function Apply(s: State, step: Step): State
    requires Enabled(s, step)
  {
    match step
    case Begin(t, job) => s[t := Thread(job, Ops(job), s[t].held)]
    case Next(t) => s[t := Do(s[t])]
  }

  /** The state after a schedule, if every step of it is enabled. */
  ghost predicate Reaches(s: State, steps: seq<Step>, end: State)
    decreases |steps|
  {
    if steps == [] then end == s
    else Enabled(s, steps[0]) && Reaches(Apply(s, steps[0]), steps[1..], end)
  }

  predicate Idle(s: State) {
    forall t :: 0 <= t < |s| ==> s[t].todo == [] && s[t].held == {}
  }

  /** Some thread is inside a job, and every such thread waits for a lock. */
  predicate Stuck(s: State) {
    && (exists t :: 0 <= t < |s| && s[t].todo != [])
    && forall t :: 0 <= t < |s| ==> !CanMove(s, t)
  }

  predicate InFlight(s: State, job: Job) {
    exists t :: 0 <= t < |s| && s[t].todo != [] && s[t].job == job
  }

  /** No `top` overlaps a `list_clients`. */
  predicate Apart(s: State) {
    !(InFlight(s, Top) && InFlight(s, ListClients))
  }

  predicate Handler(job: Job) {
    job.Top? || job.ListClients? || job.SetManual? || job.ClearManual?
  }

  predicate OneHandler(s: State) {
    forall t, u :: 0 <= t < u < |s| && s[t].todo != [] && s[u].todo != [] ==>
      !(Handler(s[t].job) && Handler(s[u].job))
  }

  // ---- what each job asks for while it holds what ---------------------------------------

  predicate Allowed(job: Job, held: set<Lock>, l: Lock) {
    match job
    case Tick(_) =>
      || (held == {} && l in {ByRule, LastCounters})
      || (held == {LastCounters} && l == Windows)
      || (held == {LastCounters, Windows} && l == Policies)
      || (held == {LastCounters, Windows, Policies} && l in {WouldBe, EnforcerSlot})
      || (held == {LastCounters, Windows, Policies, EnforcerSlot} && l == EnforcerMap)
    case SnapshotStats(_) => held == {} && l in {ByClient, StatsTable}
    case Packet(_) => held == {} && l in {ByRule, ByClient}
    case Top =>
      || (held == {} && l == Windows)
      || (held == {Windows} && l == WouldBe)
      || (held == {Windows, WouldBe} && l == Policies)
      || (held == {Windows, WouldBe, Policies} && l == ByClient)
    case ListClients =>
      || (held == {} && l == Policies)
      || (held == {Policies} && l == WouldBe)
      || (held == {Policies, WouldBe} && l == ByClient)
    case SetManual => (held == {} && l == Policies) || (held == {Policies} && l == ManualTable)
    case ClearManual(_) => (held == {} && l == Policies) || (held == {Policies} && l == ManualTable)
  }

  /** What is left of a job only asks for what it may, and ends holding nothing. */
  predicate Legal(job: Job, held: set<Lock>, todo: seq<Op>)
    decreases todo
  {
    if todo == [] then held == {}
    else
      match todo[0]
      case Acquire(l) => Allowed(job, held, l) && Legal(job, held + {l}, todo[1..])
      case Release(l) => l in held && Legal(job, held - {l}, todo[1..])
  }

  predicate Orderly(s: State) {
    && (forall t :: 0 <= t < |s| ==> Legal(s[t].job, s[t].held, s[t].todo))
    && (forall t, u :: 0 <= t < u < |s| ==> s[t].held !! s[u].held)
  }

  // ---- every job is legal ------------------------------------------------------------------

  /** Whatever may follow while `held` may also follow `ops`. */
  ghost predicate Neat(job: Job, held: set<Lock>, ops: seq<Op>) {
    forall rest :: Legal(job, held, rest) ==> Legal(job, held, ops + rest)
  }

  lemma NeatGuard(job: Job, held: set<Lock>, l: Lock, scope: seq<Op>)
    requires Allowed(job, held, l) && l !in held && Neat(job, held + {l}, scope)
    ensures Neat(job, held, Guard(l, scope))
  {
    forall rest | Legal(job, held, rest) ensures Legal(job, held, Guard(l, scope) + rest) {
      var leave := [Release(l)] + rest;
      assert held + {l} - {l} == held && leave[1..] == rest;
      assert Legal(job, held + {l}, scope + leave);
      assert (Guard(l, scope) + rest)[1..] == scope + leave;
    }
  }

  lemma NeatBoth(job: Job, held: set<Lock>, a: seq<Op>, b: seq<Op>)
    requires Neat(job, held, a) && Neat(job, held, b)
    ensures Neat(job, held, a + b)
  {
    forall rest | Legal(job, held, rest) ensures Legal(job, held, (a + b) + rest) {
      assert Legal(job, held, a + (b + rest));
      assert (a + b) + rest == a + (b + rest);
    }
  }

  lemma NeatNothing(job: Job, held: set<Lock>)
    ensures Neat(job, held, [])
  {
    forall rest | Legal(job, held, rest) ensures Legal(job, held, [] + rest) {
      assert [] + rest == rest;
    }
  }

  lemma NeatBrief(job: Job, held: set<Lock>, l: Lock)
    requires Allowed(job, held, l) && l !in held
    ensures Neat(job, held, Brief(l))
  {
    NeatNothing(job, held + {l});
    NeatGuard(job, held, l, []);
  }

  lemma NeatVisit(job: Job, v: Visit)
    requires job.Tick?
    ensures Neat(job, {LastCounters, Windows, Policies}, VisitOps(v))
  {
    hide Neat, Guard, Brief;
    var held := {LastCounters, Windows, Policies};
    NeatNothing(job, held);
    NeatBrief(job, held, WouldBe);
    NeatNothing(job, held + {EnforcerSlot});
    NeatBrief(job, held + {EnforcerSlot}, EnforcerMap);
    NeatGuard(job, held, EnforcerSlot, if v.keyed then Brief(EnforcerMap) else []);
    NeatBoth(job, held, if v.Cleared? || v.permissive then Brief(WouldBe) else [], Enforcing(v.keyed));
  }

  /** However many clients a tick visits. */
  lemma {:induction false} NeatVisits(job: Job, vs: seq<Visit>)
    requires job.Tick?
    ensures Neat(job, {LastCounters, Windows, Policies}, VisitsOps(vs))
  {
    var held := {LastCounters, Windows, Policies};
    if vs == [] {
      NeatNothing(job, held);
    } else {
      NeatVisit(job, vs[0]);
      NeatVisits(job, vs[1..]);
      NeatBoth(job, held, VisitOps(vs[0]), VisitsOps(vs[1..]));
    }
  }

  lemma {:induction false} NeatAdds(job: Job, adds: seq<Add>)
    requires job.Packet?
    ensures Neat(job, {}, AddsOps(adds))
  {
    NeatNothing(job, {});
    if adds != [] {
      NeatBrief(job, {}, ByRule);
      NeatBrief(job, {}, ByClient);
      NeatBoth(job, {}, if adds[0] == ForRule then Brief(ByRule) else [], Brief(ByClient));
      NeatAdds(job, adds[1..]);
      NeatBoth(job, {}, AddOps(adds[0]), AddsOps(adds[1..]));
    }
  }

  lemma NeatJob(job: Job)
    ensures Neat(job, {}, Ops(job))
  {
    hide Neat, Guard, Brief;
    assert forall l: Lock :: {} + {l} == {l};
    NeatNothing(job, {});
    match job
    case Tick(visits) =>
      NeatVisits(job, visits);
      assert {LastCounters, Windows} + {Policies} == {LastCounters, Windows, Policies};
      NeatGuard(job, {LastCounters, Windows}, Policies, VisitsOps(visits));
      assert {LastCounters} + {Windows} == {LastCounters, Windows};
      NeatGuard(job, {LastCounters}, Windows, Guard(Policies, VisitsOps(visits)));
      NeatGuard(job, {}, LastCounters, Guard(Windows, Guard(Policies, VisitsOps(visits))));
      NeatBrief(job, {}, ByRule);
      NeatBoth(job, {}, Brief(ByRule), Guard(LastCounters, Guard(Windows, Guard(Policies, VisitsOps(visits)))));
    case SnapshotStats(stored) =>
      NeatBrief(job, {}, ByClient);
      NeatBrief(job, {}, StatsTable);
      NeatBoth(job, {}, Brief(ByClient), if stored then Brief(StatsTable) else []);
    case Packet(adds) =>
      NeatAdds(job, adds);
    case Top =>
      NeatBrief(job, {Windows, WouldBe, Policies}, ByClient);
      assert {Windows, WouldBe} + {Policies} == {Windows, WouldBe, Policies};
      NeatGuard(job, {Windows, WouldBe}, Policies, Brief(ByClient));
      assert {Windows} + {WouldBe} == {Windows, WouldBe};
      NeatGuard(job, {Windows}, WouldBe, Guard(Policies, Brief(ByClient)));
      NeatGuard(job, {}, Windows, Guard(WouldBe, Guard(Policies, Brief(ByClient))));
    case ListClients =>
      NeatBrief(job, {Policies, WouldBe}, ByClient);
      assert {Policies} + {WouldBe} == {Policies, WouldBe};
      NeatGuard(job, {Policies}, WouldBe, Brief(ByClient));
      NeatGuard(job, {}, Policies, Guard(WouldBe, Brief(ByClient)));
    case SetManual =>
      NeatBrief(job, {Policies}, ManualTable);
      NeatGuard(job, {}, Policies, Brief(ManualTable));
    case ClearManual(found) =>
      NeatNothing(job, {Policies});
      NeatBrief(job, {Policies}, ManualTable);
      NeatGuard(job, {}, Policies, if found then Brief(ManualTable) else []);
  }

  /** Every job, begun with nothing held, keeps to what it is allowed to its end. */
  lemma JobLegal(job: Job)
    ensures Legal(job, {}, Ops(job))
  {
    NeatJob(job);
    assert Legal(job, {}, Ops(job) + []);
    assert Ops(job) + [] == Ops(job);
  }

  // ---- runs ----------------------------------------------------------------------------------

  lemma StepOrderly(s: State, step: Step)
    requires Orderly(s) && Enabled(s, step)
    ensures Orderly(Apply(s, step))
  {
    if step.Begin? {
      JobLegal(step.job);
    }
  }

  /** Legal use and mutual exclusion hold throughout every schedule. */
  lemma {:induction false} RunOrderly(s: State, steps: seq<Step>, end: State)
    requires Orderly(s) && Reaches(s, steps, end)
    ensures Orderly(end) && |end| == |s|
    decreases steps
  {
    if steps != [] {
      StepOrderly(s, steps[0]);
      RunOrderly(Apply(s, steps[0]), steps[1..], end);
    }
  }

  // ---- nobody waits for ever ------------------------------------------------------------------

  /** A `top` is between taking and giving back the windows. */
  predicate TopInside(s: State) {
    exists t :: 0 <= t < |s| && s[t].job == Top && Windows in s[t].held
  }

  /** The order in which waiting can be nested: inside a `top` it is another one. */
  function Rank(inside: bool, l: Lock): nat {
    match l
    case Windows => 1
    case WouldBe => if inside then 2 else 3
    case Policies => if inside then 3 else 2
    case EnforcerSlot => 4
    case EnforcerMap => 5
    case ByClient => 6
    case ManualTable => 7
    case _ => 0
  }

  /** What a thread waits for ranks above all it holds. */
  lemma WaitsUpward(s: State, t: nat, l: Lock)
    requires Orderly(s) && Apart(s)
    requires t < |s| && s[t].todo != [] && s[t].todo[0].Acquire? && l in s[t].held
    ensures Rank(TopInside(s), l) < Rank(TopInside(s), s[t].todo[0].lock)
  {
    assert Allowed(s[t].job, s[t].held, s[t].todo[0].lock);
    if TopInside(s) {
      var u :| 0 <= u < |s| && s[u].job == Top && Windows in s[u].held;
      assert s[u].todo != [];
      assert InFlight(s, Top);
      assert u != t ==> Windows !in s[t].held;
    }
  }

  /** From a waiting thread, a chain of holders leads to one that can move. */
  lemma {:induction false} FindMover(s: State, t: nat) returns (m: nat)
    requires Orderly(s) && Apart(s) && t < |s| && s[t].todo != []
    ensures CanMove(s, m)
    decreases if s[t].todo[0].Acquire? then 8 - Rank(TopInside(s), s[t].todo[0].lock) else 0
  {
    if CanMove(s, t) {
      m := t;
    } else {
      var l := s[t].todo[0].lock;
      var u :| 0 <= u < |s| && l in s[u].held;
      assert s[u].todo != [];
      if s[u].todo[0].Acquire? {
        WaitsUpward(s, u, l);
        m := FindMover(s, u);
      } else {
        m := u;
      }
    }
  }

  /**
   * Any number of threads, any jobs: as long as no `top` overlaps a `list_clients`,
   * whenever some thread is inside a job some thread can go on.
   */
  lemma NeverStuck(s: State)
    requires Orderly(s) && Apart(s)
    ensures !Stuck(s)
  {
    if t :| 0 <= t < |s| && s[t].todo != [] {
      var m := FindMover(s, t);
    }
  }

  /** One handler at a time is premise enough. */
  lemma OneHandlerNeverStuck(start: State, steps: seq<Step>, s: State)
    requires Idle(start) && Reaches(start, steps, s) && OneHandler(s)
    ensures !Stuck(s)
  {
    IdleOrderly(start);
    RunOrderly(start, steps, s);
    assert Apart(s);
    NeverStuck(s);
  }

  lemma IdleOrderly(s: State)
    requires Idle(s)
    ensures Orderly(s)
  {
  }

  // ---- every job can be finished ---------------------------------------------------------------

  function Left(s: State): nat {
    if s == [] then 0 else Left(s[..|s| - 1]) + |s[|s| - 1].todo|
  }

  lemma {:induction false} LeftDrops(s: State, t: nat, th: Thread)
    requires t < |s| && |th.todo| < |s[t].todo|
    ensures Left(s[t := th]) < Left(s)
  {
    var k := |s| - 1;
    if t == k {
      assert s[t := th][..k] == s[..k];
    } else {
      assert s[t := th][..k] == s[..k][t := th];
      LeftDrops(s[..k], t, th);
    }
  }

  lemma MovePreserves(s: State, m: nat)
    requires Orderly(s) && Apart(s) && CanMove(s, m)
    ensures Orderly(Apply(s, Next(m))) && Apart(Apply(s, Next(m)))
  {
    StepOrderly(s, Next(m));
    var s' := Apply(s, Next(m));
    assert InFlight(s', Top) ==> InFlight(s, Top);
    assert InFlight(s', ListClients) ==> InFlight(s, ListClients);
  }

  /** From every such state some schedule, beginning nothing new, finishes every job. */
  lemma {:induction false} CanFinish(s: State) returns (steps: seq<Step>, end: State)
    requires Orderly(s) && Apart(s)
    ensures Reaches(s, steps, end) && Idle(end)
    ensures forall i :: 0 <= i < |steps| ==> steps[i].Next?
    decreases Left(s)
  {
    if t :| 0 <= t < |s| && s[t].todo != [] {
      var m := FindMover(s, t);
      MovePreserves(s, m);
      LeftDrops(s, m, Do(s[m]));
      var rest;
      rest, end := CanFinish(Apply(s, Next(m)));
      steps := [Next(m)] + rest;
      assert steps[1..] == rest;
    } else {
      steps, end := [], s;
    }
  }

  // ---- exactly when the premise is needed --------------------------------------------------------

  ghost predicate Begins(menu: iset<Job>, steps: seq<Step>) {
    forall i :: 0 <= i < |steps| && steps[i].Begin? ==> steps[i].job in menu
  }

  /** Threads that freely interleave jobs of the menu may all come to wait. */
  ghost predicate CanJam(menu: iset<Job>) {
    exists start, steps, s :: Idle(start) && Begins(menu, steps) && Reaches(start, steps, s) && Stuck(s)
  }

  ghost predicate Serving(menu: iset<Job>, s: State) {
    forall t :: 0 <= t < |s| && s[t].todo != [] ==> s[t].job in menu
  }

  lemma {:induction false} RunServes(menu: iset<Job>, s: State, steps: seq<Step>, end: State)
    requires Serving(menu, s) && Begins(menu, steps) && Reaches(s, steps, end)
    ensures Serving(menu, end)
    decreases steps
  {
    if steps != [] {
      var next := Apply(s, steps[0]);
      assert Serving(menu, next);
      assert forall i :: 0 <= i < |steps[1..]| ==> steps[1..][i] == steps[i + 1];
      RunServes(menu, next, steps[1..], end);
    }
  }

  /** With handlers left free to overlap, it is `top` with `list_clients` that jams, and nothing else. */
  lemma JamsExactly(menu: iset<Job>)
    ensures CanJam(menu) <==> Top in menu && ListClients in menu
  {
    if CanJam(menu) {
      var start, steps, s :| Idle(start) && Begins(menu, steps) && Reaches(start, steps, s) && Stuck(s);
      IdleOrderly(start);
      RunOrderly(start, steps, s);
      RunServes(menu, start, steps, s);
      if Apart(s) {
        NeverStuck(s);
      }
    }
    if Top in menu && ListClients in menu {
      var start, steps, s := TopAgainstList();
    }
  }

  /** One thread takes the would-be map and wants the policies; the other the reverse. */
  lemma TopAgainstList() returns (start: State, steps: seq<Step>, s: State)
    ensures Idle(start) && Reaches(start, steps, s) && Stuck(s)
    ensures forall i :: 0 <= i < |steps| && steps[i].Begin? ==> steps[i].job in {Top, ListClients}
  {
    var idle := Thread(Top, [], {});
    start := [idle, idle];
    var top, list := Ops(Top), Ops(ListClients);
    assert top[0] == Acquire(Windows) && top[1..][0] == Acquire(WouldBe) && top[2..][0] == Acquire(Policies);
    assert list[0] == Acquire(Policies) && list[1..][0] == Acquire(WouldBe);
    assert top[1..][1..] == top[2..];
    var t0, t1, t2 := Thread(Top, top, {}), Thread(Top, top[1..], {Windows}), Thread(Top, top[2..], {Windows, WouldBe});
    var l0, l1 := Thread(ListClients, list, {}), Thread(ListClients, list[1..], {Policies});
    assert Do(t0) == t1 && Do(t1) == t2 && Do(l0) == l1;
    s := [t2, l1];
    assert Stuck(s) by {
      assert s[0].todo != [];
      assert Policies in s[1].held && WouldBe in s[0].held;
    }
    hide Ops, Do;
    assert start[0 := t0] == [t0, idle] && [t0, idle][1 := l0] == [t0, l0];
    assert [t0, l0][0 := t1] == [t1, l0] && [t1, l0][0 := t2] == [t2, l0] && [t2, l0][1 := l1] == s;
    steps := [Next(1)];
    Prepend([t2, l0], Next(1), [], s);
    Prepend([t1, l0], Next(0), steps, s);
    steps := [Next(0)] + steps;
    Prepend([t0, l0], Next(0), steps, s);
    steps := [Next(0)] + steps;
    Prepend([t0, idle], Begin(1, ListClients), steps, s);
    steps := [Begin(1, ListClients)] + steps;
    Prepend(start, Begin(0, Top), steps, s);
    steps := [Begin(0, Top)] + steps;
  }

  lemma Prepend(s: State, step: Step, steps: seq<Step>, end: State)
    requires Enabled(s, step) && Reaches(Apply(s, step), steps, end)
    ensures Reaches(s, [step] + steps, end)
  {
    assert ([step] + steps)[1..] == steps;
  }
}
