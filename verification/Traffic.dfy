/**
 * Packets joined to runs: the daemon fed through the dispatcher, against the daemon with
 * one rule of every configuration left in.
 */
module Traffic {
  import opened Base
  import opened Client
  import opened Rules
  import opened Counters
  import opened TickWindows
  import opened Engine
  import opened Flow
  import opened Daemon
  import opened Runs
  import opened History
  import opened Dispatch

  /** A packet, with the flow table's answer if it is asked; or any event but a count. */
  datatype Happening =
    | Arrives(env: Env, packet: Packet, isNew: bool)
    | Happens(event: Event)

  function Begun(hs: seq<Happening>): seq<Happening>
    requires hs != []
  {
    hs[..|hs| - 1]
  }

  /** The connections known to have become WebSockets; a restart forgets them. */
  function Sockets(hs: seq<Happening>): set<FlowKey> {
    if hs == [] then {}
    else
      var ws := Sockets(Begun(hs));
      match hs[|hs| - 1]
      case Arrives(env, p, _) => if IsHandshake(env, p, p.flow in ws) then ws + {p.flow} else ws
      case Happens(e) => if e.Restart? then {} else ws
  }

  function Counting(adds: seq<Added>): seq<Event> {
    seq(|adds|, i requires 0 <= i < |adds| => Sniff(adds[i]))
  }

  /** The run that the happenings make: every packet counts for the rules then loaded. */
  function RunOf(setup: Setup, hs: seq<Happening>): seq<Event> {
    if hs == [] then []
    else
      var run := RunOf(setup, Begun(hs));
      match hs[|hs| - 1]
      case Arrives(env, p, isNew) =>
        run + Counting(PacketAdds(env, Exec(setup, run).live.rules, p, p.flow in Sockets(Begun(hs)), isNew))
      case Happens(e) => run + [e]
  }

  /** A configuration with only the rules of one id. */
  function Lone(live: Live, id: RuleId): Live {
    live.(rules := Only(live.rules, id))
  }

  predicate Reloads(e: Event) {
    e.TickRacing? || e.Swap? || e.Restart?
  }

  function LoneEvent(e: Event, id: RuleId): Event {
    if Reloads(e) then e.(live := Lone(e.live, id)) else e
  }

  /** The same happenings with one rule left in, whatever the flow table then answers. */
  ghost predicate SameButAlone(hs: seq<Happening>, alone: seq<Happening>, id: RuleId) {
    && |hs| == |alone|
    && forall i :: 0 <= i < |hs| ==>
         match hs[i]
         case Arrives(env, p, _) => alone[i].Arrives? && alone[i] == Arrives(env, p, alone[i].isNew)
         case Happens(e) => !e.Sniff? && alone[i] == Happens(LoneEvent(e, id))
  }

  /** No loaded rule with the id counts connections. */
  predicate NoFlows(setup: Setup, hs: seq<Happening>, id: RuleId) {
    && CountsNoFlows(setup.live.rules, id)
    && forall i :: 0 <= i < |hs| && hs[i].Happens? && Reloads(hs[i].event) ==>
         CountsNoFlows(hs[i].event.live.rules, id)
  }

  function LoneSetup(setup: Setup, id: RuleId): Setup {
    setup.(live := Lone(setup.live, id))
  }

  lemma {:induction false} CountingCounts(setup: Setup, run: seq<Event>, adds: seq<Added>, k: CounterKey)
    ensures Exec(setup, run + Counting(adds)).counters == AddAll(Exec(setup, run).counters, adds)
    ensures Exec(setup, run + Counting(adds)).live == Exec(setup, run).live
    ensures TicksOf(setup, run + Counting(adds), k) == TicksOf(setup, run, k)
  {
    if adds == [] {
      assert run + Counting(adds) == run;
    } else {
      var n := |adds| - 1;
      var all := run + Counting(adds);
      assert Counting(adds) == Counting(adds[..n]) + [Sniff(adds[n])];
      assert Front(all) == run + Counting(adds[..n]) && Last(all) == Sniff(adds[n]);
      CountingCounts(setup, run, adds[..n], k);
    }
  }

  /** What two runs have in common as far as one counter is concerned. */
  ghost predicate Alike(setup: Setup, run: seq<Event>, lone: Setup, other: seq<Event>, k: CounterKey) {
    && CountsOf(Exec(setup, run).counters, k) == CountsOf(Exec(lone, other).counters, k)
    && Exec(lone, other).live == Lone(Exec(setup, run).live, k.rule)
    && TicksOf(setup, run, k) == TicksOf(lone, other, k)
  }

  /** What an event does to the counters and the configuration. */
  lemma CountersAfter(setup: Setup, run: seq<Event>, e: Event)
    requires !e.Sniff?
    ensures Exec(setup, run + [e]).counters == if e.Restart? then map[] else Exec(setup, run).counters
    ensures Exec(setup, run + [e]).live == LiveAfter(Exec(setup, run).live, e)
  {
    hide TickState, ThrottleState, BlockState, UnthrottleState, UnblockState;
    var s, all := Exec(setup, run), run + [e];
    assert Front(all) == run && Last(all) == e;
    LiveStep(s, e, setup.offset);
    if IsTick(e) {
      TickStep(s, e, setup.offset);
      TickGives(s.(live := LiveAfter(s.live, e)), e.now, s.live.rules, Cooldown(LiveAfter(s.live, e)), ANYONE);
    } else if !e.Restart? {
      OtherStep(s, e, setup.offset, ANYONE);
    }
  }

  lemma EventAlike(setup: Setup, run: seq<Event>, lone: Setup, other: seq<Event>, e: Event, k: CounterKey)
    requires Alike(setup, run, lone, other, k) && !e.Sniff?
    ensures Alike(setup, run + [e], lone, other + [LoneEvent(e, k.rule)], k)
  {
    hide Exec, Only;
    var e' := LoneEvent(e, k.rule);
    CountersAfter(setup, run, e);
    CountersAfter(lone, other, e');
    assert Front(run + [e]) == run && Front(other + [e']) == other;
  }

  lemma PacketAlike(setup: Setup, run: seq<Event>, lone: Setup, other: seq<Event>, env: Env, p: Packet,
                    isWs: bool, isNew: bool, isNew': bool, k: CounterKey)
    requires Alike(setup, run, lone, other, k) && CountsNoFlows(Exec(setup, run).live.rules, k.rule)
    ensures Alike(
      setup, run + Counting(PacketAdds(env, Exec(setup, run).live.rules, p, isWs, isNew)),
      lone, other + Counting(PacketAdds(env, Exec(lone, other).live.rules, p, isWs, isNew')), k)
  {
    hide Exec, PacketAdds, TicksOf, Only;
    var rules := Exec(setup, run).live.rules;
    var adds := PacketAdds(env, rules, p, isWs, isNew);
    var adds' := PacketAdds(env, Only(rules, k.rule), p, isWs, isNew');
    PacketFor(env, rules, p, isWs, isNew, isNew', k.rule);
    CountingCounts(setup, run, adds, k);
    CountingCounts(lone, other, adds', k);
    CountsFromFor(Exec(setup, run).counters, Exec(lone, other).counters, adds, k);
  }

  lemma {:induction false} SocketsAlike(hs: seq<Happening>, alone: seq<Happening>, id: RuleId)
    requires SameButAlone(hs, alone, id)
    ensures Sockets(hs) == Sockets(alone)
  {
    if hs != [] {
      SocketsAlike(Begun(hs), Begun(alone), id);
    }
  }

  lemma {:induction false} NoFlowsLive(setup: Setup, hs: seq<Happening>, id: RuleId)
    requires NoFlows(setup, hs, id) && forall i :: 0 <= i < |hs| && hs[i].Happens? ==> !hs[i].event.Sniff?
    ensures CountsNoFlows(Exec(setup, RunOf(setup, hs)).live.rules, id)
  {
    hide Exec, CountsNoFlows, PacketAdds;
    if hs == [] {
      assert Exec(setup, []).live == setup.live by {
        BootLive(setup);
      }
    } else {
      var front, run := Begun(hs), RunOf(setup, Begun(hs));
      NoFlowsLive(setup, front, id);
      match hs[|hs| - 1]
      case Arrives(env, p, isNew) =>
        CountingCounts(setup, run,
          PacketAdds(env, Exec(setup, run).live.rules, p, p.flow in Sockets(front), isNew),
          CounterKey(p.client, id));
      case Happens(e) =>
        CountersAfter(setup, run, e);
    }
  }

  lemma BootLive(setup: Setup)
    ensures Exec(setup, []).live == setup.live
  {
  }

  /** A Requests or Bytes counter, and its snapshots at ticks, do not depend on the other rules. */
  lemma {:induction false} RunsAlike(setup: Setup, hs: seq<Happening>, alone: seq<Happening>, k: CounterKey)
    requires SameButAlone(hs, alone, k.rule) && NoFlows(setup, hs, k.rule)
    ensures var lone := LoneSetup(setup, k.rule);
      Alike(setup, RunOf(setup, hs), lone, RunOf(lone, alone), k)
  {
    hide Alike, PacketAdds;
    var lone := LoneSetup(setup, k.rule);
    if hs == [] {
      assert Alike(setup, [], lone, [], k) by {
        BootAlike(setup, k);
      }
    } else {
      var front, front' := Begun(hs), Begun(alone);
      RunsAlike(setup, front, front', k);
      match hs[|hs| - 1]
      case Arrives(env, p, isNew) =>
        SocketsAlike(front, front', k.rule);
        NoFlowsLive(setup, front, k.rule);
        PacketAlike(setup, RunOf(setup, front), lone, RunOf(lone, front'), env, p, p.flow in Sockets(front),
          isNew, alone[|alone| - 1].isNew, k);
      case Happens(e) =>
        EventAlike(setup, RunOf(setup, front), lone, RunOf(lone, front'), e, k);
    }
  }

  lemma BootAlike(setup: Setup, k: CounterKey)
    ensures Alike(setup, [], LoneSetup(setup, k.rule), [], k)
  {
  }

  // ---- violations -----------------------------------------------------------------------------

  function OfRule(vs: seq<Violation>, id: RuleId): seq<Violation> {
    if vs == [] then []
    else if vs[0].rule == id then [vs[0]] + OfRule(vs[1..], id)
    else OfRule(vs[1..], id)
  }

  lemma {:induction false} OfRuleAppend(a: seq<Violation>, b: seq<Violation>, id: RuleId)
    ensures OfRule(a + b, id) == OfRule(a, id) + OfRule(b, id)
  {
    if a == [] {
      assert a + b == b;
    } else {
      assert (a + b)[1..] == a[1..] + b;
      OfRuleAppend(a[1..], b, id);
    }
  }

  /** Judging only the rules of an id finds the violations of that id. */
  lemma {:induction false} ExceedingOnly(rules: seq<Rule>, f: Rule -> u64, g: Rule -> u64, id: RuleId)
    requires forall r :: r in rules && r.id == id ==> f(r) == g(r)
    ensures Exceeding(Only(rules, id), g) == OfRule(Exceeding(rules, f), id)
  {
    if rules != [] {
      var n := |rules| - 1;
      var front, r := rules[..n], rules[n];
      assert rules == front + [r];
      ExceedingOnly(front, f, g, id);
      ExceedingAppend(front, r, f);
      OfRuleAppend(Exceeding(front, f), if f(r) > r.limit then [Violation(r.id, f(r), r.limit, r.action)] else [], id);
      if r.id == id {
        ExceedingAppend(Only(front, id), r, g);
      } else {
        assert Only(rules, id) == Only(front, id);
      }
    }
  }

  /**
   * Independence end to end: in any run fed by packets, at every tick and for every
   * client, the violations of a Requests or Bytes rule are those it would have with
   * every other rule taken out of every configuration.
   */
  lemma ViolationsAlone(setup: Setup, hs: seq<Happening>, alone: seq<Happening>, c: ClientId, id: RuleId)
    requires SameButAlone(hs, alone, id) && NoFlows(setup, hs, id)
    requires hs != [] && hs[|hs| - 1].Happens? && IsTick(hs[|hs| - 1].event)
    ensures var run, other := RunOf(setup, hs), RunOf(LoneSetup(setup, id), alone);
      var s, t, now := Exec(setup, Front(run)), Exec(LoneSetup(setup, id), Front(other)), hs[|hs| - 1].event.now;
      ViolationsAt(t, c, now, t.live.rules) == OfRule(ViolationsAt(s, c, now, s.live.rules), id)
  {
    hide Exec, PacketAdds, ViolationsAt, TicksOf, Only, FallenCounts;
    var lone, e := LoneSetup(setup, id), hs[|hs| - 1].event;
    var run, other := RunOf(setup, hs), RunOf(lone, alone);
    var k := CounterKey(c, id);
    RunsAlike(setup, hs, alone, k);
    RunsAlike(setup, Begun(hs), Begun(alone), k);
    assert Front(run) == RunOf(setup, Begun(hs)) && Last(run) == e;
    assert Front(other) == RunOf(lone, Begun(alone)) && Last(other) == LoneEvent(e, id);
    ViolationsAreBreaches(setup, run, c);
    ViolationsAreBreaches(lone, other, c);
    ExceedingOnly(Exec(setup, Front(run)).live.rules, Grown(setup, run, c), Grown(lone, other, c), id);
  }
}
