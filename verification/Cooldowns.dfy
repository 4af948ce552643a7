/**
 * How long a breach counts, from the tick that found it to the tick that releases the
 * client, in seconds of the configuration in force.
 */
module Cooldowns {
  import opened Base
  import opened Client
  import opened Policy
  import opened Daemon
  import opened Overlays
  import opened Runs
  import opened History
  import opened Rates

  /** Event `n` is a tick that found a breach, and no later tick did; no restart since. */
  predicate LastBreach(setup: Setup, run: seq<Event>, n: nat, c: ClientId) {
    && n < |run| && IsTick(run[n]) && Breaches(setup, run[..n + 1], c) != []
    && forall m :: n < m < |run| ==>
         !run[m].Restart? && (IsTick(run[m]) ==> Breaches(setup, run[..m + 1], c) == [])
  }

  /** The configuration the tick at `n` ends under. */
  function LiveAt(setup: Setup, run: seq<Event>, n: nat): Live
    requires n < |run|
  {
    LiveAfter(Exec(setup, run[..n]).live, run[n])
  }

  lemma {:induction false} FoundHolds(setup: Setup, run: seq<Event>, n: nat, c: ClientId)
    requires LastBreach(setup, run, n, c)
    ensures LastFound(setup, run, c)
         == StrongestAuto(Breaches(setup, run[..n + 1], c), run[n].now, Cooldown(LiveAt(setup, run, n)))
  {
    hide Exec, Breaches, StrongestAuto, Cooldown;
    assert run[..|run|] == run;
    if n < |run| - 1 {
      var front := Front(run);
      assert forall m {:trigger front[m]} :: 0 <= m < |front| ==> front[m] == run[m] && front[..m + 1] == run[..m + 1];
      assert front[..n] == run[..n];
      FoundHolds(setup, front, n, c);
    } else {
      assert Front(run) == run[..n];
    }
  }

  /**
   * What the rules ask for after a breach: the action of the leading violation, its own
   * rate or a block, for the configured seconds, at least one; from then on nothing.
   */
  lemma BreachActsExactly(setup: Setup, run: seq<Event>, n: nat, i: nat, c: ClientId, u: nat)
    requires TicksMonotone(run) && LastBreach(setup, run, n, c) && LastTickTime(run) <= u
    requires i < |Breaches(setup, run[..n + 1], c)| && Leads(Breaches(setup, run[..n + 1], c), i)
    ensures AutoAction(PolicyOf(Exec(setup, run).policies, c).auto, u)
         == if u < run[n].now + Max(LiveAt(setup, run, n).cooldownSecs, 1) * NANOS
            then Asked(Breaches(setup, run[..n + 1], c)[i].action) else PassAll
  {
    hide Exec, Breaches, StrongestAuto, LastFound, LastTickTime, TicksMonotone, LiveAt;
    AutoIsHistory(setup, run, c);
    FoundHolds(setup, run, n, c);
    var vs := Breaches(setup, run[..n + 1], c);
    StrongestActs(vs, i, run[n].now, Cooldown(LiveAt(setup, run, n)), u);
    StillUnexpired(StrongestAuto(vs, run[n].now, Cooldown(LiveAt(setup, run, n))), LastTickTime(run), u);
  }

  lemma StillUnexpired(a: Option<AutoPolicy>, now: nat, u: nat)
    requires now <= u
    ensures AutoAction(Unexpired(a, now), u) == AutoAction(a, u)
  {
  }

  /** A tick drops an overlay from memory exactly when its time has come. */
  lemma ReapedExactly(setup: Setup, run: seq<Event>, c: ClientId)
    requires run != [] && IsTick(Last(run))
    ensures var m := Manual(Exec(setup, Front(run)), c);
      Manual(Exec(setup, run), c)
        == if m.Some? && m.value.until.Some? && m.value.until.value <= Last(run).now then None else m
  {
    hide Exec;
    ManualAtTick(setup, run, c);
  }

  /** No overlay, or one whose time has come. */
  predicate NoOverlay(m: Option<ManualPolicy>, now: nat) {
    m.Some? ==> m.value.until.Some? && m.value.until.value <= now
  }

  /**
   * Enforced, then released: a tick that finds no live overlay leaves the client under the
   * action of its last breach's leading violation while the configured seconds last, and
   * without an entry from the first tick at or past their end.
   */
  lemma EnforcedThenReleased(setup: Setup, run: seq<Event>, n: nat, i: nat, c: ClientId)
    requires run != [] && IsTick(Last(run)) && TicksMonotone(run) && LastBreach(setup, run, n, c)
    requires i < |Breaches(setup, run[..n + 1], c)| && Leads(Breaches(setup, run[..n + 1], c), i)
    requires NoOverlay(Manual(Exec(setup, Front(run)), c), Last(run).now)
    ensures var t, asked := Exec(setup, run), Asked(Breaches(setup, run[..n + 1], c)[i].action);
      if asked != PassAll && Last(run).now < run[n].now + Max(LiveAt(setup, run, n).cooldownSecs, 1) * NANOS
      then c in t.enforced && t.enforced[c] == asked
      else c !in t.enforced
  {
    hide Exec, Breaches, LiveAt, LastBreach, TicksMonotone, LastTickTime, Asked;
    TickIsLast(run);
    BreachActsExactly(setup, run, n, i, c, Last(run).now);
    ReapedExactly(setup, run, c);
    EnforcerAgrees(setup, run, c);
  }
}
