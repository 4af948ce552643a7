/** Manual and automatic policies, how they merge, and how manual ones are saved. */
module Policy {
  import opened Base
  import opened Rules
  import opened Engine

  datatype ManualPolicy = ManualPolicy(throttle: Option<u8>, blocked: bool, until: Option<nat>)

  datatype AutoPolicy = AutoPolicy(dropRate: u8, blocked: bool, rule: RuleId, until: nat)

  datatype ClientPolicy = ClientPolicy(manual: Option<ManualPolicy>, auto: Option<AutoPolicy>)

  const NO_POLICY := ClientPolicy(None, None)

  datatype EffectiveAction = PassAll | ThrottleTo(dropRate: u8) | BlockAll

  /** The saved form: expiry in whole seconds of wall-clock time. */
  datatype StoredManual = StoredManual(throttle: Option<u8>, blocked: bool, untilUnix: Option<u64>)

  predicate ManualExpired(m: ManualPolicy, now: nat) {
    m.until.Some? && now >= m.until.value
  }

  predicate AutoExpired(a: AutoPolicy, now: nat) {
    now >= a.until
  }

  // ---- merging ----------------------------------------------------------------------

  /** Pass below every throttle, throttles by rate, block above them all. */
  function Strength(a: EffectiveAction): nat {
    match a
    case PassAll => 0
    case ThrottleTo(rate) => 1 + rate
    case BlockAll => 0x101
  }

  /** What the manual overlay asks for by itself. */
  function ManualAction(m: Option<ManualPolicy>, now: nat): EffectiveAction {
    if m.None? || ManualExpired(m.value, now) then PassAll
    else if m.value.blocked then BlockAll
    else if m.value.throttle.Some? then ThrottleTo(m.value.throttle.value)
    else PassAll
  }

  /** What the rules ask for by themselves; an automatic rate of zero asks for nothing. */
  function AutoAction(a: Option<AutoPolicy>, now: nat): EffectiveAction {
    if a.None? || AutoExpired(a.value, now) then PassAll
    else if a.value.blocked then BlockAll
    else if a.value.dropRate > 0 then ThrottleTo(a.value.dropRate)
    else PassAll
  }

  function Join(a: EffectiveAction, b: EffectiveAction): EffectiveAction {
    if Strength(a) < Strength(b) then b else a
  }

  /** The effective action is the stronger of the two sources, whichever it is. */
  function Merge(p: ClientPolicy, now: nat): (r: EffectiveAction)
    ensures r == Join(ManualAction(p.manual, now), AutoAction(p.auto, now))
  {
    var manual := if p.manual.Some? && !ManualExpired(p.manual.value, now) then p.manual else None;
    var auto := if p.auto.Some? && !AutoExpired(p.auto.value, now) then p.auto else None;
    if manual.Some? && manual.value.blocked then
      BlockAll
    else if manual.Some? && manual.value.throttle.Some? then
      if auto.Some? && auto.value.blocked then
        BlockAll
      else
        var autoRate := if auto.Some? then auto.value.dropRate else 0;
        ThrottleTo(Max(manual.value.throttle.value, autoRate))
    else if auto.Some? && auto.value.blocked then
      BlockAll
    else if auto.Some? && auto.value.dropRate > 0 then
      ThrottleTo(auto.value.dropRate)
    else
      PassAll
  }

  /** Time alone only ever weakens a policy. */
  lemma MergeFades(p: ClientPolicy, now: nat, later: nat)
    requires now <= later
    ensures Strength(Merge(p, later)) <= Strength(Merge(p, now))
  {
  }

  /**
   * "Manual wins when present and not expired": exactly when the rules ask for nothing
   * stronger at that moment.
   */
  lemma ManualWinsExactly(p: ClientPolicy, now: nat)
    requires p.manual.Some? && !ManualExpired(p.manual.value, now)
    ensures Merge(p, now) == ManualAction(p.manual, now) <==>
      Strength(AutoAction(p.auto, now)) <= Strength(ManualAction(p.manual, now))
  {
  }

  /** A live manual throttle of 10 percent loses to an automatic block. */
  lemma AutoBlockBeatsManualThrottle(rule: RuleId)
    ensures var p := ClientPolicy(Some(ManualPolicy(Some(10), false, None)), Some(AutoPolicy(100, true, rule, 5)));
      ManualAction(p.manual, 0) == ThrottleTo(10) && Merge(p, 0) == BlockAll
  {
  }

  // ---- the strongest violation ---------------------------------------------------------

  function FromAction(rule: RuleId, action: Action, now: nat, cooldown: nat): AutoPolicy {
    match action
    case Block => AutoPolicy(100, true, rule, now + cooldown)
    case Throttle(rate) => AutoPolicy(rate, false, rule, now + cooldown)
  }

  function Rank(a: Action): nat {
    match a
    case Block => 0x100
    case Throttle(rate) => rate
  }

  /** Position of the first violation of maximal rank. */
  function FirstStrongest(vs: seq<Violation>): (i: nat)
    requires vs != []
    ensures i < |vs|
    ensures forall j :: 0 <= j < |vs| ==> Rank(vs[j].action) <= Rank(vs[i].action)
    ensures forall j :: 0 <= j < i ==> Rank(vs[j].action) < Rank(vs[i].action)
  {
    var last := |vs| - 1;
    if last == 0 then 0
    else
      var i := FirstStrongest(vs[..last]);
      assert forall j :: 0 <= j < last ==> vs[..last][j] == vs[j];
      if Rank(vs[last].action) > Rank(vs[i].action) then last else i
  }

  /** Violation `i` leads: the first block, or without blocks the first of the highest rate. */
  predicate Leads(vs: seq<Violation>, i: nat)
    requires i < |vs|
  {
    match vs[i].action
    case Block => forall j :: 0 <= j < i ==> vs[j].action.Throttle?
    case Throttle(rate) =>
      && (forall j :: 0 <= j < |vs| ==> vs[j].action.Throttle? && vs[j].action.dropRate <= rate)
      && (forall j :: 0 <= j < i ==> vs[j].action.dropRate < rate)
  }

  /** What a violation's action asks for; a rate of zero asks for nothing. */
  function Asked(a: Action): EffectiveAction {
    match a
    case Block => BlockAll
    case Throttle(rate) => if rate == 0 then PassAll else ThrottleTo(rate)
  }

  /** There is exactly one leader. */
  lemma OneLeads(vs: seq<Violation>, i: nat)
    requires i < |vs|
    ensures Leads(vs, i) <==> i == FirstStrongest(vs)
  {
    var k := FirstStrongest(vs);
    assert Rank(vs[i].action) <= Rank(vs[k].action);
  }

  function StrongestAuto(vs: seq<Violation>, now: nat, cooldown: nat): Option<AutoPolicy> {
    if vs == [] then None
    else
      var v := vs[FirstStrongest(vs)];
      Some(FromAction(v.rule, v.action, now, cooldown))
  }

  /**
   * Folds the violations into one automatic policy: block above throttle, then the
   * higher rate, the earlier rule on a tie.
   */
  method PickStrongest(vs: seq<Violation>, now: nat, cooldown: nat) returns (best: Option<AutoPolicy>)
    ensures best == StrongestAuto(vs, now, cooldown)
    ensures best.None? <==> vs == []
    ensures best.Some? ==> exists i ::
      && 0 <= i < |vs| && Leads(vs, i)
      && best.value.rule == vs[i].rule && best.value.until == now + cooldown
      && (best.value.blocked <==> vs[i].action.Block?)
      && (vs[i].action.Throttle? ==> best.value.dropRate == vs[i].action.dropRate)
  {
    best := None;
    for i := 0 to |vs|
      invariant best == StrongestAuto(vs[..i], now, cooldown)
    {
      var cand := FromAction(vs[i].rule, vs[i].action, now, cooldown);
      assert vs[..i + 1][..i] == vs[..i];
      if best.None? {
        best := Some(cand);
      } else if cand.blocked && !best.value.blocked {
        best := Some(cand);
      } else if best.value.blocked && !cand.blocked {
      } else if cand.dropRate > best.value.dropRate {
        best := Some(cand);
      }
    }
    assert vs[..|vs|] == vs;
    if vs != [] {
      OneLeads(vs, FirstStrongest(vs));
    }
  }

  /** An automatic policy asks for what its violation does until the cooldown is over, then for nothing. */
  lemma StrongestActs(vs: seq<Violation>, i: nat, now: nat, cooldown: nat, t: nat)
    requires i < |vs| && Leads(vs, i)
    ensures AutoAction(StrongestAuto(vs, now, cooldown), t)
         == if t < now + cooldown then Asked(vs[i].action) else PassAll
  {
    OneLeads(vs, i);
  }

  /** The order of the rules decides only whose id is reported, not the strength. */
  lemma StrengthIgnoresOrder(vs: seq<Violation>, ws: seq<Violation>, now: nat, cooldown: nat)
    requires multiset(vs) == multiset(ws)
    ensures StrongestAuto(vs, now, cooldown).Some? <==> StrongestAuto(ws, now, cooldown).Some?
    ensures forall t ::
      AutoAction(StrongestAuto(vs, now, cooldown), t) == AutoAction(StrongestAuto(ws, now, cooldown), t)
  {
    if vs == [] {
      assert |ws| == |multiset(ws)| == 0;
    } else {
      assert vs[0] in multiset(vs);
      assert vs[0] in ws;
      var i, j := FirstStrongest(vs), FirstStrongest(ws);
      assert vs[i] in multiset(ws) && ws[j] in multiset(vs);
      var i' :| 0 <= i' < |ws| && ws[i'] == vs[i];
      var j' :| 0 <= j' < |vs| && vs[j'] == ws[j];
      assert Rank(vs[i].action) == Rank(ws[j].action);
    }
  }

  // ---- saving and restoring ------------------------------------------------------------

  /** `wall` is the wall clock, in nanoseconds since the epoch, as read while saving. */
  function FromRuntime(p: ManualPolicy, now: nat, wall: nat): StoredManual
  {
    StoredManual(p.throttle, p.blocked,
      if p.until.None? then None
      else Some(SatAdd(wall / NANOS, SatSub(p.until.value, now) / NANOS)))
  }

  function ToRuntime(s: StoredManual, now: nat, wall: nat): ManualPolicy {
    ManualPolicy(s.throttle, s.blocked,
      if s.untilUnix.None? then None
      else
        var target := s.untilUnix.value * NANOS;
        Some(if target >= wall then now + (target - wall) else now))
  }

  /** The saved second count fits its 64 bits. */
  predicate Fits(p: ManualPolicy, now: nat, wall: nat) {
    p.until.Some? ==> wall / NANOS + SatSub(p.until.value, now) / NANOS <= U64_MAX
  }

  /**
   * Saving at `now` and restoring at `later`. The wall clock is read `lag` after the
   * monotone one when saving and `lag'` after it when restoring. The restored expiry
   * is the old one moved by lag - lag' and less than two seconds earlier, or the
   * restore time when that is past; a permanent policy stays permanent.
   */
  lemma ExpiryRoundTrip(p: ManualPolicy, now: nat, later: nat, offset: nat, lag: nat, lag': nat)
    requires now <= later
    ensures var q := ToRuntime(FromRuntime(p, now, now + offset + lag), later, later + offset + lag');
      && q.throttle == p.throttle && q.blocked == p.blocked
      && (q.until.Some? <==> p.until.Some?)
      && (p.until.Some? ==>
            && later <= q.until.value <= Max(later, Max(p.until.value, now) + lag - lag')
            && (Fits(p, now, now + offset + lag) ==> p.until.value + lag - lag' - 2 * NANOS < q.until.value))
  {
  }

  /** With the clocks in step, an expired policy comes back expired and none is prolonged. */
  lemma RestoreNeverRevives(p: ManualPolicy, now: nat, later: nat, offset: nat, t: nat)
    requires now <= later <= t
    ensures var q := ToRuntime(FromRuntime(p, now, now + offset), later, later + offset);
      ManualExpired(p, t) ==> ManualExpired(q, t)
  {
    ExpiryRoundTrip(p, now, later, offset, 0, 0);
  }
}
