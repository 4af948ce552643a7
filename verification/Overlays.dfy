/** The manual overlay under the four requests that edit it. */
module Overlays {
  import opened Base
  import opened Client
  import opened Policy
  import opened PolicyStore
  import opened Daemon

  function Manual(s: State, c: ClientId): Option<ManualPolicy> {
    PolicyOf(s.policies, c).manual
  }

  /** When an overlay set at `now` for a duration is over. */
  predicate Over(now: nat, duration: Option<u64>, t: nat) {
    duration.Some? && now + duration.value * NANOS <= t
  }

  /**
   * A throttle keeps whatever block flag memory holds, live or expired: until its
   * duration is over the client is blocked exactly when that flag was set.
   */
  lemma ThrottleActs(s: State, c: ClientId, rate: Option<u8>, duration: Option<u64>, now: nat, wall: nat, t: nat)
    requires now <= t
    ensures ManualAction(Manual(ThrottleState(s, c, rate, duration, now, wall), c), t)
         == if Over(now, duration, t) then PassAll
            else if ManualOf(s, c).blocked then BlockAll
            else ThrottleTo(if rate.Some? then rate.value else 50)
  {
  }

  /** A block blocks until its duration is over, whatever was there before. */
  lemma BlockActs(s: State, c: ClientId, duration: Option<u64>, now: nat, wall: nat, t: nat)
    requires now <= t
    ensures ManualAction(Manual(BlockState(s, c, duration, now, wall), c), t)
         == if Over(now, duration, t) then PassAll else BlockAll
  {
  }

  /** What is saved for a client. */
  function SavedFor(s: State, c: ClientId): Option<StoredManual> {
    if c in s.store.entries then Some(s.store.entries[c].policy) else None
  }

  /**
   * Both requests keep in memory and in the store the restriction they do not set, give
   * the whole a new expiry, and leave the automatic policy alone.
   */
  lemma RequestsAreKept(s: State, c: ClientId, rate: Option<u8>, duration: Option<u64>, now: nat, wall: nat)
    ensures var t := ThrottleState(s, c, rate, duration, now, wall);
      && Manual(t, c).Some? && Manual(t, c).value.throttle == Some(if rate.Some? then rate.value else 50)
      && Manual(t, c).value.blocked == ManualOf(s, c).blocked
      && SavedFor(t, c) == Some(FromRuntime(Manual(t, c).value, now, wall))
      && SavedFor(t, c).value.throttle == Manual(t, c).value.throttle
      && SavedFor(t, c).value.blocked == ManualOf(s, c).blocked
      && PolicyOf(t.policies, c).auto == PolicyOf(s.policies, c).auto
    ensures var t := BlockState(s, c, duration, now, wall);
      && Manual(t, c).Some? && Manual(t, c).value.blocked
      && Manual(t, c).value.throttle == ManualOf(s, c).throttle
      && SavedFor(t, c) == Some(FromRuntime(Manual(t, c).value, now, wall))
      && SavedFor(t, c).value.blocked && SavedFor(t, c).value.throttle == ManualOf(s, c).throttle
      && PolicyOf(t.policies, c).auto == PolicyOf(s.policies, c).auto
  {
    hide Deadline, ManualOf;
  }

  /**
   * Lifting one restriction: the other stays with its expiry, in memory and in the store;
   * with no other the overlay is gone from both; and with no overlay nothing happens.
   */
  lemma LiftingKeepsTheOther(s: State, c: ClientId, now: nat, wall: nat)
    ensures var m, t := Manual(s, c), UnthrottleState(s, c, now, wall);
      if m.None? then t == s
      else if m.value.blocked then
        && Manual(t, c) == Some(ManualPolicy(None, true, m.value.until))
        && SavedFor(t, c) == Some(FromRuntime(ManualPolicy(None, true, m.value.until), now, wall))
      else Manual(t, c) == None && SavedFor(t, c) == None
    ensures var m, t := Manual(s, c), UnblockState(s, c, now, wall);
      if m.None? then t == s
      else if m.value.throttle.Some? then
        && Manual(t, c) == Some(ManualPolicy(m.value.throttle, false, m.value.until))
        && SavedFor(t, c) == Some(FromRuntime(ManualPolicy(m.value.throttle, false, m.value.until), now, wall))
      else Manual(t, c) == None && SavedFor(t, c) == None
  {
    hide Deadline, FromRuntime;
  }

  /** A client's policy and saved entry are the same. */
  predicate SameFor(s: State, t: State, d: ClientId) {
    Get(t.policies, d) == Get(s.policies, d) && Get(t.store.entries, d) == Get(s.store.entries, d)
  }

  lemma EditTouchesOne(s: State, c: ClientId, m: ManualPolicy, now: nat, wall: nat, d: ClientId)
    requires d != c
    ensures SameFor(s, SetManual(s, c, m, now, wall), d) && SameFor(s, DropManual(s, c), d)
  {
    hide Deadline, FromRuntime;
  }

  /** A request about one client leaves every other client's policy and entry as they were. */
  lemma RequestsTouchOne(s: State, c: ClientId, rate: Option<u8>, duration: Option<u64>,
                         now: nat, wall: nat, d: ClientId)
    requires d != c
    ensures SameFor(s, ThrottleState(s, c, rate, duration, now, wall), d)
    ensures SameFor(s, BlockState(s, c, duration, now, wall), d)
    ensures SameFor(s, UnthrottleState(s, c, now, wall), d) && SameFor(s, UnblockState(s, c, now, wall), d)
  {
    hide SetManual, DropManual, ManualOf, PolicyOf;
    var m, r, until := ManualOf(s, c), if rate.Some? then rate.value else 50, Until(now, duration);
    EditTouchesOne(s, c, m.(throttle := Some(r), until := until), now, wall, d);
    EditTouchesOne(s, c, m.(blocked := true, until := until), now, wall, d);
    EditTouchesOne(s, c, m.(throttle := None), now, wall, d);
    EditTouchesOne(s, c, m.(blocked := false), now, wall, d);
    assert SameFor(s, s, d);
  }

  /**
   * So a throttle turns a client that was not manually blocked into a blocked one
   * exactly when an expired block is still in memory and the duration is not zero.
   */
  lemma ThrottleRevivesExactly(s: State, c: ClientId, rate: Option<u8>, duration: Option<u64>, now: nat, wall: nat)
    requires ManualAction(Manual(s, c), now) != BlockAll
    ensures ManualAction(Manual(ThrottleState(s, c, rate, duration, now, wall), c), now) == BlockAll <==>
      duration != Some(0) && Manual(s, c).Some? && ManualExpired(Manual(s, c).value, now) && Manual(s, c).value.blocked
  {
    ThrottleActs(s, c, rate, duration, now, wall, now);
  }

  /**
   * The mirror case: an expired throttle rate survives a block, and throttles once the
   * block is lifted, exactly when memory held a rate and the block's duration lasts.
   */
  lemma BlockThenUnblock(s: State, c: ClientId, duration: Option<u64>, now: nat, wall: nat, t: nat, wall': nat)
    requires now <= t
    ensures ManualAction(Manual(UnblockState(BlockState(s, c, duration, now, wall), c, t, wall'), c), t)
         == if Over(now, duration, t) || ManualOf(s, c).throttle.None? then PassAll
            else ThrottleTo(ManualOf(s, c).throttle.value)
  {
  }

  lemma SetThenDrop(s: State, c: ClientId, m: ManualPolicy, now: nat, wall: nat)
    ensures DropManual(SetManual(s, c, m, now, wall), c) == DropManual(s, c)
    ensures Manual(SetManual(s, c, m, now, wall), c) == Some(m)
    ensures Manual(DropManual(s, c), c) == None && c !in DropManual(s, c).store.entries
  {
    var a, b := DropManual(SetManual(s, c, m, now, wall), c), DropManual(s, c);
    assert a.policies == b.policies && a.store == b.store;
  }

  /** Lifting both restrictions, in either order, leaves no overlay in memory or in the store. */
  lemma LiftingBothRemoves(s: State, c: ClientId, now: nat, wall: nat, later: nat, wall': nat)
    requires Manual(s, c).Some?
    ensures var a := UnblockState(UnthrottleState(s, c, now, wall), c, later, wall');
      a == DropManual(s, c) && Manual(a, c).None? && c !in a.store.entries
    ensures UnthrottleState(UnblockState(s, c, now, wall), c, later, wall') == DropManual(s, c)
  {
    hide SetManual, DropManual;
    SetThenDrop(s, c, ManualOf(s, c).(throttle := None), now, wall);
    SetThenDrop(s, c, ManualOf(s, c).(blocked := false), now, wall);
  }
}
