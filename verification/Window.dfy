/**
 * Sliding windows. A window's meaning is `Win`: its sixty one-second buckets,
 * newest first. The class below keeps them in a ring of sixty cells.
 */
module Window {
  import opened Base
  import opened Rules

  const SLOTS: nat := 60

  datatype Bucket = Bucket(requests: u64, bytes: u64, connections: u64)

  const ZERO := Bucket(0, 0, 0)

  type Slots = s: seq<Bucket> | |s| == 60 witness seq(60, _ => Bucket(0, 0, 0))

  datatype Win = Win(slots: Slots, last: nat)

  type WinMap = map<RuleId, Win>

  function Value(b: Bucket, m: Metric): u64 {
    match m
    case Requests => b.requests
    case Bytes => b.bytes
    case Connections => b.connections
  }

  function AddTo(b: Bucket, m: Metric, delta: u64): Bucket {
    match m
    case Requests => b.(requests := SatAdd(b.requests, delta))
    case Bytes => b.(bytes := SatAdd(b.bytes, delta))
    case Connections => b.(connections := SatAdd(b.connections, delta))
  }

  /** Whole seconds from `last` to `now`, zero when the clock reads earlier. */
  function Elapsed(last: nat, now: nat): nat {
    SatSub(now, last) / NANOS
  }

  function Shift(slots: Slots, k: nat): Slots
    requires k <= SLOTS
  {
    seq(k, _ => ZERO) + slots[..SLOTS - k]
  }

  function NewWin(now: nat): Win {
    Win(seq(60, _ => ZERO), now)
  }

  function AdvanceWin(w: Win, now: nat): Win {
    var e := Elapsed(w.last, now);
    if e == 0 then w else Win(Shift(w.slots, Min(e, SLOTS)), now)
  }

  function AddWin(w: Win, m: Metric, delta: u64, now: nat): Win {
    var a := AdvanceWin(w, now);
    Win(a.slots[0 := AddTo(a.slots[0], m, delta)], a.last)
  }

  /** Saturating total of one metric over some buckets, newest first. */
  function Total(slots: seq<Bucket>, m: Metric): u64 {
    if slots == [] then 0 else SatAdd(Total(slots[..|slots| - 1], m), Value(slots[|slots| - 1], m))
  }

  function Clamp(secs: nat): (n: nat) {
    Max(1, Min(secs, SLOTS))
  }

  function SumWin(w: Win, m: Metric, secs: nat): u64 {
    Total(w.slots[..Clamp(secs)], m)
  }

  /** Zero for a rule that has no window yet. */
  function SumRule(ws: WinMap, id: RuleId, m: Metric, secs: nat): u64 {
    if id in ws then SumWin(ws[id], m, secs) else 0
  }

  function AddRule(ws: WinMap, id: RuleId, m: Metric, delta: u64, now: nat): WinMap {
    ws[id := AddWin(if id in ws then ws[id] else NewWin(now), m, delta, now)]
  }

  function AdvanceRules(ws: WinMap, now: nat): WinMap {
    map id | id in ws :: AdvanceWin(ws[id], now)
  }

  /** Position of the bucket that is `i` slots older than the cursor. */
  function Cell(cursor: nat, i: nat): nat
    requires cursor < SLOTS && i < SLOTS
  {
    (cursor + 60 - i) % 60
  }

  function View(cells: seq<Bucket>, cursor: nat): Slots
    requires |cells| == SLOTS && cursor < SLOTS
  {
    seq(60, i requires 0 <= i < 60 => cells[Cell(cursor, i)])
  }

  /** Moving the cursor on and clearing its cell drops the oldest bucket. */
  lemma StepShifts(cells: seq<Bucket>, cursor: nat)
    requires |cells| == SLOTS && cursor < SLOTS
    ensures var c := (cursor + 1) % 60; View(cells[c := ZERO], c) == Shift(View(cells, cursor), 1)
  {
    var c := (cursor + 1) % 60;
    forall i | 1 <= i < 60 ensures Cell(c, i) == Cell(cursor, i - 1) && Cell(c, i) != c {
    }
  }

  /** The cell `k` steps past the cursor, around the ring. */
  function Ahead(cursor: nat, k: nat): (c: nat)
    ensures c < SLOTS
  {
    (cursor + k) % 60
  }

  lemma AheadStep(cursor: nat, k: nat)
    ensures Ahead(cursor, k + 1) == (Ahead(cursor, k) + 1) % 60
    ensures cursor < SLOTS ==> Ahead(cursor, 0) == cursor
  {
  }

  lemma ShiftNone(slots: Slots)
    ensures Shift(slots, 0) == slots
  {
  }

  lemma ShiftTwice(slots: Slots, k: nat)
    requires k < SLOTS
    ensures Shift(Shift(slots, k), 1) == Shift(slots, k + 1)
  {
  }

  /** A span of no seconds counts as one, and one of more than sixty as sixty. */
  lemma SpansClamp(w: Win, m: Metric, secs: nat)
    ensures secs == 0 ==> SumWin(w, m, secs) == SumWin(w, m, 1)
    ensures secs > 60 ==> SumWin(w, m, secs) == SumWin(w, m, 60)
    ensures 1 <= secs <= 60 ==> SumWin(w, m, secs) == Total(w.slots[..secs], m)
  {
  }

  class SlidingWindow {
    const buckets: array<Bucket>
    var cursor: nat
    var lastAdvance: nat
    ghost var win: Win  // the buckets, newest first

    ghost predicate Valid()
      reads this, buckets
    {
      buckets.Length == SLOTS && cursor < SLOTS && win == Win(View(buckets[..], cursor), lastAdvance)
    }

    constructor (now: nat)
      ensures Valid() && fresh(buckets)
      ensures win == NewWin(now)
    {
      buckets := new Bucket[60](_ => ZERO);
      cursor, lastAdvance, win := 0, now, NewWin(now);
      new;
      assert View(buckets[..], cursor) == win.slots;
    }

    /** Clears one bucket for every whole second since the last advance, at most sixty. */
    method Advance(now: nat)
      requires Valid()
      modifies this, buckets
      ensures Valid()
      ensures win == AdvanceWin(old(win), now)
      ensures cursor == Ahead(old(cursor), Min(Elapsed(old(lastAdvance), now), SLOTS))
    {
      var elapsed := Elapsed(lastAdvance, now);
      AheadStep(cursor, 0);
      if elapsed == 0 {
        return;
      }
      var steps := Min(elapsed, SLOTS);
      hide View, Shift, Ahead, Elapsed;
      ghost var was := win.slots;
      ShiftNone(was);
      for k := 0 to steps
        invariant cursor < SLOTS && lastAdvance == old(lastAdvance)
        invariant cursor == Ahead(old(cursor), k)
        invariant View(buckets[..], cursor) == Shift(was, k)
      {
        ghost var cells := buckets[..];
        StepShifts(cells, cursor);
        ShiftTwice(was, k);
        AheadStep(old(cursor), k);
        cursor := (cursor + 1) % 60;
        buckets[cursor] := ZERO;
        assert buckets[..] == cells[cursor := ZERO];
      }
      lastAdvance := now;
      win := AdvanceWin(old(win), now);
    }

    method Add(m: Metric, delta: u64, now: nat)
      requires Valid()
      modifies this, buckets
      ensures Valid()
      ensures win == AddWin(old(win), m, delta, now)
    {
      Advance(now);
      ghost var view := win.slots;
      ghost var cells := buckets[..];
      buckets[cursor] := AddTo(buckets[cursor], m, delta);
      assert buckets[..] == cells[cursor := AddTo(view[0], m, delta)];
      assert forall i | 1 <= i < 60 :: Cell(cursor, i) != cursor;
      assert View(buckets[..], cursor) == view[0 := AddTo(view[0], m, delta)];
      win := AddWin(old(win), m, delta, now);
    }

    method Sum(m: Metric, secs: nat) returns (total: u64)
      requires Valid()
      ensures total == SumWin(win, m, secs)
    {
      var n := Clamp(secs);
      total := 0;
      for i := 0 to n
        invariant total == Total(win.slots[..i], m)
      {
        var idx := (cursor + 60 - i) % 60;
        total := SatAdd(total, Value(buckets[idx], m));
        assert win.slots[..i + 1][..i] == win.slots[..i];
      }
    }
  }

  /** The windows of one client, created when a rule first counts something. */
  class RuleWindows {
    var byRule: map<RuleId, SlidingWindow>
    ghost var wins: WinMap  // what the windows hold
    ghost var Repr: set<object>

    /** Every rule owns its window: no cell is shared between two rules. */
    ghost predicate Valid()
      reads this, Repr
      ensures Valid() ==> this in Repr
    {
      && this in Repr
      && wins.Keys == byRule.Keys
      && (forall id | id in byRule ::
            && byRule[id] in Repr && byRule[id].buckets in Repr
            && byRule[id].Valid() && byRule[id].win == wins[id])
      && (forall id, other | id in byRule && other in byRule && id != other ::
            byRule[id] != byRule[other] && byRule[id].buckets != byRule[other].buckets)
    }

    constructor ()
      ensures Valid() && Repr == {this}
      ensures wins == map[]
    {
      byRule, wins, Repr := map[], map[], {this};
    }

    /** Makes sure the rule has a window. */
    method Ensure(id: RuleId, now: nat)
      requires Valid()
      modifies this
      ensures Valid() && fresh(Repr - old(Repr)) && id in byRule
      ensures wins == if id in old(wins) then old(wins) else old(wins)[id := NewWin(now)]
    {
      if id !in byRule {
        var w := new SlidingWindow(now);
        byRule, Repr, wins := byRule[id := w], Repr + {w, w.buckets}, wins[id := NewWin(now)];
      }
    }

    /** Adds to a window that exists; no other window changes. */
    method Feed(id: RuleId, m: Metric, delta: u64, now: nat)
      requires Valid() && id in byRule
      modifies this`wins, byRule[id], byRule[id].buckets
      ensures Valid()
      ensures wins == old(wins)[id := AddWin(old(wins)[id], m, delta, now)]
    {
      byRule[id].Add(m, delta, now);
      wins := wins[id := byRule[id].win];
    }

    method Add(id: RuleId, m: Metric, delta: u64, now: nat)
      requires Valid()
      modifies Repr
      ensures Valid() && fresh(Repr - old(Repr))
      ensures wins == AddRule(old(wins), id, m, delta, now)
    {
      ghost var was := wins;
      Ensure(id, now);
      Feed(id, m, delta, now);
      UpdateTwice(was, id, NewWin(now), wins[id]);
    }

    method Sum(id: RuleId, m: Metric, secs: nat) returns (total: u64)
      requires Valid()
      ensures total == SumRule(wins, id, m, secs)
    {
      if id in byRule {
        total := byRule[id].Sum(m, secs);
      } else {
        total := 0;
      }
    }

    method AdvanceOne(id: RuleId, now: nat)
      requires Valid() && id in byRule
      modifies this`wins, byRule[id], byRule[id].buckets
      ensures Valid()
      ensures wins == old(wins)[id := AdvanceWin(old(wins)[id], now)]
    {
      byRule[id].Advance(now);
      wins := wins[id := byRule[id].win];
    }

    /** Whatever order the windows are visited in, each is advanced once. */
    method AdvanceAll(now: nat)
      requires Valid()
      modifies Repr
      ensures Valid() && Repr == old(Repr)
      ensures wins == AdvanceRules(old(wins), now)
    {
      ghost var was := wins;
      var todo := byRule.Keys;
      while todo != {}
        invariant todo <= byRule.Keys && byRule == old(byRule) && Repr == old(Repr) && Valid()
        invariant forall id | id in byRule :: wins[id] == if id in todo then was[id] else AdvanceWin(was[id], now)
        decreases todo
      {
        var id :| id in todo;
        AdvanceOne(id, now);
        todo := todo - {id};
      }
      MapsEqual(wins, AdvanceRules(was, now));
    }
  }
}
