/**
 * One (client, rule) pair over a sequence of decision ticks. Each tick turns the
 * counter snapshot into deltas and feeds a window; the reference below needs no
 * buckets at all, only the snapshots and the ages of the ticks.
 */
module TickWindows {
  import opened Base
  import opened Rules
  import opened Window
  import opened Counters

  datatype TickRec = TickRec(now: nat, counts: Counts)

  function FeedWin(w: Option<Win>, m: Metric, delta: nat, now: nat): Option<Win>
    requires delta <= U64_MAX
  {
    if delta == 0 then w
    else Some(AddWin(if w.Some? then w.value else NewWin(now), m, delta, now))
  }

  function Delta(was: Counts, counts: Counts, m: Metric): u64 {
    SatSub(Count(counts, m), Count(was, m))
  }

  /** What a tick does to one window: advance it, then add the three deltas. */
  function TickWin(w: Option<Win>, was: Counts, counts: Counts, now: nat): Option<Win> {
    var w0 := if w.Some? then Some(AdvanceWin(w.value, now)) else None;
    var w1 := FeedWin(w0, Requests, Delta(was, counts, Requests), now);
    var w2 := FeedWin(w1, Bytes, Delta(was, counts, Bytes), now);
    FeedWin(w2, Connections, Delta(was, counts, Connections), now)
  }

  function LastCounts(h: seq<TickRec>): Counts {
    if h == [] then NOTHING else h[|h| - 1].counts
  }

  function WinAfter(h: seq<TickRec>): Option<Win> {
    if h == [] then None
    else
      var front := h[..|h| - 1];
      TickWin(WinAfter(front), LastCounts(front), h[|h| - 1].counts, h[|h| - 1].now)
  }

  function Read(w: Option<Win>, m: Metric, n: nat): u64 {
    if w.None? then 0 else SumWin(w.value, m, n)
  }

  predicate Growing(h: seq<TickRec>) {
    forall i, j :: 0 <= i <= j < |h| ==> NoLess(h[i].counts, h[j].counts)
  }

  predicate ClockMonotone(h: seq<TickRec>) {
    forall i, j :: 0 <= i <= j < |h| ==> h[i].now <= h[j].now
  }

  // ---- the reference: ages of ticks --------------------------------------------------

  /** When the pair's window last moved on; None until the pair is first counted. */
  function LastAdvance(h: seq<TickRec>): Option<nat> {
    if h == [] then None
    else
      var before := LastAdvance(h[..|h| - 1]);
      var t := h[|h| - 1];
      if before.Some? then Some(if Elapsed(before.value, t.now) > 0 then t.now else before.value)
      else if t.counts != NOTHING then Some(t.now)
      else None
  }

  /** Whole seconds by which a tick at `now` ages what came before. */
  function AgedBy(h: seq<TickRec>, now: nat): nat {
    if LastAdvance(h).None? then 0 else Elapsed(LastAdvance(h).value, now)
  }

  /** Age of tick `j` at the last tick of `h`, in whole seconds as they were counted. */
  function Age(h: seq<TickRec>, j: nat): nat
    requires j < |h|
  {
    if j == |h| - 1 then 0 else Age(h[..|h| - 1], j) + AgedBy(h[..|h| - 1], h[|h| - 1].now)
  }

  /** The latest of the first `upto` ticks whose age is at least `n`, or -1. */
  function LastFallen(h: seq<TickRec>, n: int, upto: nat): (k: int)
    requires upto <= |h|
    ensures -1 <= k < upto
    ensures k >= 0 ==> Age(h, k) >= n
    ensures forall j :: k < j < upto ==> Age(h, j) < n
  {
    if upto == 0 then -1
    else if Age(h, upto - 1) >= n then upto - 1
    else LastFallen(h, n, upto - 1)
  }

  /** The snapshot at the last tick that has fallen out of `n` buckets. */
  function FallenCounts(h: seq<TickRec>, n: int): Counts {
    var k := LastFallen(h, n, |h|);
    if k < 0 then NOTHING else h[k].counts
  }

  // ---- the window against the reference --------------------------------------------------

  lemma {:induction false} FallenShifts(h: seq<TickRec>, t: TickRec, n: int, upto: nat)
    requires upto <= |h|
    ensures LastFallen(h + [t], n, upto) == LastFallen(h, n - AgedBy(h, t.now), upto)
  {
    if upto > 0 {
      assert (h + [t])[..|h|] == h;
      FallenShifts(h, t, n, upto - 1);
    }
  }

  /** A new tick pushes every fallen snapshot on by the seconds it aged them. */
  lemma FallenAfter(h: seq<TickRec>, t: TickRec, n: int)
    requires n >= 1
    ensures FallenCounts(h + [t], n) == FallenCounts(h, n - AgedBy(h, t.now))
  {
    FallenShifts(h, t, n, |h|);
  }

  lemma FallenNow(h: seq<TickRec>, n: int)
    requires n <= 0
    ensures FallenCounts(h, n) == LastCounts(h)
  {
  }

  lemma FallenGrows(h: seq<TickRec>, n: int)
    requires Growing(h)
    ensures NoLess(FallenCounts(h, n + 1), FallenCounts(h, n))
    ensures NoLess(FallenCounts(h, n), LastCounts(h))
  {
    assert LastFallen(h, n + 1, |h|) <= LastFallen(h, n, |h|);
  }

  lemma {:induction false} NothingUntilStarted(h: seq<TickRec>)
    requires LastAdvance(h).None?
    ensures forall j :: 0 <= j < |h| ==> h[j].counts == NOTHING
    ensures forall n :: FallenCounts(h, n) == NOTHING
  {
    if h != [] {
      NothingUntilStarted(h[..|h| - 1]);
    }
  }

  /** Bucket `i` holds what was counted between two fallen snapshots. */
  ghost predicate Tells(w: Win, h: seq<TickRec>) {
    && LastAdvance(h) == Some(w.last)
    && forall i: int, m: Metric {:trigger Value(w.slots[i], m)} :: 0 <= i < SLOTS ==>
         Value(w.slots[i], m) == Count(FallenCounts(h, i), m) - Count(FallenCounts(h, i + 1), m)
  }

  function Plus(b: Bucket, was: Counts, counts: Counts): Bucket {
    AddTo(AddTo(AddTo(b, Requests, Delta(was, counts, Requests)),
                Bytes, Delta(was, counts, Bytes)),
          Connections, Delta(was, counts, Connections))
  }

  lemma FeedSettled(a: Win, m: Metric, delta: u64, now: nat)
    requires Elapsed(a.last, now) == 0
    ensures FeedWin(Some(a), m, delta, now) == Some(Win(a.slots[0 := AddTo(a.slots[0], m, delta)], a.last))
  {
    assert a.slots[0 := a.slots[0]] == a.slots;
  }

  /** The three additions land in the newest bucket: the window no longer moves. */
  lemma TickShape(w: Win, was: Counts, counts: Counts, now: nat)
    ensures var a := AdvanceWin(w, now);
      TickWin(Some(w), was, counts, now) == Some(Win(a.slots[0 := Plus(a.slots[0], was, counts)], a.last))
  {
    var a := AdvanceWin(w, now);
    var r, b, c := Delta(was, counts, Requests), Delta(was, counts, Bytes), Delta(was, counts, Connections);
    FeedSettled(a, Requests, r, now);
    var a1 := Win(a.slots[0 := AddTo(a.slots[0], Requests, r)], a.last);
    FeedSettled(a1, Bytes, b, now);
    var a2 := Win(a1.slots[0 := AddTo(a1.slots[0], Bytes, b)], a.last);
    FeedSettled(a2, Connections, c, now);
    assert a2.slots[0 := AddTo(a2.slots[0], Connections, c)] == a.slots[0 := Plus(a.slots[0], was, counts)];
  }

  lemma FirstShape(was: Counts, counts: Counts, now: nat)
    requires was == NOTHING
    ensures TickWin(None, was, counts, now)
         == if counts == NOTHING then None else TickWin(Some(NewWin(now)), was, counts, now)
  {
    var w := NewWin(now);
    assert AdvanceWin(w, now) == w;
  }

  lemma AdvancedTells(w: Win, h: seq<TickRec>, now: nat)
    requires Tells(w, h)
    ensures var e, a := Elapsed(w.last, now), AdvanceWin(w, now);
      forall i: int, m: Metric {:trigger Value(a.slots[i], m)} :: 0 <= i < SLOTS ==>
        Value(a.slots[i], m) == Count(FallenCounts(h, i - e), m) - Count(FallenCounts(h, i + 1 - e), m)
  {
    hide AdvanceWin, FallenCounts, Value, Count, Elapsed;
    var e, a := Elapsed(w.last, now), AdvanceWin(w, now);
    forall i: int, m: Metric | 0 <= i < SLOTS
      ensures Value(a.slots[i], m) == Count(FallenCounts(h, i - e), m) - Count(FallenCounts(h, i + 1 - e), m)
    {
      AdvancedSlot(w, now, i);
      if i < e {
        FallenNow(h, i - e);
        FallenNow(h, i + 1 - e);
        NothingCounted(m);
      }
    }
  }

  /** Bucket `i` after an advance: an older one moved on, or empty. */
  lemma AdvancedSlot(w: Win, now: nat, i: nat)
    requires i < SLOTS
    ensures var e := Elapsed(w.last, now);
      AdvanceWin(w, now).slots[i] == if i < e then ZERO else w.slots[i - e]
  {
  }

  lemma NothingCounted(m: Metric)
    ensures Value(ZERO, m) == 0
  {
  }

  /** The older buckets after a tick, in terms of the longer history. */
  lemma OlderTells(w: Win, h: seq<TickRec>, t: TickRec, i: nat, m: Metric)
    requires Tells(w, h) && i < SLOTS
    ensures var a, all := AdvanceWin(w, t.now), h + [t];
      Value(a.slots[i], m)
        == Count(if i == 0 then LastCounts(h) else FallenCounts(all, i), m) - Count(FallenCounts(all, i + 1), m)
  {
    hide AdvanceWin, FallenCounts;
    var e: int := Elapsed(w.last, t.now);
    AdvancedTells(w, h, t.now);
    assert Value(AdvanceWin(w, t.now).slots[i], m)
        == Count(FallenCounts(h, i - e), m) - Count(FallenCounts(h, i + 1 - e), m);
    FallenAfter(h, t, i + 1);
    if i > 0 {
      FallenAfter(h, t, i);
    } else {
      FallenNow(h, 0 - e);
    }
  }

  lemma NewestTells(b: Bucket, h: seq<TickRec>, t: TickRec, m: Metric)
    requires Growing(h + [t])
    requires Value(b, m) == Count(LastCounts(h), m) - Count(FallenCounts(h + [t], 1), m)
    ensures Value(Plus(b, LastCounts(h), t.counts), m)
         == Count(FallenCounts(h + [t], 0), m) - Count(FallenCounts(h + [t], 1), m)
  {
    var all := h + [t];
    FallenNow(all, 0);
    assert h != [] ==> NoLess(all[|h| - 1].counts, all[|h|].counts);
  }

  lemma TickTells(w: Win, h: seq<TickRec>, t: TickRec)
    requires Tells(w, h) && Growing(h + [t])
    ensures TickWin(Some(w), LastCounts(h), t.counts, t.now).Some?
    ensures Tells(TickWin(Some(w), LastCounts(h), t.counts, t.now).value, h + [t])
  {
    var all, a := h + [t], AdvanceWin(w, t.now);
    assert all[..|all| - 1] == h;
    var w' := Win(a.slots[0 := Plus(a.slots[0], LastCounts(h), t.counts)], a.last);
    TickShape(w, LastCounts(h), t.counts, t.now);
    forall i: int, m: Metric | 0 <= i < SLOTS
      ensures Value(w'.slots[i], m) == Count(FallenCounts(all, i), m) - Count(FallenCounts(all, i + 1), m)
    {
      OlderTells(w, h, t, i, m);
      if i == 0 {
        NewestTells(a.slots[0], h, t, m);
      }
    }
  }

  /** Before the first count every snapshot is empty, and stays so in the longer history. */
  lemma StartOlder(h: seq<TickRec>, t: TickRec, n: nat)
    requires LastAdvance(h).None? && n >= 1
    ensures FallenCounts(h + [t], n) == NOTHING
  {
    hide FallenCounts;
    NothingUntilStarted(h);
    FallenAfter(h, t, n);
  }

  lemma StartTells(h: seq<TickRec>, t: TickRec)
    requires LastAdvance(h).None? && t.counts != NOTHING
    ensures TickWin(None, LastCounts(h), t.counts, t.now).Some?
    ensures Tells(TickWin(None, LastCounts(h), t.counts, t.now).value, h + [t])
  {
    hide FallenCounts;
    var all := h + [t];
    assert all[..|all| - 1] == h;
    NothingUntilStarted(h);
    FirstShape(NOTHING, t.counts, t.now);
    TickShape(NewWin(t.now), NOTHING, t.counts, t.now);
    hide TickWin;
    var w := TickWin(None, NOTHING, t.counts, t.now).value;
    forall i: int, m: Metric | 0 <= i < SLOTS
      ensures Value(w.slots[i], m) == Count(FallenCounts(all, i), m) - Count(FallenCounts(all, i + 1), m)
    {
      StartOlder(h, t, i + 1);
      if i > 0 {
        StartOlder(h, t, i);
      } else {
        FallenNow(all, 0);
      }
    }
  }

  lemma {:induction false} WinTells(h: seq<TickRec>)
    requires Growing(h)
    ensures WinAfter(h).Some? <==> LastAdvance(h).Some?
    ensures WinAfter(h).Some? ==> Tells(WinAfter(h).value, h)
  {
    if h != [] {
      var front, t := h[..|h| - 1], h[|h| - 1];
      assert h == front + [t];
      WinTells(front);
      if LastAdvance(front).Some? {
        TickTells(WinAfter(front).value, front, t);
      } else {
        NothingUntilStarted(front);
        FirstShape(NOTHING, t.counts, t.now);
        if t.counts != NOTHING {
          StartTells(front, t);
        }
      }
    }
  }

  /** Total without saturation. */
  function Exactly(slots: seq<Bucket>, m: Metric): nat {
    if slots == [] then 0 else Exactly(slots[..|slots| - 1], m) + Value(slots[|slots| - 1], m)
  }

  lemma {:induction false} TotalTelescopes(w: Win, h: seq<TickRec>, m: Metric, n: nat)
    requires Growing(h) && Tells(w, h) && n <= SLOTS
    ensures Total(w.slots[..n], m) == Exactly(w.slots[..n], m)
         == Count(LastCounts(h), m) - Count(FallenCounts(h, n), m)
  {
    if n == 0 {
      FallenNow(h, 0);
    } else {
      assert w.slots[..n][..n - 1] == w.slots[..n - 1];
      assert w.slots[..n][n - 1] == w.slots[n - 1];
      TotalTelescopes(w, h, m, n - 1);
      FallenGrows(h, n - 1);
    }
  }

  /**
   * The value read over n buckets is the snapshot now less the snapshot at the last
   * tick that has fallen out of those buckets.
   */
  lemma ReadIsDifference(h: seq<TickRec>, m: Metric, n: nat)
    requires Growing(h) && 1 <= n <= SLOTS
    ensures Read(WinAfter(h), m, n) == Count(LastCounts(h), m) - Count(FallenCounts(h, n), m)
  {
    WinTells(h);
    if LastAdvance(h).Some? {
      TotalTelescopes(WinAfter(h).value, h, m, n);
    } else {
      NothingUntilStarted(h);
    }
  }

  /** All sixty buckets together never exceed the counter, so no sum saturates. */
  lemma WindowsNeverSaturate(h: seq<TickRec>, m: Metric, n: nat)
    requires Growing(h) && n <= SLOTS && WinAfter(h).Some?
    ensures Exactly(WinAfter(h).value.slots, m) <= Count(LastCounts(h), m)
    ensures Total(WinAfter(h).value.slots[..n], m) == Exactly(WinAfter(h).value.slots[..n], m)
  {
    var w := WinAfter(h).value;
    WinTells(h);
    TotalTelescopes(w, h, m, n);
    TotalTelescopes(w, h, m, SLOTS);
    assert w.slots[..SLOTS] == w.slots;
  }

  // ---- ages in real time ----------------------------------------------------------------

  lemma {:induction false} StartedStays(h: seq<TickRec>, j: nat)
    requires j < |h| && LastAdvance(h[..j + 1]).Some?
    ensures LastAdvance(h).Some?
  {
    if j + 1 < |h| {
      assert h[..|h| - 1][..j + 1] == h[..j + 1];
      StartedStays(h[..|h| - 1], j);
    } else {
      assert h[..j + 1] == h;
    }
  }

  lemma {:induction false} AgeInTime(h: seq<TickRec>, j: nat)
    requires j < |h| && ClockMonotone(h) && LastAdvance(h[..j + 1]).Some?
    ensures LastAdvance(h).Some?
    ensures var last := LastAdvance(h).value;
      && last <= h[|h| - 1].now < last + NANOS
      && h[j].now + Age(h, j) * NANOS < last + NANOS
      && last <= h[j].now + 2 * Age(h, j) * NANOS
  {
    var front, t := h[..|h| - 1], h[|h| - 1];
    if LastAdvance(front).Some? && front != [] {
      LastAdvanceRecent(front);
      assert front[|front| - 1].now <= t.now;
    }
    if j + 1 < |h| {
      assert front[..j + 1] == h[..j + 1];
      StartedStays(h, j);
      AgeInTime(front, j);
    } else {
      assert h[..j + 1] == h;
    }
  }

  lemma {:induction false} LastAdvanceRecent(h: seq<TickRec>)
    requires h != [] && ClockMonotone(h) && LastAdvance(h).Some?
    ensures LastAdvance(h).value <= h[|h| - 1].now < LastAdvance(h).value + NANOS
  {
    var front := h[..|h| - 1];
    if front != [] && LastAdvance(front).Some? {
      LastAdvanceRecent(front);
    }
  }

  lemma {:induction false} UnstartedAgesTogether(h: seq<TickRec>, k: nat)
    requires k + 1 < |h| && LastAdvance(h[..k + 1]).None?
    ensures Age(h, k) == Age(h, k + 1)
  {
    var front := h[..|h| - 1];
    assert front[..k + 1] == h[..k + 1];
    if k + 2 < |h| {
      UnstartedAgesTogether(front, k);
    }
  }

  /** A tick that has fallen out was at or after the window's start. */
  lemma FallenIsStarted(h: seq<TickRec>, n: int)
    requires n >= 1 && LastFallen(h, n, |h|) >= 0
    ensures LastAdvance(h[..LastFallen(h, n, |h|) + 1]).Some?
  {
    var k := LastFallen(h, n, |h|);
    if k + 1 < |h| && LastAdvance(h[..k + 1]).None? {
      UnstartedAgesTogether(h, k);
      assert false;
    }
  }

  /**
   * End to end in seconds: the value has everything first seen by a tick at most
   * n-1 seconds ago, and nothing already seen by a tick 2n-1 or more seconds ago.
   */
  lemma ReadIsBracketedInTime(h: seq<TickRec>, m: Metric, n: nat, j: nat)
    requires Growing(h) && ClockMonotone(h) && 1 <= n <= SLOTS && j < |h|
    ensures var now := h[|h| - 1].now;
      && (h[j].now + (2 * n - 1) * NANOS <= now ==>
            Read(WinAfter(h), m, n) <= Count(LastCounts(h), m) - Count(h[j].counts, m))
      && (now <= h[j].now + (n - 1) * NANOS ==>
            Read(WinAfter(h), m, n) >= Count(LastCounts(h), m) - Count(LastCounts(h[..j]), m))
  {
    hide WinAfter, Read, Count;
    var now := h[|h| - 1].now;
    ReadIsDifference(h, m, n);
    if h[j].now + (2 * n - 1) * NANOS <= now {
      StaleIsOut(h, n, j);
      CountNoLess(h[j].counts, FallenCounts(h, n), m);
    } else if now <= h[j].now + (n - 1) * NANOS {
      RecentIsIn(h, n, j);
      CountNoLess(FallenCounts(h, n), LastCounts(h[..j]), m);
    }
  }

  lemma CountNoLess(a: Counts, b: Counts, m: Metric)
    requires NoLess(a, b)
    ensures Count(a, m) <= Count(b, m)
  {
  }

  /** What a tick 2n-1 or more seconds ago saw has fallen out. */
  lemma StaleIsOut(h: seq<TickRec>, n: nat, j: nat)
    requires Growing(h) && ClockMonotone(h) && n >= 1 && j < |h|
    requires h[j].now + (2 * n - 1) * NANOS <= h[|h| - 1].now
    ensures NoLess(h[j].counts, FallenCounts(h, n))
  {
    if LastAdvance(h[..j + 1]).Some? {
      AgeInTime(h, j);
      assert Age(h, j) >= n;
      assert j <= LastFallen(h, n, |h|);
    } else {
      NothingUntilStarted(h[..j + 1]);
      assert h[..j + 1][j] == h[j];
    }
  }

  /** What a tick at most n-1 seconds ago first saw has not. */
  lemma RecentIsIn(h: seq<TickRec>, n: nat, j: nat)
    requires Growing(h) && ClockMonotone(h) && n >= 1 && j < |h|
    requires h[|h| - 1].now <= h[j].now + (n - 1) * NANOS
    ensures NoLess(FallenCounts(h, n), LastCounts(h[..j]))
  {
    var k := LastFallen(h, n, |h|);
    if k >= 0 {
      FallenIsStarted(h, n);
      AgeInTime(h, k);
      assert h[k].now < h[j].now;
      assert k < j && NoLess(h[k].counts, h[j - 1].counts);
    }
  }
}
