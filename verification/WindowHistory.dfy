/**
 * What a sliding window remembers, over any sequence of advances and additions.
 * The reference is a log of every delta ever added, each with an age counted in
 * bucket steps without the ring's cap, and exact sums without saturation.
 */
module WindowHistory {
  import opened Base
  import opened Rules
  import opened Window

  datatype Op =
    | Advance(now: nat)
    | Add(metric: Metric, delta: u64, now: nat)

  function Run(start: nat, ops: seq<Op>): Win {
    if ops == [] then NewWin(start)
    else
      var w := Run(start, ops[..|ops| - 1]);
      match ops[|ops| - 1]
      case Advance(now) => AdvanceWin(w, now)
      case Add(m, delta, now) => AddWin(w, m, delta, now)
  }

  datatype Entry = Entry(metric: Metric, delta: u64, at: nat, age: nat)

  datatype Log = Log(entries: seq<Entry>, last: nat)

  function Aged(entries: seq<Entry>, steps: nat): seq<Entry> {
    seq(|entries|, i requires 0 <= i < |entries| => entries[i].(age := entries[i].age + steps))
  }

  function AgeLog(log: Log, now: nat): Log {
    var e := Elapsed(log.last, now);
    if e == 0 then log else Log(Aged(log.entries, e), now)
  }

  function Record(start: nat, ops: seq<Op>): Log {
    if ops == [] then Log([], start)
    else
      var log := Record(start, ops[..|ops| - 1]);
      match ops[|ops| - 1]
      case Advance(now) => AgeLog(log, now)
      case Add(m, delta, now) =>
        var aged := AgeLog(log, now);
        Log(aged.entries + [Entry(m, delta, now, 0)], aged.last)
  }

  /** Exact total of the deltas of one metric whose age is in `lo..hi`. */
  function Counted(entries: seq<Entry>, m: Metric, lo: int, hi: int): nat {
    if entries == [] then 0
    else
      var e := entries[|entries| - 1];
      Counted(entries[..|entries| - 1], m, lo, hi) + if e.metric == m && lo <= e.age < hi then e.delta else 0
  }

  /** Exact total of one metric over the additions made at or after `from`. */
  function AddedSince(ops: seq<Op>, m: Metric, from: int): nat {
    if ops == [] then 0
    else
      var op := ops[|ops| - 1];
      AddedSince(ops[..|ops| - 1], m, from) + if op.Add? && op.metric == m && from <= op.now then op.delta else 0
  }

  predicate Monotone(start: nat, ops: seq<Op>) {
    && (forall i :: 0 <= i < |ops| ==> start <= ops[i].now)
    && (forall i, j :: 0 <= i < j < |ops| ==> ops[i].now <= ops[j].now)
  }

  // ---- the ring against the log ------------------------------------------------

  lemma {:induction false} CountedAged(entries: seq<Entry>, steps: nat, m: Metric, lo: int, hi: int)
    ensures Counted(Aged(entries, steps), m, lo, hi) == Counted(entries, m, lo - steps, hi - steps)
  {
    if entries != [] {
      var front := entries[..|entries| - 1];
      assert Aged(entries, steps)[..|entries| - 1] == Aged(front, steps);
      CountedAged(front, steps, m, lo, hi);
    }
  }

  lemma {:induction false} CountedEmpty(entries: seq<Entry>, m: Metric, lo: int, hi: int)
    requires hi <= 0 || hi <= lo
    ensures Counted(entries, m, lo, hi) == 0
  {
    if entries != [] {
      CountedEmpty(entries[..|entries| - 1], m, lo, hi);
    }
  }

  lemma {:induction false} CountedSplit(entries: seq<Entry>, m: Metric, lo: int, mid: int, hi: int)
    requires lo <= mid <= hi
    ensures Counted(entries, m, lo, hi) == Counted(entries, m, lo, mid) + Counted(entries, m, mid, hi)
  {
    if entries != [] {
      CountedSplit(entries[..|entries| - 1], m, lo, mid, hi);
    }
  }

  /** Bucket `i` holds what the log says happened `i` steps ago, saturated. */
  ghost predicate Holds(w: Win, log: Log) {
    && w.last == log.last
    && forall i: int, m: Metric :: 0 <= i < SLOTS ==>
         Value(w.slots[i], m) == Min(U64_MAX, Counted(log.entries, m, i, i + 1))
  }

  lemma AdvanceHolds(w: Win, log: Log, now: nat)
    requires Holds(w, log)
    ensures Holds(AdvanceWin(w, now), AgeLog(log, now))
  {
    var e := Elapsed(w.last, now);
    if e > 0 {
      var w', log' := AdvanceWin(w, now), AgeLog(log, now);
      forall i: int, m: Metric | 0 <= i < SLOTS
        ensures Value(w'.slots[i], m) == Min(U64_MAX, Counted(log'.entries, m, i, i + 1))
      {
        CountedAged(log.entries, e, m, i, i + 1);
        if i < e {
          CountedEmpty(log.entries, m, i - e, i + 1 - e);
        } else {
          assert w'.slots[i] == w.slots[i - e];
        }
      }
    }
  }

  lemma AddHolds(w: Win, log: Log, m: Metric, delta: u64, now: nat)
    requires Holds(w, log) && Elapsed(w.last, now) == 0
    ensures Holds(AddWin(w, m, delta, now), Log(log.entries + [Entry(m, delta, now, 0)], log.last))
  {
    var entries := log.entries + [Entry(m, delta, now, 0)];
    assert entries[..|entries| - 1] == log.entries;
    var w' := AddWin(w, m, delta, now);
    forall i: int, k: Metric | 0 <= i < SLOTS
      ensures Value(w'.slots[i], k) == Min(U64_MAX, Counted(entries, k, i, i + 1))
    {
      assert Value(w.slots[i], k) == Min(U64_MAX, Counted(log.entries, k, i, i + 1));
    }
  }

  lemma SettledAfter(last: nat, now: nat)
    ensures Elapsed(if Elapsed(last, now) == 0 then last else now, now) == 0
  {
  }

  lemma {:induction false} RunHolds(start: nat, ops: seq<Op>)
    ensures Holds(Run(start, ops), Record(start, ops))
  {
    if ops != [] {
      var front, op := ops[..|ops| - 1], ops[|ops| - 1];
      var w, log := Run(start, front), Record(start, front);
      RunHolds(start, front);
      AdvanceHolds(w, log, op.now);
      if op.Add? {
        SettledAfter(w.last, op.now);
        AddHolds(AdvanceWin(w, op.now), AgeLog(log, op.now), op.metric, op.delta, op.now);
      }
    }
  }

  lemma {:induction false} TotalHolds(w: Win, log: Log, m: Metric, n: nat)
    requires Holds(w, log) && n <= SLOTS
    ensures Total(w.slots[..n], m) == Min(U64_MAX, Counted(log.entries, m, 0, n))
  {
    if n == 0 {
      CountedEmpty(log.entries, m, 0, 0);
    } else {
      assert w.slots[..n][..n - 1] == w.slots[..n - 1];
      TotalHolds(w, log, m, n - 1);
      CountedSplit(log.entries, m, 0, n - 1, n);
    }
  }

  /**
   * The capped ring refines the unbounded log: after any operations, jumps of a
   * minute or more included, a sum over n buckets is the exact total of the deltas
   * less than n steps old, saturated once.
   */
  lemma RingRefinesLog(start: nat, ops: seq<Op>, m: Metric, secs: nat)
    ensures SumWin(Run(start, ops), m, secs)
         == Min(U64_MAX, Counted(Record(start, ops).entries, m, 0, Clamp(secs)))
  {
    RunHolds(start, ops);
    TotalHolds(Run(start, ops), Record(start, ops), m, Clamp(secs));
  }

  // ---- real time ------------------------------------------------------------------

  /** How an entry's age relates to the clock when the log was last advanced. */
  predicate InStep(e: Entry, last: nat) {
    && e.at + e.age * NANOS < last + NANOS
    && last <= e.at + 2 * e.age * NANOS
  }

  predicate Timely(log: Log, now: nat) {
    && log.last <= now < log.last + NANOS
    && forall i :: 0 <= i < |log.entries| ==> InStep(log.entries[i], log.last)
  }

  lemma ElapsedBounds(last: nat, now: nat)
    requires last <= now
    ensures var e := Elapsed(last, now); last + e * NANOS <= now < last + (e + 1) * NANOS
  {
  }

  lemma AgeTimely(log: Log, before: nat, now: nat)
    requires Timely(log, before) && before <= now
    ensures Timely(AgeLog(log, now), now)
  {
    var e := Elapsed(log.last, now);
    ElapsedBounds(log.last, now);
    if e > 0 {
      forall i | 0 <= i < |log.entries| ensures InStep(AgeLog(log, now).entries[i], now) {
        assert InStep(log.entries[i], log.last);
      }
    }
  }

  lemma {:induction false} RecordTimely(start: nat, ops: seq<Op>)
    requires Monotone(start, ops)
    ensures Timely(Record(start, ops), if ops == [] then start else ops[|ops| - 1].now)
  {
    if ops != [] {
      var front, op := ops[..|ops| - 1], ops[|ops| - 1];
      RecordTimely(start, front);
      AgeTimely(Record(start, front), if front == [] then start else front[|front| - 1].now, op.now);
    }
  }

  lemma StepBounds(e: Entry, last: nat, now: nat, n: nat)
    requires InStep(e, last) && last <= now < last + NANOS
    ensures now - (n - 1) * NANOS <= e.at ==> e.age < n
    ensures e.age < n ==> now - (2 * n - 1) * NANOS + 1 <= e.at
  {
  }

  /** Entries are the additions, in order: ages aside, nothing is lost or invented. */
  lemma {:induction false} CountedWithin(start: nat, ops: seq<Op>, log: Log, m: Metric, n: nat, recent: int, stale: int)
    requires |log.entries| == |Record(start, ops).entries|
    requires forall i :: 0 <= i < |log.entries| ==>
      && log.entries[i].(age := 0) == Record(start, ops).entries[i].(age := 0)
      && (recent <= log.entries[i].at ==> log.entries[i].age < n)
      && (log.entries[i].age < n ==> stale <= log.entries[i].at)
    ensures AddedSince(ops, m, recent) <= Counted(log.entries, m, 0, n) <= AddedSince(ops, m, stale)
  {
    if ops != [] {
      var front, op := ops[..|ops| - 1], ops[|ops| - 1];
      var before := Record(start, front);
      if op.Advance? {
        CountedWithin(start, front, log, m, n, recent, stale);
      } else {
        var k := |log.entries| - 1;
        assert Record(start, ops).entries[..k] == AgeLog(before, op.now).entries;
        CountedWithin(start, front, Log(log.entries[..k], log.last), m, n, recent, stale);
      }
    }
  }

  /**
   * The real-time bound: read after an advance to `now` on a monotone clock, the sum
   * over n buckets has every delta at most n-1 seconds stale and none 2n-1 seconds stale
   * or older, although each advance discards its sub-second remainder.
   */
  lemma SumIsBracketedInTime(start: nat, ops: seq<Op>, now: nat, m: Metric, n: nat)
    requires 1 <= n <= SLOTS && Monotone(start, ops + [Advance(now)])
    ensures var sum := SumWin(Run(start, ops + [Advance(now)]), m, n);
      && Min(U64_MAX, AddedSince(ops, m, now - (n - 1) * NANOS)) <= sum
      && sum <= Min(U64_MAX, AddedSince(ops, m, now - (2 * n - 1) * NANOS + 1))
  {
    hide Run, InStep, Counted, AddedSince, SumWin;
    var all := ops + [Advance(now)];
    var log := Record(start, all);
    assert all[..|all| - 1] == ops;
    RecordTimely(start, all);
    forall i | 0 <= i < |log.entries|
      ensures now - (n - 1) * NANOS <= log.entries[i].at ==> log.entries[i].age < n
      ensures log.entries[i].age < n ==> now - (2 * n - 1) * NANOS + 1 <= log.entries[i].at
    {
      StepBounds(log.entries[i], log.last, now, n);
    }
    CountedWithin(start, ops, log, m, n, now - (n - 1) * NANOS, now - (2 * n - 1) * NANOS + 1);
    RingRefinesLog(start, all, m, n);
  }

  /** Every operation falls a whole number of seconds after the start. */
  ghost predicate WholeSeconds(start: nat, ops: seq<Op>) {
    forall i :: 0 <= i < |ops| ==> exists k: nat :: ops[i].now == AtSecond(start, k)
  }

  function AtSecond(start: nat, k: nat): nat {
    start + k * NANOS
  }

  ghost predicate Exact(start: nat, log: Log) {
    && (exists k: nat :: log.last == AtSecond(start, k))
    && forall i :: 0 <= i < |log.entries| ==> log.entries[i].at + log.entries[i].age * NANOS == log.last
  }

  lemma {:induction false} RecordExact(start: nat, ops: seq<Op>)
    requires Monotone(start, ops) && WholeSeconds(start, ops)
    ensures Exact(start, Record(start, ops))
    ensures Record(start, ops).last == if ops == [] then start else ops[|ops| - 1].now
  {
    if ops == [] {
      assert start == AtSecond(start, 0);
    } else {
      var front, op := ops[..|ops| - 1], ops[|ops| - 1];
      RecordExact(start, front);
      var log := Record(start, front);
      var j: nat :| log.last == AtSecond(start, j);
      var k: nat :| op.now == AtSecond(start, k);
      assert log.last <= op.now;
      assert Elapsed(log.last, op.now) == k - j;
    }
  }

  /** With no remainder to discard, n buckets are exactly the last n seconds. */
  lemma WholeSecondsAreExact(start: nat, ops: seq<Op>, now: nat, m: Metric, n: nat)
    requires 1 <= n <= SLOTS
    requires Monotone(start, ops + [Advance(now)]) && WholeSeconds(start, ops + [Advance(now)])
    ensures SumWin(Run(start, ops + [Advance(now)]), m, n)
         == Min(U64_MAX, AddedSince(ops, m, now - n * NANOS + 1))
  {
    var all := ops + [Advance(now)];
    assert all[..|all| - 1] == ops;
    RecordExact(start, all);
    CountedWithin(start, ops, Record(start, all), m, n, now - n * NANOS + 1, now - n * NANOS + 1);
    RingRefinesLog(start, all, m, n);
  }
}
