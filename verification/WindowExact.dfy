/**
 * When "n buckets" is "the last n seconds": the exact condition, on the times of the
 * operations alone.
 */
module WindowExact {
  import opened Base
  import opened Rules
  import opened Window
  import opened WindowHistory

  function LastOf(start: nat, ops: seq<Op>): nat {
    if ops == [] then start
    else
      var last := LastOf(start, ops[..|ops| - 1]);
      if Elapsed(last, ops[|ops| - 1].now) > 0 then ops[|ops| - 1].now else last
  }

  /** Whole seconds that the window has counted since operation `i`. */
  function AgeOf(start: nat, ops: seq<Op>, i: nat): nat
    requires i < |ops|
  {
    var front := ops[..|ops| - 1];
    if i == |front| then 0 else AgeOf(start, front, i) + Elapsed(LastOf(start, front), ops[|front|].now)
  }

  /** Total of one metric over the additions at the positions that `keep` selects. */
  function SumWhere(ops: seq<Op>, m: Metric, keep: nat -> bool): nat {
    if ops == [] then 0
    else
      var k := |ops| - 1;
      SumWhere(ops[..k], m, keep) + if ops[k].Add? && ops[k].metric == m && keep(k) then ops[k].delta else 0
  }

  lemma {:induction false} SumAgrees(ops: seq<Op>, m: Metric, f: nat -> bool, g: nat -> bool)
    requires forall i :: 0 <= i < |ops| && ops[i].Add? ==> f(i) == g(i)
    ensures SumWhere(ops, m, f) == SumWhere(ops, m, g)
  {
    if ops != [] {
      SumAgrees(ops[..|ops| - 1], m, f, g);
    }
  }

  function Aging(start: nat, ops: seq<Op>, lo: int, hi: int): nat -> bool {
    (i: nat) => i < |ops| && lo <= AgeOf(start, ops, i) < hi
  }

  function Since(ops: seq<Op>, from: int): nat -> bool {
    (i: nat) => i < |ops| && from <= ops[i].now
  }

  lemma {:induction false} AddedIsSum(ops: seq<Op>, m: Metric, from: int)
    ensures AddedSince(ops, m, from) == SumWhere(ops, m, Since(ops, from))
  {
    if ops != [] {
      var front := ops[..|ops| - 1];
      AddedIsSum(front, m, from);
      SumAgrees(front, m, Since(front, from), Since(ops, from));
    }
  }

  lemma {:induction false} LastIs(start: nat, ops: seq<Op>)
    ensures Record(start, ops).last == LastOf(start, ops)
  {
    if ops != [] {
      LastIs(start, ops[..|ops| - 1]);
    }
  }

  /** One more operation ages the log by the whole seconds elapsed, and an addition joins it. */
  lemma RecordStep(start: nat, front: seq<Op>, op: Op)
    ensures var aged := Aged(Record(start, front).entries, Elapsed(LastOf(start, front), op.now));
      Record(start, front + [op]).entries
        == if op.Add? then aged + [Entry(op.metric, op.delta, op.now, 0)] else aged
  {
    LastIs(start, front);
    assert (front + [op])[..|front|] == front;
    assert Aged(Record(start, front).entries, 0) == Record(start, front).entries;
  }

  /** What the log counts between two ages is what was added at those positions. */
  lemma {:induction false} CountedIsSum(start: nat, ops: seq<Op>, m: Metric, lo: int, hi: int)
    ensures Counted(Record(start, ops).entries, m, lo, hi) == SumWhere(ops, m, Aging(start, ops, lo, hi))
  {
    hide Record, Elapsed, LastOf, Aged, Counted;
    if ops != [] {
      var k := |ops| - 1;
      var front, op := ops[..k], ops[k];
      assert ops == front + [op];
      var aged := Record(start, front).entries;
      var e := Elapsed(LastOf(start, front), op.now);
      CountedIsSum(start, front, m, lo - e, hi - e);
      CountedAged(aged, e, m, lo, hi);
      RecordStep(start, front, op);
      SumAgrees(front, m, Aging(start, front, lo - e, hi - e), Aging(start, ops, lo, hi));
      if op.Add? {
        CountedSnoc(Aged(aged, e), Entry(op.metric, op.delta, op.now, 0), m, lo, hi);
      }
    } else {
      NothingCounted(start, m, lo, hi);
    }
  }

  lemma NothingCounted(start: nat, m: Metric, lo: int, hi: int)
    ensures Counted(Record(start, []).entries, m, lo, hi) == 0
  {
  }

  lemma CountedSnoc(entries: seq<Entry>, e: Entry, m: Metric, lo: int, hi: int)
    ensures Counted(entries + [e], m, lo, hi)
         == Counted(entries, m, lo, hi) + if e.metric == m && lo <= e.age < hi then e.delta else 0
  {
    assert (entries + [e])[..|entries|] == entries;
  }

  /** The same operations at the same times, with other amounts. */
  predicate Reweighed(ops: seq<Op>, others: seq<Op>) {
    && |ops| == |others|
    && forall i :: 0 <= i < |ops| ==>
         if ops[i].Add? then others[i].Add? && others[i] == ops[i].(delta := others[i].delta) else others[i] == ops[i]
  }

  lemma {:induction false} SameAges(start: nat, ops: seq<Op>, others: seq<Op>, i: nat)
    requires Reweighed(ops, others)
    ensures LastOf(start, others) == LastOf(start, ops)
    ensures i < |ops| ==> AgeOf(start, others, i) == AgeOf(start, ops, i)
  {
    if ops != [] {
      SameAges(start, ops[..|ops| - 1], others[..|ops| - 1], i);
    }
  }

  /** Age of operation `i` when the window is read after an advance to `now`. */
  function AgeAt(start: nat, ops: seq<Op>, now: nat, i: nat): nat
    requires i < |ops|
  {
    AgeOf(start, ops + [Advance(now)], i)
  }

  ghost predicate ExactAt(start: nat, ops: seq<Op>, now: nat, m: Metric, n: nat) {
    SumWin(Run(start, ops + [Advance(now)]), m, n) == Min(U64_MAX, AddedSince(ops, m, now - n * NANOS + 1))
  }

  function Younger(start: nat, ops: seq<Op>, now: nat, n: nat): nat -> bool {
    (i: nat) => i < |ops| && AgeAt(start, ops, now, i) < n
  }

  lemma SumIsYounger(start: nat, ops: seq<Op>, now: nat, m: Metric, n: nat)
    requires 1 <= n <= SLOTS
    ensures SumWin(Run(start, ops + [Advance(now)]), m, n)
         == Min(U64_MAX, SumWhere(ops, m, Younger(start, ops, now, n)))
  {
    var all := ops + [Advance(now)];
    assert all[..|ops|] == ops;
    RingRefinesLog(start, all, m, n);
    CountedIsSum(start, all, m, 0, n);
    SumAgrees(ops, m, Aging(start, all, 0, n), Younger(start, ops, now, n));
  }

  /** Amount one at operation `i`, nothing elsewhere. */
  function OnlyAt(ops: seq<Op>, i: nat): seq<Op> {
    seq(|ops|, j requires 0 <= j < |ops| =>
      if ops[j].Add? then ops[j].(delta := if j == i then 1 else 0) else ops[j])
  }

  lemma {:induction false} SumOnlyAt(ops: seq<Op>, i: nat, m: Metric, keep: nat -> bool)
    ensures SumWhere(OnlyAt(ops, i), m, keep)
         == if i < |ops| && ops[i].Add? && ops[i].metric == m && keep(i) then 1 else 0
  {
    if ops != [] {
      var k := |ops| - 1;
      assert OnlyAt(ops, i)[..k] == OnlyAt(ops[..k], i);
      SumOnlyAt(ops[..k], i, m, keep);
    }
  }

  lemma AgeNow(start: nat, ops: seq<Op>, others: seq<Op>, now: nat, i: nat)
    requires Reweighed(ops, others) && i < |ops|
    ensures AgeAt(start, others, now, i) == AgeAt(start, ops, now, i)
  {
    SameAges(start, ops + [Advance(now)], others + [Advance(now)], i);
  }

  // ---- one span ---------------------------------------------------------------------------

  /** Fewer than n seconds were counted since the operation just when fewer than n have passed. */
  predicate InSpan(start: nat, ops: seq<Op>, now: nat, n: nat, i: nat)
    requires i < |ops|
  {
    AgeAt(start, ops, now, i) < n <==> now - ops[i].now < n * NANOS
  }

  /**
   * With these times, n buckets are the last n seconds whatever is added, if and only if
   * every addition is counted out of the n buckets just when it is n seconds old.
   */
  lemma SpanExactly(start: nat, ops: seq<Op>, now: nat, n: nat)
    requires 1 <= n <= SLOTS
    ensures (forall others, m :: Reweighed(ops, others) ==> ExactAt(start, others, now, m, n)) <==>
      forall i :: 0 <= i < |ops| && ops[i].Add? ==> InSpan(start, ops, now, n, i)
  {
    if forall i :: 0 <= i < |ops| && ops[i].Add? ==> InSpan(start, ops, now, n, i) {
      forall others, m | Reweighed(ops, others) ensures ExactAt(start, others, now, m, n) {
        InSpanIsExact(start, ops, others, now, m, n);
      }
    } else {
      var i :| 0 <= i < |ops| && ops[i].Add? && !InSpan(start, ops, now, n, i);
      OutOfSpanIsInexact(start, ops, now, n, i);
    }
  }

  lemma InSpanIsExact(start: nat, ops: seq<Op>, others: seq<Op>, now: nat, m: Metric, n: nat)
    requires forall i :: 0 <= i < |ops| && ops[i].Add? ==> InSpan(start, ops, now, n, i)
    requires Reweighed(ops, others) && 1 <= n <= SLOTS
    ensures ExactAt(start, others, now, m, n)
  {
    var from := now - n * NANOS + 1;
    SumIsYounger(start, others, now, m, n);
    AddedIsSum(others, m, from);
    forall i | 0 <= i < |others| && others[i].Add?
      ensures Younger(start, others, now, n)(i) == Since(others, from)(i)
    {
      AgeNow(start, ops, others, now, i);
    }
    SumAgrees(others, m, Younger(start, others, now, n), Since(others, from));
  }

  lemma OutOfSpanIsInexact(start: nat, ops: seq<Op>, now: nat, n: nat, i: nat)
    requires 1 <= n <= SLOTS && i < |ops| && ops[i].Add? && !InSpan(start, ops, now, n, i)
    ensures Reweighed(ops, OnlyAt(ops, i))
    ensures !ExactAt(start, OnlyAt(ops, i), now, ops[i].metric, n)
  {
    var others, m, from := OnlyAt(ops, i), ops[i].metric, now - n * NANOS + 1;
    AgeNow(start, ops, others, now, i);
    SumIsYounger(start, others, now, m, n);
    AddedIsSum(others, m, from);
    SumOnlyAt(ops, i, m, Younger(start, others, now, n));
    SumOnlyAt(ops, i, m, Since(others, from));
  }

  /** The two spans rules have: the last second and the last sixty. */
  lemma RuleSpansExactly(start: nat, ops: seq<Op>, now: nat, span: Span)
    ensures (forall others, m :: Reweighed(ops, others) ==> ExactAt(start, others, now, m, Secs(span))) <==>
      forall i :: 0 <= i < |ops| && ops[i].Add? ==> InSpan(start, ops, now, Secs(span), i)
  {
    SpanExactly(start, ops, now, Secs(span));
  }

  // ---- every span at once ---------------------------------------------------------------------

  /** The seconds counted since operation `i` and those passed differ by less than one; sixty stands for more. */
  predicate InTime(start: nat, ops: seq<Op>, now: nat, i: nat)
    requires i < |ops|
  {
    var age := AgeAt(start, ops, now, i);
    if age < SLOTS then 0 <= now - ops[i].now - age * NANOS < NANOS
    else now - ops[i].now >= SLOTS * NANOS
  }

  lemma SecondsDecide(age: nat, since: nat, n: nat)
    requires 1 <= n <= SLOTS
    requires if age < SLOTS then 0 <= since - age * NANOS < NANOS else since >= SLOTS * NANOS
    ensures age < n <==> since < n * NANOS
  {
  }

  lemma SecondsDiffer(age: nat, since: nat) returns (n: nat)
    requires !(if age < SLOTS then 0 <= since - age * NANOS < NANOS else since >= SLOTS * NANOS)
    ensures 1 <= n <= SLOTS
    ensures (age < n) != (since < n * NANOS)
  {
    if age >= SLOTS {
      n := SLOTS;
    } else if since >= (age + 1) * NANOS {
      n := age + 1;
    } else {
      n := age;
    }
  }

  /** For every n at once: since each addition the remainders dropped and gained add up to less than a second. */
  lemma ExactExactly(start: nat, ops: seq<Op>, now: nat)
    requires Monotone(start, ops + [Advance(now)])
    ensures
      (forall others, m, n :: Reweighed(ops, others) && 1 <= n <= SLOTS ==> ExactAt(start, others, now, m, n)) <==>
      forall i :: 0 <= i < |ops| && ops[i].Add? ==> InTime(start, ops, now, i)
  {
    forall i | 0 <= i < |ops| ensures ops[i].now <= now {
      assert (ops + [Advance(now)])[i] == ops[i] && (ops + [Advance(now)])[|ops|].now == now;
    }
    if forall i :: 0 <= i < |ops| && ops[i].Add? ==> InTime(start, ops, now, i) {
      forall others, m, n | Reweighed(ops, others) && 1 <= n <= SLOTS ensures ExactAt(start, others, now, m, n) {
        forall i | 0 <= i < |ops| && ops[i].Add? ensures InSpan(start, ops, now, n, i) {
          SecondsDecide(AgeAt(start, ops, now, i), now - ops[i].now, n);
        }
        InSpanIsExact(start, ops, others, now, m, n);
      }
    } else {
      var i :| 0 <= i < |ops| && ops[i].Add? && !InTime(start, ops, now, i);
      var n := SecondsDiffer(AgeAt(start, ops, now, i), now - ops[i].now);
      OutOfSpanIsInexact(start, ops, now, n, i);
    }
  }

  // ---- a second apart --------------------------------------------------------------------------

  /** Consecutive times are equal or at least a second apart. */
  predicate SecondApart(start: nat, ops: seq<Op>) {
    ops == [] ||
    (&& SecondApart(start, ops[..|ops| - 1])
     && var before := if |ops| == 1 then start else ops[|ops| - 2].now;
        ops[|ops| - 1].now == before || ops[|ops| - 1].now >= before + NANOS)
  }

  lemma {:induction false} LastIsLatest(start: nat, ops: seq<Op>)
    requires SecondApart(start, ops)
    ensures LastOf(start, ops) == if ops == [] then start else ops[|ops| - 1].now
  {
    if ops != [] {
      LastIsLatest(start, ops[..|ops| - 1]);
    }
  }

  lemma {:induction false} AgedUnlessNow(start: nat, ops: seq<Op>, i: nat)
    requires SecondApart(start, ops) && i < |ops|
    ensures ops[i].now <= ops[|ops| - 1].now
    ensures AgeOf(start, ops, i) == 0 <==> ops[i].now == ops[|ops| - 1].now
    ensures ops[i].now == ops[|ops| - 1].now || ops[i].now + NANOS <= ops[|ops| - 1].now
  {
    var front := ops[..|ops| - 1];
    if i < |front| {
      AgedUnlessNow(start, front, i);
      LastIsLatest(start, front);
    }
  }

  /** When operations never come less than a second apart, one bucket is exactly the last second. */
  lemma SecondExactWhenApart(start: nat, ops: seq<Op>, now: nat, m: Metric)
    requires SecondApart(start, ops + [Advance(now)])
    ensures ExactAt(start, ops, now, m, 1)
  {
    var all := ops + [Advance(now)];
    forall i | 0 <= i < |ops| && ops[i].Add? ensures InSpan(start, ops, now, 1, i) {
      AgedUnlessNow(start, all, i);
      assert all[i] == ops[i];
    }
    InSpanIsExact(start, ops, ops, now, m, 1);
  }

  // ---- concrete failures ------------------------------------------------------------------------

  const SLOW: nat := 1_900_000_000

  /** One addition, then an advance every 1.9 seconds. */
  function Slow(k: nat): seq<Op> {
    if k == 0 then [Add(Requests, 5, 0)] else Slow(k - 1) + [Advance(k * SLOW)]
  }

  lemma {:induction false} SlowFacts(k: nat, keep: nat -> bool)
    ensures |Slow(k)| == k + 1 && LastOf(0, Slow(k)) == k * SLOW && AgeOf(0, Slow(k), 0) == k
    ensures SumWhere(Slow(k), Requests, keep) == if keep(0) then 5 else 0
    ensures Slow(k)[0] == Add(Requests, 5, 0) && Slow(k)[k].now == k * SLOW
  {
    if k == 0 {
      assert Slow(0)[..0] == [];
    } else {
      SlowFacts(k - 1, keep);
      assert Slow(k)[..k] == Slow(k - 1);
    }
  }

  lemma {:induction false} SlowMonotone(k: nat)
    ensures Monotone(0, Slow(k))
    ensures forall i :: 0 <= i < |Slow(k)| ==> Slow(k)[i].now <= k * SLOW
  {
    if k > 0 {
      SlowMonotone(k - 1);
    }
  }

  /**
   * Too much: advanced every 1.9 seconds, n buckets still count a delta that is 1.9 times
   * n-1 seconds old. Over the sixty of a per-minute rule it is 112 seconds old.
   */
  lemma BucketsOutliveSeconds(n: nat)
    requires 3 <= n <= SLOTS
    ensures var ops, now := Slow(n - 2), (n - 1) * SLOW;
      && Monotone(0, ops + [Advance(now)])
      && SumWin(Run(0, ops + [Advance(now)]), Requests, n) == 5
      && AddedSince(ops, Requests, now - n * NANOS) == 0
  {
    var ops, now := Slow(n - 2), (n - 1) * SLOW;
    assert ops + [Advance(now)] == Slow(n - 1);
    SlowMonotone(n - 1);
    SlowFacts(n - 1, Younger(0, ops, now, n));
    SlowFacts(n - 2, Younger(0, ops, now, n));
    SumIsYounger(0, ops, now, Requests, n);
    AddedIsSum(ops, Requests, now - n * NANOS);
    SlowFacts(n - 2, Since(ops, now - n * NANOS));
  }

  /**
   * Too little: a delta added 0.9 seconds after the last advance is gone from the one
   * bucket of a per-second rule a tenth of a second later.
   */
  lemma BucketForgetsEarly()
    ensures var ops, now := [Add(Requests, 1, 0), Add(Requests, 5, 900_000_000)], NANOS;
      && Monotone(0, ops + [Advance(now)])
      && SumWin(Run(0, ops + [Advance(now)]), Requests, Secs(PerSecond)) == 0
      && AddedSince(ops, Requests, now - NANOS + 1) == 5
  {
    var ops, now := [Add(Requests, 1, 0), Add(Requests, 5, 900_000_000)], NANOS;
    var all := ops + [Advance(now)];
    assert ops[..1] == [Add(Requests, 1, 0)] && ops[..1][..0] == [];
    assert all[..2] == ops;
    assert LastOf(0, ops[..1]) == 0 && LastOf(0, ops) == 0;
    assert AgeOf(0, ops[..1], 0) == 0 && AgeOf(0, ops, 0) == 0 && AgeOf(0, ops, 1) == 0;
    assert AgeAt(0, ops, now, 0) == 1 && AgeAt(0, ops, now, 1) == 1;
    SumIsYounger(0, ops, now, Requests, 1);
    SumAgrees(ops, Requests, Younger(0, ops, now, 1), (i: nat) => false);
    assert SumWhere(ops[..1], Requests, (i: nat) => false) == 0;
    assert AddedSince(ops[..1], Requests, now - NANOS + 1) == 0;
  }
}
