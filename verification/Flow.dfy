/**
 * The flow table: a bounded map with an idle timeout that stands in for the
 * unbounded history of observed flows.
 */
module Flow {
  import opened Base
  import opened Client

  datatype FlowKey = FlowKey(src: Octets4, sport: u16, dst: Octets4, dport: u16, proto: u8)

  type Flows = map<FlowKey, nat>

  /** The flows seen less than `idle` before `now`. */
  function Kept(flows: Flows, now: nat, idle: nat): Flows {
    map k | k in flows && SatSub(now, flows[k]) < idle :: flows[k]
  }

  ghost predicate Oldest(flows: Flows, k: FlowKey) {
    k in flows && forall other | other in flows :: flows[k] <= flows[other]
  }

  /** One observation; which of several equally old flows is dropped is left open. */
  ghost predicate Observed(before: Flows, key: FlowKey, now: nat, max: nat, idle: nat, after: Flows, isNew: bool) {
    var kept := Kept(before, now, idle);
    && isNew == (key !in kept)
    && if key in kept || |kept| < max || kept == map[] then after == kept[key := now]
       else exists old' :: Oldest(kept, old') && after == (kept - {old'})[key := now]
  }

  class FlowTable {
    var flows: Flows
    const max: nat
    const idle: nat

    constructor ()
      ensures flows == map[] && max == 8192 && idle == 60 * NANOS
    {
      flows, max, idle := map[], 8192, 60 * NANOS;
    }

    method FindOldest() returns (k: FlowKey)
      requires flows != map[]
      ensures Oldest(flows, k)
    {
      k :| k in flows;
      var todo := flows.Keys;
      while todo != {}
        invariant todo <= flows.Keys && k in flows
        invariant forall other | other in flows.Keys - todo :: flows[k] <= flows[other]
        decreases todo
      {
        var other :| other in todo;
        if flows[other] < flows[k] {
          k := other;
        }
        todo := todo - {other};
      }
    }

    /** True when the flow is new. */
    method Observe(key: FlowKey, now: nat) returns (isNew: bool)
      modifies this
      ensures Observed(old(flows), key, now, max, idle, flows, isNew)
    {
      flows := map k | k in flows && SatSub(now, flows[k]) < idle :: flows[k];
      if key in flows {
        flows := flows[key := now];
        return false;
      }
      if |flows| >= max && flows != map[] {
        var oldest := FindOldest();
        flows := flows - {oldest};
      }
      flows := flows[key := now];
      return true;
    }
  }

  // ---- against the unbounded history -----------------------------------------------------

  datatype Seen = Seen(key: FlowKey, at: nat)

  function LastSeen(h: seq<Seen>, k: FlowKey): Option<nat> {
    if h == [] then None
    else if h[|h| - 1].key == k then Some(h[|h| - 1].at)
    else LastSeen(h[..|h| - 1], k)
  }

  /** The other flows observed at or after a time. */
  function OthersSince(h: seq<Seen>, k: FlowKey, from: nat): set<FlowKey> {
    set o | o in h && o.key != k && from <= o.at :: o.key
  }

  predicate TimesMonotone(h: seq<Seen>) {
    forall i, j :: 0 <= i <= j < |h| ==> h[i].at <= h[j].at
  }

  /** What the table knows of a history that ended at `now`. */
  ghost predicate Remembers(flows: Flows, h: seq<Seen>, now: nat, max: nat, idle: nat) {
    && |flows| <= max
    && (forall k | k in flows :: LastSeen(h, k) == Some(flows[k]))
    && (forall k | k !in flows && LastSeen(h, k).Some? && now - LastSeen(h, k).value < idle ::
          |OthersSince(h, k, LastSeen(h, k).value)| >= max)
  }

  lemma {:induction false} SeenAt(h: seq<Seen>, k: FlowKey)
    requires LastSeen(h, k).Some?
    ensures Seen(k, LastSeen(h, k).value) in h
  {
    if h[|h| - 1].key != k {
      SeenAt(h[..|h| - 1], k);
    }
  }

  lemma OthersGrow(h: seq<Seen>, s: Seen, k: FlowKey, from: nat)
    ensures OthersSince(h, k, from) <= OthersSince(h + [s], k, from)
    ensures |OthersSince(h, k, from)| <= |OthersSince(h + [s], k, from)|
  {
    SubsetSize(OthersSince(h, k, from), OthersSince(h + [s], k, from));
  }

  lemma {:induction false} SubsetSize<T>(a: set<T>, b: set<T>)
    requires a <= b
    ensures |a| <= |b|
    decreases a
  {
    if a != {} {
      var x :| x in a;
      SubsetSize(a - {x}, b - {x});
    }
  }

  lemma {:induction false} KeptSize(flows: Flows, now: nat, idle: nat)
    ensures |Kept(flows, now, idle)| <= |flows|
  {
    SubsetSize(Kept(flows, now, idle).Keys, flows.Keys);
  }

  /** Dropping the oldest of a full table: everything kept was seen no earlier. */
  lemma EvictedHasOthers(flows: Flows, h: seq<Seen>, kept: Flows, k: FlowKey, s: Seen, max: nat)
    requires forall j | j in kept :: LastSeen(h, j) == Some(kept[j])
    requires Oldest(kept, k) && s.key !in kept && |kept| >= max && kept[k] <= s.at
    ensures |OthersSince(h + [s], k, kept[k])| >= max
  {
    var others := kept.Keys - {k} + {s.key};
    forall j | j in others ensures j in OthersSince(h + [s], k, kept[k]) {
      if j == s.key {
        assert s in h + [s];
      } else {
        SeenAt(h, j);
        assert Seen(j, kept[j]) in h + [s];
      }
    }
    assert |others| == |kept|;
    SubsetSize(others, OthersSince(h + [s], k, kept[k]));
  }

  lemma LastSeenAppend(h: seq<Seen>, s: Seen, k: FlowKey)
    ensures LastSeen(h + [s], k) == if k == s.key then Some(s.at) else LastSeen(h, k)
  {
    assert (h + [s])[..|h|] == h;
  }

  lemma {:induction false} LastSeenBefore(h: seq<Seen>, k: FlowKey, now: nat)
    requires LastSeen(h, k).Some? && forall i :: 0 <= i < |h| ==> h[i].at <= now
    ensures LastSeen(h, k).value <= now
  {
    SeenAt(h, k);
  }

  lemma SizeAfter(kept: Flows, key: FlowKey, now: nat, max: nat, after: Flows)
    requires |kept| <= max && max >= 1
    requires ((key in kept || |kept| < max) && after == kept[key := now])
      || exists old' :: Oldest(kept, old') && key !in kept && after == (kept - {old'})[key := now]
    ensures |after| <= max
  {
    if (key in kept || |kept| < max) && after == kept[key := now] {
      assert after.Keys == kept.Keys + {key};
      if key in kept {
        assert after.Keys == kept.Keys;
      }
    } else {
      var old' :| Oldest(kept, old') && key !in kept && after == (kept - {old'})[key := now];
      assert after.Keys == kept.Keys - {old'} + {key};
    }
  }

  lemma ForgottenStays(flows: Flows, h: seq<Seen>, now: nat, s: Seen, max: nat, idle: nat, after: Flows,
                      isNew: bool, k: FlowKey)
    requires Remembers(flows, h, now, max, idle) && now <= s.at && max >= 1
    requires forall i :: 0 <= i < |h| ==> h[i].at <= now
    requires Observed(flows, s.key, s.at, max, idle, after, isNew)
    requires k !in after && k != s.key && LastSeen(h, k).Some? && s.at - LastSeen(h, k).value < idle
    ensures |OthersSince(h + [s], k, LastSeen(h, k).value)| >= max
  {
    var t := LastSeen(h, k).value;
    LastSeenBefore(h, k, now);
    if k in flows {
      var kept := Kept(flows, s.at, idle);
      assert k in kept && kept[k] == t;
      var old' :| Oldest(kept, old') && after == (kept - {old'})[s.key := s.at];
      assert old' == k;
      EvictedHasOthers(flows, h, kept, k, s, max);
    } else {
      OthersGrow(h, s, k, t);
    }
  }

  lemma ObserveRemembers(flows: Flows, h: seq<Seen>, now: nat, s: Seen, max: nat, idle: nat, after: Flows, isNew: bool)
    requires Remembers(flows, h, now, max, idle) && now <= s.at && max >= 1
    requires forall i :: 0 <= i < |h| ==> h[i].at <= now
    requires Observed(flows, s.key, s.at, max, idle, after, isNew)
    ensures Remembers(after, h + [s], s.at, max, idle)
  {
    var kept := Kept(flows, s.at, idle);
    KeptSize(flows, s.at, idle);
    SizeAfter(kept, s.key, s.at, max, after);
    forall k | k in after ensures LastSeen(h + [s], k) == Some(after[k]) {
      LastSeenAppend(h, s, k);
    }
    forall k | k !in after && LastSeen(h + [s], k).Some? && s.at - LastSeen(h + [s], k).value < idle
      ensures |OthersSince(h + [s], k, LastSeen(h + [s], k).value)| >= max
    {
      LastSeenAppend(h, s, k);
      ForgottenStays(flows, h, now, s, max, idle, after, isNew, k);
    }
  }

  /** A run of the table: `tables[i]` before observation `i`, `news[i]` its answer. */
  ghost predicate Runs(h: seq<Seen>, tables: seq<Flows>, news: seq<bool>, max: nat, idle: nat) {
    && |tables| == |h| + 1 && |news| == |h| && tables[0] == map[]
    && forall i :: 0 <= i < |h| ==> Observed(tables[i], h[i].key, h[i].at, max, idle, tables[i + 1], news[i])
  }

  lemma {:induction false} OldestExists(flows: Flows) returns (k: FlowKey)
    requires flows != map[]
    ensures Oldest(flows, k)
    decreases flows.Keys
  {
    var j :| j in flows;
    var rest := flows - {j};
    assert forall o | o in flows :: o == j || o in rest;
    if rest == map[] {
      k := j;
    } else {
      k := OldestExists(rest);
      k := if flows[j] < flows[k] then j else k;
    }
  }

  /** The table has an answer to every history. */
  lemma {:induction false} SomeRun(h: seq<Seen>, max: nat, idle: nat) returns (tables: seq<Flows>, news: seq<bool>)
    ensures Runs(h, tables, news, max, idle)
  {
    if h == [] {
      tables, news := [map[]], [];
    } else {
      var n := |h| - 1;
      tables, news := SomeRun(h[..n], max, idle);
      var s, kept := h[n], Kept(tables[n], h[n].at, idle);
      var after := kept[s.key := s.at];
      if s.key !in kept && |kept| >= max && kept != map[] {
        var old' := OldestExists(kept);
        after := (kept - {old'})[s.key := s.at];
      }
      assert Observed(tables[n], s.key, s.at, max, idle, after, s.key !in kept);
      tables, news := tables + [after], news + [s.key !in kept];
    }
  }

  lemma {:induction false} RunRemembers(h: seq<Seen>, tables: seq<Flows>, news: seq<bool>, max: nat, idle: nat, n: nat)
    requires Runs(h, tables, news, max, idle) && TimesMonotone(h) && max >= 1 && n <= |h|
    ensures Remembers(tables[n], h[..n], if n == 0 then 0 else h[n - 1].at, max, idle)
  {
    if n > 0 {
      RunRemembers(h, tables, news, max, idle, n - 1);
      assert h[..n] == h[..n - 1] + [h[n - 1]];
      ObserveRemembers(tables[n - 1], h[..n - 1], if n == 1 then 0 else h[n - 2].at, h[n - 1], max, idle,
        tables[n], news[n - 1]);
    }
  }

  /**
   * The table against the history. It never outgrows `max`. "Not new" means observed
   * less than `idle` ago. "New" of a flow observed less than `idle` ago means at least
   * `max` other flows were observed since.
   */
  lemma TableAgainstHistory(h: seq<Seen>, tables: seq<Flows>, news: seq<bool>, max: nat, idle: nat, n: nat)
    requires Runs(h, tables, news, max, idle) && TimesMonotone(h) && max >= 1 && n < |h|
    ensures |tables[n + 1]| <= max
    ensures var last := LastSeen(h[..n], h[n].key);
      && (!news[n] ==> last.Some? && h[n].at - last.value < idle)
      && (news[n] && last.Some? && h[n].at - last.value < idle ==> |OthersSince(h[..n], h[n].key, last.value)| >= max)
  {
    RunRemembers(h, tables, news, max, idle, n);
    RunRemembers(h, tables, news, max, idle, n + 1);
    var last := LastSeen(h[..n], h[n].key);
    if last.Some? {
      LastSeenBefore(h[..n], h[n].key, h[n].at);
    }
  }

  // ---- the answer as a function of the history ---------------------------------------------

  /** The other flows observed strictly later. */
  function OthersAfter(h: seq<Seen>, k: FlowKey, from: nat): set<FlowKey> {
    set o | o in h && o.key != k && from < o.at :: o.key
  }

  /** A flow observed after one that is still in the table is in the table. */
  ghost predicate KeepsNewer(flows: Flows, h: seq<Seen>) {
    forall k, o | k in flows && LastSeen(h, o).Some? && flows[k] < LastSeen(h, o).value :: o in flows
  }

  lemma {:induction false} SeenNoLater(h: seq<Seen>, s: Seen)
    requires TimesMonotone(h) && s in h
    ensures LastSeen(h, s.key).Some? && s.at <= LastSeen(h, s.key).value
  {
    if h[|h| - 1].key != s.key {
      assert h[..|h| - 1] + [h[|h| - 1]] == h;
      SeenNoLater(h[..|h| - 1], s);
    } else {
      var i :| 0 <= i < |h| && h[i] == s;
    }
  }

  lemma ObserveKeepsNewer(flows: Flows, h: seq<Seen>, s: Seen, max: nat, idle: nat, after: Flows, isNew: bool)
    requires KeepsNewer(flows, h) && forall k | k in flows :: LastSeen(h, k) == Some(flows[k])
    requires forall k | LastSeen(h, k).Some? :: LastSeen(h, k).value <= s.at
    requires Observed(flows, s.key, s.at, max, idle, after, isNew)
    ensures KeepsNewer(after, h + [s])
  {
    var kept := Kept(flows, s.at, idle);
    forall k, o | k in after && LastSeen(h + [s], o).Some? && after[k] < LastSeen(h + [s], o).value ensures o in after {
      LastSeenAppend(h, s, o);
      if o != s.key {
        assert k != s.key;
        assert k in kept && o in kept;
      }
    }
  }

  lemma {:induction false} RunKeepsNewer(h: seq<Seen>, tables: seq<Flows>, news: seq<bool>, max: nat, idle: nat, n: nat)
    requires Runs(h, tables, news, max, idle) && TimesMonotone(h) && max >= 1 && n <= |h|
    ensures KeepsNewer(tables[n], h[..n])
  {
    hide Observed, KeepsNewer;
    if n == 0 {
      assert KeepsNewer(map[], []) by {
        NothingKept();
      }
      assert h[..0] == [];
    } else {
      RunKeepsNewer(h, tables, news, max, idle, n - 1);
      RunRemembers(h, tables, news, max, idle, n - 1);
      var before := h[..n - 1];
      forall k ensures LastSeen(before, k).Some? ==> LastSeen(before, k).value <= h[n - 1].at {
        if LastSeen(before, k).Some? {
          LastSeenBefore(before, k, h[n - 1].at);
        }
      }
      assert h[..n] == before + [h[n - 1]];
      ObserveKeepsNewer(tables[n - 1], before, h[n - 1], max, idle, tables[n], news[n - 1]);
    }
  }

  lemma NothingKept()
    ensures KeepsNewer(map[], [])
  {
  }

  /** A flow still in the table has seen fewer than `max` others strictly later. */
  lemma KeptHasRoom(flows: Flows, h: seq<Seen>, k: FlowKey, max: nat)
    requires KeepsNewer(flows, h) && TimesMonotone(h) && k in flows && |flows| <= max
    ensures |OthersAfter(h, k, flows[k])| < max
  {
    forall o | o in OthersAfter(h, k, flows[k]) ensures o in flows.Keys - {k} {
      var s :| s in h && s.key == o && flows[k] < s.at;
      SeenNoLater(h, s);
    }
    SubsetSize(OthersAfter(h, k, flows[k]), flows.Keys - {k});
  }

  /**
   * The answer bracketed by the history alone: `max` others strictly later make a flow
   * new, and a recently seen flow is new only after `max` others no earlier.
   */
  lemma NewBracketed(h: seq<Seen>, tables: seq<Flows>, news: seq<bool>, max: nat, idle: nat, n: nat)
    requires Runs(h, tables, news, max, idle) && TimesMonotone(h) && max >= 1 && n < |h|
    ensures var last := LastSeen(h[..n], h[n].key);
      && (last.None? || h[n].at - last.value >= idle || |OthersAfter(h[..n], h[n].key, last.value)| >= max ==> news[n])
      && (news[n] ==>
            last.None? || h[n].at - last.value >= idle || |OthersSince(h[..n], h[n].key, last.value)| >= max)
  {
    TableAgainstHistory(h, tables, news, max, idle, n);
    RunKeepsNewer(h, tables, news, max, idle, n);
    RunRemembers(h, tables, news, max, idle, n);
    if h[n].key in tables[n] {
      KeptHasRoom(tables[n], h[..n], h[n].key, max);
    }
  }

  predicate TimesIncrease(h: seq<Seen>) {
    forall i, j :: 0 <= i < j < |h| ==> h[i].at < h[j].at
  }

  /**
   * What a table of `max` flows calls new, from the history alone: a flow never seen,
   * or seen `idle` or more ago, or followed by `max` others.
   */
  predicate Unknown(h: seq<Seen>, s: Seen, max: nat, idle: nat) {
    var last := LastSeen(h, s.key);
    last.None? || s.at - last.value >= idle || |OthersSince(h, s.key, last.value)| >= max
  }

  lemma SinceIsAfter(h: seq<Seen>, k: FlowKey)
    requires TimesIncrease(h) && LastSeen(h, k).Some?
    ensures OthersSince(h, k, LastSeen(h, k).value) == OthersAfter(h, k, LastSeen(h, k).value)
  {
    var from := LastSeen(h, k).value;
    SeenAt(h, k);
    var i :| 0 <= i < |h| && h[i] == Seen(k, from);
    forall o | o in h && o.key != k && from <= o.at ensures from < o.at {
      var j :| 0 <= j < |h| && h[j] == o;
      assert i != j;
    }
  }

  /** With no two observations at one instant the answer is exactly that. */
  lemma NewExactly(h: seq<Seen>, tables: seq<Flows>, news: seq<bool>, max: nat, idle: nat, n: nat)
    requires Runs(h, tables, news, max, idle) && TimesIncrease(h) && max >= 1 && n < |h|
    ensures news[n] <==> Unknown(h[..n], h[n], max, idle)
  {
    NewBracketed(h, tables, news, max, idle, n);
    if LastSeen(h[..n], h[n].key).Some? {
      SinceIsAfter(h[..n], h[n].key);
    }
  }

  /** While fewer than `max` flows compete, the bounded table answers as an unbounded one would. */
  lemma ExactUntilCrowded(h: seq<Seen>, tables: seq<Flows>, news: seq<bool>, max: nat, idle: nat, n: nat)
    requires Runs(h, tables, news, max, idle) && TimesMonotone(h) && max >= 1 && n < |h|
    requires var last := LastSeen(h[..n], h[n].key);
      last.Some? ==> |OthersSince(h[..n], h[n].key, last.value)| < max
    ensures var last := LastSeen(h[..n], h[n].key);
      news[n] <==> last.None? || h[n].at - last.value >= idle
  {
    TableAgainstHistory(h, tables, news, max, idle, n);
  }

  /** Observing the same flow again at once finds it and changes nothing. */
  lemma ObserveAgain(before: Flows, key: FlowKey, now: nat, max: nat, idle: nat,
                     after: Flows, isNew: bool, again: Flows, isNew': bool)
    requires idle > 0
    requires Observed(before, key, now, max, idle, after, isNew)
    requires Observed(after, key, now, max, idle, again, isNew')
    ensures !isNew' && again == after
  {
    assert Kept(after, now, idle) == after;
    assert after[key := now] == after;
  }
}
