/** `top`: scoring every known client and ranking them in one fixed order. */
module Ranking {
  import opened Base
  import opened Client
  import opened Rules
  import opened Window
  import opened Counters
  import opened ClientWindows
  import opened Policy
  import opened Enforcer
  import opened Daemon

  datatype Observation = Observation(rule: RuleId, value: u64, limit: u64, action: Action)

  datatype Column = Column(rule: RuleId, span: Span, limit: u64, minThreshold: u64)

  datatype Row = Row(client: ClientId, best: u64, hot: bool, observations: seq<Observation>)

  datatype Query = Query(limit: nat, rule: Option<RuleId>, protocol: Option<string>, metric: Option<string>)

  datatype Entry = Entry(client: ClientId, action: EffectiveAction, wouldBe: Option<EffectiveAction>,
                         violations: seq<Observation>, hot: bool, stats: Option<Cumulative>)

  function ProtocolName(p: Protocol): string {
    match p
    case Http => "http"
    case WebSocket => "websocket"
    case Z21 => "z21"
    case Withrottle => "withrottle"
    case Udp => "udp"
    case Tcp => "tcp"
  }

  function MetricName(m: Metric): string {
    match m
    case Requests => "requests"
    case Bytes => "bytes"
    case Connections => "connections"
  }

  predicate Selected(q: Query, r: Rule) {
    && (q.rule.Some? ==> r.id == q.rule.value)
    && (q.protocol.Some? ==> ProtocolName(r.protocol) == q.protocol.value)
    && (q.metric.Some? ==> MetricName(r.metric) == q.metric.value)
  }

  function Select(q: Query, rules: seq<Rule>): seq<Rule> {
    if rules == [] then []
    else if Selected(q, rules[0]) then [rules[0]] + Select(q, rules[1..])
    else Select(q, rules[1..])
  }

  /** The names a filter is compared with. */
  predicate Named(r: Rule, protocol: string, metric: string) {
    && protocol == (match r.protocol
                    case Http => "http" case WebSocket => "websocket" case Z21 => "z21"
                    case Withrottle => "withrottle" case Udp => "udp" case Tcp => "tcp")
    && metric == (match r.metric case Requests => "requests" case Bytes => "bytes" case Connections => "connections")
  }

  /** A filter passes a rule when each name it gives is the rule's. */
  lemma SelectedExactly(q: Query, r: Rule, protocol: string, metric: string)
    requires Named(r, protocol, metric)
    ensures Selected(q, r) <==>
      q.rule in {None, Some(r.id)} && q.protocol in {None, Some(protocol)} && q.metric in {None, Some(metric)}
  {
  }

  /** Selecting rule by rule, in load order. */
  lemma {:induction false} SelectAppend(q: Query, rules: seq<Rule>, r: Rule)
    ensures Select(q, rules + [r]) == Select(q, rules) + if Selected(q, r) then [r] else []
  {
    if rules == [] {
      assert [r][1..] == [];
    } else {
      assert (rules + [r])[1..] == rules[1..] + [r];
      SelectAppend(q, rules[1..], r);
    }
  }

  function ColumnOf(r: Rule): Column {
    Column(r.id, r.span, r.limit, r.minThreshold)
  }

  function Columns(rules: seq<Rule>): seq<Column> {
    seq(|rules|, i requires 0 <= i < |rules| => ColumnOf(rules[i]))
  }

  function ValueOf(ws: WinMap, r: Rule): u64 {
    SumRule(ws, r.id, r.metric, Secs(r.span))
  }

  function Observe(ws: WinMap, r: Rule): Observation {
    Observation(r.id, ValueOf(ws, r), r.limit, r.action)
  }

  /** One observation per column, in column order, zeros included. */
  function Observations(ws: WinMap, rules: seq<Rule>): seq<Observation> {
    seq(|rules|, i requires 0 <= i < |rules| => Observe(ws, rules[i]))
  }

  /** The largest value over the rules, zero over none. */
  function Best(ws: WinMap, rules: seq<Rule>): (b: u64)
    ensures forall r :: r in rules ==> ValueOf(ws, r) <= b
    ensures b == 0 || exists r :: r in rules && ValueOf(ws, r) == b
  {
    if rules == [] then 0
    else Max(Best(ws, rules[..|rules| - 1]), ValueOf(ws, rules[|rules| - 1]))
  }

  predicate IsHot(ws: WinMap, r: Rule) {
    ValueOf(ws, r) >= r.minThreshold && ValueOf(ws, r) > 0
  }

  predicate Hot(ws: WinMap, rules: seq<Rule>) {
    exists r :: r in rules && IsHot(ws, r)
  }

  /** A client's row; one without windows observes zeros. */
  function RowOf(windows: map<ClientId, WinMap>, rules: seq<Rule>, c: ClientId): Row {
    var ws := WinsOf(windows, c);
    Row(c, Best(ws, rules), Hot(ws, rules), Observations(ws, rules))
  }

  /** Hot first, then the larger best value, then MAC, then IP. */
  predicate Before(a: Row, b: Row) {
    if a.hot != b.hot then a.hot
    else if a.best != b.best then a.best > b.best
    else ClientLess(a.client, b.client)
  }

  predicate Ranked(rows: seq<Row>) {
    forall i, j :: 0 <= i < j < |rows| ==> Before(rows[i], rows[j])
  }

  predicate DistinctClients(rows: seq<Row>) {
    forall i, j :: 0 <= i < j < |rows| ==> rows[i].client != rows[j].client
  }

  lemma BeforeTotal(a: Row, b: Row)
    requires a.client != b.client
    ensures Before(a, b) <==> !Before(b, a)
  {
    ClientTotal(a.client, b.client);
  }

  lemma BeforeTransitive(a: Row, b: Row, c: Row)
    requires Before(a, b) && Before(b, c)
    ensures Before(a, c)
  {
    if ClientLess(a.client, b.client) && ClientLess(b.client, c.client) {
      ClientTransitive(a.client, b.client, c.client);
    }
  }

  lemma BeforeIrreflexive(a: Row, b: Row)
    requires Before(a, b)
    ensures !Before(b, a) && a != b
  {
    ClientTotal(a.client, b.client);
  }

  // ---- sorting --------------------------------------------------------------------------------

  function Insert(r: Row, rows: seq<Row>): seq<Row> {
    if rows == [] then [r]
    else if Before(r, rows[0]) then [r] + rows
    else [rows[0]] + Insert(r, rows[1..])
  }

  /** What the library's sort makes of the scored rows. */
  function Sort(rows: seq<Row>): seq<Row> {
    if rows == [] then [] else Insert(rows[0], Sort(rows[1..]))
  }

  lemma {:induction false} InsertMembers(r: Row, rows: seq<Row>, x: Row)
    ensures x in Insert(r, rows) <==> x == r || x in rows
    ensures |Insert(r, rows)| == |rows| + 1
  {
    if rows != [] && !Before(r, rows[0]) {
      InsertMembers(r, rows[1..], x);
    }
  }

  lemma {:induction false} InsertRanked(r: Row, rows: seq<Row>)
    requires Ranked(rows) && forall x :: x in rows ==> x.client != r.client
    ensures Ranked(Insert(r, rows))
  {
    if rows != [] {
      if Before(r, rows[0]) {
        forall j | 0 < j < |rows| ensures Before(r, rows[j]) {
          BeforeTransitive(r, rows[0], rows[j]);
        }
      } else {
        BeforeTotal(r, rows[0]);
        InsertRanked(r, rows[1..]);
        var rest := Insert(r, rows[1..]);
        forall j | 0 <= j < |rest| ensures Before(rows[0], rest[j]) {
          InsertMembers(r, rows[1..], rest[j]);
          if rest[j] != r {
            var k :| 0 <= k < |rows[1..]| && rows[1..][k] == rest[j];
            assert rows[k + 1] == rest[j];
          }
        }
      }
    }
  }

  lemma {:induction false} SortMembers(rows: seq<Row>, x: Row)
    ensures x in Sort(rows) <==> x in rows
    ensures |Sort(rows)| == |rows|
  {
    if rows != [] {
      SortMembers(rows[1..], x);
      InsertMembers(rows[0], Sort(rows[1..]), x);
    }
  }

  lemma {:induction false} SortRanked(rows: seq<Row>)
    requires DistinctClients(rows)
    ensures Ranked(Sort(rows))
  {
    if rows != [] {
      SortRanked(rows[1..]);
      forall x | x in Sort(rows[1..]) ensures x.client != rows[0].client {
        SortMembers(rows[1..], x);
        var k :| 0 <= k < |rows[1..]| && rows[1..][k] == x;
        assert rows[k + 1] == x;
      }
      InsertRanked(rows[0], Sort(rows[1..]));
    }
  }

  lemma NoMembers(rows: seq<Row>)
    ensures rows == [] <==> forall x :: x !in rows
  {
    if rows != [] {
      assert rows[0] in rows;
    }
  }

  /** There is only one ranking of a set of rows. */
  lemma {:induction false} RankingUnique(a: seq<Row>, b: seq<Row>)
    requires Ranked(a) && Ranked(b)
    requires forall x :: x in a <==> x in b
    ensures a == b
  {
    if a == [] {
      NoMembers(a);
      NoMembers(b);
    } else {
      assert a[0] in b && b[0] in a;
      if a[0] != b[0] {
        var i :| 0 <= i < |b| && b[i] == a[0];
        var j :| 0 <= j < |a| && a[j] == b[0];
        BeforeIrreflexive(b[0], a[0]);
        assert false;
      }
      forall x ensures x in a[1..] <==> x in b[1..] {
        TailMembers(a, x);
        TailMembers(b, x);
      }
      RankingUnique(a[1..], b[1..]);
      assert a == [a[0]] + a[1..] && b == [b[0]] + b[1..];
    }
  }

  lemma TailMembers(a: seq<Row>, x: Row)
    requires a != [] && Ranked(a)
    ensures x in a[1..] <==> x in a && x != a[0]
  {
    if x in a[1..] {
      var k :| 0 <= k < |a[1..]| && a[1..][k] == x;
      assert Before(a[0], a[k + 1]);
      BeforeIrreflexive(a[0], x);
    }
  }

  // ---- the query --------------------------------------------------------------------------------

  /** Every client with windows, a policy entry or counters. */
  function Known(windows: map<ClientId, WinMap>, policies: Policies, stats: ClientCounts): set<ClientId> {
    windows.Keys + policies.Keys + stats.Keys
  }

  /** Each of the clients once, in rank order, with its own row. */
  ghost predicate IsRanking(rows: seq<Row>, windows: map<ClientId, WinMap>, rules: seq<Rule>, clients: set<ClientId>) {
    && Ranked(rows)
    && forall x :: x in rows <==> x.client in clients && x == RowOf(windows, rules, x.client)
  }

  function Truncate(rows: seq<Row>, limit: nat): seq<Row> {
    if 0 < limit < |rows| then rows[..limit] else rows
  }

  /** The answer does not depend on the order in which the maps were walked. */
  lemma RankingDetermined(a: seq<Row>, b: seq<Row>, windows: map<ClientId, WinMap>, rules: seq<Rule>,
                      clients: set<ClientId>)
    requires IsRanking(a, windows, rules, clients) && IsRanking(b, windows, rules, clients)
    ensures a == b
  {
    RankingUnique(a, b);
  }

  /** A ranking lists every client exactly once, and what a limit cuts off ranks below what it keeps. */
  lemma RankingListsOnce(rows: seq<Row>, windows: map<ClientId, WinMap>, rules: seq<Rule>, clients: set<ClientId>,
                      limit: nat)
    requires IsRanking(rows, windows, rules, clients)
    ensures |rows| == |clients|
    ensures forall c :: c in clients ==> RowOf(windows, rules, c) in rows
    ensures DistinctClients(rows)
    ensures forall x, y :: x in Truncate(rows, limit) && y in rows && y !in Truncate(rows, limit) ==> Before(x, y)
    ensures |Truncate(rows, limit)| == (if limit == 0 || |clients| < limit then |clients| else limit)
    ensures Truncate(rows, limit) <= rows
  {
    forall i, j | 0 <= i < j < |rows| ensures rows[i].client != rows[j].client {
      BeforeIrreflexive(rows[i], rows[j]);
      assert rows[i] in rows && rows[j] in rows;
    }
    forall c ensures c in clients <==> exists i :: 0 <= i < |rows| && rows[i].client == c {
      if c in clients {
        assert RowOf(windows, rules, c) in rows;
      }
      assert forall i :: 0 <= i < |rows| ==> rows[i] in rows;
    }
    ListSize(rows, clients);
  }

  lemma {:induction false} ListSize(rows: seq<Row>, clients: set<ClientId>)
    requires DistinctClients(rows)
    requires forall c :: c in clients <==> exists i :: 0 <= i < |rows| && rows[i].client == c
    ensures |rows| == |clients|
  {
    if rows == [] {
      assert clients == {};
    } else {
      var k := |rows| - 1;
      var front, c := rows[..k], rows[k].client;
      forall d ensures d in clients - {c} <==> exists i :: 0 <= i < |front| && front[i].client == d {
        if d in clients - {c} {
          var i :| 0 <= i < |rows| && rows[i].client == d;
          assert front[i].client == d;
        }
      }
      ListSize(front, clients - {c});
    }
  }

  /** Scores a client: best value, whether any rule is hot, and the observations. */
  method ScoreClient(win: RuleWindows, rules: seq<Rule>) returns (best: u64, hot: bool, observations: seq<Observation>)
    requires win.Valid()
    ensures best == Best(win.wins, rules) && hot == Hot(win.wins, rules)
    ensures observations == Observations(win.wins, rules)
  {
    hide Best, Hot, Observations, SumRule;
    best, hot, observations := 0, false, [];
    assert Best(win.wins, []) == 0 && !Hot(win.wins, []) && Observations(win.wins, []) == [] by {
      ScoreNone(win.wins);
    }
    for i := 0 to |rules|
      invariant best == Best(win.wins, rules[..i]) && hot == Hot(win.wins, rules[..i])
      invariant observations == Observations(win.wins, rules[..i])
    {
      var r := rules[i];
      var value := win.Sum(r.id, r.metric, Secs(r.span));
      best := Max(best, value);
      ScoreStep(win.wins, rules, i);
      if value >= r.minThreshold && value > 0 {
        hot := true;
      }
      observations := observations + [Observation(r.id, value, r.limit, r.action)];
    }
    assert rules[..|rules|] == rules;
  }

  lemma ScoreNone(ws: WinMap)
    ensures Best(ws, []) == 0 && !Hot(ws, []) && Observations(ws, []) == []
  {
  }

  lemma ScoreStep(ws: WinMap, rules: seq<Rule>, i: nat)
    requires i < |rules|
    ensures Best(ws, rules[..i + 1]) == Max(Best(ws, rules[..i]), ValueOf(ws, rules[i]))
    ensures Hot(ws, rules[..i + 1]) <==> Hot(ws, rules[..i]) || IsHot(ws, rules[i])
    ensures Observations(ws, rules[..i + 1]) == Observations(ws, rules[..i]) + [Observe(ws, rules[i])]
  {
    hide *;
    BestStep(ws, rules, i);
    HotStep(ws, rules, i);
    ObservationsStep(ws, rules, i);
  }

  lemma BestStep(ws: WinMap, rules: seq<Rule>, i: nat)
    requires i < |rules|
    ensures Best(ws, rules[..i + 1]) == Max(Best(ws, rules[..i]), ValueOf(ws, rules[i]))
  {
    hide ValueOf, Max;
    assert rules[..i + 1][..i] == rules[..i];
  }

  lemma ObservationsStep(ws: WinMap, rules: seq<Rule>, i: nat)
    requires i < |rules|
    ensures Observations(ws, rules[..i + 1]) == Observations(ws, rules[..i]) + [Observe(ws, rules[i])]
  {
    hide Observe;
  }

  lemma HotStep(ws: WinMap, rules: seq<Rule>, i: nat)
    requires i < |rules|
    ensures Hot(ws, rules[..i + 1]) <==> Hot(ws, rules[..i]) || IsHot(ws, rules[i])
  {
    hide IsHot;
    assert forall x :: x in rules[..i + 1] <==> x in rules[..i] || x == rules[i];
  }

  /** A rule without a window sums to zero. */
  lemma {:induction false} NoWindows(rules: seq<Rule>)
    ensures Best(map[], rules) == 0 && !Hot(map[], rules)
    ensures Observations(map[], rules) == ZeroObservations(rules)
  {
    if rules != [] {
      NoWindows(rules[..|rules| - 1]);
    }
  }

  function ZeroObservations(rules: seq<Rule>): seq<Observation> {
    seq(|rules|, i requires 0 <= i < |rules| => Observation(rules[i].id, 0, rules[i].limit, rules[i].action))
  }

  /** The rows scored so far: one for each client in `done`. */
  ghost predicate Scored(rows: seq<Row>, windows: map<ClientId, WinMap>, rules: seq<Rule>, done: set<ClientId>) {
    && DistinctClients(rows)
    && forall x :: x in rows <==> x.client in done && x == RowOf(windows, rules, x.client)
  }

  lemma ScoredAppend(rows: seq<Row>, windows: map<ClientId, WinMap>, rules: seq<Rule>, done: set<ClientId>, c: ClientId)
    requires Scored(rows, windows, rules, done) && c !in done
    ensures Scored(rows + [RowOf(windows, rules, c)], windows, rules, done + {c})
  {
    forall i | 0 <= i < |rows| ensures rows[i].client != c {
      assert rows[i] in rows;
    }
  }

  lemma SortedIsRanking(rows: seq<Row>, windows: map<ClientId, WinMap>, rules: seq<Rule>, done: set<ClientId>)
    requires Scored(rows, windows, rules, done)
    ensures IsRanking(Sort(rows), windows, rules, done)
  {
    SortRanked(rows);
    forall x ensures x in Sort(rows) <==> x.client in done && x == RowOf(windows, rules, x.client) {
      SortMembers(rows, x);
    }
  }

  /** Scores every client that has windows, in whatever order the table yields them. */
  method ScoreWindows(t: WindowTable, rules: seq<Rule>) returns (rows: seq<Row>)
    requires t.Valid()
    ensures Scored(rows, t.wins, rules, t.wins.Keys)
  {
    hide RowOf, Scored;
    rows := [];
    var todo := t.table.Keys;
    assert Scored(rows, t.wins, rules, {}) by {
      ScoredNone(t.wins, rules);
    }
    assert t.wins.Keys - todo == {};
    while todo != {}
      invariant todo <= t.wins.Keys
      invariant Scored(rows, t.wins, rules, t.wins.Keys - todo)
      decreases todo
    {
      var c :| c in todo;
      ghost var done := t.wins.Keys - todo;
      var row := ScoreOne(t, rules, c);
      ScoredAppend(rows, t.wins, rules, done, c);
      rows := rows + [row];
      todo := todo - {c};
      assert t.wins.Keys - todo == done + {c};
    }
    assert t.wins.Keys - todo == t.wins.Keys;
  }

  method ScoreOne(t: WindowTable, rules: seq<Rule>, c: ClientId) returns (row: Row)
    requires t.Valid() && c in t.table
    ensures row == RowOf(t.wins, rules, c)
  {
    assert t.Owns(c);
    var best, hot, observations := ScoreClient(t.table[c], rules);
    row := Row(c, best, hot, observations);
  }

  lemma ScoredNone(windows: map<ClientId, WinMap>, rules: seq<Rule>)
    ensures Scored([], windows, rules, {})
  {
  }

  /** Adds a zero row for each client not scored yet. */
  method ScoreRest(rows: seq<Row>, seen: set<ClientId>, keys: set<ClientId>, rules: seq<Rule>,
                   ghost windows: map<ClientId, WinMap>)
    returns (rows': seq<Row>, seen': set<ClientId>)
    requires Scored(rows, windows, rules, seen) && windows.Keys <= seen
    ensures seen' == seen + keys && Scored(rows', windows, rules, seen')
  {
    hide Scored;
    rows', seen' := rows, seen;
    var zeros := ZeroObservations(rules);
    var todo := keys;
    while todo != {}
      invariant todo <= keys && seen' == seen + (keys - todo)
      invariant Scored(rows', windows, rules, seen')
      decreases todo
    {
      var c :| c in todo;
      if c !in seen' {
        NoWindows(rules);
        ScoredAppend(rows', windows, rules, seen', c);
        rows', seen' := rows' + [Row(c, 0, false, zeros)], seen' + {c};
      }
      todo := todo - {c};
    }
  }

  function EntryOf(s: State, stats: ClientCounts, row: Row, now: nat): Entry {
    var effective := Merge(PolicyOf(s.policies, row.client), now);
    Entry(row.client, effective,
      if row.client in s.wouldBe then Some(s.wouldBe[row.client])
      else if s.mode == Permissive then Some(effective)
      else None,
      row.observations, row.hot, Get(stats, row.client))
  }

  function Entries(s: State, stats: ClientCounts, rows: seq<Row>, now: nat): seq<Entry> {
    seq(|rows|, i requires 0 <= i < |rows| => EntryOf(s, stats, rows[i], now))
  }

  /** Scores, ranks, cuts and annotates. */
  method Answer(d: DaemonState, q: Query, now: nat)
    returns (entries: seq<Entry>, columns: seq<Column>, ghost ranking: seq<Row>)
    requires d.Valid()
    ensures columns == Columns(Select(q, d.live.rules))
    ensures IsRanking(ranking, d.windows.wins, Select(q, d.live.rules),
      Known(d.windows.wins, d.policies, d.counters.byClient))
    ensures entries == Entries(d.Abs(EMPTY_MEMORY), d.counters.byClient, Truncate(ranking, q.limit), now)
  {
    hide WindowTable.Valid, Scored, RowOf, IsRanking, Sort, Select, Columns, Merge;
    var rules := Select(q, d.live.rules);
    columns := Columns(rules);
    var rows := ScoreWindows(d.windows, rules);
    assert d.windows.table.Keys == d.windows.wins.Keys by {
      TableKeys(d.windows);
    }
    var seen := d.windows.table.Keys;
    rows, seen := ScoreRest(rows, seen, d.policies.Keys, rules, d.windows.wins);
    rows, seen := ScoreRest(rows, seen, d.counters.byClient.Keys, rules, d.windows.wins);
    SortedIsRanking(rows, d.windows.wins, rules, seen);
    var sorted := Sort(rows);
    ranking := sorted;
    var kept := Truncate(sorted, q.limit);
    entries := [];
    for i := 0 to |kept|
      invariant |entries| == i
      invariant forall k :: 0 <= k < i ==> entries[k] == EntryOf(d.Abs(EMPTY_MEMORY), d.counters.byClient, kept[k], now)
    {
      var c := kept[i].client;
      var effective := if c in d.policies then Merge(d.policies[c], now) else PassAll;
      var wouldBe := if c in d.wouldBe then Some(d.wouldBe[c])
                     else if d.mode == Permissive then Some(effective) else None;
      entries := entries +
        [Entry(c, effective, wouldBe, kept[i].observations, kept[i].hot, Get(d.counters.byClient, c))];
    }
  }

  /**
   * The query: the known clients, ranked, the first `limit` of them (all for zero),
   * each with observations that line up with the columns.
   */
  method TopClients(d: DaemonState, q: Query, now: nat) returns (entries: seq<Entry>, columns: seq<Column>)
    requires d.Valid()
    ensures columns == Columns(Select(q, d.live.rules))
    ensures |columns| == |Select(q, d.live.rules)| && forall i :: 0 <= i < |columns| ==>
      var r := Select(q, d.live.rules)[i]; columns[i] == Column(r.id, r.span, r.limit, r.minThreshold)
    ensures exists ranking: seq<Row> ::
      && IsRanking(ranking, d.windows.wins, Select(q, d.live.rules),
           Known(d.windows.wins, d.policies, d.counters.byClient))
      && entries == Entries(d.Abs(EMPTY_MEMORY), d.counters.byClient, Truncate(ranking, q.limit), now)
      && |entries| <= |ranking| && forall k :: 0 <= k < |entries| ==> entries[k].client == ranking[k].client
    ensures forall e :: e in entries ==> LinedUp(e.violations, columns)
    ensures var known := |d.windows.wins.Keys + d.policies.Keys + d.counters.byClient.Keys|;
      |entries| == if q.limit == 0 || known < q.limit then known else q.limit
    ensures forall k :: 0 <= k < |entries| ==> Tells(entries[k], d.Abs(EMPTY_MEMORY), d.counters.byClient, now)
    ensures forall k :: 0 <= k < |entries| ==> Observes(entries[k], d.windows.wins, Select(q, d.live.rules))
    ensures forall j, k :: 0 <= j < k < |entries| && entries[k].hot ==> entries[j].hot
  {
    hide WindowTable.Valid, IsRanking, Select, LinedUp, Merge, Entries, Tells, Observes, Truncate;
    ghost var ranking;
    entries, columns, ranking := Answer(d, q, now);
    AnswerSays(d.Abs(EMPTY_MEMORY), d.counters.byClient, ranking, d.windows.wins, Select(q, d.live.rules),
      Known(d.windows.wins, d.policies, d.counters.byClient), q.limit, now);
  }

  /** What an entry says of its client's policy, would-be action and counters. */
  predicate Tells(e: Entry, s: State, stats: ClientCounts, now: nat) {
    && e.action == (if e.client in s.policies then Merge(s.policies[e.client], now) else PassAll)
    && e.wouldBe == (if e.client in s.wouldBe then Some(s.wouldBe[e.client])
                     else if s.mode == Permissive then Some(e.action) else None)
    && e.stats == (if e.client in stats then Some(stats[e.client]) else None)
  }

  /** The sum a rule sees in a client's windows. */
  function Seen(windows: map<ClientId, WinMap>, c: ClientId, r: Rule): u64 {
    if c in windows && r.id in windows[c] then SumWin(windows[c][r.id], r.metric, if r.span == PerSecond then 1 else 60)
    else 0
  }

  predicate Exceeds(value: u64, r: Rule) {
    value > 0 && value >= r.minThreshold
  }

  /** Its values rule by rule, and hot when one is positive and at least its rule's threshold. */
  predicate Observes(e: Entry, windows: map<ClientId, WinMap>, rules: seq<Rule>) {
    && |e.violations| == |rules|
    && (forall i :: 0 <= i < |rules| ==>
          e.violations[i]
            == Observation(rules[i].id, Seen(windows, e.client, rules[i]), rules[i].limit, rules[i].action))
    && (e.hot <==> exists i :: 0 <= i < |rules| && Exceeds(Seen(windows, e.client, rules[i]), rules[i]))
  }

  /** One observation per column, each of the column's rule. */
  predicate LinedUp(observations: seq<Observation>, columns: seq<Column>) {
    && |observations| == |columns|
    && forall i :: 0 <= i < |columns| ==>
         observations[i].rule == columns[i].rule && observations[i].limit == columns[i].limit
  }

  lemma TableKeys(t: WindowTable)
    requires t.Valid()
    ensures t.table.Keys == t.wins.Keys
  {
  }

  lemma KeptLineUp(ranking: seq<Row>, windows: map<ClientId, WinMap>, rules: seq<Rule>, clients: set<ClientId>,
                   limit: nat)
    requires IsRanking(ranking, windows, rules, clients)
    ensures forall k :: 0 <= k < |Truncate(ranking, limit)| ==>
      LinedUp(Truncate(ranking, limit)[k].observations, Columns(rules))
  {
    var kept := Truncate(ranking, limit);
    forall k | 0 <= k < |kept| ensures kept[k] == RowOf(windows, rules, kept[k].client) {
      assert kept[k] == ranking[k] && ranking[k] in ranking;
    }
  }

  lemma RowSays(windows: map<ClientId, WinMap>, rules: seq<Rule>, c: ClientId)
    ensures var row := RowOf(windows, rules, c);
      && row.client == c && |row.observations| == |rules|
      && (forall i :: 0 <= i < |rules| ==>
            row.observations[i]
              == Observation(rules[i].id, Seen(windows, c, rules[i]), rules[i].limit, rules[i].action))
      && (row.hot <==> exists i :: 0 <= i < |rules| && Exceeds(Seen(windows, c, rules[i]), rules[i]))
      && (forall i :: 0 <= i < |rules| ==> Seen(windows, c, rules[i]) <= row.best)
      && (row.best == 0 || exists i :: 0 <= i < |rules| && Seen(windows, c, rules[i]) == row.best)
  {
    hide SumWin;
    var ws := WinsOf(windows, c);
    forall r: Rule ensures ValueOf(ws, r) == Seen(windows, c, r) {
    }
    assert forall i :: 0 <= i < |rules| ==> rules[i] in rules;
  }

  /** In a ranking no cold row precedes a hot one, among equals values never rise, then clients ascend. */
  lemma RankingSays(rows: seq<Row>, j: nat, k: nat)
    requires Ranked(rows) && j < k < |rows|
    ensures rows[k].hot ==> rows[j].hot
    ensures rows[j].hot == rows[k].hot ==> rows[j].best >= rows[k].best
    ensures rows[j].hot == rows[k].hot && rows[j].best == rows[k].best ==> ClientLess(rows[j].client, rows[k].client)
  {
  }

  lemma EntrySays(s: State, stats: ClientCounts, windows: map<ClientId, WinMap>, rules: seq<Rule>, c: ClientId,
                  now: nat)
    ensures var e := EntryOf(s, stats, RowOf(windows, rules, c), now);
      Tells(e, s, stats, now) && Observes(e, windows, rules)
  {
    hide RowOf;
    RowSays(windows, rules, c);
  }

  lemma KeptRowsSay(ranking: seq<Row>, windows: map<ClientId, WinMap>, rules: seq<Rule>, clients: set<ClientId>,
                    limit: nat)
    requires IsRanking(ranking, windows, rules, clients)
    ensures var kept := Truncate(ranking, limit);
      && (forall k :: 0 <= k < |kept| ==> k < |ranking| && kept[k] == ranking[k])
      && (forall k :: 0 <= k < |kept| ==> kept[k] == RowOf(windows, rules, kept[k].client))
      && (forall j, k :: 0 <= j < k < |kept| && kept[k].hot ==> kept[j].hot)
  {
    var kept := Truncate(ranking, limit);
    forall k | 0 <= k < |kept| ensures kept[k] == RowOf(windows, rules, kept[k].client) {
      assert kept[k] == ranking[k] && ranking[k] in ranking;
    }
  }

  /** What the answer says, without the functions that made it. */
  lemma AnswerSays(s: State, stats: ClientCounts, ranking: seq<Row>, windows: map<ClientId, WinMap>, rules: seq<Rule>,
                   clients: set<ClientId>, limit: nat, now: nat)
    requires IsRanking(ranking, windows, rules, clients)
    ensures var entries := Entries(s, stats, Truncate(ranking, limit), now);
      && |entries| == (if limit == 0 || |clients| < limit then |clients| else limit) && |entries| <= |ranking|
      && (forall k :: 0 <= k < |entries| ==> entries[k].client == ranking[k].client)
      && (forall k :: 0 <= k < |entries| ==> Tells(entries[k], s, stats, now))
      && (forall k :: 0 <= k < |entries| ==> Observes(entries[k], windows, rules))
      && (forall e :: e in entries ==> LinedUp(e.violations, Columns(rules)))
      && (forall j, k :: 0 <= j < k < |entries| && entries[k].hot ==> entries[j].hot)
  {
    hide IsRanking, RowOf, Tells, Observes, LinedUp, Merge, Columns;
    var kept := Truncate(ranking, limit);
    var entries := Entries(s, stats, kept, now);
    RankingListsOnce(ranking, windows, rules, clients, limit);
    KeptRowsSay(ranking, windows, rules, clients, limit);
    KeptLineUp(ranking, windows, rules, clients, limit);
    forall k | 0 <= k < |entries| ensures Tells(entries[k], s, stats, now) && Observes(entries[k], windows, rules) {
      EntrySays(s, stats, windows, rules, kept[k].client, now);
    }
  }
}
