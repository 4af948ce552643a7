# microwaf: a verified model of the rate-limiting control loop

microwaf counts packets per client and rule, turns the counters into sliding-window
sums once a second, and throttles or blocks the clients that exceed a rule's limit.
Operators can throttle or block by hand over a socket; those manual overlays are saved
and come back after a restart. This project models that loop, from one packet to one
enforcer entry, and proves what it guarantees over whole runs.

Time is a natural number of nanoseconds on a monotone clock. Counters are 64-bit and
saturate. The sniffer, the decision loop, the socket handlers, configuration reloads and
restarts may be interleaved in any order; a reload may also land between the two reads of
the configuration that a tick makes.

## How it is arranged

Code that updates state in place is a class or a method with loops, proved against a
function on values; the theorems are about those functions and about runs of them.

| file | part of the system |
|---|---|
| `Base`, `Client`, `Rules` | machine numbers, client identity and its order, rules and the rule set |
| `Window`, `WindowHistory`, `WindowExact` | the ring of sixty buckets; what it remembers, in steps and in seconds; exactly when the two agree |
| `Counters`, `TickWindows`, `ClientWindows` | cumulative counters; one window over a sequence of ticks; all windows of all clients |
| `Engine`, `Policy`, `Enforcer`, `PolicyStore` | violations, merging and expiry, the enforcer's map and its byte-keyed mirror, the policy store on Redis and in memory |
| `Daemon`, `Overlays` | the daemon's whole state, the tick, the handlers, start-up; the manual requests as an algebra |
| `Runs`, `History`, `Cooldowns`, `Rates`, `Restarts`, `SlowTicks` | whole runs: agreement, enforcement as history, how long a breach counts, bounds on rates, memory against store, a run of slow ticks |
| `Flow`, `Z21`, `Dispatch`, `Connections`, `Shares`, `Ranking` | the flow table, the Z21 splitter, packet dispatch, Connections rules over whole traces, what a packet is worth to a rule, the `top` ranking |
| `Traffic` | whole runs fed by packets, with one rule and with all |
| `Locks` | the order in which threads take the mutexes |

The chain that carries the main result: `Window.SlidingWindow` holds a `Win`;
`TickWindows.ReadIsDifference` says a `Win` fed by ticks reads as the difference of two
counter snapshots; `Runs.RunFollows` says every window of every run is so fed;
`History.ViolationsAreBreaches` and `History.AutoIsHistory` lift that to violations and to
automatic policies; `Runs.EnforcerAgrees` and `History.EnforcementIsHistory` to what is
enforced. `Daemon.DaemonState.Tick` is the loop that does it.

## What is false of the code

Each has a lemma with a concrete input and one with the exact condition under which the
promise holds.

- The comments on the rule's window (rule.rs:123, rule.rs:126) speak of the last second and
  the last 60 seconds. The window counts in buckets, and every advance discards its
  sub-second remainder. Inputs: for the second `WindowExact.BucketForgetsEarly`, for the
  sixty `WindowExact.BucketsOutliveSeconds` and, as a run of the daemon,
  `SlowTicks.MinuteOutlivesItself`. Condition for each of the two, on the times alone:
  `WindowExact.RuleSpansExactly` (`WindowExact.SpanExactly` for any n,
  `WindowExact.ExactExactly` for all n at once). Bound that always holds: n buckets reach back
  between n-1 and 2n-1 seconds, `WindowHistory.SumIsBracketedInTime`. A per-second rule is exact
  when operations never come less than a second apart: `WindowExact.SecondExactWhenApart`.
- ARCHITECTURE.md:273-276 says overlapping rules are counted independently. That is true of
  Requests and Bytes. Connections rules share one flow table, which is asked once per rule and
  tells only the first that a flow is new, and in which the flows of one rule push out those of
  another. Inputs: `Dispatch.SecondConnectionsRuleMissesFlow`, `Connections.OtherRulesRecount`.
  Conditions: for one packet, given the answers, `Dispatch.ConnectionsIndependentExactly`; for a
  trace, on rules, packets and times alone, `Connections.UndisturbedExactly`; and simple to meet,
  also when packets share an instant, `Connections.FirstAndRoomyCountsAlone`.
- The first line of the comment on `merge_policy` (policy.rs:163) says a live manual policy wins
  over the automatic one; the code, like the next line, takes the stronger. Input:
  `Policy.AutoBlockBeatsManualThrottle`. Condition: `Policy.ManualWinsExactly`.
- ARCHITECTURE.md:246 calls a drop rate a percentage. Rules are checked, a manual throttle's rate
  is not. Input: `Rates.ExcessIsEnforced`. Condition: `Rates.ExcessExactly`.
- ARCHITECTURE.md:523-524 says a temporary policy is dropped on load once its time to live is
  over. That holds of the time to live of its Redis entry, which is at least a second from the
  last save; a policy that is itself over may still be loaded, and a throttle before the next tick
  brings its block back. Input: `Restarts.RestartThenThrottleRevives`. Conditions:
  `PolicyStore.OutlivesExactly` for being loaded, `Restarts.RestartRevivesExactly` for the block.
- Two socket handlers at once may deadlock, `top` against `list_clients`. Input:
  `Locks.TopAgainstList`. Condition: `Locks.JamsExactly`.

## Model

| member | source | states |
|---|---|---|
| Client.ClientTotal | crates/mw-core/src/client.rs:10-16 | MAC then IP orders clients totally: of two clients exactly one is equal, before or after |
| Client.ClientTransitive | crates/mw-core/src/client.rs:10-16 | that order is transitive, so a ranking by it is an order |
| Client.ClientOrder | crates/mw-core/src/client.rs:10-16 | the order is ascending by MAC, then by address with IPv4 before IPv6: the smaller byte where two first differ comes first |
| Rules.AcceptedExactly | crates/mw-core/src/rule.rs:98-235 | a single rule is accepted if and only if a parsed protocol names ports and counts requests or bytes, TCP and UDP count connections or bytes, and a throttle is at most 100 |
| Rules.NewRuleSet | crates/mw-core/src/rule.rs:247-264 | accepts exactly at most 256 well-formed rules with distinct ids, in load order; otherwise reports the first rule that cannot follow those before it, with its reason |
| Window.SlidingWindow.constructor | crates/mw-core/src/window.rs:54-60 | sixty empty buckets, last advanced now |
| Window.SlidingWindow.Advance | crates/mw-core/src/window.rs:63-74 | the ring seen newest first is shifted by the whole seconds elapsed, at most sixty, and restarts its clock at now |
| Window.SlidingWindow.Add | crates/mw-core/src/window.rs:77-80 | advances, then adds to the newest bucket and to no other |
| Window.SlidingWindow.Sum | crates/mw-core/src/window.rs:84-92 | saturating total of the n newest buckets, n clamped to 1..60, whatever the cursor |
| Window.SpansClamp | crates/mw-core/src/window.rs:85 | a sum over no seconds is one over one bucket, over more than sixty one over sixty |
| Window.StepShifts | crates/mw-core/src/window.rs:69-72 | moving the cursor modulo 60 and clearing its cell drops exactly the oldest bucket |
| Window.RuleWindows.Ensure | crates/mw-core/src/window.rs:104-108 | a rule gets a window when it first counts, and rules never share cells |
| Window.RuleWindows.Add | crates/mw-core/src/window.rs:104-109 | adds to one rule's window, creating it at now; all others keep their contents |
| Window.RuleWindows.Sum | crates/mw-core/src/window.rs:113-115 | the rule's sum, zero without a window |
| Window.RuleWindows.AdvanceAll | crates/mw-core/src/window.rs:118-122 | every window is advanced once, in whatever order the map yields them |
| WindowHistory.RunHolds | crates/mw-core/src/window.rs:63-80 | after any operations bucket i holds exactly the deltas the uncapped log dates i steps back, saturated |
| WindowHistory.RingRefinesLog | crates/mw-core/src/window.rs:63-92 | for any advances and additions, jumps of a minute or more included, a sum over n buckets equals the exact total of an unbounded log's deltas less than n steps old, saturated once |
| WindowHistory.RecordTimely | crates/mw-core/src/window.rs:63-74 | an entry counted k steps old is more than k-1 and at most 2k seconds older than the last advance |
| WindowHistory.CountedWithin | crates/mw-core/src/window.rs:77-92 | the log neither loses nor invents an addition: what it counts in n steps lies between the additions since two moments |
| WindowHistory.SumIsBracketedInTime | crates/mw-core/src/window.rs:63-92 | on a monotone clock the sum over n buckets has every delta at most n-1 seconds old and none 2n-1 seconds old or older |
| WindowHistory.WholeSecondsAreExact | crates/mw-core/src/window.rs:63-92 | the special case in which nothing is dropped: operations a whole number of seconds apart make n buckets exactly the last n seconds |
| WindowExact.CountedIsSum | crates/mw-core/src/window.rs:63-80 | what is counted between two ages is exactly what was added by the operations of those ages, ages being a function of the times |
| WindowExact.SpanExactly | crates/mw-core/src/window.rs:63-92 | for given times and any n of 1..60: n buckets are the last n seconds whatever amounts are added, if and only if every addition is counted out of the n buckets just when it is n seconds old |
| WindowExact.RuleSpansExactly | crates/mw-core/src/rule.rs:122-139 | that for the two spans rules have, one second and sixty |
| WindowExact.ExactExactly | crates/mw-core/src/window.rs:63-92 | for all n at once: if and only if for each addition the seconds counted and the seconds passed differ by less than one (sixty standing for more) |
| WindowExact.SecondExactWhenApart | crates/mw-core/src/window.rs:63-92 | when consecutive operations are equal in time or at least a second apart, one bucket is exactly the last second |
| WindowExact.BucketsOutliveSeconds | crates/mw-core/src/window.rs:73 | for n from 3 to 60: advanced every 1.9 seconds, n buckets still count a delta 1.9 times n-1 seconds old; for the sixty of a per-minute rule 112 seconds |
| WindowExact.BucketForgetsEarly | crates/mw-core/src/window.rs:63-74 | a concrete delta that the one bucket of a per-second rule has lost after a tenth of a second |
| Counters.CounterStore.AddToRule | crates/mw-core/src/counters.rs:67-78 | the first critical section adds, saturating, to one (client, rule) and changes nothing else |
| Counters.CounterStore.AddToClient | crates/mw-core/src/counters.rs:79-85 | the second adds to the client's totals and changes nothing else |
| Counters.CounterStore.Add | crates/mw-core/src/counters.rs:66-86 | both maps are updated by the same addition |
| Counters.CounterStore.AddWsConnection | crates/mw-core/src/counters.rs:60-64 | counts a handshake for the client and nothing else |
| Counters.RuleCountersConserve | crates/mw-core/src/counters.rs:66-78 | at any point a rule's counter is min(u64::MAX, all that was added to it) |
| Counters.ClientCountersConserve | crates/mw-core/src/counters.rs:79-85 | a client's counter is min(u64::MAX, all added over its rules, less the one addition whose second half is pending) |
| Counters.HandshakesConserve | crates/mw-core/src/counters.rs:60-64 | the handshake counter is the number of handshakes, saturated |
| Counters.CountersConserve | crates/mw-core/src/counters.rs:66-98 | all three at every point a reader between critical sections can see |
| Counters.CountersGrow | crates/mw-core/src/counters.rs:60-98 | no rule counter, client counter or handshake count ever goes down |
| TickWindows.LastFallen | crates/mw-core/src/window.rs:63-92 | the latest tick whose counted age is at least n; every later one is younger |
| TickWindows.TickTells | crates/microwaf/src/decision.rs:55-72 | feeding the deltas keeps: bucket i is the difference of two fallen counter snapshots |
| TickWindows.StartTells | crates/microwaf/src/decision.rs:59-71 | also when the first delta creates the window |
| TickWindows.WinTells | crates/microwaf/src/decision.rs:50-73 | a window exists once its counter has moved, and then tells the whole history of snapshots |
| TickWindows.TotalTelescopes | crates/mw-core/src/window.rs:84-92 | the saturating total over n buckets is exact and telescopes to one difference of snapshots |
| TickWindows.ReadIsDifference | crates/microwaf/src/decision.rs:41-74 | the value read over n buckets is the counter now less the counter at the last tick fallen out of them, zero if none |
| TickWindows.WindowsNeverSaturate | crates/mw-core/src/window.rs:31-37 | all sixty buckets together never exceed the counter, so no addition or sum in a window saturates, even once counters do |
| TickWindows.AgeInTime | crates/mw-core/src/window.rs:63-74 | a tick counted k steps old is more than k-1 and at most 2k seconds older than the window's last advance |
| TickWindows.FallenIsStarted | crates/mw-core/src/window.rs:104-108 | a tick that has fallen out is never earlier than the window's creation |
| TickWindows.ReadIsBracketedInTime | crates/microwaf/src/decision.rs:41-74 | end to end in seconds: all first seen by a tick at most n-1 seconds ago is counted, nothing seen by one 2n-1 or more seconds ago |
| ClientWindows.FeedClient | crates/microwaf/src/decision.rs:55-72 | visiting the snapshot's keys in any order feeds each of the client's rules its three deltas once |
| ClientWindows.FedOne | crates/microwaf/src/decision.rs:55-72 | one more key in the loop extends the result by exactly that key's deltas |
| ClientWindows.WindowTable.Observe | crates/microwaf/src/decision.rs:50-72 | the client's windows become those of the tick; no other client's change |
| ClientWindows.WindowTable.Evaluate | crates/mw-core/src/rule.rs:309-324 | the loop yields the rules whose sum exceeds their limit, in load order |
| Engine.ExceedingExactly | crates/mw-core/src/rule.rs:313-322 | a violation is reported if and only if some loaded rule's value is above its limit, with that rule's id, value, limit and action |
| Engine.ExceedingAppend | crates/mw-core/src/rule.rs:309-324 | rules are judged one by one, in order, independently of one another |
| Engine.ExceedingAgrees | crates/mw-core/src/rule.rs:309-324 | nothing but the loaded rules' own observed values matters |
| Policy.Merge | crates/mw-core/src/policy.rs:166-198 | the effective action is the stronger of what the live manual overlay and the live automatic policy ask for by themselves |
| Policy.MergeFades | crates/mw-core/src/policy.rs:166-198 | with no event in between, a policy only weakens as time passes |
| Policy.ManualWinsExactly | crates/mw-core/src/policy.rs:163-198 | a live manual policy alone decides if and only if the rules ask for nothing stronger at that moment |
| Policy.AutoBlockBeatsManualThrottle | crates/mw-core/src/policy.rs:174-178 | a live manual throttle of 10 that an automatic block overrides |
| Policy.FirstStrongest | crates/mw-core/src/policy.rs:202-226 | the earliest violation of greatest strength, block above any throttle |
| Policy.PickStrongest | crates/mw-core/src/policy.rs:202-226 | the fold yields none without violations, else a policy of the leading violation, the first block or without blocks the first of the highest rate: its rule id, blocked for a block, its own rate for a throttle, until now plus the cooldown |
| Policy.StrongestActs | crates/mw-core/src/policy.rs:98-119 | what it asks for: the leading violation's action until the cooldown is over, from then on nothing |
| Policy.StrengthIgnoresOrder | crates/mw-core/src/policy.rs:202-226 | permuting the violations changes neither whether there is a policy nor what it asks for at any time |
| Policy.ExpiryRoundTrip | crates/mw-core/src/policy.rs:47-79 | saving and later restoring keeps the flags and permanence; the expiry comes back no later and less than two seconds earlier, or now when past, for any lags between reading the two clocks |
| Policy.RestoreNeverRevives | crates/mw-core/src/policy.rs:47-79 | with the clocks in step an expired policy is expired after its restore |
| Enforcer.PermissiveEnforcer.Apply | crates/mw-core/src/enforcer.rs:90-92 | the log records the action for that client only |
| Enforcer.PermissiveEnforcer.Clear | crates/mw-core/src/enforcer.rs:94-96 | the log forgets that client only |
| Enforcer.KeyIsBijective | crates/microwaf/src/ebpf.rs:27-35 | two IPv4 clients never share a key, and every ten bytes are some client's key |
| Enforcer.BpfEnforcer.FillKey | crates/microwaf/src/ebpf.rs:27-35 | the ten bytes filled in are the six of the MAC then the four of the IPv4 address; none for IPv6 |
| Enforcer.BpfEnforcer.Apply | crates/microwaf/src/ebpf.rs:151-165 | under MAC and IPv4 address a block is recorded as (true, 100), a throttle as (false, its rate), none as no entry; all other entries stay, an IPv6 client changes nothing; and a mirror that was the image of a log is that of the log with this action |
| Enforcer.BpfEnforcer.Clear | crates/microwaf/src/ebpf.rs:167-171 | the client's entry is gone and all others stay; likewise for the image of a log |
| Enforcer.MirrorIsDetermined | crates/microwaf/src/ebpf.rs:150-172 | the log determines the mirror: no stray entry can be in it |
| PolicyStore.MemoryStore.Put | crates/mw-store/src/memory.rs:32-38 | replaces one client's saved overlay |
| PolicyStore.MemoryStore.Remove | crates/mw-store/src/memory.rs:40-46 | removes one client's saved overlay |
| PolicyStore.MemoryStore.LoadAll | crates/mw-store/src/memory.rs:18-30 | lists every saved overlay exactly once |
| PolicyStore.RedisStore.Put | crates/mw-store/src/redis_store.rs:111-130 | replaces one client's overlay; a temporary one gets a time to live of the whole seconds left, at least one, from now |
| PolicyStore.RedisStore.Remove | crates/mw-store/src/redis_store.rs:132-138 | removes one client's overlay |
| PolicyStore.RedisStore.LoadAll | crates/mw-store/src/redis_store.rs:92-109 | lists exactly the overlays whose time to live is not over, each once |
| PolicyStore.SavedLasts | crates/mw-store/src/redis_store.rs:115-123 | an entry is never dropped before its overlay is over |
| PolicyStore.OutlivesExactly | crates/mw-store/src/redis_store.rs:115-123 | an overlay that is over is still handed out if and only if less than a second of it was left when last saved and less than a second has passed since |
| PolicyStore.PersistManual | crates/microwaf/src/store.rs:36-46 | writes the overlay or removes the entry, for that client only, on either backend |
| Daemon.DaemonState.constructor | crates/microwaf/src/state.rs:48-61 | starts with no policy, window, counter, would-be action or enforced entry |
| Daemon.DaemonState.Apply | crates/microwaf/src/state.rs:69-76 | the enforcer gets the action; the would-be map notes it in permissive mode only |
| Daemon.DaemonState.Clear | crates/microwaf/src/state.rs:79-84 | both forget the client in either mode |
| Daemon.DaemonState.SwapLive | crates/microwaf/src/state.rs:111-113 | a reload replaces rules and cooldown together and touches nothing else |
| Daemon.DaemonState.Decide | crates/microwaf/src/decision.rs:75-83 | a fresh violation replaces the automatic policy, else an expired one is dropped; an expired overlay is dropped |
| Daemon.DaemonState.Carry | crates/microwaf/src/decision.rs:85-92 | None clears, any other action is applied |
| Daemon.DaemonState.Judge | crates/microwaf/src/decision.rs:48-74 | brings the client's windows up to the tick and evaluates the rules on them |
| Daemon.DaemonState.VisitClient | crates/microwaf/src/decision.rs:48-93 | what one turn of the loop does to windows, policy, would-be map and enforcer, and that it does nothing to other clients |
| Daemon.TickSomeOne | crates/microwaf/src/decision.rs:47-93 | visiting one more client adds exactly its own changes, so the visiting order does not matter |
| Daemon.DaemonState.Tick | crates/microwaf/src/decision.rs:35-96 | the loop over an unordered set of clients computes every client's new windows, policy and enforcement from the state before the tick, with a reload possibly landing between its two reads |
| Daemon.DaemonState.Throttle | crates/microwaf/src/ipc.rs:483-504 | sets rate (50 by default) and expiry over whatever overlay memory holds, saves it; an unparsable client changes nothing |
| Daemon.DaemonState.Block | crates/microwaf/src/ipc.rs:506-526 | sets the block flag and expiry likewise |
| Daemon.DaemonState.ClearManualThrottle | crates/microwaf/src/ipc.rs:528-551 | lifts the rate; removes the overlay and its entry when nothing is left, else saves the rest |
| Daemon.DaemonState.ClearManualBlock | crates/microwaf/src/ipc.rs:553-576 | lifts the block likewise |
| Daemon.DaemonState.TakeIn | crates/microwaf/src/store.rs:22-30 | every loaded overlay replaces the client's policy, in whatever order they are listed |
| Daemon.DaemonState.Hydrate | crates/microwaf/src/store.rs:18-33 | the policies become those of every overlay the store still hands out |
| Daemon.Start | crates/microwaf/src/cli/daemon.rs:80-107 | a new process with Redis holds exactly the overlays Redis still hands out, one without starts on an empty map; it enforces nothing yet, and its windows, counters and enforcer are ready for a tick |
| Overlays.ThrottleActs | crates/microwaf/src/ipc.rs:483-504 | what the overlay asks for at any time after a throttle: nothing once over, a block when memory held one, else the rate, 50 by default |
| Overlays.BlockActs | crates/microwaf/src/ipc.rs:506-526 | after a block, for every state and duration: a block until the duration is over, nothing from then on |
| Overlays.RequestsAreKept | crates/microwaf/src/ipc.rs:489-526 | memory and store then hold the restriction that was set and the one memory held before; the automatic policy is untouched |
| Overlays.LiftingKeepsTheOther | crates/microwaf/src/ipc.rs:528-576 | lifting one restriction leaves the other with its expiry, in memory and in the store; with no other both are emptied; with no overlay nothing happens |
| Overlays.RequestsTouchOne | crates/microwaf/src/ipc.rs:483-576 | no request changes another client's policy or saved entry |
| Overlays.ThrottleRevivesExactly | crates/microwaf/src/ipc.rs:491-498 | a throttle newly blocks a client if and only if an expired block is still in memory and the duration is not zero |
| Overlays.BlockThenUnblock | crates/microwaf/src/ipc.rs:553-576 | lifting a block leaves the rate that was in memory, live or expired, for the block's duration |
| Overlays.LiftingBothRemoves | crates/microwaf/src/ipc.rs:528-576 | lifting both, in either order, leaves no overlay and no saved entry |
| Runs.TickGives | crates/microwaf/src/decision.rs:35-96 | a tick read off for one client, visited or not |
| Runs.OtherStep | crates/microwaf/src/ipc.rs:483-576 | no request, increment or reload touches windows, last snapshot, enforcer, would-be map or an automatic policy |
| Runs.RunConsistent | crates/microwaf/src/state.rs:69-84 | in every reachable state nothing is enforced or windowed outside the policy map, and the would-be map is the enforcer's in permissive mode and empty in enforce mode |
| Runs.EnforcerAgrees | crates/microwaf/src/decision.rs:47-93 | after every tick of every run a client has an entry if and only if its merged policy is not None, and then that very action; the would-be map is the same in permissive mode and empty in enforce mode |
| Runs.RunFollows | crates/microwaf/src/decision.rs:41-95 | in every run each window is what the counter snapshots of the ticks since the last start make of it |
| Runs.NoWindowSaturates | crates/mw-core/src/window.rs:31-37 | in every reachable state no addition to a window and no sum over one saturates |
| History.ViolationsAreBreaches | crates/microwaf/src/decision.rs:74 | the violations of a tick are exactly the rules whose counter grew by more than their limit since the last tick fallen out of their window |
| History.GrownInTime | crates/microwaf/src/decision.rs:41-74 | that growth bracketed in seconds, in every run with monotone ticks |
| SlowTicks.MinuteOutlivesItself | crates/microwaf/src/decision.rs:35-96 | a concrete run with ticks 1.9 seconds apart in which a per-minute rule is still broken by what a tick saw 112.1 seconds before |
| History.AutoIsHistory | crates/microwaf/src/decision.rs:74-80 | in every reachable state the automatic policy is that of the strongest breach of the last tick that had any, dropped at the first tick past its expiry without one, whatever came between |
| History.EnforcementIsHistory | crates/microwaf/src/decision.rs:85-92 | after a tick the enforcer holds the stronger of the live overlay and the last breach found while its cooldown lasts |
| History.FoundLasts | crates/microwaf/src/decision.rs:76-77 | with the cooldown unchanged and throttle rates at least one, a breach asks for something for a whole cooldown, also when a weaker one replaces it |
| History.NoGapInCooldown | crates/microwaf/src/decision.rs:74-92 | every tick less than a cooldown after a breach enforces something, across reloads that keep the cooldown |
| History.ReleasedExactly | crates/microwaf/src/decision.rs:78-86 | a tick leaves a client without an entry if and only if neither a live overlay nor the last breach asks for anything |
| Cooldowns.BreachActsExactly | crates/microwaf/src/decision.rs:74-80 | after a tick that found a breach and none since, the rules ask for the leading violation's action for the configured seconds, at least one, and from then on for nothing |
| Cooldowns.ReapedExactly | crates/microwaf/src/decision.rs:81-83 | a tick drops an overlay from memory if and only if its time has come |
| Cooldowns.EnforcedThenReleased | crates/microwaf/src/decision.rs:39-92 | with no live overlay every tick leaves the client under that action while those seconds last, and the first tick at or past their end leaves it without an entry |
| Rates.AutoStaysOk | crates/mw-core/src/rule.rs:229-233 | automatic rates never exceed 100 in any run whose rule sets were loaded through the checks |
| Rates.ManualStaysOk | crates/microwaf/src/ipc.rs:487-501 | requests of at most 100 keep overlays, in memory and saved, at most 100 across restarts |
| Rates.RatesArePercentages | crates/microwaf/src/decision.rs:85-92 | under both, no enforced rate exceeds 100 at any point of any run |
| Rates.ExcessExactly | crates/microwaf/src/ipc.rs:487-497 | a tick enforces more than 100 if and only if the overlay it finds is live, not a block and asks for more than 100, and no block found by a rule is still cooling down |
| Rates.ExcessIsEnforced | crates/microwaf/src/ipc.rs:487 | a concrete request for 200 that the next tick enforces |
| Restarts.RunSaves | crates/microwaf/src/ipc.rs:483-576 | in every run every overlay in memory has an entry with its flags and an expiry less than two seconds early, every entry without an overlay is already over, and no entry is dropped before it is over |
| Restarts.RestartKeepsManual | crates/microwaf/src/store.rs:18-33 | at any time after a restart on Redis a client's manual action is what it would have been, or has ended less than two seconds early: never stronger, never longer |
| Restarts.MemoryForgets | crates/microwaf/src/cli/daemon.rs:88-91 | without Redis a restart forgets every overlay |
| Restarts.RestartTwice | crates/microwaf/src/store.rs:18-33 | a second restart with nothing saved in between loses nothing more |
| Restarts.RestartRevivesExactly | crates/microwaf/src/store.rs:22-30 | a throttle of a client with no overlay left in memory never blocks it; after a restart it does if and only if Redis still hands out a block for the client and the duration is not zero |
| Restarts.RestartThenThrottleRevives | crates/microwaf/src/store.rs:22-30 | a concrete run in which a block that was saved again at half time and then reaped blocks once more after a restart and a throttle |
| Flow.FlowTable.FindOldest | crates/microwaf/src/sniffer.rs:58 | a flow no later than any other in the table |
| Flow.FlowTable.Observe | crates/microwaf/src/sniffer.rs:50-64 | forgets idle flows, answers whether the flow was unknown, makes room by dropping an oldest one, and remembers the flow now |
| Flow.EvictedHasOthers | crates/microwaf/src/sniffer.rs:56-61 | a flow dropped from a full table has seen at least as many others since as the table holds |
| Flow.RunRemembers | crates/microwaf/src/sniffer.rs:50-64 | after any observations the table is within its limit, dates its flows correctly, and has forgotten a recent flow only after that many others |
| Flow.TableAgainstHistory | crates/microwaf/src/sniffer.rs:50-64 | against the unbounded history: not new means seen within the timeout; new although seen within it means at least 8192 (`max`) others since |
| Flow.NewBracketed | crates/microwaf/src/sniffer.rs:50-64 | both ways: `max` others strictly later make a flow new, and a flow seen within the timeout is new only after `max` others no earlier |
| Flow.NewExactly | crates/microwaf/src/sniffer.rs:50-64 | with no two observations at one instant a flow is new if and only if it was never seen, or not within the timeout, or `max` others were seen since |
| Flow.ExactUntilCrowded | crates/microwaf/src/sniffer.rs:50-64 | with fewer competing flows the answer is exactly "not seen within the timeout" |
| Flow.ObserveAgain | crates/microwaf/src/sniffer.rs:50-64 | asking again at once finds the flow and changes nothing |
| Flow.SomeRun | crates/microwaf/src/sniffer.rs:50-64 | the table has an answer to every sequence of observations |
| Z21.DetectRecords | crates/mw-sniffer/src/z21.rs:18-46 | the loop yields the parse of the payload, and each turn consumes at least four bytes |
| Z21.ParseEncoded | crates/mw-sniffer/src/z21.rs:18-46 | parsing encoded records followed by anything gives the records, then the parse of the rest |
| Z21.PayloadIsEncoded | crates/mw-sniffer/src/z21.rs:18-46 | every payload is the encoding of its parse followed by a rest in which no record starts |
| Z21.ParseIsUnique | crates/mw-sniffer/src/z21.rs:18-46 | no other records and rest make up the payload |
| Z21.HeadOfPayload | crates/mw-sniffer/src/z21.rs:22-43 | byte by byte: length and header are two bytes each, low byte first, the data follows, and the sub-header is the first data byte for header 0x0040 and zero for any other |
| Z21.NoHead | crates/mw-sniffer/src/z21.rs:21-30 | nothing is found in fewer than four bytes, nor for an announced length below four or beyond the payload |
| Dispatch.Sniffer.CountGeneric | crates/microwaf/src/sniffer.rs:221-240 | the loop over generic rules, asking the flow table once per Connections rule, credits what the rules add when only the first is told of a new flow |
| Dispatch.Sniffer.CountParts | crates/microwaf/src/sniffer.rs:352-369 | the loops over content rules and parsed units credit each rule with what `Shares.ContentShare` says |
| Dispatch.Sniffer.Dispatch | crates/microwaf/src/sniffer.rs:203-371 | one packet's whole effect on both counter maps, on the marked connections and on the flow table |
| Dispatch.PacketFor | crates/microwaf/src/sniffer.rs:203-371 | of one packet's additions those for a Requests or Bytes rule are what it would get alone |
| Dispatch.RulesDoNotInterfere | crates/microwaf/src/sniffer.rs:203-371 | over any packet trace, across reloads, the counter of a Requests or Bytes rule is what it would be with every other rule taken out, whatever the flow table answers in either case |
| Dispatch.OnlyIsAlone | crates/mw-core/src/rule.rs:254-260 | with distinct ids taking the others out leaves exactly one rule |
| Dispatch.RuleCountsAlone | crates/mw-core/src/rule.rs:247-271 | so over any trace such a rule counts what it would count as the only rule loaded |
| Traffic.RunsAlike | crates/microwaf/src/sniffer.rs:203-371 | in any run fed by packets, restarts and reloads included, a Requests or Bytes counter and its snapshots at ticks are what they would be with every other rule taken out of every configuration |
| Traffic.ViolationsAlone | crates/microwaf/src/decision.rs:41-74 | and so are the rule's violations at every tick, for every client |
| Dispatch.ConnectionsCredit | crates/microwaf/src/sniffer.rs:221-234 | a Connections rule is credited if and only if the flow is new, the rule matches and it is the first Connections rule selected |
| Dispatch.ConnectionsIndependentExactly | crates/microwaf/src/sniffer.rs:221-234 | with separate answers of the flow table among others and alone, it counts a packet as it would alone if and only if the packet is not for it, or it is first and the answers agree, or it is not first and alone the flow would be known |
| Dispatch.SecondConnectionsRuleMissesFlow | crates/microwaf/src/sniffer.rs:221-234 | of two overlapping Connections rules without a match only the first counts a new flow |
| Connections.PacketShare | crates/microwaf/src/sniffer.rs:203-371 | of one packet's additions those for a Connections rule are one connection or none |
| Connections.CounterIsTally | crates/microwaf/src/sniffer.rs:221-234 | over any trace a Connections counter is, saturated, the number of the client's opening packets that the rule matched, was first asked about, and that were new |
| Connections.AloneExactly | crates/microwaf/src/sniffer.rs:221-234 | the step from answers to counters: the counter is at every point and for every client what it would be alone if and only if packet for packet the rule's questions get the same answers |
| Connections.UndisturbedExactly | crates/microwaf/src/sniffer.rs:50-64 | over a trace with no two packets at one instant that is so if and only if, for every packet the rule is to count, the flow is unknown from the lone rule's history just when it is unknown from the joint history and no Connections rule stands before; whatever the tables do |
| Connections.HeardAlone | crates/microwaf/src/sniffer.rs:221-230 | of the flows a rule selects the table hears the same with and without the other rules |
| Connections.FirstAndRoomyCountsAlone | crates/microwaf/src/sniffer.rs:50-64 | it is so when the rule is the first selected by every packet that opens a flow for it and fewer other flows than the table holds were observed since that flow last was |
| Connections.CrowdingRecounts | crates/microwaf/src/sniffer.rs:56-61 | for every table size: two rules on different ports, one flow, a tableful of flows of the other rule, the flow again; it is counted twice, and once alone |
| Connections.OtherRulesRecount | crates/microwaf/src/sniffer.rs:41-47 | that run exists with the daemon's own 8192 flows and 60 seconds |
| Shares.ContentShare | crates/microwaf/src/sniffer.rs:235-371 | what a Requests or Bytes rule gets from a packet, among any rules with distinct ids, protocol by protocol: for its port and match one request or the bytes of an HTTP request that is no upgrade, of a frame on an upgraded connection, of each WiThrottle line, of each Z21 record, or the payload bytes over TCP or UDP; else nothing |
| Shares.FlowShare | crates/microwaf/src/sniffer.rs:221-234 | a Connections rule gets one connection from a packet that opens a flow of its transport and port, new to the table, matching, and watched by no rule before it; else nothing |
| Shares.MarkedExactly | crates/microwaf/src/sniffer.rs:265-270 | the connections read as WebSocket are those on which some packet upgraded |
| Shares.HandshakeExactly | crates/microwaf/src/sniffer.rs:265-270 | a handshake is counted for the first upgrade of a connection |
| Shares.CounterIsWorth | crates/microwaf/src/sniffer.rs:203-371 | over any trace the counter of a Requests or Bytes rule is, saturated, the sum of what the client's packets were worth to it |
| Ranking.Best | crates/microwaf/src/ipc.rs:464-469 | the largest value over the rules, attained by one of them, zero over none |
| Ranking.ScoreClient | crates/microwaf/src/ipc.rs:460-481 | best value, whether any rule is hot, and one observation per rule in order |
| Ranking.NoWindows | crates/microwaf/src/ipc.rs:444-454 | a client without windows scores like one whose windows are all zero |
| Ranking.RankingUnique | crates/microwaf/src/ipc.rs:399-404 | hot first, then best value, then MAC, then IP admits one order of a set of rows only |
| Ranking.RankingDetermined | crates/microwaf/src/ipc.rs:377-404 | so the answer does not depend on the order in which the maps were walked |
| Ranking.RankingSays | crates/microwaf/src/ipc.rs:399-404 | in a ranking no cold row precedes a hot one, among equals the best value never rises, and then clients ascend |
| Ranking.RowSays | crates/microwaf/src/ipc.rs:460-481 | a row's observations are the rules' sums in order, it is hot if and only if some sum is positive and at least its rule's threshold, and its best is the largest sum |
| Ranking.SelectedExactly | crates/microwaf/src/ipc.rs:344-364 | a rule passes the filters if and only if each given id, protocol name and metric name is its own |
| Ranking.SelectAppend | crates/microwaf/src/ipc.rs:344-366 | the filters keep the passing rules in load order |
| Ranking.RankingListsOnce | crates/microwaf/src/ipc.rs:377-407 | each known client is listed exactly once; a limit keeps the first `limit` rows, all for zero or when there are fewer, and what it cuts off ranks below all it keeps |
| Ranking.SortRanked | crates/microwaf/src/ipc.rs:399-404 | sorting rows of distinct clients ranks them |
| Ranking.SortMembers | crates/microwaf/src/ipc.rs:399-404 | and keeps the same rows |
| Ranking.KeptLineUp | crates/microwaf/src/ipc.rs:444-481 | every row's observations match the columns one for one |
| Ranking.TopClients | crates/microwaf/src/ipc.rs:336-442 | the query returns as many of the known clients as the limit keeps, in rank order, hot ones first; each entry has its client's merged policy, would-be action, counters and, column by column, the selected rules' sums |
| Locks.NeatVisits | crates/microwaf/src/decision.rs:48-93 | however many clients a tick visits, inside the loop it takes only would-be map, enforcer and the enforcer's own map, and gives them back |
| Locks.JobLegal | crates/microwaf/src/decision.rs:41-93 | every job asks, at each point, only for what its held locks allow, and ends holding nothing |
| Locks.RunOrderly | crates/microwaf/src/decision.rs:41-93 | legal use and mutual exclusion hold in every interleaving of any number of threads and jobs |
| Locks.WaitsUpward | crates/microwaf/src/ipc.rs:336-342 | there is always a rank, which one depending on whether a `top` is inside, in which every waiting thread waits above all it holds |
| Locks.FindMover | crates/microwaf/src/decision.rs:41-93 | from any waiting thread the chain of holders ends at one that can move |
| Locks.NeverStuck | crates/microwaf/src/state.rs:69-84 | while no `top` overlaps a `list_clients`, some thread inside a job can always go on |
| Locks.OneHandlerNeverStuck | crates/microwaf/src/ipc.rs:159-212 | under the premise that at most one handler is in flight, decision loop, sniffer and handler never deadlock, in any reachable state |
| Locks.CanFinish | crates/microwaf/src/decision.rs:41-93 | from every such state some schedule, beginning nothing new, finishes every job |
| Locks.TopAgainstList | crates/microwaf/src/ipc.rs:279-342 | a concrete schedule in which a `top` and a `list_clients` wait for each other |
| Locks.JamsExactly | crates/microwaf/src/ipc.rs:279-342 | for any set of jobs free to overlap, a deadlock is reachable if and only if both of these are in it |

## Left out

- Packet capture, header parsing, interface enumeration, loading of the kernel program: input, output and foreign calls. A packet is its client, its 4-tuple, its payload and whether it is an opening segment.
- The kernel program: the model stops at the enforcer's mirror in user space and claims nothing about dropped packets.
- Match expressions, the HTTP, WebSocket and WiThrottle detectors: arbitrary functions of what they are given, fixed while one packet is handled.
- Socket framing and JSON; the parsed client reference of a request is an option, None when it does not parse.
- The text form of a client in the store: the store is keyed by the client itself. Of Redis the model has writing with a time to live, removing and loading; not the schema check, the saved statistics, or failures.
- A start that finds Redis gone after an earlier one used it, or back again: a run stays on one backend. An entry that runs out while it is being loaded is not modelled.
- Reading YAML, watching files, signals: a reload is one atomic replacement of the live configuration.
- The output of `clients`, the command line, the live view and the client libraries.
- Overflow of instants and durations: they are unbounded. `Restarts.RunSaves` takes durations whose wall-clock end fits 64 bits of seconds.
- Drift of the wall clock: in `Restarts` it is the monotone clock plus a constant; a request reads both clocks once, and Redis keeps the same time. `Policy.ExpiryRoundTrip` alone allows lags between the reads.
- Locks inside the daemon's class: `Daemon.DaemonState` runs a tick and a handler without interruption, as the windows and policies locks make them appear; that the locks themselves are safe is `Locks`. In `Runs` an addition to the counters is one step; its two halves are separate in `Counters`.
- The order of clients with equal instants in the flow table: `Flow.FlowTable.Observe` leaves open which of several oldest flows is dropped.
- How many handlers the socket server runs at once: the server is not part of this model, so `Locks.OneHandlerNeverStuck` takes one at a time as a premise and `Locks.JamsExactly` does without it. `Locks` has the two tables of the memory store; the one connection lock of Redis is likewise never held while waiting.
- Reloads in `Connections`: its traces keep one rule set; `Dispatch.RulesDoNotInterfere` crosses reloads.
- The library's sort: `Ranking.Sort` stands for it; `Ranking.RankingUnique` shows that any correct sort gives the same answer.
- The interval of at most one second between ticks and the periodic statistics snapshot.
