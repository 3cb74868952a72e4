# Quota-aware failover gateway: a Dafny model of the node registry and failover logic

This project models the core of the Copilot smart gateway (`gateway/gateway.js`).
The gateway fronts a pool of upstream nodes, each with its own premium-interaction
quota. It routes every `/v1/...` request to an "active" node, preferring the
highest index. When a node runs out of quota or fails, it switches to another node.

The model is functional. A `Node` is an immutable record and the registry is a
`Registry(nodes: seq<Node>, active: nat)`. Every state change is a pure function
that returns a new registry. Everything the gateway learns over HTTP is passed in
as a value or an oracle function:

- the `/usage` answers used by a sync or a reachability probe (`Quota.UsageOutcome`);
- the result of forwarding a request (`Proxy.Upstream`);
- the discovery probe answers (`Discovery.ProbeResult`).

Modules, one per component of the gateway:

| module | models |
|---|---|
| `Nodes` | the node record, the registry, the derived availability predicate, node ids and start-up initialisation |
| `Quota` | `syncNodeQuota` (quota extraction, success and failure transitions) and `checkNodeReachable` |
| `Selection` | `getActiveNode`, `/admin/reset-active-node` and `/health` |
| `Failover` | `switchToNextNode`, the two-pass search |
| `Scheduler` | one step of the periodic quota sweep, the offline-recovery sweep and the start-up sweep |
| `Proxy` | the `/v1/...` handler loop: tried set, attempt bound, response and error handling, final 503 |
| `Discovery` | the sequential probing rule of `discoverNodes` |
| `Decimal`, `Options` | decimal rendering (for `node-<n>` ids and probe URLs) and an Option type |
| `Scenarios` | two end-to-end walk-throughs on a two-node registry |

The model follows the code as written, including these behaviours:

- A sync stores `remaining` or `limit - usage` unclamped, so the quota can be negative. `Quota.NegativeQuotaPossible` shows a document that leaves -2.
- A successful sync resets `failureCount` as well as `consecutiveFailures`.
- The periodic sweep syncs every node that is not `INVALID_TOKEN`, including `DRAINED` ones, all on the same interval.
- Every received proxy response resets `consecutiveFailures` before it is classified. This includes 404 and quota signals, not only 2xx.
- The proxy always calls the failover with no failed node, so it never bumps the failure counter of the node it just used.
- HTTP 403 never counts as quota exhaustion, because the 403 detector always answers no.
- Discovery runs once, at start-up.
- The failover moves `activeNodeIndex` to every reachable candidate it syncs, even when it ends up finding nothing (`Failover.ActiveMovesOnFailedSearch`).

## Model

| member | source | states |
|---|---|---|
| Nodes.IsAvailable | gateway/gateway.js:188-201 | a node may take requests only when it is READY, has positive quota and fewer than two consecutive failures |
| Nodes.InitRegistry | gateway/gateway.js:539-552 | one UNKNOWN node per discovered entry, with zero quota and zero counters; the last index is active (0 when empty); ids are pairwise distinct; no node is available until a sync has run |
| Nodes.NodeIdInjective | gateway/gateway.js:540 | two positions with the same `node-<n>` id are the same position |
| Quota.PremiumOf | gateway/gateway.js:126-127 | a missing `quota_snapshots` or `premium_interactions` level reads as an empty object |
| Quota.ExtractRemaining | gateway/gateway.js:129-138 | the quota follows a fixed priority: a present `remaining`, then `limit - usage` for a non-null limit with usage present, then 999999 for a null limit, else 0; a JSON null counts as 0 |
| Quota.FailureStatus | gateway/gateway.js:160-179 | failed-sync classification in order: network code gives OFFLINE, then 401 gives INVALID_TOKEN, then 429 gives RATE_LIMITED, then any other HTTP status keeps the status, and anything else gives OFFLINE |
| Quota.ApplySync | gateway/gateway.js:112-181 | a document sets the quota and clears both counters; the node is READY exactly when the quota is positive and DRAINED otherwise, so it is available exactly then; a failure bumps both counters, keeps the quota and reclassifies the status; a 2xx without data counts as an unknown error |
| Quota.CheckNodeReachable | gateway/gateway.js:83-106 | any response means reachable; a network code, or an error without a response, means unreachable |
| Quota.SyncIdempotent | gateway/gateway.js:141-153 | applying the same successful response twice gives the same node as applying it once |
| Quota.SyncForgetsHistory | gateway/gateway.js:141-153 | after a successful sync the node depends only on its identity and the document, and its status is READY or DRAINED |
| Quota.InvalidTokenOnlyFrom401 | gateway/gateway.js:169-170 | a sync makes a node INVALID_TOKEN exactly when it failed with a 401 and no network code |
| Quota.FailedSyncAvailability | gateway/gateway.js:155-179 | after a failed sync the node is available only if, before it, the node was READY with quota and had no consecutive failures |
| Quota.OfflineAgreesWithProbe | gateway/gateway.js:155-179 | for a node not already OFFLINE, a failed sync marks it OFFLINE exactly when the reachability probe would call the same error unreachable |
| Quota.NegativeQuotaPossible | gateway/gateway.js:134-135 | `limit` 5 with `usage` 7 stores quota -2 and leaves the node DRAINED and unavailable |
| Quota.UnlimitedPlanIsAvailable | gateway/gateway.js:136-137 | a null `limit` without `remaining` gives quota 999999, and the node becomes READY and available |
| Quota.MissingQuotaSectionDrains | gateway/gateway.js:126-138 | a document without the quota section gives quota 0: the node becomes DRAINED, and the sync still counts as a success |
| Selection.HighestMatching | gateway/gateway.js:250-257 | the downward scan returns the highest index satisfying the predicate, and none iff no index does |
| Selection.GetActiveNode | gateway/gateway.js:242-260 | the chosen node is available and becomes active; the current node is kept if it is available, otherwise the highest available index is taken; no choice iff no node is available, and then the registry is untouched; nodes never change |
| Selection.GetActiveNodeStable | gateway/gateway.js:242-246 | selecting again right after a selection gives the same node and registry |
| Selection.ResetActiveNode | gateway/gateway.js:353-373 | the reset adopts the highest READY node with positive quota and reports its id; it fails iff there is no such node, and then changes nothing |
| Selection.ResetAtLeastAsHighAsSelection | gateway/gateway.js:355-357 | when the current node is unavailable and the selector finds a node, the reset also succeeds, at an index at least as high |
| Selection.ResetIgnoresFailureCounter | gateway/gateway.js:357 | a READY node with quota and two consecutive failures is adopted by the reset but refused by the selector |
| Selection.CountAvailable | gateway/gateway.js:332 | the count equals the length of the filtered list of available nodes, and is positive iff some node is available |
| Selection.HealthSummary | gateway/gateway.js:330-350 | `ok` iff some node is available; `availableNodeCount` is the length of the filtered list of available nodes; the active id exists iff the active index is in range, and it is then the id of the node at that index; with distinct ids, exactly the active node is flagged active; each node view reports that node's id, status, quota and consecutive failures |
| Selection.HealthOkIffSelectable | gateway/gateway.js:332-334 | `/health` says ok exactly when a request would be given a node |
| Failover.VisitOrder | gateway/gateway.js:278-301 | the two-pass candidate order: the indices below the original active index, highest first, then the indices above it, highest first, up to the registry's size |
| Failover.VisitOrderShape | gateway/gateway.js:278-301 | the search visits every index except the original active one, each exactly once |
| Failover.Search | gateway/gateway.js:278-321 | a found node is in the visit order, was not INVALID_TOKEN or OFFLINE beforehand, is available afterwards and is the active node; skipped and unvisited nodes are unchanged; the active index moves only to a reachable, non-skipped candidate (its exact value after a failed search is stated by `SearchFailsAtLastReachable`) |
| Failover.SearchEffect | gateway/gateway.js:278-321 | every candidate up to the one the search stops at is visited: a skipped node is unchanged, a reachable one carries its synced record, an unreachable one is marked OFFLINE; every candidate after it is unchanged |
| Failover.SearchFailsAtLastReachable | gateway/gateway.js:278-321 | when no index repeats and the search finds nothing, the active index is the last candidate of the order that was not skipped and answered the probe (every such candidate is adopted in turn), or the original index when there was none |
| Failover.SearchFindsFirstSuccess | gateway/gateway.js:278-321 | when no index repeats, the search stops at the first node in the order that is not skipped, is reachable and is available after its sync |
| Failover.BumpFailures | gateway/gateway.js:270-274 | the failed node, when given, gets one more consecutive failure and nothing else changes |
| Failover.SwitchToNextNode | gateway/gateway.js:267-325 | a result is available, is the new active index and differs from the original active index; no INVALID_TOKEN or OFFLINE node is chosen or modified; without a failed node the original node is untouched; the active index moves only to a reachable node |
| Failover.SwitchFindsFirstSuccess | gateway/gateway.js:267-325 | the result is the first succeeding node in the order active-1 down to 0, then the last index down to active+1 |
| Failover.SwitchFailsOnlyWhenNoneSucceeds | gateway/gateway.js:323-324 | the failover returns nothing iff every other node is skipped, unreachable, or unavailable after its sync |
| Failover.SwitchEffect | gateway/gateway.js:267-325 | without a failed node, each candidate of the two-pass order up to the result is visited (synced if reachable, OFFLINE if not) and the rest are unchanged; when nothing is found, every other node has been visited, none is available, and the active index is the last reachable, non-skipped candidate of the two-pass order (the original index when there is none) |
| Failover.ActiveMovesOnFailedSearch | gateway/gateway.js:283-292 | a failover that finds nothing can still move the active index |
| Nodes.IndicesWhere | gateway/gateway.js:215 | the filter lists, in ascending order, exactly the indices whose node matches |
| Scheduler.QuotaSweep | gateway/gateway.js:212-217 | the periodic sweep syncs exactly the nodes that are not INVALID_TOKEN and leaves the others as they were |
| Scheduler.InitialSweep | gateway/gateway.js:207-209 | the start-up sweep syncs every node |
| Scheduler.InitialSweepIsQuotaSweep | gateway/gateway.js:207-216 | on a freshly initialised registry, the start-up sweep and a periodic sweep agree |
| Scheduler.RecoverySweep | gateway/gateway.js:219-234 | only OFFLINE nodes are touched; an unreachable one is unchanged; a reachable one has its consecutive failures cleared and is then synced, so a failed sync leaves one consecutive failure |
| Scheduler.SweepsSkipInvalidToken | gateway/gateway.js:215-222 | neither sweep changes an INVALID_TOKEN node |
| Scheduler.QuotaSweepIdempotent | gateway/gateway.js:212-217 | a second periodic sweep with the same successful documents changes nothing |
| Proxy.CheckIsQuotaError | gateway/gateway.js:525-530 | the 403 body check is a placeholder that never reports a quota error |
| Proxy.IsQuotaSignal | gateway/gateway.js:430-432 | a 402 or 429, or a 403 the body check confirms, is a quota signal |
| Proxy.ForbiddenIsNeverQuotaSignal | gateway/gateway.js:525-530 | HTTP 403 never triggers the quota-exhaustion path |
| Proxy.ApplyResponse | gateway/gateway.js:424-462 | any response clears the consecutive failures; 402 or 429 set the quota to 0 and the status to DRAINED, making the node unavailable; a 2xx takes one unit off a positive quota and floors at 0; any other status (404 included) changes nothing else |
| Proxy.DecrementSupersededBySync | gateway/gateway.js:458-461 | the decrement after a 2xx is only an estimate: the next successful sync gives the same node whatever any response did to it |
| Proxy.ApplyTransportError | gateway/gateway.js:476-496 | every error adds one consecutive failure and keeps the quota; a network code, ECONNABORTED included, sets OFFLINE without counting a total failure; any other error counts a total failure and sets OFFLINE once there are three consecutive failures |
| Proxy.NonNetworkErrorNeverEscalates | gateway/gateway.js:489-495 | a node that was available when forwarded to stays READY after a non-network error |
| Proxy.MarkTriedShrinks | gateway/gateway.js:392-396 | marking a tried, available node with 999 failures removes exactly that node from the tried-and-available set |
| Proxy.ForwardStep | gateway/gateway.js:425-505 | `Handled`: the forwarded node carries the recorded response or transport error (a quota signal drains it); a non-quota response is relayed with nothing else changed; otherwise the registry is exactly what `switchToNextNode(null)` leaves when it starts from the recorded registry; the request retries, on another available node, iff some other node succeeds, and when it gives up every other node is unavailable; the remembered error is the transport error, the earlier one on a retry after a quota signal, or pool-drained when a quota signal ends the request |
| Proxy.PickUntried | gateway/gateway.js:384-397 | `Picked`: the current node is kept when it is available and untried; otherwise the highest available untried index is chosen; none is chosen iff no node is available and untried; the chosen node is active and unmodified; unless the current node is kept, exactly the available tried nodes that are current or lie above the chosen index (all of them when none is chosen) get 999 failures and no other node changes; when none is chosen, the active index is the lowest available index other than the original one, or the original one when there is none; with nothing tried it agrees with the selector |
| Proxy.FailoverAfterRecord | gateway/gateway.js:440-447 | the failover after a forward finds a node iff some other node succeeds, judged before the forward was recorded; when it finds none, every other node is unavailable |
| Proxy.Attempt | gateway/gateway.js:383-505 | `Attempted`: the round's pick and forward, on the registry the earlier rounds left and with their ids as the tried set, extend the run by one round that behaves as `Picked` (including exactly which tried nodes get 999 failures and where the active index is left) and then `Handled` say; no node is picked only when none is available and untried; a give-up means no other node of the picked registry succeeds |
| Proxy.HandleProxy | gateway/gateway.js:376-518 | `Handles`: the returned rounds form a run from the starting registry (each round picks and forwards as `Picked`/`Handled` say, from the registry the previous round left, so the 999 marks and the active index after a round that picks nothing are determined) and the returned registry is the last one; at most one forward per registered node, never two to the same id; a retry ends the loop only after every node was forwarded to; the reply relays iff the last round relayed, from the active node and never with 402 or 429; otherwise it is 503 `service_unavailable` with the last round's error, and with fewer forwards than nodes only if the last round found no available untried node or no other node succeeds; the first forward is the selector's choice; with no available node nothing is forwarded and nothing changes |
| Proxy.RunLastRound | gateway/gateway.js:383-505 | in a run, the last round starts from the registry and tried set the earlier rounds left and behaves as `Picked` and `Handled` say; the earlier rounds form a run |
| Discovery.KeptShape | gateway/gateway.js:27-50 | the kept candidates up to a point are, in ascending order, exactly those that did not answer "not found" |
| Discovery.DiscoverNodes | gateway/gateway.js:27-50 | probing stops at the first candidate completing three not-found answers in a row, or at 20; it keeps every probed candidate except those answering "not found" |
| Discovery.DiscoveredConfigs | gateway/gateway.js:28-46 | each kept candidate becomes an entry with its probe URL and an empty token; ascending candidates give pairwise distinct URLs, so no URL is registered twice |
| Discovery.ProbeUrlInjective | gateway/gateway.js:28 | distinct candidate numbers give distinct probe URLs |
| Discovery.ThreeMissingStopsEarly | gateway/gateway.js:35-42 | three missing candidates at the start end discovery at candidate 3 with no nodes |
| Scenarios.BothReadyLastServes | gateway/gateway.js:539-552 | with two nodes of quota 5, the last node is active, serves the request and is left with quota 4 |
| Scenarios.DrainedLastFallsBack | gateway/gateway.js:242-260 | when the last node syncs to 0 remaining it is DRAINED, and the next request is served by the first node |

## Left out

- HTTP routing, header rewriting (`host` removed, `authorization` replaced), relaying the response headers and streaming the body (gateway/gateway.js:403-422, 464-471). This is framework I/O with no decision in it. The model's `Relay` reply carries only the status.
- The axios transport, its timeouts and real network probing. Every HTTP result is an input value.
- Timers (`setInterval`), the intervals themselves, and the interleaving of sweeps with in-flight requests. Each sweep is modelled as one pure filter-then-apply step, and each request runs alone.
- The timestamps `lastCheck` and `lastHealthy`, and the ISO renderings of them in `/health`.
- Log messages, the human-readable 503 and reset messages, and `reason` strings.
- `COPILOT_NODES` JSON configuration, `PORT`, `POLL_INTERVAL`, `server.listen` and `process.exit`.
- Quota fields that are not integers or null, such as fractions or numeric strings. JavaScript would compare and subtract these with its own coercions. A `remaining: null` is stored as 0: it behaves like 0 in every comparison and subtraction the gateway makes, but `/health` would print `null`.
- The constant `mode: 'active-standby'` field of `/health` (gateway/gateway.js:333): it carries no state, so `Health` has no field for it.
- Proxy.HandleProxy: the 503 `details` field carries which error came last (none, pool drained, or a transport error code) rather than its message text.
