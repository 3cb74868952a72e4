/**
 * The per-request control loop of the `/v1/...` handler: pick the active node,
 * never forward twice to the same node id, forward at most once per
 * registered node, interpret the upstream answer or the transport error,
 * fail over, and answer 503 when the pool is exhausted. Forwarding, probes
 * and syncs are oracle inputs indexed by the attempt number; relaying the
 * response body is not modelled.
 */
module Proxy {
  import opened Options
  import opened Nodes
  import opened Quota
  import opened Selection
  import opened Failover

  /** What forwarding one request produced: an HTTP status (every status is accepted) or a thrown error with an optional code. */
  datatype Upstream = Responded(status: int) | TransportError(code: Option<string>)

  /** Connection-level codes recognised while forwarding: the prober's five plus ECONNABORTED. */
  const ForwardNetworkCodes: set<string> := ProbeNetworkCodes + {"ECONNABORTED"}

  predicate IsForwardNetworkError(code: Option<string>) {
    code.Some? && code.value in ForwardNetworkCodes
  }

  /** The body-inspecting 403 detector is a placeholder that never reports a quota error. */
  function CheckIsQuotaError(status: int): bool {
    false
  }

  /** 402 and 429 (and 403 if the detector ever said so) signal quota exhaustion. */
  predicate IsQuotaSignal(status: int) {
    status == 402 || (status == 403 && CheckIsQuotaError(status)) || status == 429
  }

  lemma ForbiddenIsNeverQuotaSignal()
    ensures !IsQuotaSignal(403)
  {
  }

  predicate IsSuccess(status: int) {
    200 <= status < 300
  }

  /**
   * A received response: consecutive failures are cleared first; a quota
   * signal then drains the node (quota 0, DRAINED); a 2xx takes one unit of
   * quota off without going below 0; anything else (404 included) changes
   * nothing more.
   */
  function ApplyResponse(node: Node, status: int): (r: Node)
    ensures r.id == node.id && r.url == node.url && r.token == node.token
    ensures r.consecutiveFailures == 0 && r.failureCount == node.failureCount
    ensures IsQuotaSignal(status) ==> r.premiumRemaining == 0 && r.status == Drained && !IsAvailable(r)
    ensures IsSuccess(status) ==>
      && r.status == node.status
      && r.premiumRemaining >= 0
      && (node.premiumRemaining > 0 ==> r.premiumRemaining == node.premiumRemaining - 1)
      && (node.premiumRemaining <= 0 ==> r.premiumRemaining == 0)
    ensures !IsQuotaSignal(status) && !IsSuccess(status) ==> r == node.(consecutiveFailures := 0)
  {
    var received := node.(consecutiveFailures := 0);
    if IsQuotaSignal(status) then received.(premiumRemaining := 0, status := Drained)
    else if IsSuccess(status) then
      received.(premiumRemaining := if node.premiumRemaining - 1 > 0 then node.premiumRemaining - 1 else 0)
    else received
  }

  /**
   * The decrement on a 2xx is only an estimate: the next successful sync
   * overwrites whatever any response did to the node.
   */
  lemma DecrementSupersededBySync(n: Node, status: int, outcome: UsageOutcome)
    requires SyncSucceeded(outcome)
    ensures ApplySync(ApplyResponse(n, status), outcome) == ApplySync(n, outcome)
  {
    SyncForgetsHistory(ApplyResponse(n, status), n, outcome);
  }

  /**
   * A transport error: a connection-level code takes the node OFFLINE and
   * counts a consecutive failure only; any other error counts both failures
   * and takes the node OFFLINE once it has three consecutive failures.
   */
  function ApplyTransportError(node: Node, code: Option<string>): (r: Node)
    ensures r.id == node.id && r.url == node.url && r.token == node.token
    ensures r.premiumRemaining == node.premiumRemaining
    ensures r.consecutiveFailures == node.consecutiveFailures + 1
    ensures IsForwardNetworkError(code) ==> r.status == Offline && r.failureCount == node.failureCount
    ensures !IsForwardNetworkError(code) ==> r.failureCount == node.failureCount + 1
    ensures !IsForwardNetworkError(code) ==> (r.status == Offline <==> node.status == Offline || r.consecutiveFailures >= 3)
    ensures !IsForwardNetworkError(code) && r.consecutiveFailures < 3 ==> r.status == node.status
  {
    if IsForwardNetworkError(code) then
      node.(status := Offline, consecutiveFailures := node.consecutiveFailures + 1)
    else
      var bumped := node.(failureCount := node.failureCount + 1, consecutiveFailures := node.consecutiveFailures + 1);
      if bumped.consecutiveFailures >= 3 then bumped.(status := Offline) else bumped
  }

  /**
   * A node is forwarded to only while available, so it has at most one
   * consecutive failure; a non-network error therefore never reaches the
   * OFFLINE threshold inside a single request.
   */
  lemma NonNetworkErrorNeverEscalates(node: Node, code: Option<string>)
    requires IsAvailable(node)
    requires !IsForwardNetworkError(code)
    ensures ApplyTransportError(node, code).status == Ready
  {
  }

  /** The last error remembered for the 503 details. */
  datatype LastError = NoError | PoolDrained | Transport(code: Option<string>)

  /** The handler's answer: the relayed upstream status from a node, or the service-unavailable envelope. */
  datatype Reply =
    | Relay(status: int, node: nat)
    | Unavailable(code: int, errorType: string, details: LastError)

  /** Forwarded nodes' ids, as the request's tried set. */
  function IdsOf(nodes: seq<Node>, indices: seq<nat>): set<string>
    requires forall k | 0 <= k < |indices| :: indices[k] < |nodes|
  {
    set k | 0 <= k < |indices| :: nodes[indices[k]].id
  }

  /** Distinct ids along the forwarded list. */
  predicate DistinctIds(nodes: seq<Node>, indices: seq<nat>)
    requires forall k | 0 <= k < |indices| :: indices[k] < |nodes|
  {
    forall x, y | 0 <= x < y < |indices| :: nodes[indices[x]].id != nodes[indices[y]].id
  }

  /** Recording a forward to a node whose id was not tried keeps the tried set and the distinctness in step. */
  lemma RecordForward(nodes: seq<Node>, forwarded: seq<nat>, i: nat)
    requires forall k | 0 <= k < |forwarded| :: forwarded[k] < |nodes|
    requires i < |nodes|
    requires DistinctIds(nodes, forwarded)
    requires nodes[i].id !in IdsOf(nodes, forwarded)
    ensures IdsOf(nodes, forwarded + [i]) == IdsOf(nodes, forwarded) + {nodes[i].id}
    ensures DistinctIds(nodes, forwarded + [i])
  {
    var f := forwarded + [i];
    assert forall k | 0 <= k < |forwarded| :: f[k] == forwarded[k];
    assert f[|forwarded|] == i;
    forall x, y | 0 <= x < y < |f|
      ensures nodes[f[x]].id != nodes[f[y]].id
    {
      if y == |forwarded| {
        assert nodes[forwarded[x]].id in IdsOf(nodes, forwarded);
      }
    }
  }

  /** Indices of nodes that are available and already tried: the loop skips each of them at most once. */
  function AvailableTried(reg: Registry, tried: set<string>): set<nat> {
    set k: nat | k < |reg.nodes| && IsAvailable(reg.nodes[k]) && reg.nodes[k].id in tried
  }

  /** Marking a tried, available node with 999 consecutive failures removes exactly it from the skippable set. */
  lemma MarkTriedShrinks(reg: Registry, tried: set<string>, i: nat)
    requires i < |reg.nodes| && IsAvailable(reg.nodes[i]) && reg.nodes[i].id in tried
    ensures var reg' := reg.(nodes := reg.nodes[i := reg.nodes[i].(consecutiveFailures := 999)]);
      AvailableTried(reg', tried) == AvailableTried(reg, tried) - {i} && i in AvailableTried(reg, tried)
  {
  }

  /** How one forward ends: the response is relayed, the request retries on a new active node, or the pool is exhausted. */
  datatype Step =
    | Relayed(reg: Registry, status: int)
    | Retry(reg: Registry, lastError: LastError)
    | GiveUp(reg: Registry, lastError: LastError)

  /**
   * What handling one forward to the active node `i` of `reg` promises. The
   * outcome is recorded on node `i`: `ApplyResponse` for an answer,
   * `ApplyTransportError` for a thrown error. A non-quota answer is relayed
   * with nothing else changed. Otherwise the registry is the one the
   * failover leaves when it starts from the recorded registry. The request
   * retries, on another available node, iff some other node succeeds; when
   * it gives up every other node is unavailable. The error remembered is the
   * transport error, or the earlier one on a retry after a quota signal, or
   * "pool drained" when a quota signal ends the request.
   */
  predicate Handled(
    reg: Registry, i: nat, outcome: Upstream, lastError: LastError,
    probe: nat -> UsageOutcome, sync: nat -> UsageOutcome, s: Step)
    requires i < |reg.nodes| && reg.active == i
  {
    && SameIdentity(reg.nodes, s.reg.nodes)
    && (s.Relayed? <==> outcome.Responded? && !IsQuotaSignal(outcome.status))
    && (s.Relayed? ==>
          && outcome == Responded(s.status)
          && s.reg == reg.(nodes := reg.nodes[i := ApplyResponse(reg.nodes[i], s.status)])
          && s.reg.nodes[i].consecutiveFailures == 0)
    && (s.Retry? ==>
          s.reg.active < |reg.nodes| && s.reg.active != i && IsAvailable(s.reg.nodes[s.reg.active]))
    && (s.Retry? && outcome.Responded? ==> s.lastError == lastError)
    && (s.GiveUp? && outcome.Responded? ==> s.lastError == PoolDrained)
    && (!s.Relayed? && outcome.TransportError? ==> s.lastError == Transport(outcome.code))
    && (outcome.Responded? && IsQuotaSignal(outcome.status) ==>
          s.reg.nodes[i].premiumRemaining == 0 && s.reg.nodes[i].status == Drained)
    && (outcome.Responded? ==> s.reg.nodes[i] == ApplyResponse(reg.nodes[i], outcome.status))
    && (outcome.TransportError? ==> s.reg.nodes[i] == ApplyTransportError(reg.nodes[i], outcome.code))
    && (!s.Relayed? ==>
          s.reg == SwitchToNextNode(reg.(nodes := reg.nodes[i := NodeAfter(reg.nodes[i], outcome)]), None, probe, sync).reg)
    && (!s.Relayed? ==>
          (s.Retry? <==> exists j | 0 <= j < |reg.nodes| && j != i :: Succeeds(reg.nodes[j], probe(j), sync(j))))
    && (s.GiveUp? ==> forall j | 0 <= j < |reg.nodes| && j != i :: !IsAvailable(s.reg.nodes[j]))
  }

  /**
   * The handling of one forward to the active node `i`. A quota signal drains
   * the node and fails over without counting a failure for it; a transport
   * error is recorded on the node and fails over; any other response is
   * relayed. A failover that finds a node retries from it; one that finds
   * none gives up, remembering why.
   */
  method ForwardStep(
    reg: Registry, i: nat, outcome: Upstream, lastError: LastError,
    probe: nat -> UsageOutcome, sync: nat -> UsageOutcome) returns (s: Step)
    requires i < |reg.nodes| && reg.active == i
    ensures Handled(reg, i, outcome, lastError, probe, sync, s)
  {
    var recorded := NodeAfter(reg.nodes[i], outcome);
    if outcome.Responded? && !IsQuotaSignal(outcome.status) {
      return Relayed(reg.(nodes := reg.nodes[i := recorded]), outcome.status);
    }
    FailoverAfterRecord(reg, i, recorded, probe, sync);
    if outcome.Responded? {
      s := FailOver(reg, i, recorded, lastError, PoolDrained, probe, sync);
    } else {
      s := FailOver(reg, i, recorded, Transport(outcome.code), Transport(outcome.code), probe, sync);
    }
  }

  /**
   * The failover after a failed forward to the active node `i`, whose
   * outcome is already recorded as `recorded`: a node found means a retry
   * (remembering `onRetry`), none found ends the request (remembering
   * `onGiveUp`).
   */
  function FailOver(
    reg: Registry, i: nat, recorded: Node, onRetry: LastError, onGiveUp: LastError,
    probe: nat -> UsageOutcome, sync: nat -> UsageOutcome): (s: Step)
    requires i < |reg.nodes| && reg.active == i
    requires recorded.id == reg.nodes[i].id && recorded.url == reg.nodes[i].url && recorded.token == reg.nodes[i].token
    ensures SameIdentity(reg.nodes, s.reg.nodes)
    ensures !s.Relayed? && s.reg.nodes[i] == recorded
    ensures s.Retry? ==>
      && s.lastError == onRetry
      && s.reg.active < |reg.nodes| && s.reg.active != i && IsAvailable(s.reg.nodes[s.reg.active])
    ensures s.reg == SwitchToNextNode(reg.(nodes := reg.nodes[i := recorded]), None, probe, sync).reg
    ensures s.Retry? <==> SwitchToNextNode(reg.(nodes := reg.nodes[i := recorded]), None, probe, sync).found.Some?
    ensures s.GiveUp? ==> s.lastError == onGiveUp
  {
    var f := SwitchToNextNode(reg.(nodes := reg.nodes[i := recorded]), None, probe, sync);
    if f.found.None? then GiveUp(f.reg, onGiveUp) else Retry(f.reg, onRetry)
  }

  /**
   * The failover that follows a recorded outcome on the active node `i`,
   * judged on the registry before the outcome was recorded: it succeeds iff
   * some other node succeeds, and when it finds nothing every other node is
   * unavailable.
   */
  lemma FailoverAfterRecord(reg: Registry, i: nat, node: Node, probe: nat -> UsageOutcome, sync: nat -> UsageOutcome)
    requires i < |reg.nodes| && reg.active == i
    ensures var f := SwitchToNextNode(reg.(nodes := reg.nodes[i := node]), None, probe, sync);
      && (f.found.Some? <==> exists j | 0 <= j < |reg.nodes| && j != i :: Succeeds(reg.nodes[j], probe(j), sync(j)))
      && (f.found.None? ==> forall j | 0 <= j < |reg.nodes| && j != i :: !IsAvailable(f.reg.nodes[j]))
  {
    var reg1 := reg.(nodes := reg.nodes[i := node]);
    assert forall j | 0 <= j < |reg.nodes| && j != i :: reg1.nodes[j] == reg.nodes[j];
    SwitchEffect(reg1, probe, sync);
    SwitchFailsOnlyWhenNoneSucceeds(reg1, probe, sync);
  }

  /** The node forwarded to, once the outcome of forwarding is recorded on it. */
  function NodeAfter(node: Node, outcome: Upstream): Node {
    match outcome
    case Responded(status) => ApplyResponse(node, status)
    case TransportError(code) => ApplyTransportError(node, code)
  }

  /** A node a request may still be forwarded to: available and not yet tried. */
  predicate AvailableUntried(n: Node, tried: set<string>) {
    IsAvailable(n) && n.id !in tried
  }

  /**
   * What picking a node for a round promises, from `reg` with the ids in
   * `tried` already forwarded to: the current node is kept when it is
   * available and untried; otherwise the highest available untried index is
   * chosen, and it becomes active unmodified; none is chosen iff no node is
   * available and untried, and then no node is available at all. The only
   * changes are 999 consecutive failures on tried nodes, and with nothing
   * tried the pick is the selector's.
   */
  predicate Picked(reg: Registry, tried: set<string>, r: Registry, chosen: Option<nat>) {
    && SameIdentity(reg.nodes, r.nodes)
    && (chosen.Some? ==>
          && chosen.value < |r.nodes| && r.active == chosen.value
          && IsAvailable(r.nodes[chosen.value]) && r.nodes[chosen.value].id !in tried
          && r.nodes[chosen.value] == reg.nodes[chosen.value])
    && (chosen.None? ==> forall k | 0 <= k < |r.nodes| :: !IsAvailable(r.nodes[k]))
    && (chosen.None? <==> forall k | 0 <= k < |reg.nodes| :: !AvailableUntried(reg.nodes[k], tried))
    && (CurrentIsAvailable(reg) && reg.nodes[reg.active].id !in tried ==> r == reg && chosen == Some(reg.active))
    && (chosen.Some? && !(CurrentIsAvailable(reg) && reg.nodes[reg.active].id !in tried) ==>
          forall k | chosen.value < k < |reg.nodes| :: !AvailableUntried(reg.nodes[k], tried))
    && (forall k | 0 <= k < |reg.nodes| ::
          r.nodes[k] == reg.nodes[k] ||
          (reg.nodes[k].id in tried && r.nodes[k] == reg.nodes[k].(consecutiveFailures := 999)))
    && (tried == {} ==> Selection(r, chosen) == GetActiveNode(reg))
    && PickMarks(reg, tried, r, chosen)
  }

  /** The pick keeps the current node: it is available and not yet tried. */
  predicate KeepsCurrent(reg: Registry, tried: set<string>) {
    CurrentIsAvailable(reg) && reg.nodes[reg.active].id !in tried
  }

  /**
   * Whether the skips give node `k` 999 failures when the current node is
   * not kept: it is available and tried, and it is either the current node
   * (skipped first) or lies at or above `bound`, in the part of the registry
   * the downward scan has passed.
   */
  predicate SkippedByPick(reg: Registry, tried: set<string>, k: nat, bound: nat)
    requires k < |reg.nodes|
  {
    IsAvailable(reg.nodes[k]) && reg.nodes[k].id in tried && (k == reg.active || k >= bound)
  }

  /** Where the downward scan of a pick stops: just above the chosen index, or below index 0 when none is chosen. */
  function ScanBound(chosen: Option<nat>): nat {
    if chosen.None? then 0 else chosen.value + 1
  }

  /** `a` is the lowest available index other than the active one, or the active index itself when there is none. */
  predicate LowestOtherAvailable(reg: Registry, a: nat) {
    if exists k | 0 <= k < |reg.nodes| && k != reg.active :: IsAvailable(reg.nodes[k]) then
      && a < |reg.nodes| && a != reg.active && IsAvailable(reg.nodes[a])
      && forall k | 0 <= k < a && k != reg.active :: !IsAvailable(reg.nodes[k])
    else a == reg.active
  }

  /**
   * Exactly which nodes a pick that does not keep the current node marks:
   * the available tried ones that are current or lie above the chosen index
   * (all of them when none is chosen). When none is chosen, the active index
   * is left on the last node the selector adopted, which is the lowest
   * available index other than the original one.
   */
  predicate PickMarks(reg: Registry, tried: set<string>, r: Registry, chosen: Option<nat>) {
    && |r.nodes| == |reg.nodes|
    && (!KeepsCurrent(reg, tried) ==>
          forall k | 0 <= k < |reg.nodes| ::
            r.nodes[k] == if SkippedByPick(reg, tried, k, ScanBound(chosen)) then reg.nodes[k].(consecutiveFailures := 999) else reg.nodes[k])
    && (chosen.None? ==> LowestOtherAvailable(reg, r.active))
  }

  /**
   * The registry partway through the skips of a pick that does not keep the
   * current node: the nodes `SkippedByPick` names for `bound` carry 999
   * failures and nothing else changed; no available untried node lies at or
   * above `bound`; the active index is `bound` when the scan has marked a
   * node (the last one it marked), and the original index otherwise.
   */
  predicate ScannedDown(reg: Registry, tried: set<string>, r: Registry, bound: nat) {
    && |r.nodes| == |reg.nodes| && bound <= |reg.nodes|
    && !KeepsCurrent(reg, tried)
    && (forall k | 0 <= k < |reg.nodes| ::
          r.nodes[k] == if SkippedByPick(reg, tried, k, bound) then reg.nodes[k].(consecutiveFailures := 999) else reg.nodes[k])
    && (forall k | bound <= k < |reg.nodes| :: !AvailableUntried(reg.nodes[k], tried))
    && (bound < |reg.nodes| ==> r.active == bound && bound != reg.active && IsAvailable(reg.nodes[bound]))
    && (bound == |reg.nodes| ==> r.active == reg.active)
  }

  /** One skip moves the scan down to the node it marks (or, for the current node, leaves it where it starts). */
  lemma ScanStep(reg: Registry, tried: set<string>, r: Registry, bound: nat) returns (bound': nat)
    requires r == reg || ScannedDown(reg, tried, r, bound)
    requires var sel := GetActiveNode(r); sel.chosen.Some? && sel.reg.nodes[sel.chosen.value].id in tried
    ensures var sel := GetActiveNode(r); ScannedDown(reg, tried, MarkTried(sel.reg, sel.chosen.value), bound')
  {
    var sel := GetActiveNode(r);
    var h := sel.chosen.value;
    if r == reg && CurrentIsAvailable(reg) {
      bound' := |reg.nodes|;
    } else {
      bound' := h;
      if r != reg {
        forall k | h < k < bound && k != reg.active
          ensures !IsAvailable(reg.nodes[k]) || reg.nodes[k].id !in tried
        {
          assert !IsAvailable(r.nodes[k]);
        }
      }
    }
  }

  /** When the selector offers no tried node, the skips so far are exactly the ones `PickMarks` names. */
  lemma ScanEnds(reg: Registry, tried: set<string>, r: Registry, bound: nat)
    requires r == reg || ScannedDown(reg, tried, r, bound)
    requires var sel := GetActiveNode(r); sel.chosen.Some? ==> sel.reg.nodes[sel.chosen.value].id !in tried
    ensures var sel := GetActiveNode(r); PickMarks(reg, tried, sel.reg, sel.chosen)
  {
    var sel := GetActiveNode(r);
    if r != reg {
      if sel.chosen.Some? {
        var c := sel.chosen.value;
        forall k | c < k < bound && k != reg.active
          ensures !IsAvailable(reg.nodes[k]) || reg.nodes[k].id !in tried
        {
          assert !IsAvailable(r.nodes[k]);
        }
      } else {
        forall k | 0 <= k < bound && k != reg.active
          ensures !IsAvailable(reg.nodes[k])
        {
          assert !IsAvailable(r.nodes[k]);
        }
      }
    }
  }

  /**
   * The selection part of one round of the handler: ask for the active
   * node, and while it is one already tried in this request, give it 999
   * consecutive failures (so it is no longer available) and ask again. The
   * handler's attempt counter does not move during these skips, so they form
   * a loop of their own, which ends because each skip retires one tried,
   * available node. The outcome is the current node when it is available
   * and untried, and otherwise the highest available untried index.
   */
  method PickUntried(reg: Registry, tried: set<string>) returns (r: Registry, chosen: Option<nat>)
    ensures Picked(reg, tried, r, chosen)
  {
    r := reg;
    ghost var bound: nat := |reg.nodes|;
    var sel := GetActiveNode(r);
    while sel.chosen.Some? && sel.reg.nodes[sel.chosen.value].id in tried
      invariant sel == GetActiveNode(r)
      invariant MarkedOnlyTried(reg, r, tried)
      invariant r == reg || ScannedDown(reg, tried, r, bound)
      decreases AvailableTried(r, tried)
    {
      MarkTriedKeepsInvariant(reg, r, tried);
      bound := ScanStep(reg, tried, r, bound);
      r := MarkTried(sel.reg, sel.chosen.value);
      sel := GetActiveNode(r);
    }
    PickedUntried(reg, r, tried);
    ScanEnds(reg, tried, r, bound);
    r, chosen := sel.reg, sel.chosen;
  }

  /**
   * What the skips of `PickUntried` preserve: identities, the only changes
   * are 999 failures on tried nodes, and once anything was skipped the
   * current node is unavailable and the original current node was not an
   * available untried one.
   */
  predicate MarkedOnlyTried(reg: Registry, r: Registry, tried: set<string>) {
    && SameIdentity(reg.nodes, r.nodes)
    && (forall k | 0 <= k < |reg.nodes| ::
          r.nodes[k] == reg.nodes[k] ||
          (reg.nodes[k].id in tried && r.nodes[k] == reg.nodes[k].(consecutiveFailures := 999)))
    && (r != reg ==> !CurrentIsAvailable(r) && !(CurrentIsAvailable(reg) && reg.nodes[reg.active].id !in tried))
    && (tried == {} ==> r == reg)
  }

  /** Give node `i` 999 consecutive failures so the selector passes it over. */
  function MarkTried(reg: Registry, i: nat): Registry
    requires i < |reg.nodes|
  {
    reg.(nodes := reg.nodes[i := reg.nodes[i].(consecutiveFailures := 999)])
  }

  /** Marking the selector's tried choice keeps `MarkedOnlyTried` and retires one tried, available node. */
  lemma MarkTriedKeepsInvariant(reg: Registry, r: Registry, tried: set<string>)
    requires MarkedOnlyTried(reg, r, tried)
    requires var sel := GetActiveNode(r); sel.chosen.Some? && sel.reg.nodes[sel.chosen.value].id in tried
    ensures var sel := GetActiveNode(r); var r' := MarkTried(sel.reg, sel.chosen.value);
      MarkedOnlyTried(reg, r', tried) && AvailableTried(r', tried) < AvailableTried(r, tried)
  {
    var sel := GetActiveNode(r);
    var i := sel.chosen.value;
    MarkTriedShrinks(sel.reg, tried, i);
    var r' := MarkTried(sel.reg, i);
    assert r'.active == i && !IsAvailable(r'.nodes[i]);
    assert r'.nodes[i] != reg.nodes[i];
  }

  /** When the selector on the skipped registry `r` offers no tried node, its answer is the one `PickUntried` promises about `reg`. */
  lemma PickedUntried(reg: Registry, r: Registry, tried: set<string>)
    requires MarkedOnlyTried(reg, r, tried)
    requires var sel := GetActiveNode(r); sel.chosen.Some? ==> sel.reg.nodes[sel.chosen.value].id !in tried
    ensures var sel := GetActiveNode(r);
      && SameIdentity(reg.nodes, sel.reg.nodes)
      && (sel.chosen.Some? ==>
            && sel.reg.nodes[sel.chosen.value] == reg.nodes[sel.chosen.value]
            && (!(CurrentIsAvailable(reg) && reg.nodes[reg.active].id !in tried) ==>
                  forall k | sel.chosen.value < k < |reg.nodes| :: !AvailableUntried(reg.nodes[k], tried)))
      && (sel.chosen.None? <==> forall k | 0 <= k < |reg.nodes| :: !AvailableUntried(reg.nodes[k], tried))
      && (CurrentIsAvailable(reg) && reg.nodes[reg.active].id !in tried ==> sel == Selection(reg, Some(reg.active)))
      && (forall k | 0 <= k < |reg.nodes| ::
            sel.reg.nodes[k] == reg.nodes[k] ||
            (reg.nodes[k].id in tried && sel.reg.nodes[k] == reg.nodes[k].(consecutiveFailures := 999)))
      && (tried == {} ==> sel == GetActiveNode(reg))
  {
  }

  /**
   * How one round of the handler ends: no node to forward to (in the
   * registry `reg` the pick left), or a forward to `node` of the registry
   * `picked` the pick left, handled as `step`.
   */
  datatype Round = NoNode(reg: Registry) | Forwarded(picked: Registry, node: nat, step: Step)

  /** The registry a round leaves behind. */
  function RoundRegistry(round: Round): Registry {
    match round
    case NoNode(r) => r
    case Forwarded(_, _, s) => s.reg
  }

  /**
   * What one round promises, starting from `reg` with the ids in `tried`
   * already forwarded to and `lastError` remembered: the node is picked as
   * `Picked` says and, when there is one, the forward to it is handled as
   * `Handled` says, on the registry the pick left.
   */
  predicate RoundSpec(
    reg: Registry, tried: set<string>, lastError: LastError,
    upstream: Upstream, probe: nat -> UsageOutcome, sync: nat -> UsageOutcome, round: Round)
  {
    match round
    case NoNode(r) => Picked(reg, tried, r, None)
    case Forwarded(picked, i, s) =>
      Picked(reg, tried, picked, Some(i)) && Handled(picked, i, upstream, lastError, probe, sync, s)
  }

  /** The registry after the first `n` rounds of a request that started from `reg0`. */
  function RegistryAfter(reg0: Registry, rounds: seq<Round>, n: nat): Registry
    requires n <= |rounds|
  {
    if n == 0 then reg0 else RoundRegistry(rounds[n - 1])
  }

  /** The error remembered after the first `n` rounds, each of which forwarded. */
  function ErrorAfter(rounds: seq<Round>, n: nat): LastError
    requires n <= |rounds|
  {
    if n == 0 then NoError
    else match rounds[n - 1]
      case NoNode(_) => NoError
      case Forwarded(_, _, s) => if s.Relayed? then NoError else s.lastError
  }

  /**
   * `rounds` is the run of one request from `reg0` that forwarded to
   * `forwarded`, in order: nothing yet, or a non-empty run. (The definition
   * is split over three predicates so that a run's last round is only
   * looked into where a proof asks for it.)
   */
  predicate Run(
    reg0: Registry, rounds: seq<Round>, forwarded: seq<nat>,
    upstream: nat -> Upstream, probe: nat -> nat -> UsageOutcome, sync: nat -> nat -> UsageOutcome)
    requires forall k | 0 <= k < |forwarded| :: forwarded[k] < |reg0.nodes|
    decreases |rounds|, 2
  {
    if rounds == [] then forwarded == [] else NonEmptyRun(reg0, rounds, forwarded, upstream, probe, sync)
  }

  /**
   * A run followed by one more round: every round but the last retried, only
   * a last round may find no node, and `forwarded` lists the nodes of the
   * rounds that forwarded.
   */
  predicate NonEmptyRun(
    reg0: Registry, rounds: seq<Round>, forwarded: seq<nat>,
    upstream: nat -> Upstream, probe: nat -> nat -> UsageOutcome, sync: nat -> nat -> UsageOutcome)
    requires forall k | 0 <= k < |forwarded| :: forwarded[k] < |reg0.nodes|
    requires rounds != []
    decreases |rounds|, 1
  {
    var n := |rounds| - 1;
    && |forwarded| == (if rounds[n].Forwarded? then n + 1 else n)
    && (rounds[n].Forwarded? ==> forwarded[n] == rounds[n].node)
    && (forall r | 0 <= r < n :: rounds[r].Forwarded? && rounds[r].step.Retry?)
    && LastRound(reg0, rounds, forwarded, upstream, probe, sync)
  }

  /**
   * The rounds before the last one form a run, and the last round, attempt
   * `|rounds|`, starts from the registry that run left, with the ids it
   * forwarded to counted as tried and the error it remembered, and behaves
   * as `RoundSpec` says.
   */
  predicate LastRound(
    reg0: Registry, rounds: seq<Round>, forwarded: seq<nat>,
    upstream: nat -> Upstream, probe: nat -> nat -> UsageOutcome, sync: nat -> nat -> UsageOutcome)
    requires forall k | 0 <= k < |forwarded| :: forwarded[k] < |reg0.nodes|
    requires rounds != [] && |rounds| - 1 <= |forwarded|
    decreases |rounds|, 0
  {
    var n := |rounds| - 1;
    && Run(reg0, rounds[..n], forwarded[..n], upstream, probe, sync)
    && RoundSpec(RegistryAfter(reg0, rounds, n), IdsOf(reg0.nodes, forwarded[..n]), ErrorAfter(rounds, n),
                 upstream(n + 1), probe(n + 1), sync(n + 1), rounds[n])
  }

  /**
   * The last round of a run picks from the registry the earlier rounds left,
   * avoiding the ids they forwarded to, and forwards as `RoundSpec` says;
   * the rounds before it form a run themselves.
   */
  lemma RunLastRound(
    reg0: Registry, rounds: seq<Round>, forwarded: seq<nat>,
    upstream: nat -> Upstream, probe: nat -> nat -> UsageOutcome, sync: nat -> nat -> UsageOutcome)
    requires forall k | 0 <= k < |forwarded| :: forwarded[k] < |reg0.nodes|
    requires Run(reg0, rounds, forwarded, upstream, probe, sync) && rounds != []
    ensures var n := |rounds| - 1;
      && n <= |forwarded|
      && Run(reg0, rounds[..n], forwarded[..n], upstream, probe, sync)
      && RoundSpec(RegistryAfter(reg0, rounds, n), IdsOf(reg0.nodes, forwarded[..n]), ErrorAfter(rounds, n),
                   upstream(n + 1), probe(n + 1), sync(n + 1), rounds[n])
  {
    assert NonEmptyRun(reg0, rounds, forwarded, upstream, probe, sync);
    assert LastRound(reg0, rounds, forwarded, upstream, probe, sync);
  }

  /**
   * The handler's state between rounds: `rounds` is a run from `reg0` in
   * which every round retried, `forwarded` its forwards (distinct ids, at
   * most one per registered node), `reg` and `lastError` the registry and
   * error it left. The first forward went to the selector's choice, and the
   * last forward's answer was not one to relay.
   */
  predicate Retrying(
    reg0: Registry, rounds: seq<Round>, forwarded: seq<nat>, reg: Registry, lastError: LastError,
    upstream: nat -> Upstream, probe: nat -> nat -> UsageOutcome, sync: nat -> nat -> UsageOutcome)
  {
    && (forall k | 0 <= k < |forwarded| :: forwarded[k] < |reg0.nodes|)
    && |forwarded| <= |reg0.nodes|
    && DistinctIds(reg0.nodes, forwarded)
    && SameIdentity(reg0.nodes, reg.nodes)
    && Run(reg0, rounds, forwarded, upstream, probe, sync) && |rounds| == |forwarded|
    && (forall r | 0 <= r < |rounds| :: rounds[r].Forwarded? && rounds[r].step.Retry?)
    && reg == RegistryAfter(reg0, rounds, |rounds|) && lastError == ErrorAfter(rounds, |rounds|)
    && (forwarded != [] ==> GetActiveNode(reg0).chosen == Some(forwarded[0]))
    && (forwarded != [] ==> !(upstream(|forwarded|).Responded? && !IsQuotaSignal(upstream(|forwarded|).status)))
  }

  /**
   * What one more round after the state `rounds`/`forwarded`/`reg` promises:
   * a forward goes to a node whose id was not tried, and the run extended by
   * the round is again a run, so the pick and the forward behave as
   * `RoundSpec` says. Spelled out for the handler: no node is picked only
   * when none is available and untried; the first pick is the selector's; a
   * relayed answer leaves the forwarded node active without failures; a
   * give-up means no other node of the picked registry succeeds.
   */
  predicate Attempted(
    reg0: Registry, rounds: seq<Round>, forwarded: seq<nat>, reg: Registry,
    upstream: nat -> Upstream, probe: nat -> nat -> UsageOutcome, sync: nat -> nat -> UsageOutcome, round: Round)
    requires forall k | 0 <= k < |forwarded| :: forwarded[k] < |reg0.nodes|
  {
    && (round.Forwarded? ==>
          round.node < |reg0.nodes| && reg0.nodes[round.node].id !in IdsOf(reg0.nodes, forwarded))
    && Run(reg0, rounds + [round], if round.Forwarded? then forwarded + [round.node] else forwarded,
           upstream, probe, sync)
    && SameIdentity(reg0.nodes, RoundRegistry(round).nodes)
    && (round.NoNode? ==>
          && (forall k | 0 <= k < |reg.nodes| :: !AvailableUntried(reg.nodes[k], IdsOf(reg0.nodes, forwarded)))
          && (forwarded == [] ==> round.reg == reg))
    && (round.Forwarded? ==>
          && (forwarded == [] ==> GetActiveNode(reg).chosen == Some(round.node))
          && (round.step.Relayed? <==>
                upstream(|forwarded| + 1).Responded? && !IsQuotaSignal(upstream(|forwarded| + 1).status)))
    && (round.Forwarded? && round.step.Relayed? ==>
          && upstream(|forwarded| + 1) == Responded(round.step.status)
          && round.step.reg.active == round.node
          && round.step.reg.nodes[round.node].consecutiveFailures == 0)
    && (round.Forwarded? && round.step.GiveUp? ==>
          forall j | 0 <= j < |round.picked.nodes| && j != round.node ::
            !Succeeds(round.picked.nodes[j], probe(|forwarded| + 1)(j), sync(|forwarded| + 1)(j)))
  }

  /**
   * One round of the handler, attempt `|forwarded| + 1`: pick an untried
   * node and forward to it.
   */
  method Attempt(
    reg0: Registry, rounds: seq<Round>, forwarded: seq<nat>, reg: Registry, lastError: LastError,
    upstream: nat -> Upstream, probe: nat -> nat -> UsageOutcome, sync: nat -> nat -> UsageOutcome)
    returns (round: Round)
    requires Retrying(reg0, rounds, forwarded, reg, lastError, upstream, probe, sync)
    ensures Attempted(reg0, rounds, forwarded, reg, upstream, probe, sync, round)
  {
    var a := |forwarded| + 1;
    var tried := IdsOf(reg0.nodes, forwarded);
    var picked, chosen := PickUntried(reg, tried);
    SameIdentityTransitive(reg0.nodes, reg.nodes, picked.nodes);
    if chosen.None? {
      round := NoNode(picked);
    } else {
      var i := chosen.value;
      var step := ForwardStep(picked, i, upstream(a), lastError, probe(a), sync(a));
      SameIdentityTransitive(reg0.nodes, picked.nodes, step.reg.nodes);
      round := Forwarded(picked, i, step);
    }
    RunExtends(reg0, rounds, forwarded, reg, lastError, a, round, upstream, probe, sync);
  }

  /** A run that only retried so far extends by its next round, which forwarded to one more node or found none. */
  lemma RunExtends(
    reg0: Registry, rounds: seq<Round>, forwarded: seq<nat>, reg: Registry, lastError: LastError, a: nat, round: Round,
    upstream: nat -> Upstream, probe: nat -> nat -> UsageOutcome, sync: nat -> nat -> UsageOutcome)
    requires forall k | 0 <= k < |forwarded| :: forwarded[k] < |reg0.nodes|
    requires Run(reg0, rounds, forwarded, upstream, probe, sync) && |rounds| == |forwarded|
    requires forall r | 0 <= r < |rounds| :: rounds[r].Forwarded? && rounds[r].step.Retry?
    requires reg == RegistryAfter(reg0, rounds, |rounds|) && lastError == ErrorAfter(rounds, |rounds|) && a == |rounds| + 1
    requires RoundSpec(reg, IdsOf(reg0.nodes, forwarded), lastError, upstream(a), probe(a), sync(a), round)
    requires round.Forwarded? ==> round.node < |reg0.nodes|
    ensures var forwarded' := if round.Forwarded? then forwarded + [round.node] else forwarded;
      Run(reg0, rounds + [round], forwarded', upstream, probe, sync)
  {
    var forwarded' := if round.Forwarded? then forwarded + [round.node] else forwarded;
    var rounds' := rounds + [round];
    AppendRound(reg0, rounds, forwarded, round);
    assert LastRound(reg0, rounds', forwarded', upstream, probe, sync);
    assert NonEmptyRun(reg0, rounds', forwarded', upstream, probe, sync);
  }

  /** Appending a round to a run that only retried keeps everything its rounds so far determine. */
  lemma AppendRound(reg0: Registry, rounds: seq<Round>, forwarded: seq<nat>, round: Round)
    requires |rounds| == |forwarded|
    requires forall r | 0 <= r < |rounds| :: rounds[r].Forwarded? && rounds[r].step.Retry?
    ensures var forwarded' := if round.Forwarded? then forwarded + [round.node] else forwarded;
      var rounds' := rounds + [round];
      && |rounds'| - 1 == |rounds| && rounds'[|rounds|] == round
      && rounds'[..|rounds|] == rounds && forwarded'[..|rounds|] == forwarded
      && |forwarded'| == (if round.Forwarded? then |rounds| + 1 else |rounds|)
      && (round.Forwarded? ==> forwarded'[|rounds|] == round.node)
      && (forall r | 0 <= r < |rounds| :: rounds'[r].Forwarded? && rounds'[r].step.Retry?)
      && RegistryAfter(reg0, rounds', |rounds|) == RegistryAfter(reg0, rounds, |rounds|)
      && ErrorAfter(rounds', |rounds|) == ErrorAfter(rounds, |rounds|)
  {
    var forwarded' := if round.Forwarded? then forwarded + [round.node] else forwarded;
    var rounds' := rounds + [round];
    assert rounds'[..|rounds|] == rounds;
    assert forwarded'[..|rounds|] == forwarded;
  }

  /**
   * Why a request that forwarded to fewer nodes than are registered ended
   * with 503: in its last round either no node of the registry it started
   * from was available and untried, or the forward failed and no other node
   * of the registry the failover ran on succeeds.
   */
  predicate ExhaustedEarly(
    reg0: Registry, rounds: seq<Round>, forwarded: seq<nat>,
    probe: nat -> nat -> UsageOutcome, sync: nat -> nat -> UsageOutcome)
    requires forall k | 0 <= k < |forwarded| :: forwarded[k] < |reg0.nodes|
  {
    |rounds| > 0 &&
    match rounds[|rounds| - 1]
    case NoNode(_) =>
      var before := RegistryAfter(reg0, rounds, |rounds| - 1);
      forall k | 0 <= k < |before.nodes| :: !AvailableUntried(before.nodes[k], IdsOf(reg0.nodes, forwarded))
    case Forwarded(picked, i, s) =>
      s.GiveUp? &&
      forall j | 0 <= j < |picked.nodes| && j != i :: !Succeeds(picked.nodes[j], probe(|rounds|)(j), sync(|rounds|)(j))
  }

  /**
   * What the handler promises for a request that found the registry `reg0`.
   * `forwarded` lists the nodes forwarded to, in order (at most one per
   * registered node, never two with the same id), and `rounds` the rounds of
   * the loop, a run from `reg0` whose last registry is `reg`. There is a
   * round iff a node is registered. The loop stops after a retry only once
   * every registered node was forwarded to. The reply relays exactly when
   * the last round relayed, and then carries the last forward's non-quota
   * status from the active node, which has no consecutive failures;
   * otherwise it is 503 `service_unavailable` with the error remembered
   * last, and with fewer forwards than nodes only because nothing was left
   * (`ExhaustedEarly`). When any node is available the first forward goes
   * to the selector's choice; when none is, nothing is forwarded and nothing
   * changes.
   */
  predicate Handles(
    reg0: Registry, upstream: nat -> Upstream, probe: nat -> nat -> UsageOutcome, sync: nat -> nat -> UsageOutcome,
    reg: Registry, reply: Reply, forwarded: seq<nat>, rounds: seq<Round>)
  {
    && (forall k | 0 <= k < |forwarded| :: forwarded[k] < |reg0.nodes|)
    && |forwarded| <= |reg0.nodes|
    && DistinctIds(reg0.nodes, forwarded)
    && SameIdentity(reg0.nodes, reg.nodes)
    && Run(reg0, rounds, forwarded, upstream, probe, sync)
    && |forwarded| <= |rounds| <= |forwarded| + 1
    && reg == RegistryAfter(reg0, rounds, |rounds|)
    && (|rounds| == 0 <==> |reg0.nodes| == 0)
    && (|rounds| > 0 && rounds[|rounds| - 1].Forwarded? && rounds[|rounds| - 1].step.Retry? ==>
          |forwarded| == |reg0.nodes|)
    && (reply.Relay? <==> |rounds| > 0 && rounds[|rounds| - 1].Forwarded? && rounds[|rounds| - 1].step.Relayed?)
    && (reply.Relay? ==>
          && |forwarded| > 0 && reply.node == forwarded[|forwarded| - 1]
          && upstream(|forwarded|) == Responded(reply.status)
          && !IsQuotaSignal(reply.status)
          && reply.node < |reg.nodes| && reg.nodes[reply.node].consecutiveFailures == 0
          && reg.active == reply.node)
    && (|forwarded| > 0 && upstream(|forwarded|).Responded? && !IsQuotaSignal(upstream(|forwarded|).status) ==>
          reply == Relay(upstream(|forwarded|).status, forwarded[|forwarded| - 1]))
    && ((exists k | 0 <= k < |reg0.nodes| :: IsAvailable(reg0.nodes[k])) ==>
          forwarded != [] && GetActiveNode(reg0).chosen == Some(forwarded[0]))
    && (reply.Unavailable? ==> reply == Unavailable(503, "service_unavailable", ErrorAfter(rounds, |forwarded|)))
    && (reply.Unavailable? && |forwarded| < |reg0.nodes| ==> ExhaustedEarly(reg0, rounds, forwarded, probe, sync))
    && ((forall k | 0 <= k < |reg0.nodes| :: !IsAvailable(reg0.nodes[k])) ==>
          reg == reg0 && forwarded == [] && reply == Unavailable(503, "service_unavailable", NoError))
  }

  /** The handler's reply after a round that ends the request. */
  function FinalReply(round: Round, lastError: LastError): Reply {
    match round
    case NoNode(_) => Unavailable(503, "service_unavailable", lastError)
    case Forwarded(_, i, s) =>
      if s.Relayed? then Relay(s.status, i) else Unavailable(503, "service_unavailable", s.lastError)
  }

  /** After a round that retried, the handler is again between rounds. */
  lemma RetryContinues(
    reg0: Registry, rounds: seq<Round>, forwarded: seq<nat>, reg: Registry, lastError: LastError,
    upstream: nat -> Upstream, probe: nat -> nat -> UsageOutcome, sync: nat -> nat -> UsageOutcome, round: Round)
    requires Retrying(reg0, rounds, forwarded, reg, lastError, upstream, probe, sync)
    requires |forwarded| < |reg0.nodes|
    requires Attempted(reg0, rounds, forwarded, reg, upstream, probe, sync, round)
    requires round.Forwarded? && round.step.Retry?
    ensures Retrying(reg0, rounds + [round], forwarded + [round.node], round.step.reg, round.step.lastError,
                     upstream, probe, sync)
  {
    var rounds' := rounds + [round];
    var forwarded' := forwarded + [round.node];
    RecordForward(reg0.nodes, forwarded, round.node);
    assert forall r | 0 <= r < |rounds| :: rounds'[r] == rounds[r];
    assert rounds'[|rounds|] == round;
    if forwarded != [] {
      assert forwarded'[0] == forwarded[0];
    } else {
      assert RegistryAfter(reg0, rounds, |rounds|) == reg0;
    }
  }

  /** A round that relays, finds no node or gives up ends the request with what `Handles` promises. */
  lemma RoundConcludes(
    reg0: Registry, rounds: seq<Round>, forwarded: seq<nat>, reg: Registry, lastError: LastError,
    upstream: nat -> Upstream, probe: nat -> nat -> UsageOutcome, sync: nat -> nat -> UsageOutcome, round: Round)
    requires Retrying(reg0, rounds, forwarded, reg, lastError, upstream, probe, sync)
    requires |forwarded| < |reg0.nodes|
    requires Attempted(reg0, rounds, forwarded, reg, upstream, probe, sync, round)
    requires !(round.Forwarded? && round.step.Retry?)
    ensures Handles(reg0, upstream, probe, sync, RoundRegistry(round), FinalReply(round, lastError),
                    if round.Forwarded? then forwarded + [round.node] else forwarded, rounds + [round])
  {
    if round.NoNode? {
      NoNodeConcludes(reg0, rounds, forwarded, reg, lastError, upstream, probe, sync, round);
    } else if round.step.Relayed? {
      RelayConcludes(reg0, rounds, forwarded, reg, lastError, upstream, probe, sync, round);
    } else {
      GiveUpConcludes(reg0, rounds, forwarded, reg, lastError, upstream, probe, sync, round);
    }
  }

  /** A round that finds no available untried node ends the request with 503 and the error remembered so far. */
  lemma NoNodeConcludes(
    reg0: Registry, rounds: seq<Round>, forwarded: seq<nat>, reg: Registry, lastError: LastError,
    upstream: nat -> Upstream, probe: nat -> nat -> UsageOutcome, sync: nat -> nat -> UsageOutcome, round: Round)
    requires Retrying(reg0, rounds, forwarded, reg, lastError, upstream, probe, sync)
    requires |forwarded| < |reg0.nodes|
    requires Attempted(reg0, rounds, forwarded, reg, upstream, probe, sync, round)
    requires round.NoNode?
    ensures Handles(reg0, upstream, probe, sync, RoundRegistry(round), FinalReply(round, lastError),
                    if round.Forwarded? then forwarded + [round.node] else forwarded, rounds + [round])
  {
    var rounds' := rounds + [round];
    AppendRound(reg0, rounds, forwarded, round);
    assert ErrorAfter(rounds', |forwarded|) == lastError;
    if forwarded == [] {
      assert reg == reg0;
      assert forall k | 0 <= k < |reg0.nodes| :: !AvailableUntried(reg0.nodes[k], {});
    }
  }

  /** A round whose forward is answered with a non-quota status relays it from the forwarded node. */
  lemma RelayConcludes(
    reg0: Registry, rounds: seq<Round>, forwarded: seq<nat>, reg: Registry, lastError: LastError,
    upstream: nat -> Upstream, probe: nat -> nat -> UsageOutcome, sync: nat -> nat -> UsageOutcome, round: Round)
    requires Retrying(reg0, rounds, forwarded, reg, lastError, upstream, probe, sync)
    requires |forwarded| < |reg0.nodes|
    requires Attempted(reg0, rounds, forwarded, reg, upstream, probe, sync, round)
    requires round.Forwarded? && round.step.Relayed?
    ensures Handles(reg0, upstream, probe, sync, RoundRegistry(round), FinalReply(round, lastError),
                    if round.Forwarded? then forwarded + [round.node] else forwarded, rounds + [round])
  {
    var forwarded' := forwarded + [round.node];
    AppendRound(reg0, rounds, forwarded, round);
    RecordForward(reg0.nodes, forwarded, round.node);
    assert forwarded != [] ==> forwarded'[0] == forwarded[0];
    assert forwarded == [] ==> reg == reg0;
  }

  /** A round whose failover finds nothing ends the request with 503 and the forward's error. */
  lemma GiveUpConcludes(
    reg0: Registry, rounds: seq<Round>, forwarded: seq<nat>, reg: Registry, lastError: LastError,
    upstream: nat -> Upstream, probe: nat -> nat -> UsageOutcome, sync: nat -> nat -> UsageOutcome, round: Round)
    requires Retrying(reg0, rounds, forwarded, reg, lastError, upstream, probe, sync)
    requires |forwarded| < |reg0.nodes|
    requires Attempted(reg0, rounds, forwarded, reg, upstream, probe, sync, round)
    requires round.Forwarded? && round.step.GiveUp?
    ensures Handles(reg0, upstream, probe, sync, RoundRegistry(round), FinalReply(round, lastError),
                    if round.Forwarded? then forwarded + [round.node] else forwarded, rounds + [round])
  {
    var rounds' := rounds + [round];
    var forwarded' := forwarded + [round.node];
    AppendRound(reg0, rounds, forwarded, round);
    RecordForward(reg0.nodes, forwarded, round.node);
    assert forwarded != [] ==> forwarded'[0] == forwarded[0];
    assert forwarded == [] ==> reg == reg0;
    assert ErrorAfter(rounds', |forwarded'|) == round.step.lastError;
  }

  /** A request that forwarded to every registered node, each time retrying, ends with 503 as `Handles` promises. */
  lemma ExhaustedConcludes(
    reg0: Registry, rounds: seq<Round>, forwarded: seq<nat>, reg: Registry, lastError: LastError,
    upstream: nat -> Upstream, probe: nat -> nat -> UsageOutcome, sync: nat -> nat -> UsageOutcome)
    requires Retrying(reg0, rounds, forwarded, reg, lastError, upstream, probe, sync)
    requires |forwarded| >= |reg0.nodes|
    ensures Handles(reg0, upstream, probe, sync, reg, Unavailable(503, "service_unavailable", lastError), forwarded, rounds)
  {
    if |reg0.nodes| > 0 {
      assert rounds[|rounds| - 1].Forwarded?;
    }
  }

  /**
   * The handler for `/v1/...`. `upstream(a)` is what forwarding on attempt
   * `a` (counted from 1) produced, and `probe(a)(j)` / `sync(a)(j)` what the
   * failover after attempt `a` saw at node `j`. Each round picks an untried
   * node and forwards to it; the loop retries until a response is relayed,
   * no untried node is available, a failover finds nothing, or every
   * registered node was forwarded to, and then relays or answers 503.
   */
  method HandleProxy(
    reg0: Registry,
    upstream: nat -> Upstream,
    probe: nat -> nat -> UsageOutcome,
    sync: nat -> nat -> UsageOutcome)
    returns (reg: Registry, reply: Reply, forwarded: seq<nat>, rounds: seq<Round>)
    ensures Handles(reg0, upstream, probe, sync, reg, reply, forwarded, rounds)
  {
    reg := reg0;
    forwarded := [];
    rounds := [];
    var lastError := NoError;
    while |forwarded| < |reg0.nodes|
      invariant Retrying(reg0, rounds, forwarded, reg, lastError, upstream, probe, sync)
      decreases |reg0.nodes| - |forwarded|
    {
      var round := Attempt(reg0, rounds, forwarded, reg, lastError, upstream, probe, sync);
      if !(round.Forwarded? && round.step.Retry?) {
        RoundConcludes(reg0, rounds, forwarded, reg, lastError, upstream, probe, sync, round);
        reply := FinalReply(round, lastError);
        reg := RoundRegistry(round);
        forwarded := if round.Forwarded? then forwarded + [round.node] else forwarded;
        rounds := rounds + [round];
        return;
      }
      RetryContinues(reg0, rounds, forwarded, reg, lastError, upstream, probe, sync, round);
      rounds := rounds + [round];
      forwarded := forwarded + [round.node];
      reg := round.step.reg;
      lastError := round.step.lastError;
    }
    ExhaustedConcludes(reg0, rounds, forwarded, reg, lastError, upstream, probe, sync);
    reply := Unavailable(503, "service_unavailable", lastError);
  }
}
