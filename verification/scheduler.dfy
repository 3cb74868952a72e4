/**
 * One step of each background sweep, as filter-then-apply: the periodic
 * quota sweep over every node not INVALID_TOKEN, and the offline-recovery
 * sweep over every OFFLINE node. Timers and the interleaving of sweeps with
 * requests are not modelled; each sweep's outcomes are oracle inputs
 * indexed by node position.
 */
module Scheduler {
  import opened Nodes
  import opened Quota

  predicate NotInvalidToken(n: Node) { n.status != InvalidToken }

  predicate IsOffline(n: Node) { n.status == Offline }

  /** The periodic quota sweep's targets: every node except INVALID_TOKEN ones (DRAINED nodes included). */
  function QuotaSweepTargets(nodes: seq<Node>): seq<nat> {
    IndicesWhere(nodes, |nodes|, NotInvalidToken)
  }

  /** The recovery sweep's targets: the OFFLINE nodes. */
  function RecoveryTargets(nodes: seq<Node>): seq<nat> {
    IndicesWhere(nodes, |nodes|, IsOffline)
  }

  /** Replace the node at each target index by `step` of it; targets are ascending, so each is touched once. */
  function UpdateAt(nodes: seq<Node>, targets: seq<nat>, step: (nat, Node) -> Node): (r: seq<Node>)
    requires forall k | 0 <= k < |targets| :: targets[k] < |nodes|
    requires forall x, y | 0 <= x < y < |targets| :: targets[x] < targets[y]
    ensures |r| == |nodes|
    ensures forall j | 0 <= j < |nodes| && j in targets :: r[j] == step(j, nodes[j])
    ensures forall j | 0 <= j < |nodes| && j !in targets :: r[j] == nodes[j]
    decreases |targets|
  {
    if |targets| == 0 then nodes
    else
      var last := targets[|targets| - 1];
      var front := targets[..|targets| - 1];
      assert forall k | 0 <= k < |front| :: front[k] == targets[k];
      var r := UpdateAt(nodes, front, step);
      assert last !in front;
      assert forall j :: j in targets <==> j in front || j == last;
      r[last := step(last, nodes[last])]
  }

  function SyncStep(sync: nat -> UsageOutcome): (nat, Node) -> Node {
    (j: nat, n: Node) => ApplySync(n, sync(j))
  }

  /** A sweep that syncs exactly the nodes that are not INVALID_TOKEN and leaves the others untouched. */
  function QuotaSweep(nodes: seq<Node>, sync: nat -> UsageOutcome): (r: seq<Node>)
    ensures SameIdentity(nodes, r)
    ensures forall j | 0 <= j < |nodes| ::
      r[j] == if nodes[j].status == InvalidToken then nodes[j] else ApplySync(nodes[j], sync(j))
  {
    var targets := QuotaSweepTargets(nodes);
    var r := UpdateAt(nodes, targets, SyncStep(sync));
    assert forall j | 0 <= j < |nodes| ::
      r[j] == if nodes[j].status == InvalidToken then nodes[j] else ApplySync(nodes[j], sync(j)) by {
      forall j | 0 <= j < |nodes|
        ensures r[j] == if nodes[j].status == InvalidToken then nodes[j] else ApplySync(nodes[j], sync(j))
      {
        if nodes[j].status != InvalidToken {
          assert j in targets;
          assert r[j] == SyncStep(sync)(j, nodes[j]);
        } else {
          assert j !in targets;
        }
      }
    }
    r
  }

  /** The start-up sweep syncs every node. */
  function InitialSweep(nodes: seq<Node>, sync: nat -> UsageOutcome): (r: seq<Node>)
    ensures SameIdentity(nodes, r)
    ensures forall j | 0 <= j < |nodes| :: r[j] == ApplySync(nodes[j], sync(j))
  {
    var all := IndicesWhere(nodes, |nodes|, _ => true);
    UpdateAt(nodes, all, SyncStep(sync))
  }

  /** On a freshly initialised registry the start-up sweep and a periodic sweep do the same thing. */
  lemma InitialSweepIsQuotaSweep(configs: seq<NodeConfig>, sync: nat -> UsageOutcome)
    ensures var nodes := InitRegistry(configs).nodes; InitialSweep(nodes, sync) == QuotaSweep(nodes, sync)
  {
    var nodes := InitRegistry(configs).nodes;
    assert forall j | 0 <= j < |nodes| :: nodes[j].status == Unknown;
  }

  /** Recovery of one OFFLINE node: if reachable, clear its consecutive failures, then sync it. */
  function RecoverStep(probe: nat -> UsageOutcome, sync: nat -> UsageOutcome): (nat, Node) -> Node {
    (j: nat, n: Node) =>
      if CheckNodeReachable(probe(j)) then ApplySync(n.(consecutiveFailures := 0), sync(j)) else n
  }

  /**
   * The offline-recovery sweep: only OFFLINE nodes are probed; an unreachable
   * one is left exactly as it was; a reachable one is synced after its
   * consecutive failures are cleared, so a failed sync leaves it at one.
   */
  function RecoverySweep(nodes: seq<Node>, probe: nat -> UsageOutcome, sync: nat -> UsageOutcome): (r: seq<Node>)
    ensures SameIdentity(nodes, r)
    ensures forall j | 0 <= j < |nodes| && nodes[j].status != Offline :: r[j] == nodes[j]
    ensures forall j | 0 <= j < |nodes| && nodes[j].status == Offline && !CheckNodeReachable(probe(j)) :: r[j] == nodes[j]
    ensures forall j | 0 <= j < |nodes| && nodes[j].status == Offline && CheckNodeReachable(probe(j)) ::
      r[j] == ApplySync(nodes[j].(consecutiveFailures := 0), sync(j))
    ensures forall j | 0 <= j < |nodes| && nodes[j].status == Offline && CheckNodeReachable(probe(j)) && sync(j).Threw? ::
      r[j].consecutiveFailures == 1 && r[j].failureCount == nodes[j].failureCount + 1
  {
    UpdateAt(nodes, RecoveryTargets(nodes), RecoverStep(probe, sync))
  }

  /** No sweep ever touches an INVALID_TOKEN node. */
  lemma SweepsSkipInvalidToken(nodes: seq<Node>, probe: nat -> UsageOutcome, sync: nat -> UsageOutcome, j: nat)
    requires j < |nodes| && nodes[j].status == InvalidToken
    ensures QuotaSweep(nodes, sync)[j] == nodes[j]
    ensures RecoverySweep(nodes, probe, sync)[j] == nodes[j]
  {
  }

  /** A periodic sweep whose responses all carry documents is idempotent. */
  lemma QuotaSweepIdempotent(nodes: seq<Node>, sync: nat -> UsageOutcome)
    requires forall j | 0 <= j < |nodes| :: SyncSucceeded(sync(j))
    ensures QuotaSweep(QuotaSweep(nodes, sync), sync) == QuotaSweep(nodes, sync)
  {
    var once := QuotaSweep(nodes, sync);
    var twice := QuotaSweep(once, sync);
    forall j | 0 <= j < |nodes|
      ensures twice[j] == once[j]
    {
      if nodes[j].status != InvalidToken {
        SyncIdempotent(nodes[j], sync(j));
      }
    }
  }
}
