/**
 * The node record, the registry (`nodeRegistry` plus `activeNodeIndex`) and
 * the derived availability predicate of the gateway.
 * Timestamps (`lastCheck`, `lastHealthy`) are not modelled.
 */
module Nodes {
  import Decimal

  /** The status strings 'UNKNOWN', 'READY', 'DRAINED', 'OFFLINE', 'INVALID_TOKEN', 'RATE_LIMITED'. */
  datatype Status = Unknown | Ready | Drained | Offline | InvalidToken | RateLimited

  /** One upstream node. `premiumRemaining` is an unclamped integer: a sync may store a negative value. */
  datatype Node = Node(
    id: string,
    url: string,
    token: string,
    status: Status,
    premiumRemaining: int,
    failureCount: nat,
    consecutiveFailures: nat)

  /** An entry of the discovered node list: `{url, token}`. */
  datatype NodeConfig = NodeConfig(url: string, token: string)

  /** The node sequence together with the index of the preferred node. */
  datatype Registry = Registry(nodes: seq<Node>, active: nat)

  /** Availability is derived, never stored: READY, some quota left, and fewer than two consecutive failures. */
  predicate IsAvailable(n: Node) {
    n.status == Ready && n.premiumRemaining > 0 && n.consecutiveFailures < 2
  }

  /** The identifier given to the node registered at position `index`: `node-<index + 1>`. */
  function NodeId(index: nat): string {
    "node-" + Decimal.NatToDecimal(index + 1)
  }

  lemma NodeIdInjective(i: nat, j: nat)
    requires NodeId(i) == NodeId(j)
    ensures i == j
  {
    Decimal.PrefixedDecimalInjective("node-", i + 1, j + 1);
  }

  predicate UniqueIds(nodes: seq<Node>) {
    forall a, b | 0 <= a < |nodes| && 0 <= b < |nodes| && a != b :: nodes[a].id != nodes[b].id
  }

  /** `b` is `a` with every node keeping its identity and connection coordinates. */
  predicate SameIdentity(a: seq<Node>, b: seq<Node>) {
    |a| == |b| &&
    forall k | 0 <= k < |a| :: b[k].id == a[k].id && b[k].url == a[k].url && b[k].token == a[k].token
  }

  lemma SameIdentityTransitive(a: seq<Node>, b: seq<Node>, c: seq<Node>)
    requires SameIdentity(a, b) && SameIdentity(b, c)
    ensures SameIdentity(a, c)
  {
  }

  function FreshNode(index: nat, cfg: NodeConfig): Node {
    Node(NodeId(index), cfg.url, cfg.token, Unknown, 0, 0, 0)
  }

  /**
   * Registry initialisation at start-up: one UNKNOWN node per configuration
   * entry with zeroed quota and counters, and the last index as the active one
   * (0 for an empty registry).
   */
  function InitRegistry(configs: seq<NodeConfig>): (r: Registry)
    ensures |r.nodes| == |configs|
    ensures forall k | 0 <= k < |configs| ::
      && r.nodes[k].id == NodeId(k)
      && r.nodes[k].url == configs[k].url
      && r.nodes[k].token == configs[k].token
      && r.nodes[k].status == Unknown
      && r.nodes[k].premiumRemaining == 0
      && r.nodes[k].failureCount == 0
      && r.nodes[k].consecutiveFailures == 0
    ensures |configs| > 0 ==> r.active == |configs| - 1
    ensures |configs| == 0 ==> r.active == 0
    ensures UniqueIds(r.nodes)
    ensures forall k | 0 <= k < |r.nodes| :: !IsAvailable(r.nodes[k])
  {
    var nodes := seq(|configs|, k requires 0 <= k < |configs| => FreshNode(k, configs[k]));
    forall a, b | 0 <= a < |nodes| && 0 <= b < |nodes| && a != b
      ensures nodes[a].id != nodes[b].id
    {
      if nodes[a].id == nodes[b].id {
        NodeIdInjective(a, b);
      }
    }
    Registry(nodes, if |nodes| > 0 then |nodes| - 1 else 0)
  }

  /** Indices below `hi` whose node satisfies `p`, in ascending order (`nodeRegistry.filter`). */
  function IndicesWhere(nodes: seq<Node>, hi: nat, p: Node -> bool): (r: seq<nat>)
    requires hi <= |nodes|
    ensures forall k | 0 <= k < |r| :: r[k] < hi && p(nodes[r[k]])
    ensures forall j | 0 <= j < hi && p(nodes[j]) :: j in r
    ensures forall x, y | 0 <= x < y < |r| :: r[x] < r[y]
    decreases hi
  {
    if hi == 0 then []
    else
      var front := IndicesWhere(nodes, hi - 1, p);
      if p(nodes[hi - 1]) then front + [hi - 1] else front
  }
}
