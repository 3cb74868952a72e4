/**
 * Choosing the node a request uses (`getActiveNode`), the manual reset of the
 * active node (`/admin/reset-active-node`) and the `/health` summary. All
 * three prefer the highest index ("last registered is primary").
 */
module Selection {
  import opened Options
  import opened Nodes

  /**
   * The highest index below `hi` whose node satisfies `p`, scanning from
   * `hi - 1` down to 0, or None when no such node exists.
   */
  function HighestMatching(nodes: seq<Node>, hi: nat, p: Node -> bool): (r: Option<nat>)
    requires hi <= |nodes|
    ensures r.Some? ==> r.value < hi && p(nodes[r.value])
    ensures r.Some? ==> forall k | r.value < k < hi :: !p(nodes[k])
    ensures r.None? <==> forall k | 0 <= k < hi :: !p(nodes[k])
    decreases hi
  {
    if hi == 0 then None
    else if p(nodes[hi - 1]) then Some(hi - 1)
    else HighestMatching(nodes, hi - 1, p)
  }

  /** The registry after a selection, and the chosen index if any. */
  datatype Selection = Selection(reg: Registry, chosen: Option<nat>)

  predicate CurrentIsAvailable(reg: Registry) {
    reg.active < |reg.nodes| && IsAvailable(reg.nodes[reg.active])
  }

  /**
   * `getActiveNode`: keep the active node while it is available, otherwise
   * adopt the highest available index; with no available node, report none
   * and leave the registry as it is. Nodes are never modified.
   */
  function GetActiveNode(reg: Registry): (s: Selection)
    ensures s.reg.nodes == reg.nodes
    ensures s.chosen.Some? ==>
      s.chosen.value < |reg.nodes| && IsAvailable(reg.nodes[s.chosen.value]) && s.reg.active == s.chosen.value
    ensures s.chosen.None? <==> forall k | 0 <= k < |reg.nodes| :: !IsAvailable(reg.nodes[k])
    ensures s.chosen.None? ==> s.reg == reg
    ensures CurrentIsAvailable(reg) ==> s == Selection(reg, Some(reg.active))
    ensures !CurrentIsAvailable(reg) && s.chosen.Some? ==>
      forall k | s.chosen.value < k < |reg.nodes| :: !IsAvailable(reg.nodes[k])
  {
    if CurrentIsAvailable(reg) then Selection(reg, Some(reg.active))
    else
      match HighestMatching(reg.nodes, |reg.nodes|, IsAvailable)
      case None => Selection(reg, None)
      case Some(i) => Selection(reg.(active := i), Some(i))
  }

  /** Selection is stable: asking again right away gives the same node and the same registry. */
  lemma GetActiveNodeStable(reg: Registry)
    ensures var s := GetActiveNode(reg); GetActiveNode(s.reg) == s
  {
  }

  /** The manual reset looks only at status READY and a positive quota, not at the failure counter. */
  predicate ReadyWithQuota(n: Node) {
    n.status == Ready && n.premiumRemaining > 0
  }

  /** `/admin/reset-active-node` answers: success with the adopted index and node id, or failure. */
  datatype ResetReply = ResetOk(index: nat, nodeId: string) | ResetFailed

  /**
   * `/admin/reset-active-node`: force-adopt the highest READY node with
   * quota; when there is none, fail and leave the registry unchanged.
   */
  function ResetActiveNode(reg: Registry): (r: (Registry, ResetReply))
    ensures r.0.nodes == reg.nodes
    ensures r.1.ResetOk? ==>
      && r.1.index < |reg.nodes| && r.0.active == r.1.index
      && ReadyWithQuota(reg.nodes[r.1.index])
      && r.1.nodeId == reg.nodes[r.1.index].id
      && forall k | r.1.index < k < |reg.nodes| :: !ReadyWithQuota(reg.nodes[k])
    ensures r.1.ResetFailed? <==> forall k | 0 <= k < |reg.nodes| :: !ReadyWithQuota(reg.nodes[k])
    ensures r.1.ResetFailed? ==> r.0 == reg
  {
    match HighestMatching(reg.nodes, |reg.nodes|, ReadyWithQuota)
    case None => (reg, ResetFailed)
    case Some(i) => (reg.(active := i), ResetOk(i, reg.nodes[i].id))
  }

  /**
   * The reset never adopts a lower index than the selector's fallback scan
   * would, and it may adopt a node the selector refuses because of its
   * failure counter.
   */
  lemma ResetAtLeastAsHighAsSelection(reg: Registry)
    requires !CurrentIsAvailable(reg)
    ensures GetActiveNode(reg).chosen.Some? ==>
      ResetActiveNode(reg).1.ResetOk? && GetActiveNode(reg).chosen.value <= ResetActiveNode(reg).1.index
  {
    var s := GetActiveNode(reg);
    if s.chosen.Some? {
      var i := s.chosen.value;
      assert ReadyWithQuota(reg.nodes[i]);
    }
  }

  /** A READY node with quota but two failures in a row: the reset adopts it, the selector does not. */
  lemma ResetIgnoresFailureCounter()
    ensures var n := Node("node-1", "u", "t", Ready, 5, 0, 2);
      var reg := Registry([n], 0);
      ResetActiveNode(reg).1 == ResetOk(0, "node-1") && GetActiveNode(reg).chosen.None?
  {
    var n := Node("node-1", "u", "t", Ready, 5, 0, 2);
    assert !IsAvailable(n);
  }

  // ---- /health ----

  /** Number of available nodes: the length of the filtered node list. */
  function CountAvailable(nodes: seq<Node>): (c: nat)
    ensures c <= |nodes|
    ensures c > 0 <==> exists k | 0 <= k < |nodes| :: IsAvailable(nodes[k])
    ensures c == |IndicesWhere(nodes, |nodes|, IsAvailable)|
  {
    CountAvailableBelow(nodes, |nodes|)
  }

  /** Number of available nodes below index `hi`. */
  function CountAvailableBelow(nodes: seq<Node>, hi: nat): (c: nat)
    requires hi <= |nodes|
    ensures c <= hi
    ensures c > 0 <==> exists k | 0 <= k < hi :: IsAvailable(nodes[k])
    ensures c == |IndicesWhere(nodes, hi, IsAvailable)|
    decreases hi
  {
    if hi == 0 then 0
    else CountAvailableBelow(nodes, hi - 1) + (if IsAvailable(nodes[hi - 1]) then 1 else 0)
  }

  /** One entry of the `/health` node list. */
  datatype NodeView = NodeView(id: string, status: Status, quota: int, isActive: bool, consecutiveFailures: nat)

  /** The `/health` body: overall ok/degraded, active index and id, counts and per-node views. */
  datatype Health = Health(
    ok: bool,
    activeIndex: nat,
    activeId: Option<string>,
    availableCount: nat,
    totalCount: nat,
    nodes: seq<NodeView>)

  function ViewOf(n: Node, activeId: Option<string>): NodeView {
    NodeView(n.id, n.status, n.premiumRemaining, activeId == Some(n.id), n.consecutiveFailures)
  }

  /**
   * `/health`: `ok` exactly when some node is available; the active node is
   * the one at the active index when that index exists; a node is flagged
   * active by id, so with distinct ids exactly the active index is flagged.
   */
  function HealthSummary(reg: Registry): (h: Health)
    ensures h.ok <==> exists k | 0 <= k < |reg.nodes| :: IsAvailable(reg.nodes[k])
    ensures h.availableCount <= h.totalCount == |reg.nodes| == |h.nodes|
    ensures h.availableCount == |IndicesWhere(reg.nodes, |reg.nodes|, IsAvailable)|
    ensures h.activeIndex == reg.active
    ensures h.activeId.Some? <==> reg.active < |reg.nodes|
    ensures reg.active < |reg.nodes| ==> h.activeId == Some(reg.nodes[reg.active].id)
    ensures UniqueIds(reg.nodes) ==>
      forall k | 0 <= k < |reg.nodes| :: h.nodes[k].isActive <==> k == reg.active
    ensures forall k | 0 <= k < |reg.nodes| ::
      h.nodes[k].id == reg.nodes[k].id && h.nodes[k].status == reg.nodes[k].status &&
      h.nodes[k].quota == reg.nodes[k].premiumRemaining &&
      h.nodes[k].consecutiveFailures == reg.nodes[k].consecutiveFailures
  {
    var activeId := if reg.active < |reg.nodes| then Some(reg.nodes[reg.active].id) else None;
    var count := CountAvailable(reg.nodes);
    Health(count > 0, reg.active, activeId, count, |reg.nodes|, Views(reg.nodes, activeId))
  }

  /** The per-node entries; a node is flagged active when its id is the active id. */
  function Views(nodes: seq<Node>, activeId: Option<string>): (vs: seq<NodeView>)
    ensures |vs| == |nodes|
    ensures forall k | 0 <= k < |nodes| ::
      vs[k].id == nodes[k].id && vs[k].status == nodes[k].status &&
      vs[k].quota == nodes[k].premiumRemaining &&
      vs[k].consecutiveFailures == nodes[k].consecutiveFailures &&
      (vs[k].isActive <==> activeId == Some(nodes[k].id))
  {
    seq(|nodes|, k requires 0 <= k < |nodes| => ViewOf(nodes[k], activeId))
  }

  /** `/health` reports ok exactly when a request could be given a node right now. */
  lemma HealthOkIffSelectable(reg: Registry)
    ensures HealthSummary(reg).ok <==> GetActiveNode(reg).chosen.Some?
  {
  }
}
