/**
 * Two walk-throughs of the gateway on a two-node registry, composed from
 * the pure transitions: start-up, a full quota sweep, request selection,
 * and the bookkeeping after the upstream answer.
 */
module Scenarios {
  import opened Options
  import opened Nodes
  import opened Quota
  import opened Selection
  import opened Scheduler
  import opened Proxy

  function RemainingDoc(q: int): UsageOutcome {
    Got(Doc(UsageDoc(Some(Snapshots(Some(Premium(Num(q), Absent, Absent)))))))
  }

  /**
   * Two nodes with quota 5 each: the last one is active from the start, is
   * the one a request uses, and has quota 4 after a 2xx answer.
   */
  lemma BothReadyLastServes(a: NodeConfig, b: NodeConfig)
    ensures
      var reg := InitRegistry([a, b]);
      var swept := reg.(nodes := InitialSweep(reg.nodes, _ => RemainingDoc(5)));
      var s := GetActiveNode(swept);
      && reg.active == 1
      && s.chosen == Some(1)
      && ApplyResponse(s.reg.nodes[1], 200).premiumRemaining == 4
  {
    var reg := InitRegistry([a, b]);
    var swept := reg.(nodes := InitialSweep(reg.nodes, _ => RemainingDoc(5)));
    assert IsAvailable(swept.nodes[1]);
  }

  /** Sync answers: 0 remaining for the second node, 5 for any other. */
  function LastDrained(j: nat): UsageOutcome {
    if j == 1 then RemainingDoc(0) else RemainingDoc(5)
  }

  /** When the last node's sync reports 0 remaining it is DRAINED, and the next request goes to the first node. */
  lemma DrainedLastFallsBack(a: NodeConfig, b: NodeConfig)
    ensures
      var reg := InitRegistry([a, b]);
      var swept := reg.(nodes := InitialSweep(reg.nodes, LastDrained));
      var s := GetActiveNode(swept);
      && swept.nodes[1].status == Drained
      && s.chosen == Some(0)
      && s.reg.active == 0
  {
    var reg := InitRegistry([a, b]);
    var swept := reg.(nodes := InitialSweep(reg.nodes, LastDrained));
    assert swept.nodes[1] == ApplySync(reg.nodes[1], RemainingDoc(0));
    assert swept.nodes[0] == ApplySync(reg.nodes[0], RemainingDoc(5));
    assert IsAvailable(swept.nodes[0]);
  }
}
