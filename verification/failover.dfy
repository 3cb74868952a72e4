/**
 * `switchToNextNode`: the two-pass failover search. Pass A visits the indices
 * below the original active index, highest first; pass B wraps around and
 * visits the indices above it, again highest first. Reachability probes and
 * syncs are oracle inputs indexed by node position.
 */
module Failover {
  import opened Options
  import opened Nodes
  import opened Quota

  /** Indices `hi - 1, hi - 2, ..., lo`. */
  function Descending(hi: nat, lo: nat): (s: seq<nat>)
    ensures |s| == if lo <= hi then hi - lo else 0
    ensures forall k | 0 <= k < |s| :: s[k] == hi - 1 - k
    decreases hi
  {
    if hi <= lo then [] else [hi - 1] + Descending(hi - 1, lo)
  }

  /**
   * The order in which the search visits indices of a registry of size `n`
   * when the active index is `orig`. Indices at or beyond `n` do not name a
   * node and are passed over by the source, so they are not listed.
   */
  function VisitOrder(orig: nat, n: nat): seq<nat> {
    Descending(if orig < n then orig else n, 0) + Descending(n, orig + 1)
  }

  /**
   * The visit order lists every index of the registry except the original
   * one, each exactly once: pass A descending below `orig`, then pass B
   * descending above it.
   */
  lemma VisitOrderShape(orig: nat, n: nat)
    ensures forall k | 0 <= k < |VisitOrder(orig, n)| :: VisitOrder(orig, n)[k] < n
    ensures forall k | 0 <= k < |VisitOrder(orig, n)| :: VisitOrder(orig, n)[k] != orig
    ensures forall j | 0 <= j < n && j != orig :: j in VisitOrder(orig, n)
    ensures Distinct(VisitOrder(orig, n))
    ensures orig < n ==> |VisitOrder(orig, n)| == n - 1
  {
    var a := Descending(if orig < n then orig else n, 0);
    var b := Descending(n, orig + 1);
    var v := VisitOrder(orig, n);
    assert v == a + b;
    forall j | 0 <= j < n && j != orig
      ensures j in v
    {
      if j < orig {
        assert a[(if orig < n then orig else n) - 1 - j] == j;
      } else {
        assert b[n - 1 - j] == j;
        assert v[|a| + (n - 1 - j)] == j;
      }
    }
    forall x, y | 0 <= x < y < |v|
      ensures v[x] != v[y]
    {
      if y < |a| {
      } else if x >= |a| {
        assert v[x] == b[x - |a|] && v[y] == b[y - |a|];
      } else {
        assert v[x] == a[x] && v[y] == b[y - |a|];
      }
    }
  }

  /** The two facts the failover needs from the visit order: every index names a node, and the original index is not among them. */
  lemma VisitOrderExcludesActive(orig: nat, n: nat)
    ensures InRange(VisitOrder(orig, n), n)
    ensures orig !in VisitOrder(orig, n)
  {
    VisitOrderShape(orig, n);
  }

  predicate Distinct(s: seq<nat>) {
    forall x, y | 0 <= x < y < |s| :: s[x] != s[y]
  }

  /** Statuses the search passes over without probing. */
  predicate Skipped(n: Node) {
    n.status == InvalidToken || n.status == Offline
  }

  /** The registry after a search, and the node it settled on if any. */
  datatype Failover = Failover(reg: Registry, found: Option<nat>)

  predicate InRange(order: seq<nat>, n: nat) {
    forall k | 0 <= k < |order| :: order[k] < n
  }

  /**
   * Visit `order` in turn: skip INVALID_TOKEN and OFFLINE nodes; adopt a
   * reachable candidate as active, sync it, and stop if it is now available;
   * mark an unreachable candidate OFFLINE.
   */
  function Search(reg: Registry, order: seq<nat>, probe: nat -> UsageOutcome, sync: nat -> UsageOutcome): (f: Failover)
    requires InRange(order, |reg.nodes|)
    ensures SameIdentity(reg.nodes, f.reg.nodes)
    ensures f.found.Some? ==>
      && f.found.value in order
      && IsAvailable(f.reg.nodes[f.found.value])
      && f.reg.active == f.found.value
    ensures f.found.Some? ==> !Skipped(reg.nodes[f.found.value])
    ensures forall k | 0 <= k < |reg.nodes| && (k !in order || Skipped(reg.nodes[k])) :: f.reg.nodes[k] == reg.nodes[k]
    ensures f.reg.active == reg.active ||
      (f.reg.active in order && !Skipped(reg.nodes[f.reg.active]) && CheckNodeReachable(probe(f.reg.active)))
    decreases |order|
  {
    if |order| == 0 then Failover(reg, None)
    else
      var i := order[0];
      var next := VisitOne(reg, i, probe(i), sync(i));
      if Succeeds(reg.nodes[i], probe(i), sync(i)) then Failover(next, Some(i))
      else Search(next, order[1..], probe, sync)
  }

  /**
   * What a visit does to one candidate: a skipped node is left alone, a
   * reachable one is replaced by its synced record, an unreachable one is
   * marked OFFLINE.
   */
  function Visited(n: Node, probe: UsageOutcome, sync: UsageOutcome): (r: Node)
    ensures r.id == n.id && r.url == n.url && r.token == n.token
    ensures Skipped(n) ==> r == n
    ensures Succeeds(n, probe, sync) ==> IsAvailable(r)
  {
    if Skipped(n) then n
    else if CheckNodeReachable(probe) then ApplySync(n, sync)
    else n.(status := Offline)
  }

  /**
   * Visiting candidate `i`: a reachable candidate becomes the active index
   * and is synced; an unreachable one is marked OFFLINE; a skipped one is
   * left alone.
   */
  function VisitOne(reg: Registry, i: nat, probe: UsageOutcome, sync: UsageOutcome): (r: Registry)
    requires i < |reg.nodes|
    ensures r.nodes == reg.nodes[i := Visited(reg.nodes[i], probe, sync)]
    ensures r.active == if !Skipped(reg.nodes[i]) && CheckNodeReachable(probe) then i else reg.active
  {
    var node := reg.nodes[i];
    if Skipped(node) then reg
    else if CheckNodeReachable(probe) then Registry(reg.nodes[i := ApplySync(node, sync)], i)
    else reg.(nodes := reg.nodes[i := node.(status := Offline)])
  }

  /** A node the search would stop at: not passed over, reachable, and available once synced. */
  predicate Succeeds(n: Node, probe: UsageOutcome, sync: UsageOutcome) {
    !Skipped(n) && CheckNodeReachable(probe) && IsAvailable(ApplySync(n, sync))
  }

  /** Reference definition: the first index of `order` whose node succeeds, judged on the nodes as they were before the search. */
  function FirstSuccess(nodes: seq<Node>, order: seq<nat>, probe: nat -> UsageOutcome, sync: nat -> UsageOutcome): Option<nat>
    requires InRange(order, |nodes|)
    decreases |order|
  {
    if |order| == 0 then None
    else if Succeeds(nodes[order[0]], probe(order[0]), sync(order[0])) then Some(order[0])
    else FirstSuccess(nodes, order[1..], probe, sync)
  }

  /** The search reaches position `x` of the order when no earlier candidate succeeds. */
  predicate Reached(nodes: seq<Node>, order: seq<nat>, x: nat, probe: nat -> UsageOutcome, sync: nat -> UsageOutcome)
    requires InRange(order, |nodes|) && x <= |order|
  {
    forall y | 0 <= y < x :: !Succeeds(nodes[order[y]], probe(order[y]), sync(order[y]))
  }

  /** A candidate that does not succeed is unavailable once visited. */
  lemma VisitedUnavailable(n: Node, probe: UsageOutcome, sync: UsageOutcome)
    requires !Succeeds(n, probe, sync)
    ensures !IsAvailable(Visited(n, probe, sync))
  {
  }

  /** Past a first candidate that does not succeed, reaching a later position depends only on the rest of the order. */
  lemma ReachedShift(a: seq<Node>, b: seq<Node>, order: seq<nat>, x: nat, probe: nat -> UsageOutcome, sync: nat -> UsageOutcome)
    requires |a| == |b| && InRange(order, |a|) && 1 <= x <= |order|
    requires !Succeeds(a[order[0]], probe(order[0]), sync(order[0]))
    requires forall k | 1 <= k < |order| :: b[order[k]] == a[order[k]]
    ensures Reached(a, order, x, probe, sync) <==> Reached(b, order[1..], x - 1, probe, sync)
  {
    assert forall y | 1 <= y < x :: order[y] == order[1..][y - 1];
  }

  /**
   * The search's effect on each candidate: every candidate up to and
   * including the one it stops at has been visited, and every candidate
   * after it is unchanged.
   */
  lemma {:induction false} SearchEffect(reg: Registry, order: seq<nat>, probe: nat -> UsageOutcome, sync: nat -> UsageOutcome)
    requires InRange(order, |reg.nodes|)
    requires Distinct(order)
    ensures forall x | 0 <= x < |order| ::
      Search(reg, order, probe, sync).reg.nodes[order[x]] ==
        if Reached(reg.nodes, order, x, probe, sync) then Visited(reg.nodes[order[x]], probe(order[x]), sync(order[x]))
        else reg.nodes[order[x]]
    decreases |order|
  {
    if |order| > 0 {
      var f := Search(reg, order, probe, sync);
      var i := order[0];
      var rest := order[1..];
      var next := VisitOne(reg, i, probe(i), sync(i));
      assert Distinct(rest);
      assert forall k | 1 <= k < |order| :: order[k] != i && next.nodes[order[k]] == reg.nodes[order[k]];
      if Succeeds(reg.nodes[i], probe(i), sync(i)) {
        forall x | 1 <= x < |order|
          ensures !Reached(reg.nodes, order, x, probe, sync)
        {
        }
      } else {
        SearchEffect(next, rest, probe, sync);
        forall x | 1 <= x < |order|
          ensures f.reg.nodes[order[x]] ==
            if Reached(reg.nodes, order, x, probe, sync) then Visited(reg.nodes[order[x]], probe(order[x]), sync(order[x]))
            else reg.nodes[order[x]]
        {
          ReachedShift(reg.nodes, next.nodes, order, x, probe, sync);
          assert order[x] == rest[x - 1];
        }
        assert forall k | 0 <= k < |rest| :: rest[k] != i;
      }
    }
  }

  /** With every index visited once, the search settles on exactly the first succeeding node of the order. */
  lemma {:induction false} SearchFindsFirstSuccess(reg: Registry, order: seq<nat>, probe: nat -> UsageOutcome, sync: nat -> UsageOutcome)
    requires InRange(order, |reg.nodes|)
    requires Distinct(order)
    ensures Search(reg, order, probe, sync).found == FirstSuccess(reg.nodes, order, probe, sync)
    decreases |order|
  {
    if |order| > 0 {
      var i := order[0];
      var node := reg.nodes[i];
      var rest := order[1..];
      assert Distinct(rest);
      assert forall k | 0 <= k < |rest| :: rest[k] != i by {
        forall k | 0 <= k < |rest| ensures rest[k] != i {
          assert order[k + 1] == rest[k];
        }
      }
      if Skipped(node) {
        SearchFindsFirstSuccess(reg, rest, probe, sync);
      } else if CheckNodeReachable(probe(i)) {
        var synced := ApplySync(node, sync(i));
        var reg' := Registry(reg.nodes[i := synced], i);
        if !IsAvailable(synced) {
          SearchFindsFirstSuccess(reg', rest, probe, sync);
          FirstSuccessIgnoresUnvisited(reg.nodes, reg'.nodes, rest, probe, sync);
        }
      } else {
        var reg' := reg.(nodes := reg.nodes[i := node.(status := Offline)]);
        SearchFindsFirstSuccess(reg', rest, probe, sync);
        FirstSuccessIgnoresUnvisited(reg.nodes, reg'.nodes, rest, probe, sync);
      }
    }
  }

  /**
   * Reference definition: the active index a search leaves when it finds
   * nothing. Every candidate that is not passed over and answers the probe
   * is adopted in turn, so the last such candidate of `order` wins, judged on
   * the nodes as they were before the search; `current` when there is none.
   */
  function LastReachable(nodes: seq<Node>, order: seq<nat>, probe: nat -> UsageOutcome, current: nat): nat
    requires InRange(order, |nodes|)
    decreases |order|
  {
    if |order| == 0 then current
    else
      var i := order[0];
      LastReachable(nodes, order[1..], probe, if !Skipped(nodes[i]) && CheckNodeReachable(probe(i)) then i else current)
  }

  /** `LastReachable` reads only the nodes named in the order. */
  lemma {:induction false} LastReachableIgnoresUnvisited(a: seq<Node>, b: seq<Node>, order: seq<nat>, probe: nat -> UsageOutcome, current: nat)
    requires |a| == |b|
    requires InRange(order, |a|)
    requires forall k | 0 <= k < |order| :: a[order[k]] == b[order[k]]
    ensures LastReachable(a, order, probe, current) == LastReachable(b, order, probe, current)
    decreases |order|
  {
    if |order| > 0 {
      var i := order[0];
      var next := if !Skipped(a[i]) && CheckNodeReachable(probe(i)) then i else current;
      LastReachableIgnoresUnvisited(a, b, order[1..], probe, next);
    }
  }

  /**
   * A search that finds nothing leaves the active index at the last
   * candidate it adopted: the last one in the order that was not passed over
   * and answered the probe, or the original index when there was none.
   */
  lemma {:induction false} SearchFailsAtLastReachable(reg: Registry, order: seq<nat>, probe: nat -> UsageOutcome, sync: nat -> UsageOutcome)
    requires InRange(order, |reg.nodes|)
    requires Distinct(order)
    ensures var f := Search(reg, order, probe, sync);
      f.found.None? ==> f.reg.active == LastReachable(reg.nodes, order, probe, reg.active)
    decreases |order|
  {
    if |order| > 0 {
      var i := order[0];
      var rest := order[1..];
      var next := VisitOne(reg, i, probe(i), sync(i));
      if !Succeeds(reg.nodes[i], probe(i), sync(i)) {
        assert Distinct(rest);
        assert forall k | 0 <= k < |rest| :: rest[k] == order[k + 1] && rest[k] != i;
        SearchFailsAtLastReachable(next, rest, probe, sync);
        LastReachableIgnoresUnvisited(next.nodes, reg.nodes, rest, probe, next.active);
      }
    }
  }

  /** `FirstSuccess` reads only the nodes named in the order. */
  lemma {:induction false} FirstSuccessIgnoresUnvisited(a: seq<Node>, b: seq<Node>, order: seq<nat>, probe: nat -> UsageOutcome, sync: nat -> UsageOutcome)
    requires |a| == |b|
    requires InRange(order, |a|)
    requires forall k | 0 <= k < |order| :: a[order[k]] == b[order[k]]
    ensures FirstSuccess(a, order, probe, sync) == FirstSuccess(b, order, probe, sync)
    decreases |order|
  {
    if |order| > 0 {
      FirstSuccessIgnoresUnvisited(a, b, order[1..], probe, sync);
    }
  }

  /**
   * `switchToNextNode(failedNode, reason)`: optionally count one more
   * consecutive failure for the failed node, then search from the active
   * index. A result is an available node other than the original active one
   * and is the new active node; no INVALID_TOKEN or OFFLINE node is probed or
   * chosen.
   */
  function SwitchToNextNode(reg: Registry, failed: Option<nat>, probe: nat -> UsageOutcome, sync: nat -> UsageOutcome): (f: Failover)
    ensures SameIdentity(reg.nodes, f.reg.nodes)
    ensures f.found.Some? ==>
      && f.found.value < |reg.nodes|
      && f.found.value != reg.active
      && IsAvailable(f.reg.nodes[f.found.value])
      && f.reg.active == f.found.value
      && !Skipped(reg.nodes[f.found.value])
    ensures forall k | 0 <= k < |reg.nodes| && Skipped(reg.nodes[k]) && failed != Some(k) :: f.reg.nodes[k] == reg.nodes[k]
    ensures failed.None? && reg.active < |reg.nodes| ==> f.reg.nodes[reg.active] == reg.nodes[reg.active]
    ensures failed == Some(reg.active) && reg.active < |reg.nodes| ==>
      f.reg.nodes[reg.active] == reg.nodes[reg.active].(consecutiveFailures := reg.nodes[reg.active].consecutiveFailures + 1)
    ensures f.reg.active == reg.active ||
      (f.reg.active < |reg.nodes| && f.reg.active != reg.active && CheckNodeReachable(probe(f.reg.active)))
  {
    var start := BumpFailures(reg, failed);
    var order := VisitOrder(reg.active, |reg.nodes|);
    VisitOrderExcludesActive(reg.active, |reg.nodes|);
    Search(start, order, probe, sync)
  }

  /** The failed node, when given and present, counts one more consecutive failure; nothing else changes. */
  function BumpFailures(reg: Registry, failed: Option<nat>): (r: Registry)
    ensures SameIdentity(reg.nodes, r.nodes) && r.active == reg.active
    ensures forall k | 0 <= k < |reg.nodes| && failed != Some(k) :: r.nodes[k] == reg.nodes[k]
    ensures forall k | 0 <= k < |reg.nodes| && failed == Some(k) ::
      r.nodes[k] == reg.nodes[k].(consecutiveFailures := reg.nodes[k].consecutiveFailures + 1)
  {
    if failed.Some? && failed.value < |reg.nodes| then
      var k := failed.value;
      reg.(nodes := reg.nodes[k := reg.nodes[k].(consecutiveFailures := reg.nodes[k].consecutiveFailures + 1)])
    else reg
  }

  /** The outcome of `switchToNextNode` is the first succeeding node of the two-pass visit order. */
  lemma SwitchFindsFirstSuccess(reg: Registry, probe: nat -> UsageOutcome, sync: nat -> UsageOutcome)
    ensures SwitchToNextNode(reg, None, probe, sync).found ==
      FirstSuccess(reg.nodes, VisitOrder(reg.active, |reg.nodes|), probe, sync)
  {
    VisitOrderShape(reg.active, |reg.nodes|);
    SearchFindsFirstSuccess(reg, VisitOrder(reg.active, |reg.nodes|), probe, sync);
  }

  /** Failure means every other node was passed over, unreachable, or still unavailable after its sync. */
  lemma SwitchFailsOnlyWhenNoneSucceeds(reg: Registry, probe: nat -> UsageOutcome, sync: nat -> UsageOutcome)
    ensures SwitchToNextNode(reg, None, probe, sync).found.None? <==>
      forall j | 0 <= j < |reg.nodes| && j != reg.active :: !Succeeds(reg.nodes[j], probe(j), sync(j))
  {
    var order := VisitOrder(reg.active, |reg.nodes|);
    SwitchFindsFirstSuccess(reg, probe, sync);
    VisitOrderShape(reg.active, |reg.nodes|);
    FirstSuccessNoneIff(reg.nodes, order, probe, sync);
    if forall k | 0 <= k < |order| :: !Succeeds(reg.nodes[order[k]], probe(order[k]), sync(order[k])) {
      forall j | 0 <= j < |reg.nodes| && j != reg.active
        ensures !Succeeds(reg.nodes[j], probe(j), sync(j))
      {
        assert j in order;
        var k :| 0 <= k < |order| && order[k] == j;
      }
    }
  }

  /**
   * The failover's effect on the other nodes (no failed node given): every
   * candidate up to the one it settles on is visited, the rest are
   * unchanged; when it finds nothing, every other node has been visited
   * and none of them is available.
   */
  lemma SwitchEffect(reg: Registry, probe: nat -> UsageOutcome, sync: nat -> UsageOutcome)
    ensures var order := VisitOrder(reg.active, |reg.nodes|);
      var f := SwitchToNextNode(reg, None, probe, sync);
      InRange(order, |reg.nodes|) &&
      forall x | 0 <= x < |order| ::
        f.reg.nodes[order[x]] ==
          if Reached(reg.nodes, order, x, probe, sync) then Visited(reg.nodes[order[x]], probe(order[x]), sync(order[x]))
          else reg.nodes[order[x]]
    ensures var f := SwitchToNextNode(reg, None, probe, sync);
      f.found.None? ==> forall j | 0 <= j < |reg.nodes| && j != reg.active ::
        f.reg.nodes[j] == Visited(reg.nodes[j], probe(j), sync(j)) && !IsAvailable(f.reg.nodes[j])
    ensures var f := SwitchToNextNode(reg, None, probe, sync);
      f.found.None? ==> f.reg.active == LastReachable(reg.nodes, VisitOrder(reg.active, |reg.nodes|), probe, reg.active)
  {
    var order := VisitOrder(reg.active, |reg.nodes|);
    var f := SwitchToNextNode(reg, None, probe, sync);
    VisitOrderShape(reg.active, |reg.nodes|);
    assert BumpFailures(reg, None) == reg;
    SearchEffect(reg, order, probe, sync);
    SearchFailsAtLastReachable(reg, order, probe, sync);
    if f.found.None? {
      SwitchFindsFirstSuccess(reg, probe, sync);
      FirstSuccessNoneIff(reg.nodes, order, probe, sync);
      forall j | 0 <= j < |reg.nodes| && j != reg.active
        ensures f.reg.nodes[j] == Visited(reg.nodes[j], probe(j), sync(j)) && !IsAvailable(f.reg.nodes[j])
      {
        assert j in order;
        var x :| 0 <= x < |order| && order[x] == j;
        assert Reached(reg.nodes, order, x, probe, sync);
        VisitedUnavailable(reg.nodes[j], probe(j), sync(j));
      }
    }
  }

  lemma {:induction false} FirstSuccessNoneIff(nodes: seq<Node>, order: seq<nat>, probe: nat -> UsageOutcome, sync: nat -> UsageOutcome)
    requires InRange(order, |nodes|)
    ensures FirstSuccess(nodes, order, probe, sync).None? <==>
      forall k | 0 <= k < |order| :: !Succeeds(nodes[order[k]], probe(order[k]), sync(order[k]))
    decreases |order|
  {
    if |order| > 0 {
      FirstSuccessNoneIff(nodes, order[1..], probe, sync);
      assert forall k | 1 <= k < |order| :: order[k] == order[1..][k - 1];
    }
  }

  /** The active index moves even when the search fails: a reachable node whose sync leaves it unavailable is still adopted. */
  lemma ActiveMovesOnFailedSearch()
    ensures
      var a := Node("node-1", "a", "", Ready, 0, 0, 0);
      var b := Node("node-2", "b", "", Drained, 0, 0, 0);
      var drained := Got(Doc(UsageDoc(Some(Snapshots(Some(Premium(Num(0), Absent, Absent)))))));
      var f := SwitchToNextNode(Registry([a, b], 1), None, _ => drained, _ => drained);
      f.found.None? && f.reg.active == 0
  {
  }
}
