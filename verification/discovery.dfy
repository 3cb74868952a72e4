/**
 * Sequential discovery of nodes by probing `http://copilot-node-<i>:4141`
 * for i = 1, 2, ..., up to a fixed maximum, stopping after three
 * consecutive "not found" answers. The probe results are an oracle input.
 */
module Discovery {
  import opened Options
  import opened Nodes
  import Decimal

  /** At most this many candidate nodes are probed. */
  const MaxNodeProbe: nat := 20

  /** What probing candidate `i` produced: any response, or an error with an optional code. */
  datatype ProbeResult = Answered | Failed(code: Option<string>)

  /** Connection refused or unknown host: the node does not exist. Any other error still counts as a node. */
  predicate NotFound(r: ProbeResult) {
    r.Failed? && (r.code == Some("ECONNREFUSED") || r.code == Some("ENOTFOUND"))
  }

  function ProbeUrl(i: nat): string {
    "http://copilot-node-" + Decimal.NatToDecimal(i) + ":4141"
  }

  /** The number of consecutive not-found answers ending at candidate `i` (0 before the first candidate). */
  function Streak(probe: nat -> ProbeResult, i: nat): nat
    decreases i
  {
    if i == 0 then 0
    else if NotFound(probe(i)) then Streak(probe, i - 1) + 1
    else 0
  }

  /** Probing ends at candidate `i`: it completes three not-found answers in a row, or it is the last allowed. */
  predicate StopsAt(probe: nat -> ProbeResult, i: nat) {
    Streak(probe, i) >= 3 || i == MaxNodeProbe
  }

  /** Reference list: the candidates up to `hi` whose probe did not answer "not found", in ascending order. */
  function Kept(probe: nat -> ProbeResult, hi: nat): (r: seq<nat>)
    decreases hi
  {
    if hi == 0 then []
    else Kept(probe, hi - 1) + (if NotFound(probe(hi)) then [] else [hi])
  }

  /** The kept candidates are exactly those up to `hi` that did not answer "not found", ascending. */
  lemma {:induction false} KeptShape(probe: nat -> ProbeResult, hi: nat)
    ensures forall k | 0 <= k < |Kept(probe, hi)| :: 1 <= Kept(probe, hi)[k] <= hi && !NotFound(probe(Kept(probe, hi)[k]))
    ensures forall j | 1 <= j <= hi && !NotFound(probe(j)) :: j in Kept(probe, hi)
    ensures forall x, y | 0 <= x < y < |Kept(probe, hi)| :: Kept(probe, hi)[x] < Kept(probe, hi)[y]
    decreases hi
  {
    if hi > 0 {
      KeptShape(probe, hi - 1);
      var front := Kept(probe, hi - 1);
      var r := Kept(probe, hi);
      assert r == front + (if NotFound(probe(hi)) then [] else [hi]);
      assert forall k | 0 <= k < |front| :: r[k] == front[k];
      assert forall j | j in front :: j in r;
    }
  }

  /**
   * `discoverNodes` in probing mode. `last` is the last candidate probed:
   * the first that completes three not-found answers in a row, or the
   * maximum. `found` holds, in ascending order, every candidate up to `last`
   * except those answering "not found".
   */
  method DiscoverNodes(probe: nat -> ProbeResult) returns (found: seq<nat>, last: nat)
    ensures 1 <= last <= MaxNodeProbe
    ensures StopsAt(probe, last)
    ensures forall j | 1 <= j < last :: !StopsAt(probe, j)
    ensures found == Kept(probe, last)
  {
    found := [];
    var consecutiveNotFound := 0;
    var i := 1;
    while i <= MaxNodeProbe
      invariant 1 <= i <= MaxNodeProbe + 1
      invariant consecutiveNotFound == Streak(probe, i - 1)
      invariant found == Kept(probe, i - 1)
      invariant forall j | 1 <= j < i :: Streak(probe, j) < 3
      decreases MaxNodeProbe + 1 - i
    {
      if NotFound(probe(i)) {
        consecutiveNotFound := consecutiveNotFound + 1;
        if consecutiveNotFound >= 3 {
          return found, i;
        }
      } else {
        found := found + [i];
        consecutiveNotFound := 0;
      }
      i := i + 1;
    }
    last := i - 1;
  }

  /**
   * The discovered node list: one `{url, token: ''}` entry per kept
   * candidate. Kept candidates ascend, so no URL is registered twice.
   */
  function DiscoveredConfigs(found: seq<nat>): (cfgs: seq<NodeConfig>)
    ensures |cfgs| == |found|
    ensures forall k | 0 <= k < |found| :: cfgs[k] == NodeConfig(ProbeUrl(found[k]), "")
    ensures (forall x, y | 0 <= x < y < |found| :: found[x] < found[y]) ==>
      forall x, y | 0 <= x < y < |cfgs| :: cfgs[x].url != cfgs[y].url
  {
    var cfgs := seq(|found|, k requires 0 <= k < |found| => NodeConfig(ProbeUrl(found[k]), ""));
    assert forall x, y | 0 <= x < y < |found| && found[x] != found[y] :: cfgs[x].url != cfgs[y].url by {
      forall x, y | 0 <= x < y < |found| && found[x] != found[y]
        ensures cfgs[x].url != cfgs[y].url
      {
        if cfgs[x].url == cfgs[y].url {
          ProbeUrlInjective(found[x], found[y]);
        }
      }
    }
    cfgs
  }

  /** Distinct candidate numbers give distinct URLs. */
  lemma ProbeUrlInjective(a: nat, b: nat)
    requires ProbeUrl(a) == ProbeUrl(b)
    ensures a == b
  {
    var p := "http://copilot-node-";
    var s := ":4141";
    var da := Decimal.NatToDecimal(a);
    var db := Decimal.NatToDecimal(b);
    assert ProbeUrl(a) == p + da + s;
    assert ProbeUrl(b) == p + db + s;
    assert |da| == |db|;
    assert da == (p + da + s)[|p|..|p| + |da|];
    assert db == (p + db + s)[|p|..|p| + |db|];
    Decimal.NatToDecimalInjective(a, b);
  }

  /** Three candidates that do not exist, right at the start, end discovery with no nodes. */
  lemma ThreeMissingStopsEarly(probe: nat -> ProbeResult)
    requires NotFound(probe(1)) && NotFound(probe(2)) && NotFound(probe(3))
    ensures StopsAt(probe, 3) && !StopsAt(probe, 1) && !StopsAt(probe, 2) && Kept(probe, 3) == []
  {
  }
}
