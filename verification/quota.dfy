/**
 * The quota prober: the outcome of `GET {url}/usage`, the extraction of the
 * premium-interaction quota from the returned document, the state change a
 * sync applies to a node (`syncNodeQuota`), and the reachability classifier
 * (`checkNodeReachable`). The HTTP call itself is an input value.
 */
module Quota {
  import opened Options
  import opened Nodes

  /** Quota reported for an unlimited plan (`limit` explicitly null). */
  const UnlimitedQuota: int := 999999

  /** A JSON field of the quota document: missing, explicitly null, or an integer. */
  datatype Field = Absent | Null | Num(n: int)

  /** `premium_interactions`: the optional `remaining`, `limit` and `usage` fields. */
  datatype Premium = Premium(remaining: Field, limit: Field, usage: Field)

  /** `quota_snapshots`, holding an optional `premium_interactions` section. */
  datatype Snapshots = Snapshots(premiumInteractions: Option<Premium>)

  /** The `/usage` document, holding an optional `quota_snapshots` section. */
  datatype UsageDoc = UsageDoc(quotaSnapshots: Option<Snapshots>)

  /** A 2xx response body: `null`/`undefined` data, or a JSON document. */
  datatype Body = NoBody | Doc(doc: UsageDoc)

  /** A thrown request error: an optional error code and the optional HTTP status of `error.response`. */
  datatype RequestError = RequestError(code: Option<string>, responseStatus: Option<int>)

  /** What one `GET /usage` produced: a 2xx response or a thrown error. */
  datatype UsageOutcome = Got(body: Body) | Threw(err: RequestError)

  /** Connection-level error codes recognised by the prober and the reachability check. */
  const ProbeNetworkCodes: set<string> := {"ECONNREFUSED", "ETIMEDOUT", "ENOTFOUND", "ECONNRESET", "EHOSTUNREACH"}

  predicate IsProbeNetworkError(e: RequestError) {
    e.code.Some? && e.code.value in ProbeNetworkCodes
  }

  /** JavaScript reads `null` as 0 in comparisons and subtraction. */
  function NumericValue(f: Field): int
    requires f != Absent
  {
    match f
    case Null => 0
    case Num(n) => n
  }

  /** The premium section, an empty object standing in for any missing level. */
  function PremiumOf(doc: UsageDoc): (p: Premium)
    ensures doc.quotaSnapshots.None? ==> p == Premium(Absent, Absent, Absent)
    ensures doc.quotaSnapshots.Some? && doc.quotaSnapshots.value.premiumInteractions.None? ==> p == Premium(Absent, Absent, Absent)
    ensures doc.quotaSnapshots.Some? && doc.quotaSnapshots.value.premiumInteractions.Some? ==> p == doc.quotaSnapshots.value.premiumInteractions.value
  {
    match doc.quotaSnapshots
    case None => Premium(Absent, Absent, Absent)
    case Some(s) => s.premiumInteractions.GetOr(Premium(Absent, Absent, Absent))
  }

  /**
   * Quota extraction in priority order: a present `remaining`; else
   * `limit - usage` for a non-null `limit` and a present `usage`; else the
   * unlimited sentinel for a null `limit`; else 0. No clamping is applied.
   */
  function ExtractRemaining(p: Premium): (q: int)
    ensures p.remaining != Absent ==> q == NumericValue(p.remaining)
    ensures p.remaining == Absent && p.limit.Num? && p.usage != Absent ==> q == p.limit.n - NumericValue(p.usage)
    ensures p.remaining == Absent && p.limit == Null ==> q == UnlimitedQuota
    ensures p.remaining == Absent && p.limit == Absent ==> q == 0
    ensures p.remaining == Absent && p.limit.Num? && p.usage == Absent ==> q == 0
  {
    if p.remaining != Absent then NumericValue(p.remaining)
    else if p.limit != Absent && p.limit != Null && p.usage != Absent then NumericValue(p.limit) - NumericValue(p.usage)
    else if p.limit == Null then UnlimitedQuota
    else 0
  }

  /** The status a failed sync leaves, classified in order: network code, 401, 429, other HTTP response, anything else. */
  function FailureStatus(current: Status, e: RequestError): (s: Status)
    ensures IsProbeNetworkError(e) ==> s == Offline
    ensures !IsProbeNetworkError(e) && e.responseStatus == Some(401) ==> s == InvalidToken
    ensures !IsProbeNetworkError(e) && e.responseStatus == Some(429) ==> s == RateLimited
    ensures !IsProbeNetworkError(e) && e.responseStatus.Some? && e.responseStatus.value != 401 && e.responseStatus.value != 429 ==> s == current
    ensures !IsProbeNetworkError(e) && e.responseStatus.None? ==> s == Offline
  {
    if IsProbeNetworkError(e) then Offline
    else if e.responseStatus == Some(401) then InvalidToken
    else if e.responseStatus == Some(429) then RateLimited
    else if e.responseStatus.Some? then current
    else Offline
  }

  /** The error raised when a 2xx response carries no data: a TypeError, with neither a code nor a response. */
  const MissingDataError: RequestError := RequestError(None, None)

  /**
   * `syncNodeQuota`: a document sets the quota, clears both failure counters
   * and makes the node READY exactly when the quota is positive (DRAINED
   * otherwise); a failure bumps both counters and reclassifies the status.
   */
  function ApplySync(node: Node, outcome: UsageOutcome): (r: Node)
    ensures r.id == node.id && r.url == node.url && r.token == node.token
    ensures outcome.Got? && outcome.body.Doc? ==>
      && r.premiumRemaining == ExtractRemaining(PremiumOf(outcome.body.doc))
      && r.failureCount == 0 && r.consecutiveFailures == 0
      && (r.status == Ready <==> r.premiumRemaining > 0)
      && (r.status == Drained <==> r.premiumRemaining <= 0)
      && (IsAvailable(r) <==> r.premiumRemaining > 0)
    ensures outcome.Threw? ==>
      && r.premiumRemaining == node.premiumRemaining
      && r.failureCount == node.failureCount + 1
      && r.consecutiveFailures == node.consecutiveFailures + 1
      && r.status == FailureStatus(node.status, outcome.err)
    ensures outcome == Got(NoBody) ==>
      r == node.(status := Offline, failureCount := node.failureCount + 1,
                 consecutiveFailures := node.consecutiveFailures + 1)
  {
    match outcome
    case Got(NoBody) => SyncFailed(node, MissingDataError)
    case Got(Doc(doc)) =>
      var q := ExtractRemaining(PremiumOf(doc));
      node.(premiumRemaining := q, failureCount := 0, consecutiveFailures := 0,
            status := if q > 0 then Ready else Drained)
    case Threw(e) => SyncFailed(node, e)
  }

  function SyncFailed(node: Node, e: RequestError): Node {
    node.(failureCount := node.failureCount + 1,
          consecutiveFailures := node.consecutiveFailures + 1,
          status := FailureStatus(node.status, e))
  }

  /** `checkNodeReachable`: a response means reachable; a network code, or an error without response, means not. */
  function CheckNodeReachable(outcome: UsageOutcome): (b: bool)
    ensures outcome.Got? ==> b
    ensures outcome.Threw? ==> (b <==> !IsProbeNetworkError(outcome.err) && outcome.err.responseStatus.Some?)
  {
    match outcome
    case Got(_) => true
    case Threw(e) =>
      if IsProbeNetworkError(e) then false
      else e.responseStatus.Some?
  }

  /** A sync succeeded: it received a document. */
  predicate SyncSucceeded(outcome: UsageOutcome) {
    outcome.Got? && outcome.body.Doc?
  }

  // ---- properties relating several syncs or the prober and the probe ----

  /** Re-applying an unchanged successful response changes nothing further. */
  lemma SyncIdempotent(node: Node, outcome: UsageOutcome)
    requires SyncSucceeded(outcome)
    ensures ApplySync(ApplySync(node, outcome), outcome) == ApplySync(node, outcome)
  {
  }

  /** After a successful sync the node is READY or DRAINED, decided by the quota alone, whatever its earlier state. */
  lemma SyncForgetsHistory(a: Node, b: Node, outcome: UsageOutcome)
    requires SyncSucceeded(outcome)
    requires a.id == b.id && a.url == b.url && a.token == b.token
    ensures ApplySync(a, outcome) == ApplySync(b, outcome)
    ensures ApplySync(a, outcome).status in {Ready, Drained}
  {
  }

  /** A node becomes INVALID_TOKEN only through a sync answered with HTTP 401. */
  lemma InvalidTokenOnlyFrom401(node: Node, outcome: UsageOutcome)
    requires node.status != InvalidToken
    ensures ApplySync(node, outcome).status == InvalidToken <==>
      outcome.Threw? && !IsProbeNetworkError(outcome.err) && outcome.err.responseStatus == Some(401)
  {
  }

  /** A failed sync never leaves a node available unless it was READY with quota and no failures before. */
  lemma FailedSyncAvailability(node: Node, outcome: UsageOutcome)
    requires !SyncSucceeded(outcome)
    ensures IsAvailable(ApplySync(node, outcome)) ==>
      node.status == Ready && node.premiumRemaining > 0 && node.consecutiveFailures == 0
  {
  }

  /** Whenever the sync request is classified OFFLINE, the same outcome seen by the probe reports unreachable. */
  lemma OfflineAgreesWithProbe(node: Node, e: RequestError)
    requires node.status != Offline
    ensures ApplySync(node, Threw(e)).status == Offline <==> !CheckNodeReachable(Threw(e))
  {
  }

  /** `limit - usage` is not clamped: a document can leave a negative quota, and the node DRAINED. */
  lemma NegativeQuotaPossible(node: Node)
    ensures var r := ApplySync(node, Got(Doc(UsageDoc(Some(Snapshots(Some(Premium(Absent, Num(5), Num(7)))))))));
      r.premiumRemaining == -2 && r.status == Drained && !IsAvailable(r)
  {
  }

  /** A null `limit` without `remaining` means unlimited: the node becomes READY and available. */
  lemma UnlimitedPlanIsAvailable(node: Node, usage: Field)
    ensures var r := ApplySync(node, Got(Doc(UsageDoc(Some(Snapshots(Some(Premium(Absent, Null, usage))))))));
      r.premiumRemaining == UnlimitedQuota && r.status == Ready && IsAvailable(r)
  {
  }

  /** A document without the quota section degrades to quota 0: DRAINED, not an error. */
  lemma MissingQuotaSectionDrains(node: Node, doc: UsageDoc)
    requires doc.quotaSnapshots.None? || doc.quotaSnapshots.value.premiumInteractions.None?
    ensures var r := ApplySync(node, Got(Doc(doc)));
      r.premiumRemaining == 0 && r.status == Drained && r.consecutiveFailures == 0
  {
  }
}
