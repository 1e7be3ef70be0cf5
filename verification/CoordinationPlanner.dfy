/** The transaction planner as the program runs it: the stages in order, each proved against its
    specification in `CoordinationTransactions`. */
module CoordinationPlanner {
  import opened ClaimChecks
  import opened ClaimMaps
  import opened ClaimSets
  import opened CoordinationTransactions
  import opened Generations
  import opened ResourceClaims
  import opened Resources
  import opened Wrappers
  import Sorting

  /** The values of a map as a list, in whatever order the map yields them. */
  method ListValues(m: map<string, Claim>) returns (list: seq<Claim>)
    requires Keyed(m)
    ensures multiset(list) == multiset(m.Values)
  {
    list := [];
    var pending := m.Keys;
    ghost var done: set<Claim> := {};
    while pending != {}
      invariant pending <= m.Keys
      invariant done == set k | k in m.Keys - pending :: m[k]
      invariant multiset(list) == multiset(done)
      decreases |pending|
    {
      var k :| k in pending;
      assert m[k] !in done;
      list := list + [m[k]];
      pending := pending - {k};
      done := done + {m[k]};
    }
    assert done == m.Values;
  }

  method SortedClaims(m: map<string, Claim>) returns (list: seq<Claim>)
    requires Keyed(m) && forall k :: k in m ==> '\0' !in k
    ensures list == SortedValues(m)
  {
    var values := ListValues(m);
    ListedKeysTellApart(values, m);
    Sorting.SortIgnoresOrder(values, Enumerate(m.Values), ClaimSortKey);
    return SortClaims(values);
  }

  lemma ListedKeysTellApart(values: seq<Claim>, m: map<string, Claim>)
    requires Keyed(m) && forall k :: k in m ==> '\0' !in k
    requires multiset(values) == multiset(m.Values)
    ensures Sorting.KeyIsInjective(values, ClaimSortKey)
  {
    forall c, d | c in values && d in values && ClaimSortKey(c) == ClaimSortKey(d) ensures c == d {
      assert c in multiset(values) && d in multiset(values);
      KeyResource(c);
      KeyResource(d);
      assert m[c.resource] == c && m[d.resource] == d;
    }
  }

  /** `planCoordinationTransaction`: every stage in order, each stopping the plan at its first error. */
  method PlanCoordinationTransaction(s: Snapshot, r: Request, facts: FactSource)
    returns (result: Result<Plan, ErrorCode>)
    requires forall c :: c in s.claims ==> IsCanonical(c.resource)
    ensures result == PlanTransaction(s, r, facts)
  {
    var snapshotError := AssertSnapshot(s);
    if snapshotError.Some? { return Err(snapshotError.value); }
    var requestError := AssertRequest(r);
    if requestError.Some? { return Err(requestError.value); }
    var selected := SelectOwner(s, r);
    if selected.Err? { return Err(selected.error); }
    var owner := selected.value;
    var concurrencyError := AssertConcurrency(s.claimSetGeneration, r);
    if concurrencyError.Some? { return Err(concurrencyError.value); }
    var normalized := NormalizeRequest(owner, r);
    if normalized.Err? { return Err(normalized.error); }
    NormalizedIsDistinct(owner, r);
    NormalizedIsCanonical(owner, r);
    var current := Own(s.claims, owner.sessionId);
    var external := External(s.claims, owner.sessionId);
    var nextByResource := MaterializeNextClaims(ByResource(current), normalized.value, owner, r.timestamp);
    if nextByResource.Err? { return Err(nextByResource.error); }
    NextClaimsOrigin(ByResource(current), normalized.value, owner, r.timestamp);
    NextAreCanonical(ByResource(current), nextByResource.value, DesiredOf(normalized.value), owner, r.timestamp);
    var next := SortedClaims(nextByResource.value);
    SortedValuesElements(nextByResource.value);
    var setError := CheckCompleteClaimSet(next, external, s.repositoryId, facts);
    if setError.Some? { return Err(setError.value); }
    var drainError := CheckExecutionDrain(current, next, r.executions);
    if drainError.Some? { return Err(drainError.value); }
    return Ok(Assemble(s, owner, next));
  }

  lemma NextAreCanonical(current: map<string, Claim>, m: map<string, Claim>, ds: seq<Desired>, owner: Session,
      timestamp: string)
    requires Keyed(m) && FromCurrent(m, current, ds, owner, timestamp) && AllCanonical(ds)
    requires Keyed(current) && forall k :: k in current ==> IsCanonical(k)
    ensures forall k :: k in m ==> IsCanonical(k) && IsCanonical(m[k].resource) && '\0' !in k
  {
    forall k | k in m ensures IsCanonical(k) && '\0' !in k {
      CanonicalizationIsIdentity(k);
    }
  }

  /** `applyCoordinationTransaction`: the writer is called once, after every check, and only when
      something changed. */
  method ApplyCoordinationTransaction(s: Snapshot, r: Request, facts: FactSource)
    returns (result: Result<Plan, ErrorCode>, committed: seq<Plan>)
    requires forall c :: c in s.claims ==> IsCanonical(c.resource)
    ensures result == PlanTransaction(s, r, facts)
    ensures committed == if result.Ok? && !result.value.idempotent then [result.value] else []
  {
    result := PlanCoordinationTransaction(s, r, facts);
    committed := [];
    if result.Ok? && !result.value.idempotent {
      committed := committed + [result.value];
    }
  }
}
