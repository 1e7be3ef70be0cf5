/** The next claims of a session as the program computes them: maps filled and emptied in loops. */
module ClaimMaps {
  import opened CoordinationTransactions
  import opened Generations
  import opened Replays
  import opened ResourceClaims
  import opened Resources
  import opened Wrappers
  import Sorting

  /** After the first `i` desired claims: each stands settled on its resource, and every other
      resource holds what the base map holds. */
  ghost predicate SettledSoFar(
    next: map<string, Claim>, base: map<string, Claim>, current: map<string, Claim>, ds: seq<Desired>, i: nat,
    owner: Session, timestamp: string)
    requires i <= |ds|
  {
    && (forall j :: 0 <= j < i ==> At(next, ds[j].resource) == Some(Settle(current, ds[j], owner, timestamp)))
    && (forall k :: k !in ResourcesTo(ds, i) ==> At(next, k) == At(base, k))
  }

  ghost function ResourcesTo(ds: seq<Desired>, i: nat): (s: set<string>)
    requires i <= |ds|
  {
    set j | 0 <= j < i :: ds[j].resource
  }

  lemma AllSettled(
    next: map<string, Claim>, base: map<string, Claim>, current: map<string, Claim>, ds: seq<Desired>,
    owner: Session, timestamp: string)
    requires SettledSoFar(next, base, current, ds, |ds|, owner, timestamp)
    ensures next == base + Settled(current, ds, owner, timestamp)
  {
    var result := base + Settled(current, ds, owner, timestamp);
    forall k ensures !Differs(next, result, k) {
      if Wants(ds, k) {
        var j :| 0 <= j < |ds| && ds[j] == WantedOn(ds, k);
        assert At(next, ds[j].resource) == Some(Settle(current, ds[j], owner, timestamp));
      } else {
        assert k !in ResourcesTo(ds, |ds|);
      }
    }
    SameAtEveryKey(next, result);
  }

  lemma NotYetReached(ds: seq<Desired>, i: nat)
    requires DistinctResources(ds) && i < |ds|
    ensures ds[i].resource !in ResourcesTo(ds, i)
    ensures ResourcesTo(ds, i + 1) == ResourcesTo(ds, i) + {ds[i].resource}
  {
  }

  method ReplaceClaims(current: map<string, Claim>, ds: seq<Desired>, owner: Session, timestamp: string)
    returns (next: map<string, Claim>)
    requires DistinctResources(ds)
    ensures next == Settled(current, ds, owner, timestamp)
  {
    next := map[];
    for i := 0 to |ds|
      invariant SettledSoFar(next, map[], current, ds, i, owner, timestamp)
    {
      next := next[ds[i].resource := Settle(current, ds[i], owner, timestamp)];
    }
    AllSettled(next, map[], current, ds, owner, timestamp);
    assert map[] + Settled(current, ds, owner, timestamp) == Settled(current, ds, owner, timestamp);
  }

  /** One round of acquiring: the map being filled holds on the resource what the current one holds. */
  lemma OneMoreAcquired(
    next: map<string, Claim>, current: map<string, Claim>, ds: seq<Desired>, i: nat, owner: Session,
    timestamp: string)
    requires DistinctResources(ds) && i < |ds| && SettledSoFar(next, current, current, ds, i, owner, timestamp)
    ensures At(next, ds[i].resource) == At(current, ds[i].resource)
    ensures !Contradicts(current, ds[i]) ==>
      var made := CreateClaim(ds[i].resource, ds[i].mode, ds[i].sharing, owner.Owner(), timestamp);
      SettledSoFar(if ds[i].resource in next then next else next[ds[i].resource := made], current, current, ds, i + 1,
                   owner, timestamp)
  {
    NotYetReached(ds, i);
  }

  /** The loop looks each resource up in the map it is filling; with one desired claim per
      resource that is what the current map holds there. */
  method AcquireClaims(current: map<string, Claim>, ds: seq<Desired>, owner: Session, timestamp: string)
    returns (r: Result<map<string, Claim>, ErrorCode>)
    requires DistinctResources(ds)
    ensures r == NextClaims(current, AcquireAll(ds), owner, timestamp)
  {
    var next := current;
    for i := 0 to |ds|
      invariant SettledSoFar(next, current, current, ds, i, owner, timestamp)
      invariant forall j :: 0 <= j < i ==> !Contradicts(current, ds[j])
    {
      var d := ds[i];
      OneMoreAcquired(next, current, ds, i, owner, timestamp);
      if d.resource in next {
        if !EquivalentInput(next[d.resource], d) { return Err(ContradictoryClaim); }
        continue;
      }
      next := next[d.resource := CreateClaim(d.resource, d.mode, d.sharing, owner.Owner(), timestamp)];
    }
    AllSettled(next, current, current, ds, owner, timestamp);
    return Ok(next);
  }

  method ReleaseClaims(current: map<string, Claim>, released: set<string>) returns (next: map<string, Claim>)
    ensures next == current - released
  {
    next := current;
    var pending := released;
    while pending != {}
      invariant pending <= released && next == current - (released - pending)
      decreases |pending|
    {
      var k :| k in pending;
      next := next - {k};
      pending := pending - {k};
    }
  }

  predicate DistinctDeltaResources(ds: seq<NormalDelta>) {
    forall i, j :: 0 <= i < j < |ds| ==> ds[i].Resource() != ds[j].Resource()
  }

  /** What a delta leaves on its resource. */
  function Leaves(current: map<string, Claim>, d: NormalDelta, owner: Session, timestamp: string): Option<Claim> {
    match d
    case Drop(_) => None
    case Upsert(u) => Some(Settle(current, u, owner, timestamp))
  }

  ghost function DeltaResourcesTo(ds: seq<NormalDelta>, i: nat): (s: set<string>)
    requires i <= |ds|
  {
    set j | 0 <= j < i :: ds[j].Resource()
  }

  ghost predicate AppliedSoFar(
    next: map<string, Claim>, current: map<string, Claim>, ds: seq<NormalDelta>, i: nat, owner: Session,
    timestamp: string)
    requires i <= |ds|
  {
    && (forall j :: 0 <= j < i ==> At(next, ds[j].Resource()) == Leaves(current, ds[j], owner, timestamp))
    && (forall k :: k !in DeltaResourcesTo(ds, i) ==> At(next, k) == At(current, k))
  }

  ghost function Applied(current: map<string, Claim>, ds: seq<NormalDelta>, owner: Session, timestamp: string)
    : map<string, Claim>
  {
    (current - Drops(ds)) + Settled(current, Upserts(ds), owner, timestamp)
  }

  lemma AppliedOnDelta(current: map<string, Claim>, ds: seq<NormalDelta>, d: NormalDelta, owner: Session,
      timestamp: string)
    requires OneDeltaPerResource(ds) && d in ds
    ensures At(Applied(current, ds, owner, timestamp), d.Resource()) == Leaves(current, d, owner, timestamp)
  {
    UpsertsAndDropsAreApart(ds);
    if d.Upsert? {
      assert d.desired in Upserts(ds) && Wants(Upserts(ds), d.Resource());
      assert WantedOn(Upserts(ds), d.Resource()) == d.desired;
    } else {
      assert d.Resource() in Drops(ds) && d.Resource() !in Wanted(Upserts(ds));
    }
  }

  lemma AppliedElsewhere(current: map<string, Claim>, ds: seq<NormalDelta>, k: string, owner: Session,
      timestamp: string)
    requires forall d :: d in ds ==> d.Resource() != k
    ensures At(Applied(current, ds, owner, timestamp), k) == At(current, k)
  {
    assert !Wants(Upserts(ds), k) by {
      forall d | d in Upserts(ds) ensures d.resource != k {
        assert Upsert(d) in ds;
      }
    }
    assert k !in Drops(ds) by {
      assert Drop(k).Resource() == k;
    }
  }

  lemma DistinctIsOnePerResource(ds: seq<NormalDelta>)
    requires DistinctDeltaResources(ds)
    ensures OneDeltaPerResource(ds)
  {
  }

  lemma AllApplied(next: map<string, Claim>, current: map<string, Claim>, ds: seq<NormalDelta>, owner: Session,
      timestamp: string)
    requires DistinctDeltaResources(ds) && AppliedSoFar(next, current, ds, |ds|, owner, timestamp)
    ensures next == Applied(current, ds, owner, timestamp)
  {
    DistinctIsOnePerResource(ds);
    forall k ensures !Differs(next, Applied(current, ds, owner, timestamp), k) {
      if k in DeltaResourcesTo(ds, |ds|) {
        var j :| 0 <= j < |ds| && ds[j].Resource() == k;
        AppliedOnDelta(current, ds, ds[j], owner, timestamp);
      } else {
        AppliedElsewhere(current, ds, k, owner, timestamp);
      }
    }
    SameAtEveryKey(next, Applied(current, ds, owner, timestamp));
  }

  method ApplyDeltaList(current: map<string, Claim>, ds: seq<NormalDelta>, owner: Session, timestamp: string)
    returns (next: map<string, Claim>)
    requires DistinctDeltaResources(ds)
    ensures next == Applied(current, ds, owner, timestamp)
  {
    next := current;
    for i := 0 to |ds|
      invariant AppliedSoFar(next, current, ds, i, owner, timestamp)
    {
      assert ds[i].Resource() !in DeltaResourcesTo(ds, i);
      assert At(next, ds[i].Resource()) == At(current, ds[i].Resource());
      match ds[i]
      case Drop(k) => next := next - {k};
      case Upsert(d) =>
        if d.resource !in next || !EquivalentInput(next[d.resource], d) {
          next := next[d.resource := CreateClaim(d.resource, d.mode, d.sharing, owner.Owner(), timestamp)];
        }
    }
    AllApplied(next, current, ds, owner, timestamp);
  }

  predicate Distinct(request: Normalized) {
    match request
    case AcquireAll(ds) => DistinctResources(ds)
    case ReplaceBy(ds) => DistinctResources(ds)
    case ReleaseAll(_) => true
    case ApplyDeltas(ds) => DistinctDeltaResources(ds)
  }

  /** `materializeNextClaims`. */
  method MaterializeNextClaims(current: map<string, Claim>, request: Normalized, owner: Session, timestamp: string)
    returns (r: Result<map<string, Claim>, ErrorCode>)
    requires Distinct(request)
    ensures r == NextClaims(current, request, owner, timestamp)
  {
    match request
    case ReplaceBy(ds) =>
      var next := ReplaceClaims(current, ds, owner, timestamp);
      return Ok(next);
    case AcquireAll(ds) =>
      r := AcquireClaims(current, ds, owner, timestamp);
    case ReleaseAll(released) =>
      var next := ReleaseClaims(current, released);
      return Ok(next);
    case ApplyDeltas(ds) =>
      var next := ApplyDeltaList(current, ds, owner, timestamp);
      return Ok(next);
  }

  lemma {:induction false} NormalDeltasLineUp(deltas: seq<DeltaInput>, owner: Session, sharing: Option<Sharing>,
      seen: set<string>)
    requires NormalizeDeltas(deltas, owner, sharing, seen).Ok?
    ensures var ns := NormalizeDeltas(deltas, owner, sharing, seen).value;
      |ns| == |deltas| && forall i :: 0 <= i < |ns| ==> ns[i].Resource() == deltas[i].resource
  {
    if deltas != [] {
      NormalDeltasLineUp(deltas[1..], owner, sharing, seen + {CanonicalizeResource(deltas[0].resource).value});
    }
  }

  /** Normalization rejects a request that names a resource twice. */
  lemma NormalizedIsDistinct(owner: Session, r: Request)
    requires NormalizeRequest(owner, r).Ok?
    ensures Distinct(NormalizeRequest(owner, r).value)
  {
    match r.kind
    case Release =>
    case Delta => {
      NormalDeltasLineUp(r.deltas.value, owner, r.sharing, {});
      NormalizingDeltas(r.deltas.value, owner, r.sharing, {});
    }
    case _ => {
      var inputs := if r.claims.Some? then r.claims.value else [];
      var all := CanonicalizeAll(inputs, owner, r.sharing).value;
      Sorting.SortSorts(all, DesiredKey);
      Sorting.DistinctKeysAfterReordering(all, Sorting.SortBy(all, DesiredKey), (d: Desired) => d.resource);
      assert Sorting.HasDistinctKeys(Sorting.SortBy(all, DesiredKey), (d: Desired) => d.resource);
    }
  }
}
