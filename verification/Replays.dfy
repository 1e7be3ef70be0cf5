/** Replaying an accepted request changes nothing, and the order of deltas does not matter. */
module Replays {
  import opened ClaimSets
  import opened CoordinationTransactions
  import opened Generations
  import opened ResourceClaims
  import opened Resources
  import opened Wrappers
  import Sorting

  // ----- One desired claim per resource

  ghost predicate OneDesiredPerResource(ds: seq<Desired>) {
    forall d, e :: d in ds && e in ds && d.resource == e.resource ==> d == e
  }

  ghost predicate OneDeltaPerResource(ds: seq<NormalDelta>) {
    forall d, e :: d in ds && e in ds && d.Resource() == e.Resource() ==> d == e
  }

  ghost predicate Unambiguous(request: Normalized) {
    match request
    case AcquireAll(ds) => OneDesiredPerResource(ds)
    case ReplaceBy(ds) => OneDesiredPerResource(ds)
    case ReleaseAll(_) => true
    case ApplyDeltas(ds) => OneDeltaPerResource(ds)
  }

  predicate DistinctDeltas(deltas: seq<DeltaInput>) {
    forall i, j :: 0 <= i < j < |deltas| ==> deltas[i].resource != deltas[j].resource
  }

  predicate EachIsValid(deltas: seq<DeltaInput>, owner: Session, sharing: Option<Sharing>, seen: set<string>) {
    forall d :: d in deltas ==> NormalizeDelta(d, owner, sharing).Ok? && d.resource !in seen
  }

  ghost predicate NormalizesTo(deltas: seq<DeltaInput>, owner: Session, sharing: Option<Sharing>, n: NormalDelta) {
    exists d :: d in deltas && NormalizeDelta(d, owner, sharing) == Ok(n)
  }

  lemma FirstDelta(deltas: seq<DeltaInput>, owner: Session, sharing: Option<Sharing>, seen: set<string>)
    requires deltas != []
    ensures EachIsValid(deltas, owner, sharing, seen) && DistinctDeltas(deltas) <==>
      && NormalizeDelta(deltas[0], owner, sharing).Ok? && deltas[0].resource !in seen
      && EachIsValid(deltas[1..], owner, sharing, seen + {deltas[0].resource}) && DistinctDeltas(deltas[1..])
  {
    var first, rest := deltas[0], deltas[1..];
    assert deltas == [first] + rest;
    assert DistinctDeltas(deltas) <==> DistinctDeltas(rest) && forall d :: d in rest ==> d.resource != first.resource;
  }

  /** A delta list is accepted exactly when each delta is valid by itself and no resource recurs. */
  lemma {:induction false} NormalizingDeltas(
    deltas: seq<DeltaInput>, owner: Session, sharing: Option<Sharing>, seen: set<string>)
    ensures NormalizeDeltas(deltas, owner, sharing, seen).Ok? <==>
      EachIsValid(deltas, owner, sharing, seen) && DistinctDeltas(deltas)
    ensures NormalizeDeltas(deltas, owner, sharing, seen).Ok? ==>
      forall n :: n in NormalizeDeltas(deltas, owner, sharing, seen).value <==> NormalizesTo(deltas, owner, sharing, n)
  {
    if deltas != [] {
      FirstDelta(deltas, owner, sharing, seen);
      if CanonicalizeResource(deltas[0].resource).Ok? {
        CanonicalizationIsIdentity(deltas[0].resource);
        NormalizingDeltas(deltas[1..], owner, sharing, seen + {deltas[0].resource});
        assert deltas == [deltas[0]] + deltas[1..];
      } else {
        assert !NormalizeDelta(deltas[0], owner, sharing).Ok?;
      }
    }
  }

  lemma NormalizedIsUnambiguous(owner: Session, r: Request)
    requires NormalizeRequest(owner, r).Ok?
    ensures Unambiguous(NormalizeRequest(owner, r).value)
  {
    match r.kind
    case Release =>
    case Delta => {
      var ds := NormalizeRequest(owner, r).value.deltas;
      NormalizingDeltas(r.deltas.value, owner, r.sharing, {});
      forall d, e | d in ds && e in ds && d.Resource() == e.Resource() ensures d == e {
        var a :| a in r.deltas.value && NormalizeDelta(a, owner, r.sharing) == Ok(d);
        var b :| b in r.deltas.value && NormalizeDelta(b, owner, r.sharing) == Ok(e);
        assert a.resource == b.resource;
      }
    }
    case _ => {
      var inputs := if r.claims.Some? then r.claims.value else [];
      var all := CanonicalizeAll(inputs, owner, r.sharing).value;
      Sorting.SortKeepsElements(all, DesiredKey);
    }
  }

  // ----- Replays

  /** The desired claims stand in the map. */
  ghost predicate Stands(m: map<string, Claim>, ds: seq<Desired>) {
    forall d :: d in ds ==> d.resource in m && EquivalentInput(m[d.resource], d)
  }

  lemma SettledStands(current: map<string, Claim>, ds: seq<Desired>, owner: Session, timestamp: string)
    requires OneDesiredPerResource(ds)
    ensures Stands(Settled(current, ds, owner, timestamp), ds)
  {
    forall d | d in ds
      ensures d.resource in Settled(current, ds, owner, timestamp)
      ensures EquivalentInput(Settled(current, ds, owner, timestamp)[d.resource], d)
    {
      assert Wants(ds, d.resource) && WantedOn(ds, d.resource) == d;
    }
  }

  /** Settling what already stands changes nothing. */
  lemma SettlingWhatStands(m: map<string, Claim>, ds: seq<Desired>, owner: Session, timestamp: string)
    requires Stands(m, ds)
    ensures Settled(m, ds, owner, timestamp) == map k | k in Wanted(ds) :: m[k]
    ensures m + Settled(m, ds, owner, timestamp) == m
  {
    var again := Settled(m, ds, owner, timestamp);
    forall k | k in Wanted(ds) ensures again[k] == m[k] {
      assert Wants(ds, k);
    }
  }

  lemma UpsertsAndDropsAreApart(ds: seq<NormalDelta>)
    requires OneDeltaPerResource(ds)
    ensures OneDesiredPerResource(Upserts(ds)) && Drops(ds) !! Wanted(Upserts(ds))
  {
    forall d, e | d in Upserts(ds) && e in Upserts(ds) && d.resource == e.resource ensures d == e {
      assert Upsert(d).Resource() == Upsert(e).Resource();
    }
    forall k | k in Drops(ds) ensures k !in Wanted(Upserts(ds)) {
      assert forall d :: d in Upserts(ds) ==> Upsert(d) != Drop(k) && Upsert(d) in ds;
    }
  }

  lemma DeltasAreStable(current: map<string, Claim>, ds: seq<NormalDelta>, owner: Session, t: string, t': string)
    requires OneDeltaPerResource(ds)
    ensures var m := (current - Drops(ds)) + Settled(current, Upserts(ds), owner, t);
      (m - Drops(ds)) + Settled(m, Upserts(ds), owner, t') == m
  {
    var us := Upserts(ds);
    var m := (current - Drops(ds)) + Settled(current, us, owner, t);
    UpsertsAndDropsAreApart(ds);
    SettledStands(current, us, owner, t);
    assert Stands(m, us);
    SettlingWhatStands(m, us, owner, t');
    assert m - Drops(ds) == m;
  }

  /** Asking for the same thing again finds it already there, whatever the timestamps. */
  lemma NextClaimsAreStable(current: map<string, Claim>, request: Normalized, owner: Session, t: string, t': string)
    requires Unambiguous(request) && NextClaims(current, request, owner, t).Ok?
    ensures NextClaims(NextClaims(current, request, owner, t).value, request, owner, t')
         == NextClaims(current, request, owner, t)
  {
    var m := NextClaims(current, request, owner, t).value;
    match request
    case ReplaceBy(ds) =>
      SettledStands(current, ds, owner, t);
      SettlingWhatStands(m, ds, owner, t');
      assert m == map k | k in Wanted(ds) :: m[k];
    case AcquireAll(ds) =>
      SettledStands(current, ds, owner, t);
      assert Stands(m, ds);
      SettlingWhatStands(m, ds, owner, t');
    case ReleaseAll(released) =>
      assert m - released == m;
    case ApplyDeltas(ds) =>
      DeltasAreStable(current, ds, owner, t, t');
  }

  function Committed(p: Plan): Snapshot {
    Snapshot(p.repositoryId, p.claimSetGeneration, p.sessions, p.claims)
  }

  lemma SplitAgain(external: seq<Claim>, next: seq<Claim>, sessionId: string)
    requires forall c :: c in external ==> c.sessionId != sessionId
    requires forall c :: c in next ==> c.sessionId == sessionId
    ensures forall c :: c in Own(SortClaims(external + next), sessionId) <==> c in next
    ensures forall c :: c in External(SortClaims(external + next), sessionId) <==> c in external
  {
    Sorting.SortKeepsElements(external + next, ClaimSortKey);
    assert forall c :: c in SortClaims(external + next) <==> c in external || c in next;
  }

  lemma ValuesIndexThemselves(own: seq<Claim>, m: map<string, Claim>)
    requires Keyed(m) && forall c :: c in own <==> c in m.Values
    ensures ByResource(own) == m
  {
    forall c, d | c in own && d in own && c.resource == d.resource ensures c == d {
      assert c in m.Values && d in m.Values;
      assert m[c.resource] == c && m[d.resource] == d;
    }
    SameElementsSameIndex(own, m);
  }

  /** After a plan, the session's claims are the plan's and the others' are as before. */
  lemma AfterThePlan(s: Snapshot, r: Request, owner: Session, request: Normalized, m: map<string, Claim>)
    requires Coordinated(s.claims) && NormalizeRequest(owner, r) == Ok(request) && owner.sessionId == r.sessionId
    requires NextClaims(ByResource(Own(s.claims, r.sessionId)), request, owner, r.timestamp) == Ok(m)
    ensures var claims := SortClaims(External(s.claims, r.sessionId) + SortedValues(m));
      && ByResource(Own(claims, r.sessionId)) == m
      && (forall c :: c in Own(claims, r.sessionId) <==> c in m.Values)
      && (forall c :: c in External(claims, r.sessionId) <==> c in External(s.claims, r.sessionId))
  {
    NextClaimsAreOwn(s.claims, r, owner, request, m);
    var external, next := External(s.claims, r.sessionId), SortedValues(m);
    var own := Own(SortClaims(external + next), r.sessionId);
    SplitAgain(external, next, r.sessionId);
    ValuesIndexThemselves(own, m);
  }

  lemma ReplayedSetIsComplete(next: seq<Claim>, external: seq<Claim>, external': seq<Claim>, repositoryId: string,
      facts: FactSource)
    requires AssertCompleteClaimSet(next, external, repositoryId, facts) == None
    requires forall c :: c in external' <==> c in external
    ensures AssertCompleteClaimSet(next, external', repositoryId, facts) == None
  {
    forall c, e | c in next && e in external' ensures !Conflicts(c, e, facts(c, e)) {
      assert e in external;
    }
  }

  lemma ReplayedSetIsDrained(own: seq<Claim>, m: map<string, Claim>, executions: seq<Execution>)
    requires Keyed(m) && forall c :: c in own <==> c in m.Values
    ensures AssertExecutionDrain(own, SortedValues(m), executions) == None
  {
    IndexingSortedValues(m);
    forall c | c in own ensures !Shrinks(c, At(ByResource(SortedValues(m)), c.resource)) {
      var k :| k in m && m[k] == c;
      assert m[c.resource] == c;
    }
  }

  /** The same request, but with its own concurrency intent, clock and execution report. */
  function Replay(r: Request, expected: Option<int>, force: bool, timestamp: string, executions: seq<Execution>)
    : Request
  {
    r.(expected := expected, force := force, timestamp := timestamp, executions := executions)
  }

  ghost predicate Refreshed(p: Plan, r': Request) {
    var s' := Committed(p);
    AssertSnapshot(s') == AssertRequest(r') == AssertConcurrency(s'.claimSetGeneration, r') == None
  }

  /** A plan is accepted when every stage is. */
  lemma PlanFromStages(s: Snapshot, r: Request, facts: FactSource, owner: Session, request: Normalized,
      m: map<string, Claim>)
    requires AssertSnapshot(s) == AssertRequest(r) == AssertConcurrency(s.claimSetGeneration, r) == None
    requires SelectOwner(s, r) == Ok(owner) && owner.sessionId == r.sessionId
      && NormalizeRequest(owner, r) == Ok(request)
    requires NextClaims(ByResource(Own(s.claims, r.sessionId)), request, owner, r.timestamp) == Ok(m)
    requires AssertCompleteClaimSet(SortedValues(m), External(s.claims, r.sessionId), s.repositoryId, facts) == None
    requires AssertExecutionDrain(Own(s.claims, r.sessionId), SortedValues(m), r.executions) == None
    ensures PlanTransaction(s, r, facts) == Ok(Assemble(s, owner, SortedValues(m)))
  {
  }

  lemma NormalizingIgnoresIntent(owner: Session, r: Request, r': Request)
    requires r' == Replay(r, r'.expected, r'.force, r'.timestamp, r'.executions)
    ensures NormalizeRequest(owner, r') == NormalizeRequest(owner, r) && r'.sessionId == r.sessionId
  {
  }

  lemma ReplayedPlan(
    s: Snapshot, s': Snapshot, r: Request, r': Request, facts: FactSource, owner: Session, request: Normalized,
    m: map<string, Claim>)
    requires Coordinated(s.claims) && owner.sessionId == r.sessionId && NormalizeRequest(owner, r) == Ok(request)
    requires NextClaims(ByResource(Own(s.claims, r.sessionId)), request, owner, r.timestamp) == Ok(m)
    requires AssertCompleteClaimSet(SortedValues(m), External(s.claims, r.sessionId), s.repositoryId, facts) == None
    requires s'.repositoryId == s.repositoryId
      && s'.claims == SortClaims(External(s.claims, r.sessionId) + SortedValues(m))
    requires r' == Replay(r, r'.expected, r'.force, r'.timestamp, r'.executions)
    requires AssertSnapshot(s') == AssertRequest(r') == AssertConcurrency(s'.claimSetGeneration, r') == None
    requires SelectOwner(s', r') == Ok(owner)
    ensures PlanTransaction(s', r', facts) == Ok(Assemble(s', owner, SortedValues(m)))
  {
    assert NextClaims(ByResource(Own(s'.claims, r.sessionId)), request, owner, r'.timestamp) == Ok(m) by {
      NormalizedIsUnambiguous(owner, r);
      NextClaimsAreStable(ByResource(Own(s.claims, r.sessionId)), request, owner, r.timestamp, r'.timestamp);
      AfterThePlan(s, r, owner, request, m);
    }
    var external' := External(s'.claims, r.sessionId);
    assert AssertCompleteClaimSet(SortedValues(m), external', s'.repositoryId, facts) == None by {
      AfterThePlan(s, r, owner, request, m);
      ReplayedSetIsComplete(SortedValues(m), External(s.claims, r.sessionId), External(s'.claims, r.sessionId),
        s.repositoryId, facts);
    }
    assert AssertExecutionDrain(Own(s'.claims, r.sessionId), SortedValues(m), r'.executions) == None by {
      NextClaimsAreOwn(s.claims, r, owner, request, m);
      AfterThePlan(s, r, owner, request, m);
      ReplayedSetIsDrained(Own(s'.claims, r.sessionId), m, r'.executions);
    }
    NormalizingIgnoresIntent(owner, r, r');
    PlanFromStages(s', r', facts, owner, request, m);
  }

  /** Replaying an accepted request on its own result, with any refreshed intent, clock and
      execution report, is accepted and changes nothing. */
  lemma ReplayIsIdempotent(
    s: Snapshot, r: Request, facts: FactSource,
    expected: Option<int>, force: bool, timestamp: string, executions: seq<Execution>)
    requires Coordinated(s.claims) && Honest(facts) && '\0' !in r.sessionId && PlanTransaction(s, r, facts).Ok?
    requires Refreshed(PlanTransaction(s, r, facts).value, Replay(r, expected, force, timestamp, executions))
    ensures var s' := Committed(PlanTransaction(s, r, facts).value);
      var again := PlanTransaction(s', Replay(r, expected, force, timestamp, executions), facts);
      again.Ok? && again.value.idempotent && Committed(again.value) == s'
  {
    var p := PlanTransaction(s, r, facts).value;
    var s', r' := Committed(p), Replay(r, expected, force, timestamp, executions);
    var owner, request, m := Stages(s, r, facts);
    ReplayedPlan(s, s', r, r', facts, owner, request, m);
    NextClaimsAreOwn(s.claims, r, owner, request, m);
    AfterThePlan(s, r, owner, request, m);
    PlanKeepsCoordination(s, r, facts);
    SameMapSameClaims(s'.claims, r.sessionId, m);
    Sorting.SortSorts(External(s.claims, r.sessionId) + SortedValues(m), ClaimSortKey);
    GenerationCountsChanges(s', r', facts);
    IdempotentPlanKeepsTheList(s', r', facts);
  }

  // ----- The order of deltas

  lemma SameDesiredSameSettled(current: map<string, Claim>, us: seq<Desired>, vs: seq<Desired>, owner: Session,
      timestamp: string)
    requires OneDesiredPerResource(us) && forall d :: d in us <==> d in vs
    ensures Settled(current, us, owner, timestamp) == Settled(current, vs, owner, timestamp)
  {
    forall k ensures Wants(us, k) <==> Wants(vs, k) {
    }
    assert Wanted(us) == Wanted(vs);
    forall k | k in Wanted(us) ensures WantedOn(us, k) == WantedOn(vs, k) {
      assert WantedOn(vs, k) in us;
    }
  }

  lemma SameDeltasSameMap(
    current: map<string, Claim>, ds: seq<NormalDelta>, es: seq<NormalDelta>, owner: Session, timestamp: string)
    requires OneDeltaPerResource(ds) && forall n :: n in ds <==> n in es
    ensures NextClaims(current, ApplyDeltas(ds), owner, timestamp)
      == NextClaims(current, ApplyDeltas(es), owner, timestamp)
  {
    UpsertsAndDropsAreApart(ds);
    SameDesiredSameSettled(current, Upserts(ds), Upserts(es), owner, timestamp);
    assert Drops(ds) == Drops(es);
  }

  lemma ReorderedListNormalizes(a: seq<DeltaInput>, b: seq<DeltaInput>, owner: Session, sharing: Option<Sharing>)
    requires multiset(a) == multiset(b) && NormalizeDeltas(a, owner, sharing, {}).Ok?
    ensures NormalizeDeltas(b, owner, sharing, {}).Ok? && (forall d :: d in a <==> d in b)
    ensures forall n :: n in NormalizeDeltas(a, owner, sharing, {}).value <==>
      n in NormalizeDeltas(b, owner, sharing, {}).value
  {
    forall d ensures d in a <==> d in b {
      assert d in a <==> d in multiset(a);
      assert d in b <==> d in multiset(b);
    }
    NormalizingDeltas(a, owner, sharing, {});
    NormalizingDeltas(b, owner, sharing, {});
    Sorting.DistinctKeysAfterReordering(a, b, (d: DeltaInput) => d.resource);
    assert Sorting.HasDistinctKeys(b, (d: DeltaInput) => d.resource);
  }

  lemma ReorderedRequestNormalizes(owner: Session, r: Request, reordered: seq<DeltaInput>)
    requires r.kind == Delta && r.deltas.Some? && multiset(reordered) == multiset(r.deltas.value)
    requires NormalizeRequest(owner, r).Ok?
    ensures NormalizeRequest(owner, r.(deltas := Some(reordered))).Ok?
    ensures var r' := r.(deltas := Some(reordered));
      forall n :: n in NormalizeRequest(owner, r).value.deltas <==> n in NormalizeRequest(owner, r').value.deltas
  {
    ReorderedListNormalizes(r.deltas.value, reordered, owner, r.sharing);
    assert |reordered| == |multiset(reordered)| == |multiset(r.deltas.value)| == |r.deltas.value|;
  }

  lemma ReorderedNextClaims(
    current: map<string, Claim>, owner: Session, r: Request, reordered: seq<DeltaInput>, m: map<string, Claim>)
    requires r.kind == Delta && r.deltas.Some? && multiset(reordered) == multiset(r.deltas.value)
    requires NormalizeRequest(owner, r).Ok?
    requires NextClaims(current, NormalizeRequest(owner, r).value, owner, r.timestamp) == Ok(m)
    ensures NormalizeRequest(owner, r.(deltas := Some(reordered))).Ok?
    ensures NextClaims(current, NormalizeRequest(owner, r.(deltas := Some(reordered))).value, owner, r.timestamp)
      == Ok(m)
  {
    ReorderedRequestNormalizes(owner, r, reordered);
    NormalizedIsUnambiguous(owner, r);
    var ds, es :=
      NormalizeRequest(owner, r).value.deltas, NormalizeRequest(owner, r.(deltas := Some(reordered))).value.deltas;
    SameDeltasSameMap(current, ds, es, owner, r.timestamp);
  }

  /** Listing the deltas of an accepted request in another order gives the same plan. */
  lemma DeltaOrderIsIrrelevant(s: Snapshot, r: Request, facts: FactSource, reordered: seq<DeltaInput>)
    requires r.kind == Delta && r.deltas.Some? && multiset(reordered) == multiset(r.deltas.value)
    requires PlanTransaction(s, r, facts).Ok?
    ensures PlanTransaction(s, r.(deltas := Some(reordered)), facts) == PlanTransaction(s, r, facts)
  {
    var owner, request, m := Stages(s, r, facts);
    var r' := r.(deltas := Some(reordered));
    ReorderedNextClaims(ByResource(Own(s.claims, r.sessionId)), owner, r, reordered, m);
    PlanFromStages(s, r', facts, owner, NormalizeRequest(owner, r').value, m);
  }
}
