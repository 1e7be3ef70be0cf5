/** What one accepted plan does to the claim set: it keeps the coordination invariant, leaves
    other sessions alone, and raises the generation exactly when something changed. */
module ClaimSets {
  import opened CoordinationTransactions
  import opened ResourceClaims
  import opened Resources
  import opened Wrappers
  import Sorting

  ghost predicate NoDuplicates(claims: seq<Claim>) {
    forall c :: multiset(claims)[c] <= 1
  }

  ghost predicate AllValid(claims: seq<Claim>) {
    forall c :: c in claims ==> IsCanonical(c.resource) && '\0' !in c.sessionId
  }

  ghost predicate OnePerResource(claims: seq<Claim>) {
    forall c, d :: c in claims && d in claims && c.resource == d.resource ==> c == d
  }

  ghost predicate ApartWithin(claims: seq<Claim>) {
    forall c, d :: c in claims && d in claims && c != d && c.sessionId == d.sessionId ==> !ClaimsMeet(c, d)
  }

  ghost predicate SafeAcross(claims: seq<Claim>) {
    forall c, d :: c in claims && d in claims && c.sessionId != d.sessionId ==> SafePair(c, d)
  }

  /** The claim set every run keeps: one session's claims are pairwise apart (so at most one
      stands on a resource), and claims of different sessions that meet are compatible by mode
      or writes of one sharing group. It speaks of the claims and not of their order. */
  ghost predicate Coordinated(claims: seq<Claim>) {
    AllValid(claims) && NoDuplicates(claims) && ApartWithin(claims) && SafeAcross(claims)
  }

  /** A coordinated claim set in the order in which the registry keeps it. */
  ghost predicate Orderly(claims: seq<Claim>) {
    Coordinated(claims) && Sorting.Sorted(claims, ClaimSortKey)
  }

  // ----- Sequences, sets and multisets

  lemma InMultiset<T>(s: seq<T>)
    ensures forall x :: x in s <==> x in multiset(s)
  {
  }

  lemma {:induction false} OwnAndExternal(claims: seq<Claim>, sessionId: string)
    ensures multiset(claims) == multiset(Own(claims, sessionId)) + multiset(External(claims, sessionId))
  {
    if claims != [] {
      OwnAndExternal(claims[1..], sessionId);
      assert claims == [claims[0]] + claims[1..];
    }
  }

  lemma {:induction false} DistinctMeansOnce<T>(s: seq<T>)
    requires forall i, j :: 0 <= i < j < |s| ==> s[i] != s[j]
    ensures forall x :: multiset(s)[x] <= 1
  {
    if s != [] {
      DistinctMeansOnce(s[1..]);
      assert s == [s[0]] + s[1..];
    }
  }

  lemma OnceMeansSet<T>(s: seq<T>, elements: set<T>)
    requires forall x :: multiset(s)[x] <= 1
    requires forall x :: x in elements <==> x in s
    ensures multiset(s) == multiset(elements)
  {
    forall x ensures multiset(s)[x] == multiset(elements)[x] {
      assert x in s <==> x in multiset(s);
    }
  }

  lemma {:induction false} ByResourceUnique(claims: seq<Claim>)
    requires OnePerResource(claims)
    ensures forall c :: c in claims <==> c in ByResource(claims).Values
  {
    var m := ByResource(claims);
    forall c | c in claims ensures c in m.Values {
      assert m[c.resource] == c;
    }
  }

  lemma SortedValuesElements(m: map<string, Claim>)
    ensures multiset(SortedValues(m)) == multiset(m.Values)
    ensures forall c :: c in SortedValues(m) <==> c in m.Values
  {
    Sorting.SortSorts(Enumerate(m.Values), ClaimSortKey);
    forall c ensures c in SortedValues(m) <==> c in m.Values {
      assert c in SortedValues(m) <==> c in multiset(SortedValues(m));
    }
  }

  /** Listing the values of a map and indexing the list by resource gives the map back. */
  lemma IndexingSortedValues(m: map<string, Claim>)
    requires forall k :: k in m ==> m[k].resource == k
    ensures ByResource(SortedValues(m)) == m
  {
    SortedValuesElements(m);
    var back := ByResource(SortedValues(m));
    forall k ensures k in back <==> k in m {
      if k in m { assert m[k] in SortedValues(m); }
    }
    forall k | k in m ensures back[k] == m[k] {
      assert back[k] in m.Values;
    }
  }

  // ----- The claims of one session under the invariant

  lemma ApartMeansOnePerResource(own: seq<Claim>)
    requires forall c :: c in own ==> IsCanonical(c.resource)
    requires forall c, d :: c in own && d in own && c != d ==> !ClaimsMeet(c, d)
    ensures OnePerResource(own)
  {
    forall c, d | c in own && d in own && c.resource == d.resource ensures c == d {
      OverlapIsReflexive(c.resource);
    }
  }

  lemma OwnIsListedOnce(claims: seq<Claim>, sessionId: string)
    requires NoDuplicates(claims)
    ensures NoDuplicates(Own(claims, sessionId))
  {
    OwnAndExternal(claims, sessionId);
    forall c ensures multiset(Own(claims, sessionId))[c] <= 1 {
      assert multiset(Own(claims, sessionId))[c] <= multiset(claims)[c];
    }
  }

  lemma OneClaimPerResource(claims: seq<Claim>, sessionId: string)
    requires Coordinated(claims)
    ensures OnePerResource(Own(claims, sessionId)) && NoDuplicates(Own(claims, sessionId))
  {
    OwnIsListedOnce(claims, sessionId);
    ApartMeansOnePerResource(Own(claims, sessionId));
  }

  lemma CurrentValues(claims: seq<Claim>, sessionId: string)
    requires Coordinated(claims)
    ensures multiset(ByResource(Own(claims, sessionId)).Values) == multiset(Own(claims, sessionId))
  {
    OneClaimPerResource(claims, sessionId);
    var own := Own(claims, sessionId);
    ByResourceUnique(own);
    OnceMeansSet(own, ByResource(own).Values);
  }

  // ----- Where the next claims come from

  predicate AllCanonical(ds: seq<Desired>) {
    forall d :: d in ds ==> IsCanonical(d.resource)
  }

  function DesiredOf(request: Normalized): seq<Desired> {
    match request
    case AcquireAll(ds) => ds
    case ReplaceBy(ds) => ds
    case ReleaseAll(_) => []
    case ApplyDeltas(ds) => Upserts(ds)
  }

  lemma {:induction false} NormalDeltasAreCanonical(
    deltas: seq<DeltaInput>, owner: Session, sharing: Option<Sharing>, seen: set<string>)
    requires NormalizeDeltas(deltas, owner, sharing, seen).Ok?
    ensures forall d :: d in NormalizeDeltas(deltas, owner, sharing, seen).value ==> IsCanonical(d.Resource())
  {
    if deltas != [] {
      NormalDeltasAreCanonical(deltas[1..], owner, sharing, seen + {CanonicalizeResource(deltas[0].resource).value});
    }
  }

  lemma NormalizedIsCanonical(owner: Session, r: Request)
    requires NormalizeRequest(owner, r).Ok?
    ensures AllCanonical(DesiredOf(NormalizeRequest(owner, r).value))
  {
    var request := NormalizeRequest(owner, r).value;
    match r.kind
    case Release =>
    case Delta => NormalDeltasAreCanonical(r.deltas.value, owner, r.sharing, {});
    case _ =>
      var inputs := if r.claims.Some? then r.claims.value else [];
      var all := CanonicalizeAll(inputs, owner, r.sharing).value;
      Sorting.SortKeepsElements(all, DesiredKey);
      assert DesiredOf(request) == Sorting.SortBy(all, DesiredKey);
      forall d | d in DesiredOf(request) ensures IsCanonical(d.resource) {
        assert d in all;
      }
  }

  /** A claim created for the session on a desired resource that held nothing equivalent. */
  ghost predicate CreatedFor(c: Claim, current: map<string, Claim>, ds: seq<Desired>, owner: Session,
      timestamp: string) {
    exists d :: d in ds && (d.resource in current ==> !EquivalentInput(current[d.resource], d))
      && c == CreateClaim(d.resource, d.mode, d.sharing, owner.Owner(), timestamp)
  }

  /** Every next claim is one the session had, or one created for it. */
  lemma NextClaimsOrigin(current: map<string, Claim>, request: Normalized, owner: Session, timestamp: string)
    requires forall k :: k in current ==> current[k].resource == k
    requires NextClaims(current, request, owner, timestamp).Ok?
    ensures var m := NextClaims(current, request, owner, timestamp).value;
      forall k :: k in m ==>
        m[k].resource == k
        && ((k in current && m[k] == current[k]) || CreatedFor(m[k], current, DesiredOf(request), owner, timestamp))
  {
  }

  /** The stages of an accepted plan, each with its result. */
  lemma Stages(s: Snapshot, r: Request, facts: FactSource)
    returns (owner: Session, request: Normalized, m: map<string, Claim>)
    requires PlanTransaction(s, r, facts).Ok?
    ensures AssertSnapshot(s) == AssertRequest(r) == AssertConcurrency(s.claimSetGeneration, r) == None
    ensures SelectOwner(s, r) == Ok(owner) && owner.sessionId == r.sessionId
    ensures NormalizeRequest(owner, r) == Ok(request)
    ensures NextClaims(ByResource(Own(s.claims, r.sessionId)), request, owner, r.timestamp) == Ok(m)
    ensures AssertCompleteClaimSet(SortedValues(m), External(s.claims, r.sessionId), s.repositoryId, facts) == None
    ensures AssertExecutionDrain(Own(s.claims, r.sessionId), SortedValues(m), r.executions) == None
    ensures PlanTransaction(s, r, facts) == Ok(Assemble(s, owner, SortedValues(m)))
  {
    owner := SelectOwner(s, r).value;
    request := NormalizeRequest(owner, r).value;
    m := NextClaims(ByResource(Own(s.claims, owner.sessionId)), request, owner, r.timestamp).value;
  }

  lemma OriginIsOwn(current: map<string, Claim>, ds: seq<Desired>, owner: Session, timestamp: string, c: Claim)
    requires forall k :: k in current ==>
      IsCanonical(k) && current[k].resource == k && current[k].sessionId == owner.sessionId
    requires AllCanonical(ds)
    requires (c.resource in current && c == current[c.resource]) || CreatedFor(c, current, ds, owner, timestamp)
    ensures IsCanonical(c.resource) && c.sessionId == owner.sessionId
  {
  }

  /** What the next claims of a session look like. */
  lemma NextClaimsAreOwn(
    claims: seq<Claim>, r: Request, owner: Session, request: Normalized, m: map<string, Claim>)
    requires Coordinated(claims) && NormalizeRequest(owner, r) == Ok(request)
    requires NextClaims(ByResource(Own(claims, owner.sessionId)), request, owner, r.timestamp) == Ok(m)
    ensures forall k :: k in m ==> m[k].resource == k && IsCanonical(k) && m[k].sessionId == owner.sessionId
    ensures forall c :: c in SortedValues(m) <==> c in m.Values
    ensures multiset(SortedValues(m)) == multiset(m.Values)
  {
    var current := ByResource(Own(claims, owner.sessionId));
    assert AllCanonical(DesiredOf(request)) by { NormalizedIsCanonical(owner, r); }
    forall k | k in m ensures m[k].resource == k && IsCanonical(k) && m[k].sessionId == owner.sessionId {
      NextClaimsOrigin(current, request, owner, r.timestamp);
      OriginIsOwn(current, DesiredOf(request), owner, r.timestamp, m[k]);
    }
    SortedValuesElements(m);
  }

  /** The session's next claims are pairwise apart and listed once. */
  lemma NextIsApart(next: seq<Claim>)
    requires !SelfOverlaps(next) && forall c :: c in next ==> IsCanonical(c.resource)
    ensures NoDuplicates(next)
    ensures forall c, d :: c in next && d in next && c != d ==> !ClaimsMeet(c, d)
  {
    forall i, j | 0 <= i < j < |next| ensures next[i] != next[j] {
      OverlapIsReflexive(next[i].resource);
    }
    DistinctMeansOnce(next);
    forall c, d | c in next && d in next && c != d ensures !ClaimsMeet(c, d) {
      var i :| 0 <= i < |next| && next[i] == c;
      var j :| 0 <= j < |next| && next[j] == d;
      OverlapIsSymmetric(c.resource, d.resource);
    }
  }

  lemma JoinedNoDuplicates(external: seq<Claim>, next: seq<Claim>)
    requires NoDuplicates(external) && NoDuplicates(next) && forall c :: c in external ==> c !in next
    ensures NoDuplicates(SortClaims(external + next))
  {
    Sorting.SortSorts(external + next, ClaimSortKey);
    InMultiset(external);
    InMultiset(next);
  }

  lemma JoinedSafeAcross(external: seq<Claim>, next: seq<Claim>, sessionId: string, facts: FactSource)
    requires SafeAcross(external) && Honest(facts) && !ConflictsWithAny(next, external, facts)
    requires forall c :: c in next ==> c.sessionId == sessionId
    ensures SafeAcross(SortClaims(external + next))
  {
    var all := SortClaims(external + next);
    Sorting.SortKeepsElements(external + next, ClaimSortKey);
    forall c, d | c in all && d in all && c.sessionId != d.sessionId ensures SafePair(c, d) {
      if c in next {
        assert !Conflicts(c, d, facts(c, d));
        NoConflictIsSafe(c, d, facts);
      } else if d in next {
        assert !Conflicts(d, c, facts(d, c));
        NoConflictIsSafe(d, c, facts);
        SafePairIsSymmetric(c, d);
      }
    }
  }

  lemma JoinedApartWithin(external: seq<Claim>, next: seq<Claim>, sessionId: string)
    requires ApartWithin(external) && ApartWithin(next)
    requires forall c :: c in next ==> c.sessionId == sessionId
    requires forall c :: c in external ==> c.sessionId != sessionId
    ensures ApartWithin(SortClaims(external + next))
  {
    Sorting.SortKeepsElements(external + next, ClaimSortKey);
  }

  lemma ExternalKeeps(claims: seq<Claim>, sessionId: string)
    requires Coordinated(claims)
    ensures NoDuplicates(External(claims, sessionId))
    ensures ApartWithin(External(claims, sessionId)) && SafeAcross(External(claims, sessionId))
  {
    var external := External(claims, sessionId);
    OwnAndExternal(claims, sessionId);
    forall c ensures multiset(external)[c] <= 1 {
      assert multiset(external)[c] <= multiset(claims)[c];
    }
  }

  /** A checked set of next claims put beside the claims of the others. */
  lemma CheckedSetIsCoordinated(claims: seq<Claim>, next: seq<Claim>, sessionId: string, facts: FactSource)
    requires Coordinated(claims) && Honest(facts) && '\0' !in sessionId
    requires forall c :: c in next ==> IsCanonical(c.resource) && c.sessionId == sessionId
    requires !SelfOverlaps(next) && !ConflictsWithAny(next, External(claims, sessionId), facts)
    ensures Coordinated(SortClaims(External(claims, sessionId) + next))
  {
    var external := External(claims, sessionId);
    NextIsApart(next);
    ExternalKeeps(claims, sessionId);
    JoinedNoDuplicates(external, next);
    JoinedApartWithin(external, next, sessionId);
    JoinedSafeAcross(external, next, sessionId, facts);
    Sorting.SortKeepsElements(external + next, ClaimSortKey);
  }

  /** One accepted plan keeps the invariant, given honest evidence. */
  lemma PlanKeepsCoordination(s: Snapshot, r: Request, facts: FactSource)
    requires Coordinated(s.claims) && Honest(facts) && '\0' !in r.sessionId
    requires PlanTransaction(s, r, facts).Ok?
    ensures Coordinated(PlanTransaction(s, r, facts).value.claims)
  {
    var owner, request, m := Stages(s, r, facts);
    NextClaimsAreOwn(s.claims, r, owner, request, m);
    CheckedSetIsCoordinated(s.claims, SortedValues(m), r.sessionId, facts);
  }

  lemma {:induction false} OwnFollowsMultiset(a: seq<Claim>, sessionId: string)
    ensures forall c :: multiset(Own(a, sessionId))[c] == if c.sessionId == sessionId then multiset(a)[c] else 0
  {
    if a != [] {
      OwnFollowsMultiset(a[1..], sessionId);
      assert a == [a[0]] + a[1..];
    }
  }

  /** Exchanging one session's claims leaves every other session's where they were. */
  lemma ExchangeLeavesOthers(claims: seq<Claim>, next: seq<Claim>, after: seq<Claim>, sessionId: string, other: string)
    requires other != sessionId && forall c :: c in next ==> c.sessionId == sessionId
    requires multiset(after) == multiset(External(claims, sessionId)) + multiset(next)
    ensures multiset(Own(after, other)) == multiset(Own(claims, other))
  {
    var own, external := Own(claims, sessionId), External(claims, sessionId);
    OwnAndExternal(claims, sessionId);
    OwnFollowsMultiset(after, other);
    OwnFollowsMultiset(claims, other);
    forall c ensures multiset(Own(after, other))[c] == multiset(Own(claims, other))[c] {
      if c.sessionId == other {
        assert multiset(next)[c] == 0 by { InMultiset(next); }
        assert multiset(own)[c] == 0 by { InMultiset(own); }
        assert multiset(after)[c] == multiset(external)[c] == multiset(claims)[c];
      }
    }
  }

  /** No plan adds, removes or alters a claim of a session other than its own. */
  lemma OthersAreUntouched(s: Snapshot, r: Request, facts: FactSource, other: string)
    requires Coordinated(s.claims) && PlanTransaction(s, r, facts).Ok? && other != r.sessionId
    ensures multiset(Own(PlanTransaction(s, r, facts).value.claims, other)) == multiset(Own(s.claims, other))
  {
    var p := PlanTransaction(s, r, facts).value;
    var owner, request, m := Stages(s, r, facts);
    NextClaimsAreOwn(s.claims, r, owner, request, m);
    var next, external := SortedValues(m), External(s.claims, r.sessionId);
    Sorting.SortSorts(external + next, ClaimSortKey);
    ExchangeLeavesOthers(s.claims, next, p.claims, r.sessionId, other);
  }
}
