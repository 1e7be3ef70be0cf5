/** The generation as a version of the claim set, replays, and the order of deltas. */
module Generations {
  import opened ClaimSets
  import opened CoordinationTransactions
  import opened ResourceClaims
  import opened Resources
  import opened Strings
  import Sorting

  // ----- Sort keys tell the claims of a coordinated set apart

  lemma KeyResource(c: Claim)
    requires '\0' !in c.resource
    ensures Split(ClaimSortKey(c), '\0')[0] == c.resource
  {
    var rest := c.mode.Name() + ['\0'] + c.sessionId + ['\0'] + c.claimId;
    assert ClaimSortKey(c) == c.resource + ['\0'] + rest;
    PutInFront(c.resource, rest);
  }

  lemma PartsOfFour(a: string, b: string, c: string, d: string)
    requires '\0' !in a && '\0' !in b && '\0' !in c
    ensures Split(a + ['\0'] + (b + ['\0'] + (c + ['\0'] + d)), '\0') == [a] + ([b] + ([c] + Split(d, '\0')))
  {
    PutInFront(c, d);
    PutInFront(b, c + ['\0'] + d);
    PutInFront(a, b + ['\0'] + (c + ['\0'] + d));
  }

  lemma PutInFront(a: string, rest: string)
    requires '\0' !in a
    ensures Split(a + ['\0'] + rest, '\0') == [a] + Split(rest, '\0')
  {
    SplitWhole(a, '\0');
    SplitConcat(a, rest, '\0');
  }

  lemma KeyParts(c: Claim)
    requires '\0' !in c.resource && '\0' !in c.sessionId
    ensures |Split(ClaimSortKey(c), '\0')| >= 3
    ensures Split(ClaimSortKey(c), '\0')[0] == c.resource
    ensures Split(ClaimSortKey(c), '\0')[2] == c.sessionId
  {
    assert ClaimSortKey(c) == c.resource + ['\0'] + (c.mode.Name() + ['\0'] + (c.sessionId + ['\0'] + c.claimId));
    PartsOfFour(c.resource, c.mode.Name(), c.sessionId, c.claimId);
  }

  lemma KeysTellApart(claims: seq<Claim>)
    requires Coordinated(claims)
    ensures Sorting.KeyIsInjective(claims, ClaimSortKey)
  {
    forall c, d | c in claims && d in claims && ClaimSortKey(c) == ClaimSortKey(d) ensures c == d {
      CanonicalizationIsIdentity(c.resource);
      CanonicalizationIsIdentity(d.resource);
      KeyParts(c);
      KeyParts(d);
      OverlapIsReflexive(c.resource);
    }
  }

  // ----- The change list and the generation

  ghost predicate Keyed(m: map<string, Claim>) {
    forall k :: k in m ==> m[k].resource == k
  }

  /** A change compares the two maps at its resource. */
  lemma ChangeCompares(before: seq<Claim>, m: map<string, Claim>, k: string)
    requires OnePerResource(before) && Keyed(m)
    ensures var c := ChangeOn(before, SortedValues(m), k);
      c.resource == k && c.before == At(ByResource(before), k) && c.after == At(m, k)
  {
    IndexingSortedValues(m);
    if k in ByResource(before) {
      var c := ByResource(before)[k];
      assert c in before && FindClaim(before, k).Some?;
    }
  }

  lemma IndexedResources(claims: seq<Claim>, k: string)
    ensures k in ByResource(claims) <==> k in ResourcesOf(claims)
  {
    var rs := ResourcesOf(claims);
    if k in ByResource(claims) {
      var i :| 0 <= i < |claims| && claims[i] == ByResource(claims)[k];
      assert rs[i] == k;
    }
    if k in rs {
      var i :| 0 <= i < |rs| && rs[i] == k;
      assert claims[i] in claims;
    }
  }

  lemma TouchedAreListed(before: seq<Claim>, after: seq<Claim>, k: string)
    ensures k in TouchedResources(before, after) <==> k in ByResource(before) || k in ByResource(after)
  {
    IndexedResources(before, k);
    IndexedResources(after, k);
    var all := ResourcesOf(before) + ResourcesOf(after);
    Sorting.SortKeepsElements(Sorting.Unique(all), (s: string) => s);
    assert k in all <==> k in ResourcesOf(before) || k in ResourcesOf(after);
  }

  lemma ChangeIsListed(before: seq<Claim>, after: seq<Claim>, k: string)
    requires k in ByResource(before) || k in ByResource(after)
    ensures ChangeOn(before, after, k) in BuildChanges(before, after)
  {
    TouchedAreListed(before, after, k);
    var resources := TouchedResources(before, after);
    var j :| 0 <= j < |resources| && resources[j] == k;
    assert BuildChanges(before, after)[j] == ChangeOn(before, after, k);
  }

  lemma ListedChange(before: seq<Claim>, after: seq<Claim>, c: Change)
    requires c in BuildChanges(before, after)
    ensures c == ChangeOn(before, after, c.resource)
    ensures c.resource in ByResource(before) || c.resource in ByResource(after)
  {
    var j :| 0 <= j < |BuildChanges(before, after)| && BuildChanges(before, after)[j] == c;
    TouchedAreListed(before, after, TouchedResources(before, after)[j]);
  }

  ghost predicate Differs(m: map<string, Claim>, n: map<string, Claim>, k: string) {
    At(m, k) != At(n, k)
  }

  lemma SameAtEveryKey(m: map<string, Claim>, n: map<string, Claim>)
    requires forall k :: !Differs(m, n, k)
    ensures m == n
  {
    forall k ensures k in m <==> k in n {
      assert !Differs(m, n, k);
    }
    forall k | k in m ensures m[k] == n[k] {
      assert !Differs(m, n, k);
    }
  }

  ghost predicate FromCurrent(m: map<string, Claim>, current: map<string, Claim>, ds: seq<Desired>, owner: Session,
      timestamp: string) {
    forall k :: k in m ==> (k in current && m[k] == current[k]) || CreatedFor(m[k], current, ds, owner, timestamp)
  }

  /** A claim is replaced only by one that says something else. */
  lemma ReplacedIsNotEquivalent(current: map<string, Claim>, m: map<string, Claim>, ds: seq<Desired>, owner: Session,
      timestamp: string, k: string)
    requires Keyed(m) && FromCurrent(m, current, ds, owner, timestamp)
    requires k in m && k in current && m[k] != current[k]
    ensures !Equivalent(current[k], m[k])
  {
    assert CreatedFor(m[k], current, ds, owner, timestamp);
  }

  lemma DifferenceIsReported(
    before: seq<Claim>, m: map<string, Claim>, ds: seq<Desired>, owner: Session, timestamp: string, k: string)
    returns (c: Change)
    requires OnePerResource(before) && Keyed(m)
    requires FromCurrent(m, ByResource(before), ds, owner, timestamp) && Differs(m, ByResource(before), k)
    ensures c in BuildChanges(before, SortedValues(m)) && c.kind != Unchanged
  {
    var current := ByResource(before);
    c := ChangeOn(before, SortedValues(m), k);
    assert c in BuildChanges(before, SortedValues(m)) by {
      IndexingSortedValues(m);
      ChangeIsListed(before, SortedValues(m), k);
    }
    ChangeCompares(before, m, k);
    if k in m && k in current {
      ReplacedIsNotEquivalent(current, m, ds, owner, timestamp, k);
    }
  }

  lemma ReportedIsDifference(before: seq<Claim>, m: map<string, Claim>, c: Change)
    requires OnePerResource(before) && Keyed(m)
    requires c in BuildChanges(before, SortedValues(m)) && c.kind != Unchanged
    ensures m != ByResource(before)
  {
    IndexingSortedValues(m);
    ListedChange(before, SortedValues(m), c);
    ChangeCompares(before, m, c.resource);
  }

  /** The change list reports something other than "unchanged" exactly when the map changed. */
  lemma ChangesSeeEveryDifference(
    before: seq<Claim>, m: map<string, Claim>, ds: seq<Desired>, owner: Session, timestamp: string)
    requires OnePerResource(before) && Keyed(m)
    requires FromCurrent(m, ByResource(before), ds, owner, timestamp)
    ensures (exists c :: c in BuildChanges(before, SortedValues(m)) && c.kind != Unchanged) <==> m != ByResource(before)
  {
    if k :| Differs(m, ByResource(before), k) {
      var c := DifferenceIsReported(before, m, ds, owner, timestamp, k);
    } else {
      SameAtEveryKey(m, ByResource(before));
    }
    if c :| c in BuildChanges(before, SortedValues(m)) && c.kind != Unchanged {
      ReportedIsDifference(before, m, c);
    }
  }

  /** A map with the claims of a list is the list's index. */
  lemma SameElementsSameIndex(own: seq<Claim>, m: map<string, Claim>)
    requires OnePerResource(own) && Keyed(m)
    requires forall c :: c in own <==> c in m.Values
    ensures m == ByResource(own)
  {
    ByResourceUnique(own);
    var index := ByResource(own);
    forall k ensures k in m <==> k in index {
      if k in m { assert m[k] in own; }
      if k in index { assert index[k] in m.Values; }
    }
    forall k | k in m ensures m[k] == index[k] {
      assert m[k] in own;
    }
  }

  lemma MultisetCancel<T>(a: multiset<T>, b: multiset<T>, c: multiset<T>)
    ensures a + b == a + c <==> b == c
  {
    if a + b == a + c {
      forall x ensures b[x] == c[x] {
        assert (a + b)[x] == (a + c)[x];
      }
    }
  }

  lemma SameMapSameValues(claims: seq<Claim>, sessionId: string, m: map<string, Claim>)
    requires Coordinated(claims) && Keyed(m)
    ensures m == ByResource(Own(claims, sessionId)) <==> multiset(m.Values) == multiset(Own(claims, sessionId))
  {
    var own := Own(claims, sessionId);
    CurrentValues(claims, sessionId);
    if multiset(m.Values) == multiset(own) {
      forall c ensures c in own <==> c in m.Values {
        assert c in own <==> c in multiset(own);
        assert c in m.Values <==> c in multiset(m.Values);
      }
      OneClaimPerResource(claims, sessionId);
      SameElementsSameIndex(own, m);
    }
  }

  lemma SameMapSameClaims(claims: seq<Claim>, sessionId: string, m: map<string, Claim>)
    requires Coordinated(claims) && Keyed(m)
    ensures m == ByResource(Own(claims, sessionId))
       <==> multiset(SortClaims(External(claims, sessionId) + SortedValues(m))) == multiset(claims)
  {
    var own, external, next := Own(claims, sessionId), External(claims, sessionId), SortedValues(m);
    OwnAndExternal(claims, sessionId);
    Sorting.SortSorts(external + next, ClaimSortKey);
    SortedValuesElements(m);
    SameMapSameValues(claims, sessionId, m);
    MultisetCancel(multiset(external), multiset(next), multiset(own));
  }

  /** A plan raises the generation by exactly one if and only if it changes the claim set. */
  lemma GenerationCountsChanges(s: Snapshot, r: Request, facts: FactSource)
    requires Coordinated(s.claims) && PlanTransaction(s, r, facts).Ok?
    ensures var p := PlanTransaction(s, r, facts).value;
      && p.claimSetGeneration
        == (if multiset(p.claims) == multiset(s.claims) then s.claimSetGeneration else s.claimSetGeneration + 1)
      && (p.idempotent <==> multiset(p.claims) == multiset(s.claims))
      && p.previousClaimSetGeneration == s.claimSetGeneration
  {
    var owner, request, m := Stages(s, r, facts);
    NextClaimsAreOwn(s.claims, r, owner, request, m);
    var before := Own(s.claims, r.sessionId);
    OneClaimPerResource(s.claims, r.sessionId);
    NextClaimsOrigin(ByResource(before), request, owner, r.timestamp);
    ChangesSeeEveryDifference(before, m, DesiredOf(request), owner, r.timestamp);
    SameMapSameClaims(s.claims, r.sessionId, m);
  }

  /** On a sorted snapshot an idempotent plan returns the very same list. */
  lemma IdempotentPlanKeepsTheList(s: Snapshot, r: Request, facts: FactSource)
    requires Coordinated(s.claims) && Sorting.Sorted(s.claims, ClaimSortKey) && PlanTransaction(s, r, facts).Ok?
    ensures PlanTransaction(s, r, facts).value.idempotent <==> PlanTransaction(s, r, facts).value.claims == s.claims
    ensures Sorting.Sorted(PlanTransaction(s, r, facts).value.claims, ClaimSortKey)
  {
    var p := PlanTransaction(s, r, facts).value;
    var owner, request, m := Stages(s, r, facts);
    Sorting.SortSorts(External(s.claims, r.sessionId) + SortedValues(m), ClaimSortKey);
    GenerationCountsChanges(s, r, facts);
    if p.idempotent {
      KeysTellApart(s.claims);
      Sorting.SortedIsUnique(s.claims, p.claims, ClaimSortKey);
    }
  }
}
