/** What a transaction does, in terms of the request, the sessions and the claims as they are given:
    when it is accepted, what it is refused for, and what the session holds afterwards. */
module RequestOutcomes {
  import opened AuthorizationMeaning
  import opened ClaimSets
  import opened CoordinationTransactions
  import opened Generations
  import opened Replays
  import opened RequestMeaning
  import opened ResourceClaims
  import opened Resources
  import opened Wrappers
  import Sorting

  // ----- What the session holds afterwards

  function SaidBy(c: Claim): Desired {
    Desired(c.resource, c.mode, c.sharing)
  }

  ghost predicate Names(r: Request, resource: string) {
    exists d: Desired :: d.resource == resource && Asks(r, d)
  }

  /** The session held a claim that says this before. */
  ghost predicate Had(s: Snapshot, r: Request, d: Desired) {
    exists e :: e in s.claims && e.sessionId == r.sessionId && SaidBy(e) == d
  }

  /** A claim made for the session by this request. */
  predicate MadeFor(owner: Session, r: Request, c: Claim) {
    c == Claim(CanonicalClaimId(r.sessionId, c.resource, c.mode, c.sharing), r.sessionId, owner.repositoryId,
               owner.worktreePath, c.resource, c.mode, c.sharing, r.timestamp, r.timestamp)
  }

  /** Acquiring keeps every claim, replacing only those asked for again; otherwise a claim goes if its resource
      is given up, or is asked for differently. */
  ghost predicate Stays(r: Request, c: Claim) {
    match r.kind
    case Acquire => true
    case Replace => Asks(r, SaidBy(c))
    case _ => !GivesUp(r, c.resource) && (Names(r, c.resource) ==> Asks(r, SaidBy(c)))
  }

  ghost predicate Kept(s: Snapshot, r: Request, c: Claim) {
    c in s.claims && c.sessionId == r.sessionId && Stays(r, c)
  }

  ghost predicate New(s: Snapshot, r: Request, owner: Session, c: Claim) {
    Asks(r, SaidBy(c)) && !Had(s, r, SaidBy(c)) && MadeFor(owner, r, c)
  }

  /** What the session is to hold: the claims that stay, and one for whatever is asked for and was not there. */
  ghost predicate Holds(s: Snapshot, r: Request, owner: Session, c: Claim) {
    Kept(s, r, c) || New(s, r, owner, c)
  }

  // ----- The next claims, by resource

  ghost predicate StaysIn(n: Normalized, c: Claim) {
    match n
    case AcquireAll(_) => true
    case ReplaceBy(ds) => SaidBy(c) in ds
    case ReleaseAll(released) => c.resource !in released
    case ApplyDeltas(ds) => c.resource !in Drops(ds) && (Wants(Upserts(ds), c.resource) ==> SaidBy(c) in Upserts(ds))
  }

  ghost predicate NoneSays(current: map<string, Claim>, d: Desired) {
    forall e :: e in current.Values ==> SaidBy(e) != d
  }

  function Made(d: Desired, owner: Session, timestamp: string): Claim {
    CreateClaim(d.resource, d.mode, d.sharing, owner.Owner(), timestamp)
  }

  ghost predicate AddedTo(current: map<string, Claim>, ds: seq<Desired>, owner: Session, timestamp: string, c: Claim) {
    SaidBy(c) in ds && NoneSays(current, SaidBy(c)) && c == Made(SaidBy(c), owner, timestamp)
  }

  lemma SettleMeans(current: map<string, Claim>, d: Desired, owner: Session, timestamp: string)
    requires Keyed(current)
    ensures var c := Settle(current, d, owner, timestamp);
      SaidBy(c) == d && (c in current.Values || (NoneSays(current, d) && c == Made(d, owner, timestamp)))
  {
    if !(d.resource in current && EquivalentInput(current[d.resource], d)) {
      forall e | e in current.Values ensures SaidBy(e) != d {
        assert current[e.resource] == e;
      }
    }
  }

  lemma SettledMeans(current: map<string, Claim>, ds: seq<Desired>, owner: Session, timestamp: string, c: Claim)
    requires Keyed(current) && OneDesiredPerResource(ds)
    ensures c in Settled(current, ds, owner, timestamp).Values <==>
      (c in current.Values && SaidBy(c) in ds) || AddedTo(current, ds, owner, timestamp, c)
  {
    var m := Settled(current, ds, owner, timestamp);
    if c in m.Values {
      var k :| k in m && m[k] == c;
      SettleMeans(current, WantedOn(ds, k), owner, timestamp);
    }
    var d := SaidBy(c);
    if d in ds && (c in current.Values || AddedTo(current, ds, owner, timestamp, c)) {
      assert Wants(ds, d.resource) && WantedOn(ds, d.resource) == d;
      SettleMeans(current, d, owner, timestamp);
      if c in current.Values { assert current[c.resource] == c; }
      assert m[d.resource] == c;
    }
  }

  /** The session's next claims: those of before that stay, and those added. */
  ghost predicate IsNext(current: map<string, Claim>, n: Normalized, owner: Session, timestamp: string, c: Claim) {
    (c in current.Values && StaysIn(n, c)) || AddedTo(current, DesiredOf(n), owner, timestamp, c)
  }

  lemma AcquiredMeans(current: map<string, Claim>, ds: seq<Desired>, owner: Session, timestamp: string, c: Claim)
    requires Keyed(current) && OneDesiredPerResource(ds)
    requires forall d :: d in ds ==> !Contradicts(current, d)
    ensures c in (current + Settled(current, ds, owner, timestamp)).Values <==>
      IsNext(current, AcquireAll(ds), owner, timestamp, c)
  {
    var m := Settled(current, ds, owner, timestamp);
    SettledMeans(current, ds, owner, timestamp, c);
    if c in (current + m).Values {
      var k :| k in current + m && (current + m)[k] == c;
      if k in m { assert c in m.Values; }
    }
    if c in current.Values {
      assert current[c.resource] == c;
      if c.resource in m {
        SettleMeans(current, WantedOn(ds, c.resource), owner, timestamp);
        assert m[c.resource] == c;
      }
      assert (current + m)[c.resource] == c;
    } else if c in m.Values {
      var k :| k in m && m[k] == c;
      assert (current + m)[k] == c;
    }
  }

  lemma ReleasedMeans(current: map<string, Claim>, released: set<string>, c: Claim)
    requires Keyed(current)
    ensures c in (current - released).Values <==> c in current.Values && c.resource !in released
  {
    if c in current.Values && c.resource !in released {
      assert (current - released)[c.resource] == c;
    }
  }

  lemma DeltasMean(current: map<string, Claim>, ds: seq<NormalDelta>, owner: Session, timestamp: string, c: Claim)
    requires Keyed(current) && OneDeltaPerResource(ds)
    ensures c in ((current - Drops(ds)) + Settled(current, Upserts(ds), owner, timestamp)).Values <==>
      IsNext(current, ApplyDeltas(ds), owner, timestamp, c)
  {
    var us := Upserts(ds);
    UpsertsAndDropsAreApart(ds);
    var rest, settled := current - Drops(ds), Settled(current, us, owner, timestamp);
    SettledMeans(current, us, owner, timestamp, c);
    ReleasedMeans(current, Drops(ds), c);
    if c in (rest + settled).Values {
      var k :| k in rest + settled && (rest + settled)[k] == c;
      if k in settled { assert c in settled.Values; } else { assert c in rest.Values && !Wants(us, c.resource); }
    }
    if c in settled.Values {
      var k :| k in settled && settled[k] == c;
      assert (rest + settled)[k] == c;
    } else if c in rest.Values && !Wants(us, c.resource) {
      assert (rest + settled)[c.resource] == c;
    }
  }

  lemma NextMeans(current: map<string, Claim>, n: Normalized, owner: Session, timestamp: string, c: Claim)
    requires Keyed(current) && Unambiguous(n) && NextClaims(current, n, owner, timestamp).Ok?
    ensures c in NextClaims(current, n, owner, timestamp).value.Values <==> IsNext(current, n, owner, timestamp, c)
  {
    match n
    case AcquireAll(ds) => AcquiredMeans(current, ds, owner, timestamp, c);
    case ReplaceBy(ds) => SettledMeans(current, ds, owner, timestamp, c);
    case ReleaseAll(released) => ReleasedMeans(current, released, c);
    case ApplyDeltas(ds) => DeltasMean(current, ds, owner, timestamp, c);
  }

  lemma NamesMeans(n: Normalized, r: Request, resource: string)
    requires SaysTheSame(n, r)
    ensures Wants(DesiredOf(n), resource) <==> Names(r, resource)
  {
    if Wants(DesiredOf(n), resource) { assert Asks(r, WantedOn(DesiredOf(n), resource)); }
  }

  /** The map holds the session's claims as they are given. */
  ghost predicate CurrentOf(current: map<string, Claim>, s: Snapshot, r: Request) {
    Keyed(current) && forall c :: c in current.Values <==> c in s.claims && c.sessionId == r.sessionId
  }

  lemma CurrentClaims(s: Snapshot, r: Request)
    requires Coordinated(s.claims)
    ensures CurrentOf(ByResource(Own(s.claims, r.sessionId)), s, r)
  {
    OneClaimPerResource(s.claims, r.sessionId);
    ByResourceUnique(Own(s.claims, r.sessionId));
  }

  /** The next claims are the ones the session is to hold. */
  lemma NextIsHeld(current: map<string, Claim>, s: Snapshot, r: Request, owner: Session, n: Normalized, c: Claim)
    requires CurrentOf(current, s, r) && owner.sessionId == r.sessionId && SaysTheSame(n, r)
    ensures IsNext(current, n, owner, r.timestamp, c) <==> Holds(s, r, owner, c)
  {
    NamesMeans(n, r, c.resource);
    assert NoneSays(current, SaidBy(c)) <==> !Had(s, r, SaidBy(c));
    assert StaysIn(n, c) <==> Stays(r, c);
  }

  // ----- Which answer meets which offence

  predicate OtherSession(r: Request, e: Claim) {
    e.sessionId != r.sessionId
  }

  /** A resource is asked for in another way than it is held. */
  ghost predicate AsksOtherwise(s: Snapshot, r: Request) {
    exists d, e :: Asks(r, d) && e in s.claims && e.sessionId == r.sessionId && HeldOtherwise(e, d)
  }

  predicate HeldOtherwise(e: Claim, d: Desired) {
    e.resource == d.resource && SaidBy(e) != d
  }

  ghost predicate OverlapsItself(s: Snapshot, r: Request, owner: Session) {
    exists c, d :: Holds(s, r, owner, c) && Holds(s, r, owner, d) && c != d && ClaimsMeet(c, d)
  }

  ghost predicate ConflictsWithOthers(s: Snapshot, r: Request, owner: Session, facts: FactSource) {
    exists c, e :: Holds(s, r, owner, c) && e in s.claims && OtherSession(r, e) && Conflicts(c, e, facts(c, e))
  }

  ghost predicate HoldsForeign(s: Snapshot, r: Request, owner: Session) {
    exists c :: Holds(s, r, owner, c) && c.repositoryId != s.repositoryId
  }

  /** The later claim still grants what the earlier one did: a stronger mode, or a write of the same group. */
  predicate StillGrants(before: Claim, after: Claim) {
    match before.mode
    case Read => true
    case Write => after.mode == ExclusiveWrite || (after.mode == Write && GroupOf(before) == GroupOf(after))
    case ExclusiveWrite => after.mode == ExclusiveWrite
  }

  ghost predicate GrantedOn(s: Snapshot, r: Request, owner: Session, before: Claim) {
    exists after :: Holds(s, r, owner, after) && after.resource == before.resource && StillGrants(before, after)
  }

  /** A managed execution of the session that has not stopped, and that names no resource or one that the claim
      selects. */
  ghost predicate MayTouch(x: Execution, c: Claim) {
    x.sessionId == c.sessionId && x.managed && x.state != Stopped
    && (x.resources == None || x.resources.value == [] || SelectsOne(c.resource, x.resources.value))
  }

  ghost predicate SelectsOne(resource: string, resources: seq<string>) {
    exists k :: SelectsAt(resource, resources, k)
  }

  ghost predicate SelectsAt(resource: string, resources: seq<string>, k: int) {
    0 <= k < |resources| && Selects(resource, resources[k])
  }

  lemma {:induction false} SelectingAnyIsSelectingOne(resource: string, resources: seq<string>)
    ensures SelectsAny(resource, resources) ==> SelectsOne(resource, resources)
  {
    if resources != [] && SelectsAny(resource, resources) {
      var before := resources[..|resources| - 1];
      if SelectsAny(resource, before) {
        SelectingAnyIsSelectingOne(resource, before);
        var k :| SelectsAt(resource, before, k);
        assert SelectsAt(resource, resources, k);
      } else {
        assert SelectsAt(resource, resources, |resources| - 1);
      }
    }
  }

  lemma {:induction false} SelectingOneIsSelectingAny(resource: string, resources: seq<string>, k: int)
    requires SelectsAt(resource, resources, k)
    ensures SelectsAny(resource, resources)
  {
    if k < |resources| - 1 {
      SelectingOneIsSelectingAny(resource, resources[..|resources| - 1], k);
    }
  }

  lemma BusyIsTouching(x: Execution, c: Claim)
    ensures Busy(x, c) <==> MayTouch(x, c)
  {
    if x.resources.Some? {
      SelectingAnyIsSelectingOne(c.resource, x.resources.value);
      if k :| SelectsAt(c.resource, x.resources.value, k) {
        SelectingOneIsSelectingAny(c.resource, x.resources.value, k);
      }
    }
  }

  /** A claim that a managed execution may be touching is to lose authority. */
  ghost predicate TakenFromUnder(s: Snapshot, r: Request, owner: Session) {
    exists c, x :: c in s.claims && c.sessionId == r.sessionId && x in r.executions && MayTouch(x, c)
      && !GrantedOn(s, r, owner, c)
  }

  /** The offences of the claims that the session is to hold, the first one first. */
  ghost function OutcomeOffence(s: Snapshot, r: Request, owner: Session, facts: FactSource): Option<ErrorCode> {
    if r.kind == Acquire && AsksOtherwise(s, r) then Some(ContradictoryClaim)
    else if OverlapsItself(s, r, owner) then Some(ContradictoryClaim)
    else if ConflictsWithOthers(s, r, owner, facts) then Some(ResourceClaimConflict)
    else if HoldsForeign(s, r, owner) then Some(RepositoryMismatch)
    else if TakenFromUnder(s, r, owner) then Some(OperationRejected)
    else None
  }

  /** The offences of the owner and of the concurrency intent. */
  function OwnerOffence(s: Snapshot, r: Request, owner: Session): Option<ErrorCode> {
    if owner.state != "active" then Some(SessionNotActive)
    else if Disagrees(r.repositoryId, s.repositoryId) || owner.repositoryId != s.repositoryId then
      Some(RepositoryMismatch)
    else if r.kind != Acquire && r.expected == None && !r.force then Some(InvalidOperation)
    else if r.expected.Some? && !(0 <= r.expected.value <= MAX_SAFE_INTEGER) then Some(InvalidOperation)
    else if r.expected.Some? && r.expected.value != s.claimSetGeneration then Some(StaleClaimSet)
    else None
  }

  /** Every offence of a request of this owner, the first one first. */
  ghost function OffenceOf(s: Snapshot, r: Request, owner: Session, facts: FactSource): Option<ErrorCode> {
    if OwnerOffence(s, r, owner).Some? then OwnerOffence(s, r, owner)
    else if RequestOffence(r, owner).Some? then RequestOffence(r, owner)
    else OutcomeOffence(s, r, owner, facts)
  }

  /** The owner is the first record with the identifier. */
  ghost predicate IsOwner(s: Snapshot, r: Request, owner: Session) {
    exists k :: ListedAt(s.sessions, r.sessionId, k) && s.sessions[k] == owner
  }

  predicate Unusable(s: Snapshot, r: Request) {
    !Believable(s) || r.sessionId == "" || (r.force && r.expected.Some?)
  }

  ghost predicate Answers(result: Result<Plan, ErrorCode>, offence: Option<ErrorCode>) {
    if offence == None then result.Ok? else result == Err(offence.value)
  }

  // ----- The stages, one by one

  lemma OwnerIsAnswered(s: Snapshot, r: Request, owner: Session)
    requires !Unusable(s, r) && IsOwner(s, r, owner)
    ensures AssertSnapshot(s) == AssertRequest(r) == None && owner.sessionId == r.sessionId
    ensures match OwnerOffence(s, r, owner)
      case Some(e) => SelectOwner(s, r) == Err(e)
        || (SelectOwner(s, r) == Ok(owner) && AssertConcurrency(s.claimSetGeneration, r) == Some(e))
      case None => SelectOwner(s, r) == Ok(owner) && AssertConcurrency(s.claimSetGeneration, r) == None
  {
    FoundIsListed(s.sessions, r.sessionId);
    var k :| ListedAt(s.sessions, r.sessionId, k) && s.sessions[k] == owner;
    forall j | ListedAt(s.sessions, r.sessionId, j) ensures j == k {
      ListedOnce(s.sessions, r.sessionId, j, k);
    }
  }

  /** The map holds exactly what the session is to hold. */
  ghost predicate MapOf(m: map<string, Claim>, s: Snapshot, r: Request, owner: Session) {
    Keyed(m) && (forall c :: c in m.Values <==> Holds(s, r, owner, c))
  }

  lemma NextIsTheMap(s: Snapshot, r: Request, owner: Session, n: Normalized, m: map<string, Claim>)
    requires Coordinated(s.claims) && owner.sessionId == r.sessionId && NormalizeRequest(owner, r) == Ok(n)
    requires NextClaims(ByResource(Own(s.claims, r.sessionId)), n, owner, r.timestamp) == Ok(m)
    ensures MapOf(m, s, r, owner)
  {
    var current := ByResource(Own(s.claims, r.sessionId));
    RequestsAreRead(r, owner);
    NormalizedIsUnambiguous(owner, r);
    NextClaimsAreOwn(s.claims, r, owner, n, m);
    CurrentClaims(s, r);
    forall c ensures c in m.Values <==> Holds(s, r, owner, c) {
      NextMeans(current, n, owner, r.timestamp, c);
      NextIsHeld(current, s, r, owner, n, c);
    }
  }

  lemma ContradictionIsSeen(current: map<string, Claim>, s: Snapshot, r: Request, n: Normalized)
    requires CurrentOf(current, s, r) && SaysTheSame(n, r)
    ensures (exists d :: d in DesiredOf(n) && Contradicts(current, d)) <==> AsksOtherwise(s, r)
  {
    if d :| d in DesiredOf(n) && Contradicts(current, d) {
      assert current[d.resource] in current.Values && Asks(r, d) && HeldOtherwise(current[d.resource], d);
    }
    if d, e :| Asks(r, d) && e in s.claims && e.sessionId == r.sessionId && HeldOtherwise(e, d) {
      assert e in current.Values && current[e.resource] == e;
      assert d in DesiredOf(n) && Contradicts(current, d);
    }
  }

  lemma NextIsAnswered(s: Snapshot, r: Request, owner: Session, n: Normalized)
    requires Coordinated(s.claims) && SaysTheSame(n, r)
    ensures var next := NextClaims(ByResource(Own(s.claims, r.sessionId)), n, owner, r.timestamp);
      if r.kind == Acquire && AsksOtherwise(s, r) then next == Err(ContradictoryClaim) else next.Ok?
  {
    CurrentClaims(s, r);
    ContradictionIsSeen(ByResource(Own(s.claims, r.sessionId)), s, r, n);
  }

  lemma IndicesDiffer<T>(list: seq<T>, i: nat, j: nat)
    requires i < j < |list| && forall x :: multiset(list)[x] <= 1
    ensures list[i] != list[j]
  {
    var before, after := multiset(list[..j]), multiset(list[j + 1..]);
    assert list == list[..j] + [list[j]] + list[j + 1..];
    assert list[..j][i] in before;
    assert multiset(list)[list[j]] == before[list[j]] + 1 + after[list[j]];
  }

  lemma SeenIsOverlap(m: map<string, Claim>, s: Snapshot, r: Request, owner: Session)
    requires MapOf(m, s, r, owner) && SelfOverlaps(SortedValues(m))
    ensures OverlapsItself(s, r, owner)
  {
    var next := SortedValues(m);
    SortedValuesElements(m);
    var i, j :| 0 <= j < i < |next| && ClaimsMeet(next[i], next[j]);
    assert next[i] in next && next[j] in next;
    IndicesDiffer(next, j, i);
  }

  lemma OverlapIsSeen(m: map<string, Claim>, s: Snapshot, r: Request, owner: Session)
    requires MapOf(m, s, r, owner) && OverlapsItself(s, r, owner)
    ensures SelfOverlaps(SortedValues(m))
  {
    var next := SortedValues(m);
    SortedValuesElements(m);
    var c, d :| Holds(s, r, owner, c) && Holds(s, r, owner, d) && c != d && ClaimsMeet(c, d);
    assert c in m.Values && d in m.Values;
    var i :| 0 <= i < |next| && next[i] == c;
    var j :| 0 <= j < |next| && next[j] == d;
    OverlapIsSymmetric(c.resource, d.resource);
    assert i < j || j < i;
  }

  lemma SetIsAnswered(m: map<string, Claim>, s: Snapshot, r: Request, owner: Session, facts: FactSource)
    requires MapOf(m, s, r, owner)
    ensures AssertCompleteClaimSet(SortedValues(m), External(s.claims, r.sessionId), s.repositoryId, facts) ==
      if OverlapsItself(s, r, owner) then Some(ContradictoryClaim)
      else if ConflictsWithOthers(s, r, owner, facts) then Some(ResourceClaimConflict)
      else if HoldsForeign(s, r, owner) then Some(RepositoryMismatch)
      else None
  {
    var next, external := SortedValues(m), External(s.claims, r.sessionId);
    SortedValuesElements(m);
    if SelfOverlaps(next) { SeenIsOverlap(m, s, r, owner); }
    if OverlapsItself(s, r, owner) { OverlapIsSeen(m, s, r, owner); }
    assert forall e :: e in external <==> e in s.claims && OtherSession(r, e);
    assert ConflictsWithAny(next, external, facts) <==> ConflictsWithOthers(s, r, owner, facts);
  }

  lemma ShrinkingIsSeen(m: map<string, Claim>, s: Snapshot, r: Request, owner: Session, c: Claim)
    requires MapOf(m, s, r, owner)
    ensures Shrinks(c, At(m, c.resource)) <==> !GrantedOn(s, r, owner, c)
  {
    if c.resource in m {
      var after := m[c.resource];
      assert after in m.Values;
      assert Shrinks(c, Some(after)) <==> !StillGrants(c, after);
    }
    if after :| Holds(s, r, owner, after) && after.resource == c.resource && StillGrants(c, after) {
      assert after in m.Values;
      var k :| k in m && m[k] == after;
    }
  }

  lemma DrainIsAnswered(m: map<string, Claim>, s: Snapshot, r: Request, owner: Session)
    requires MapOf(m, s, r, owner)
    ensures AssertExecutionDrain(Own(s.claims, r.sessionId), SortedValues(m), r.executions) ==
      if TakenFromUnder(s, r, owner) then Some(OperationRejected) else None
  {
    var own := Own(s.claims, r.sessionId);
    IndexingSortedValues(m);
    forall c: Claim ensures Shrinks(c, At(m, c.resource)) <==> !GrantedOn(s, r, owner, c) {
      ShrinkingIsSeen(m, s, r, owner, c);
    }
    forall c, x ensures Busy(x, c) <==> MayTouch(x, c) {
      BusyIsTouching(x, c);
    }
  }

  // ----- The plan, stage by stage

  lemma StopsAtTheOwner(s: Snapshot, r: Request, facts: FactSource, e: ErrorCode)
    requires AssertSnapshot(s) == AssertRequest(r) == None
    requires SelectOwner(s, r) == Err(e)
      || (SelectOwner(s, r).Ok? && AssertConcurrency(s.claimSetGeneration, r) == Some(e))
    ensures PlanTransaction(s, r, facts) == Err(e)
  {
  }

  ghost predicate OwnerIsFine(s: Snapshot, r: Request, owner: Session) {
    AssertSnapshot(s) == AssertRequest(r) == AssertConcurrency(s.claimSetGeneration, r) == None
    && SelectOwner(s, r) == Ok(owner) && owner.sessionId == r.sessionId
  }

  lemma StopsAtTheRequest(s: Snapshot, r: Request, facts: FactSource, owner: Session)
    requires OwnerIsFine(s, r, owner) && NormalizeRequest(owner, r).Err?
    ensures PlanTransaction(s, r, facts) == Err(NormalizeRequest(owner, r).error)
  {
  }

  lemma StopsAtTheNextClaims(s: Snapshot, r: Request, facts: FactSource, owner: Session, n: Normalized, e: ErrorCode)
    requires OwnerIsFine(s, r, owner) && NormalizeRequest(owner, r) == Ok(n)
    requires NextClaims(ByResource(Own(s.claims, r.sessionId)), n, owner, r.timestamp) == Err(e)
    ensures PlanTransaction(s, r, facts) == Err(e)
  {
  }

  ghost predicate IsNextMap(s: Snapshot, r: Request, owner: Session, n: Normalized, m: map<string, Claim>) {
    NormalizeRequest(owner, r) == Ok(n)
    && NextClaims(ByResource(Own(s.claims, r.sessionId)), n, owner, r.timestamp) == Ok(m)
  }

  lemma StopsAtTheChecks(s: Snapshot, r: Request, facts: FactSource, owner: Session, n: Normalized,
      m: map<string, Claim>, e: ErrorCode)
    requires OwnerIsFine(s, r, owner) && IsNextMap(s, r, owner, n, m)
    requires var external := External(s.claims, r.sessionId);
      var stop := AssertCompleteClaimSet(SortedValues(m), external, s.repositoryId, facts);
      stop == Some(e)
      || (stop == None && AssertExecutionDrain(Own(s.claims, r.sessionId), SortedValues(m), r.executions) == Some(e))
    ensures PlanTransaction(s, r, facts) == Err(e)
  {
  }

  lemma MapIsAnswered(s: Snapshot, r: Request, facts: FactSource, owner: Session, n: Normalized, m: map<string, Claim>)
    requires Coordinated(s.claims) && OwnerIsFine(s, r, owner) && IsNextMap(s, r, owner, n, m)
    requires !(r.kind == Acquire && AsksOtherwise(s, r))
    ensures Answers(PlanTransaction(s, r, facts), OutcomeOffence(s, r, owner, facts))
  {
    NextIsTheMap(s, r, owner, n, m);
    SetIsAnswered(m, s, r, owner, facts);
    DrainIsAnswered(m, s, r, owner);
    if OutcomeOffence(s, r, owner, facts).Some? {
      StopsAtTheChecks(s, r, facts, owner, n, m, OutcomeOffence(s, r, owner, facts).value);
    } else {
      PlanFromStages(s, r, facts, owner, n, m);
    }
  }

  lemma RequestIsAnswered(s: Snapshot, r: Request, facts: FactSource, owner: Session)
    requires Coordinated(s.claims) && OwnerIsFine(s, r, owner)
    ensures Answers(PlanTransaction(s, r, facts),
      if RequestOffence(r, owner).Some? then RequestOffence(r, owner) else OutcomeOffence(s, r, owner, facts))
  {
    RequestsAreRead(r, owner);
    if RequestOffence(r, owner).Some? {
      StopsAtTheRequest(s, r, facts, owner);
    } else {
      var n := NormalizeRequest(owner, r).value;
      NextIsAnswered(s, r, owner, n);
      var next := NextClaims(ByResource(Own(s.claims, r.sessionId)), n, owner, r.timestamp);
      if next.Err? {
        StopsAtTheNextClaims(s, r, facts, owner, n, next.error);
      } else {
        MapIsAnswered(s, r, facts, owner, n, next.value);
      }
    }
  }

  /** Who asks is who is listed: nobody, or an owner whose request is accepted if and only if it meets no
      offence, and otherwise refused for its first. */
  lemma PlansAreAnswered(s: Snapshot, r: Request, facts: FactSource, owner: Session)
    requires Coordinated(s.claims) && !Unusable(s, r) && IsOwner(s, r, owner)
    ensures Answers(PlanTransaction(s, r, facts), OffenceOf(s, r, owner, facts))
  {
    OwnerIsAnswered(s, r, owner);
    if OwnerOffence(s, r, owner).Some? {
      StopsAtTheOwner(s, r, facts, OwnerOffence(s, r, owner).value);
    } else {
      RequestIsAnswered(s, r, facts, owner);
    }
  }

  /** A snapshot or a request that cannot be used is refused, and so is a session that is not listed. */
  lemma NobodyIsAnswered(s: Snapshot, r: Request, facts: FactSource)
    ensures Unusable(s, r) ==> PlanTransaction(s, r, facts) == Err(InvalidOperation)
    ensures !Unusable(s, r) && Unlisted(s.sessions, r.sessionId) ==>
      PlanTransaction(s, r, facts) == Err(SessionNotFound)
    ensures !Unlisted(s.sessions, r.sessionId) <==> exists owner :: IsOwner(s, r, owner)
  {
    FoundIsListed(s.sessions, r.sessionId);
    if FindSession(s.sessions, r.sessionId).Some? {
      assert IsOwner(s, r, FindSession(s.sessions, r.sessionId).value);
    }
  }

  // ----- What an accepted plan leaves

  /** The plan leaves the session exactly the claims it is to hold and every other claim as it was; its lists are
      in order and it carries the snapshot's sessions. */
  ghost predicate Leaves(p: Plan, s: Snapshot, r: Request, owner: Session) {
    && (forall c :: c in p.claims <==> Holds(s, r, owner, c) || (c in s.claims && OtherSession(r, c)))
    && (forall c :: c in p.sessionClaims <==> Holds(s, r, owner, c))
    && NoDuplicates(p.sessionClaims)
    && Sorting.Sorted(p.claims, ClaimSortKey) && Sorting.Sorted(p.sessionClaims, ClaimSortKey)
    && p.repositoryId == s.repositoryId && p.sessions == s.sessions && p.sessionId == r.sessionId
    && p.previousClaimSetGeneration == s.claimSetGeneration
  }

  lemma MapIsLeft(s: Snapshot, r: Request, owner: Session, m: map<string, Claim>)
    requires MapOf(m, s, r, owner) && owner.sessionId == r.sessionId
    ensures Leaves(Assemble(s, owner, SortedValues(m)), s, r, owner)
  {
    var next, external := SortedValues(m), External(s.claims, r.sessionId);
    SortedValuesElements(m);
    Sorting.SortSorts(Enumerate(m.Values), ClaimSortKey);
    Sorting.SortSorts(external + next, ClaimSortKey);
    Sorting.SortKeepsElements(external + next, ClaimSortKey);
    forall c ensures multiset(next)[c] <= 1 {
      assert multiset(m.Values)[c] <= 1;
    }
  }

  /** Whoever is accepted is the listed owner and gets exactly what the request says. */
  lemma AcceptedIsLeft(s: Snapshot, r: Request, facts: FactSource) returns (owner: Session)
    requires Coordinated(s.claims) && PlanTransaction(s, r, facts).Ok?
    ensures !Unusable(s, r) && IsOwner(s, r, owner) && OffenceOf(s, r, owner, facts) == None
    ensures Leaves(PlanTransaction(s, r, facts).value, s, r, owner)
  {
    NobodyIsAnswered(s, r, facts);
    owner :| IsOwner(s, r, owner);
    PlansAreAnswered(s, r, facts, owner);
    var o, n, m := Stages(s, r, facts);
    OwnerIsAnswered(s, r, owner);
    NextIsTheMap(s, r, owner, n, m);
    MapIsLeft(s, r, owner, m);
  }

  lemma GrantedInTheMap(current: map<string, Claim>, n: Normalized, owner: Session, timestamp: string, d: Desired)
    requires Keyed(current) && Unambiguous(n) && NextClaims(current, n, owner, timestamp).Ok? && d in DesiredOf(n)
    ensures var m := NextClaims(current, n, owner, timestamp).value; d.resource in m && SaidBy(m[d.resource]) == d
  {
    var ds := DesiredOf(n);
    if n.ApplyDeltas? { UpsertsAndDropsAreApart(n.deltas); }
    assert Wants(ds, d.resource) && WantedOn(ds, d.resource) == d;
    SettleMeans(current, d, owner, timestamp);
    assert Settled(current, ds, owner, timestamp)[d.resource] == Settle(current, d, owner, timestamp);
  }

  /** The one claim of a list on the resource says this. */
  ghost predicate StandsAlone(claims: seq<Claim>, d: Desired, c: Claim) {
    c in claims && SaidBy(c) == d && forall e :: e in claims && e.resource == d.resource ==> e == c
  }

  /** What is asked for is there afterwards, once: a claim in that mode, shared like that, and no other claim of
      the session on that resource. */
  lemma WhatIsAskedIsGranted(s: Snapshot, r: Request, facts: FactSource, d: Desired)
    requires Coordinated(s.claims) && PlanTransaction(s, r, facts).Ok? && Asks(r, d)
    ensures exists c ::
      StandsAlone(PlanTransaction(s, r, facts).value.sessionClaims, d, c) && c.sessionId == r.sessionId
  {
    var owner, n, m := Stages(s, r, facts);
    RequestsAreRead(r, owner);
    NormalizedIsUnambiguous(owner, r);
    GrantedInTheMap(ByResource(Own(s.claims, r.sessionId)), n, owner, r.timestamp, d);
    NextClaimsAreOwn(s.claims, r, owner, n, m);
    ValuesStandAlone(m, d);
  }

  lemma ValuesStandAlone(m: map<string, Claim>, d: Desired)
    requires Keyed(m) && d.resource in m && SaidBy(m[d.resource]) == d
    ensures StandsAlone(SortedValues(m), d, m[d.resource])
  {
    SortedValuesElements(m);
    forall e | e in SortedValues(m) && e.resource == d.resource ensures e == m[d.resource] {
      assert e in m.Values;
    }
  }

  // ----- The list of changes

  /** The session's claim on the resource in a list, or none. */
  ghost predicate IsClaimOn(claims: seq<Claim>, sessionId: string, resource: string, found: Option<Claim>) {
    if found.Some? then found.value in claims && found.value.sessionId == sessionId && found.value.resource == resource
    else forall c :: c in claims ==> !(c.sessionId == sessionId && c.resource == resource)
  }

  /** A change is called by what stood and stands on its resource. */
  predicate WellNamed(c: Change) {
    && (c.kind == Added <==> c.before == None)
    && (c.kind == Released <==> c.after == None)
    && (c.kind == Unchanged <==> c.before == c.after)
    && (c.kind == Changed <==> c.before.Some? && c.after.Some? && c.before != c.after)
  }

  /** A change says what stood on its resource before and what stands there after. */
  ghost predicate TellsTruth(c: Change, s: Snapshot, p: Plan) {
    && IsClaimOn(s.claims, p.sessionId, c.resource, c.before) && IsClaimOn(p.claims, p.sessionId, c.resource, c.after)
    && (c.before.Some? || c.after.Some?) && WellNamed(c)
  }

  ghost predicate InOrder(changes: seq<Change>) {
    forall i, j :: 0 <= i < j < |changes| ==>
      Sorting.Le(changes[i].resource, changes[j].resource) && changes[i].resource != changes[j].resource
  }

  ghost predicate Mentions(changes: seq<Change>, resource: string) {
    exists i :: 0 <= i < |changes| && changes[i].resource == resource
  }

  lemma ChangesAreInOrder(before: seq<Claim>, after: seq<Claim>)
    ensures InOrder(BuildChanges(before, after))
  {
    var all := Sorting.Unique(ResourcesOf(before) + ResourcesOf(after));
    Sorting.SortSorts(all, (x: string) => x);
    DistinctMeansOnce(all);
    var sorted := TouchedResources(before, after);
    forall i, j | 0 <= i < j < |sorted| ensures sorted[i] != sorted[j] {
      IndicesDiffer(sorted, i, j);
    }
  }

  lemma MentionedIsTouched(before: seq<Claim>, after: seq<Claim>, resource: string)
    ensures Mentions(BuildChanges(before, after), resource) <==>
      resource in ByResource(before) || resource in ByResource(after)
  {
    TouchedAreListed(before, after, resource);
    var touched := TouchedResources(before, after);
    if resource in touched {
      var i :| 0 <= i < |touched| && touched[i] == resource;
      assert BuildChanges(before, after)[i].resource == resource;
    }
  }

  lemma NamesGoByEquality(before: seq<Claim>, after: seq<Claim>, k: string)
    requires var c := ChangeOn(before, after, k);
      && (c.before.Some? || c.after.Some?)
      && (c.before.Some? && c.after.Some? && c.before != c.after ==> !Equivalent(c.before.value, c.after.value))
    ensures WellNamed(ChangeOn(before, after, k))
  {
  }

  /** A claim is replaced only by one that says something else. */
  lemma KindsAreRight(before: seq<Claim>, m: map<string, Claim>, n: Normalized, owner: Session, timestamp: string,
      k: string)
    requires OnePerResource(before) && Keyed(m) && (k in ByResource(before) || k in m)
    requires FromCurrent(m, ByResource(before), DesiredOf(n), owner, timestamp)
    ensures var c := ChangeOn(before, SortedValues(m), k);
      && c.before == At(ByResource(before), k) && c.after == At(m, k) && (c.before.Some? || c.after.Some?)
      && WellNamed(c)
  {
    ChangeCompares(before, m, k);
    if k in m && k in ByResource(before) && m[k] != ByResource(before)[k] {
      ReplacedIsNotEquivalent(ByResource(before), m, DesiredOf(n), owner, timestamp, k);
    }
    NamesGoByEquality(before, SortedValues(m), k);
  }

  lemma ClaimsOnResource(m: map<string, Claim>, claims: seq<Claim>, sessionId: string, resource: string)
    requires Keyed(m) && forall c :: c in m.Values <==> c in claims && c.sessionId == sessionId
    ensures IsClaimOn(claims, sessionId, resource, At(m, resource))
  {
    if resource in m {
      assert m[resource] in m.Values;
    } else {
      forall c | c in claims && c.sessionId == sessionId ensures c.resource != resource {
        assert c in m.Values;
      }
    }
  }

  lemma OwnInPlan(s: Snapshot, r: Request, owner: Session, m: map<string, Claim>)
    requires MapOf(m, s, r, owner) && owner.sessionId == r.sessionId
    ensures forall c :: c in m.Values <==>
      c in Assemble(s, owner, SortedValues(m)).claims && c.sessionId == r.sessionId
  {
    MapIsLeft(s, r, owner, m);
  }

  lemma ChangesOfMap(s: Snapshot, r: Request, owner: Session, n: Normalized, m: map<string, Claim>, c: Change)
    requires Coordinated(s.claims) && owner.sessionId == r.sessionId && IsNextMap(s, r, owner, n, m)
    requires c in Assemble(s, owner, SortedValues(m)).changes
    ensures TellsTruth(c, s, Assemble(s, owner, SortedValues(m)))
  {
    var own := Own(s.claims, r.sessionId);
    OneClaimPerResource(s.claims, r.sessionId);
    NextIsTheMap(s, r, owner, n, m);
    NextClaimsOrigin(ByResource(own), n, owner, r.timestamp);
    IndexingSortedValues(m);
    ListedChange(own, SortedValues(m), c);
    KindsAreRight(own, m, n, owner, r.timestamp, c.resource);
    CurrentClaims(s, r);
    ClaimsOnResource(ByResource(own), s.claims, r.sessionId, c.resource);
    OwnInPlan(s, r, owner, m);
    ClaimsOnResource(m, Assemble(s, owner, SortedValues(m)).claims, r.sessionId, c.resource);
  }

  /** Somewhere in the list the session has a claim on the resource. */
  predicate HasClaimOn(claims: seq<Claim>, sessionId: string, resource: string) {
    exists c :: c in claims && c.sessionId == sessionId && c.resource == resource
  }

  lemma MapHasClaim(m: map<string, Claim>, claims: seq<Claim>, sessionId: string, resource: string)
    requires Keyed(m) && forall c :: c in m.Values <==> c in claims && c.sessionId == sessionId
    ensures resource in m <==> HasClaimOn(claims, sessionId, resource)
  {
    ClaimsOnResource(m, claims, sessionId, resource);
  }

  lemma MentionsOfMap(s: Snapshot, r: Request, owner: Session, n: Normalized, m: map<string, Claim>, resource: string)
    requires Coordinated(s.claims) && owner.sessionId == r.sessionId && IsNextMap(s, r, owner, n, m)
    ensures var p := Assemble(s, owner, SortedValues(m));
      Mentions(p.changes, resource) <==>
        HasClaimOn(s.claims, r.sessionId, resource) || HasClaimOn(p.claims, r.sessionId, resource)
  {
    var p, own := Assemble(s, owner, SortedValues(m)), Own(s.claims, r.sessionId);
    NextIsTheMap(s, r, owner, n, m);
    IndexingSortedValues(m);
    MentionedIsTouched(own, SortedValues(m), resource);
    CurrentClaims(s, r);
    MapHasClaim(ByResource(own), s.claims, r.sessionId, resource);
    OwnInPlan(s, r, owner, m);
    MapHasClaim(m, p.claims, r.sessionId, resource);
  }

  /** The list of changes of a plan names every resource on which the session held or holds a claim, once and in
      order, and tells the truth about each. */
  lemma ChangesTellTheTruth(s: Snapshot, r: Request, facts: FactSource)
    requires Coordinated(s.claims) && PlanTransaction(s, r, facts).Ok?
    ensures var p := PlanTransaction(s, r, facts).value;
      && InOrder(p.changes)
      && (forall c :: c in p.changes ==> TellsTruth(c, s, p))
      && (forall resource :: Mentions(p.changes, resource) <==>
            HasClaimOn(s.claims, r.sessionId, resource) || HasClaimOn(p.claims, r.sessionId, resource))
  {
    var owner, n, m := Stages(s, r, facts);
    var p := Assemble(s, owner, SortedValues(m));
    ChangesAreInOrder(Own(s.claims, r.sessionId), SortedValues(m));
    forall c | c in p.changes ensures TellsTruth(c, s, p) {
      ChangesOfMap(s, r, owner, n, m, c);
    }
    forall resource ensures Mentions(p.changes, resource) <==>
        HasClaimOn(s.claims, r.sessionId, resource) || HasClaimOn(p.claims, r.sessionId, resource) {
      MentionsOfMap(s, r, owner, n, m, resource);
    }
  }
}
