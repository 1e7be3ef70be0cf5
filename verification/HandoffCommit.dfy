/** The commit of a handoff as the registry performs it under its lock. */
module HandoffCommit {
  import opened ClaimSets
  import opened HandoffProtocol
  import opened ResourceClaims
  import opened ResourceHandoff
  import opened Resources
  import opened Wrappers
  import Sorting

  function Without(claims: seq<Claim>, claimId: string): (rest: seq<Claim>)
    ensures forall c :: c in rest <==> c in claims && c.claimId != claimId
  {
    if claims == [] then []
    else (if claims[0].claimId != claimId then [claims[0]] else []) + Without(claims[1..], claimId)
  }

  predicate OwnedOpenly(c: Claim, sessions: seq<HandoffSession>) {
    var owner := FindSession(sessions, c.sessionId);
    owner.Some? && owner.value.repositoryId == c.repositoryId && owner.value.worktreePath == c.worktreePath
    && owner.value.state != "closed"
  }

  /** Two claims of a sorted list that may not stand together. */
  ghost predicate Clashes(c: Claim, d: Claim, facts: FactSource) {
    ClaimsMeet(c, d) && (c.sessionId == d.sessionId || Conflicts(c, d, facts(c, d)))
  }

  /** `validateRegistryClaims`: identifiers differ, owners are known and open, no two claims clash. */
  ghost predicate AcceptableClaims(sessions: seq<HandoffSession>, sorted: seq<Claim>, facts: FactSource) {
    && (forall i, j :: 0 <= j < i < |sorted| ==> sorted[i].claimId != sorted[j].claimId)
    && (forall c :: c in sorted ==> OwnedOpenly(c, sessions))
    && (forall i, j :: 0 <= j < i < |sorted| ==> !Clashes(sorted[i], sorted[j], facts))
  }

  /** The first prior claim, in list order, that clashes with the `i`-th. */
  ghost function ClashWith(sorted: seq<Claim>, i: nat, prior: nat, facts: FactSource): (clash: Option<nat>)
    requires prior <= i < |sorted|
    ensures clash.Some? ==> clash.value < prior && Clashes(sorted[i], sorted[clash.value], facts)
    ensures clash == None ==> forall j :: 0 <= j < prior ==> !Clashes(sorted[i], sorted[j], facts)
  {
    if prior == 0 then None
    else
      var before := ClashWith(sorted, i, prior - 1, facts);
      if before.Some? then before
      else if Clashes(sorted[i], sorted[prior - 1], facts) then Some(prior - 1)
      else None
  }

  /** The code of the first clash: one session overlapping itself, or a conflict between two. */
  ghost function ClashCode(sorted: seq<Claim>, i: nat, facts: FactSource): (code: Option<Code>)
    requires i <= |sorted|
    ensures code == None <==> forall k, j :: 0 <= j < k < i ==> !Clashes(sorted[k], sorted[j], facts)
  {
    if i == 0 then None
    else
      var before := ClashCode(sorted, i - 1, facts);
      if before.Some? then before
      else
        match ClashWith(sorted, i - 1, i - 1, facts)
        case None => None
        case Some(j) => Some(if sorted[i - 1].sessionId == sorted[j].sessionId then Corrupt else Conflict)
  }

  /** What `validateRegistryClaims` throws. */
  ghost function ClaimsError(sessions: seq<HandoffSession>, sorted: seq<Claim>, facts: FactSource): (code: Option<Code>)
    ensures code == None <==> AcceptableClaims(sessions, sorted, facts)
  {
    if exists i, j :: 0 <= j < i < |sorted| && sorted[i].claimId == sorted[j].claimId then Some(Corrupt)
    else if exists c :: c in sorted && !OwnedOpenly(c, sessions) then Some(Corrupt)
    else ClashCode(sorted, |sorted|, facts)
  }

  /** The session is as it was when the client read it. */
  predicate SameSession(snapshot: Registry, g: Registry, sessionId: string) {
    var a, b := FindSession(snapshot.sessions, sessionId), FindSession(g.sessions, sessionId);
    a.Some? && b.Some? && a.value.repositoryId == b.value.repositoryId
    && a.value.worktreePath == b.value.worktreePath && a.value.state == b.value.state
  }

  /** The claim the destination receives: the requested mode, no sharing. */
  function DestinationClaim(g: Registry, n: Normalized, timestamp: string): Claim {
    var owner := FindSession(g.sessions, n.toSessionId);
    CreateClaim(n.resource, n.mode, None,
                if owner.Some? then Owner(n.toSessionId, owner.value.repositoryId, owner.value.worktreePath)
                else Owner(n.toSessionId, g.repositoryId, ""), timestamp)
  }

  function NextClaims(g: Registry, source: Claim, destination: Claim): seq<Claim> {
    SortClaims(Without(g.claims, source.claimId) + [destination])
  }

  function RecordOf(n: Normalized, generation: int): OperationRecord {
    OperationRecord(n.operationId, n.fromSessionId, n.toSessionId, n.resource, n.mode, generation)
  }

  /** The last stage: the next claims are checked, and the transfer is written with its record. */
  ghost function WriteTransfer(g: Registry, n: Normalized, source: Claim, timestamp: string, facts: FactSource)
    : Result<(CommitResult, Registry), Code>
  {
    var destination := DestinationClaim(g, n, timestamp);
    var next := NextClaims(g, source, destination);
    var error := ClaimsError(g.sessions, next, facts);
    if error.Some? then Err(error.value)
    else if g.claimSetGeneration >= MAX_SAFE_INTEGER then Err(Rejected)
    else
      var generation := g.claimSetGeneration + 1;
      Ok((CommitResult(Transferred, n.operationId, generation, None, Some(destination)),
          g.(claims := next, claimSetGeneration := generation, completed := g.completed + [RecordOf(n, generation)])))
  }

  /** The registry's answer and its next state. */
  ghost function CommitHandoff(g: Registry, input: CommitInput, timestamp: string, facts: FactSource)
    : Result<(CommitResult, Registry), Code>
  {
    var n := input.normalized;
    if g.claimSetGeneration != input.snapshot.claimSetGeneration then Err(Stale) else
    match Validate(g, n) case Err(code) => Err(code) case Ok(v) =>
    if v.status == Idempotent then
      Ok((CommitResult(AlreadyDone, n.operationId, g.claimSetGeneration, v.sourceClaim, v.destinationClaim), g))
    else if v.status != Allowed || v.sourceClaim == None then Err(v.code)
    else if !(SameSession(input.snapshot, g, n.fromSessionId) && SameSession(input.snapshot, g, n.toSessionId)) then
      Err(WrongWorktree)
    else WriteTransfer(g, n, v.sourceClaim.value, timestamp, facts)
  }

  /** An allowed commit comes to its last stage. */
  lemma AllowedCommit(g: Registry, input: CommitInput, timestamp: string, facts: FactSource, v: Validation,
      source: Claim)
    requires g.claimSetGeneration == input.snapshot.claimSetGeneration && Validate(g, input.normalized) == Ok(v)
    requires v.status == Allowed && v.sourceClaim == Some(source)
    requires SameSession(input.snapshot, g, input.normalized.fromSessionId)
    requires SameSession(input.snapshot, g, input.normalized.toSessionId)
    ensures CommitHandoff(g, input, timestamp, facts) == WriteTransfer(g, input.normalized, source, timestamp, facts)
  {
  }

  lemma ExactIsSingle(claims: seq<Claim>, sessionId: string, resource: string)
    requires FindExact(claims, sessionId, resource).Ok? && FindExact(claims, sessionId, resource).value.Some?
    ensures ExactClaims(claims, sessionId, resource) == [FindExact(claims, sessionId, resource).value.value]
  {
    var exact := ExactClaims(claims, sessionId, resource);
    assert exact == [exact[0]];
  }

  lemma AllowedClaims(g: Registry, n: Normalized, source: HandoffSession, destination: HandoffSession)
    requires ValidateClaims(g, n, source, destination).Ok?
      && ValidateClaims(g, n, source, destination).value.status == Allowed
    ensures var claim := ValidateClaims(g, n, source, destination).value.sourceClaim;
      claim.Some? && FindExact(g.claims, n.fromSessionId, n.resource) == Ok(claim)
        && !DestinationOverlaps(g, n.toSessionId, claim.value)
  {
  }

  lemma AllowedStages(g: Registry, n: Normalized) returns (source: HandoffSession, destination: HandoffSession)
    requires Allows(g, n)
    ensures ValidRegistry(g) && FindRecord(g.completed, n.operationId) == None
      && g.claimSetGeneration == n.claimSetGeneration
    ensures Validate(g, n) == ValidateClaims(g, n, source, destination)
    ensures FindSession(g.sessions, n.toSessionId) == Some(destination) && destination.repositoryId == g.repositoryId
  {
    source := FindSession(g.sessions, n.fromSessionId).value;
    destination := FindSession(g.sessions, n.toSessionId).value;
  }

  /** What an allowed validation says. */
  lemma AllowedMeans(g: Registry, n: Normalized) returns (source: Claim)
    requires Allows(g, n)
    ensures Validate(g, n).value.sourceClaim == Some(source)
      && ExactClaims(g.claims, n.fromSessionId, n.resource) == [source]
    ensures ValidRegistry(g) && FindRecord(g.completed, n.operationId) == None
      && g.claimSetGeneration == n.claimSetGeneration
    ensures !DestinationOverlaps(g, n.toSessionId, source)
  {
    var s, d := AllowedStages(g, n);
    AllowedClaims(g, n, s, d);
    ExactIsSingle(g.claims, n.fromSessionId, n.resource);
    source := Validate(g, n).value.sourceClaim.value;
  }

  /** What the destination receives: the resource in the requested mode without sharing, under its own
      identity as listed. */
  ghost predicate GivenTo(g: Registry, n: Normalized, c: Claim) {
    exists owner :: owner in g.sessions && owner.sessionId == n.toSessionId
      && c == Claim(CanonicalClaimId(n.toSessionId, n.resource, n.mode, None), n.toSessionId, g.repositoryId,
                    owner.worktreePath, n.resource, n.mode, None, c.createdAt, c.createdAt)
  }

  /** A committed transfer: the source no longer holds the resource, the destination holds exactly the
      requested claim, every other claim stays, the generation rises by one, and the operation is on record. */
  ghost predicate TransferredFrom(g: Registry, g': Registry, n: Normalized) {
    && ExactClaims(g.claims, n.fromSessionId, n.resource) != []
    && ExactClaims(g'.claims, n.fromSessionId, n.resource) == []
    && |ExactClaims(g'.claims, n.toSessionId, n.resource)| == 1
    && GivenTo(g, n, ExactClaims(g'.claims, n.toSessionId, n.resource)[0])
    && (forall c :: c in g.claims && !(c.sessionId == n.fromSessionId && c.resource == n.resource) ==> c in g'.claims)
    && (forall c :: c in g'.claims && !(c.sessionId == n.toSessionId && c.resource == n.resource) ==> c in g.claims)
    && g'.claimSetGeneration == g.claimSetGeneration + 1
    && g'.completed == g.completed
         + [OperationRecord(n.operationId, n.fromSessionId, n.toSessionId, n.resource, n.mode, g'.claimSetGeneration)]
    && g'.sessions == g.sessions && g'.repositoryId == g.repositoryId
  }

  lemma NextElements(g: Registry, source: Claim, destination: Claim)
    ensures forall c :: c in NextClaims(g, source, destination) <==>
      c == destination || (c in g.claims && c.claimId != source.claimId)
  {
    Sorting.SortKeepsElements(Without(g.claims, source.claimId) + [destination], ClaimSortKey);
  }

  lemma {:induction false} NoneExact(claims: seq<Claim>, sessionId: string, resource: string)
    requires forall c :: c in claims ==> !(c.sessionId == sessionId && c.resource == resource)
    ensures ExactClaims(claims, sessionId, resource) == []
  {
    if claims != [] {
      assert claims[0] in claims;
      NoneExact(claims[1..], sessionId, resource);
    }
  }

  lemma {:induction false} OneExact(claims: seq<Claim>, d: Claim)
    requires d in claims && (forall i, j :: 0 <= j < i < |claims| ==> claims[i] != claims[j])
    requires forall c :: c in claims && c.sessionId == d.sessionId && c.resource == d.resource ==> c == d
    ensures ExactClaims(claims, d.sessionId, d.resource) == [d]
  {
    if claims[0] == d {
      assert d !in claims[1..];
      NoneExact(claims[1..], d.sessionId, d.resource);
    } else {
      assert claims[0] in claims;
      OneExact(claims[1..], d);
    }
  }

  lemma SourceIsGone(g: Registry, n: Normalized, source: Claim, destination: Claim)
    requires ValidRegistry(g) && ExactClaims(g.claims, n.fromSessionId, n.resource) == [source]
    requires destination.sessionId == n.toSessionId && n.fromSessionId != n.toSessionId
    ensures ExactClaims(NextClaims(g, source, destination), n.fromSessionId, n.resource) == []
    ensures forall c :: c in g.claims && c.claimId == source.claimId ==> c == source
  {
    NextElements(g, source, destination);
    assert source in ExactClaims(g.claims, n.fromSessionId, n.resource);
    assert forall c :: c in g.claims && c.sessionId == n.fromSessionId && c.resource == n.resource ==> c in [source];
    NoneExact(NextClaims(g, source, destination), n.fromSessionId, n.resource);
    forall c | c in g.claims && c.claimId == source.claimId ensures c == source {
      var i :| 0 <= i < |g.claims| && g.claims[i] == c;
      var j :| 0 <= j < |g.claims| && g.claims[j] == source;
    }
  }

  lemma DestinationStands(g: Registry, n: Normalized, source: Claim, destination: Claim, facts: FactSource)
    requires ValidRegistry(g) && IsCanonical(n.resource) && source.resource == n.resource
    requires !DestinationOverlaps(g, n.toSessionId, source)
    requires destination.sessionId == n.toSessionId && destination.resource == n.resource
    requires AcceptableClaims(g.sessions, NextClaims(g, source, destination), facts)
    ensures ExactClaims(NextClaims(g, source, destination), n.toSessionId, n.resource) == [destination]
  {
    var next := NextClaims(g, source, destination);
    NextElements(g, source, destination);
    OverlapIsReflexive(n.resource);
    forall c | c in next && c.sessionId == n.toSessionId && c.resource == n.resource ensures c == destination {
      assert c != destination ==> ClaimsMeet(c, source);
    }
    OneExact(next, destination);
  }

  lemma CommitIsTransfer(g: Registry, input: CommitInput, timestamp: string, facts: FactSource) returns (source: Claim)
    requires CommitHandoff(g, input, timestamp, facts).Ok?
    requires CommitHandoff(g, input, timestamp, facts).value.0.status == Transferred
    ensures Allows(g, input.normalized) && g.claimSetGeneration == input.snapshot.claimSetGeneration
    ensures Validate(g, input.normalized).value.sourceClaim == Some(source)
    ensures CommitHandoff(g, input, timestamp, facts) == WriteTransfer(g, input.normalized, source, timestamp, facts)
    ensures SameSession(input.snapshot, g, input.normalized.toSessionId)
  {
    source := Validate(g, input.normalized).value.sourceClaim.value;
  }

  lemma WrittenMeans(g: Registry, n: Normalized, source: Claim, timestamp: string, facts: FactSource)
    requires WriteTransfer(g, n, source, timestamp, facts).Ok?
    ensures var next := NextClaims(g, source, DestinationClaim(g, n, timestamp));
      && AcceptableClaims(g.sessions, next, facts)
      && WriteTransfer(g, n, source, timestamp, facts).value.1
         == g.(claims := next, claimSetGeneration := g.claimSetGeneration + 1,
               completed := g.completed + [RecordOf(n, g.claimSetGeneration + 1)])
  {
  }

  /** The stages of a commit that transfers. */
  lemma CommitStages(g: Registry, input: CommitInput, timestamp: string, facts: FactSource) returns (source: Claim)
    requires CommitHandoff(g, input, timestamp, facts).Ok?
    requires CommitHandoff(g, input, timestamp, facts).value.0.status == Transferred
    ensures Allows(g, input.normalized) && g.claimSetGeneration == input.snapshot.claimSetGeneration
    ensures Validate(g, input.normalized).value.sourceClaim == Some(source)
    ensures var n := input.normalized;
      var next := NextClaims(g, source, DestinationClaim(g, n, timestamp));
      AcceptableClaims(g.sessions, next, facts)
      && CommitHandoff(g, input, timestamp, facts).value.1
         == g.(claims := next, claimSetGeneration := g.claimSetGeneration + 1,
               completed := g.completed + [RecordOf(n, g.claimSetGeneration + 1)])
  {
    source := CommitIsTransfer(g, input, timestamp, facts);
    WrittenMeans(g, input.normalized, source, timestamp, facts);
  }

  lemma DestinationIsGiven(g: Registry, n: Normalized, timestamp: string)
    requires Allows(g, n)
    ensures GivenTo(g, n, DestinationClaim(g, n, timestamp))
  {
    var _, owner := AllowedStages(g, n);
    assert owner in g.sessions && owner.sessionId == n.toSessionId;
  }

  /** What the registry does when it reports a transfer. */
  lemma CommitTransfers(g: Registry, input: CommitInput, timestamp: string, facts: FactSource)
    requires input.normalized.fromSessionId != input.normalized.toSessionId && IsCanonical(input.normalized.resource)
    requires CommitHandoff(g, input, timestamp, facts).Ok?
    requires CommitHandoff(g, input, timestamp, facts).value.0.status == Transferred
    ensures var n := input.normalized; var g' := CommitHandoff(g, input, timestamp, facts).value.1;
      TransferredFrom(g, g', n) && ExactClaims(g'.claims, n.toSessionId, n.resource)[0].createdAt == timestamp
  {
    var n := input.normalized;
    var source := CommitStages(g, input, timestamp, facts);
    var again := AllowedMeans(g, n);
    assert source in ExactClaims(g.claims, n.fromSessionId, n.resource);
    var destination := DestinationClaim(g, n, timestamp);
    DestinationIsGiven(g, n, timestamp);
    DestinationStands(g, n, source, destination, facts);
    TransferShape(g, n, source, destination, facts);
  }

  lemma TransferShape(g: Registry, n: Normalized, source: Claim, destination: Claim, facts: FactSource)
    requires ValidRegistry(g) && IsCanonical(n.resource) && n.fromSessionId != n.toSessionId
    requires ExactClaims(g.claims, n.fromSessionId, n.resource) == [source]
      && !DestinationOverlaps(g, n.toSessionId, source)
    requires source.resource == n.resource
    requires GivenTo(g, n, destination)
    requires AcceptableClaims(g.sessions, NextClaims(g, source, destination), facts)
    ensures var generation := g.claimSetGeneration + 1;
      TransferredFrom(g, g.(claims := NextClaims(g, source, destination), claimSetGeneration := generation,
                            completed := g.completed + [RecordOf(n, generation)]), n)
  {
    SourceIsGone(g, n, source, destination);
    DestinationStands(g, n, source, destination, facts);
    NextElements(g, source, destination);
    assert source in ExactClaims(g.claims, n.fromSessionId, n.resource);
  }

  /** A registry that allows a handoff has checked its texts: the resource is that of a canonical
      claim, the destination is a listed session. */
  lemma AllowedIsTextual(g: Registry, n: Normalized)
    requires Allows(g, n)
    ensures IsCanonical(n.resource) && '\0' !in n.toSessionId
  {
    var source := AllowedMeans(g, n);
    assert source in ExactClaims(g.claims, n.fromSessionId, n.resource);
    assert OwnedAndCanonical(source, g);
    var _, destination := AllowedStages(g, n);
    assert ValidSession(destination);
    assert forall k :: 0 <= k < |n.toSessionId| ==> !IsControl(n.toSessionId[k]);
  }

  lemma NextIsCoordinated(g: Registry, source: Claim, destination: Claim, facts: FactSource)
    requires Coordinated(g.claims) && Honest(facts)
    requires IsCanonical(destination.resource) && '\0' !in destination.sessionId
    requires AcceptableClaims(g.sessions, NextClaims(g, source, destination), facts)
    ensures Coordinated(NextClaims(g, source, destination))
  {
    NextElements(g, source, destination);
    AcceptableIsCoordinated(g.sessions, NextClaims(g, source, destination), facts);
  }

  /** A commit that does not transfer changes nothing. */
  lemma OtherwiseUnchanged(g: Registry, input: CommitInput, timestamp: string, facts: FactSource)
    requires CommitHandoff(g, input, timestamp, facts).Ok?
    requires CommitHandoff(g, input, timestamp, facts).value.0.status != Transferred
    ensures CommitHandoff(g, input, timestamp, facts).value.1 == g
  {
  }

  /** A transfer keeps the claim set coordinated: the registry's own check covers every pair, so it
      does not matter that validation looked at the destination's claims only. */
  lemma CommitKeepsCoordination(g: Registry, input: CommitInput, timestamp: string, facts: FactSource)
    requires Coordinated(g.claims) && Honest(facts) && CommitHandoff(g, input, timestamp, facts).Ok?
    ensures Coordinated(CommitHandoff(g, input, timestamp, facts).value.1.claims)
  {
    if CommitHandoff(g, input, timestamp, facts).value.0.status == Transferred {
      var source := CommitStages(g, input, timestamp, facts);
      AllowedIsTextual(g, input.normalized);
      NextIsCoordinated(g, source, DestinationClaim(g, input.normalized, timestamp), facts);
    } else {
      OtherwiseUnchanged(g, input, timestamp, facts);
    }
  }

  lemma AcceptableIsCoordinated(sessions: seq<HandoffSession>, claims: seq<Claim>, facts: FactSource)
    requires AllValid(claims) && Honest(facts) && AcceptableClaims(sessions, claims, facts)
    ensures Coordinated(claims)
  {
    forall i, j | 0 <= i < j < |claims| ensures claims[i] != claims[j] {
      assert claims[j].claimId != claims[i].claimId;
    }
    DistinctMeansOnce(claims);
    forall c, d | c in claims && d in claims && c != d
      ensures c.sessionId == d.sessionId ==> !ClaimsMeet(c, d)
      ensures c.sessionId != d.sessionId ==> SafePair(c, d)
    {
      NoClash(claims, c, d, facts);
    }
  }

  lemma NoClash(claims: seq<Claim>, c: Claim, d: Claim, facts: FactSource)
    requires forall i, j :: 0 <= j < i < |claims| ==> !Clashes(claims[i], claims[j], facts)
    requires c in claims && d in claims && c != d && Honest(facts)
    ensures if c.sessionId == d.sessionId then !ClaimsMeet(c, d) else SafePair(c, d)
  {
    var i :| 0 <= i < |claims| && claims[i] == c;
    var j :| 0 <= j < |claims| && claims[j] == d;
    OverlapIsSymmetric(c.resource, d.resource);
    SafePairIsSymmetric(c, d);
    if j < i {
      assert !Clashes(c, d, facts);
      if ClaimsMeet(c, d) && c.sessionId != d.sessionId { NoConflictIsSafe(c, d, facts); }
    } else {
      assert !Clashes(d, c, facts);
      if ClaimsMeet(d, c) && c.sessionId != d.sessionId { NoConflictIsSafe(d, c, facts); }
    }
  }

  lemma IdentityHeld(g: Registry, input: CommitInput, timestamp: string, facts: FactSource)
    requires CommitHandoff(g, input, timestamp, facts).Ok?
    requires CommitHandoff(g, input, timestamp, facts).value.0.status == Transferred
    ensures SameSession(input.snapshot, g, input.normalized.toSessionId)
    ensures g.claimSetGeneration < MAX_SAFE_INTEGER
    ensures CommitHandoff(g, input, timestamp, facts).value.0 ==
      CommitResult(Transferred, input.normalized.operationId, g.claimSetGeneration + 1, None,
                   Some(DestinationClaim(g, input.normalized, timestamp)))
  {
    var source := CommitIsTransfer(g, input, timestamp, facts);
  }

  lemma DestinationIsCanonical(g: Registry, snapshot: Registry, n: Normalized, timestamp: string)
    requires Allows(g, n) && Allows(snapshot, n) && IsCanonical(n.resource)
    requires SameSession(snapshot, g, n.toSessionId)
    ensures CanonicalDestination(Some(DestinationClaim(g, n, timestamp)), n, snapshot)
  {
    var _, owner := AllowedStages(snapshot, n);
    assert ValidSession(owner);
    var source := AllowedMeans(g, n);
    assert source in ExactClaims(g.claims, n.fromSessionId, n.resource);
    assert OwnedAndCanonical(source, g);
  }

  /** The registry's own transfer is always acceptable to the client that asked for it. */
  lemma TransferIsAcceptable(g: Registry, input: CommitInput, timestamp: string, facts: FactSource)
    requires CommitHandoff(g, input, timestamp, facts).Ok? && IsCanonical(input.normalized.resource)
    requires CommitHandoff(g, input, timestamp, facts).value.0.status == Transferred
    requires Allows(input.snapshot, input.normalized)
    ensures AcceptableCommit(CommitHandoff(g, input, timestamp, facts).value.0, input.normalized,
                             input.snapshot.claimSetGeneration, input.snapshot)
  {
    var source := CommitStages(g, input, timestamp, facts);
    IdentityHeld(g, input, timestamp, facts);
    DestinationIsCanonical(g, input.snapshot, input.normalized, timestamp);
    var again := AllowedMeans(g, input.normalized);
  }
}
