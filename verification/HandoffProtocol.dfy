/** One run of the handoff: read, fence, drain, read again, commit. Every answer comes from
    outside and none is trusted. */
module HandoffProtocol {
  import opened ResourceClaims
  import opened ResourceHandoff
  import opened Resources
  import opened Wrappers

  datatype Fence = Fence(
    schemaVersion: int, sessionId: string, operationId: string, epoch: int, accepting: bool, status: string)

  datatype Quiescence = Quiescence(
    sessionId: string, operationId: string, epoch: int, status: string,
    activeExecutionIds: seq<string>, unknownExecutionIds: seq<string>)

  datatype CommitInput = CommitInput(normalized: Normalized, snapshot: Registry, fence: Fence, quiescence: Quiescence)

  datatype CommitStatus = Transferred | AlreadyDone | Unrecognized

  datatype CommitResult = CommitResult(
    status: CommitStatus, operationId: string, claimSetGeneration: int,
    sourceClaim: Option<Claim>, destinationClaim: Option<Claim>)

  /** What a commit may throw: a registry error with one of the codes told apart, or anything else. */
  datatype CommitFailure = UncertainDurability | StaleGeneration | ClaimConflict | RejectedOperation | AnythingElse

  /** What becomes of the answer of a registry write. The file is renamed into place before its
      durability is proven, so an answer may be lost after the write is visible. */
  datatype Delivery = Arrives | LostAfterWrite | LostBeforeWrite

  datatype Outcome = Moved | Unchanged | Refused | Unresolved

  datatype HandoffResult = HandoffResult(
    status: Outcome, code: Code, idempotent: bool, request: Normalized,
    previousClaimSetGeneration: int, claimSetGeneration: int,
    sourceClaim: Option<Claim>, destinationClaim: Option<Claim>,
    sourceRetained: bool, fenceEpoch: Option<int>)

  /** The answers of the outside world in one run; `None` and `Err` are exceptions. */
  datatype Answers = Answers(
    initial: Registry,
    fence: Option<Fence>,
    quiescence: Option<Quiescence>,
    current: Registry,
    commit: Result<CommitResult, CommitFailure>)

  datatype Call =
    | ReadSnapshot(answered: Registry)
    | CloseAdmission(sessionId: string, operationId: string)
    | AwaitQuiescence(fence: Fence)
    | Commit(input: CommitInput)

  predicate IsFenceFor(f: Fence, n: Normalized) {
    && f.schemaVersion == HANDOFF_SCHEMA_VERSION && f.sessionId == n.fromSessionId && f.operationId == n.operationId
    && SafeInteger(f.epoch) && !f.accepting && f.status == "fenced"
  }

  predicate IsQuiescenceFor(f: Fence, q: Quiescence) {
    && q.sessionId == f.sessionId && q.operationId == f.operationId && q.epoch == f.epoch
    && q.status in {"quiescent", "active", "unknown"}
  }

  predicate IsQuiet(q: Quiescence) {
    q.status != "active" && q.status != "unknown" && q.activeExecutionIds == [] && q.unknownExecutionIds == []
  }

  predicate CanonicalDestination(c: Option<Claim>, n: Normalized, g: Registry) {
    var owner := FindSession(g.sessions, n.toSessionId);
    c.Some? && owner.Some? && CanonicalClaimOf(c.value, g.repositoryId, owner.value)
    && c.value.sessionId == n.toSessionId && c.value.resource == n.resource && c.value.mode == n.mode
  }

  predicate AcceptableCommit(r: CommitResult, n: Normalized, initialGeneration: int, g: Registry) {
    && r.status != Unrecognized && r.operationId == n.operationId
    && -MAX_SAFE_INTEGER <= r.claimSetGeneration <= MAX_SAFE_INTEGER
    && r.claimSetGeneration >= n.claimSetGeneration
    && (r.status == Transferred ==> r.sourceClaim == None && CanonicalDestination(r.destinationClaim, n, g))
    && (r.status == Transferred ==> r.claimSetGeneration == initialGeneration + 1)
  }

  function FromValidation(v: Validation, n: Normalized, generation: int, idempotent: bool, epoch: Option<int>)
    : HandoffResult
  {
    var status := match v.status case Idempotent => Unchanged case Allowed => Moved case Blocked => Refused;
    HandoffResult(status, v.code, idempotent, n, generation, generation, v.sourceClaim, v.destinationClaim, true, epoch)
  }

  function RefusedResult(n: Normalized, generation: int, code: Code, epoch: Option<int>, source: Option<Claim>)
    : HandoffResult
  {
    HandoffResult(Refused, code, false, n, generation, generation, source, None, true, epoch)
  }

  function UnresolvedResult(n: Normalized, generation: int, code: Code, epoch: Option<int>, source: Option<Claim>)
    : HandoffResult
  {
    RefusedResult(n, generation, code, epoch, source).(status := Unresolved)
  }

  function CodeOf(failure: CommitFailure): Code {
    match failure
    case UncertainDurability => DurabilityUncertain
    case StaleGeneration => Stale
    case ClaimConflict => Conflict
    case RejectedOperation => Rejected
    case AnythingElse => Unobservable
  }

  // ----- Validation as the program runs it

  /** A scope selector need not be canonical; against a path without wildcards the search is exact
      all the same. */
  method SelectorMatches(selector: string, resource: string) returns (matches: bool)
    requires IsCanonical(resource) && WildcardFree(resource)
    ensures matches == ResourcesOverlap(selector, resource)
  {
    CanonicalHasNoEmptySegments(resource);
    SelectsIsOverlap(selector, resource);
    matches := GlobPatternsOverlap(selector, resource);
  }

  method AnySelectorMatches(selectors: seq<string>, resource: string) returns (found: bool)
    requires IsCanonical(resource) && WildcardFree(resource)
    ensures found == exists s :: s in selectors && ResourcesOverlap(s, resource)
  {
    for i := 0 to |selectors|
      invariant forall k :: 0 <= k < i ==> !ResourcesOverlap(selectors[k], resource)
    {
      var matches := SelectorMatches(selectors[i], resource);
      if matches { return true; }
    }
    return false;
  }

  method FindDestinationOverlap(g: Registry, sessionId: string, c: Claim) returns (found: bool)
    requires IsCanonical(c.resource) && forall d :: d in g.claims ==> IsCanonical(d.resource)
    ensures found == DestinationOverlaps(g, sessionId, c)
  {
    for i := 0 to |g.claims|
      invariant forall k :: 0 <= k < i ==> !(g.claims[k].sessionId == sessionId && ClaimsMeet(g.claims[k], c))
    {
      if g.claims[i].sessionId == sessionId {
        var overlap := ClaimsOverlap(g.claims[i], c);
        if overlap { return true; }
      }
    }
    return false;
  }

  lemma RegistryClaimsAreCanonical(g: Registry)
    requires ValidRegistry(g)
    ensures forall c :: c in g.claims ==> IsCanonical(c.resource)
  {
    forall c | c in g.claims ensures IsCanonical(c.resource) {
      assert OwnedAndCanonical(c, g);
    }
  }

  method ValidateOwnership(g: Registry, n: Normalized, source: HandoffSession, destination: HandoffSession)
    returns (r: Result<Validation, Code>)
    requires ValidRegistry(g) && WellFormed(n)
    ensures r == ValidateClaims(g, n, source, destination)
  {
    RegistryClaimsAreCanonical(g);
    var sourceFound := FindExact(g.claims, n.fromSessionId, n.resource);
    if sourceFound.Err? { return Err(sourceFound.error); }
    var sourceClaim := sourceFound.value;
    var destinationFound := FindExact(g.claims, n.toSessionId, n.resource);
    if sourceClaim == None {
      if destinationFound.Err? { return Err(destinationFound.error); }
      return Verdict(Blocked, NoClaim, g, None, destinationFound.value);
    }
    if sourceClaim.value.repositoryId != g.repositoryId || sourceClaim.value.worktreePath != source.worktreePath {
      return Verdict(Blocked, WrongWorktree, g, sourceClaim, None);
    }
    if destinationFound.Err? { return Err(destinationFound.error); }
    assert sourceClaim.value in ExactClaims(g.claims, n.fromSessionId, n.resource);
    var overlaps := FindDestinationOverlap(g, n.toSessionId, sourceClaim.value);
    if overlaps { return Verdict(Blocked, Conflict, g, sourceClaim, destinationFound.value); }
    if destination.maxScope == None { return Verdict(Blocked, Rejected, g, sourceClaim, None); }
    var denied := AnySelectorMatches(destination.maxScope.value.deny, n.resource);
    if denied { return Verdict(Blocked, Rejected, g, sourceClaim, None); }
    var selectors := if n.mode == Read then destination.maxScope.value.readOnly else destination.maxScope.value.write;
    var admitted := AnySelectorMatches(selectors, n.resource);
    if !admitted { return Verdict(Blocked, OutOfScope, g, sourceClaim, None); }
    return Verdict(Allowed, HandoffAllowed, g, sourceClaim, None);
  }

  method ValidateResourceHandoff(g: Registry, n: Normalized) returns (r: Result<Validation, Code>)
    requires WellFormed(n)
    ensures r == Validate(g, n)
  {
    var believed := AssertSnapshot(g);
    if !believed { return Err(Corrupt); }
    var record := FindRecord(g.completed, n.operationId);
    if record.Some? {
      if !SameOperation(record.value, n) { return Verdict(Blocked, Rejected, g, None, None); }
      var sourceFound := FindExact(g.claims, n.fromSessionId, n.resource);
      if sourceFound.Err? { return Err(sourceFound.error); }
      var destinationFound := FindExact(g.claims, n.toSessionId, n.resource);
      if destinationFound.Err? { return Err(destinationFound.error); }
      return Verdict(Idempotent, HandoffIdempotent, g, sourceFound.value, destinationFound.value);
    }
    if n.claimSetGeneration != g.claimSetGeneration { return Verdict(Blocked, Stale, g, None, None); }
    var source, destination := FindSession(g.sessions, n.fromSessionId), FindSession(g.sessions, n.toSessionId);
    if source == None || destination == None { return Verdict(Blocked, NoSession, g, None, None); }
    if source.value.repositoryId != g.repositoryId || destination.value.repositoryId != g.repositoryId {
      return Verdict(Blocked, WrongRepository, g, None, None);
    }
    if source.value.worktreePath == destination.value.worktreePath {
      return Verdict(Blocked, WrongWorktree, g, None, None);
    }
    if source.value.state != "active" || destination.value.state != "active" {
      return Verdict(Blocked, Inactive, g, None, None);
    }
    r := ValidateOwnership(g, n, source.value, destination.value);
  }

  // ----- The run

  ghost predicate Allows(g: Registry, n: Normalized) {
    Validate(g, n).Ok? && Validate(g, n).value.status == Allowed
  }

  /** A fence for this handoff and evidence at its epoch that nothing of the source runs. */
  predicate Quieted(f: Fence, q: Quiescence, n: Normalized) {
    IsFenceFor(f, n) && IsQuiescenceFor(f, q) && IsQuiet(q)
  }

  predicate Drained(a: Answers, n: Normalized) {
    a.fence.Some? && a.quiescence.Some? && Quieted(a.fence.value, a.quiescence.value, n)
  }

  /** Everything that must have been seen before the commit. */
  ghost predicate MayCommit(a: Answers, n: Normalized) {
    && Allows(a.initial, n)
    && Drained(a, n)
    && a.current.claimSetGeneration == a.initial.claimSetGeneration
    && Allows(a.current, n)
  }

  /** The calls of a run that gets to the end, in order. */
  function FullRun(a: Answers, n: Normalized): seq<Call>
    requires a.fence.Some? && a.quiescence.Some?
  {
    [ReadSnapshot(a.initial), CloseAdmission(n.fromSessionId, n.operationId), AwaitQuiescence(a.fence.value),
     ReadSnapshot(a.current), Commit(CommitInput(n, a.current, a.fence.value, a.quiescence.value))]
  }

  predicate NoCommit(calls: seq<Call>) {
    forall k :: 0 <= k < |calls| ==> !calls[k].Commit?
  }

  predicate Retains(r: HandoffResult) {
    r.status == Refused || r.status == Unresolved ==> r.sourceRetained
  }

  // ----- What each answer makes of the run: a result ends it

  ghost function ReadResult(n: Normalized, g: Registry): Option<Result<HandoffResult, Code>> {
    match Validate(g, n)
    case Err(code) => Some(Err(code))
    case Ok(v) =>
      if v.status == Allowed then None
      else Some(Ok(FromValidation(v, n, v.claimSetGeneration, v.status == Idempotent, None)))
  }

  ghost function SourceOf(n: Normalized, g: Registry): Option<Claim> {
    if Validate(g, n).Ok? then Validate(g, n).value.sourceClaim else None
  }

  function FenceResult(n: Normalized, generation: int, fence: Option<Fence>, source: Option<Claim>)
    : Option<HandoffResult>
  {
    if fence.Some? && IsFenceFor(fence.value, n) then None
    else Some(UnresolvedResult(n, generation, Unobservable, None, source))
  }

  function DrainResult(n: Normalized, generation: int, fence: Fence, q: Option<Quiescence>, source: Option<Claim>)
    : Option<HandoffResult>
  {
    var epoch := Some(fence.epoch);
    if q == None || !IsQuiescenceFor(fence, q.value) then
      Some(UnresolvedResult(n, generation, Unobservable, epoch, source))
    else if q.value.status == "active" then Some(RefusedResult(n, generation, Rejected, epoch, source))
    else if IsQuiet(q.value) then None
    else Some(UnresolvedResult(n, generation, Unobservable, epoch, source))
  }

  ghost function RereadResult(n: Normalized, initialGeneration: int, g: Registry, epoch: int)
    : Option<Result<HandoffResult, Code>>
  {
    match Validate(g, n)
    case Err(code) => Some(Err(code))
    case Ok(v) =>
      if g.claimSetGeneration != initialGeneration then
        Some(Ok(RefusedResult(n, g.claimSetGeneration, Stale, Some(epoch), v.sourceClaim)))
      else if v.status == Allowed then None
      else Some(Ok(FromValidation(v, n, g.claimSetGeneration, v.status == Idempotent, Some(epoch))))
  }

  /** The result of a run, from the answers alone. */
  ghost function RunResult(n: Normalized, a: Answers): Result<HandoffResult, Code> {
    var generation, source := a.initial.claimSetGeneration, SourceOf(n, a.initial);
    match ReadResult(n, a.initial) case Some(r) => r case None =>
    match FenceResult(n, generation, a.fence, source) case Some(r) => Ok(r) case None =>
    match DrainResult(n, generation, a.fence.value, a.quiescence, source) case Some(r) => Ok(r) case None =>
    match RereadResult(n, generation, a.current, a.fence.value.epoch) case Some(r) => r case None =>
    Ok(AfterCommit(a, n, Some(a.fence.value.epoch), SourceOf(n, a.current)))
  }

  /** Fence the source and wait for its executions to drain; a result here ends the run. */
  method FenceAndDrain(n: Normalized, a: Answers, source: Option<Claim>)
    returns (stop: Option<HandoffResult>, calls: seq<Call>)
    ensures stop == None <==> Drained(a, n)
    ensures stop == match FenceResult(n, a.initial.claimSetGeneration, a.fence, source) case Some(r) => Some(r)
      case None => DrainResult(n, a.initial.claimSetGeneration, a.fence.value, a.quiescence, source)
    ensures stop.Some? ==>
      (stop.value.status == Refused || stop.value.status == Unresolved) && stop.value.sourceRetained
    ensures NoCommit(calls)
    ensures Drained(a, n) ==> calls == [CloseAdmission(n.fromSessionId, n.operationId), AwaitQuiescence(a.fence.value)]
  {
    var generation := a.initial.claimSetGeneration;
    calls := [CloseAdmission(n.fromSessionId, n.operationId)];
    if a.fence == None || !IsFenceFor(a.fence.value, n) {
      return Some(UnresolvedResult(n, generation, Unobservable, None, source)), calls;
    }
    var fence := a.fence.value;
    var epoch := Some(fence.epoch);
    calls := calls + [AwaitQuiescence(fence)];
    if a.quiescence == None || !IsQuiescenceFor(fence, a.quiescence.value) {
      return Some(UnresolvedResult(n, generation, Unobservable, epoch, source)), calls;
    }
    var quiescence := a.quiescence.value;
    if quiescence.status == "active" {
      return Some(RefusedResult(n, generation, Rejected, epoch, source)), calls;
    }
    if quiescence.status == "unknown" || |quiescence.activeExecutionIds| > 0 || |quiescence.unknownExecutionIds| > 0 {
      return Some(UnresolvedResult(n, generation, Unobservable, epoch, source)), calls;
    }
    return None, calls;
  }

  /** What the commit's answer makes of the run. */
  predicate Accepted(a: Answers, n: Normalized) {
    a.commit.Ok? && a.commit.value.status == Transferred
    && AcceptableCommit(a.commit.value, n, a.initial.claimSetGeneration, a.current)
  }

  predicate MoveIsProven(r: HandoffResult, a: Answers, n: Normalized) {
    && r.sourceClaim == None && CanonicalDestination(r.destinationClaim, n, a.current)
    && r.claimSetGeneration == a.initial.claimSetGeneration + 1
    && r.previousClaimSetGeneration == a.initial.claimSetGeneration
  }

  function AfterCommit(a: Answers, n: Normalized, epoch: Option<int>, source: Option<Claim>): (r: HandoffResult)
    ensures r.status == Moved <==> Accepted(a, n)
    ensures r.status == Moved ==> MoveIsProven(r, a, n)
    ensures Retains(r)
  {
    match a.commit
    case Err(failure) =>
      var code := CodeOf(failure);
      if code == Stale || code == Conflict || code == Rejected then
        RefusedResult(n, a.current.claimSetGeneration, code, epoch, source)
      else UnresolvedResult(n, a.current.claimSetGeneration, code, epoch, source)
    case Ok(c) =>
      if !AcceptableCommit(c, n, a.initial.claimSetGeneration, a.current) then
        UnresolvedResult(n, a.current.claimSetGeneration, Corrupt, epoch, source)
      else
        var already := c.status == AlreadyDone;
        HandoffResult(
          if already then Unchanged else Moved, if already then HandoffIdempotent else HandoffAllowed, already, n,
          a.initial.claimSetGeneration, c.claimSetGeneration, c.sourceClaim, c.destinationClaim,
          already && c.sourceClaim.Some?, epoch)
  }

  /** What holds of every run: the commit is called exactly when every earlier answer supports it,
      at most once and last; a move is reported exactly on an acceptable commit of a transfer. */
  ghost predicate Faithful(r: Result<HandoffResult, Code>, calls: seq<Call>, a: Answers, n: Normalized) {
    && (if MayCommit(a, n) then calls == FullRun(a, n) else NoCommit(calls))
    && (r.Ok? && r.value.status == Moved <==> MayCommit(a, n) && Accepted(a, n))
    && (r.Ok? && r.value.status == Moved ==> MoveIsProven(r.value, a, n))
    && (r.Ok? ==> Retains(r.value))
    && r == RunResult(n, a)
  }

  /** Read again and commit, after a drained source. */
  method RereadAndCommit(n: Normalized, a: Answers) returns (r: Result<HandoffResult, Code>, calls: seq<Call>)
    requires WellFormed(n) && Drained(a, n)
    ensures var ready := a.current.claimSetGeneration == a.initial.claimSetGeneration && Allows(a.current, n);
      && calls == [ReadSnapshot(a.current)]
           + (if ready then [Commit(CommitInput(n, a.current, a.fence.value, a.quiescence.value))] else [])
      && (r.Ok? && r.value.status == Moved <==> ready && Accepted(a, n))
      && (r.Ok? && r.value.status == Moved ==> MoveIsProven(r.value, a, n))
      && (r.Ok? ==> Retains(r.value))
    ensures r ==
      match RereadResult(n, a.initial.claimSetGeneration, a.current, a.fence.value.epoch)
      case Some(stop) => stop
      case None => Ok(AfterCommit(a, n, Some(a.fence.value.epoch), SourceOf(n, a.current)))
  {
    var epoch := Some(a.fence.value.epoch);
    calls := [ReadSnapshot(a.current)];
    var second := ValidateResourceHandoff(a.current, n);
    if second.Err? { return Err(second.error), calls; }
    var v := second.value;
    if a.current.claimSetGeneration != a.initial.claimSetGeneration {
      return Ok(RefusedResult(n, a.current.claimSetGeneration, Stale, epoch, v.sourceClaim)), calls;
    }
    if v.status != Allowed {
      return Ok(FromValidation(v, n, a.current.claimSetGeneration, v.status == Idempotent, epoch)), calls;
    }
    calls := calls + [Commit(CommitInput(n, a.current, a.fence.value, a.quiescence.value))];
    return Ok(AfterCommit(a, n, epoch, v.sourceClaim)), calls;
  }

  /** The first read: a result here ends the run. */
  method ReadAndValidate(n: Normalized, g: Registry)
    returns (stop: Option<Result<HandoffResult, Code>>, source: Option<Claim>)
    requires WellFormed(n)
    ensures stop == ReadResult(n, g) && (stop == None <==> Allows(g, n)) && (stop == None ==> source == SourceOf(n, g))
    ensures stop.Some? && stop.value.Ok? ==> stop.value.value.status != Moved && Retains(stop.value.value)
  {
    var first := ValidateResourceHandoff(g, n);
    if first.Err? { return Some(Err(first.error)), None; }
    var v := first.value;
    if v.status != Allowed {
      return Some(Ok(FromValidation(v, n, v.claimSetGeneration, v.status == Idempotent, None))), None;
    }
    return None, v.sourceClaim;
  }

  lemma JoinedCalls(a: Answers, n: Normalized)
    requires a.fence.Some? && a.quiescence.Some?
    ensures [ReadSnapshot(a.initial)] + [CloseAdmission(n.fromSessionId, n.operationId), AwaitQuiescence(a.fence.value)]
      + ([ReadSnapshot(a.current)] + [Commit(CommitInput(n, a.current, a.fence.value, a.quiescence.value))])
        == FullRun(a, n)
  {
  }

  method RunNormalized(n: Normalized, a: Answers) returns (r: Result<HandoffResult, Code>, calls: seq<Call>)
    requires WellFormed(n)
    ensures Faithful(r, calls, a, n)
  {
    calls := [ReadSnapshot(a.initial)];
    var stopped, source := ReadAndValidate(n, a.initial);
    if stopped.Some? { return stopped.value, calls; }
    var stop, drainCalls := FenceAndDrain(n, a, source);
    calls := calls + drainCalls;
    if stop.Some? { return Ok(stop.value), calls; }
    var result, commitCalls := RereadAndCommit(n, a);
    JoinedCalls(a, n);
    return result, calls + commitCalls;
  }

  /** `handoffResources`. */
  method HandoffResources(o: Options, digest: Digest, a: Answers)
    returns (r: Result<HandoffResult, Code>, calls: seq<Call>)
    ensures NormalizeOptions(o, digest).Err? ==> r == Err(NormalizeOptions(o, digest).error) && calls == []
    ensures NormalizeOptions(o, digest).Ok? ==> Faithful(r, calls, a, NormalizeOptions(o, digest).value)
  {
    var normalized := NormalizeOptions(o, digest);
    if normalized.Err? { return Err(normalized.error), []; }
    NormalizedIsWellFormed(o, digest);
    r, calls := RunNormalized(normalized.value, a);
  }
}
