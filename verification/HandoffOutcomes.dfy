/** How a run of the handoff ends, answer by answer. */
module HandoffOutcomes {
  import opened HandoffCommit
  import opened HandoffConditions
  import opened HandoffProtocol
  import opened ResourceClaims
  import opened ResourceHandoff
  import opened Wrappers

  /** The source's one claim on the resource, as the registry has it. */
  ghost predicate IsSourceClaim(g: Registry, n: Normalized, claim: Option<Claim>) {
    exists i :: HeldOnce(g, i, n.fromSessionId, n.resource) && claim == Some(g.claims[i])
  }

  /** A run that ends without a move, at this generation and epoch, with the claim the source is seen to keep. */
  ghost predicate Stays(r: HandoffResult, n: Normalized, status: Outcome, code: Code, generation: int,
      epoch: Option<int>, seen: Registry) {
    && r.status == status && r.code == code && !r.idempotent && r.request == n
    && r.previousClaimSetGeneration == r.claimSetGeneration == generation && r.fenceEpoch == epoch
    && IsSourceClaim(seen, n, r.sourceClaim) && r.destinationClaim == None && r.sourceRetained
  }

  /** The same, but the second reading was not validated as allowed: nothing is said about the source's claim. */
  predicate EndsStale(r: HandoffResult, n: Normalized, generation: int, epoch: int) {
    && r.status == Refused && r.code == Stale && !r.idempotent && r.request == n
    && r.previousClaimSetGeneration == r.claimSetGeneration == generation && r.fenceEpoch == Some(epoch)
    && r.destinationClaim == None && r.sourceRetained
  }

  /** The verdict on a reading that does not allow the handoff. */
  ghost predicate TellsVerdict(r: HandoffResult, n: Normalized, g: Registry, epoch: Option<int>) {
    exists v :: AnswersAll(g, n, v) && v.status != Allowed && r.code == v.code
      && r.status == (if v.status == Idempotent then Unchanged else Refused) && r.idempotent == (v.status == Idempotent)
      && r.request == n && r.previousClaimSetGeneration == r.claimSetGeneration == g.claimSetGeneration
      && r.fenceEpoch == epoch && r.sourceRetained
  }

  predicate FencesIt(f: Option<Fence>, n: Normalized) {
    && f.Some? && f.value.sessionId == n.fromSessionId && f.value.operationId == n.operationId
    && f.value.schemaVersion == 1 && 0 <= f.value.epoch <= MAX_SAFE_INTEGER
    && !f.value.accepting && f.value.status == "fenced"
  }

  predicate SpeaksOf(q: Option<Quiescence>, f: Fence) {
    && q.Some? && q.value.sessionId == f.sessionId && q.value.operationId == f.operationId && q.value.epoch == f.epoch
    && (q.value.status == "quiescent" || q.value.status == "active" || q.value.status == "unknown")
  }

  predicate SaysQuiet(q: Quiescence) {
    q.status == "quiescent" && q.activeExecutionIds == [] && q.unknownExecutionIds == []
  }

  predicate EndsDone(r: HandoffResult, n: Normalized, a: Answers, c: CommitResult, epoch: int) {
    && r.status == (if c.status == AlreadyDone then Unchanged else Moved)
    && r.code == (if c.status == AlreadyDone then HandoffIdempotent else HandoffAllowed)
    && r.idempotent == (c.status == AlreadyDone) && r.request == n
    && r.previousClaimSetGeneration == a.initial.claimSetGeneration && r.claimSetGeneration == c.claimSetGeneration
    && r.sourceClaim == c.sourceClaim && r.destinationClaim == c.destinationClaim && r.fenceEpoch == Some(epoch)
    && (r.sourceRetained <==> c.status == AlreadyDone && c.sourceClaim.Some?)
  }

  /** After the commit was called: refusals the registry explains leave the run refused, every other failure and
      an answer that proves nothing leave it unresolved. */
  ghost predicate EndsAtCommit(r: HandoffResult, n: Normalized, a: Answers, epoch: int) {
    var generation := a.current.claimSetGeneration;
    match a.commit
    case Err(StaleGeneration) => Stays(r, n, Refused, Stale, generation, Some(epoch), a.current)
    case Err(ClaimConflict) => Stays(r, n, Refused, Conflict, generation, Some(epoch), a.current)
    case Err(RejectedOperation) => Stays(r, n, Refused, Rejected, generation, Some(epoch), a.current)
    case Err(UncertainDurability) => Stays(r, n, Unresolved, DurabilityUncertain, generation, Some(epoch), a.current)
    case Err(AnythingElse) => Stays(r, n, Unresolved, Unobservable, generation, Some(epoch), a.current)
    case Ok(c) =>
      if AcceptableCommit(c, n, a.initial.claimSetGeneration, a.current) then EndsDone(r, n, a, c, epoch)
      else Stays(r, n, Unresolved, Corrupt, generation, Some(epoch), a.current)
  }

  /** From the first answer that stops the run. */
  ghost predicate Ends(r: HandoffResult, n: Normalized, a: Answers) {
    var first := a.initial.claimSetGeneration;
    if !MayMove(a.initial, n) then TellsVerdict(r, n, a.initial, None)
    else if !FencesIt(a.fence, n) then Stays(r, n, Unresolved, Unobservable, first, None, a.initial)
    else
      var f := a.fence.value;
      if !SpeaksOf(a.quiescence, f) then Stays(r, n, Unresolved, Unobservable, first, Some(f.epoch), a.initial)
      else if a.quiescence.value.status == "active" then Stays(r, n, Refused, Rejected, first, Some(f.epoch), a.initial)
      else if !SaysQuiet(a.quiescence.value) then Stays(r, n, Unresolved, Unobservable, first, Some(f.epoch), a.initial)
      else if a.current.claimSetGeneration != first then EndsStale(r, n, a.current.claimSetGeneration, f.epoch)
      else if !MayMove(a.current, n) then TellsVerdict(r, n, a.current, Some(f.epoch))
      else EndsAtCommit(r, n, a, f.epoch)
  }

  // ----- Stage by stage

  lemma SourceIsHeld(g: Registry, n: Normalized)
    requires Allows(g, n)
    ensures IsSourceClaim(g, n, SourceOf(n, g))
  {
    var source := AllowedMeans(g, n);
    FoundExact(g, n.fromSessionId, n.resource);
  }

  lemma ReadEnds(n: Normalized, g: Registry)
    requires ReadResult(n, g).Some? && ReadResult(n, g).value.Ok?
    ensures TellsVerdict(ReadResult(n, g).value.value, n, g, None)
  {
    OffencesAreInOrder(g, n);
    var v := Validate(g, n).value;
    VerdictKeepsGeneration(g, n);
    assert AnswersAll(g, n, v);
  }

  lemma VerdictKeepsGeneration(g: Registry, n: Normalized)
    requires Validate(g, n).Ok?
    ensures Validate(g, n).value.claimSetGeneration == g.claimSetGeneration && ValidRegistry(g)
  {
  }

  lemma RereadEnds(n: Normalized, first: int, g: Registry, epoch: int)
    requires RereadResult(n, first, g, epoch).Some? && RereadResult(n, first, g, epoch).value.Ok?
    ensures var r := RereadResult(n, first, g, epoch).value.value;
      if g.claimSetGeneration != first then EndsStale(r, n, g.claimSetGeneration, epoch)
      else TellsVerdict(r, n, g, Some(epoch))
  {
    VerdictKeepsGeneration(g, n);
    OffencesAreInOrder(g, n);
    assert AnswersAll(g, n, Validate(g, n).value);
  }

  lemma FenceMeans(f: Option<Fence>, n: Normalized)
    ensures f.Some? && IsFenceFor(f.value, n) <==> FencesIt(f, n)
  {
  }

  lemma DrainMeans(q: Option<Quiescence>, f: Fence)
    ensures q.Some? && IsQuiescenceFor(f, q.value) <==> SpeaksOf(q, f)
    ensures SpeaksOf(q, f) ==> (IsQuiet(q.value) <==> SaysQuiet(q.value))
  {
  }

  lemma CommitEnds(n: Normalized, a: Answers, epoch: int)
    requires Allows(a.current, n)
    ensures EndsAtCommit(AfterCommit(a, n, Some(epoch), SourceOf(n, a.current)), n, a, epoch)
  {
    SourceIsHeld(a.current, n);
  }

  lemma EarlyEnds(n: Normalized, a: Answers)
    requires Allows(a.initial, n) && !Drained(a, n)
    ensures RunResult(n, a).Ok? && Ends(RunResult(n, a).value, n, a)
  {
    AllowedIff(a.initial, n);
    SourceIsHeld(a.initial, n);
    FenceMeans(a.fence, n);
    if a.fence.Some? { DrainMeans(a.quiescence, a.fence.value); }
  }

  lemma LateEnds(n: Normalized, a: Answers)
    requires Allows(a.initial, n) && Drained(a, n) && RunResult(n, a).Ok?
    ensures Ends(RunResult(n, a).value, n, a)
  {
    AllowedIff(a.initial, n);
    AllowedIff(a.current, n);
    FenceMeans(a.fence, n);
    DrainMeans(a.quiescence, a.fence.value);
    var reread := RereadResult(n, a.initial.claimSetGeneration, a.current, a.fence.value.epoch);
    if reread.Some? {
      RereadEnds(n, a.initial.claimSetGeneration, a.current, a.fence.value.epoch);
    } else {
      CommitEnds(n, a, a.fence.value.epoch);
    }
  }

  /** Every run ends as its first telling answer says; it fails only over a corrupt registry, the first read or,
      after a drained source, the second. */
  lemma RunsEnd(n: Normalized, a: Answers)
    ensures RunResult(n, a).Ok? ==> Ends(RunResult(n, a).value, n, a)
    ensures RunResult(n, a).Err? ==> RunResult(n, a).error == Corrupt
    ensures !ValidRegistry(a.initial) ==> RunResult(n, a).Err?
  {
    AllowedIff(a.initial, n);
    if !Allows(a.initial, n) {
      if RunResult(n, a).Ok? { ReadEnds(n, a.initial); } else { ErrorsAreCorruption(a.initial, n); }
    } else if !Drained(a, n) {
      EarlyEnds(n, a);
    } else if RunResult(n, a).Ok? {
      LateEnds(n, a);
    } else {
      ErrorsAreCorruption(a.current, n);
    }
  }
}
