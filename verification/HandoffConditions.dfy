/** Exactly when a handoff is allowed, and which answer meets which offence, in terms of the sessions,
    the claims and the scopes alone. */
module HandoffConditions {
  import opened HandoffCommit
  import opened HandoffProtocol
  import opened ResourceClaims
  import opened ResourceHandoff
  import opened Resources
  import opened Wrappers

  // ----- The request

  /** A request is usable if and only if its texts are bounded and free of control characters, its two
      sessions differ, its generation is safe, and its resource is a canonical path without wildcards;
      what is normalized is what was asked. */
  lemma NormalizedIsAsAsked(o: Options, digest: Digest)
    ensures var n := NormalizeOptions(o, digest);
      && (n.Ok? <==>
            && BoundedText(o.fromSessionId, 256) && BoundedText(o.toSessionId, 256) && o.fromSessionId != o.toSessionId
            && 0 <= o.ifGeneration <= MAX_SAFE_INTEGER
            && 0 < |o.resource| <= 4096 && IsCanonical(o.resource) && WildcardFree(o.resource)
            && BoundedText(if o.operationId.Some? then o.operationId.value else CanonicalOperationId(o, digest), 128))
      && (n.Ok? ==>
            && n.value.fromSessionId == o.fromSessionId && n.value.toSessionId == o.toSessionId
            && n.value.resource == o.resource && n.value.mode == o.mode && n.value.claimSetGeneration == o.ifGeneration
            && (o.operationId.Some? ==> n.value.operationId == o.operationId.value))
  {
  }

  // ----- The circumstances

  predicate ListedAs(g: Registry, id: string, s: HandoffSession) {
    s in g.sessions && s.sessionId == id
  }

  predicate Unlisted(g: Registry, id: string) {
    forall s :: s in g.sessions ==> s.sessionId != id
  }

  predicate OnRecordAs(g: Registry, id: string, r: OperationRecord) {
    r in g.completed && r.operationId == id
  }

  predicate Unrecorded(g: Registry, id: string) {
    forall r :: r in g.completed ==> r.operationId != id
  }

  predicate HeldAt(g: Registry, i: int, sessionId: string, resource: string) {
    0 <= i < |g.claims| && g.claims[i].sessionId == sessionId && g.claims[i].resource == resource
  }

  /** The session holds the resource by the `i`-th claim and no other. */
  ghost predicate HeldOnce(g: Registry, i: int, sessionId: string, resource: string) {
    HeldAt(g, i, sessionId, resource) && forall j :: HeldAt(g, j, sessionId, resource) ==> j == i
  }

  predicate HeldNever(g: Registry, sessionId: string, resource: string) {
    forall c :: c in g.claims ==> !(c.sessionId == sessionId && c.resource == resource)
  }

  ghost predicate HeldTwice(g: Registry, sessionId: string, resource: string) {
    exists i, j :: i != j && HeldAt(g, i, sessionId, resource) && HeldAt(g, j, sessionId, resource)
  }

  ghost predicate NoOverlapOf(g: Registry, sessionId: string, resource: string) {
    forall d :: d in g.claims && d.sessionId == sessionId ==> !ResourcesOverlap(d.resource, resource)
  }

  ghost predicate Meets(selectors: seq<string>, resource: string) {
    exists s :: s in selectors && ResourcesOverlap(s, resource)
  }

  ghost predicate InScope(scope: Scope, resource: string, mode: Mode) {
    !Meets(scope.deny, resource)
      && (if mode == Read then Meets(scope.readOnly, resource) else Meets(scope.write, resource))
  }

  /** Two active sessions of the repository in different worktrees. */
  predicate ProperPair(g: Registry, n: Normalized, source: HandoffSession, destination: HandoffSession) {
    && ListedAs(g, n.fromSessionId, source) && ListedAs(g, n.toSessionId, destination)
    && source.repositoryId == g.repositoryId && destination.repositoryId == g.repositoryId
    && source.worktreePath != destination.worktreePath
    && source.state == "active" && destination.state == "active"
  }

  /** The source holds exactly one claim on the resource, in its own worktree. */
  ghost predicate HoldsIt(g: Registry, n: Normalized, source: HandoffSession) {
    exists i :: HeldOnce(g, i, n.fromSessionId, n.resource)
      && g.claims[i].repositoryId == g.repositoryId && g.claims[i].worktreePath == source.worktreePath
  }

  ghost predicate MayTake(g: Registry, n: Normalized, destination: HandoffSession) {
    && NoOverlapOf(g, n.toSessionId, n.resource)
    && destination.maxScope.Some? && InScope(destination.maxScope.value, n.resource, n.mode)
  }

  ghost predicate MayPass(g: Registry, n: Normalized, source: HandoffSession, destination: HandoffSession) {
    ProperPair(g, n, source, destination) && HoldsIt(g, n, source) && MayTake(g, n, destination)
  }

  /** What it takes for a handoff to be allowed. */
  ghost predicate MayMove(g: Registry, n: Normalized) {
    && ValidRegistry(g) && Unrecorded(g, n.operationId) && g.claimSetGeneration == n.claimSetGeneration
    && exists source, destination :: MayPass(g, n, source, destination)
  }

  // ----- Finding what there is

  lemma FoundSession(g: Registry, id: string, s: HandoffSession)
    requires ValidSessions(g.sessions) && ListedAs(g, id, s)
    ensures FindSession(g.sessions, id) == Some(s)
  {
    var found := FindSession(g.sessions, id).value;
    var i :| 0 <= i < |g.sessions| && g.sessions[i] == found;
    var j :| 0 <= j < |g.sessions| && g.sessions[j] == s;
  }

  lemma FoundRecord(g: Registry, id: string, r: OperationRecord)
    requires ValidHistory(g.completed) && OnRecordAs(g, id, r)
    ensures FindRecord(g.completed, id) == Some(r)
  {
    var found := FindRecord(g.completed, id).value;
    var i :| 0 <= i < |g.completed| && g.completed[i] == found;
    var j :| 0 <= j < |g.completed| && g.completed[j] == r;
  }

  predicate HeldIn(claims: seq<Claim>, i: int, sessionId: string, resource: string) {
    0 <= i < |claims| && claims[i].sessionId == sessionId && claims[i].resource == resource
  }

  ghost predicate Twice(claims: seq<Claim>, sessionId: string, resource: string) {
    exists i, j :: i < j && HeldIn(claims, i, sessionId, resource) && HeldIn(claims, j, sessionId, resource)
  }

  lemma ExactlyNone(claims: seq<Claim>, sessionId: string, resource: string)
    ensures ExactClaims(claims, sessionId, resource) == [] <==>
      forall c :: c in claims ==> !(c.sessionId == sessionId && c.resource == resource)
  {
    var exact := ExactClaims(claims, sessionId, resource);
    if exact != [] { assert exact[0] in exact; }
  }

  lemma TwiceInTheRest(claims: seq<Claim>, sessionId: string, resource: string)
    requires claims != [] && Twice(claims[1..], sessionId, resource)
    ensures Twice(claims, sessionId, resource)
  {
    var rest := claims[1..];
    var i, j :| i < j && HeldIn(rest, i, sessionId, resource) && HeldIn(rest, j, sessionId, resource);
    assert HeldIn(claims, i + 1, sessionId, resource) && HeldIn(claims, j + 1, sessionId, resource);
  }

  lemma TwiceWithTheFirst(claims: seq<Claim>, sessionId: string, resource: string, c: Claim)
    requires claims != [] && HeldIn(claims, 0, sessionId, resource)
    requires c in claims[1..] && c.sessionId == sessionId && c.resource == resource
    ensures Twice(claims, sessionId, resource)
  {
    var k :| 0 <= k < |claims[1..]| && claims[1..][k] == c;
    assert HeldIn(claims, k + 1, sessionId, resource);
  }

  lemma TwiceSplits(claims: seq<Claim>, sessionId: string, resource: string)
    requires claims != [] && Twice(claims, sessionId, resource)
    ensures Twice(claims[1..], sessionId, resource)
      || (HeldIn(claims, 0, sessionId, resource) && ExactClaims(claims[1..], sessionId, resource) != [])
  {
    var rest := claims[1..];
    var i, j :| i < j && HeldIn(claims, i, sessionId, resource) && HeldIn(claims, j, sessionId, resource);
    assert rest[j - 1] == claims[j] && HeldIn(rest, j - 1, sessionId, resource);
    if i > 0 {
      assert HeldIn(rest, i - 1, sessionId, resource);
    } else {
      assert rest[j - 1] in ExactClaims(rest, sessionId, resource);
    }
  }

  lemma {:induction false} ExactlyTwo(claims: seq<Claim>, sessionId: string, resource: string)
    ensures |ExactClaims(claims, sessionId, resource)| > 1 <==> Twice(claims, sessionId, resource)
  {
    if claims != [] {
      var rest := ExactClaims(claims[1..], sessionId, resource);
      ExactlyTwo(claims[1..], sessionId, resource);
      if |ExactClaims(claims, sessionId, resource)| > 1 {
        if |rest| > 1 {
          TwiceInTheRest(claims, sessionId, resource);
        } else {
          assert rest[0] in rest;
          TwiceWithTheFirst(claims, sessionId, resource, rest[0]);
        }
      }
      if Twice(claims, sessionId, resource) { TwiceSplits(claims, sessionId, resource); }
    }
  }

  lemma HeldTwiceIsTwice(g: Registry, sessionId: string, resource: string)
    ensures HeldTwice(g, sessionId, resource) <==> Twice(g.claims, sessionId, resource)
  {
    if i, j :| i != j && HeldAt(g, i, sessionId, resource) && HeldAt(g, j, sessionId, resource) {
      assert HeldIn(g.claims, i, sessionId, resource) && HeldIn(g.claims, j, sessionId, resource);
      assert i < j || j < i;
    }
    if i, j :| i < j && HeldIn(g.claims, i, sessionId, resource) && HeldIn(g.claims, j, sessionId, resource) {
      assert HeldAt(g, i, sessionId, resource) && HeldAt(g, j, sessionId, resource);
    }
  }

  /** Looking for the exact claim finds none, the one, or too many. */
  lemma FoundExact(g: Registry, sessionId: string, resource: string)
    ensures var found := FindExact(g.claims, sessionId, resource);
      && (found.Err? <==> HeldTwice(g, sessionId, resource)) && (found.Err? ==> found.error == Corrupt)
      && (found == Ok(None) <==> HeldNever(g, sessionId, resource))
      && (found.Ok? && found.value.Some? ==>
            exists i :: HeldOnce(g, i, sessionId, resource) && g.claims[i] == found.value.value)
  {
    ExactlyNone(g.claims, sessionId, resource);
    ExactlyTwo(g.claims, sessionId, resource);
    HeldTwiceIsTwice(g, sessionId, resource);
    var exact := ExactClaims(g.claims, sessionId, resource);
    if |exact| == 1 {
      assert exact[0] in exact;
      var i :| 0 <= i < |g.claims| && g.claims[i] == exact[0];
      assert HeldAt(g, i, sessionId, resource);
    }
  }

  lemma HeldOnceIsHeld(g: Registry, i: int, sessionId: string, resource: string)
    requires HeldOnce(g, i, sessionId, resource)
    ensures FindExact(g.claims, sessionId, resource) == Ok(Some(g.claims[i]))
  {
    FoundExact(g, sessionId, resource);
    assert g.claims[i] in g.claims;
  }

  // ----- Which answer meets which offence

  /** The offences about the claims and the scope, the first one first; with none, the handoff is allowed. */
  ghost predicate AnswersClaims(g: Registry, n: Normalized, source: HandoffSession, destination: HandoffSession,
      v: Validation) {
    if HeldNever(g, n.fromSessionId, n.resource) then v.status == Blocked && v.code == NoClaim
    else if !HoldsIt(g, n, source) then v.status == Blocked && v.code == WrongWorktree
    else if !NoOverlapOf(g, n.toSessionId, n.resource) then v.status == Blocked && v.code == Conflict
    else if destination.maxScope == None || Meets(destination.maxScope.value.deny, n.resource) then
      v.status == Blocked && v.code == Rejected
    else if !InScope(destination.maxScope.value, n.resource, n.mode) then v.status == Blocked && v.code == OutOfScope
    else v.status == Allowed && v.code == HandoffAllowed
  }

  /** The offences about the sessions, the first one first. */
  ghost predicate AnswersSessions(g: Registry, n: Normalized, v: Validation) {
    if Unlisted(g, n.fromSessionId) || Unlisted(g, n.toSessionId) then v.status == Blocked && v.code == NoSession
    else
      forall source, destination :: ListedAs(g, n.fromSessionId, source) && ListedAs(g, n.toSessionId, destination) ==>
        if source.repositoryId != g.repositoryId || destination.repositoryId != g.repositoryId then
          v.status == Blocked && v.code == WrongRepository
        else if source.worktreePath == destination.worktreePath then v.status == Blocked && v.code == WrongWorktree
        else if source.state != "active" || destination.state != "active" then v.status == Blocked && v.code == Inactive
        else AnswersClaims(g, n, source, destination, v)
  }

  /** The record of completed operations comes first, then the generation. */
  ghost predicate AnswersAll(g: Registry, n: Normalized, v: Validation) {
    if Unrecorded(g, n.operationId) then
      if g.claimSetGeneration != n.claimSetGeneration then v.status == Blocked && v.code == Stale
      else AnswersSessions(g, n, v)
    else
      forall r :: OnRecordAs(g, n.operationId, r) ==>
        if && r.fromSessionId == n.fromSessionId && r.toSessionId == n.toSessionId
           && r.resource == n.resource && r.mode == n.mode
        then v.status == Idempotent && v.code == HandoffIdempotent
        else v.status == Blocked && v.code == Rejected
  }

  lemma ScopeMeans(destination: HandoffSession, resource: string, mode: Mode)
    ensures ScopeDenies(destination, resource) <==>
      destination.maxScope == None || Meets(destination.maxScope.value.deny, resource)
    ensures ScopeAdmits(destination, resource, mode) <==>
      destination.maxScope.Some? && InScope(destination.maxScope.value, resource, mode)
  {
  }

  lemma OverlapMeans(g: Registry, sessionId: string, c: Claim)
    ensures DestinationOverlaps(g, sessionId, c) <==> !NoOverlapOf(g, sessionId, c.resource)
  {
  }

  lemma HoldsMeans(g: Registry, n: Normalized, source: HandoffSession, c: Claim)
    requires FindExact(g.claims, n.fromSessionId, n.resource) == Ok(Some(c))
    ensures !HeldNever(g, n.fromSessionId, n.resource) && c.resource == n.resource
    ensures HoldsIt(g, n, source) <==> c.repositoryId == g.repositoryId && c.worktreePath == source.worktreePath
  {
    FoundExact(g, n.fromSessionId, n.resource);
    var i :| HeldOnce(g, i, n.fromSessionId, n.resource) && g.claims[i] == c;
    assert c in g.claims;
    forall j | HeldOnce(g, j, n.fromSessionId, n.resource) ensures j == i {
    }
  }

  lemma ClaimsAreAnswered(g: Registry, n: Normalized, source: HandoffSession, destination: HandoffSession)
    requires ValidateClaims(g, n, source, destination).Ok?
    ensures AnswersClaims(g, n, source, destination, ValidateClaims(g, n, source, destination).value)
  {
    FoundExact(g, n.fromSessionId, n.resource);
    var found := FindExact(g.claims, n.fromSessionId, n.resource);
    if found.value.Some? {
      HoldsMeans(g, n, source, found.value.value);
      OverlapMeans(g, n.toSessionId, found.value.value);
      ScopeMeans(destination, n.resource, n.mode);
    }
  }

  /** The verdict on a new operation at the expected generation, when a session is missing. */
  lemma UnlistedIsAnswered(g: Registry, n: Normalized)
    requires ValidRegistry(g) && FindRecord(g.completed, n.operationId) == None
    requires n.claimSetGeneration == g.claimSetGeneration
    requires FindSession(g.sessions, n.fromSessionId) == None || FindSession(g.sessions, n.toSessionId) == None
    ensures Validate(g, n) == Verdict(Blocked, NoSession, g, None, None)
    ensures Unlisted(g, n.fromSessionId) || Unlisted(g, n.toSessionId)
  {
  }

  /** The same when both are there. */
  ghost predicate AnswersPair(
    g: Registry, n: Normalized, source: HandoffSession, destination: HandoffSession, r: Result<Validation, Code>)
  {
    if source.repositoryId != g.repositoryId || destination.repositoryId != g.repositoryId then
      r == Verdict(Blocked, WrongRepository, g, None, None)
    else if source.worktreePath == destination.worktreePath then r == Verdict(Blocked, WrongWorktree, g, None, None)
    else if source.state != "active" || destination.state != "active" then
      r == Verdict(Blocked, Inactive, g, None, None)
    else r == ValidateClaims(g, n, source, destination)
  }

  lemma ListedIsAnswered(g: Registry, n: Normalized, source: HandoffSession, destination: HandoffSession)
    requires ValidRegistry(g) && FindRecord(g.completed, n.operationId) == None
    requires n.claimSetGeneration == g.claimSetGeneration
    requires FindSession(g.sessions, n.fromSessionId) == Some(source)
    requires FindSession(g.sessions, n.toSessionId) == Some(destination)
    ensures AnswersPair(g, n, source, destination, Validate(g, n))
  {
  }

  lemma PairIsAnswered(g: Registry, n: Normalized, source: HandoffSession, destination: HandoffSession, v: Validation)
    requires AnswersPair(g, n, source, destination, Ok(v))
    requires ListedAs(g, n.fromSessionId, source) && ListedAs(g, n.toSessionId, destination)
      && ValidSessions(g.sessions)
    ensures AnswersSessions(g, n, v)
  {
    forall s, d | ListedAs(g, n.fromSessionId, s) && ListedAs(g, n.toSessionId, d)
      ensures s == source && d == destination
    {
      FoundSession(g, n.fromSessionId, s);
      FoundSession(g, n.fromSessionId, source);
      FoundSession(g, n.toSessionId, d);
      FoundSession(g, n.toSessionId, destination);
    }
    if ValidateClaims(g, n, source, destination) == Ok(v) { ClaimsAreAnswered(g, n, source, destination); }
  }

  lemma SessionsAreAnswered(g: Registry, n: Normalized)
    requires ValidRegistry(g) && FindRecord(g.completed, n.operationId) == None
    requires n.claimSetGeneration == g.claimSetGeneration && Validate(g, n).Ok?
    ensures AnswersSessions(g, n, Validate(g, n).value)
  {
    var source, destination := FindSession(g.sessions, n.fromSessionId), FindSession(g.sessions, n.toSessionId);
    if source == None || destination == None {
      UnlistedIsAnswered(g, n);
    } else {
      ListedIsAnswered(g, n, source.value, destination.value);
      PairIsAnswered(g, n, source.value, destination.value, Validate(g, n).value);
    }
  }

  /** A believed registry is answered with the verdict of its first offence. */
  lemma OffencesAreInOrder(g: Registry, n: Normalized)
    requires ValidRegistry(g) && Validate(g, n).Ok?
    ensures AnswersAll(g, n, Validate(g, n).value)
  {
    var record := FindRecord(g.completed, n.operationId);
    if record == None {
      if n.claimSetGeneration == g.claimSetGeneration { SessionsAreAnswered(g, n); }
    } else {
      assert OnRecordAs(g, n.operationId, record.value);
      forall r | OnRecordAs(g, n.operationId, r) ensures r == record.value {
        FoundRecord(g, n.operationId, r);
      }
    }
  }

  lemma ClaimErrors(g: Registry, n: Normalized, source: HandoffSession, destination: HandoffSession)
    requires ValidateClaims(g, n, source, destination).Err?
    ensures ValidateClaims(g, n, source, destination).error == Corrupt
    ensures HeldTwice(g, n.fromSessionId, n.resource) || HeldTwice(g, n.toSessionId, n.resource)
  {
    FoundExact(g, n.fromSessionId, n.resource);
    FoundExact(g, n.toSessionId, n.resource);
  }

  lemma NewErrors(g: Registry, n: Normalized)
    requires ValidRegistry(g) && FindRecord(g.completed, n.operationId) == None
    requires n.claimSetGeneration == g.claimSetGeneration && Validate(g, n).Err?
    ensures Validate(g, n).error == Corrupt
    ensures HeldTwice(g, n.fromSessionId, n.resource) || HeldTwice(g, n.toSessionId, n.resource)
  {
    var source, destination := FindSession(g.sessions, n.fromSessionId), FindSession(g.sessions, n.toSessionId);
    if source == None || destination == None {
      UnlistedIsAnswered(g, n);
    } else {
      ListedIsAnswered(g, n, source.value, destination.value);
      ClaimErrors(g, n, source.value, destination.value);
    }
  }

  lemma RecordedErrors(g: Registry, n: Normalized)
    requires ValidRegistry(g) && FindRecord(g.completed, n.operationId).Some? && Validate(g, n).Err?
    ensures Validate(g, n).error == Corrupt
    ensures HeldTwice(g, n.fromSessionId, n.resource) || HeldTwice(g, n.toSessionId, n.resource)
  {
    FoundExact(g, n.fromSessionId, n.resource);
    FoundExact(g, n.toSessionId, n.resource);
  }

  /** The only error is a corrupt registry: one that is not believed, or that lists the source's or the
      destination's claim twice. */
  lemma ErrorsAreCorruption(g: Registry, n: Normalized)
    requires Validate(g, n).Err?
    ensures Validate(g, n).error == Corrupt
    ensures !ValidRegistry(g) || HeldTwice(g, n.fromSessionId, n.resource) || HeldTwice(g, n.toSessionId, n.resource)
  {
    if ValidRegistry(g) {
      if FindRecord(g.completed, n.operationId).Some? {
        RecordedErrors(g, n);
      } else if n.claimSetGeneration == g.claimSetGeneration {
        NewErrors(g, n);
      }
    }
  }

  // ----- Exactly when

  lemma AllowedIsNew(g: Registry, n: Normalized)
    requires Allows(g, n)
    ensures ValidRegistry(g) && FindRecord(g.completed, n.operationId) == None
      && n.claimSetGeneration == g.claimSetGeneration
  {
  }

  lemma NoneRecorded(g: Registry, id: string)
    requires FindRecord(g.completed, id) == None
    ensures Unrecorded(g, id)
  {
  }

  /** An answer that allows meets no offence. */
  lemma AllowingAnswer(g: Registry, n: Normalized, v: Validation)
    returns (source: HandoffSession, destination: HandoffSession)
    requires AnswersSessions(g, n, v) && v.status == Allowed
    ensures ProperPair(g, n, source, destination) && AnswersClaims(g, n, source, destination, v)
  {
    source :| ListedAs(g, n.fromSessionId, source);
    destination :| ListedAs(g, n.toSessionId, destination);
  }

  lemma AllowingClaims(g: Registry, n: Normalized, source: HandoffSession, destination: HandoffSession, v: Validation)
    requires AnswersClaims(g, n, source, destination, v) && v.status == Allowed
    ensures HoldsIt(g, n, source) && MayTake(g, n, destination)
  {
  }

  lemma AllowedMayMove(g: Registry, n: Normalized)
    requires Allows(g, n)
    ensures MayMove(g, n)
  {
    var v := Validate(g, n).value;
    AllowedIsNew(g, n);
    NoneRecorded(g, n.operationId);
    SessionsAreAnswered(g, n);
    var source, destination := AllowingAnswer(g, n, v);
    AllowingClaims(g, n, source, destination, v);
    PairMayMove(g, n, source, destination);
  }

  lemma PairMayMove(g: Registry, n: Normalized, source: HandoffSession, destination: HandoffSession)
    requires ValidRegistry(g) && Unrecorded(g, n.operationId) && g.claimSetGeneration == n.claimSetGeneration
    requires ProperPair(g, n, source, destination) && HoldsIt(g, n, source) && MayTake(g, n, destination)
    ensures MayMove(g, n)
  {
    assert MayPass(g, n, source, destination);
  }

  lemma NoneHeldTwice(g: Registry, n: Normalized, source: HandoffSession)
    requires HoldsIt(g, n, source) && NoOverlapOf(g, n.toSessionId, n.resource) && IsCanonical(n.resource)
    ensures !HeldTwice(g, n.fromSessionId, n.resource) && !HeldTwice(g, n.toSessionId, n.resource)
  {
    NothingOverlappingHeld(g, n.toSessionId, n.resource);
    FoundExact(g, n.toSessionId, n.resource);
  }

  lemma NothingOverlappingHeld(g: Registry, sessionId: string, resource: string)
    requires NoOverlapOf(g, sessionId, resource) && IsCanonical(resource)
    ensures HeldNever(g, sessionId, resource)
  {
    OverlapIsReflexive(resource);
  }

  /** A resource that is held in a believed registry is canonical. */
  lemma HeldIsCanonical(g: Registry, n: Normalized, source: HandoffSession)
    requires ValidRegistry(g) && HoldsIt(g, n, source)
    ensures IsCanonical(n.resource)
  {
    var i :| HeldOnce(g, i, n.fromSessionId, n.resource);
    assert OwnedAndCanonical(g.claims[i], g);
  }

  lemma MayMoveIsAllowed(g: Registry, n: Normalized)
    requires MayMove(g, n)
    ensures Allows(g, n)
  {
    var source, destination :| MayPass(g, n, source, destination);
    HeldIsCanonical(g, n, source);
    NoneHeldTwice(g, n, source);
    if Validate(g, n).Err? { ErrorsAreCorruption(g, n); }
    OffencesAreInOrder(g, n);
    assert AnswersClaims(g, n, source, destination, Validate(g, n).value);
    var i :| HeldOnce(g, i, n.fromSessionId, n.resource);
    assert g.claims[i] in g.claims;
  }

  /** A handoff is allowed if and only if the registry is believed, the operation is new, the generation
      is the expected one, both sessions are active ones of the repository in different worktrees, the
      source holds exactly one claim on the resource in its own worktree, no claim of the destination
      overlaps it, and the destination's scope admits the mode there and denies nothing. */
  lemma AllowedIff(g: Registry, n: Normalized)
    ensures Allows(g, n) <==> MayMove(g, n)
  {
    if Allows(g, n) { AllowedMayMove(g, n); }
    if MayMove(g, n) { MayMoveIsAllowed(g, n); }
  }

  // ----- The commit

  /** The session is listed as the client read it. */
  ghost predicate Unmoved(snapshot: Registry, g: Registry, id: string) {
    exists was, now :: ListedAs(snapshot, id, was) && ListedAs(g, id, now) && StandsAs(was, now)
  }

  predicate StandsAs(was: HandoffSession, now: HandoffSession) {
    was.repositoryId == now.repositoryId && was.worktreePath == now.worktreePath && was.state == now.state
  }

  lemma SameMeansUnmoved(snapshot: Registry, g: Registry, id: string)
    requires ValidSessions(snapshot.sessions) && ValidSessions(g.sessions)
    ensures SameSession(snapshot, g, id) <==> Unmoved(snapshot, g, id)
  {
    if was, now :| ListedAs(snapshot, id, was) && ListedAs(g, id, now) && StandsAs(was, now) {
      FoundSession(snapshot, id, was);
      FoundSession(g, id, now);
    }
    if SameSession(snapshot, g, id) {
      var was, now := FindSession(snapshot.sessions, id).value, FindSession(g.sessions, id).value;
      assert ListedAs(snapshot, id, was) && ListedAs(g, id, now);
    }
  }

  /** The claims after the move may stand together and their generation can be counted. */
  ghost predicate MayStand(g: Registry, source: Claim, destination: Claim, facts: FactSource) {
    AcceptableClaims(g.sessions, NextClaims(g, source, destination), facts) && g.claimSetGeneration < MAX_SAFE_INTEGER
  }

  predicate TransfersOk(committed: Result<(CommitResult, Registry), Code>) {
    committed.Ok? && committed.value.0.status == Transferred
  }

  lemma WritesIff(g: Registry, n: Normalized, source: Claim, timestamp: string, facts: FactSource)
    ensures TransfersOk(WriteTransfer(g, n, source, timestamp, facts)) <==>
      MayStand(g, source, DestinationClaim(g, n, timestamp), facts)
  {
  }

  lemma TransferNeeds(g: Registry, input: CommitInput, timestamp: string, facts: FactSource)
    requires TransfersOk(CommitHandoff(g, input, timestamp, facts))
    ensures g.claimSetGeneration == input.snapshot.claimSetGeneration && Allows(g, input.normalized)
    ensures SameSession(input.snapshot, g, input.normalized.fromSessionId)
    ensures SameSession(input.snapshot, g, input.normalized.toSessionId)
  {
  }

  /** At the generation that was read, the commit transfers if and only if the handoff is allowed still, both
      sessions are as they were read, and the claims after the move may stand together. */
  lemma TransfersIff(g: Registry, input: CommitInput, timestamp: string, facts: FactSource, source: Claim)
    requires ValidSessions(input.snapshot.sessions)
    requires ExactClaims(g.claims, input.normalized.fromSessionId, input.normalized.resource) == [source]
    ensures var n := input.normalized; TransfersOk(CommitHandoff(g, input, timestamp, facts)) <==>
      && g.claimSetGeneration == input.snapshot.claimSetGeneration && MayMove(g, n)
      && Unmoved(input.snapshot, g, n.fromSessionId) && Unmoved(input.snapshot, g, n.toSessionId)
      && MayStand(g, source, DestinationClaim(g, n, timestamp), facts)
  {
    var n := input.normalized;
    AllowedIff(g, n);
    WritesIff(g, n, source, timestamp, facts);
    if TransfersOk(CommitHandoff(g, input, timestamp, facts)) { TransferNeeds(g, input, timestamp, facts); }
    if Allows(g, n) {
      var held := AllowedMeans(g, n);
      SameMeansUnmoved(input.snapshot, g, n.fromSessionId);
      SameMeansUnmoved(input.snapshot, g, n.toSessionId);
      if SameSession(input.snapshot, g, n.fromSessionId) && SameSession(input.snapshot, g, n.toSessionId)
          && g.claimSetGeneration == input.snapshot.claimSetGeneration {
        AllowedCommit(g, input, timestamp, facts, Validate(g, n).value, source);
      }
    }
  }
}
