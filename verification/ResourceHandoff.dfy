/** Handing one exact claim from one session to another: options, snapshots and validation. */
module ResourceHandoff {
  import opened Resources
  import opened ResourceClaims
  import opened Wrappers
  import Identities

  const HANDOFF_SCHEMA_VERSION := 1
  const MAX_OPERATION_ID_LENGTH := 128
  const MAX_SESSION_ID_LENGTH := 256
  const MAX_RESOURCE_LENGTH := 4096
  const MAX_SCOPE_ENTRIES := 2048
  const MAX_SCOPE_SELECTOR_LENGTH := 1024

  datatype Code =
    | HandoffAllowed | HandoffIdempotent | BadOperation | BadResource | Rejected | NoSession | Inactive
    | WrongRepository | WrongWorktree | Stale | NoClaim | Conflict | Corrupt | OutOfScope
    | Unobservable | DurabilityUncertain

  datatype Options = Options(
    fromSessionId: string, toSessionId: string, resource: string, mode: Mode, ifGeneration: int,
    operationId: Option<string>)

  datatype Normalized = Normalized(
    fromSessionId: string, toSessionId: string, resource: string, mode: Mode, claimSetGeneration: int,
    operationId: string)

  datatype Scope = Scope(readOnly: seq<string>, write: seq<string>, create: seq<string>, delete: seq<string>,
      deny: seq<string>)

  datatype HandoffSession = HandoffSession(
    sessionId: string, repositoryId: string, worktreePath: string, state: string, maxScope: Option<Scope>)

  datatype OperationRecord = OperationRecord(
    operationId: string, fromSessionId: string, toSessionId: string, resource: string, mode: Mode,
    claimSetGeneration: int)

  datatype Registry = Registry(
    repositoryId: string, claimSetGeneration: int, sessions: seq<HandoffSession>, claims: seq<Claim>,
    completed: seq<OperationRecord>)

  datatype ValidationStatus = Allowed | Idempotent | Blocked

  datatype Validation = Validation(
    status: ValidationStatus, code: Code, claimSetGeneration: int, sourceClaim: Option<Claim>,
    destinationClaim: Option<Claim>)

  /** The digest behind a derived operation identifier. */
  type Digest = string -> string

  predicate IsControl(c: char) {
    c < ' ' || c == '\U{7f}'
  }

  predicate BoundedText(s: string, max: nat) {
    0 < |s| <= max && forall k :: 0 <= k < |s| ==> !IsControl(s[k])
  }

  predicate SafeInteger(n: int) {
    0 <= n <= MAX_SAFE_INTEGER
  }

  // ----- Options

  function CanonicalOperationId(o: Options, digest: Digest): string {
    "handoff-" + digest(Identities.LengthPrefixed([o.fromSessionId, o.toSessionId, o.resource, o.mode.Name()]))
  }

  function NormalizeOptions(o: Options, digest: Digest): Result<Normalized, Code> {
    if !BoundedText(o.fromSessionId, MAX_SESSION_ID_LENGTH) || !BoundedText(o.toSessionId, MAX_SESSION_ID_LENGTH) then
      Err(BadOperation)
    else if o.fromSessionId == o.toSessionId then Err(BadOperation)
    else if !SafeInteger(o.ifGeneration) then Err(BadOperation)
    else if o.resource == "" || |o.resource| > MAX_RESOURCE_LENGTH then Err(BadResource)
    else if !WildcardFree(o.resource) then Err(BadResource)
    else if !IsCanonical(o.resource) then Err(BadResource)
    else
      var id := if o.operationId.Some? then o.operationId.value else CanonicalOperationId(o, digest);
      if !BoundedText(id, MAX_OPERATION_ID_LENGTH) then Err(BadOperation)
      else Ok(Normalized(o.fromSessionId, o.toSessionId, o.resource, o.mode, o.ifGeneration, id))
  }

  /** What normalization guarantees of a request. */
  predicate WellFormed(n: Normalized) {
    n.fromSessionId != n.toSessionId && IsCanonical(n.resource) && WildcardFree(n.resource)
  }

  lemma NormalizedIsWellFormed(o: Options, digest: Digest)
    requires NormalizeOptions(o, digest).Ok?
    ensures WellFormed(NormalizeOptions(o, digest).value)
  {
  }

  // ----- Snapshots

  predicate IsAbsolutePath(p: string) {
    p != "" && p[0] == '/' && '\0' !in p
    && (p == "/" || forall s :: s in Segments(p[1..]) ==> s != "" && s != "." && s != "..")
  }

  predicate IsSelectorChar(c: char) {
    'A' <= c <= 'Z' || 'a' <= c <= 'z' || '0' <= c <= '9' || c in "_.*?/@+:-"
  }

  predicate DoubleSlash(s: string) {
    exists k :: 0 <= k < |s| - 1 && s[k] == '/' && s[k + 1] == '/'
  }

  /** `isCanonicalScopeSelector`: allowed characters, not absolute, no leading dot segment. It is
      weaker than being canonical as a resource. */
  predicate IsScopeSelector(s: string) {
    && 0 < |s| <= MAX_SCOPE_SELECTOR_LENGTH && (forall k :: 0 <= k < |s| ==> IsSelectorChar(s[k]))
    && s[0] != '/' && !(|s| >= 2 && IsLetter(s[0]) && s[1] == ':')
    && !("./" <= s) && !("../" <= s) && !DoubleSlash(s)
  }

  predicate ValidSelectors(selectors: seq<string>) {
    && |selectors| <= MAX_SCOPE_ENTRIES && (forall s :: s in selectors ==> IsScopeSelector(s))
    && forall i, j :: 0 <= i < j < |selectors| ==> selectors[i] != selectors[j]
  }

  predicate ValidScope(scope: Option<Scope>) {
    scope.Some? ==>
      && ValidSelectors(scope.value.readOnly) && ValidSelectors(scope.value.write)
      && ValidSelectors(scope.value.create) && ValidSelectors(scope.value.delete) && ValidSelectors(scope.value.deny)
  }

  predicate ValidSession(s: HandoffSession) {
    && BoundedText(s.sessionId, MAX_SESSION_ID_LENGTH) && BoundedText(s.repositoryId, MAX_SESSION_ID_LENGTH)
    && IsAbsolutePath(s.worktreePath) && BoundedText(s.state, MAX_SESSION_ID_LENGTH) && ValidScope(s.maxScope)
  }

  predicate CanonicalSharing(sharing: Option<Sharing>, mode: Mode) {
    sharing.Some? ==>
      mode == Write && sharing.value.kind == ISOLATED_WORKTREE
        && BoundedText(sharing.value.groupId, MAX_GROUP_ID_LENGTH)
  }

  /** A claim that is canonical in itself and belongs to its owner and repository. */
  predicate CanonicalClaimOf(c: Claim, repositoryId: string, owner: HandoffSession) {
    && BoundedText(c.sessionId, MAX_SESSION_ID_LENGTH) && BoundedText(c.repositoryId, MAX_SESSION_ID_LENGTH)
    && IsAbsolutePath(c.worktreePath) && BoundedText(c.resource, MAX_RESOURCE_LENGTH)
    && c.repositoryId == repositoryId && owner.repositoryId == repositoryId
    && c.sessionId == owner.sessionId && c.worktreePath == owner.worktreePath
    && CanonicalSharing(c.sharing, c.mode) && IsCanonical(c.resource)
    && c.claimId == CanonicalClaimId(c.sessionId, c.resource, c.mode, c.sharing)
  }

  function FindSession(sessions: seq<HandoffSession>, id: string): (found: Option<HandoffSession>)
    ensures found.Some? ==> found.value in sessions && found.value.sessionId == id
    ensures found == None ==> forall s :: s in sessions ==> s.sessionId != id
  {
    if sessions == [] then None
    else if sessions[0].sessionId == id then Some(sessions[0])
    else FindSession(sessions[1..], id)
  }

  predicate ValidOperation(r: OperationRecord) {
    && BoundedText(r.operationId, MAX_OPERATION_ID_LENGTH) && BoundedText(r.fromSessionId, MAX_SESSION_ID_LENGTH)
    && BoundedText(r.toSessionId, MAX_SESSION_ID_LENGTH) && BoundedText(r.resource, MAX_RESOURCE_LENGTH)
    && SafeInteger(r.claimSetGeneration)
  }

  predicate OwnedAndCanonical(c: Claim, g: Registry) {
    var owner := FindSession(g.sessions, c.sessionId);
    owner.Some? && CanonicalClaimOf(c, g.repositoryId, owner.value)
  }

  predicate ValidSessions(sessions: seq<HandoffSession>) {
    && (forall s :: s in sessions ==> ValidSession(s))
    && (forall i, j :: 0 <= i < j < |sessions| ==> sessions[i].sessionId != sessions[j].sessionId)
  }

  predicate ValidClaims(g: Registry) {
    && (forall c :: c in g.claims ==> OwnedAndCanonical(c, g))
    && (forall i, j :: 0 <= i < j < |g.claims| ==> g.claims[i].claimId != g.claims[j].claimId)
  }

  predicate ValidHistory(completed: seq<OperationRecord>) {
    && (forall r :: r in completed ==> ValidOperation(r))
    && (forall i, j :: 0 <= i < j < |completed| ==> completed[i].operationId != completed[j].operationId)
  }

  /** What a snapshot must be to be believed. */
  predicate ValidRegistry(g: Registry) {
    && g.repositoryId != "" && SafeInteger(g.claimSetGeneration)
    && ValidSessions(g.sessions) && ValidClaims(g) && ValidHistory(g.completed)
  }

  method CheckSessions(sessions: seq<HandoffSession>) returns (valid: bool)
    ensures valid == ValidSessions(sessions)
  {
    var ids: set<string> := {};
    for i := 0 to |sessions|
      invariant forall k :: 0 <= k < i ==> ValidSession(sessions[k]) && sessions[k].sessionId in ids
      invariant forall k, l :: 0 <= k < l < i ==> sessions[k].sessionId != sessions[l].sessionId
      invariant forall id :: id in ids ==> exists k :: 0 <= k < i && sessions[k].sessionId == id
    {
      if !ValidSession(sessions[i]) { return false; }
      if sessions[i].sessionId in ids { return false; }
      ids := ids + {sessions[i].sessionId};
    }
    return true;
  }

  predicate OwnedTo(g: Registry, i: nat)
    requires i <= |g.claims|
  {
    forall k :: 0 <= k < i ==> OwnedAndCanonical(g.claims[k], g)
  }

  predicate FreshIdsTo(claims: seq<Claim>, i: nat, ids: set<string>)
    requires i <= |claims|
  {
    && (forall k, l :: 0 <= k < l < i ==> claims[k].claimId != claims[l].claimId)
    && ids == set k | 0 <= k < i :: claims[k].claimId
  }

  lemma OneMoreId(claims: seq<Claim>, i: nat, ids: set<string>)
    requires i < |claims| && FreshIdsTo(claims, i, ids) && claims[i].claimId !in ids
    ensures FreshIdsTo(claims, i + 1, ids + {claims[i].claimId})
  {
    forall k, l | 0 <= k < l < i + 1 ensures claims[k].claimId != claims[l].claimId {
      if l == i { assert claims[k].claimId in ids; }
    }
  }

  lemma RepeatedId(g: Registry, i: nat, ids: set<string>)
    requires i < |g.claims| && FreshIdsTo(g.claims, i, ids) && g.claims[i].claimId in ids
    ensures !ValidClaims(g)
  {
    var k :| 0 <= k < i && g.claims[k].claimId == g.claims[i].claimId;
  }

  method CheckClaims(g: Registry) returns (valid: bool)
    ensures valid == ValidClaims(g)
  {
    var ids: set<string> := {};
    for i := 0 to |g.claims|
      invariant OwnedTo(g, i) && FreshIdsTo(g.claims, i, ids)
    {
      var owned := OwnedAndCanonical(g.claims[i], g);
      if !owned {
        assert g.claims[i] in g.claims;
        return false;
      }
      if g.claims[i].claimId in ids {
        RepeatedId(g, i, ids);
        return false;
      }
      OneMoreId(g.claims, i, ids);
      ids := ids + {g.claims[i].claimId};
    }
    return true;
  }

  method CheckHistory(completed: seq<OperationRecord>) returns (valid: bool)
    ensures valid == ValidHistory(completed)
  {
    var ids: set<string> := {};
    for i := 0 to |completed|
      invariant forall k :: 0 <= k < i ==> ValidOperation(completed[k]) && completed[k].operationId in ids
      invariant forall k, l :: 0 <= k < l < i ==> completed[k].operationId != completed[l].operationId
      invariant forall id :: id in ids ==> exists k :: 0 <= k < i && completed[k].operationId == id
    {
      if !ValidOperation(completed[i]) || completed[i].operationId in ids { return false; }
      ids := ids + {completed[i].operationId};
    }
    return true;
  }

  /** `assertSnapshot`: sets filled while the lists are walked, stopping at the first offence. */
  method AssertSnapshot(g: Registry) returns (valid: bool)
    ensures valid == ValidRegistry(g)
  {
    if g.repositoryId == "" || !SafeInteger(g.claimSetGeneration) { return false; }
    var sessions := CheckSessions(g.sessions);
    if !sessions { return false; }
    var claims := CheckClaims(g);
    if !claims { return false; }
    valid := CheckHistory(g.completed);
  }

  // ----- Validation

  function FindRecord(records: seq<OperationRecord>, id: string): (found: Option<OperationRecord>)
    ensures found.Some? ==> found.value in records && found.value.operationId == id
    ensures found == None ==> forall r :: r in records ==> r.operationId != id
  {
    if records == [] then None
    else if records[0].operationId == id then Some(records[0])
    else FindRecord(records[1..], id)
  }

  predicate SameOperation(r: OperationRecord, n: Normalized) {
    r.fromSessionId == n.fromSessionId && r.toSessionId == n.toSessionId && r.resource == n.resource && r.mode == n.mode
  }

  function ExactClaims(claims: seq<Claim>, sessionId: string, resource: string): (exact: seq<Claim>)
    ensures forall c :: c in exact <==> c in claims && c.sessionId == sessionId && c.resource == resource
  {
    if claims == [] then []
    else
      (if claims[0].sessionId == sessionId && claims[0].resource == resource then [claims[0]] else [])
      + ExactClaims(claims[1..], sessionId, resource)
  }

  /** The exact claim; two of them make the snapshot corrupt. */
  function FindExact(claims: seq<Claim>, sessionId: string, resource: string): Result<Option<Claim>, Code> {
    var exact := ExactClaims(claims, sessionId, resource);
    if |exact| > 1 then Err(Corrupt) else Ok(if exact == [] then None else Some(exact[0]))
  }

  ghost predicate ScopeAdmits(destination: HandoffSession, resource: string, mode: Mode) {
    && destination.maxScope.Some?
    && (forall s :: s in destination.maxScope.value.deny ==> !ResourcesOverlap(s, resource))
    && exists s :: s in (if mode == Read then destination.maxScope.value.readOnly else destination.maxScope.value.write)
         && ResourcesOverlap(s, resource)
  }

  ghost predicate ScopeDenies(destination: HandoffSession, resource: string) {
    destination.maxScope == None || exists s :: s in destination.maxScope.value.deny && ResourcesOverlap(s, resource)
  }

  function Verdict(status: ValidationStatus, code: Code, g: Registry, source: Option<Claim>, destination: Option<Claim>)
    : Result<Validation, Code>
  {
    Ok(Validation(status, code, g.claimSetGeneration, source, destination))
  }

  ghost predicate DestinationOverlaps(g: Registry, sessionId: string, c: Claim) {
    exists d :: d in g.claims && d.sessionId == sessionId && ClaimsMeet(d, c)
  }

  /** `validateResourceHandoff` on a normalized request and a believed snapshot. */
  ghost function Validate(g: Registry, n: Normalized): Result<Validation, Code> {
    if !ValidRegistry(g) then Err(Corrupt) else
    match FindRecord(g.completed, n.operationId)
    case Some(record) =>
      if !SameOperation(record, n) then Verdict(Blocked, Rejected, g, None, None)
      else
        var source :- FindExact(g.claims, n.fromSessionId, n.resource);
        var destination :- FindExact(g.claims, n.toSessionId, n.resource);
        Verdict(Idempotent, HandoffIdempotent, g, source, destination)
    case None =>
    if n.claimSetGeneration != g.claimSetGeneration then Verdict(Blocked, Stale, g, None, None) else
    match (FindSession(g.sessions, n.fromSessionId), FindSession(g.sessions, n.toSessionId))
    case (Some(source), Some(destination)) =>
      if source.repositoryId != g.repositoryId || destination.repositoryId != g.repositoryId then
        Verdict(Blocked, WrongRepository, g, None, None)
      else if source.worktreePath == destination.worktreePath then Verdict(Blocked, WrongWorktree, g, None, None)
      else if source.state != "active" || destination.state != "active" then Verdict(Blocked, Inactive, g, None, None)
      else ValidateClaims(g, n, source, destination)
    case _ => Verdict(Blocked, NoSession, g, None, None)
  }

  ghost function ValidateClaims(g: Registry, n: Normalized, source: HandoffSession, destination: HandoffSession)
    : Result<Validation, Code>
  {
    var sourceClaim :- FindExact(g.claims, n.fromSessionId, n.resource);
    if sourceClaim == None then
      var destinationClaim :- FindExact(g.claims, n.toSessionId, n.resource);
      Verdict(Blocked, NoClaim, g, None, destinationClaim)
    else if sourceClaim.value.repositoryId != g.repositoryId
      || sourceClaim.value.worktreePath != source.worktreePath then
      Verdict(Blocked, WrongWorktree, g, sourceClaim, None)
    else
      var destinationClaim :- FindExact(g.claims, n.toSessionId, n.resource);
      if DestinationOverlaps(g, n.toSessionId, sourceClaim.value) then
        Verdict(Blocked, Conflict, g, sourceClaim, destinationClaim)
      else if ScopeDenies(destination, n.resource) then Verdict(Blocked, Rejected, g, sourceClaim, None)
      else if !ScopeAdmits(destination, n.resource, n.mode) then Verdict(Blocked, OutOfScope, g, sourceClaim, None)
      else Verdict(Allowed, HandoffAllowed, g, sourceClaim, None)
  }
}
