/** Authorizing one operation of one session on concrete paths against the claim set. */
module Authorization {
  import opened CoordinationTransactions
  import opened ResourceClaims
  import opened Resources
  import opened Wrappers

  const CHECKPOINT_MAX_PATHS := 4096

  datatype DenialCode =
    | UnknownOperation | UnusableResource | NoSession | InactiveSession
    | MissingClaim | InsufficientMode | ConflictingClaim

  datatype AuthorizedResource = AuthorizedResource(resource: string, claimIds: seq<string>)

  datatype Decision =
    | Allowed(access: Mode, resources: seq<AuthorizedResource>)
    | Denied(code: DenialCode, required: Option<Mode>)

  /** The access an operation of the vocabulary needs. */
  function RequiredAccess(operation: string): Option<Mode> {
    if operation in {"source-write", "stage"} then Some(Write)
    else if operation in {"commit", "branch-mutation", "push", "cleanup"} then Some(ExclusiveWrite)
    else None
  }

  function CanonicalizePaths(resources: seq<string>): Option<seq<string>> {
    if resources == [] then Some([])
    else
      match CanonicalizeResource(resources[0])
      case Err(_) => None
      case Ok(first) =>
        match CanonicalizePaths(resources[1..])
        case None => None
        case Some(rest) => Some([first] + rest)
  }

  lemma {:induction false} CanonicalPathsAreAsGiven(resources: seq<string>)
    requires CanonicalizePaths(resources).Some?
    ensures CanonicalizePaths(resources) == Some(resources)
    ensures forall r :: r in resources ==> IsCanonical(r)
  {
    if resources != [] {
      CanonicalizationIsIdentity(resources[0]);
      CanonicalPathsAreAsGiven(resources[1..]);
      assert resources == [resources[0]] + resources[1..];
    }
  }

  ghost function Matching(own: seq<Claim>, resource: string): (m: seq<Claim>)
    ensures forall c :: c in m <==> c in own && ResourcesOverlap(c.resource, resource)
  {
    if own == [] then []
    else (if ResourcesOverlap(own[0].resource, resource) then [own[0]] else []) + Matching(own[1..], resource)
  }

  function Granting(matching: seq<Claim>, access: Mode): (g: seq<Claim>)
    ensures forall c :: c in g <==> c in matching && GrantsAccess(c.mode, access)
  {
    if matching == [] then []
    else (if GrantsAccess(matching[0].mode, access) then [matching[0]] else []) + Granting(matching[1..], access)
  }

  function ClaimIds(claims: seq<Claim>): seq<string> {
    if claims == [] then [] else [claims[0].claimId] + ClaimIds(claims[1..])
  }

  ghost predicate BlocksAccess(e: Claim, resource: string, access: Mode) {
    ResourcesOverlap(e.resource, resource) && !Compatible(e.mode, access)
  }

  /** The decision on one path; only the first granting claim is held against the other sessions. */
  ghost function AuthorizePath(own: seq<Claim>, external: seq<Claim>, resource: string, access: Mode, facts: FactSource)
    : Result<AuthorizedResource, DenialCode>
  {
    var matching := Matching(own, resource);
    var granting := Granting(matching, access);
    if granting == [] then
      if exists e :: e in external && BlocksAccess(e, resource, access) then Err(ConflictingClaim)
      else if matching != [] then Err(InsufficientMode)
      else Err(MissingClaim)
    else if exists e :: e in external && Conflicts(granting[0], e, facts(granting[0], e)) then Err(ConflictingClaim)
    else Ok(AuthorizedResource(resource, ClaimIds(granting)))
  }

  /** The first denial, or all the paths. */
  ghost function AuthorizePaths(own: seq<Claim>, external: seq<Claim>, resources: seq<string>, access: Mode,
      facts: FactSource)
    : Result<seq<AuthorizedResource>, DenialCode>
  {
    if resources == [] then Ok([])
    else
      var before :- AuthorizePaths(own, external, resources[..|resources| - 1], access, facts);
      var last :- AuthorizePath(own, external, resources[|resources| - 1], access, facts);
      Ok(before + [last])
  }

  ghost function Authorize(s: Snapshot, operation: string, sessionId: string, resources: seq<string>, facts: FactSource)
    : Result<Decision, ErrorCode>
  {
    match AssertSnapshot(s) case Some(e) => Err(e) case None =>
    match RequiredAccess(operation) case None => Ok(Denied(UnknownOperation, None)) case Some(access) =>
    match FindSession(s.sessions, sessionId) case None => Ok(Denied(NoSession, None)) case Some(owner) =>
    if owner.state != "active" then Ok(Denied(InactiveSession, None))
    else if owner.repositoryId != s.repositoryId then Ok(Denied(NoSession, None))
    else if resources == [] || |resources| > CHECKPOINT_MAX_PATHS then Ok(Denied(UnusableResource, Some(access)))
    else
      match CanonicalizePaths(resources) case None => Ok(Denied(UnusableResource, Some(access))) case Some(paths) =>
      match AuthorizePaths(Own(s.claims, sessionId), External(s.claims, sessionId), paths, access, facts)
      case Err(code) => Ok(Denied(code, Some(access)))
      case Ok(authorized) => Ok(Allowed(access, authorized))
  }

  // ----- The loops

  method MatchingClaims(own: seq<Claim>, resource: string) returns (matching: seq<Claim>)
    requires IsCanonical(resource) && forall c :: c in own ==> IsCanonical(c.resource)
    ensures matching == Matching(own, resource)
  {
    matching := [];
    var i := |own|;
    while i > 0
      invariant 0 <= i <= |own| && matching == Matching(own[i..], resource)
    {
      i := i - 1;
      assert own[i..] == [own[i]] + own[i + 1..];
      CanonicalSelectsIsOverlap(own[i].resource, resource);
      var matches := ResourceMatchesClaim(own[i], resource);
      if matches { matching := [own[i]] + matching; }
    }
    assert own[0..] == own;
  }

  /** `resourceClaimConflictsWithAccess`. */
  method BlocksPath(claim: Claim, resource: string, access: Mode) returns (blocks: bool)
    requires IsCanonical(resource) && IsCanonical(claim.resource)
    ensures blocks == BlocksAccess(claim, resource, access)
  {
    CanonicalSelectsIsOverlap(claim.resource, resource);
    var matches := ResourceMatchesClaim(claim, resource);
    return matches && !Compatible(claim.mode, access);
  }

  method FindBlocking(external: seq<Claim>, resource: string, access: Mode) returns (found: bool)
    requires IsCanonical(resource) && forall c :: c in external ==> IsCanonical(c.resource)
    ensures found == exists e :: e in external && BlocksAccess(e, resource, access)
  {
    for i := 0 to |external|
      invariant forall k :: 0 <= k < i ==> !BlocksAccess(external[k], resource, access)
    {
      var blocks := BlocksPath(external[i], resource, access);
      if blocks { return true; }
    }
    return false;
  }

  method FindConflictWith(g: Claim, external: seq<Claim>, facts: FactSource) returns (found: bool)
    requires IsCanonical(g.resource) && forall c :: c in external ==> IsCanonical(c.resource)
    ensures found == exists e :: e in external && Conflicts(g, e, facts(g, e))
  {
    for i := 0 to |external|
      invariant forall k :: 0 <= k < i ==> !Conflicts(g, external[k], facts(g, external[k]))
    {
      var conflict := ClaimsConflict(g, external[i], facts(g, external[i]));
      if conflict { return true; }
    }
    return false;
  }

  method AuthorizeOnePath(own: seq<Claim>, external: seq<Claim>, resource: string, access: Mode, facts: FactSource)
    returns (r: Result<AuthorizedResource, DenialCode>)
    requires IsCanonical(resource) && forall c :: c in own || c in external ==> IsCanonical(c.resource)
    ensures r == AuthorizePath(own, external, resource, access, facts)
  {
    var matching := MatchingClaims(own, resource);
    var granting := Granting(matching, access);
    if granting == [] {
      var blocked := FindBlocking(external, resource, access);
      return Err(if blocked then ConflictingClaim else if matching != [] then InsufficientMode else MissingClaim);
    }
    assert granting[0] in granting;
    var conflict := FindConflictWith(granting[0], external, facts);
    if conflict { return Err(ConflictingClaim); }
    return Ok(AuthorizedResource(resource, ClaimIds(granting)));
  }

  lemma {:induction false} FirstDenialStays(
    own: seq<Claim>, external: seq<Claim>, resources: seq<string>, i: nat, access: Mode, facts: FactSource)
    requires i <= |resources| && AuthorizePaths(own, external, resources[..i], access, facts).Err?
    ensures AuthorizePaths(own, external, resources, access, facts)
      == AuthorizePaths(own, external, resources[..i], access, facts)
    decreases |resources| - i
  {
    if i == |resources| {
      assert resources[..i] == resources;
    } else {
      assert resources[..i + 1][..i] == resources[..i];
      FirstDenialStays(own, external, resources, i + 1, access, facts);
    }
  }

  /** `authorizeCoordinationOperation`. */
  method AuthorizeCoordinationOperation(
    s: Snapshot, operation: string, sessionId: string, resources: seq<string>, facts: FactSource)
    returns (result: Result<Decision, ErrorCode>)
    requires forall c :: c in s.claims ==> IsCanonical(c.resource)
    ensures result == Authorize(s, operation, sessionId, resources, facts)
  {
    var snapshotError := AssertSnapshot(s);
    if snapshotError.Some? { return Err(snapshotError.value); }
    var required := RequiredAccess(operation);
    if required == None { return Ok(Denied(UnknownOperation, None)); }
    var access := required.value;
    var found := FindSession(s.sessions, sessionId);
    if found == None { return Ok(Denied(NoSession, None)); }
    if found.value.state != "active" { return Ok(Denied(InactiveSession, None)); }
    if found.value.repositoryId != s.repositoryId { return Ok(Denied(NoSession, None)); }
    if resources == [] || |resources| > CHECKPOINT_MAX_PATHS { return Ok(Denied(UnusableResource, required)); }
    var canonical := CanonicalizePaths(resources);
    if canonical == None { return Ok(Denied(UnusableResource, required)); }
    CanonicalPathsAreAsGiven(resources);
    var paths := canonical.value;
    var own, external := Own(s.claims, sessionId), External(s.claims, sessionId);
    var authorized: seq<AuthorizedResource> := [];
    for i := 0 to |paths|
      invariant AuthorizePaths(own, external, paths[..i], access, facts) == Ok(authorized)
    {
      assert paths[..i + 1][..i] == paths[..i];
      var decision := AuthorizeOnePath(own, external, paths[i], access, facts);
      if decision.Err? {
        FirstDenialStays(own, external, paths, i + 1, access, facts);
        return Ok(Denied(decision.error, required));
      }
      authorized := authorized + [decision.value];
    }
    assert paths[..|paths|] == paths;
    return Ok(Allowed(access, authorized));
  }
}
