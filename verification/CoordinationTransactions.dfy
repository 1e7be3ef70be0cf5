/** Planning one claim transaction against a snapshot: what each stage computes. */
module CoordinationTransactions {
  import opened Resources
  import opened ResourceClaims
  import opened Wrappers
  import Sorting

  datatype Session = Session(sessionId: string, state: string, repositoryId: string, worktreePath: string) {
    function Owner(): Owner {
      ResourceClaims.Owner.Owner(sessionId, repositoryId, worktreePath)
    }
  }

  datatype Snapshot = Snapshot(repositoryId: string, claimSetGeneration: int, sessions: seq<Session>,
      claims: seq<Claim>)

  datatype Kind = Acquire | Replace | Delta | Release

  datatype ClaimInput = ClaimInput(
    resource: string,
    mode: Mode,
    repositoryId: Option<string>,
    sessionId: Option<string>,
    worktreePath: Option<string>,
    sharing: Option<Sharing>)

  datatype DeltaInput =
    | UpsertInput(resource: string, mode: Mode, sharing: Option<Sharing>)
    | ReleaseInput(resource: string)

  datatype ExecutionState = Active | Draining | Stopped | Unknown

  datatype Execution = Execution(
    executionId: string, sessionId: string, state: ExecutionState, managed: bool, resources: Option<seq<string>>)

  datatype Request = Request(
    kind: Kind,
    sessionId: string,
    repositoryId: Option<string>,
    claims: Option<seq<ClaimInput>>,
    deltas: Option<seq<DeltaInput>>,
    resources: Option<seq<string>>,
    sharing: Option<Sharing>,
    expected: Option<int>,
    force: bool,
    timestamp: string,
    executions: seq<Execution>)

  datatype ChangeKind = Added | Changed | Released | Unchanged

  datatype Change = Change(resource: string, before: Option<Claim>, after: Option<Claim>, kind: ChangeKind)

  datatype Plan = Plan(
    repositoryId: string,
    sessions: seq<Session>,
    claims: seq<Claim>,
    previousClaimSetGeneration: int,
    claimSetGeneration: int,
    changes: seq<Change>,
    idempotent: bool,
    sessionId: string,
    sessionClaims: seq<Claim>)

  /** A desired claim after validation. */
  datatype Desired = Desired(resource: string, mode: Mode, sharing: Option<Sharing>)

  datatype NormalDelta = Upsert(desired: Desired) | Drop(dropped: string) {
    function Resource(): string {
      match this
      case Upsert(d) => d.resource
      case Drop(r) => r
    }
  }

  datatype Normalized =
    | AcquireAll(acquired: seq<Desired>)
    | ReplaceBy(replacement: seq<Desired>)
    | ReleaseAll(released: set<string>)
    | ApplyDeltas(deltas: seq<NormalDelta>)

  // ----- Validation of the snapshot, the request, the owner and the concurrency intent

  predicate SafeGeneration(n: int) {
    0 <= n <= MAX_SAFE_INTEGER
  }

  function AssertSnapshot(s: Snapshot): Option<ErrorCode> {
    if s.repositoryId == "" || !SafeGeneration(s.claimSetGeneration) then Some(InvalidOperation) else None
  }

  function AssertRequest(r: Request): Option<ErrorCode> {
    if r.sessionId == "" || (r.force && r.expected.Some?) then Some(InvalidOperation) else None
  }

  function FindSession(sessions: seq<Session>, id: string): (found: Option<Session>)
    ensures found.Some? ==> found.value in sessions && found.value.sessionId == id
  {
    if sessions == [] then None
    else if sessions[0].sessionId == id then Some(sessions[0])
    else FindSession(sessions[1..], id)
  }

  function SelectOwner(s: Snapshot, r: Request): Result<Session, ErrorCode> {
    match FindSession(s.sessions, r.sessionId)
    case None => Err(SessionNotFound)
    case Some(owner) =>
      if owner.state != "active" then Err(SessionNotActive)
      else if r.repositoryId.Some? && r.repositoryId.value != s.repositoryId then Err(RepositoryMismatch)
      else if owner.repositoryId != s.repositoryId then Err(RepositoryMismatch)
      else Ok(owner)
  }

  function AssertConcurrency(actual: int, r: Request): Option<ErrorCode> {
    if r.kind != Acquire && r.expected.Some? == r.force then Some(InvalidOperation)
    else if r.expected.Some? && !SafeGeneration(r.expected.value) then Some(InvalidOperation)
    else if r.expected.Some? && r.expected.value != actual then Some(StaleClaimSet)
    else None
  }

  // ----- Normalizing the request

  function CanonicalizeClaimInput(input: ClaimInput, owner: Session): Result<Desired, ErrorCode> {
    if input.repositoryId.Some? && input.repositoryId.value != owner.repositoryId then Err(ClaimRepositoryMismatch)
    else if input.sessionId.Some? && input.sessionId.value != owner.sessionId then Err(ClaimSessionMismatch)
    else if input.worktreePath.Some? && input.worktreePath.value != owner.worktreePath then Err(ClaimSessionMismatch)
    else
      var sharing :- ValidateSharing(input.sharing, input.mode);
      var resource :- CanonicalizeResource(input.resource);
      Ok(Desired(resource, input.mode, sharing))
  }

  function OrElse(sharing: Option<Sharing>, fallback: Option<Sharing>): Option<Sharing> {
    if sharing.Some? then sharing else fallback
  }

  function CanonicalizeAll(inputs: seq<ClaimInput>, owner: Session, sharing: Option<Sharing>)
    : (r: Result<seq<Desired>, ErrorCode>)
    ensures r.Ok? ==> forall d :: d in r.value ==> IsCanonical(d.resource)
  {
    if inputs == [] then Ok([])
    else
      var first :- CanonicalizeClaimInput(inputs[0].(sharing := OrElse(inputs[0].sharing, sharing)), owner);
      var rest :- CanonicalizeAll(inputs[1..], owner, sharing);
      CanonicalizationIsIdentity(inputs[0].resource);
      Ok([first] + rest)
  }

  predicate DistinctResources(ds: seq<Desired>) {
    forall i, j :: 0 <= i < j < |ds| ==> ds[i].resource != ds[j].resource
  }

  function DesiredKey(d: Desired): string {
    d.resource + "\0" + d.mode.Name() + "\0" +
    match d.sharing
    case None => "\0"
    case Some(s) => s.kind + "\0" + s.groupId
  }

  function CanonicalInputs(inputs: seq<ClaimInput>, owner: Session, sharing: Option<Sharing>)
    : Result<seq<Desired>, ErrorCode>
  {
    var all :- CanonicalizeAll(inputs, owner, sharing);
    if DistinctResources(all) then Ok(Sorting.SortBy(all, DesiredKey)) else Err(DuplicateClaim)
  }

  function CanonicalizeResources(resources: seq<string>): (r: Result<set<string>, ErrorCode>) {
    if resources == [] then Ok({})
    else
      var first :- CanonicalizeResource(resources[0]);
      var rest :- CanonicalizeResources(resources[1..]);
      Ok({first} + rest)
  }

  function NormalizeDelta(delta: DeltaInput, owner: Session, sharing: Option<Sharing>)
    : (r: Result<NormalDelta, ErrorCode>)
    ensures r.Ok? ==> IsCanonical(r.value.Resource()) && r.value.Resource() == delta.resource
  {
    var resource :- CanonicalizeResource(delta.resource);
    CanonicalizationIsIdentity(delta.resource);
    match delta
    case ReleaseInput(_) => Ok(Drop(resource))
    case UpsertInput(_, mode, own) =>
      var input := ClaimInput(delta.resource, mode, None, None, None, OrElse(own, sharing));
      var desired :- CanonicalizeClaimInput(input, owner);
      Ok(Upsert(desired))
  }

  function NormalizeDeltas(deltas: seq<DeltaInput>, owner: Session, sharing: Option<Sharing>, seen: set<string>)
    : Result<seq<NormalDelta>, ErrorCode>
  {
    if deltas == [] then Ok([])
    else
      var resource :- CanonicalizeResource(deltas[0].resource);
      if resource in seen then Err(DuplicateClaim)
      else
        var first :- NormalizeDelta(deltas[0], owner, sharing);
        var rest :- NormalizeDeltas(deltas[1..], owner, sharing, seen + {resource});
        Ok([first] + rest)
  }

  predicate SharingAgrees(own: Option<Sharing>, sharing: Option<Sharing>) {
    own.Some? && sharing.Some? ==> own == sharing
  }

  function NormalizeRequest(owner: Session, r: Request): Result<Normalized, ErrorCode> {
    match r.kind
    case Release =>
      if r.resources == None || r.resources.value == [] then Err(InvalidClaim)
      else if r.deltas.Some? || r.claims.Some? || r.sharing.Some? then Err(InvalidOperation)
      else
        var released :- CanonicalizeResources(r.resources.value);
        Ok(ReleaseAll(released))
    case Delta =>
      var deltas := if r.deltas.Some? then r.deltas.value else [];
      if deltas == [] then Err(InvalidClaim)
      else if exists d :: d in deltas && d.UpsertInput? && !SharingAgrees(d.sharing, r.sharing) then
        Err(ContradictoryClaim)
      else
        var normal :- NormalizeDeltas(deltas, owner, r.sharing, {});
        Ok(ApplyDeltas(normal))
    case _ =>
      var inputs := if r.claims.Some? then r.claims.value else [];
      if r.kind == Acquire && inputs == [] then Err(InvalidClaim)
      else if exists c :: c in inputs && !SharingAgrees(c.sharing, r.sharing) then Err(ContradictoryClaim)
      else
        var desired :- CanonicalInputs(inputs, owner, r.sharing);
        Ok(if r.kind == Acquire then AcquireAll(desired) else ReplaceBy(desired))
  }

  // ----- The next claims of the session, by resource

  function Own(claims: seq<Claim>, sessionId: string): (own: seq<Claim>)
    ensures forall c :: c in own <==> c in claims && c.sessionId == sessionId
  {
    if claims == [] then []
    else (if claims[0].sessionId == sessionId then [claims[0]] else []) + Own(claims[1..], sessionId)
  }

  function External(claims: seq<Claim>, sessionId: string): (external: seq<Claim>)
    ensures forall c :: c in external <==> c in claims && c.sessionId != sessionId
  {
    if claims == [] then []
    else (if claims[0].sessionId != sessionId then [claims[0]] else []) + External(claims[1..], sessionId)
  }

  /** A map by resource; of several claims on one resource the last stays. */
  function ByResource(claims: seq<Claim>): (m: map<string, Claim>)
    ensures forall k :: k in m ==> m[k] in claims && m[k].resource == k
    ensures forall c :: c in claims ==> c.resource in m
  {
    if claims == [] then map[]
    else ByResource(claims[..|claims| - 1])[claims[|claims| - 1].resource := claims[|claims| - 1]]
  }

  predicate EquivalentInput(c: Claim, d: Desired) {
    c.mode == d.mode && c.sharing == d.sharing
  }

  /** What stands on a desired resource afterwards: the claim already there if it says the same. */
  function Settle(current: map<string, Claim>, d: Desired, owner: Session, timestamp: string): (c: Claim)
    ensures d.resource in current && current[d.resource].resource == d.resource ==> c.resource == d.resource
    ensures d.resource !in current ==> c.resource == d.resource
  {
    if d.resource in current && EquivalentInput(current[d.resource], d) then current[d.resource]
    else CreateClaim(d.resource, d.mode, d.sharing, owner.Owner(), timestamp)
  }

  predicate Wants(ds: seq<Desired>, resource: string) {
    exists d :: d in ds && d.resource == resource
  }

  ghost function WantedOn(ds: seq<Desired>, resource: string): (d: Desired)
    requires Wants(ds, resource)
    ensures d in ds && d.resource == resource
  {
    var d :| d in ds && d.resource == resource;
    d
  }

  function Wanted(ds: seq<Desired>): (s: set<string>)
    ensures forall k :: k in s <==> Wants(ds, k)
  {
    set d | d in ds :: d.resource
  }

  function Upserts(ds: seq<NormalDelta>): (us: seq<Desired>)
    ensures forall d :: d in us <==> Upsert(d) in ds
  {
    if ds == [] then [] else (if ds[0].Upsert? then [ds[0].desired] else []) + Upserts(ds[1..])
  }

  function Drops(ds: seq<NormalDelta>): (s: set<string>)
    ensures forall k :: k in s <==> Drop(k) in ds
  {
    if ds == [] then {} else (if ds[0].Drop? then {ds[0].dropped} else {}) + Drops(ds[1..])
  }

  /** Each desired resource settled. */
  ghost function Settled(current: map<string, Claim>, ds: seq<Desired>, owner: Session, timestamp: string)
    : map<string, Claim>
  {
    map k | k in Wanted(ds) :: Settle(current, WantedOn(ds, k), owner, timestamp)
  }

  predicate Contradicts(current: map<string, Claim>, d: Desired) {
    d.resource in current && !EquivalentInput(current[d.resource], d)
  }

  ghost function NextClaims(current: map<string, Claim>, request: Normalized, owner: Session, timestamp: string)
    : Result<map<string, Claim>, ErrorCode>
  {
    match request
    case ReplaceBy(ds) => Ok(Settled(current, ds, owner, timestamp))
    case AcquireAll(ds) =>
      if exists d :: d in ds && Contradicts(current, d) then Err(ContradictoryClaim)
      else Ok(current + Settled(current, ds, owner, timestamp))
    case ReleaseAll(released) => Ok(current - released)
    case ApplyDeltas(ds) => Ok((current - Drops(ds)) + Settled(current, Upserts(ds), owner, timestamp))
  }

  ghost function Enumerate(s: set<Claim>): (cs: seq<Claim>)
    ensures multiset(cs) == multiset(s)
  {
    if s == {} then []
    else
      var c :| c in s;
      assert s == (s - {c}) + {c};
      [c] + Enumerate(s - {c})
  }

  /** The claims of a map in the order of their sort keys. */
  ghost function SortedValues(m: map<string, Claim>): seq<Claim> {
    SortClaims(Enumerate(m.Values))
  }

  // ----- The checks on the next claims

  ghost predicate SelfOverlaps(own: seq<Claim>) {
    exists i, j :: 0 <= j < i < |own| && ClaimsMeet(own[i], own[j])
  }

  ghost predicate ConflictsWithAny(own: seq<Claim>, external: seq<Claim>, facts: FactSource) {
    exists c, e :: c in own && e in external && Conflicts(c, e, facts(c, e))
  }

  ghost function AssertCompleteClaimSet(own: seq<Claim>, external: seq<Claim>, repositoryId: string, facts: FactSource)
    : Option<ErrorCode>
  {
    if SelfOverlaps(own) then Some(ContradictoryClaim)
    else if ConflictsWithAny(own, external, facts) then Some(ResourceClaimConflict)
    else if exists c :: c in own && c.repositoryId != repositoryId then Some(RepositoryMismatch)
    else None
  }

  function GroupOf(c: Claim): Option<string> {
    if c.sharing.Some? then Some(c.sharing.value.groupId) else None
  }

  predicate Shrinks(before: Claim, after: Option<Claim>) {
    after == None
    || !GrantsAccess(after.value.mode, before.mode)
    || (before.mode == Write && after.value.mode == Write && GroupOf(before) != GroupOf(after.value))
  }

  /** Some resource of the list is selected by the claim's. */
  ghost predicate SelectsAny(resource: string, resources: seq<string>) {
    resources != [] &&
    (SelectsAny(resource, resources[..|resources| - 1]) || Selects(resource, resources[|resources| - 1]))
  }

  ghost predicate ExecutionOverlaps(x: Execution, c: Claim) {
    x.resources == None || x.resources.value == [] || SelectsAny(c.resource, x.resources.value)
  }

  /** A managed execution of the claim's session that has not stopped and may touch the claim. */
  ghost predicate Busy(x: Execution, c: Claim) {
    x.sessionId == c.sessionId && x.managed && x.state != Stopped && ExecutionOverlaps(x, c)
  }

  function At(m: map<string, Claim>, resource: string): Option<Claim> {
    if resource in m then Some(m[resource]) else None
  }

  ghost predicate Undrained(before: seq<Claim>, after: seq<Claim>, executions: seq<Execution>) {
    exists c, x :: c in before && x in executions && Shrinks(c, At(ByResource(after), c.resource)) && Busy(x, c)
  }

  ghost function AssertExecutionDrain(before: seq<Claim>, after: seq<Claim>, executions: seq<Execution>)
    : Option<ErrorCode>
  {
    if Undrained(before, after, executions) then Some(OperationRejected) else None
  }

  // ----- The change list and the plan

  function ResourcesOf(claims: seq<Claim>): (rs: seq<string>)
    ensures |rs| == |claims| && forall i :: 0 <= i < |rs| ==> rs[i] == claims[i].resource
  {
    seq(|claims|, i requires 0 <= i < |claims| => claims[i].resource)
  }

  function FindClaim(claims: seq<Claim>, resource: string): (found: Option<Claim>)
    ensures found.Some? ==> found.value in claims && found.value.resource == resource
    ensures found == None ==> forall c :: c in claims ==> c.resource != resource
  {
    if claims == [] then None
    else if claims[0].resource == resource then Some(claims[0])
    else FindClaim(claims[1..], resource)
  }

  predicate Equivalent(l: Claim, r: Claim) {
    l.claimId == r.claimId && l.mode == r.mode && l.sharing == r.sharing
  }

  function ChangeOn(before: seq<Claim>, after: seq<Claim>, resource: string): Change {
    var prior, next := FindClaim(before, resource), At(ByResource(after), resource);
    var kind :=
      if prior == None && next.Some? then Added
      else if prior.Some? && next == None then Released
      else if prior.Some? && next.Some? && Equivalent(prior.value, next.value) then Unchanged
      else Changed;
    Change(resource, prior, next, kind)
  }

  function TouchedResources(before: seq<Claim>, after: seq<Claim>): seq<string> {
    Sorting.SortBy(Sorting.Unique(ResourcesOf(before) + ResourcesOf(after)), (s: string) => s)
  }

  function BuildChanges(before: seq<Claim>, after: seq<Claim>): seq<Change> {
    var resources := TouchedResources(before, after);
    seq(|resources|, i requires 0 <= i < |resources| => ChangeOn(before, after, resources[i]))
  }

  function Assemble(s: Snapshot, owner: Session, next: seq<Claim>): Plan {
    var changes := BuildChanges(Own(s.claims, owner.sessionId), next);
    var generation :=
      if exists c :: c in changes && c.kind != Unchanged then s.claimSetGeneration + 1 else s.claimSetGeneration;
    Plan(s.repositoryId, s.sessions, SortClaims(External(s.claims, owner.sessionId) + next), s.claimSetGeneration,
         generation, changes, generation == s.claimSetGeneration, owner.sessionId, next)
  }

  ghost function PlanTransaction(s: Snapshot, r: Request, facts: FactSource): Result<Plan, ErrorCode> {
    match AssertSnapshot(s) case Some(e) => Err(e) case None =>
    match AssertRequest(r) case Some(e) => Err(e) case None =>
    match SelectOwner(s, r) case Err(e) => Err(e) case Ok(owner) =>
    match AssertConcurrency(s.claimSetGeneration, r) case Some(e) => Err(e) case None =>
    match NormalizeRequest(owner, r) case Err(e) => Err(e) case Ok(request) =>
    var current := Own(s.claims, owner.sessionId);
    match NextClaims(ByResource(current), request, owner, r.timestamp) case Err(e) => Err(e) case Ok(m) =>
    var next := SortedValues(m);
    match AssertCompleteClaimSet(next, External(s.claims, owner.sessionId), s.repositoryId, facts)
    case Some(e) => Err(e) case None =>
    match AssertExecutionDrain(current, next, r.executions) case Some(e) => Err(e) case None =>
    Ok(Assemble(s, owner, next))
  }
}
